// The store's read-only queries, each a single SELECT over one table: they
// take the table's rows (in storage order) and return what the SELECT
// returns. None of them changes anything.
module Consultas {
  import opened Wrappers
  import opened Text
  import opened Seqs
  import opened Tablas

  // ---- usuarios ----------------------------------------------------------------

  /** obtener_usuario: SELECT nombre_usuario ... WHERE nombre_usuario = ? AND
      contrasena = ?, fetchone(). Plain equality on both columns: no hashing. */
  function ObtenerUsuario(us: seq<Usuario>, nombre: string, contrasena: string): (r: Option<string>)
    ensures r.Some? <==> Usuario(nombre, contrasena) in us
    ensures r.Some? ==> r.value == nombre
    decreases |us|
  {
    if us == [] then None
    else if us[0].nombreUsuario == nombre && us[0].contrasena == contrasena then Some(us[0].nombreUsuario)
    else ObtenerUsuario(us[1..], nombre, contrasena)
  }

  /** obtener_todos_los_usuarios: SELECT nombre_usuario, contrasena FROM usuarios. */
  function ObtenerTodosLosUsuarios(us: seq<Usuario>): (r: seq<(string, string)>)
    ensures |r| == |us|
    ensures forall nombre, contrasena :: (nombre, contrasena) in r <==> Usuario(nombre, contrasena) in us
    decreases |us|
  {
    if us == [] then []
    else
      assert us == [us[0]] + us[1..];
      [(us[0].nombreUsuario, us[0].contrasena)] + ObtenerTodosLosUsuarios(us[1..])
  }

  /** Registering a new name makes its own credentials, and only those, log in. */
  lemma RegistroLuegoLogin(us: seq<Usuario>, nombre: string, contrasena: string, intento: string)
    requires !NombreRegistrado(us, nombre)
    ensures ObtenerUsuario(us + [Usuario(nombre, contrasena)], nombre, intento)
         == if intento == contrasena then Some(nombre) else None
  {
  }

  // ---- productos ---------------------------------------------------------------

  /** ORDER BY nombre ASC */
  predicate NombreLe(a: Producto, b: Producto) {
    StrLe(a.nombre, b.nombre)
  }

  /** ORDER BY cantidad ASC, nombre ASC */
  predicate CantidadNombreLe(a: Producto, b: Producto) {
    a.cantidad < b.cantidad || (a.cantidad == b.cantidad && StrLe(a.nombre, b.nombre))
  }

  lemma NombreLeEsPreordenTotal()
    ensures TotalPreorder(NombreLe)
  {
    forall a: Producto, b: Producto ensures NombreLe(a, b) || NombreLe(b, a) {
      StrLeTotal(a.nombre, b.nombre);
    }
    forall a: Producto, b: Producto, c: Producto | NombreLe(a, b) && NombreLe(b, c)
      ensures NombreLe(a, c)
    {
      StrLeTransitive(a.nombre, b.nombre, c.nombre);
    }
  }

  lemma CantidadNombreLeEsPreordenTotal()
    ensures TotalPreorder(CantidadNombreLe)
  {
    forall a: Producto, b: Producto ensures CantidadNombreLe(a, b) || CantidadNombreLe(b, a) {
      StrLeTotal(a.nombre, b.nombre);
    }
    forall a: Producto, b: Producto, c: Producto | CantidadNombreLe(a, b) && CantidadNombreLe(b, c)
      ensures CantidadNombreLe(a, c)
    {
      if a.cantidad == b.cantidad == c.cantidad {
        StrLeTransitive(a.nombre, b.nombre, c.nombre);
      }
    }
  }

  /** obtener_todos_los_productos: every row, ordered by name. Rows with equal
      names come out in some order; SQL leaves it open and so does this
      contract. */
  function ObtenerTodosLosProductos(ps: seq<Producto>): (r: seq<Producto>)
    ensures Sorted(r, NombreLe)
    ensures multiset(r) == multiset(ps)
  {
    NombreLeEsPreordenTotal();
    Sort(ps, NombreLe)
  }

  /** obtener_productos_por_cantidad_limite: the rows with cantidad <= limite,
      each exactly as often as in the table, ordered by cantidad then nombre.
      The limit is bound as an SQL INTEGER, so it must fit in 64 bits. */
  function ObtenerProductosPorCantidadLimite(ps: seq<Producto>, limite: int): (r: seq<Producto>)
    requires InInt64(limite)
    ensures Sorted(r, CantidadNombreLe)
    ensures forall p :: p in r <==> p in ps && p.cantidad <= limite
    ensures forall p :: multiset(r)[p] == if p.cantidad <= limite then multiset(ps)[p] else 0
  {
    var bajo := (p: Producto) => p.cantidad <= limite;
    FilterMultiset(ps, bajo);
    CantidadNombreLeEsPreordenTotal();
    Sort(Filter(ps, bajo), CantidadNombreLe)
  }

  // ---- categorias --------------------------------------------------------------

  /** obtener_categorias: SELECT nombre FROM categorias ORDER BY nombre ASC. */
  function ObtenerCategorias(cs: seq<string>): (r: seq<string>)
    ensures Sorted(r, StrLe)
    ensures multiset(r) == multiset(cs)
  {
    assert TotalPreorder(StrLe) by {
      forall a: string, b: string ensures StrLe(a, b) || StrLe(b, a) {
        StrLeTotal(a, b);
      }
      forall a: string, b: string, c: string | StrLe(a, b) && StrLe(b, c) ensures StrLe(a, c) {
        StrLeTransitive(a, b, c);
      }
    }
    Sort(cs, StrLe)
  }

  /** Since categorias.nombre is UNIQUE, the listing is strictly ascending. */
  lemma CategoriasEstrictamenteOrdenadas(cs: seq<string>)
    requires Distinct(cs)
    ensures var r := ObtenerCategorias(cs);
      forall i, j :: 0 <= i < j < |r| ==> StrLe(r[i], r[j]) && r[i] != r[j]
  {
    var r := ObtenerCategorias(cs);
    forall i, j | 0 <= i < j < |r| ensures r[i] != r[j] {
      if r[i] == r[j] {
        RepeatedCount(r, i, j);
        DistinctCount(cs, r[i]);
      }
    }
  }
}
