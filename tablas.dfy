// Rows of the three tables (usuarios, categorias, productos), the integer
// range SQLite accepts for an INTEGER parameter, the default category seed,
// and the row lookup by primary key shared by search, update and delete.
module Tablas {
  import opened Wrappers
  import opened Seqs

  /** SQLite stores INTEGER values as signed 64-bit numbers; Python's sqlite3
      driver raises OverflowError (not sqlite3.Error, so nothing in the store
      catches it) for an int parameter outside this range. */
  const MinInt64: int := -0x8000_0000_0000_0000
  const MaxInt64: int := 0x7FFF_FFFF_FFFF_FFFF

  predicate InInt64(n: int) {
    MinInt64 <= n <= MaxInt64
  }

  /** A row of usuarios. The surrogate id is never read by any operation. */
  datatype Usuario = Usuario(nombreUsuario: string, contrasena: string)

  /** A row of productos. `precio` is a REAL column that the store only
      stores and returns; `categoria` is free text, not a reference into
      the categorias table. */
  datatype Producto = Producto(
    id: nat,
    nombre: string,
    descripcion: string,
    cantidad: int,
    precio: real,
    categoria: string)

  /** The categories inserted, in this order, into an empty categorias table. */
  const CategoriasPorDefecto: seq<string> := [
    "Fruta", "Verdura", "Lácteo", "Grano", "Bebida", "Alcohol",
    "Papeleria", "Golosinas", "Perfumeria", "Panaderia",
    "Carnes", "Congelados", "Especias y condimentos", "Limpieza", "Otros"
  ]

  /** The UNIQUE constraint on usuarios.nombre_usuario. */
  predicate NombresUnicos(us: seq<Usuario>) {
    forall i, j :: 0 <= i < j < |us| ==> us[i].nombreUsuario != us[j].nombreUsuario
  }

  predicate NombreRegistrado(us: seq<Usuario>, nombre: string) {
    exists i :: 0 <= i < |us| && us[i].nombreUsuario == nombre
  }

  /** Rows listed in rowid order, which with AUTOINCREMENT is insertion order. */
  predicate IdsCrecientes(ps: seq<Producto>) {
    forall i, j :: 0 <= i < j < |ps| ==> ps[i].id < ps[j].id
  }

  predicate IdPresente(ps: seq<Producto>, id: int) {
    exists i :: 0 <= i < |ps| && ps[i].id == id
  }

  lemma IdsCrecientesSinRepetidos(ps: seq<Producto>)
    requires IdsCrecientes(ps)
    ensures Distinct(ps)
  {
    forall i, j | 0 <= i < j < |ps| ensures ps[i] != ps[j] {
      assert ps[i].id < ps[j].id;
    }
  }

  /** `WHERE id = ?` followed by fetchone(): the position of the first row
      holding that primary key, or None when no row does. */
  function IndiceDeId(ps: seq<Producto>, id: int): (r: Option<nat>)
    ensures r.Some? <==> IdPresente(ps, id)
    ensures r.Some? ==> r.value < |ps| && ps[r.value].id == id
    ensures r.Some? ==> forall j :: 0 <= j < r.value ==> ps[j].id != id
    decreases |ps|
  {
    if ps == [] then None
    else if ps[0].id == id then Some(0)
    else
      match IndiceDeId(ps[1..], id)
      case None =>
        assert forall j :: 1 <= j < |ps| ==> ps[j] == ps[1..][j - 1];
        None
      case Some(k) => Some(k + 1)
  }

  /** With increasing ids, the row found by key is the only row with that key. */
  lemma IndiceDeIdUnico(ps: seq<Producto>, id: int, j: nat)
    requires IdsCrecientes(ps)
    requires j < |ps| && ps[j].id == id
    ensures IndiceDeId(ps, id) == Some(j)
  {
  }

  /** DELETE of the row at position i, which holds key id: exactly the rows
      with that key are gone, the others keep their order. */
  lemma EliminarFila(ps: seq<Producto>, id: int, i: nat)
    requires IdsCrecientes(ps)
    requires i < |ps| && ps[i].id == id
    ensures var r := ps[..i] + ps[i + 1..];
      && |r| == |ps| - 1
      && IdsCrecientes(r)
      && (forall p :: p in r <==> p in ps && p.id != id)
  {
    var r := ps[..i] + ps[i + 1..];
    assert forall k :: 0 <= k < |r| ==> r[k] == if k < i then ps[k] else ps[k + 1];
    forall p | p in ps ensures p in r <==> p.id != id {
      var j :| 0 <= j < |ps| && ps[j] == p;
      if j < i {
        assert r[j] == p;
      } else if j > i {
        assert r[j - 1] == p;
      }
    }
  }

  /** INSERT OR IGNORE INTO categorias: append the name unless the UNIQUE
      constraint on nombre already holds a row with it. */
  function InsertarOIgnorar(cs: seq<string>, nombre: string): (r: seq<string>)
    ensures forall c :: c in r <==> c in cs || c == nombre
    ensures Distinct(cs) ==> Distinct(r)
    ensures |cs| <= |r| <= |cs| + 1 && r[..|cs|] == cs
  {
    if nombre in cs then cs else cs + [nombre]
  }

  /** Inserting the same category twice leaves the table as inserting it once. */
  lemma InsertarOIgnorarIdempotente(cs: seq<string>, nombre: string)
    ensures InsertarOIgnorar(InsertarOIgnorar(cs, nombre), nombre) == InsertarOIgnorar(cs, nombre)
  {
  }
}
