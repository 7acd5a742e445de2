// The SQLite file as in-memory state: the rows of usuarios, categorias and
// productos in storage order, and the AUTOINCREMENT counter of productos.
// Every write either commits, which assigns the new rows, or leaves its
// table as it was. The parameter `fallo` stands for a sqlite3.Error raised
// by the engine (or a connection that could not be opened); the write is
// then undone, by a rollback or by closing the connection uncommitted,
// and every write but CrearTablas reports False or None.
module Persistencia {
  import opened Wrappers
  import opened Text
  import opened Seqs
  import opened Tablas
  import opened Busqueda
  import Consultas

  class BaseDeDatos {
    var usuarios: seq<Usuario>
    var categorias: seq<string>
    var productos: seq<Producto>
    /** sqlite_sequence's counter for productos: the id the next INSERT gets. */
    var siguienteId: nat
    /** Every id ever handed out, including those of rows deleted since. */
    ghost var idsAsignados: set<nat>

    /** The constraints of the schema, and AUTOINCREMENT's bookkeeping:
        every id handed out lies below the counter. */
    ghost predicate Valid()
      reads this
    {
      && NombresUnicos(usuarios)
      && Distinct(categorias)
      && IdsCrecientes(productos)
      && 1 <= siguienteId <= MaxInt64 + 1
      && (forall id :: id in idsAsignados ==> 1 <= id < siguienteId)
      && (forall p :: p in productos ==> p.id in idsAsignados)
    }

    /** A database file whose three tables exist and hold no rows. */
    constructor ()
      ensures Valid()
      ensures usuarios == [] && categorias == [] && productos == []
      ensures siguienteId == 1 && idsAsignados == {}
    {
      usuarios, categorias, productos := [], [], [];
      siguienteId := 1;
      idsAsignados := {};
    }

    /** crear_tablas: seeds the default categories, in their listed order,
        only when the categorias table is empty. */
    method CrearTablas(fallo: bool)
      requires Valid()
      modifies this
      ensures Valid()
      ensures categorias == if !fallo && old(categorias) == [] then CategoriasPorDefecto else old(categorias)
      ensures usuarios == old(usuarios) && productos == old(productos)
      ensures siguienteId == old(siguienteId) && idsAsignados == old(idsAsignados)
    {
      if |categorias| == 0 {
        var pendientes := categorias;
        for i := 0 to |CategoriasPorDefecto|
          invariant pendientes == CategoriasPorDefecto[..i]
        {
          pendientes := pendientes + [CategoriasPorDefecto[i]];
        }
        if !fallo {
          assert CategoriasPorDefecto[..|CategoriasPorDefecto|] == CategoriasPorDefecto;
          categorias := pendientes;
        }
      }
    }

    /** agregar_usuario: INSERT under the UNIQUE constraint on nombre_usuario.
        A taken name (IntegrityError) and an engine fault both roll back
        and report False. */
    method AgregarUsuario(nombre: string, contrasena: string, fallo: bool) returns (ok: bool)
      requires Valid()
      modifies this
      ensures Valid()
      ensures ok <==> !fallo && !NombreRegistrado(old(usuarios), nombre)
      ensures usuarios == if ok then old(usuarios) + [Usuario(nombre, contrasena)] else old(usuarios)
      ensures ok ==> Consultas.ObtenerUsuario(usuarios, nombre, contrasena) == Some(nombre)
      ensures categorias == old(categorias) && productos == old(productos)
      ensures siguienteId == old(siguienteId) && idsAsignados == old(idsAsignados)
    {
      if fallo {
        return false;
      }
      if NombreRegistrado(usuarios, nombre) {
        return false;
      }
      usuarios := usuarios + [Usuario(nombre, contrasena)];
      ok := true;
    }

    /** eliminar_todos_los_usuarios: DELETE FROM usuarios, reporting True even
        when the table was already empty. */
    method EliminarTodosLosUsuarios(fallo: bool) returns (ok: bool)
      requires Valid()
      modifies this
      ensures Valid()
      ensures ok == !fallo
      ensures usuarios == if ok then [] else old(usuarios)
      ensures Consultas.ObtenerTodosLosUsuarios(usuarios) == if ok then [] else Consultas.ObtenerTodosLosUsuarios(old(usuarios))
      ensures categorias == old(categorias) && productos == old(productos)
      ensures siguienteId == old(siguienteId) && idsAsignados == old(idsAsignados)
    {
      if fallo {
        return false;
      }
      usuarios := [];
      ok := true;
    }

    /** agregar_producto: INSERT of one row; the row gets the next
        AUTOINCREMENT id, larger than any id handed out before. When the
        counter has reached the largest 64-bit rowid, SQLite refuses the
        insert (SQLITE_FULL) and the call reports None like any other fault.
        The store itself checks neither cantidad >= 0, precio >= 0 nor a
        non-empty name. */
    method AgregarProducto(nombre: string, descripcion: string, cantidad: int, precio: real,
                           categoria: string, fallo: bool) returns (id: Option<nat>)
      requires Valid()
      requires InInt64(cantidad)
      modifies this
      ensures Valid()
      ensures id.Some? <==> !fallo && old(siguienteId) <= MaxInt64
      ensures id.Some? ==>
        && id.value == old(siguienteId)
        && siguienteId == old(siguienteId) + 1
        && id.value !in old(idsAsignados)
        && (forall x :: x in old(idsAsignados) ==> x < id.value)
        && (forall p :: p in old(productos) ==> p.id < id.value)
        && productos == old(productos) + [Producto(id.value, nombre, descripcion, cantidad, precio, categoria)]
        && idsAsignados == old(idsAsignados) + {id.value}
      ensures id.None? ==>
        productos == old(productos) && siguienteId == old(siguienteId) && idsAsignados == old(idsAsignados)
      ensures usuarios == old(usuarios) && categorias == old(categorias)
    {
      if fallo || siguienteId > MaxInt64 {
        return None;
      }
      var nuevo := Producto(siguienteId, nombre, descripcion, cantidad, precio, categoria);
      productos := productos + [nuevo];
      idsAsignados := idsAsignados + {siguienteId};
      id := Some(siguienteId);
      siguienteId := siguienteId + 1;
    }

    /** actualizar_producto: UPDATE of all five fields WHERE id = ?. The
        code commits before it looks at rowcount, so its rollback on zero
        rows undoes nothing; zero rows were changed, and the call reports
        False. */
    method ActualizarProducto(id: int, nombre: string, descripcion: string, cantidad: int,
                              precio: real, categoria: string, fallo: bool) returns (ok: bool)
      requires Valid()
      requires InInt64(id) && InInt64(cantidad)
      modifies this
      ensures Valid()
      ensures ok <==> !fallo && IdPresente(old(productos), id)
      ensures |productos| == |old(productos)|
      ensures forall j :: 0 <= j < |productos| ==>
        productos[j] == if ok && old(productos)[j].id == id
                        then Producto(old(productos)[j].id, nombre, descripcion, cantidad, precio, categoria)
                        else old(productos)[j]
      ensures usuarios == old(usuarios) && categorias == old(categorias)
      ensures siguienteId == old(siguienteId) && idsAsignados == old(idsAsignados)
    {
      if fallo {
        return false;
      }
      match IndiceDeId(productos, id)
      case None =>
        ok := false;
      case Some(i) =>
        forall j | 0 <= j < |productos| && productos[j].id == id ensures j == i {
          IndiceDeIdUnico(productos, id, j);
        }
        productos := productos[i := Producto(productos[i].id, nombre, descripcion, cantidad, precio, categoria)];
        ok := true;
    }

    /** eliminar_producto: looks the row up by id; if it is there, DELETE it
        and report True, otherwise roll back and report False. The id stays
        used: siguienteId does not move back. */
    method EliminarProducto(id: int, fallo: bool) returns (ok: bool)
      requires Valid()
      requires InInt64(id)
      modifies this
      ensures Valid()
      ensures ok <==> !fallo && IdPresente(old(productos), id)
      ensures ok ==> var i := IndiceDeId(old(productos), id).value;
        productos == old(productos)[..i] + old(productos)[i + 1..]
      ensures !ok ==> productos == old(productos)
      ensures forall p :: p in productos <==> p in old(productos) && !(ok && p.id == id)
      ensures usuarios == old(usuarios) && categorias == old(categorias)
      ensures siguienteId == old(siguienteId) && idsAsignados == old(idsAsignados)
    {
      if fallo {
        return false;
      }
      match IndiceDeId(productos, id)
      case None =>
        ok := false;
      case Some(i) =>
        EliminarFila(productos, id, i);
        productos := productos[..i] + productos[i + 1..];
        ok := true;
    }

    /** agregar_categoria: INSERT OR IGNORE, so an existing name is no error
        and both a new and an existing name report True. */
    method AgregarCategoria(nombre: string, fallo: bool) returns (ok: bool)
      requires Valid()
      modifies this
      ensures Valid()
      ensures ok == !fallo
      ensures categorias == if ok then InsertarOIgnorar(old(categorias), nombre) else old(categorias)
      ensures usuarios == old(usuarios) && productos == old(productos)
      ensures siguienteId == old(siguienteId) && idsAsignados == old(idsAsignados)
    {
      if fallo {
        return false;
      }
      categorias := InsertarOIgnorar(categorias, nombre);
      ok := true;
    }

    /** Step 1 of obtener_producto_por_id_nombre_o_categoria, as the
        statements that run it: the statement-level form of Busqueda.PorId,
        which its first ensures ties it to. */
    method BuscarPorId(termino: string) returns (fila: seq<Producto>)
      requires IdsCrecientes(productos)
      requires AllDigits(termino) ==> DigitsValue(termino) <= MaxInt64
      ensures fila == PorId(productos, termino)
      ensures forall p :: p in productos && CoincideId(p, termino) ==> fila == [p]
    {
      fila := [];
      if AllDigits(termino) {
        var idBusqueda := DigitsValue(termino);
        var producto := IndiceDeId(productos, idBusqueda);
        if producto.Some? {
          fila := [productos[producto.value]];
        }
      }
      forall p | p in productos && CoincideId(p, termino) ensures fila == [p] {
        PorIdCompleto(productos, termino, p);
      }
    }

    /** obtener_producto_por_id_nombre_o_categoria: the row with the term as
        id (when the term is all digits), then the rows matching by name,
        then by category, each appended only if not already in the list.
        int(term) is bound as an SQL INTEGER, so it must fit in 64 bits. A
        fault in any of the three SELECTs makes the call return no rows. */
    method ObtenerProductoPorIdNombreOCategoria(termino: string, fallo: bool) returns (resultados: seq<Producto>)
      requires Valid()
      requires AllDigits(termino) ==> DigitsValue(termino) <= MaxInt64
      ensures resultados == if fallo then [] else Resultados(productos, termino)
    {
      if fallo {
        return [];
      }
      IdsCrecientesSinRepetidos(productos);
      resultados := BuscarPorId(termino);
      var filas := Filter(productos, SeleccionNombre(termino));
      FilterDistinct(productos, SeleccionNombre(termino));
      resultados := AnexarNoIncluidas(resultados, filas);
      AnexionNombre(productos, termino);
      filas := Filter(productos, SeleccionCategoria(termino));
      FilterDistinct(productos, SeleccionCategoria(termino));
      resultados := AnexarNoIncluidas(resultados, filas);
      AnexionCategoria(productos, termino);
    }
  }

  /** One of the search's append loops: it walks the fetched rows, which
      hold no row twice, and appends each one the list does not yet hold,
      so it adds the rows of filas missing from previos, in fetch order. */
  method AnexarNoIncluidas(previos: seq<Producto>, filas: seq<Producto>) returns (resultados: seq<Producto>)
    requires Distinct(filas)
    ensures resultados == previos + Filter(filas, NoIncluida(previos))
  {
    resultados := previos;
    for i := 0 to |filas|
      invariant resultados == previos + Filter(filas[..i], NoIncluida(previos))
    {
      PasoDeAnexion(previos, filas, i, resultados);
      if filas[i] !in resultados {
        resultados := resultados + [filas[i]];
      }
    }
    assert filas[..|filas|] == filas;
  }
}
