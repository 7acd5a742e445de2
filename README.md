# Inventory store: the SQLite persistence layer

This project models `database.py`, the storage layer of a console inventory
application. The layer keeps three SQLite tables:

- `usuarios`: a unique user name and a password;
- `categorias`: unique category names, seeded with fifteen defaults;
- `productos`: an `AUTOINCREMENT` id, name, description, quantity, price and free-text category.

Every write either commits or leaves its table as it was: most roll back
on an error, while `crear_tablas` and `agregar_categoria` leave their
uncommitted insert to be dropped when the connection closes. Every write
except `crear_tablas` reports `True`/`False` or the new id/`None`. The reads are single `SELECT`s. The one
real algorithm is the product search. It builds its result from an id
lookup and two `LIKE` queries, appending each row only if the list does not
already hold it.

The database is the class `Persistencia.BaseDeDatos`. Its fields are:

- the rows of the three tables, in rowid order;
- `siguienteId`, the `AUTOINCREMENT` counter;
- a ghost set of every id handed out so far.

`Valid()` states the schema's constraints:

- user names are unique;
- category names are unique;
- product ids strictly increase along the table;
- every product id was handed out by the counter, and every id handed out lies below it.

The counter only grows: every write method ensures that `siguienteId` is
either unchanged or, after a successful `AgregarProducto`, one more than
before.

Each write is a method with a `fallo` parameter. It stands for a
`sqlite3.Error` raised by the engine, or for a connection that could not be
opened. With `fallo` set, the method reports `False`/`None` and leaves every
table as it was, which is the rollback. The searching method takes the same
parameter and then returns no rows, as `database.py` does on any error. It
runs `database.py`'s two append loops. It is proved equal to `Busqueda.Resultados`, a
loop-free statement of the result as three filtered groups of rows.

The read-only queries are functions over a table's rows (module
`Consultas`). The SQL they rely on is modelled in module `Text`:

- SQLite's ASCII-only `LOWER`;
- `LIKE` with its `%` and `_` wildcards and no `ESCAPE` clause, which reads each operand as a C string, up to its first NUL (the console's `input().strip()` keeps a NUL, and the driver binds it);
- the `BINARY` collation used by `ORDER BY`;
- `int()` of an all-digit search term.

A Python `int` outside the signed 64-bit range, bound as an SQL parameter,
makes the driver raise `OverflowError`. Nothing in the store catches that
error, so the model states the 64-bit range as a precondition wherever
`database.py` binds an integer supplied by the caller.

Outcomes callers cannot tell apart:

- `agregar_usuario` reports `False` both for a taken name and for an engine fault.
- `actualizar_producto` and `eliminar_producto` report `False` both for a missing id and for a fault.
- The search returns `[]` both when nothing matches and on a fault.

Errors `database.py` does not catch (the first two the model excludes by precondition; the third it does not model):

- an all-digit term whose value does not fit in 64 bits makes the search raise `OverflowError`;
- the same holds for a quantity, an id or a limit outside 64 bits;
- from Python 3.11 on, `int()` of a digit string longer than 4300 characters raises `ValueError` (database.py:249), even when its value is small, as in a zero-padded term. The model reads such a term and looks up its id.

Files:

- `wrappers.dfy`: `Option`.
- `seqs.dfy`: filtering in table order, duplicate-free lists, and insertion sort for `ORDER BY`.
- `text.dfy`: `LOWER`, `LIKE`, the decimal reading of a term, and the collation.
- `tablas.dfy`: row types, the 64-bit range, the seed list, lookup by primary key, and `INSERT OR IGNORE`.
- `consultas.dfy`: the read queries.
- `busqueda.dfy`: the search result and its properties.
- `persistencia.dfy`: the class and its write and search methods.

Names: the generic layers (`Wrappers`, `Seqs`, `Text`) use English; the
layers that model `database.py` itself use the Spanish of its identifiers.

## Model

| member | source | states |
|---|---|---|
| Persistencia.BaseDeDatos.constructor | database.py:43-85 | the three tables exist and are empty; the `AUTOINCREMENT` counter starts at 1 |
| Persistencia.BaseDeDatos.CrearTablas | database.py:62-72 | the fifteen default categories, in their listed order, are inserted only into an empty `categorias` table; otherwise, or on a fault, nothing changes; the schema invariants hold afterwards |
| Persistencia.BaseDeDatos.AgregarUsuario | database.py:100-124 | succeeds exactly when there is no fault and the name is not taken; then the one new row is appended and logging in with those credentials returns the name; a taken name leaves the table, including the stored password, unchanged; names stay unique |
| Persistencia.BaseDeDatos.EliminarTodosLosUsuarios | database.py:168-188 | without a fault, reports `True` and empties `usuarios`, so listing users gives `[]`, whether or not the table was empty; a fault changes nothing |
| Persistencia.BaseDeDatos.AgregarProducto | database.py:192-214 | without a fault and with ids left, returns the counter's value, an id never handed out before and larger than every earlier id, and advances the counter by one; appends exactly one row with the five given fields under it; earlier rows are unchanged; otherwise returns `None` and changes nothing, the counter included |
| Persistencia.BaseDeDatos.ActualizarProducto | database.py:280-309 | reports `True` exactly when there is no fault and a row has the id; that row gets all five new fields and keeps its id; every other row, and the whole table on `False`, is unchanged |
| Persistencia.BaseDeDatos.EliminarProducto | database.py:312-348 | reports `True` exactly when there is no fault and a row has the id; then exactly that row is gone and the others keep their order; on `False` nothing changes; the id counter never moves back |
| Persistencia.BaseDeDatos.AgregarCategoria | database.py:387-403 | without a fault, reports `True` for a new and for an existing name alike, and the table becomes the old names plus this one, without a duplicate; a fault changes nothing |
| Persistencia.BaseDeDatos.BuscarPorId | database.py:248-253 | the id step of the search: the one row whose id is the value of an all-digit term, or nothing; any table row whose id matches is that row |
| Persistencia.BaseDeDatos.ObtenerProductoPorIdNombreOCategoria | database.py:235-278 | without a fault, the list built by the id lookup and the two append loops equals `Busqueda.Resultados`, the three-group result; on a fault it is empty |
| Persistencia.BaseDeDatos.Valid | database.py:45-84 | the schema's constraints: unique user names (`UNIQUE`), unique category names, product ids strictly increasing in table order and all handed out by the `AUTOINCREMENT` counter, which stays within the 64-bit rowid range |
| Persistencia.AnexarNoIncluidas | database.py:260-262 | the loop appends, in fetch order, exactly those fetched rows that the list did not already hold |
| Consultas.ObtenerUsuario | database.py:137-141 | returns the user name exactly when some row has both the name and the password given, and `None` otherwise |
| Consultas.ObtenerTodosLosUsuarios | database.py:159-160 | one (name, password) pair per row, and a pair is listed exactly when such a row exists |
| Consultas.RegistroLuegoLogin | database.py:110-141 | after registering a new name, logging in with it succeeds with the registered password and fails with any other |
| Consultas.NombreLeEsPreordenTotal | database.py:226 | ordering products by name is total and transitive |
| Consultas.CantidadNombreLeEsPreordenTotal | database.py:360 | ordering by quantity and then name is total and transitive |
| Consultas.ObtenerTodosLosProductos | database.py:226-227 | every row, as often as it occurs in the table, sorted by name |
| Consultas.ObtenerProductosPorCantidadLimite | database.py:360-361 | exactly the rows with quantity at most the limit, each as often as in the table, sorted by quantity and then name |
| Consultas.ObtenerCategorias | database.py:378-379 | every category name, sorted ascending |
| Consultas.CategoriasEstrictamenteOrdenadas | database.py:378-379 | since the names are unique, the listing is strictly ascending |
| Tablas.IndiceDeId | database.py:250-251 | a lookup by primary key finds a row exactly when some row has the key; the row found holds the key and is the first that does |
| Tablas.IndiceDeIdUnico | database.py:250-251 | with increasing ids, the row found by key is the only row with that key |
| Tablas.EliminarFila | database.py:328 | deleting the row holding a key removes exactly the rows with that key, keeps the others in order, and keeps ids increasing |
| Tablas.InsertarOIgnorar | database.py:395 | the names afterwards are the old ones plus the new one; no duplicate appears; earlier rows keep their places |
| Tablas.InsertarOIgnorarIdempotente | database.py:395-397 | inserting the same category twice leaves the table as inserting it once |
| Busqueda.CoincideId | database.py:248-251 | the id test: the term is all digits and its value is the row's id |
| Busqueda.CoincideNombre | database.py:257-258 | the name test: `LOWER(nombre) LIKE '%' + lower(term) + '%'`, with both operands read up to their first NUL |
| Busqueda.CoincideCategoria | database.py:265-266 | the category test: `LOWER(categoria) LIKE '%' + lower(term) + '%'`, with both operands read up to their first NUL |
| Busqueda.Resultados | database.py:245-272 | the search result: the id step's row, then the name hits it did not find, then the category hits found by neither, each group in table order |
| Busqueda.PorId | database.py:248-253 | the id step yields at most one row, and only a table row whose id is the term's value |
| Busqueda.PorIdCompleto | database.py:248-253 | with unique ids, every table row matching by id is the row the id step yields |
| Busqueda.ResultadosCompletos | database.py:248-272 | a row is in the result exactly when it is in the table and matches by id, by lower-cased name or by lower-cased category |
| Busqueda.ResultadosSinDuplicados | database.py:260-270 | the result holds no row twice |
| Busqueda.SinIdFueraDelPrimerGrupo | database.py:248-262 | a table row not yielded by the id step does not match by id |
| Busqueda.GruposBienFormados | database.py:248-270 | the id step holds only id hits; the name group holds only name hits that are not id hits; the category group holds only category hits that are neither |
| Busqueda.ResultadosOrden | database.py:248-272 | the id hit comes first, then name hits, then category-only hits; within a group, rows keep their table order |
| Busqueda.BuscarPorIdPrimero | database.py:248-253 | searching for a product's id written in decimal always returns that product first |
| Busqueda.CoincidenciaEsSubcadena | database.py:257-266 | for a term without `%` or `_` and without NUL, the `LIKE` test is a case-insensitive (over ASCII letters) substring test on the name and on the category, each up to its first NUL; for a NUL-free name it is a substring test on the whole name; a term holding a NUL instead tests whether its part before the NUL ends that text |
| Busqueda.PasoDeAnexion | database.py:260-262 | one pass of an append loop adds the fetched row exactly when the list lacks it, which keeps the loop invariant |
| Busqueda.AnexionNombre | database.py:257-262 | the name loop appends exactly the name hits that the id step did not find |
| Busqueda.AnexionCategoria | database.py:265-270 | the category loop appends exactly the category hits found neither by id nor by name |
| Text.Lower | database.py:257 | `LOWER` keeps the length, folds each ASCII capital to lower case, and leaves no ASCII capital |
| Text.Like | database.py:257-266 | SQL `LIKE` without `ESCAPE`, on operands already read as C strings: `%` matches any run, `_` one character; a pattern with no wildcard matches exactly the string equal to it |
| Text.UpToNul | database.py:257-258 | how `LIKE` reads a text operand: the longest NUL-free prefix, which ends at the first NUL; a value without NUL is read whole |
| Text.UpToNulConcat | database.py:258 | reading `'%' + t + '%'` as a C string: a first part without NUL is read whole, otherwise the reading ends inside it |
| Text.LowerNoNul | database.py:257 | `LOWER` neither adds nor removes a NUL |
| Text.LikeContainsUpToNul | database.py:257-258 | the search pattern, both operands read as C strings, is a substring test for a wildcard-free NUL-free term and a suffix test on the term's part before its NUL otherwise |
| Text.LikeContains | database.py:257-258 | `LIKE '%' + t + '%'` holds exactly when t occurs in the string, provided t has no wildcard |
| Text.LikeLeadingPercent | database.py:258 | a leading `%` lets the rest of the pattern match any suffix |
| Text.LikeTrailingPercent | database.py:258 | a wildcard-free pattern followed by `%` matches exactly the strings it prefixes |
| Text.AllDigits | database.py:248 | `isdigit()` over ASCII: a non-empty term of digits 0-9 |
| Text.DigitsValue | database.py:249 | `int()` of such a term: its decimal value, leading zeros allowed |
| Text.Decimal | database.py:248-249 | `int()` of the decimal numeral of n is n, and the numeral passes the all-digit test |
| Text.StrLe | database.py:226 | the `BINARY` collation: lexicographic by character; a prefix of a string sorts before it, and a string does not sort before its own proper prefix |
| Text.StrLeTotal | database.py:226 | any two strings are comparable in `BINARY` collation |
| Text.StrLeTransitive | database.py:226 | the `BINARY` collation is transitive |
| Text.StrLeAntisymmetric | database.py:378 | two names that sort both ways round are equal |
| Seqs.Sort | database.py:226 | `ORDER BY` yields a sorted rearrangement of the rows, with the same rows the same number of times |
| Seqs.FilterKeepsOrder | database.py:257-262 | a `WHERE` clause keeps the fetched rows in table order |

## Left out

- Connection plumbing is not modelled: `conectar_db`, the file name, opening and closing connections and cursors, and the row factory. A failed connection is a `fallo` like any engine fault.
- Console output is not modelled. The coloured `print`s have no effect on any result.
- An absent table is not modelled. The model starts from tables that exist, so a call made before `crear_tablas` has run, which fails in SQLite, is only covered as a fault.
- Persistencia.BaseDeDatos.CrearTablas: a fault raised after the seeding commit at database.py:71 leaves the categories seeded. The model treats every fault of `crear_tablas` as happening before that commit.
- The surrogate ids of `usuarios` and `categorias` are not modelled, because no operation reads them.
- `precio` is a `real`. The store only stores and returns it, so floating-point rounding is not modelled.
- Persistencia.BaseDeDatos.AgregarProducto and Persistencia.BaseDeDatos.ActualizarProducto: a NaN price is not modelled, because a `real` has no NaN. The console lets `float('nan')` through, since `precio < 0` is false for NaN (productos.py:81-83, 243-245). SQLite binds NaN as NULL, which breaks `precio REAL NOT NULL` (database.py:82). So `agregar_producto` returns `None` and `actualizar_producto` returns `False` without any engine fault. The model can only show that outcome as a fault.
- Persistencia.BaseDeDatos.ObtenerProductoPorIdNombreOCategoria: SQLite refuses a `LIKE` pattern longer than `SQLITE_MAX_LIKE_PATTERN_LENGTH` (50000 bytes by default) with an `OperationalError` as soon as a row is tested. So for a term of about 49998 UTF-8 bytes or more, on a non-empty table, `database.py` returns `[]` without any engine fault (database.py:273-275). The model can only show that outcome as a fault; with `fallo` false it returns `Busqueda.Resultados`.
- Consultas.ObtenerUsuario, Consultas.ObtenerTodosLosUsuarios, Consultas.ObtenerTodosLosProductos, Consultas.ObtenerProductosPorCantidadLimite and Consultas.ObtenerCategorias give the answer of a read that meets no fault. On a failed connection or a `sqlite3.Error`, `database.py` returns `None` from `obtener_usuario` (database.py:142-147) and `[]` from the others (database.py:161-166, 228-233, 362-368, 380-385). These functions take no fault input, unlike the search method.
- The store checks neither a non-negative quantity or price nor a non-empty name; the console layer does. The model takes no such precondition, and product categories are not checked against `categorias`.
- Busqueda.CoincideNombre and Busqueda.CoincideCategoria: the term is lower-cased with the same ASCII-only fold as SQLite's `LOWER`. `database.py` lowers it with Python's `str.lower()`, which folds every Unicode capital, so the two can differ in both directions.
  - With 'É' in the term, `database.py` misses a name that holds 'É', since `LOWER` keeps it, while the model finds it. It also finds a name that holds 'é', which the model misses.
  - Python lowers the Kelvin sign U+212A to ASCII 'k', so `database.py` finds names holding 'k' or 'K' that the model, keeping the Kelvin sign, misses.
- Text.AllDigits: only the ASCII digits 0-9 count, while `isdigit()` accepts other Unicode digits too.
  - For a term of decimal digits from another script, such as "٣" or "３", `int()` reads the value (3), so `database.py` looks up that id and lists its row first. The model skips the id step for such a term.
  - For a digit with no decimal value, such as "²", `int()` raises `ValueError`, which the store does not catch.
- Consultas.ObtenerTodosLosProductos, Consultas.ObtenerProductosPorCantidadLimite and Consultas.ObtenerCategorias: SQL leaves open the order of rows that tie on every `ORDER BY` key. These contracts allow any such order, while the model's own sort keeps table order.
- Persistencia.BaseDeDatos.EliminarProducto: the branch at database.py:333-337, where the `DELETE` removes no row although the lookup found one, needs a concurrent writer. With one process it cannot be reached, so it is not modelled.
- `actualizar_producto` and `eliminar_producto` commit before they look at the row count, so their later rollback undoes nothing. In both not-found paths no row has changed, and the model's "unchanged on `False`" covers them.
- Concurrency between processes is not modelled: each operation is one atomic step.
