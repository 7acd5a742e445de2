// What obtener_producto_por_id_nombre_o_categoria returns, stated without
// its loops: the row whose id is the (all-digit) term, then the rows whose
// lower-cased name matches LIKE '%term%', then the remaining rows whose
// lower-cased category matches it, each group in table order.
module Busqueda {
  import opened Wrappers
  import opened Text
  import opened Seqs
  import opened Tablas

  /** Step 1 applies only when term.isdigit(); the id compared is int(term). */
  predicate CoincideId(p: Producto, termino: string) {
    AllDigits(termino) && p.id == DigitsValue(termino)
  }

  /** LOWER(nombre) LIKE '%' || lower(term) || '%'. The pattern is bound
      as one text value; LIKE reads both operands up to their first NUL. */
  predicate CoincideNombre(p: Producto, termino: string) {
    Like(UpToNul("%" + Lower(termino) + "%"), UpToNul(Lower(p.nombre)))
  }

  /** LOWER(categoria) LIKE '%' || lower(term) || '%', read the same way. */
  predicate CoincideCategoria(p: Producto, termino: string) {
    Like(UpToNul("%" + Lower(termino) + "%"), UpToNul(Lower(p.categoria)))
  }

  predicate Coincide(p: Producto, termino: string) {
    CoincideId(p, termino) || CoincideNombre(p, termino) || CoincideCategoria(p, termino)
  }

  /** The WHERE clause of step 2, as a row test. */
  function SeleccionNombre(termino: string): Producto -> bool {
    p => CoincideNombre(p, termino)
  }

  /** The WHERE clause of step 3, as a row test. */
  function SeleccionCategoria(termino: string): Producto -> bool {
    p => CoincideCategoria(p, termino)
  }

  /** The `row not in resultados` test of the append loops. */
  function NoIncluida(resultados: seq<Producto>): Producto -> bool {
    r => r !in resultados
  }

  /** Step 1: the row fetched by primary key, if the term is all digits. */
  function PorId(ps: seq<Producto>, termino: string): (r: seq<Producto>)
    ensures |r| <= 1
    ensures forall p :: p in r ==> p in ps && CoincideId(p, termino)
  {
    if AllDigits(termino) then
      match IndiceDeId(ps, DigitsValue(termino))
      case Some(i) => [ps[i]]
      case None => []
    else []
  }

  /** Membership in the second group: a name match not already found by id. */
  function EnGrupoNombre(termino: string, porId: seq<Producto>): Producto -> bool {
    p => CoincideNombre(p, termino) && p !in porId
  }

  /** Membership in the third group: a category match found neither by id nor by name. */
  function EnGrupoCategoria(termino: string, porId: seq<Producto>): Producto -> bool {
    p => CoincideCategoria(p, termino) && !CoincideNombre(p, termino) && p !in porId
  }

  function GrupoNombre(ps: seq<Producto>, termino: string): seq<Producto> {
    Filter(ps, EnGrupoNombre(termino, PorId(ps, termino)))
  }

  function GrupoCategoria(ps: seq<Producto>, termino: string): seq<Producto> {
    Filter(ps, EnGrupoCategoria(termino, PorId(ps, termino)))
  }

  /** The search result as a union of three row groups. */
  function Resultados(ps: seq<Producto>, termino: string): seq<Producto> {
    PorId(ps, termino) + GrupoNombre(ps, termino) + GrupoCategoria(ps, termino)
  }

  /** One pass of an append loop: the row filas[i] is added exactly when it
      is not yet in the list, so the list stays `previos` followed by the
      rows of filas[..i + 1] that `previos` did not hold. */
  lemma PasoDeAnexion(previos: seq<Producto>, filas: seq<Producto>, i: nat, resultados: seq<Producto>)
    requires Distinct(filas) && i < |filas|
    requires resultados == previos + Filter(filas[..i], NoIncluida(previos))
    ensures filas[i] in resultados <==> filas[i] in previos
    ensures (if filas[i] in resultados then resultados else resultados + [filas[i]])
         == previos + Filter(filas[..i + 1], NoIncluida(previos))
  {
    var fila := filas[i];
    assert filas[..i + 1] == filas[..i] + [fila];
    FilterSnoc(filas[..i], fila, NoIncluida(previos));
    assert fila !in filas[..i];
  }

  /** The name loop, run over the rows of the name SELECT, leaves out
      exactly the row found by id: what it appends is GrupoNombre. */
  lemma AnexionNombre(ps: seq<Producto>, termino: string)
    ensures Filter(Filter(ps, SeleccionNombre(termino)), NoIncluida(PorId(ps, termino)))
         == GrupoNombre(ps, termino)
  {
    var a := PorId(ps, termino);
    FilterFusion(ps, SeleccionNombre(termino), NoIncluida(a), EnGrupoNombre(termino, a));
  }

  /** The category loop, run over the rows of the category SELECT after the
      first two groups, appends exactly GrupoCategoria. */
  lemma AnexionCategoria(ps: seq<Producto>, termino: string)
    ensures Filter(Filter(ps, SeleccionCategoria(termino)), NoIncluida(PorId(ps, termino) + GrupoNombre(ps, termino)))
         == GrupoCategoria(ps, termino)
  {
    var a := PorId(ps, termino);
    var b := a + GrupoNombre(ps, termino);
    forall x | x in ps
      ensures EnGrupoCategoria(termino, a)(x) == (SeleccionCategoria(termino)(x) && NoIncluida(b)(x))
    {
      assert x in b <==> x in a || (CoincideNombre(x, termino) && x !in a);
    }
    FilterFusion(ps, SeleccionCategoria(termino), NoIncluida(b), EnGrupoCategoria(termino, a));
  }

  /** 0 for an id hit, 1 for a name hit, 2 for a category-only hit. */
  function Grupo(p: Producto, termino: string): nat {
    if CoincideId(p, termino) then 0 else if CoincideNombre(p, termino) then 1 else 2
  }

  /** With unique keys, a row of the table that matches by id is the row step 1 fetches. */
  lemma PorIdCompleto(ps: seq<Producto>, termino: string, p: Producto)
    requires IdsCrecientes(ps)
    requires p in ps && CoincideId(p, termino)
    ensures PorId(ps, termino) == [p]
  {
    var j :| 0 <= j < |ps| && ps[j] == p;
    IndiceDeIdUnico(ps, DigitsValue(termino), j);
  }

  /** Every row returned matches one of the three tests, and every row of
      the table that matches one of them is returned. */
  lemma ResultadosCompletos(ps: seq<Producto>, termino: string)
    requires IdsCrecientes(ps)
    ensures forall p :: p in Resultados(ps, termino) <==> p in ps && Coincide(p, termino)
  {
    var a := PorId(ps, termino);
    forall p | p in ps && Coincide(p, termino)
      ensures p in Resultados(ps, termino)
    {
      if CoincideId(p, termino) {
        PorIdCompleto(ps, termino, p);
      } else if p !in a && CoincideNombre(p, termino) {
        assert EnGrupoNombre(termino, a)(p);
      } else if p !in a {
        assert EnGrupoCategoria(termino, a)(p);
      }
    }
  }

  /** The result never holds the same row twice. */
  lemma ResultadosSinDuplicados(ps: seq<Producto>, termino: string)
    requires IdsCrecientes(ps)
    ensures Distinct(Resultados(ps, termino))
  {
    IdsCrecientesSinRepetidos(ps);
    var a, b, c := PorId(ps, termino), GrupoNombre(ps, termino), GrupoCategoria(ps, termino);
    FilterDistinct(ps, EnGrupoNombre(termino, a));
    FilterDistinct(ps, EnGrupoCategoria(termino, a));
    assert Distinct(a);
    DistinctConcat(a, b);
    DistinctConcat(a + b, c);
  }

  /** Rows past the first group are not id hits. */
  lemma SinIdFueraDelPrimerGrupo(ps: seq<Producto>, termino: string, p: Producto)
    requires IdsCrecientes(ps)
    requires p in ps && p !in PorId(ps, termino)
    ensures !CoincideId(p, termino)
  {
    if CoincideId(p, termino) {
      PorIdCompleto(ps, termino, p);
    }
  }

  /** Each of the three parts holds rows of the table of its own group. */
  lemma GruposBienFormados(ps: seq<Producto>, termino: string)
    requires IdsCrecientes(ps)
    ensures forall p :: p in PorId(ps, termino) ==> p in ps && Grupo(p, termino) == 0
    ensures forall p :: p in GrupoNombre(ps, termino) ==> p in ps && Grupo(p, termino) == 1
    ensures forall p :: p in GrupoCategoria(ps, termino) ==> p in ps && Grupo(p, termino) == 2
  {
    var a := PorId(ps, termino);
    forall p | p in GrupoNombre(ps, termino) ensures p in ps && Grupo(p, termino) == 1 {
      SinIdFueraDelPrimerGrupo(ps, termino, p);
    }
    forall p | p in GrupoCategoria(ps, termino) ensures p in ps && Grupo(p, termino) == 2 {
      SinIdFueraDelPrimerGrupo(ps, termino, p);
    }
  }

  /** An id hit comes first, then name hits, then category-only hits; inside
      a group rows keep their table order. */
  lemma ResultadosOrden(ps: seq<Producto>, termino: string, i: nat, j: nat)
    requires IdsCrecientes(ps)
    requires i < j < |Resultados(ps, termino)|
    ensures var r := Resultados(ps, termino);
      r[i] in ps && r[j] in ps &&
      (Grupo(r[i], termino) < Grupo(r[j], termino) ||
       (Grupo(r[i], termino) == Grupo(r[j], termino) && Pos(ps, r[i]) < Pos(ps, r[j])))
  {
    IdsCrecientesSinRepetidos(ps);
    GruposBienFormados(ps, termino);
    var a := PorId(ps, termino);
    GroupedConcatOrdered(ps, a, EnGrupoNombre(termino, a), EnGrupoCategoria(termino, a),
      p => Grupo(p, termino), i, j);
  }

  /** A product is always found by its id written in decimal, and comes
      first in the result. */
  lemma BuscarPorIdPrimero(ps: seq<Producto>, p: Producto)
    requires IdsCrecientes(ps)
    requires p in ps
    ensures var r := Resultados(ps, Decimal(p.id)); |r| > 0 && r[0] == p
  {
    PorIdCompleto(ps, Decimal(p.id), p);
  }

  /** For a term free of LIKE wildcards, a name (or category) hit is a
      case-insensitive substring hit over ASCII letters, on the text before
      the stored value's first NUL. A NUL in the term leaves only its part
      before the NUL, which must then end that text. */
  lemma CoincidenciaEsSubcadena(p: Producto, termino: string)
    requires NoWildcards(termino)
    ensures NoNul(termino) ==>
      && (CoincideNombre(p, termino) <==> IsSubstring(Lower(termino), UpToNul(Lower(p.nombre))))
      && (CoincideCategoria(p, termino) <==> IsSubstring(Lower(termino), UpToNul(Lower(p.categoria))))
    ensures !NoNul(termino) ==>
      && (CoincideNombre(p, termino) <==> IsSuffix(UpToNul(Lower(termino)), UpToNul(Lower(p.nombre))))
      && (CoincideCategoria(p, termino) <==> IsSuffix(UpToNul(Lower(termino)), UpToNul(Lower(p.categoria))))
    ensures NoNul(termino) && NoNul(p.nombre) ==>
      (CoincideNombre(p, termino) <==> IsSubstring(Lower(termino), Lower(p.nombre)))
  {
    var t := Lower(termino);
    assert NoWildcards(t) by {
      forall k | 0 <= k < |t| ensures t[k] != '%' && t[k] != '_' {
        assert t[k] == AsciiLowerChar(termino[k]);
      }
    }
    LowerNoNul(termino);
    LowerNoNul(p.nombre);
    LikeContainsUpToNul(t, Lower(p.nombre));
    LikeContainsUpToNul(t, Lower(p.categoria));
  }
}
