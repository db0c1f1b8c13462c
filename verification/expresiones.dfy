/** The expression tree a WHERE clause compiles to (`Expresion`) and the
    comparison leaves it holds (`Condicional`). */
module Expresiones {

  /** One comparison `miembro1 op miembro2`; both operands keep their
      original text (quotes included). */
  datatype Condicional =
    | Mayor(miembro1: string, miembro2: string)       // >
    | MayorIgual(miembro1: string, miembro2: string)  // >=
    | Menor(miembro1: string, miembro2: string)       // <
    | MenorIgual(miembro1: string, miembro2: string)  // <=
    | Igual(miembro1: string, miembro2: string)       // =

  /** A node of the boolean tree. `Unknown` is the not-yet-filled slot of a
      placeholder; `Ipar`/`Dpar` are the parenthesis markers used while
      grouping. */
  datatype Expresion =
    | Not(derecha: Expresion)
    | And(izquierda: Expresion, derecha: Expresion)
    | Or(izquierda: Expresion, derecha: Expresion)
    | Operacion(condicional: Condicional)
    | Unknown
    | Ipar
    | Dpar

  /** The placeholders the keywords NOT, AND and OR become before grouping. */
  const MarcaNot: Expresion := Not(Unknown)
  const MarcaAnd: Expresion := And(Unknown, Unknown)
  const MarcaOr: Expresion := Or(Unknown, Unknown)

  /** No parenthesis marker anywhere in the tree. */
  predicate SinParentesis(e: Expresion) {
    match e
    case Not(d) => SinParentesis(d)
    case And(l, r) => SinParentesis(l) && SinParentesis(r)
    case Or(l, r) => SinParentesis(l) && SinParentesis(r)
    case Ipar => false
    case Dpar => false
    case _ => true
  }

  /** A finished tree: only NOT/AND/OR over comparisons, with no unfilled
      slot and no parenthesis marker. */
  predicate Cerrado(e: Expresion) {
    match e
    case Not(d) => Cerrado(d)
    case And(l, r) => Cerrado(l) && Cerrado(r)
    case Or(l, r) => Cerrado(l) && Cerrado(r)
    case Operacion(_) => true
    case _ => false
  }

  /** The token-level reading of a tree: each operator node contributes its
      placeholder between (or before) the readings of its children, and an
      unfilled slot contributes nothing. Grouping never changes this reading. */
  function Aplanar(e: Expresion): seq<Expresion> {
    match e
    case Not(d) => [MarcaNot] + Aplanar(d)
    case And(l, r) => Aplanar(l) + [MarcaAnd] + Aplanar(r)
    case Or(l, r) => Aplanar(l) + [MarcaOr] + Aplanar(r)
    case Unknown => []
    case _ => [e]
  }

  function AplanarSeq(s: seq<Expresion>): seq<Expresion>
    decreases |s|
  {
    if |s| == 0 then [] else Aplanar(s[0]) + AplanarSeq(s[1..])
  }

  lemma {:induction false} AplanarSeqUnion(a: seq<Expresion>, b: seq<Expresion>)
    ensures AplanarSeq(a + b) == AplanarSeq(a) + AplanarSeq(b)
    decreases |a|
  {
    if |a| == 0 {
      assert a + b == b;
    } else {
      assert (a + b)[1..] == a[1..] + b;
      AplanarSeqUnion(a[1..], b);
    }
  }

  lemma CerradoSinParentesis(e: Expresion)
    requires Cerrado(e)
    ensures SinParentesis(e)
  {
  }
}
