/** The WHERE-clause compiler and evaluator (`analizador_implementacion.rs`):
    keyword adaptation, condition building, parenthesis resolution with a
    stack of groups, the three in-place precedence passes (NOT, then AND,
    then OR), and the string-based evaluation of the resulting tree. */
module Analizador {
  import opened Resultados
  import opened Cadenas
  import opened Expresiones

  // =====================================================================
  // Condition builder

  /** The comparison symbols a condition may use. */
  const Operadores: set<string> := {">", ">=", "<", "<=", "="}

  /** The symbol a comparison was built from. */
  function Simbolo(c: Condicional): string {
    match c
    case Mayor(_, _) => ">"
    case MayorIgual(_, _) => ">="
    case Menor(_, _) => "<"
    case MenorIgual(_, _) => "<="
    case Igual(_, _) => "="
  }

  /** `parsear_condicional`: `partes` is a condition split on whitespace. */
  function ParsearCondicional(partes: seq<string>): (r: Result<Condicional>)
    ensures r.Ok? <==> |partes| >= 3 && partes[1] in Operadores
    ensures r.Err? ==> r.error == InvalidSyntax
    ensures r.Ok? ==> Simbolo(r.value) == partes[1]
    ensures r.Ok? ==> r.value.miembro1 == partes[0]
    ensures r.Ok? ==> r.value.miembro2 == Join(partes[2..], " ")
  {
    if |partes| < 3 then Err(InvalidSyntax)
    else
      var miembro1 := partes[0];
      var miembro2 := if |partes| > 3 then Join(partes[2..], " ") else partes[2];
      var operador := partes[1];
      if operador == ">" then Ok(Mayor(miembro1, miembro2))
      else if operador == ">=" then Ok(MayorIgual(miembro1, miembro2))
      else if operador == "<" then Ok(Menor(miembro1, miembro2))
      else if operador == "<=" then Ok(MenorIgual(miembro1, miembro2))
      else if operador == "=" then Ok(Igual(miembro1, miembro2))
      else Err(InvalidSyntax)
  }

  // =====================================================================
  // Keyword adapter

  /** A node as the adapter emits it: a placeholder, a parenthesis marker
      or a comparison leaf. */
  predicate Plano(e: Expresion) {
    e == MarcaNot || e == MarcaAnd || e == MarcaOr || e == Ipar || e == Dpar || e.Operacion?
  }

  /** The adapter's rule for one token. */
  function AdaptarToken(t: string): (r: Result<Expresion>)
    ensures r.Ok? ==> Plano(r.value)
    ensures r.Err? ==> r.error == InvalidSyntax
    ensures Mayusculas(t) == "NOT" ==> r == Ok(MarcaNot)
    ensures Mayusculas(t) == "AND" ==> r == Ok(MarcaAnd)
    ensures Mayusculas(t) == "OR" ==> r == Ok(MarcaOr)
    ensures t == "(" ==> r == Ok(Ipar)
    ensures t == ")" ==> r == Ok(Dpar)
    ensures r.Ok? && r.value.Operacion? ==> ParsearCondicional(Palabras(t)) == Ok(r.value.condicional)
  {
    var u := Mayusculas(t);
    assert t == "(" || t == ")" ==> u == t;
    if u == "NOT" then Ok(MarcaNot)
    else if u == "AND" then Ok(MarcaAnd)
    else if u == "OR" then Ok(MarcaOr)
    else if u == "(" then Ok(Ipar)
    else if u == ")" then Ok(Dpar)
    else
      var c :- ParsearCondicional(Palabras(t));
      Ok(Operacion(c))
  }

  /** `adaptar_where`: one node per token, in order; the first malformed
      condition fails the whole clause. */
  function AdaptarWhere(ts: seq<string>): (r: Result<seq<Expresion>>)
    ensures r.Ok? <==> forall k :: 0 <= k < |ts| ==> AdaptarToken(ts[k]).Ok?
    ensures r.Err? ==> r.error == InvalidSyntax
    ensures r.Ok? ==> |r.value| == |ts|
    ensures r.Ok? ==> forall k :: 0 <= k < |ts| ==> r.value[k] == AdaptarToken(ts[k]).value
    decreases |ts|
  {
    if |ts| == 0 then Ok([])
    else
      var e :- AdaptarToken(ts[0]);
      var resto :- AdaptarWhere(ts[1..]);
      Ok([e] + resto)
  }

  // =====================================================================
  // Precedence passes (`agrupar_expresion`)

  /** The two binary connectives, reduced by the same rule. */
  datatype Conectivo = ConAnd | ConOr

  function Marca(c: Conectivo): Expresion {
    match c
    case ConAnd => MarcaAnd
    case ConOr => MarcaOr
  }

  function Construir(c: Conectivo, izquierda: Expresion, derecha: Expresion): Expresion {
    match c
    case ConAnd => And(izquierda, derecha)
    case ConOr => Or(izquierda, derecha)
  }

  /** The NOT pass from scan position `i` on: an unfilled NOT placeholder
      takes the element right after it as its child, whatever that element
      is; a placeholder in last position is a syntax error. */
  function PasarNot(exp: seq<Expresion>, i: nat): (r: Result<seq<Expresion>>)
    requires i <= |exp|
    ensures r.Err? ==> r.error == InvalidSyntax
    decreases |exp| - i
  {
    if i == |exp| then Ok(exp)
    else if exp[i] == MarcaNot then
      if i + 1 < |exp| then PasarNot(exp[..i] + [Not(exp[i + 1])] + exp[i + 2..], i + 1)
      else Err(InvalidSyntax)
    else PasarNot(exp, i + 1)
  }

  /** The AND (or OR) pass from scan position `i` on: an unfilled
      placeholder takes its two neighbours as children and replaces all
      three; the scan then moves on by one, so the element that followed
      the right operand is skipped. A placeholder first or last is a syntax
      error. */
  function PasarBinario(exp: seq<Expresion>, i: nat, c: Conectivo): (r: Result<seq<Expresion>>)
    requires i <= |exp| + 1
    ensures r.Err? ==> r.error == InvalidSyntax
    decreases |exp| + 1 - i
  {
    if i >= |exp| then Ok(exp)
    else if exp[i] == Marca(c) then
      if i > 0 && i + 1 < |exp| then
        PasarBinario(exp[..i - 1] + [Construir(c, exp[i - 1], exp[i + 1])] + exp[i + 2..], i + 1, c)
      else Err(InvalidSyntax)
    else PasarBinario(exp, i + 1, c)
  }

  /** The whole of `agrupar_expresion`: NOT, then AND, then OR; exactly one
      node must remain. */
  function Agrupar(exp: seq<Expresion>): (r: Result<Expresion>)
    ensures r.Err? ==> r.error == InvalidSyntax
  {
    var a :- PasarNot(exp, 0);
    var b :- PasarBinario(a, 0, ConAnd);
    var c :- PasarBinario(b, 0, ConOr);
    if |c| == 1 then Ok(c[0]) else Err(InvalidSyntax)
  }

  /** The NOT pass as the source runs it: a left-to-right scan that edits
      the sequence in place. */
  method ReducirNot(exp: seq<Expresion>) returns (r: Result<seq<Expresion>>)
    ensures r == PasarNot(exp, 0)
  {
    var actual := exp;
    var indice := 0;
    while indice < |actual|
      invariant indice <= |actual|
      invariant PasarNot(actual, indice) == PasarNot(exp, 0)
      decreases |actual| - indice
    {
      if actual[indice] == MarcaNot {
        if indice + 1 < |actual| {
          actual := actual[..indice] + [Not(actual[indice + 1])] + actual[indice + 2..];
        } else {
          return Err(InvalidSyntax);
        }
      }
      indice := indice + 1;
    }
    return Ok(actual);
  }

  /** The AND or OR pass as the source runs it. */
  method ReducirBinario(exp: seq<Expresion>, c: Conectivo) returns (r: Result<seq<Expresion>>)
    ensures r == PasarBinario(exp, 0, c)
  {
    var actual := exp;
    var indice := 0;
    while indice < |actual|
      invariant indice <= |actual| + 1
      invariant PasarBinario(actual, indice, c) == PasarBinario(exp, 0, c)
      decreases |actual| + 1 - indice
    {
      if actual[indice] == Marca(c) {
        if indice > 0 && indice + 1 < |actual| {
          var combinada := Construir(c, actual[indice - 1], actual[indice + 1]);
          actual := actual[..indice - 1] + [combinada] + actual[indice + 2..];
        } else {
          return Err(InvalidSyntax);
        }
      }
      indice := indice + 1;
    }
    return Ok(actual);
  }

  /** `agrupar_expresion` as the source runs it: three in-place passes and
      the final length check. */
  method AgruparExpresion(exp: seq<Expresion>) returns (r: Result<Expresion>)
    ensures r == Agrupar(exp)
  {
    var a := ReducirNot(exp);
    if a.Err? {
      return Err(a.error);
    }
    var b := ReducirBinario(a.value, ConAnd);
    if b.Err? {
      return Err(b.error);
    }
    var c := ReducirBinario(b.value, ConOr);
    if c.Err? {
      return Err(c.error);
    }
    if |c.value| == 1 {
      return Ok(c.value[0]);
    }
    return Err(InvalidSyntax);
  }

  // =====================================================================
  // Parenthesis resolution (`obtener_subexpresiones`)

  /** Scan from position `i` with the stack of enclosing groups `pila` and
      the group being filled `aux`. */
  function Subexpresiones(exp: seq<Expresion>, i: nat, pila: seq<seq<Expresion>>, aux: seq<Expresion>): Result<Expresion>
    requires i <= |exp|
    decreases |exp| - i
  {
    if i == |exp| then
      if |pila| > 0 then Err(InvalidSyntax) else Agrupar(aux)
    else if exp[i] == Ipar then
      Subexpresiones(exp, i + 1, pila + [aux], [])
    else if exp[i] == Dpar then
      if |pila| == 0 then Err(InvalidSyntax)
      else
        var agrupada :- Agrupar(aux);
        Subexpresiones(exp, i + 1, pila[..|pila| - 1], pila[|pila| - 1] + [agrupada])
    else
      Subexpresiones(exp, i + 1, pila, aux + [exp[i]])
  }

  function ObtenerSubexpresiones(exp: seq<Expresion>): Result<Expresion> {
    Subexpresiones(exp, 0, [], [])
  }

  /** `parsear_expresion`: an empty clause is `Unknown` (accept every row);
      otherwise adapt, then group. */
  function ParsearExpresion(ts: seq<string>): (r: Result<Expresion>)
    ensures |ts| == 0 ==> r == Ok(Unknown)
    ensures r.Err? ==> r.error == InvalidSyntax
  {
    if |ts| == 0 then Ok(Unknown)
    else
      var adaptada :- AdaptarWhere(ts);
      match ObtenerSubexpresiones(adaptada)
      case Ok(e) => Ok(e)
      case Err(_) => Err(InvalidSyntax)
  }

  /** `parsear_expresion` with the guard its design assumes: a non-empty
      clause must compile to a finished tree (no unfilled placeholder slot).
      The unguarded function accepts `NOT NOT` and `NOT AND`; see the
      findings in the README. */
  function CompilarWhere(ts: seq<string>): (r: Result<Expresion>)
    ensures |ts| == 0 ==> r == Ok(Unknown)
    ensures |ts| > 0 && r.Ok? ==> Cerrado(r.value)
    ensures r.Err? ==> r.error == InvalidSyntax
    ensures ParsearExpresion(ts).Ok? && (|ts| == 0 || Cerrado(ParsearExpresion(ts).value))
            ==> r == ParsearExpresion(ts)
    ensures ParsearExpresion(ts).Err? ==> r == ParsearExpresion(ts)
  {
    var e :- ParsearExpresion(ts);
    if |ts| > 0 && !Cerrado(e) then Err(InvalidSyntax) else Ok(e)
  }

  // =====================================================================
  // Evaluation

  /** `es_numero`: every character an ASCII digit (vacuously true of ""). */
  predicate EsNumero(s: string) {
    forall i :: 0 <= i < |s| ==> '0' <= s[i] <= '9'
  }

  /** Wrapped in single quotes (a lone `'` counts). */
  predicate EsCitado(s: string) {
    EmpiezaCon(s, '\'') && TerminaCon(s, '\'')
  }

  /** `obtener_valor`: the row's field for a column, if the column is known
      and the row is long enough. */
  function ObtenerValor(m: string, linea: seq<string>, idx: map<string, nat>): (r: Option<string>)
    ensures r.Some? <==> m in idx && idx[m] < |linea|
    ensures r.Some? ==> r.value == linea[idx[m]]
  {
    if m in idx && idx[m] < |linea| then Some(linea[idx[m]]) else None
  }

  /** How an operand that is not a column reads as a literal: digit-only
      text as is, quoted text without its quotes, anything else not at all. */
  function Literal(m: string): Option<string> {
    if EsNumero(m) then Some(m)
    else if EsCitado(m) then Some(SinComillas(m))
    else None
  }

  /** An operand's value in a row: a column's field, or else its literal reading. */
  function Operando(m: string, linea: seq<string>, idx: map<string, nat>): Option<string> {
    if m in idx then ObtenerValor(m, linea, idx) else Literal(m)
  }

  /** `comparar_valores`. The contract is its operand-resolution reading:
      true exactly when at least one side names a column, both sides have a
      value, and the comparator holds of the two values. */
  function CompararValores(m1: string, m2: string, linea: seq<string>, idx: map<string, nat>,
                           cmp: (string, string) -> bool): (r: bool)
    ensures r <==> (m1 in idx || m2 in idx)
                   && Operando(m1, linea, idx).Some? && Operando(m2, linea, idx).Some?
                   && cmp(Operando(m1, linea, idx).value, Operando(m2, linea, idx).value)
  {
    if m1 in idx && m2 in idx then
      match (ObtenerValor(m1, linea, idx), ObtenerValor(m2, linea, idx))
      case (Some(v1), Some(v2)) => cmp(v1, v2)
      case _ => false
    else if m1 !in idx && m2 in idx then
      var valor2 := ObtenerValor(m2, linea, idx);
      if EsNumero(m1) then
        valor2.Some? && cmp(m1, valor2.value)
      else if EsCitado(m1) then
        valor2.Some? && cmp(SinComillas(m1), valor2.value)
      else false
    else if m1 in idx && m2 !in idx then
      var valor1 := ObtenerValor(m1, linea, idx);
      if EsNumero(m2) then
        valor1.Some? && cmp(valor1.value, m2)
      else if EsCitado(m2) then
        valor1.Some? && cmp(valor1.value, SinComillas(m2))
      else false
    else false
  }

  /** The comparator each comparison kind uses: Rust's `str` ordering. */
  function Comparador(c: Condicional): (string, string) -> bool {
    match c
    case Mayor(_, _) => (a, b) => LexMenor(b, a)
    case MayorIgual(_, _) => (a, b) => !LexMenor(a, b)
    case Menor(_, _) => (a, b) => LexMenor(a, b)
    case MenorIgual(_, _) => (a, b) => !LexMenor(b, a)
    case Igual(_, _) => (a, b) => a == b
  }

  /** `evaluar_condicional`. */
  function EvaluarCondicional(c: Condicional, linea: seq<string>, idx: map<string, nat>): bool {
    CompararValores(c.miembro1, c.miembro2, linea, idx, Comparador(c))
  }

  /** `evaluar_expresion`: NOT/AND/OR are negation, conjunction and
      disjunction; an unfilled slot or a parenthesis marker reads false. */
  function EvaluarExpresion(e: Expresion, linea: seq<string>, idx: map<string, nat>): bool {
    match e
    case Not(d) => !EvaluarExpresion(d, linea, idx)
    case And(l, r) => EvaluarExpresion(l, linea, idx) && EvaluarExpresion(r, linea, idx)
    case Or(l, r) => EvaluarExpresion(l, linea, idx) || EvaluarExpresion(r, linea, idx)
    case Operacion(c) => EvaluarCondicional(c, linea, idx)
    case _ => false
  }

  /** A CSV line cut into trimmed fields, as the evaluator sees it. */
  function Campos(linea: string): (r: seq<string>)
    ensures |r| == |Split(linea, ',')|
    ensures forall k :: 0 <= k < |r| ==> r[k] == Trim(Split(linea, ',')[k])
  {
    RecortarTodos(Split(linea, ','))
  }

  /** `cumple_c_w`: whether a data line satisfies the compiled clause. The
      source wraps the answer in a `Result` that is never an error. */
  function CumpleCW(linea: string, e: Expresion, idx: map<string, nat>): (r: bool)
    ensures e == Unknown ==> r
    ensures e != Unknown ==> r == EvaluarExpresion(e, Campos(linea), idx)
  {
    if e == Unknown then true else EvaluarExpresion(e, Campos(linea), idx)
  }
}
