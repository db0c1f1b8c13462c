/** What the WHERE compiler guarantees, and where its in-place index
    handling departs from an ordinary precedence parser. */
module AnalizadorPropiedades {
  import opened Resultados
  import opened Cadenas
  import opened Expresiones
  import opened Analizador

  // =====================================================================
  // Grouping only regroups: the token reading is preserved

  lemma {:induction false} PasarNotConserva(exp: seq<Expresion>, i: nat)
    requires i <= |exp|
    requires PasarNot(exp, i).Ok?
    ensures AplanarSeq(PasarNot(exp, i).value) == AplanarSeq(exp)
    decreases |exp| - i
  {
    if i < |exp| {
      if exp[i] == MarcaNot {
        var nuevo := exp[..i] + [Not(exp[i + 1])] + exp[i + 2..];
        PasarNotConserva(nuevo, i + 1);
        assert exp == exp[..i] + ([exp[i]] + [exp[i + 1]]) + exp[i + 2..];
        AplanarSeqUnion(exp[..i] + [Not(exp[i + 1])], exp[i + 2..]);
        AplanarSeqUnion(exp[..i], [Not(exp[i + 1])]);
        AplanarSeqUnion(exp[..i] + ([exp[i]] + [exp[i + 1]]), exp[i + 2..]);
        AplanarSeqUnion(exp[..i], [exp[i]] + [exp[i + 1]]);
        AplanarSeqUnion([exp[i]], [exp[i + 1]]);
        assert AplanarSeq([Not(exp[i + 1])]) == [MarcaNot] + Aplanar(exp[i + 1]);
        assert AplanarSeq([exp[i]]) == [MarcaNot];
        assert AplanarSeq([exp[i + 1]]) == Aplanar(exp[i + 1]);
      } else {
        PasarNotConserva(exp, i + 1);
      }
    }
  }

  lemma {:induction false} PasarBinarioConserva(exp: seq<Expresion>, i: nat, c: Conectivo)
    requires i <= |exp| + 1
    requires PasarBinario(exp, i, c).Ok?
    ensures AplanarSeq(PasarBinario(exp, i, c).value) == AplanarSeq(exp)
    decreases |exp| + 1 - i
  {
    if i < |exp| {
      if exp[i] == Marca(c) {
        var l, r := exp[i - 1], exp[i + 1];
        var nuevo := exp[..i - 1] + [Construir(c, l, r)] + exp[i + 2..];
        PasarBinarioConserva(nuevo, i + 1, c);
        var tres := [l] + [exp[i]] + [r];
        assert exp == exp[..i - 1] + tres + exp[i + 2..];
        AplanarSeqUnion(exp[..i - 1] + [Construir(c, l, r)], exp[i + 2..]);
        AplanarSeqUnion(exp[..i - 1], [Construir(c, l, r)]);
        AplanarSeqUnion(exp[..i - 1] + tres, exp[i + 2..]);
        AplanarSeqUnion(exp[..i - 1], tres);
        AplanarSeqUnion([l] + [exp[i]], [r]);
        AplanarSeqUnion([l], [exp[i]]);
        assert AplanarSeq([Construir(c, l, r)]) == Aplanar(l) + [Marca(c)] + Aplanar(r);
        assert AplanarSeq([exp[i]]) == [Marca(c)];
        assert AplanarSeq([l]) == Aplanar(l);
        assert AplanarSeq([r]) == Aplanar(r);
      } else {
        PasarBinarioConserva(exp, i + 1, c);
      }
    }
  }

  /** `agrupar_expresion` never drops, invents or reorders a token: the
      reading of the tree it returns is the reading of its input. */
  lemma AgruparConservaTokens(exp: seq<Expresion>)
    requires Agrupar(exp).Ok?
    ensures Aplanar(Agrupar(exp).value) == AplanarSeq(exp)
  {
    var a := PasarNot(exp, 0).value;
    PasarNotConserva(exp, 0);
    var b := PasarBinario(a, 0, ConAnd).value;
    PasarBinarioConserva(a, 0, ConAnd);
    var c := PasarBinario(b, 0, ConOr).value;
    PasarBinarioConserva(b, 0, ConOr);
    assert AplanarSeq(c) == Aplanar(c[0]) + AplanarSeq(c[1..]);
  }

  // =====================================================================
  // Parenthesis resolution

  /** Reading left to right from open depth `d`, no `)` closes a group that
      was never opened and every `(` is closed by the end. */
  predicate Equilibrado(s: seq<Expresion>, d: nat)
    decreases |s|
  {
    if |s| == 0 then d == 0
    else if s[0] == Ipar then Equilibrado(s[1..], d + 1)
    else if s[0] == Dpar then d > 0 && Equilibrado(s[1..], d - 1)
    else Equilibrado(s[1..], d)
  }

  /** The sequence with its parenthesis markers removed. */
  function SinMarcas(s: seq<Expresion>): seq<Expresion>
    decreases |s|
  {
    if |s| == 0 then []
    else if s[0] == Ipar || s[0] == Dpar then SinMarcas(s[1..])
    else [s[0]] + SinMarcas(s[1..])
  }

  predicate TodosSinParentesis(s: seq<Expresion>) {
    forall k :: 0 <= k < |s| ==> SinParentesis(s[k])
  }

  /** The token reading of the groups waiting on the stack, outermost first. */
  function AplanarPila(pila: seq<seq<Expresion>>): seq<Expresion>
    decreases |pila|
  {
    if |pila| == 0 then [] else AplanarPila(pila[..|pila| - 1]) + AplanarSeq(pila[|pila| - 1])
  }

  lemma {:induction false} PasarNotSinParentesis(exp: seq<Expresion>, i: nat)
    requires i <= |exp|
    requires TodosSinParentesis(exp) && PasarNot(exp, i).Ok?
    ensures TodosSinParentesis(PasarNot(exp, i).value)
    decreases |exp| - i
  {
    if i < |exp| {
      if exp[i] == MarcaNot {
        var nuevo := exp[..i] + [Not(exp[i + 1])] + exp[i + 2..];
        assert TodosSinParentesis(nuevo) by {
          forall k | 0 <= k < |nuevo| ensures SinParentesis(nuevo[k]) {
            if k > i {
              assert nuevo[k] == exp[k + 1];
            }
          }
        }
        PasarNotSinParentesis(nuevo, i + 1);
      } else {
        PasarNotSinParentesis(exp, i + 1);
      }
    }
  }

  lemma {:induction false} PasarBinarioSinParentesis(exp: seq<Expresion>, i: nat, c: Conectivo)
    requires i <= |exp| + 1
    requires TodosSinParentesis(exp) && PasarBinario(exp, i, c).Ok?
    ensures TodosSinParentesis(PasarBinario(exp, i, c).value)
    decreases |exp| + 1 - i
  {
    if i < |exp| {
      if exp[i] == Marca(c) {
        var nuevo := exp[..i - 1] + [Construir(c, exp[i - 1], exp[i + 1])] + exp[i + 2..];
        assert TodosSinParentesis(nuevo) by {
          forall k | 0 <= k < |nuevo| ensures SinParentesis(nuevo[k]) {
            if k >= i {
              assert nuevo[k] == exp[k + 2];
            }
          }
        }
        PasarBinarioSinParentesis(nuevo, i + 1, c);
      } else {
        PasarBinarioSinParentesis(exp, i + 1, c);
      }
    }
  }

  lemma AgruparSinParentesis(exp: seq<Expresion>)
    requires TodosSinParentesis(exp) && Agrupar(exp).Ok?
    ensures SinParentesis(Agrupar(exp).value)
  {
    PasarNotSinParentesis(exp, 0);
    var a := PasarNot(exp, 0).value;
    PasarBinarioSinParentesis(a, 0, ConAnd);
    var b := PasarBinario(a, 0, ConAnd).value;
    PasarBinarioSinParentesis(b, 0, ConOr);
  }

  lemma {:induction false} SubexpresionesEquilibrado(exp: seq<Expresion>, i: nat, pila: seq<seq<Expresion>>, aux: seq<Expresion>)
    requires i <= |exp|
    requires Subexpresiones(exp, i, pila, aux).Ok?
    ensures Equilibrado(exp[i..], |pila|)
    decreases |exp| - i
  {
    if i < |exp| {
      assert exp[i..][1..] == exp[i + 1..];
      if exp[i] == Ipar {
        SubexpresionesEquilibrado(exp, i + 1, pila + [aux], []);
      } else if exp[i] == Dpar {
        var g := Agrupar(aux).value;
        SubexpresionesEquilibrado(exp, i + 1, pila[..|pila| - 1], pila[|pila| - 1] + [g]);
      } else {
        SubexpresionesEquilibrado(exp, i + 1, pila, aux + [exp[i]]);
      }
    }
  }

  lemma {:induction false} SubexpresionesSinParentesis(exp: seq<Expresion>, i: nat, pila: seq<seq<Expresion>>, aux: seq<Expresion>)
    requires i <= |exp|
    requires forall k :: 0 <= k < |exp| ==> exp[k] == Ipar || exp[k] == Dpar || SinParentesis(exp[k])
    requires forall k :: 0 <= k < |pila| ==> TodosSinParentesis(pila[k])
    requires TodosSinParentesis(aux)
    requires Subexpresiones(exp, i, pila, aux).Ok?
    ensures SinParentesis(Subexpresiones(exp, i, pila, aux).value)
    decreases |exp| - i
  {
    if i == |exp| {
      AgruparSinParentesis(aux);
    } else if exp[i] == Ipar {
      SubexpresionesSinParentesis(exp, i + 1, pila + [aux], []);
    } else if exp[i] == Dpar {
      AgruparSinParentesis(aux);
      var g := Agrupar(aux).value;
      SubexpresionesSinParentesis(exp, i + 1, pila[..|pila| - 1], pila[|pila| - 1] + [g]);
    } else {
      SubexpresionesSinParentesis(exp, i + 1, pila, aux + [exp[i]]);
    }
  }

  /** Pushing a group onto the stack appends its reading. */
  lemma ApilarConserva(pila: seq<seq<Expresion>>, aux: seq<Expresion>)
    ensures AplanarPila(pila + [aux]) == AplanarPila(pila) + AplanarSeq(aux)
  {
    assert (pila + [aux])[..|pila|] == pila;
  }

  /** Closing a group whose grouped form reads as its tokens: popping the
      enclosing group and appending the grouped form keeps the reading. */
  lemma DesapilarConserva(pila: seq<seq<Expresion>>, aux: seq<Expresion>, g: Expresion)
    requires |pila| > 0 && Aplanar(g) == AplanarSeq(aux)
    ensures AplanarPila(pila[..|pila| - 1]) + AplanarSeq(pila[|pila| - 1] + [g])
            == AplanarPila(pila) + AplanarSeq(aux)
  {
    ExtenderConserva(pila[|pila| - 1], g);
  }

  /** Appending one token to the group being filled. */
  lemma ExtenderConserva(aux: seq<Expresion>, x: Expresion)
    ensures AplanarSeq(aux + [x]) == AplanarSeq(aux) + Aplanar(x)
  {
    AplanarSeqUnion(aux, [x]);
    assert AplanarSeq([x]) == Aplanar(x);
  }

  /** One step of `SinMarcas` past a parenthesis marker. */
  lemma SinMarcasSalta(exp: seq<Expresion>, i: nat)
    requires i < |exp| && (exp[i] == Ipar || exp[i] == Dpar)
    ensures SinMarcas(exp[i..]) == SinMarcas(exp[i + 1..])
  {
    assert exp[i..][1..] == exp[i + 1..];
  }

  /** One step of `SinMarcas` past any other token. */
  lemma SinMarcasToma(exp: seq<Expresion>, i: nat)
    requires i < |exp| && exp[i] != Ipar && exp[i] != Dpar
    ensures AplanarSeq(SinMarcas(exp[i..])) == Aplanar(exp[i]) + AplanarSeq(SinMarcas(exp[i + 1..]))
  {
    assert exp[i..][1..] == exp[i + 1..];
    AplanarSeqUnion([exp[i]], SinMarcas(exp[i + 1..]));
    assert AplanarSeq([exp[i]]) == Aplanar(exp[i]);
  }

  /** The reading `Subexpresiones` is claimed to preserve from position `i`. */
  function Lectura(exp: seq<Expresion>, i: nat, pila: seq<seq<Expresion>>, aux: seq<Expresion>): seq<Expresion>
    requires i <= |exp|
  {
    AplanarPila(pila) + AplanarSeq(aux) + AplanarSeq(SinMarcas(exp[i..]))
  }

  lemma ConservaIpar(exp: seq<Expresion>, i: nat, pila: seq<seq<Expresion>>, aux: seq<Expresion>)
    requires i < |exp| && exp[i] == Ipar
    ensures Lectura(exp, i + 1, pila + [aux], []) == Lectura(exp, i, pila, aux)
  {
    SinMarcasSalta(exp, i);
    ApilarConserva(pila, aux);
  }

  lemma ConservaDpar(exp: seq<Expresion>, i: nat, pila: seq<seq<Expresion>>, aux: seq<Expresion>, g: Expresion)
    requires i < |exp| && exp[i] == Dpar && |pila| > 0 && Aplanar(g) == AplanarSeq(aux)
    ensures Lectura(exp, i + 1, pila[..|pila| - 1], pila[|pila| - 1] + [g]) == Lectura(exp, i, pila, aux)
  {
    SinMarcasSalta(exp, i);
    DesapilarConserva(pila, aux, g);
  }

  lemma Reasociar<T>(p: seq<T>, a: seq<T>, x: seq<T>, r: seq<T>)
    ensures p + (a + x) + r == p + a + (x + r)
  {
  }

  lemma ConservaToken(exp: seq<Expresion>, i: nat, pila: seq<seq<Expresion>>, aux: seq<Expresion>)
    requires i < |exp| && exp[i] != Ipar && exp[i] != Dpar
    ensures Lectura(exp, i + 1, pila, aux + [exp[i]]) == Lectura(exp, i, pila, aux)
  {
    SinMarcasToma(exp, i);
    ExtenderConserva(aux, exp[i]);
    Reasociar(AplanarPila(pila), AplanarSeq(aux), Aplanar(exp[i]), AplanarSeq(SinMarcas(exp[i + 1..])));
  }

  lemma {:induction false} SubexpresionesConserva(exp: seq<Expresion>, i: nat, pila: seq<seq<Expresion>>, aux: seq<Expresion>)
    requires i <= |exp|
    requires Subexpresiones(exp, i, pila, aux).Ok?
    ensures Aplanar(Subexpresiones(exp, i, pila, aux).value) == Lectura(exp, i, pila, aux)
    decreases |exp| - i
  {
    if i == |exp| {
      AgruparConservaTokens(aux);
      assert exp[i..] == [];
    } else if exp[i] == Ipar {
      SubexpresionesConserva(exp, i + 1, pila + [aux], []);
      ConservaIpar(exp, i, pila, aux);
    } else if exp[i] == Dpar {
      AgruparConservaTokens(aux);
      var g := Agrupar(aux).value;
      SubexpresionesConserva(exp, i + 1, pila[..|pila| - 1], pila[|pila| - 1] + [g]);
      ConservaDpar(exp, i, pila, aux, g);
    } else {
      SubexpresionesConserva(exp, i + 1, pila, aux + [exp[i]]);
      ConservaToken(exp, i, pila, aux);
    }
  }

  /** `obtener_subexpresiones` on an adapted sequence: it succeeds only on
      balanced parentheses, and what it returns holds no parenthesis marker
      and reads as the input with its markers removed. */
  lemma ObtenerSubexpresionesCorrecta(exp: seq<Expresion>)
    requires forall k :: 0 <= k < |exp| ==> Plano(exp[k])
    requires ObtenerSubexpresiones(exp).Ok?
    ensures Equilibrado(exp, 0)
    ensures SinParentesis(ObtenerSubexpresiones(exp).value)
    ensures Aplanar(ObtenerSubexpresiones(exp).value) == SinMarcas(exp)
  {
    SubexpresionesEquilibrado(exp, 0, [], []);
    assert exp[0..] == exp;
    SubexpresionesSinParentesis(exp, 0, [], []);
    SubexpresionesConserva(exp, 0, [], []);
    PlanoSeLee(exp);
  }

  /** A flat sequence without markers reads as itself. */
  lemma {:induction false} PlanoSeLee(exp: seq<Expresion>)
    requires forall k :: 0 <= k < |exp| ==> Plano(exp[k])
    ensures AplanarSeq(SinMarcas(exp)) == SinMarcas(exp)
    decreases |exp|
  {
    if |exp| > 0 {
      PlanoSeLee(exp[1..]);
      if !(exp[0] == Ipar || exp[0] == Dpar) {
        assert Aplanar(exp[0]) == [exp[0]];
        assert ([exp[0]] + SinMarcas(exp[1..]))[1..] == SinMarcas(exp[1..]);
      }
    }
  }

  /** `parsear_expresion` on a non-empty clause: a successful result has
      balanced parentheses, no parenthesis marker, and reads, token for
      token, as the adapted clause with the parentheses removed. */
  lemma ParsearExpresionCorrecta(ts: seq<string>)
    requires |ts| > 0 && ParsearExpresion(ts).Ok?
    ensures AdaptarWhere(ts).Ok?
    ensures Equilibrado(AdaptarWhere(ts).value, 0)
    ensures SinParentesis(ParsearExpresion(ts).value)
    ensures Aplanar(ParsearExpresion(ts).value) == SinMarcas(AdaptarWhere(ts).value)
  {
    ObtenerSubexpresionesCorrecta(AdaptarWhere(ts).value);
  }

  // =====================================================================
  // Error conditions of the precedence passes

  lemma {:induction false} PasarNotConservaPrimero(exp: seq<Expresion>, i: nat)
    requires 1 <= i <= |exp|
    requires PasarNot(exp, i).Ok?
    ensures |PasarNot(exp, i).value| >= 1 && PasarNot(exp, i).value[0] == exp[0]
    decreases |exp| - i
  {
    if i < |exp| {
      if exp[i] == MarcaNot {
        PasarNotConservaPrimero(exp[..i] + [Not(exp[i + 1])] + exp[i + 2..], i + 1);
      } else {
        PasarNotConservaPrimero(exp, i + 1);
      }
    }
  }

  /** An AND placeholder in first position always fails: the NOT pass
      cannot move it and the AND pass finds no left operand. */
  lemma AgruparAndInicial(exp: seq<Expresion>)
    requires |exp| > 0 && exp[0] == MarcaAnd
    ensures Agrupar(exp) == Err(InvalidSyntax)
  {
    assert PasarNot(exp, 0) == PasarNot(exp, 1);
    if PasarNot(exp, 0).Ok? {
      PasarNotConservaPrimero(exp, 1);
      var a := PasarNot(exp, 0).value;
      assert a[0] == Marca(ConAnd);
      assert PasarBinario(a, 0, ConAnd) == Err(InvalidSyntax);
    }
  }

  lemma {:induction false} PasarNotFinal(exp: seq<Expresion>, i: nat)
    requires i < |exp| && exp[|exp| - 1] == MarcaNot
    requires |exp| - 2 < i || exp[|exp| - 2] != MarcaNot
    ensures PasarNot(exp, i) == Err(InvalidSyntax)
    decreases |exp| - i
  {
    if i < |exp| - 1 {
      if exp[i] == MarcaNot {
        var nuevo := exp[..i] + [Not(exp[i + 1])] + exp[i + 2..];
        assert nuevo[|nuevo| - 1] == exp[|exp| - 1];
        if i + 1 <= |nuevo| - 2 {
          assert nuevo[|nuevo| - 2] == exp[|exp| - 2];
        }
        PasarNotFinal(nuevo, i + 1);
      } else {
        PasarNotFinal(exp, i + 1);
      }
    }
  }

  /** A NOT placeholder in last position fails unless a NOT placeholder
      right before it swallows it first. */
  lemma AgruparNotFinal(exp: seq<Expresion>)
    requires |exp| > 0 && exp[|exp| - 1] == MarcaNot
    requires |exp| == 1 || exp[|exp| - 2] != MarcaNot
    ensures Agrupar(exp) == Err(InvalidSyntax)
  {
    PasarNotFinal(exp, 0);
  }

  /** An empty group, for example `()`, leaves no node to build. */
  lemma AgruparVacio()
    ensures Agrupar([]) == Err(InvalidSyntax)
  {
  }

  /** A `)` that closes nothing, or a `(` never closed, is a syntax error. */
  lemma ParentesisDesequilibrados(ts: seq<string>)
    requires |ts| > 0 && AdaptarWhere(ts).Ok?
    requires !Equilibrado(AdaptarWhere(ts).value, 0)
    ensures ParsearExpresion(ts) == Err(InvalidSyntax)
  {
    if ParsearExpresion(ts).Ok? {
      ParsearExpresionCorrecta(ts);
    }
  }

  // =====================================================================
  // Precedence and the skipped element, on comparison leaves

  lemma {:induction false} PasarNotSinMarca(exp: seq<Expresion>, i: nat)
    requires i <= |exp|
    requires forall k :: i <= k < |exp| ==> exp[k] != MarcaNot
    ensures PasarNot(exp, i) == Ok(exp)
    decreases |exp| - i
  {
    if i < |exp| {
      PasarNotSinMarca(exp, i + 1);
    }
  }

  lemma {:induction false} PasarBinarioSinMarca(exp: seq<Expresion>, i: nat, c: Conectivo)
    requires i <= |exp| + 1
    requires forall k :: i <= k < |exp| ==> exp[k] != Marca(c)
    ensures PasarBinario(exp, i, c) == Ok(exp)
    decreases |exp| + 1 - i
  {
    if i < |exp| {
      PasarBinarioSinMarca(exp, i + 1, c);
    }
  }

  /** NOT binds tighter than AND, which binds tighter than OR:
      `NOT x AND y OR z` groups as `(NOT x AND y) OR z`. */
  lemma AgruparPrecedencia(x: Expresion, y: Expresion, z: Expresion)
    requires x.Operacion? && y.Operacion? && z.Operacion?
    ensures Agrupar([MarcaNot, x, MarcaAnd, y, MarcaOr, z]) == Ok(Or(And(Not(x), y), z))
  {
    var s0 := [MarcaNot, x, MarcaAnd, y, MarcaOr, z];
    var s1 := [Not(x), MarcaAnd, y, MarcaOr, z];
    assert s0[..0] + [Not(s0[1])] + s0[2..] == s1;
    assert PasarNot(s0, 0) == PasarNot(s1, 1);
    PasarNotSinMarca(s1, 1);
    var s2 := [And(Not(x), y), MarcaOr, z];
    assert s1[..0] + [Construir(ConAnd, s1[0], s1[2])] + s1[3..] == s2;
    assert PasarBinario(s1, 0, ConAnd) == PasarBinario(s1, 1, ConAnd) == PasarBinario(s2, 2, ConAnd);
    PasarBinarioSinMarca(s2, 2, ConAnd);
    var s3 := [Or(And(Not(x), y), z)];
    assert s2[..0] + [Construir(ConOr, s2[0], s2[2])] + s2[3..] == s3;
    assert PasarBinario(s2, 0, ConOr) == PasarBinario(s2, 1, ConOr) == PasarBinario(s3, 2, ConOr);
    PasarBinarioSinMarca(s3, 2, ConOr);
  }

  /** `x AND y OR z` groups as `(x AND y) OR z`; see `ParentesisAgrupan`. */
  lemma AndAntesQueOr(x: Expresion, y: Expresion, z: Expresion)
    requires x.Operacion? && y.Operacion? && z.Operacion?
    ensures ObtenerSubexpresiones([x, MarcaAnd, y, MarcaOr, z]) == Ok(Or(And(x, y), z))
  {
    var sin := [x, MarcaAnd, y, MarcaOr, z];
    SubexpresionesSinParentesisEsAgrupar(sin, 0, []);
    assert [] + sin[0..] == sin;
    PasarNotSinMarca(sin, 0);
    var a1 := [And(x, y), MarcaOr, z];
    assert sin[..0] + [Construir(ConAnd, sin[0], sin[2])] + sin[3..] == a1;
    assert PasarBinario(sin, 0, ConAnd) == PasarBinario(sin, 1, ConAnd) == PasarBinario(a1, 2, ConAnd);
    PasarBinarioSinMarca(a1, 2, ConAnd);
    var a2 := [Or(And(x, y), z)];
    assert a1[..0] + [Construir(ConOr, a1[0], a1[2])] + a1[3..] == a2;
    assert PasarBinario(a1, 0, ConOr) == PasarBinario(a1, 1, ConOr) == PasarBinario(a2, 2, ConOr);
    PasarBinarioSinMarca(a2, 2, ConOr);
  }

  /** `x AND y OR z` groups as `(x AND y) OR z`, but with `y OR z` in
      parentheses the group becomes the right operand of AND. */
  lemma ParentesisAgrupan(x: Expresion, y: Expresion, z: Expresion)
    requires x.Operacion? && y.Operacion? && z.Operacion?
    ensures ObtenerSubexpresiones([x, MarcaAnd, y, MarcaOr, z]) == Ok(Or(And(x, y), z))
    ensures ObtenerSubexpresiones([x, MarcaAnd, Ipar, y, MarcaOr, z, Dpar]) == Ok(And(x, Or(y, z)))
  {
    AndAntesQueOr(x, y, z);
    var con := [x, MarcaAnd, Ipar, y, MarcaOr, z, Dpar];
    var dentro := [y, MarcaOr, z];
    AgruparBinarioSimple(y, z, ConOr);
    var fuera := [x, MarcaAnd, Or(y, z)];
    AgruparBinarioSimple(x, Or(y, z), ConAnd);
    var pila := [[x, MarcaAnd]];
    assert Subexpresiones(con, 7, [], fuera) == Ok(And(x, Or(y, z)));
    assert pila[..0] == [] && pila[0] + [Or(y, z)] == fuera;
    assert Subexpresiones(con, 6, pila, dentro) == Subexpresiones(con, 7, [], fuera);
    assert [y, MarcaOr] + [con[5]] == dentro && [y] + [con[4]] == [y, MarcaOr];
    assert [] + [con[3]] == [y] && [] + [[x, MarcaAnd]] == pila;
    assert [x] + [con[1]] == [x, MarcaAnd] && [] + [con[0]] == [x];
    assert Subexpresiones(con, 5, pila, [y, MarcaOr]) == Subexpresiones(con, 6, pila, dentro);
    assert Subexpresiones(con, 4, pila, [y]) == Subexpresiones(con, 5, pila, [y, MarcaOr]);
    assert Subexpresiones(con, 3, pila, []) == Subexpresiones(con, 4, pila, [y]);
    assert Subexpresiones(con, 2, [], [x, MarcaAnd]) == Subexpresiones(con, 3, pila, []);
    assert Subexpresiones(con, 1, [], [x]) == Subexpresiones(con, 2, [], [x, MarcaAnd]);
    assert Subexpresiones(con, 0, [], []) == Subexpresiones(con, 1, [], [x]);
  }

  /** A single `l op r` with no placeholder among the operands groups into
      one node. */
  lemma AgruparBinarioSimple(l: Expresion, r: Expresion, c: Conectivo)
    requires l != MarcaNot && l != MarcaAnd && l != MarcaOr
    requires r != MarcaNot && r != MarcaAnd && r != MarcaOr
    ensures Agrupar([l, Marca(c), r]) == Ok(Construir(c, l, r))
  {
    var s := [l, Marca(c), r];
    PasarNotSinMarca(s, 0);
    var u := [Construir(c, l, r)];
    assert s[..0] + [Construir(c, s[0], s[2])] + s[3..] == u;
    assert PasarBinario(s, 0, c) == PasarBinario(s, 1, c) == PasarBinario(u, 2, c);
    PasarBinarioSinMarca(u, 2, c);
    match c
    case ConAnd =>
      PasarBinarioSinMarca(u, 0, ConOr);
    case ConOr =>
      PasarBinarioSinMarca(s, 0, ConAnd);
  }

  /** Without parenthesis markers the stack stays empty and the scan just
      collects the nodes for one final grouping. */
  lemma {:induction false} SubexpresionesSinParentesisEsAgrupar(exp: seq<Expresion>, i: nat, aux: seq<Expresion>)
    requires i <= |exp|
    requires forall k :: 0 <= k < |exp| ==> exp[k] != Ipar && exp[k] != Dpar
    ensures Subexpresiones(exp, i, [], aux) == Agrupar(aux + exp[i..])
    decreases |exp| - i
  {
    if i < |exp| {
      SubexpresionesSinParentesisEsAgrupar(exp, i + 1, aux + [exp[i]]);
      assert aux + exp[i..] == aux + [exp[i]] + exp[i + 1..];
    } else {
      assert aux + exp[i..] == aux;
    }
  }

  /** The AND pass skips the element two places after a reduced
      placeholder, so a second AND in a row is never reduced and
      `x AND y AND z` fails the final length check; likewise for OR. */
  lemma ConectivoEncadenadoFalla(x: Expresion, y: Expresion, z: Expresion, c: Conectivo)
    requires x.Operacion? && y.Operacion? && z.Operacion?
    ensures Agrupar([x, Marca(c), y, Marca(c), z]) == Err(InvalidSyntax)
  {
    var s := [x, Marca(c), y, Marca(c), z];
    PasarNotSinMarca(s, 0);
    var r := [Construir(c, x, y), Marca(c), z];
    assert s[..0] + [Construir(c, s[0], s[2])] + s[3..] == r;
    assert PasarBinario(s, 0, c) == PasarBinario(s, 1, c) == PasarBinario(r, 2, c);
    match c
    case ConAnd =>
      PasarBinarioSinMarca(r, 2, ConAnd);
      PasarBinarioSinMarca(r, 0, ConOr);
    case ConOr =>
      PasarBinarioSinMarca(s, 0, ConAnd);
      PasarBinarioSinMarca(r, 2, ConOr);
  }

  /** A NOT placeholder swallows the next node even when that node is an
      unfilled NOT, so `NOT NOT x` leaves two nodes and fails. */
  lemma NotNotFalla(x: Expresion)
    requires x.Operacion?
    ensures Agrupar([MarcaNot, MarcaNot, x]) == Err(InvalidSyntax)
  {
    var s := [MarcaNot, MarcaNot, x];
    var r := [Not(MarcaNot), x];
    assert s[..0] + [Not(s[1])] + s[2..] == r;
    assert PasarNot(s, 0) == PasarNot(r, 1);
    PasarNotSinMarca(r, 1);
    PasarBinarioSinMarca(r, 0, ConAnd);
    PasarBinarioSinMarca(r, 0, ConOr);
  }

  // =====================================================================
  // Whole clauses

  /** A token the adapter turns into a comparison leaf. */
  predicate EsCondicion(t: string) {
    AdaptarToken(t).Ok? && AdaptarToken(t).value.Operacion?
  }

  /** The adapter applied token by token. */
  lemma {:induction false} AdaptarWherePorElementos(ts: seq<string>, es: seq<Expresion>)
    requires |ts| == |es|
    requires forall k :: 0 <= k < |ts| ==> AdaptarToken(ts[k]) == Ok(es[k])
    ensures AdaptarWhere(ts) == Ok(es)
    decreases |ts|
  {
    if |ts| > 0 {
      AdaptarWherePorElementos(ts[1..], es[1..]);
      assert AdaptarToken(ts[0]) == Ok(es[0]);
      assert [es[0]] + es[1..] == es;
    }
  }

  /** Without parenthesis markers, compiling is grouping the adapted nodes. */
  lemma ObtenerSinParentesis(exp: seq<Expresion>)
    requires Ipar !in exp && Dpar !in exp
    ensures ObtenerSubexpresiones(exp) == Agrupar(exp)
  {
    SubexpresionesSinParentesisEsAgrupar(exp, 0, []);
    assert [] + exp[0..] == exp;
  }

  /** The adapter's reading of six tokens, one by one. */
  lemma AdaptarSeis(ts: seq<string>, es: seq<Expresion>)
    requires |ts| == 6 && |es| == 6
    requires AdaptarToken(ts[0]) == Ok(es[0]) && AdaptarToken(ts[1]) == Ok(es[1])
    requires AdaptarToken(ts[2]) == Ok(es[2]) && AdaptarToken(ts[3]) == Ok(es[3])
    requires AdaptarToken(ts[4]) == Ok(es[4]) && AdaptarToken(ts[5]) == Ok(es[5])
    ensures AdaptarWhere(ts) == Ok(es)
  {
    assert forall k :: 0 <= k < |ts| ==> AdaptarToken(ts[k]) == Ok(es[k]) by {
      forall k | 0 <= k < |ts| ensures AdaptarToken(ts[k]) == Ok(es[k]) {
        assert k == 0 || k == 1 || k == 2 || k == 3 || k == 4 || k == 5;
      }
    }
    AdaptarWherePorElementos(ts, es);
  }

  /** `NOT a AND b OR c` compiles to `Or(And(Not(a), b), c)`: NOT binds
      tightest, then AND, then OR. */
  lemma PrecedenciaClausula(n: string, a: string, y: string, b: string, o: string, c: string)
    requires Mayusculas(n) == "NOT" && Mayusculas(y) == "AND" && Mayusculas(o) == "OR"
    requires EsCondicion(a) && EsCondicion(b) && EsCondicion(c)
    ensures ParsearExpresion([n, a, y, b, o, c])
            == Ok(Or(And(Not(AdaptarToken(a).value), AdaptarToken(b).value), AdaptarToken(c).value))
  {
    var ea, eb, ec := AdaptarToken(a).value, AdaptarToken(b).value, AdaptarToken(c).value;
    assert AdaptarToken(n) == Ok(MarcaNot);
    assert AdaptarToken(y) == Ok(MarcaAnd);
    assert AdaptarToken(o) == Ok(MarcaOr);
    AdaptarSeis([n, a, y, b, o, c], [MarcaNot, ea, MarcaAnd, eb, MarcaOr, ec]);
    PrecedenciaAgrupada(ea, eb, ec);
  }

  lemma PrecedenciaAgrupada(ea: Expresion, eb: Expresion, ec: Expresion)
    requires ea.Operacion? && eb.Operacion? && ec.Operacion?
    ensures ObtenerSubexpresiones([MarcaNot, ea, MarcaAnd, eb, MarcaOr, ec]) == Ok(Or(And(Not(ea), eb), ec))
  {
    ObtenerSinParentesis([MarcaNot, ea, MarcaAnd, eb, MarcaOr, ec]);
    AgruparPrecedencia(ea, eb, ec);
  }

  /** The clause `NOT a AND b OR c` accepts a row exactly when
      `(not a and b) or c` holds of its fields. */
  lemma PrecedenciaClausulaEvalua(n: string, a: string, y: string, b: string, o: string, c: string,
                                  linea: string, idx: map<string, nat>)
    requires Mayusculas(n) == "NOT" && Mayusculas(y) == "AND" && Mayusculas(o) == "OR"
    requires EsCondicion(a) && EsCondicion(b) && EsCondicion(c)
    ensures var e := ParsearExpresion([n, a, y, b, o, c]);
            var f := Campos(linea);
            && e.Ok?
            && CumpleCW(linea, e.value, idx)
               == ((!EvaluarCondicional(AdaptarToken(a).value.condicional, f, idx)
                    && EvaluarCondicional(AdaptarToken(b).value.condicional, f, idx))
                   || EvaluarCondicional(AdaptarToken(c).value.condicional, f, idx))
  {
    PrecedenciaClausula(n, a, y, b, o, c);
    var ea, eb, ec := AdaptarToken(a).value, AdaptarToken(b).value, AdaptarToken(c).value;
    var f := Campos(linea);
    assert ea.Operacion? && eb.Operacion? && ec.Operacion?;
    assert EvaluarExpresion(Not(ea), f, idx) == !EvaluarCondicional(ea.condicional, f, idx);
    assert EvaluarExpresion(eb, f, idx) == EvaluarCondicional(eb.condicional, f, idx);
    assert EvaluarExpresion(ec, f, idx) == EvaluarCondicional(ec.condicional, f, idx);
    assert EvaluarExpresion(And(Not(ea), eb), f, idx) == (EvaluarExpresion(Not(ea), f, idx) && EvaluarExpresion(eb, f, idx));
    assert EvaluarExpresion(Or(And(Not(ea), eb), ec), f, idx) == (EvaluarExpresion(And(Not(ea), eb), f, idx) || EvaluarExpresion(ec, f, idx));
    assert CumpleCW(linea, Or(And(Not(ea), eb), ec), idx)
           == EvaluarExpresion(Or(And(Not(ea), eb), ec), f, idx);
  }

  /** `a AND b AND c` is rejected, for any three conditions. */
  lemma AndEncadenadoRechazado(a: string, y1: string, b: string, y2: string, c: string)
    requires Mayusculas(y1) == "AND" && Mayusculas(y2) == "AND"
    requires EsCondicion(a) && EsCondicion(b) && EsCondicion(c)
    ensures ParsearExpresion([a, y1, b, y2, c]) == Err(InvalidSyntax)
  {
    var ea, eb, ec := AdaptarToken(a).value, AdaptarToken(b).value, AdaptarToken(c).value;
    AdaptarCinco([a, y1, b, y2, c], [ea, MarcaAnd, eb, MarcaAnd, ec]);
    AndEncadenadoNodos(ea, eb, ec);
  }

  /** The adapter's reading of five tokens, one by one. */
  lemma AdaptarCinco(ts: seq<string>, es: seq<Expresion>)
    requires |ts| == 5 && |es| == 5
    requires AdaptarToken(ts[0]) == Ok(es[0]) && AdaptarToken(ts[1]) == Ok(es[1])
    requires AdaptarToken(ts[2]) == Ok(es[2]) && AdaptarToken(ts[3]) == Ok(es[3])
    requires AdaptarToken(ts[4]) == Ok(es[4])
    ensures AdaptarWhere(ts) == Ok(es)
  {
    assert forall k :: 0 <= k < |ts| ==> AdaptarToken(ts[k]) == Ok(es[k]) by {
      forall k | 0 <= k < |ts| ensures AdaptarToken(ts[k]) == Ok(es[k]) {
        assert k == 0 || k == 1 || k == 2 || k == 3 || k == 4;
      }
    }
    AdaptarWherePorElementos(ts, es);
  }

  /** Parenthesis resolution of `x AND y AND z` fails. */
  lemma AndEncadenadoNodos(x: Expresion, y: Expresion, z: Expresion)
    requires x.Operacion? && y.Operacion? && z.Operacion?
    ensures ObtenerSubexpresiones([x, MarcaAnd, y, MarcaAnd, z]) == Err(InvalidSyntax)
  {
    ObtenerSinParentesis([x, MarcaAnd, y, MarcaAnd, z]);
    ConectivoEncadenadoFalla(x, y, z, ConAnd);
  }

  lemma MayusculasDeMayusculas(s: string)
    requires forall i :: 0 <= i < |s| ==> 'A' <= s[i] <= 'Z'
    ensures Mayusculas(s) == s
  {
  }

  /** As written, `agrupar_expresion` can return a tree that still holds
      unfilled slots: `NOT AND` compiles to `Not(And(Unknown, Unknown))`,
      which accepts every row, and `NOT NOT` to `Not(Not(Unknown))`, which
      accepts none. The guarded `CompilarWhere` rejects both. */
  lemma PlaceholderSinLlenar()
    ensures ParsearExpresion(["NOT", "AND"]) == Ok(Not(MarcaAnd))
    ensures forall linea, idx :: CumpleCW(linea, Not(MarcaAnd), idx)
    ensures ParsearExpresion(["NOT", "NOT"]) == Ok(Not(MarcaNot))
    ensures forall linea, idx :: !CumpleCW(linea, Not(MarcaNot), idx)
    ensures CompilarWhere(["NOT", "AND"]) == Err(InvalidSyntax)
    ensures CompilarWhere(["NOT", "NOT"]) == Err(InvalidSyntax)
  {
    NotAndSinLlenar();
    NotNotSinLlenar();
    forall linea, idx ensures CumpleCW(linea, Not(MarcaAnd), idx) && !CumpleCW(linea, Not(MarcaNot), idx) {
      var f := Campos(linea);
      assert !EvaluarExpresion(Unknown, f, idx);
      assert !EvaluarExpresion(MarcaAnd, f, idx);
      assert EvaluarExpresion(MarcaNot, f, idx);
    }
  }

  lemma NotAndSinLlenar()
    ensures ParsearExpresion(["NOT", "AND"]) == Ok(Not(MarcaAnd))
  {
    MayusculasDeMayusculas("NOT");
    MayusculasDeMayusculas("AND");
    var s1 := [MarcaNot, MarcaAnd];
    AdaptarWherePorElementos(["NOT", "AND"], s1);
    SubexpresionesSinParentesisEsAgrupar(s1, 0, []);
    assert [] + s1[0..] == s1;
    assert s1[..0] + [Not(s1[1])] + s1[2..] == [Not(MarcaAnd)];
    PasarNotSinMarca([Not(MarcaAnd)], 1);
    PasarBinarioSinMarca([Not(MarcaAnd)], 0, ConAnd);
    PasarBinarioSinMarca([Not(MarcaAnd)], 0, ConOr);
  }

  lemma NotNotSinLlenar()
    ensures ParsearExpresion(["NOT", "NOT"]) == Ok(Not(MarcaNot))
  {
    MayusculasDeMayusculas("NOT");
    var s2 := [MarcaNot, MarcaNot];
    AdaptarWherePorElementos(["NOT", "NOT"], s2);
    SubexpresionesSinParentesisEsAgrupar(s2, 0, []);
    assert [] + s2[0..] == s2;
    assert s2[..0] + [Not(s2[1])] + s2[2..] == [Not(MarcaNot)];
    PasarNotSinMarca([Not(MarcaNot)], 1);
    PasarBinarioSinMarca([Not(MarcaNot)], 0, ConAnd);
    PasarBinarioSinMarca([Not(MarcaNot)], 0, ConOr);
  }


  // =====================================================================
  // Conditions and comparisons

  /** A comparison is determined by its symbol and its two operands. */
  lemma CondicionalDeterminado(c: Condicional, d: Condicional)
    requires Simbolo(c) == Simbolo(d)
    requires c.miembro1 == d.miembro1 && c.miembro2 == d.miembro2
    ensures c == d
  {
  }

  /** Joining two leading words in front of a list. */
  lemma JoinDosPrimeros(m: string, sym: string, ws: seq<string>)
    requires |ws| > 0
    ensures Join([m, sym] + ws, " ") == m + " " + sym + " " + Join(ws, " ")
  {
    JoinUnion([m, sym], ws, " ");
    assert [m, sym][1..] == [sym];
  }

  lemma PalabrasDeDosMas(m: string, sym: string, ws: seq<string>)
    requires EsPalabra(m) && EsPalabra(sym)
    requires |ws| > 0 && forall k :: 0 <= k < |ws| ==> EsPalabra(ws[k])
    ensures Palabras(m + " " + sym + " " + Join(ws, " ")) == [m, sym] + ws
  {
    var partes := [m, sym] + ws;
    JoinDosPrimeros(m, sym, ws);
    assert forall k :: 0 <= k < |partes| ==> EsPalabra(partes[k]);
    PalabrasDeJoin(partes);
  }

  lemma SimboloEsPalabra(c: Condicional)
    ensures EsPalabra(Simbolo(c)) && Simbolo(c) in Operadores
  {
  }

  /** The word list of a condition's text: its left operand, its symbol and
      the words of its right operand. */
  lemma PartesDeCondicional(c: Condicional, ws: seq<string>)
    requires EsPalabra(c.miembro1)
    requires |ws| > 0 && forall k :: 0 <= k < |ws| ==> EsPalabra(ws[k])
    requires c.miembro2 == Join(ws, " ")
    ensures Palabras(c.miembro1 + " " + Simbolo(c) + " " + c.miembro2) == [c.miembro1, Simbolo(c)] + ws
  {
    SimboloEsPalabra(c);
    PalabrasDeDosMas(c.miembro1, Simbolo(c), ws);
  }

  /** Building a condition from its text gives the condition back, provided
      the left operand is one word and the right operand is words joined by
      single spaces. */
  lemma CondicionalIdaYVuelta(c: Condicional, ws: seq<string>)
    requires EsPalabra(c.miembro1)
    requires |ws| > 0 && forall k :: 0 <= k < |ws| ==> EsPalabra(ws[k])
    requires c.miembro2 == Join(ws, " ")
    ensures ParsearCondicional(Palabras(c.miembro1 + " " + Simbolo(c) + " " + c.miembro2)) == Ok(c)
  {
    var partes := [c.miembro1, Simbolo(c)] + ws;
    PartesDeCondicional(c, ws);
    SimboloEsPalabra(c);
    assert partes[2..] == ws;
    var r := ParsearCondicional(partes);
    CondicionalDeterminado(r.value, c);
  }

  lemma LexicograficoNoNumerico()
    ensures LexMenor("10", "5") && !LexMenor("5", "10")
  {
    assert "10"[0] == '1' && "5"[0] == '5';
  }

  /** Comparison is on text, not on numbers: for every row, a column that
      holds a value compared with a digit-only literal is compared as two
      strings under `LexMenor`. */
  lemma ComparacionEsTextual(col: string, n: string, fila: seq<string>, idx: map<string, nat>)
    requires col in idx && idx[col] < |fila|
    requires n !in idx && EsNumero(n)
    ensures EvaluarCondicional(Mayor(col, n), fila, idx) <==> LexMenor(n, fila[idx[col]])
    ensures EvaluarCondicional(Menor(col, n), fila, idx) <==> LexMenor(fila[idx[col]], n)
    ensures EvaluarCondicional(MayorIgual(col, n), fila, idx) <==> !LexMenor(fila[idx[col]], n)
    ensures EvaluarCondicional(MenorIgual(col, n), fila, idx) <==> !LexMenor(n, fila[idx[col]])
    ensures EvaluarCondicional(Igual(col, n), fila, idx) <==> fila[idx[col]] == n
  {
    assert Literal(n) == Some(n);
    assert Operando(col, fila, idx) == Some(fila[idx[col]]);
  }

  /** An example of the above: with `id` = "10" the condition `id > 5` is
      false and `id < 5` is true, because "10" sorts before "5". */
  lemma ComparacionEsTextualEjemplo(idx: map<string, nat>, fila: seq<string>)
    requires idx == map["id" := 0, "nombre" := 1] && fila == ["10", "Bob"]
    ensures !EvaluarCondicional(Mayor("id", "5"), fila, idx)
    ensures EvaluarCondicional(Menor("id", "5"), fila, idx)
  {
    assert "5" !in idx;
    ComparacionEsTextual("id", "5", fila, idx);
    LexicograficoNoNumerico();
  }

  /** A quoted literal is compared without its quotes. */
  lemma ComparacionSinComillas(idx: map<string, nat>, fila: seq<string>)
    requires idx == map["id" := 0, "nombre" := 1] && fila == ["10", "Bob"]
    ensures EvaluarCondicional(Igual("nombre", "'Bob'"), fila, idx)
  {
    assert idx["nombre"] == 1;
    assert "'Bob'" !in idx by {
      assert |"'Bob'"| == 5;
    }
    LiteralCitado();
    assert Operando("nombre", fila, idx) == Some("Bob");
    assert Operando("'Bob'", fila, idx) == Some("Bob");
  }

  lemma LiteralCitado()
    ensures Literal("'Bob'") == Some("Bob")
  {
    var s := "'Bob'";
    assert s == "'" + "Bob" + "'";
    SinComillasEnvuelto("Bob");
    assert !EsNumero(s) by {
      assert s[0] == '\'';
    }
    assert EsCitado(s) && SinComillas(s) == "Bob";
  }

  /** For every row: two operands neither of which names a column are never
      compared, and an operand that is neither a column nor a literal (an
      unknown column name) makes the condition false. */
  lemma ComparacionSinColumna(c: Condicional, fila: seq<string>, idx: map<string, nat>)
    ensures c.miembro1 !in idx && c.miembro2 !in idx ==> !EvaluarCondicional(c, fila, idx)
    ensures c.miembro1 !in idx && Literal(c.miembro1).None? ==> !EvaluarCondicional(c, fila, idx)
    ensures c.miembro2 !in idx && Literal(c.miembro2).None? ==> !EvaluarCondicional(c, fila, idx)
  {
  }

  /** An example of the above: `edad = 5` with no column `edad`, and `5 = 5`. */
  lemma ComparacionSinColumnaEjemplo(idx: map<string, nat>, fila: seq<string>)
    requires idx == map["id" := 0, "nombre" := 1] && fila == ["10", "Bob"]
    ensures !EvaluarCondicional(Igual("edad", "5"), fila, idx)
    ensures !EvaluarCondicional(Igual("5", "5"), fila, idx)
  {
    assert "edad" !in idx && "5" !in idx;
    assert !EsNumero("edad") by { assert "edad"[0] == 'e'; }
    ComparacionSinColumna(Igual("edad", "5"), fila, idx);
    ComparacionSinColumna(Igual("5", "5"), fila, idx);
  }
}
