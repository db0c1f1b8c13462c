/** Pure string helpers standing in for the parts of Rust's `str` API the
    engine uses: `split`, `join`, `trim*`, `split_whitespace`,
    `to_uppercase` and the byte-wise ordering of `str`.  Strings are
    `seq<char>`; whitespace and case mapping are restricted to ASCII. */
module Cadenas {

  /** ASCII whitespace: space, tab, line feed, vertical tab, form feed,
      carriage return. */
  const Espacios: set<char> := {' ', '\t', '\n', '\U{0B}', '\U{0C}', '\r'}

  predicate EsEspacio(c: char) {
    c in Espacios
  }

  /** `to_uppercase`, restricted to the ASCII letters. */
  function Mayuscula(c: char): (r: char)
    ensures 'a' <= c <= 'z' ==> 'A' <= r <= 'Z'
    ensures !('a' <= c <= 'z') ==> r == c
  {
    if 'a' <= c <= 'z' then (c as int - 32) as char else c
  }

  function Mayusculas(s: string): (r: string)
    ensures |r| == |s|
    ensures forall i :: 0 <= i < |s| ==> r[i] == Mayuscula(s[i])
  {
    seq(|s|, i requires 0 <= i < |s| => Mayuscula(s[i]))
  }

  predicate EmpiezaCon(s: string, c: char) {
    |s| > 0 && s[0] == c
  }

  predicate TerminaCon(s: string, c: char) {
    |s| > 0 && s[|s| - 1] == c
  }

  /** `parts.join(sep)`. */
  function Join(parts: seq<string>, sep: string): string
    decreases |parts|
  {
    if |parts| == 0 then ""
    else if |parts| == 1 then parts[0]
    else parts[0] + sep + Join(parts[1..], sep)
  }

  /** Every piece trimmed. */
  function RecortarTodos(ps: seq<string>): (r: seq<string>)
    ensures |r| == |ps|
    ensures forall k :: 0 <= k < |ps| ==> r[k] == Trim(ps[k])
  {
    seq(|ps|, k requires 0 <= k < |ps| => Trim(ps[k]))
  }

  /** Each row comma-joined, one string per row. */
  function UnirFilas(filas: seq<seq<string>>): (r: seq<string>)
    ensures |r| == |filas|
    ensures forall k :: 0 <= k < |filas| ==> r[k] == Join(filas[k], ",")
  {
    seq(|filas|, k requires 0 <= k < |filas| => Join(filas[k], ","))
  }

  /** `s.split(c)`: the pieces between occurrences of `c`; never empty. */
  function Split(s: string, c: char): (r: seq<string>)
    ensures |r| >= 1
    decreases |s|
  {
    if |s| == 0 then [""]
    else
      var resto := Split(s[1..], c);
      if s[0] == c then [""] + resto
      else [[s[0]] + resto[0]] + resto[1..]
  }

  /** Concatenation of a sequence of strings with no separator. */
  function Concatenar(ts: seq<string>): string
    decreases |ts|
  {
    if |ts| == 0 then "" else ts[0] + Concatenar(ts[1..])
  }

  /** `trim_start_matches` with a set of characters. */
  function RecortarInicio(s: string, cs: set<char>): (r: string)
    ensures |r| <= |s| && r == s[|s| - |r|..]
    ensures |r| > 0 ==> r[0] !in cs
    ensures forall i :: 0 <= i < |s| - |r| ==> s[i] in cs
    decreases |s|
  {
    if |s| > 0 && s[0] in cs then RecortarInicio(s[1..], cs) else s
  }

  /** `trim_end_matches` with a set of characters. */
  function RecortarFin(s: string, cs: set<char>): (r: string)
    ensures |r| <= |s| && r == s[..|r|]
    ensures |r| > 0 ==> r[|r| - 1] !in cs
    ensures forall i :: |r| <= i < |s| ==> s[i] in cs
    decreases |s|
  {
    if |s| > 0 && s[|s| - 1] in cs then RecortarFin(s[..|s| - 1], cs) else s
  }

  /** `trim_matches` with a set of characters. */
  function RecortarAmbos(s: string, cs: set<char>): string {
    RecortarFin(RecortarInicio(s, cs), cs)
  }

  /** `str::trim`. */
  function Trim(s: string): string {
    RecortarAmbos(s, Espacios)
  }

  /** `trim_start_matches('\'').trim_end_matches('\'')`: a quoted text
      without its quotes. */
  function SinComillas(s: string): string {
    RecortarFin(RecortarInicio(s, {'\''}), {'\''})
  }

  /** `trim_start_matches` with a string pattern: strips repeated copies of `p`. */
  function RecortarPrefijo(s: string, p: string): (r: string)
    requires |p| > 0
    ensures |r| <= |s| && r == s[|s| - |r|..]
    ensures !(|p| <= |r| && r[..|p|] == p)
    decreases |s|
  {
    if |p| <= |s| && s[..|p|] == p then
      var r := RecortarPrefijo(s[|p|..], p);
      assert s[|p|..][|s| - |p| - |r|..] == s[|s| - |r|..];
      r
    else s
  }

  /** `trim_end_matches` with a string pattern: strips repeated copies of `p`. */
  function RecortarSufijo(s: string, p: string): (r: string)
    requires |p| > 0
    ensures |r| <= |s| && r == s[..|r|]
    ensures !(|p| <= |r| && r[|r| - |p|..] == p)
    decreases |s|
  {
    if |p| <= |s| && s[|s| - |p|..] == p then RecortarSufijo(s[..|s| - |p|], p) else s
  }

  /** The longest prefix of `s` free of whitespace. */
  function PrimeraPalabra(s: string): (w: string)
    ensures |w| <= |s| && w == s[..|w|]
    ensures forall i :: 0 <= i < |w| ==> !EsEspacio(w[i])
    ensures |w| < |s| ==> EsEspacio(s[|w|])
    decreases |s|
  {
    if |s| == 0 || EsEspacio(s[0]) then "" else [s[0]] + PrimeraPalabra(s[1..])
  }

  /** `split_whitespace`: the maximal whitespace-free runs of `s`, in order. */
  function Palabras(s: string): (ws: seq<string>)
    ensures forall k :: 0 <= k < |ws| ==> |ws[k]| > 0
    ensures forall k, i :: 0 <= k < |ws| && 0 <= i < |ws[k]| ==> !EsEspacio(ws[k][i])
    decreases |s|
  {
    if |s| == 0 then []
    else if EsEspacio(s[0]) then Palabras(s[1..])
    else
      var w := PrimeraPalabra(s);
      [w] + Palabras(s[|w|..])
  }

  /** A word as `split_whitespace` produces it: non-empty, no whitespace. */
  predicate EsPalabra(w: string) {
    |w| > 0 && forall i :: 0 <= i < |w| ==> !EsEspacio(w[i])
  }

  /** Lexicographic order on code points, which is the byte order Rust's
      `Ord for str` uses on UTF-8. */
  predicate LexMenor(a: string, b: string)
    decreases |a|
  {
    if |a| == 0 then |b| > 0
    else if |b| == 0 then false
    else if a[0] != b[0] then a[0] < b[0]
    else LexMenor(a[1..], b[1..])
  }

  // ---------------------------------------------------------------------
  // Lemmas

  lemma {:induction false} LexMenorIrreflexivo(a: string)
    ensures !LexMenor(a, a)
    decreases |a|
  {
    if |a| > 0 {
      LexMenorIrreflexivo(a[1..]);
    }
  }

  lemma {:induction false} LexMenorTransitivo(a: string, b: string, c: string)
    requires LexMenor(a, b) && LexMenor(b, c)
    ensures LexMenor(a, c)
    decreases |a|
  {
    if |a| > 0 && |b| > 0 && |c| > 0 && a[0] == b[0] && b[0] == c[0] {
      LexMenorTransitivo(a[1..], b[1..], c[1..]);
    }
  }

  lemma {:induction false} LexMenorTotal(a: string, b: string)
    ensures a == b || LexMenor(a, b) || LexMenor(b, a)
    decreases |a|
  {
    if |a| > 0 && |b| > 0 && a[0] == b[0] {
      LexMenorTotal(a[1..], b[1..]);
      if a[1..] == b[1..] {
        assert a == [a[0]] + a[1..] && b == [b[0]] + b[1..];
      }
    }
  }

  lemma {:induction false} LexMenorAsimetrico(a: string, b: string)
    requires LexMenor(a, b)
    ensures !LexMenor(b, a)
  {
    if LexMenor(b, a) {
      LexMenorTransitivo(a, b, a);
      LexMenorIrreflexivo(a);
    }
  }

  /** No piece of `Split(s, c)` contains the separator. */
  lemma {:induction false} SplitSinSeparador(s: string, c: char)
    ensures forall k :: 0 <= k < |Split(s, c)| ==> c !in Split(s, c)[k]
    decreases |s|
  {
    if |s| > 0 {
      SplitSinSeparador(s[1..], c);
    }
  }

  /** Every piece of a split is made of characters of the text. */
  lemma {:induction false} SplitCaracteres(s: string, c: char)
    ensures forall k, x :: 0 <= k < |Split(s, c)| && x in Split(s, c)[k] ==> x in s
    decreases |s|
  {
    if |s| > 0 {
      SplitCaracteres(s[1..], c);
      var resto := Split(s[1..], c);
      var r := Split(s, c);
      forall k, x | 0 <= k < |r| && x in r[k]
        ensures x in s
      {
        assert forall y :: y in s[1..] ==> y in s;
        if s[0] == c {
          assert r == [""] + resto;
          assert r[k] == resto[k - 1];
        } else if k == 0 {
          assert r[0] == [s[0]] + resto[0];
        } else {
          assert r[k] == resto[k];
        }
      }
    }
  }

  /** Splitting at a separator between two texts splits each of them. */
  lemma {:induction false} SplitUnion(a: string, b: string, c: char)
    ensures Split(a + [c] + b, c) == Split(a, c) + Split(b, c)
    decreases |a|
  {
    if |a| == 0 {
      assert a + [c] + b == [c] + b;
      assert ([c] + b)[1..] == b;
    } else {
      var s := a + [c] + b;
      assert s[0] == a[0] && s[1..] == a[1..] + [c] + b;
      SplitUnion(a[1..], b, c);
    }
  }

  /** One copy of `p` in front of a text that does not start with `p`
      comes off, and nothing more. */
  lemma RecortarPrefijoUnaVez(p: string, t: string)
    requires |p| > 0 && !(|p| <= |t| && t[..|p|] == p)
    ensures RecortarPrefijo(p + t, p) == t
  {
    var s := p + t;
    assert s[..|p|] == p && s[|p|..] == t;
  }

  /** One copy of `p` after a text that does not end with `p` comes off,
      and nothing more. */
  lemma RecortarSufijoUnaVez(t: string, p: string)
    requires |p| > 0 && !(|p| <= |t| && t[|t| - |p|..] == p)
    ensures RecortarSufijo(t + p, p) == t
  {
    var s := t + p;
    assert s[|s| - |p|..] == p && s[..|s| - |p|] == t;
  }

  /** Trimming a trimmed text changes nothing. */
  lemma TrimIdempotente(s: string)
    ensures Trim(Trim(s)) == Trim(s)
  {
    var u := RecortarInicio(s, Espacios);
    var t := RecortarFin(u, Espacios);
    assert |t| > 0 ==> t[0] == u[0];
    assert RecortarInicio(t, Espacios) == t;
  }

  /** Joining the pieces back with the separator rebuilds the string. */
  lemma {:induction false} JoinSplit(s: string, c: char)
    ensures Join(Split(s, c), [c]) == s
    decreases |s|
  {
    if |s| > 0 {
      var resto := Split(s[1..], c);
      JoinSplit(s[1..], c);
      if s[0] == c {
        assert Split(s, c) == [""] + resto;
      } else {
        var r := Split(s, c);
        assert r == [[s[0]] + resto[0]] + resto[1..];
        if |resto| == 1 {
          assert Join(r, [c]) == [s[0]] + resto[0];
        } else {
          assert r[1..] == resto[1..];
          assert Join(resto, [c]) == resto[0] + [c] + Join(resto[1..], [c]);
        }
        assert s == [s[0]] + s[1..];
      }
    }
  }

  lemma {:induction false} SplitSinOcurrencia(p: string, c: char)
    requires c !in p
    ensures Split(p, c) == [p]
    decreases |p|
  {
    if |p| > 0 {
      SplitSinOcurrencia(p[1..], c);
      assert [p[0]] + p[1..] == p;
    }
  }

  lemma {:induction false} SplitTrasPieza(p: string, c: char, t: string)
    requires c !in p
    ensures Split(p + [c] + t, c) == [p] + Split(t, c)
    decreases |p|
  {
    if |p| == 0 {
      assert p + [c] + t == [c] + t;
      assert ([c] + t)[1..] == t;
    } else {
      assert (p + [c] + t)[1..] == p[1..] + [c] + t;
      SplitTrasPieza(p[1..], c, t);
      assert [p[0]] + p[1..] == p;
    }
  }

  /** Splitting a join of separator-free pieces gives the pieces back. */
  lemma {:induction false} SplitJoin(ps: seq<string>, c: char)
    requires |ps| >= 1
    requires forall k :: 0 <= k < |ps| ==> c !in ps[k]
    ensures Split(Join(ps, [c]), c) == ps
    decreases |ps|
  {
    if |ps| == 1 {
      SplitSinOcurrencia(ps[0], c);
    } else {
      SplitJoin(ps[1..], c);
      SplitTrasPieza(ps[0], c, Join(ps[1..], [c]));
      assert [ps[0]] + ps[1..] == ps;
    }
  }

  lemma {:induction false} PrimeraPalabraDeUnion(w: string, t: string)
    requires forall i :: 0 <= i < |w| ==> !EsEspacio(w[i])
    requires |t| > 0 && EsEspacio(t[0])
    ensures PrimeraPalabra(w + t) == w
    decreases |w|
  {
    if |w| > 0 {
      assert (w + t)[1..] == w[1..] + t;
      PrimeraPalabraDeUnion(w[1..], t);
      assert [w[0]] + w[1..] == w;
    } else {
      assert w + t == t;
    }
  }

  lemma {:induction false} PrimeraPalabraEntera(w: string)
    requires forall i :: 0 <= i < |w| ==> !EsEspacio(w[i])
    ensures PrimeraPalabra(w) == w
    decreases |w|
  {
    if |w| > 0 {
      PrimeraPalabraEntera(w[1..]);
      assert [w[0]] + w[1..] == w;
    }
  }

  /** `split_whitespace` undoes a single-space join of words. */
  lemma {:induction false} PalabrasDeJoin(ws: seq<string>)
    requires forall k :: 0 <= k < |ws| ==> EsPalabra(ws[k])
    ensures Palabras(Join(ws, " ")) == ws
    decreases |ws|
  {
    if |ws| == 1 {
      PrimeraPalabraEntera(ws[0]);
      assert ws[0][|ws[0]|..] == "";
    } else if |ws| > 1 {
      var w := ws[0];
      var t := " " + Join(ws[1..], " ");
      assert Join(ws, " ") == w + t;
      PrimeraPalabraDeUnion(w, t);
      assert (w + t)[|w|..] == t;
      assert t[1..] == Join(ws[1..], " ");
      PalabrasDeJoin(ws[1..]);
      assert [ws[0]] + ws[1..] == ws;
    }
  }

  lemma {:induction false} ConcatenarUnion(a: seq<string>, b: seq<string>)
    ensures Concatenar(a + b) == Concatenar(a) + Concatenar(b)
    decreases |a|
  {
    if |a| > 0 {
      assert (a + b)[1..] == a[1..] + b;
      ConcatenarUnion(a[1..], b);
    } else {
      assert a + b == b;
    }
  }

  lemma {:induction false} JoinUnion(a: seq<string>, b: seq<string>, sep: string)
    requires |a| > 0 && |b| > 0
    ensures Join(a + b, sep) == Join(a, sep) + sep + Join(b, sep)
    decreases |a|
  {
    if |a| == 1 {
      assert (a + b)[1..] == b;
    } else {
      assert (a + b)[1..] == a[1..] + b;
      JoinUnion(a[1..], b, sep);
    }
  }

  /** Removing the quotes of `'v'` gives `v` back when `v` neither starts
      nor ends with a quote. */
  lemma SinComillasEnvuelto(v: string)
    requires |v| > 0 && v[0] != '\'' && v[|v| - 1] != '\''
    ensures SinComillas("'" + v + "'") == v
    ensures EmpiezaCon("'" + v + "'", '\'') && TerminaCon("'" + v + "'", '\'')
  {
    var s := "'" + v + "'";
    assert s[1..] == v + "'";
    assert RecortarInicio(v + "'", {'\''}) == v + "'";
    assert RecortarInicio(s, {'\''}) == v + "'";
    assert (v + "'")[..|v|] == v;
    assert RecortarFin(v, {'\''}) == v;
    assert s[0] == '\'';
  }
}
