/** Properties of the executor's helpers: the table path determines the
    table, the index map inverts the header, quoted words regroup as the
    value lists need, and the WHERE tokenizer loses nothing but unquoted
    whitespace. */
module EjecutorPropiedades {
  import opened Cadenas
  import opened Ejecutor

  // =====================================================================
  // Table path and column index

  /** Two tables of the same directory never share a file. */
  lemma CrearRutaInyectiva(ruta: string, a: string, b: string)
    requires CrearRuta(ruta, a) == CrearRuta(ruta, b)
    ensures a == b
  {
    var r := CrearRuta(ruta, a);
    assert a == r[|ruta| + 1..|r| - 4];
  }

  /** With distinct header names, the map sends each name back to its own
      position. */
  lemma IndicesDeDistintos(cols: seq<string>)
    requires forall i, j :: 0 <= i < j < |cols| ==> cols[i] != cols[j]
    ensures forall i :: 0 <= i < |cols| ==>
              (cols[i] in ObtenerIndicesColumnas(cols) && ObtenerIndicesColumnas(cols)[cols[i]] == i)
  {
    var m := ObtenerIndicesColumnas(cols);
    forall i | 0 <= i < |cols|
      ensures cols[i] in m && m[cols[i]] == i
    {
      assert cols[i] in m.Keys;
    }
  }

  // =====================================================================
  // Regrouping quoted words

  /** The walk over a concatenation is the walk over the second part from
      where the first part left off. */
  lemma {:induction false} RecorrerUnion(e: Agrupando, a: seq<string>, b: seq<string>)
    ensures RecorrerJuntar(e, a + b) == RecorrerJuntar(RecorrerJuntar(e, a), b)
    decreases |a|
  {
    if |a| > 0 {
      assert (a + b)[0] == a[0] && (a + b)[1..] == a[1..] + b;
      RecorrerUnion(PasoJuntar(e, a[0]), a[1..], b);
    } else {
      assert a + b == b;
    }
  }

  /** Outside a group, words without quote edges pass through unchanged. */
  lemma {:induction false} RecorrerSinComillas(e: Agrupando, ws: seq<string>)
    requires !e.centinela
    requires forall k :: 0 <= k < |ws| ==> SinBordeComilla(ws[k])
    ensures RecorrerJuntar(e, ws) == e.(nueva := e.nueva + ws)
    decreases |ws|
  {
    if |ws| > 0 {
      RecorrerSinComillas(PasoJuntar(e, ws[0]), ws[1..]);
      assert e.nueva + [ws[0]] + ws[1..] == e.nueva + ws;
    } else {
      assert e.nueva + ws == e.nueva;
    }
  }

  /** Inside a group, words without quote edges are stored with a leading
      space. */
  lemma {:induction false} RecorrerDentroGrupo(e: Agrupando, ws: seq<string>)
    requires e.centinela
    requires forall k :: 0 <= k < |ws| ==> SinBordeComilla(ws[k])
    ensures RecorrerJuntar(e, ws) == e.(aux := e.aux + ConEspacio(ws))
    decreases |ws|
  {
    if |ws| > 0 {
      RecorrerDentroGrupo(PasoJuntar(e, ws[0]), ws[1..]);
      assert e.aux + [" " + ws[0]] + ConEspacio(ws[1..]) == e.aux + ConEspacio(ws);
    } else {
      assert e.aux + ConEspacio(ws) == e.aux;
    }
  }

  /** A list with no quoted words is returned as it is. */
  lemma JuntarWordsSinComillas(ws: seq<string>)
    requires forall k :: 0 <= k < |ws| ==> SinBordeComilla(ws[k])
    ensures JuntarWords(ws) == ws
  {
    RecorrerSinComillas(Agrupando([], [], false), ws);
  }

  /** A fully quoted word comes out without its quotes, in place. */
  lemma JuntarWordsCitada(pre: seq<string>, w: string, post: seq<string>)
    requires forall k :: 0 <= k < |pre| ==> SinBordeComilla(pre[k])
    requires forall k :: 0 <= k < |post| ==> SinBordeComilla(post[k])
    requires EmpiezaCon(w, '\'') && TerminaCon(w, '\'')
    ensures JuntarWords(pre + [w] + post) == pre + [SinComillas(w)] + post
  {
    var e0 := Agrupando([], [], false);
    RecorrerUnion(e0, pre + [w], post);
    RecorrerUnion(e0, pre, [w]);
    RecorrerSinComillas(e0, pre);
    var e1 := Agrupando(pre + [SinComillas(w)], [], false);
    assert RecorrerJuntar(e0, pre + [w]) == e1;
    RecorrerSinComillas(e1, post);
  }

  /** Words from an opening-quote word through a closing-quote word become
      one element, quotes kept; the inner words carry an extra leading
      space, so they end up two spaces after their predecessor. */
  lemma JuntarWordsGrupo(pre: seq<string>, w1: string, mid: seq<string>, wn: string, post: seq<string>)
    requires forall k :: 0 <= k < |pre| ==> SinBordeComilla(pre[k])
    requires forall k :: 0 <= k < |mid| ==> SinBordeComilla(mid[k])
    requires forall k :: 0 <= k < |post| ==> SinBordeComilla(post[k])
    requires EmpiezaCon(w1, '\'') && !TerminaCon(w1, '\'')
    requires TerminaCon(wn, '\'') && !EmpiezaCon(wn, '\'')
    ensures JuntarWords(pre + [w1] + mid + [wn] + post)
            == pre + [Join([w1] + ConEspacio(mid) + [wn], " ")] + post
  {
    var e0 := Agrupando([], [], false);
    RecorrerUnion(e0, pre + [w1] + mid + [wn], post);
    RecorrerUnion(e0, pre + [w1] + mid, [wn]);
    RecorrerUnion(e0, pre + [w1], mid);
    RecorrerUnion(e0, pre, [w1]);
    RecorrerSinComillas(e0, pre);
    var e1 := Agrupando(pre, [w1], true);
    assert RecorrerJuntar(e0, pre + [w1]) == e1;
    RecorrerDentroGrupo(e1, mid);
    var e2 := Agrupando(pre, [w1] + ConEspacio(mid), true);
    assert RecorrerJuntar(e0, pre + [w1] + mid) == e2;
    var e3 := Agrupando(pre + [Join([w1] + ConEspacio(mid) + [wn], " ")], [], false);
    assert RecorrerJuntar(e0, pre + [w1] + mid + [wn]) == e3;
    RecorrerSinComillas(e3, post);
  }

  /** A group never closed is dropped, together with everything after it. */
  lemma GrupoAbiertoSePierde(pre: seq<string>, w1: string, mid: seq<string>)
    requires forall k :: 0 <= k < |pre| ==> SinBordeComilla(pre[k])
    requires forall k :: 0 <= k < |mid| ==> SinBordeComilla(mid[k])
    requires EmpiezaCon(w1, '\'') && !TerminaCon(w1, '\'')
    ensures JuntarWords(pre + [w1] + mid) == pre
  {
    var e0 := Agrupando([], [], false);
    RecorrerUnion(e0, pre + [w1], mid);
    RecorrerUnion(e0, pre, [w1]);
    RecorrerSinComillas(e0, pre);
    var e1 := Agrupando(pre, [w1], true);
    assert RecorrerJuntar(e0, pre + [w1]) == e1;
    RecorrerDentroGrupo(e1, mid);
  }

  // =====================================================================
  // Cleaning value lists

  /** A value as an INSERT writes it between its delimiters: no whitespace,
      comma, parenthesis, semicolon or quote. */
  predicate ValorLlano(w: string) {
    |w| > 0 && forall k :: 0 <= k < |w| ==> !EsEspacio(w[k]) && w[k] !in {'(', ')', ',', ';', '\''}
  }

  lemma RecortarFinUno(s: string, c: char, cs: set<char>)
    requires |s| > 0 && s[|s| - 1] !in cs && c in cs
    ensures RecortarFin(s + [c], cs) == s
  {
    assert (s + [c])[..|s|] == s;
  }

  lemma RecortarFinNada(s: string, cs: set<char>)
    requires |s| > 0 && s[|s| - 1] !in cs
    ensures RecortarFin(s, cs) == s
  {
  }

  lemma RecortarInicioUno(c: char, s: string, cs: set<char>)
    requires c in cs && |s| > 0 && s[0] !in cs
    ensures RecortarInicio([c] + s, cs) == s
  {
    assert ([c] + s)[1..] == s;
  }

  lemma RecortarInicioNada(s: string, cs: set<char>)
    requires |s| > 0 && s[0] !in cs
    ensures RecortarInicio(s, cs) == s
  {
  }

  lemma TrimSinBordes(s: string)
    requires |s| > 0 && !EsEspacio(s[0]) && !EsEspacio(s[|s| - 1])
    ensures Trim(s) == s
  {
  }

  predicate Abre(abre: string) {
    abre == "" || abre == "(" || abre == "'"
  }

  predicate Cierra(cierra: string) {
    cierra == "" || cierra == "," || cierra == ")" || cierra == "'" || cierra == "'," || cierra == ");"
  }

  lemma TrimDeValor(w: string, abre: string, cierra: string)
    requires ValorLlano(w) && Abre(abre) && Cierra(cierra)
    ensures Trim(abre + w + cierra) == abre + w + cierra
  {
    var s := abre + w + cierra;
    assert s[0] == if abre == "" then w[0] else abre[0];
    assert s[|s| - 1] == if cierra == "" then w[|w| - 1] else cierra[|cierra| - 1];
    TrimSinBordes(s);
  }

  lemma InicioTrasAbre(abre: string, x: string)
    requires Abre(abre) && |x| > 0 && x[0] != '(' && x[0] != '\''
    ensures RecortarInicio(RecortarInicio(abre + x, {'('}), {'\''}) == x
  {
    if abre == "(" {
      assert abre + x == ['('] + x;
      RecortarInicioUno('(', x, {'('});
      RecortarInicioNada(x, {'\''});
    } else if abre == "'" {
      assert abre + x == ['\''] + x;
      RecortarInicioNada(['\''] + x, {'('});
      RecortarInicioUno('\'', x, {'\''});
    } else {
      assert abre + x == x;
      RecortarInicioNada(x, {'('});
      RecortarInicioNada(x, {'\''});
    }
  }

  /** The leading trims of `limpiar_lista` strip one opening delimiter. */
  lemma InicioDeValor(w: string, abre: string, cierra: string)
    requires ValorLlano(w) && Abre(abre)
    ensures RecortarInicio(RecortarInicio(abre + w + cierra, {'('}), {'\''}) == w + cierra
  {
    var x := w + cierra;
    assert x[0] == w[0];
    assert abre + w + cierra == abre + x;
    InicioTrasAbre(abre, x);
  }

  /** The four trailing trims of `limpiar_lista`, in order. */
  function TrimsFinales(t: string): string {
    RecortarFin(RecortarFin(RecortarFin(RecortarFin(t, {';'}), {','}), {'\''}), {')'})
  }

  /** A plain value passes the trailing trims untouched. */
  lemma FinLlano(w: string)
    requires ValorLlano(w)
    ensures TrimsFinales(w) == w
  {
    RecortarFinNada(w, {';'});
    RecortarFinNada(w, {','});
    RecortarFinNada(w, {'\''});
    RecortarFinNada(w, {')'});
  }

  lemma FinComa(w: string)
    requires ValorLlano(w)
    ensures TrimsFinales(w + ",") == w
  {
    RecortarFinNada(w + ",", {';'});
    RecortarFinUno(w, ',', {','});
    FinLlano(w);
  }

  lemma FinParentesis(w: string)
    requires ValorLlano(w)
    ensures TrimsFinales(w + ")") == w
  {
    RecortarFinNada(w + ")", {';'});
    RecortarFinNada(w + ")", {','});
    RecortarFinNada(w + ")", {'\''});
    RecortarFinUno(w, ')', {')'});
    RecortarFinNada(w, {')'});
  }

  lemma FinComilla(w: string)
    requires ValorLlano(w)
    ensures TrimsFinales(w + "'") == w
  {
    RecortarFinNada(w + "'", {';'});
    RecortarFinNada(w + "'", {','});
    RecortarFinUno(w, '\'', {'\''});
    RecortarFinNada(w, {')'});
  }

  lemma FinComillaComa(w: string)
    requires ValorLlano(w)
    ensures TrimsFinales(w + "',") == w
  {
    var y := w + "'";
    assert w + "'," == y + [','];
    RecortarFinNada(y + [','], {';'});
    RecortarFinUno(y, ',', {','});
    RecortarFinUno(w, '\'', {'\''});
    RecortarFinNada(w, {')'});
  }

  lemma FinParentesisPuntoYComa(w: string)
    requires ValorLlano(w)
    ensures TrimsFinales(w + ");") == w
  {
    var y := w + ")";
    assert w + ");" == y + [';'];
    RecortarFinUno(y, ';', {';'});
    RecortarFinNada(y, {','});
    RecortarFinNada(y, {'\''});
    RecortarFinUno(w, ')', {')'});
  }

  /** The trailing trims of `limpiar_lista` strip one closing delimiter. */
  lemma FinDeValor(w: string, cierra: string)
    requires ValorLlano(w) && Cierra(cierra)
    ensures TrimsFinales(w + cierra) == w
  {
    if cierra == "" {
      assert w + cierra == w;
      FinLlano(w);
    } else if cierra == "," {
      FinComa(w);
    } else if cierra == ")" {
      FinParentesis(w);
    } else if cierra == "'" {
      FinComilla(w);
    } else if cierra == "'," {
      FinComillaComa(w);
    } else {
      FinParentesisPuntoYComa(w);
    }
  }

  /** The delimiters around one value are stripped by the whole-text trims. */
  lemma BordesDeValor(w: string, abre: string, cierra: string)
    requires ValorLlano(w) && Abre(abre) && Cierra(cierra)
    ensures LimpiarBordes(abre + w + cierra) == w
  {
    TrimDeValor(w, abre, cierra);
    InicioDeValor(w, abre, cierra);
    FinDeValor(w, cierra);
  }

  /** A single piece without commas is kept as it is, unless it closes a
      quote. */
  lemma PiezaUnica(y: string)
    requires |y| > 0 && ',' !in y && !EsEspacio(y[0]) && !EsEspacio(y[|y| - 1])
    requires !EmpiezaCon(y, '\'')
    ensures LimpiarPiezas(y) == [y]
  {
    SplitSinOcurrencia(y, ',');
    TrimSinBordes(y);
    assert RecortarTodos([y]) == [y];
    var e1 := PasoJuntar(Agrupando([], [], false), y);
    assert e1 == Agrupando([y], [], false) by {
      if TerminaCon(y, '\'') {
        assert Join([] + [y], " ") == y;
      }
    }
  }

  /** One delimited value cleans to itself, as in the insert test where
      `(111,`, `6,`, `'Laptop',` and `3)` give `111`, `6`, `Laptop`, `3`. */
  lemma LimpiarValor(w: string, abre: string, cierra: string)
    requires ValorLlano(w) && Abre(abre) && Cierra(cierra)
    ensures LimpiarLista(abre + w + cierra) == [w]
  {
    BordesDeValor(w, abre, cierra);
    ValorLlanoEsPieza(w);
    PiezaUnica(w);
  }

  lemma ValorLlanoEsPieza(w: string)
    requires ValorLlano(w)
    ensures |w| > 0 && ',' !in w && !EsEspacio(w[0]) && !EsEspacio(w[|w| - 1]) && !EmpiezaCon(w, '\'')
  {
    assert w[0] != '\'';
  }

  lemma DelimitadoresComillaParentesis(w: string)
    requires ValorLlano(w)
    ensures QuitarDelimitadores("('" + w + "')") == w + "'"
  {
    var y := w + "'";
    var x := y + [')'];
    assert "('" + w + "')" == ['('] + (['\''] + x);
    RecortarInicioUno('(', ['\''] + x, {'('});
    RecortarInicioUno('\'', x, {'\''});
    RecortarFinNada(x, {';'});
    RecortarFinNada(x, {','});
    RecortarFinNada(x, {'\''});
    RecortarFinUno(y, ')', {')'});
  }

  lemma TrimEnvuelto(a: string, w: string, b: string)
    requires |a| > 0 && |b| > 0 && !EsEspacio(a[0]) && !EsEspacio(b[|b| - 1])
    ensures Trim(a + w + b) == a + w + b
  {
    var s := a + w + b;
    assert s[0] == a[0] && s[|s| - 1] == b[|b| - 1];
    TrimSinBordes(s);
  }

  lemma PiezaComillaFinal(w: string)
    requires ValorLlano(w)
    ensures LimpiarPiezas(w + "'") == [w + "'"]
  {
    var y := w + "'";
    assert ',' !in y by {
      forall k | 0 <= k < |y| ensures y[k] != ',' {
        if k < |w| {
          assert y[k] == w[k];
        }
      }
    }
    assert y[0] == w[0] && y[|y| - 1] == '\'';
    PiezaUnica(y);
  }

  /** A quoted value that is also the last in its parentheses keeps its
      closing quote: the trailing quote is trimmed before the `)`. */
  lemma LimpiarComillaTrasParentesis(w: string)
    requires ValorLlano(w)
    ensures LimpiarLista("('" + w + "')") == [w + "'"]
  {
    TrimEnvuelto("('", w, "')");
    DelimitadoresComillaParentesis(w);
    PiezaComillaFinal(w);
  }

  // =====================================================================
  // Tokenizer: well-formed tokens

  predicate EsEspecial(c: char) {
    c == '(' || c == ')' || EsOperadorChar(c)
  }

  /** A run of ordinary characters: no whitespace, quote, parenthesis or
      comparison character. */
  predicate Simple(t: string) {
    forall k :: 0 <= k < |t| ==> !EsEspacio(t[k]) && !EsEspecial(t[k]) && t[k] != '\''
  }

  /** The tokens the scan emits on its own: a parenthesis or a comparison
      symbol, where a comparison character absorbs one following `=`. */
  predicate EsSimbolo(t: string) {
    t == "(" || t == ")" || t == ">" || t == "<" || t == "=" || t == ">=" || t == "<=" || t == "=="
  }

  /** A token as the scan emits it: non-empty, and unless it holds a quote it
      is a symbol or a run of ordinary characters. */
  predicate BuenToken(t: string) {
    |t| > 0 && ('\'' in t || EsSimbolo(t) || Simple(t))
  }

  predicate EstadoBueno(e: Escaneo) {
    && (forall k :: 0 <= k < |e.resultado| ==> BuenToken(e.resultado[k]))
    && ('\'' in e.token || Simple(e.token))
    && (e.enComillas ==> '\'' in e.token)
  }

  lemma VaciarBueno(e: Escaneo)
    requires EstadoBueno(e)
    ensures forall k :: 0 <= k < |Vaciar(e).resultado| ==> BuenToken(Vaciar(e).resultado[k])
    ensures !e.enComillas ==> EstadoBueno(Vaciar(e))
  {
  }

  /** One scan step keeps every emitted and pending token well formed. */
  lemma PasoBueno(q: string, i: nat, e: Escaneo)
    requires i < |q| && EstadoBueno(e)
    ensures EstadoBueno(Paso(q, i, e).1)
  {
    var c := q[i];
    if c == '\'' {
      assert (e.token + [c])[|e.token|] == '\'';
    } else if e.enComillas {
      var k :| 0 <= k < |e.token| && e.token[k] == '\'';
      assert (e.token + [c])[k] == '\'';
    } else if EsEspacio(c) || c == '(' || c == ')' || EsOperadorChar(c) {
      VaciarBueno(e);
    } else if '\'' in e.token {
      var k :| 0 <= k < |e.token| && e.token[k] == '\'';
      assert (e.token + [c])[k] == '\'';
    } else {
      assert Simple(e.token + [c]);
    }
  }

  lemma {:induction false} EscanearBienFormado(q: string, i: nat, e: Escaneo)
    requires i <= |q| && EstadoBueno(e)
    ensures forall k :: 0 <= k < |Escanear(q, i, e)| ==> BuenToken(Escanear(q, i, e)[k])
    decreases |q| - i
  {
    if i == |q| {
      VaciarBueno(e);
    } else {
      var (j, e2) := Paso(q, i, e);
      PasoBueno(q, i, e);
      EscanearBienFormado(q, j, e2);
    }
  }

  /** Every token the tokenizer emits is non-empty; a token without a quote
      is a parenthesis, a comparison symbol, or a run of characters free of
      whitespace, parentheses and comparison characters. */
  lemma TokensBienFormados(q: string)
    ensures forall k :: 0 <= k < |Escanear(q, 0, Inicial)| ==> BuenToken(Escanear(q, 0, Inicial)[k])
  {
    EscanearBienFormado(q, 0, Inicial);
  }

  // =====================================================================
  // Tokenizer: nothing but unquoted whitespace is lost

  /** The characters of a text the tokenizer keeps: everything except
      whitespace outside single quotes. */
  function Conservados(s: string, enComillas: bool): string
    decreases |s|
  {
    if |s| == 0 then ""
    else if s[0] == '\'' then [s[0]] + Conservados(s[1..], !enComillas)
    else if enComillas || !EsEspacio(s[0]) then [s[0]] + Conservados(s[1..], enComillas)
    else Conservados(s[1..], enComillas)
  }

  lemma ConcatenarUno(a: seq<string>, t: string)
    ensures Concatenar(a + [t]) == Concatenar(a) + t
  {
    ConcatenarUnion(a, [t]);
    assert Concatenar([t]) == t + Concatenar([]);
  }

  lemma VaciarConserva(e: Escaneo)
    ensures Concatenar(Vaciar(e).resultado) + Vaciar(e).token == Concatenar(e.resultado) + e.token
  {
    if |e.token| > 0 {
      ConcatenarUno(e.resultado, e.token);
    }
  }

  /** What has been emitted, what is pending and what the rest of the text
      will contribute. */
  function Acumulado(q: string, i: nat, e: Escaneo): string
    requires i <= |q|
  {
    Concatenar(e.resultado) + e.token + Conservados(q[i..], e.enComillas)
  }

  /** A step that appends the current character to the pending token. */
  lemma AnadirConserva(q: string, i: nat, e: Escaneo, enComillas: bool)
    requires i < |q|
    requires Conservados(q[i..], e.enComillas) == [q[i]] + Conservados(q[i + 1..], enComillas)
    ensures Acumulado(q, i + 1, e.(token := e.token + [q[i]], enComillas := enComillas)) == Acumulado(q, i, e)
  {
  }

  /** A step that emits the pending token and then `t`, the text's next
      `|t|` characters. */
  lemma EmitirConserva(q: string, i: nat, e: Escaneo, t: string)
    requires !e.enComillas && i + |t| <= |q|
    requires Conservados(q[i..], false) == t + Conservados(q[i + |t|..], false)
    ensures Acumulado(q, i + |t|, Vaciar(e).(resultado := Vaciar(e).resultado + [t])) == Acumulado(q, i, e)
  {
    VaciarConserva(e);
    ConcatenarUno(Vaciar(e).resultado, t);
  }

  /** One scan step moves characters from the text into the tokens without
      losing any that `Conservados` keeps. */
  lemma PasoConserva(q: string, i: nat, e: Escaneo)
    requires i < |q|
    ensures Acumulado(q, Paso(q, i, e).0, Paso(q, i, e).1) == Acumulado(q, i, e)
  {
    var c := q[i];
    ConservadosPaso(q, i, e.enComillas);
    if c == '\'' || e.enComillas {
      PasoAnade(q, i, e);
    } else if EsEspacio(c) {
      assert Paso(q, i, e) == (i + 1, Vaciar(e));
      VaciarConserva(e);
    } else if c == '(' || c == ')' || EsOperadorChar(c) {
      PasoSimbolo(q, i, e);
    } else {
      PasoAnade(q, i, e);
    }
  }

  /** One step of `Conservados` at position `i`. */
  lemma ConservadosPaso(q: string, i: nat, enComillas: bool)
    requires i < |q|
    ensures Conservados(q[i..], enComillas)
            == if q[i] == '\'' then [q[i]] + Conservados(q[i + 1..], !enComillas)
               else if enComillas || !EsEspacio(q[i]) then [q[i]] + Conservados(q[i + 1..], enComillas)
               else Conservados(q[i + 1..], enComillas)
  {
    assert q[i..][0] == q[i] && q[i..][1..] == q[i + 1..];
  }

  /** The steps that move the character into the pending token. */
  lemma PasoAnade(q: string, i: nat, e: Escaneo)
    requires i < |q|
    requires q[i] == '\'' || e.enComillas
             || (!EsEspacio(q[i]) && q[i] != '(' && q[i] != ')' && !EsOperadorChar(q[i]))
    ensures Acumulado(q, Paso(q, i, e).0, Paso(q, i, e).1) == Acumulado(q, i, e)
  {
    ConservadosPaso(q, i, e.enComillas);
    var nuevo := if q[i] == '\'' then !e.enComillas else e.enComillas;
    assert Paso(q, i, e) == (i + 1, e.(token := e.token + [q[i]], enComillas := nuevo));
    AnadirConserva(q, i, e, nuevo);
  }

  /** The steps that emit a parenthesis or a comparison symbol. */
  lemma PasoSimbolo(q: string, i: nat, e: Escaneo)
    requires i < |q| && !e.enComillas
    requires q[i] == '(' || q[i] == ')' || EsOperadorChar(q[i])
    ensures Acumulado(q, Paso(q, i, e).0, Paso(q, i, e).1) == Acumulado(q, i, e)
  {
    if EsOperadorChar(q[i]) && i + 1 < |q| && q[i + 1] == '=' {
      PasoDoble(q, i, e);
    } else {
      PasoSimple(q, i, e);
    }
  }

  lemma PasoSimple(q: string, i: nat, e: Escaneo)
    requires i < |q| && !e.enComillas
    requires q[i] == '(' || q[i] == ')' || EsOperadorChar(q[i])
    requires !(EsOperadorChar(q[i]) && i + 1 < |q| && q[i + 1] == '=')
    ensures Acumulado(q, Paso(q, i, e).0, Paso(q, i, e).1) == Acumulado(q, i, e)
  {
    var v := Vaciar(e);
    assert Paso(q, i, e) == (i + 1, v.(resultado := v.resultado + [[q[i]]]));
    assert Conservados(q[i..], false) == [q[i]] + Conservados(q[i + 1..], false) by {
      ConservadosPaso(q, i, false);
    }
    EmitirConserva(q, i, e, [q[i]]);
  }

  /** A comparison character that absorbs the `=` after it. */
  lemma PasoDoble(q: string, i: nat, e: Escaneo)
    requires i + 1 < |q| && !e.enComillas
    requires EsOperadorChar(q[i]) && q[i + 1] == '='
    ensures Acumulado(q, Paso(q, i, e).0, Paso(q, i, e).1) == Acumulado(q, i, e)
  {
    var t := [q[i], '='];
    var v := Vaciar(e);
    assert Paso(q, i, e) == (i + 2, v.(resultado := v.resultado + [t]));
    var resto := Conservados(q[i + 2..], false);
    assert Conservados(q[i..], false) == t + resto by {
      ConservadosPaso(q, i, false);
      ConservadosPaso(q, i + 1, false);
      assert [q[i]] + (['='] + resto) == t + resto;
    }
    EmitirConserva(q, i, e, t);
  }

  lemma {:induction false} EscanearConserva(q: string, i: nat, e: Escaneo)
    requires i <= |q|
    ensures Concatenar(Escanear(q, i, e)) == Acumulado(q, i, e)
    decreases |q| - i
  {
    if i == |q| {
      VaciarConserva(e);
    } else {
      var (j, e2) := Paso(q, i, e);
      PasoConserva(q, i, e);
      EscanearConserva(q, j, e2);
    }
  }

  /** Concatenating the tokens gives back the clause without its unquoted
      whitespace: characters between quotes, quotes included, all survive. */
  lemma TokensConservan(q: string)
    ensures Concatenar(Escanear(q, 0, Inicial)) == Conservados(q, false)
  {
    EscanearConserva(q, 0, Inicial);
    assert q[0..] == q;
  }

  /** Partner of `Conservados`: a text without whitespace is kept whole. */
  lemma {:induction false} ConservadosSinEspacios(s: string, enComillas: bool)
    requires forall k :: 0 <= k < |s| ==> !EsEspacio(s[k])
    ensures Conservados(s, enComillas) == s
    decreases |s|
  {
    if |s| > 0 {
      ConservadosSinEspacios(s[1..], if s[0] == '\'' then !enComillas else enComillas);
      assert [s[0]] + s[1..] == s;
    }
  }

  /** Between quotes nothing is dropped, whitespace included. */
  lemma {:induction false} ConservadosEntreComillas(s: string)
    requires forall k :: 0 <= k < |s| ==> s[k] != '\''
    ensures Conservados(s, true) == s
    decreases |s|
  {
    if |s| > 0 {
      ConservadosEntreComillas(s[1..]);
      assert [s[0]] + s[1..] == s;
    }
  }

  // =====================================================================
  // Tokenizer: how a condition is cut

  /** A run of ordinary characters is appended to the pending token. */
  lemma {:induction false} PalabraAcumula(q: string, i: nat, w: string, e: Escaneo)
    requires i + |w| <= |q| && q[i..i + |w|] == w && Simple(w) && !e.enComillas
    ensures Escanear(q, i, e) == Escanear(q, i + |w|, e.(token := e.token + w))
    decreases |w|
  {
    if |w| == 0 {
      assert e.(token := e.token + w) == e;
    } else {
      assert q[i] == w[0];
      assert q[i + 1..i + 1 + |w[1..]|] == w[1..];
      PalabraAcumula(q, i + 1, w[1..], e.(token := e.token + [w[0]]));
      assert e.token + [w[0]] + w[1..] == e.token + w;
    }
  }

  /** A comparison symbol is emitted at once, after the pending token. */
  lemma OperadorPaso(q: string, i: nat, e: Escaneo, op: string)
    requires i + |op| <= |q| && q[i..i + |op|] == op && EsOperador(op) && !e.enComillas
    requires |op| == 1 ==> i + 1 == |q| || q[i + 1] != '='
    ensures Escanear(q, i, e) == Escanear(q, i + |op|, Vaciar(e).(resultado := Vaciar(e).resultado + [op]))
  {
    assert q[i] == op[0];
    if |op| == 2 {
      assert q[i + 1] == op[1] == '=';
      assert [op[0], '='] == op;
    } else {
      assert [op[0]] == op;
    }
  }

  /** A leading run of ordinary characters becomes the pending token. */
  lemma PalabraInicial(q: string, a: string)
    requires Simple(a) && |a| <= |q| && q[..|a|] == a
    ensures Escanear(q, 0, Inicial) == Escanear(q, |a|, Escaneo([], a, false))
  {
    assert q[0..|a|] == a;
    PalabraAcumula(q, 0, a, Inicial);
    assert Inicial.(token := Inicial.token + a) == Escaneo([], a, false);
  }

  /** Whitespace outside quotes emits the pending token. */
  lemma EspacioPaso(q: string, i: nat, r: seq<string>, t: string)
    requires i < |q| && q[i] == ' ' && |t| > 0
    ensures Escanear(q, i, Escaneo(r, t, false)) == Escanear(q, i + 1, Escaneo(r + [t], "", false))
  {
    assert Vaciar(Escaneo(r, t, false)) == Escaneo(r + [t], "", false);
  }

  lemma SimboloPegado(q: string, a: string, op: string, k: nat)
    requires EsOperador(op) && k == |a| + |op| && k <= |q| && q[|a|..k] == op
    requires |a| > 0 && Simple(a) && q[..|a|] == a
    requires |op| == 1 ==> k == |q| || q[k] != '='
    ensures Escanear(q, 0, Inicial) == Escanear(q, k, Escaneo([a, op], "", false))
  {
    var ea := Escaneo([], a, false);
    PalabraInicial(q, a);
    assert Escanear(q, |a|, ea) == Escanear(q, k, Escaneo([a, op], "", false)) by {
      OperadorPaso(q, |a|, ea, op);
      assert Vaciar(ea).(resultado := Vaciar(ea).resultado + [op]) == Escaneo([a, op], "", false);
    }
  }

  lemma SimboloTrasEspacio(q: string, a: string, op: string, k: nat)
    requires EsOperador(op) && k == |a| + 1 + |op| && k <= |q| && q[|a| + 1..k] == op
    requires |a| > 0 && Simple(a) && q[..|a|] == a
    requires q[|a|] == ' '
    requires |op| == 1 ==> k == |q| || q[k] != '='
    ensures Escanear(q, 0, Inicial) == Escanear(q, k, Escaneo([a, op], "", false))
  {
    PalabraInicial(q, a);
    EspacioYSimbolo(q, a, op, k);
  }

  lemma EspacioYSimbolo(q: string, a: string, op: string, k: nat)
    requires EsOperador(op) && k == |a| + 1 + |op| && k <= |q| && q[|a| + 1..k] == op
    requires |a| > 0 && q[|a|] == ' '
    requires |op| == 1 ==> k == |q| || q[k] != '='
    ensures Escanear(q, |a|, Escaneo([], a, false)) == Escanear(q, k, Escaneo([a, op], "", false))
  {
    var e1 := Escaneo([a], "", false);
    var e2 := Escaneo([a, op], "", false);
    assert Escanear(q, |a|, Escaneo([], a, false)) == Escanear(q, |a| + 1, e1) by {
      EspacioPaso(q, |a|, [], a);
      assert [] + [a] == [a];
    }
    assert Escanear(q, |a| + 1, e1) == Escanear(q, k, e2) by {
      OperadorPaso(q, |a| + 1, e1, op);
      assert Vaciar(e1).(resultado := Vaciar(e1).resultado + [op]) == e2;
    }
  }

  lemma EspacioVacio(q: string, i: nat, r: seq<string>)
    requires i < |q| && q[i] == ' '
    ensures Escanear(q, i, Escaneo(r, "", false)) == Escanear(q, i + 1, Escaneo(r, "", false))
  {
  }

  /** An optional single space outside quotes, with nothing pending, is
      skipped. */
  lemma EspacioOpcional(q: string, k: nat, s2: string, r: seq<string>)
    requires s2 == "" || (s2 == " " && k < |q| && q[k] == ' ')
    requires k + |s2| <= |q|
    ensures Escanear(q, k, Escaneo(r, "", false)) == Escanear(q, k + |s2|, Escaneo(r, "", false))
  {
    if s2 == " " {
      EspacioVacio(q, k, r);
    }
  }

  /** A trailing run of ordinary characters is the last token. */
  lemma PalabraFinal(q: string, j: nat, r: seq<string>, b: string)
    requires j <= |q| && q[j..] == b && |b| > 0 && Simple(b)
    ensures Escanear(q, j, Escaneo(r, "", false)) == r + [b]
  {
    assert q[j..j + |b|] == b;
    PalabraAcumula(q, j, b, Escaneo(r, "", false));
    assert Escaneo(r, "", false).(token := "" + b) == Escaneo(r, b, false);
  }

  /** Where the five pieces of `a s1 op s2 b` sit in their concatenation. */
  lemma Tramos<T>(a: seq<T>, s1: seq<T>, op: seq<T>, s2: seq<T>, b: seq<T>)
    requires |b| > 0
    ensures var q := a + s1 + op + s2 + b;
            var k := |a| + |s1| + |op|;
            && q[..|a|] == a
            && q[|a| + |s1|..k] == op
            && q[k + |s2|..] == b
            && (|s1| > 0 ==> q[|a|] == s1[0])
            && q[k] == (if |s2| > 0 then s2[0] else b[0])
  {
  }

  /** The left operand and the symbol of a condition are emitted before the
      right-hand side at `m` is read, given where the pieces of `q` sit. */
  lemma Cabeza(q: string, a: string, s1: string, op: string, s2: string, m: nat)
    requires |a| > 0 && Simple(a) && EsOperador(op)
    requires (s1 == "" || s1 == " ") && (s2 == "" || s2 == " ")
    requires m == |a| + |s1| + |op| + |s2| && m < |q| && q[m] != '='
    requires q[..|a|] == a && q[|a| + |s1|..|a| + |s1| + |op|] == op
    requires s1 == " " ==> q[|a|] == ' '
    requires s2 == " " ==> q[|a| + |s1| + |op|] == ' '
    ensures Escanear(q, 0, Inicial) == Escanear(q, m, Escaneo([a, op], "", false))
  {
    var k := |a| + |s1| + |op|;
    if s1 == " " {
      SimboloTrasEspacio(q, a, op, k);
    } else {
      SimboloPegado(q, a, op, k);
    }
    EspacioOpcional(q, k, s2, [a, op]);
  }

  /** `a op b`, with or without a space on either side of the symbol, is cut
      into the three tokens `a`, `op`, `b`; e.g. `id>=5` gives `id`, `>=`,
      `5`. */
  lemma CondicionCortada(a: string, s1: string, op: string, s2: string, b: string)
    requires |a| > 0 && |b| > 0 && Simple(a) && Simple(b) && EsOperador(op)
    requires (s1 == "" || s1 == " ") && (s2 == "" || s2 == " ")
    ensures Escanear(a + s1 + op + s2 + b, 0, Inicial) == [a, op, b]
  {
    var q := a + s1 + op + s2 + b;
    var m := |a| + |s1| + |op| + |s2|;
    Tramos(a, s1, op, s2, b);
    assert !EsEspecial(b[0]);
    Cabeza(q, a, s1, op, s2, m);
    PalabraFinal(q, m, [a, op], b);
  }

  /** Inside quotes every character that is not a quote, whitespace,
      parentheses and comparison characters included, is appended to the
      pending token. */
  lemma {:induction false} CitaAcumula(q: string, i: nat, c: string, e: Escaneo)
    requires i + |c| <= |q| && q[i..i + |c|] == c && '\'' !in c && e.enComillas
    ensures Escanear(q, i, e) == Escanear(q, i + |c|, e.(token := e.token + c))
    decreases |c|
  {
    if |c| == 0 {
      assert e.(token := e.token + c) == e;
    } else {
      assert q[i] == c[0];
      assert q[i + 1..i + 1 + |c[1..]|] == c[1..];
      CitaAcumula(q, i + 1, c[1..], e.(token := e.token + [c[0]]));
      assert e.token + [c[0]] + c[1..] == e.token + c;
    }
  }

  /** A trailing quoted literal is the last token, quotes included. */
  lemma CitaFinal(q: string, j: nat, r: seq<string>, c: string)
    requires j <= |q| && q[j..] == "'" + c + "'" && '\'' !in c
    ensures Escanear(q, j, Escaneo(r, "", false)) == r + ["'" + c + "'"]
  {
    var abierta := Escaneo(r, "'", true);
    assert q[j] == '\'';
    assert Paso(q, j, Escaneo(r, "", false)) == (j + 1, abierta) by {
      assert "" + ['\''] == "'";
    }
    assert q[j..][1..1 + |c|] == c;
    assert q[j + 1..j + 1 + |c|] == q[j..][1..1 + |c|];
    CitaAcumula(q, j + 1, c, abierta);
    var k := j + 1 + |c|;
    assert q[k] == '\'' && k + 1 == |q|;
    var cerrada := Escaneo(r, "'" + c + "'", false);
    assert Paso(q, k, abierta.(token := "'" + c)) == (k + 1, cerrada);
    assert Escanear(q, k + 1, cerrada) == r + ["'" + c + "'"];
  }

  /** `a op 'c'`: the quoted right-hand side is one token with its quotes,
      whatever spaces, parentheses or comparison characters it holds; e.g.
      `apellido = 'López'` gives `apellido`, `=`, `'López'`. */
  lemma CondicionCitada(a: string, s1: string, op: string, s2: string, c: string)
    requires |a| > 0 && Simple(a) && EsOperador(op) && '\'' !in c
    requires (s1 == "" || s1 == " ") && (s2 == "" || s2 == " ")
    ensures Escanear(a + s1 + op + s2 + "'" + c + "'", 0, Inicial) == [a, op, "'" + c + "'"]
  {
    var b := "'" + c + "'";
    var q := a + s1 + op + s2 + b;
    var m := |a| + |s1| + |op| + |s2|;
    assert q == a + s1 + op + s2 + "'" + c + "'";
    Tramos(a, s1, op, s2, b);
    Cabeza(q, a, s1, op, s2, m);
    CitaFinal(q, m, [a, op], c);
  }

  // =====================================================================
  // Merging condition triples

  /** Merging triples never changes the clause's space-joined text. */
  lemma {:induction false} AgruparConservaTexto(ts: seq<string>)
    ensures Join(AgruparCondicionales(ts), " ") == Join(ts, " ")
    decreases |ts|
  {
    if |ts| > 0 {
      var r := AgruparCondicionales(ts);
      if 2 < |ts| && EsOperador(ts[1]) {
        var resto := AgruparCondicionales(ts[3..]);
        AgruparConservaTexto(ts[3..]);
        assert ts[1..][1..] == ts[2..] && ts[2..][1..] == ts[3..];
        assert Join(ts, " ") == ts[0] + " " + ts[1] + " " + Join(ts[2..], " ");
        if |ts| > 3 {
          assert Join(ts[2..], " ") == ts[2] + " " + Join(ts[3..], " ");
          assert r[1..] == resto;
        }
      } else {
        AgruparConservaTexto(ts[1..]);
        if |ts| > 1 {
          assert r[1..] == AgruparCondicionales(ts[1..]);
        }
      }
    }
  }

  /** Without comparison symbols, the tokens pass through unchanged. */
  lemma {:induction false} AgruparSinOperadores(ts: seq<string>)
    requires forall k :: 0 <= k < |ts| ==> !EsOperador(ts[k])
    ensures AgruparCondicionales(ts) == ts
    decreases |ts|
  {
    if |ts| > 0 {
      AgruparSinOperadores(ts[1..]);
      assert [ts[0]] + ts[1..] == ts;
    }
  }

  /** The whole tokenizer on one condition: a single token `"a op b"`. */
  lemma AdaptarWhereCondicion(a: string, s1: string, op: string, s2: string, b: string)
    requires |a| > 0 && |b| > 0 && Simple(a) && Simple(b) && EsOperador(op)
    requires (s1 == "" || s1 == " ") && (s2 == "" || s2 == " ")
    ensures AdaptarWhere(a + s1 + op + s2 + b) == [a + " " + op + " " + b]
  {
    CondicionCortada(a, s1, op, s2, b);
    var ts := [a, op, b];
    assert ts[3..] == [];
  }

  /** The same with a quoted right-hand side: `email = 'a b@c'` becomes the
      single token `email = 'a b@c'`, quotes kept. */
  lemma AdaptarWhereCitada(a: string, s1: string, op: string, s2: string, c: string)
    requires |a| > 0 && Simple(a) && EsOperador(op) && '\'' !in c
    requires (s1 == "" || s1 == " ") && (s2 == "" || s2 == " ")
    ensures AdaptarWhere(a + s1 + op + s2 + "'" + c + "'") == [a + " " + op + " " + "'" + c + "'"]
  {
    var b := "'" + c + "'";
    CondicionCitada(a, s1, op, s2, c);
    var ts := [a, op, b];
    assert ts[3..] == [];
    assert AgruparCondicionales(ts) == [a + " " + op + " " + b];
    assert a + " " + op + " " + b == a + " " + op + " " + "'" + c + "'";
  }
}
