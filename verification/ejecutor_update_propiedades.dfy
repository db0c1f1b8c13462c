/** Properties of the UPDATE executor: the SET clause round trip, the
    value trims, "the last assignment wins", the field count of a rewritten
    row, and what the file rewrite keeps. */
module EjecutorUpdatePropiedades {
  import opened Resultados
  import opened Cadenas
  import opened Expresiones
  import opened Analizador
  import Ejecutor
  import Comandos
  import opened EjecutorUpdate

  // =====================================================================
  // The SET clause, both ways

  /** An assignment written back as SET clause text. */
  function Texto(a: Asignacion): string {
    a.columna + "=" + a.valor
  }

  /** Assignments written back as a whole SET clause. */
  function TextoSet(asigs: seq<Asignacion>): string {
    Join(seq(|asigs|, k requires 0 <= k < |asigs| => Texto(asigs[k])), ",")
  }

  /** An assignment whose text has no separator of the clause in it. */
  predicate Escribible(a: Asignacion) {
    ',' !in a.columna && '=' !in a.columna && ',' !in a.valor && '=' !in a.valor
  }

  /** Each parsed assignment gives back its item, and neither side holds `=`. */
  lemma ClausulaReconstruye(items: seq<string>)
    ensures var r := ObtenerClausula(items);
            r.Ok? ==> forall k :: 0 <= k < |items| ==>
                        Texto(r.value[k]) == items[k] && '=' !in r.value[k].columna && '=' !in r.value[k].valor
  {
    var r := ObtenerClausula(items);
    if r.Ok? {
      forall k | 0 <= k < |items|
        ensures Texto(r.value[k]) == items[k] && '=' !in r.value[k].columna && '=' !in r.value[k].valor
      {
        var ps := Split(items[k], '=');
        JoinSplit(items[k], '=');
        SplitSinSeparador(items[k], '=');
        assert ps[1..] == [ps[1]];
        assert Join(ps, "=") == ps[0] + "=" + ps[1];
      }
    }
  }

  /** Every accepted SET clause is made of assignments free of `,` and `=`,
      and writing them back gives the clause text. */
  lemma TextoDeClausula(c: string)
    ensures var r := ClausulaSetLimpia(c);
            r.Ok? ==> (forall k :: 0 <= k < |r.value| ==> Escribible(r.value[k])) && TextoSet(r.value) == c
  {
    var items := Split(c, ',');
    var r := ClausulaSetLimpia(c);
    if r.Ok? {
      SplitSinSeparador(c, ',');
      ClausulaReconstruye(items);
      forall k | 0 <= k < |r.value|
        ensures Escribible(r.value[k])
      {
        SplitCaracteres(items[k], '=');
        assert r.value[k] == Asignacion(Split(items[k], '=')[0], Split(items[k], '=')[1]);
      }
      var ts := seq(|r.value|, k requires 0 <= k < |r.value| => Texto(r.value[k]));
      assert ts == items;
      JoinSplit(c, ',');
    }
  }

  /** Writing non-empty assignments as text and parsing the text gives them
      back. */
  lemma ClausulaDeTexto(asigs: seq<Asignacion>)
    requires |asigs| > 0
    requires forall k :: 0 <= k < |asigs| ==> Escribible(asigs[k])
    ensures ClausulaSetLimpia(TextoSet(asigs)) == Ok(asigs)
  {
    var ts := seq(|asigs|, k requires 0 <= k < |asigs| => Texto(asigs[k]));
    forall k | 0 <= k < |ts|
      ensures ',' !in ts[k] && Split(ts[k], '=') == [asigs[k].columna, asigs[k].valor]
    {
      var a := asigs[k];
      SplitTrasPieza(a.columna, '=', a.valor);
      SplitSinOcurrencia(a.valor, '=');
    }
    SplitJoin(ts, ',');
    var r := ObtenerClausula(ts);
    assert r.Ok?;
    assert r.value == asigs;
  }

  // =====================================================================
  // The value trims

  /** A value that neither begins nor ends with a space or a quote. */
  predicate BordeLimpio(w: string) {
    |w| > 0 && w[0] != ' ' && w[0] != '\'' && w[|w| - 1] != ' ' && w[|w| - 1] != '\''
  }

  /** The right side of `col = 'w'` is ` 'w'`, and the new value is `w`. */
  lemma NuevoValorCitado(w: string)
    requires BordeLimpio(w)
    ensures NuevoValor(" '" + w + "'") == w
  {
    var t := w + "'";
    PrefijoCitado(w);
    InicioSinCambio(t, {'\''});
    InicioSinCambio(t, {' '});
    SufijoCitado(w);
    FinComilla(w);
  }

  lemma PrefijoCitado(w: string)
    requires BordeLimpio(w)
    ensures RecortarPrefijo(" '" + w + "'", " '") == w + "'"
  {
    var s := " '" + w + "'";
    var t := w + "'";
    assert s[..2] == " '" && s[2..] == t;
    assert t[0] == w[0];
    assert t[..2] != " '";
  }

  lemma InicioSinCambio(t: string, cs: set<char>)
    requires |t| > 0 && t[0] !in cs
    ensures RecortarInicio(t, cs) == t
  {
  }

  lemma SufijoCitado(w: string)
    requires BordeLimpio(w)
    ensures RecortarSufijo(w + "'", " '") == w + "'"
  {
    var t := w + "'";
    assert t[|t| - 2] == w[|w| - 1];
    assert t[|t| - 2..] != " '";
  }

  lemma FinComilla(w: string)
    requires BordeLimpio(w)
    ensures RecortarFin(w + "'", {'\''}) == w
  {
    var t := w + "'";
    assert t[..|w|] == w;
  }

  /** The right side of `col = w` is ` w`, and the new value is `w`. */
  lemma NuevoValorDesnudo(w: string)
    requires BordeLimpio(w)
    ensures NuevoValor(" " + w) == w
  {
    var s := " " + w;
    PrefijoDesnudo(w);
    InicioSinCambio(s, {'\''});
    InicioEspacio(w);
    SufijoDesnudo(w);
    FinSinCambio(w, {'\''});
  }

  lemma PrefijoDesnudo(w: string)
    requires BordeLimpio(w)
    ensures RecortarPrefijo(" " + w, " '") == " " + w
  {
    var s := " " + w;
    assert s[1] == w[0];
    assert s[..2] != " '";
  }

  lemma InicioEspacio(w: string)
    requires BordeLimpio(w)
    ensures RecortarInicio(" " + w, {' '}) == w
  {
    assert (" " + w)[1..] == w;
  }

  lemma SufijoDesnudo(w: string)
    requires BordeLimpio(w)
    ensures RecortarSufijo(w, " '") == w
  {
    if |w| >= 2 {
      assert w[|w| - 2..][1] == w[|w| - 1];
    }
  }

  lemma FinSinCambio(t: string, cs: set<char>)
    requires |t| > 0 && t[|t| - 1] !in cs
    ensures RecortarFin(t, cs) == t
  {
  }

  // =====================================================================
  // Rewriting one row

  /** The new value is a piece of the text it was cut from. */
  lemma NuevoValorCaracteres(v: string)
    ensures forall x :: x in NuevoValor(v) ==> x in v
  {
    var a := RecortarPrefijo(v, " '");
    var b := RecortarInicio(a, {'\''});
    var c := RecortarInicio(b, {' '});
    var d := RecortarSufijo(c, " '");
    var e := RecortarFin(d, {'\''});
    assert forall x :: x in e ==> x in d;
    assert forall x :: x in d ==> x in c;
    assert forall x :: x in c ==> x in b;
    assert forall x :: x in b ==> x in a;
    assert forall x :: x in a ==> x in v;
  }

  /** No assignment after position `k` names field `j`. */
  predicate UltimaEn(asigs: seq<Asignacion>, indices: map<string, nat>, k: int, j: nat) {
    forall k2 :: 0 <= k2 < |asigs| && k < k2 ==> !Apunta(asigs, indices, k2, j)
  }

  lemma UltimaCola(asigs: seq<Asignacion>, indices: map<string, nat>, k: int, j: nat)
    requires |asigs| > 0 && 0 <= k && UltimaEn(asigs, indices, k, j)
    ensures UltimaEn(asigs[1..], indices, k - 1, j)
  {
    forall k2 | 0 <= k2 < |asigs[1..]| && k - 1 < k2
      ensures !Apunta(asigs[1..], indices, k2, j)
    {
      assert asigs[1..][k2] == asigs[k2 + 1];
      assert !Apunta(asigs, indices, k2 + 1, j);
    }
  }

  /** A field no assignment names keeps its value. */
  lemma {:induction false} AplicarIntacto(campos: seq<string>, asigs: seq<Asignacion>, indices: map<string, nat>, j: nat)
    requires Aplicable(asigs, indices, |campos|)
    requires j < |campos| && UltimaEn(asigs, indices, -1, j)
    ensures Aplicar(campos, asigs, indices).value[j] == campos[j]
    decreases |asigs|
  {
    if |asigs| > 0 {
      var c2 := campos[indices[asigs[0].columna] := asigs[0].valor];
      AplicableCola(asigs, indices, |campos|);
      assert !Apunta(asigs, indices, 0, j);
      UltimaCola(asigs, indices, 0, j);
      AplicarIntacto(c2, asigs[1..], indices, j);
    }
  }

  /** A named field takes the value of the last assignment that names it. */
  lemma {:induction false} AplicarUltima(campos: seq<string>, asigs: seq<Asignacion>, indices: map<string, nat>,
                                         j: nat, k: nat)
    requires Aplicable(asigs, indices, |campos|)
    requires j < |campos| && k < |asigs| && Apunta(asigs, indices, k, j) && UltimaEn(asigs, indices, k, j)
    ensures Aplicar(campos, asigs, indices).value[j] == asigs[k].valor
    decreases |asigs|
  {
    var c2 := campos[indices[asigs[0].columna] := asigs[0].valor];
    AplicableCola(asigs, indices, |campos|);
    if k == 0 {
      UltimaCola(asigs, indices, 0, j);
      AplicarIntacto(c2, asigs[1..], indices, j);
    } else {
      assert asigs[1..][k - 1] == asigs[k];
      UltimaCola(asigs, indices, k, j);
      AplicarUltima(c2, asigs[1..], indices, j, k - 1);
    }
  }

  /** Both halves at once: untouched fields keep their value; a named
      field takes the last assigned value. */
  lemma AplicarContenido(campos: seq<string>, asigs: seq<Asignacion>, indices: map<string, nat>)
    requires Aplicable(asigs, indices, |campos|)
    ensures forall j :: 0 <= j < |campos| && UltimaEn(asigs, indices, -1, j)
                        ==> Aplicar(campos, asigs, indices).value[j] == campos[j]
    ensures forall j, k :: 0 <= j < |campos| && 0 <= k < |asigs| && Apunta(asigs, indices, k, j)
                           && UltimaEn(asigs, indices, k, j)
                           ==> Aplicar(campos, asigs, indices).value[j] == asigs[k].valor
  {
    forall j | 0 <= j < |campos| && UltimaEn(asigs, indices, -1, j)
      ensures Aplicar(campos, asigs, indices).value[j] == campos[j]
    {
      AplicarIntacto(campos, asigs, indices, j);
    }
    forall j, k | 0 <= j < |campos| && 0 <= k < |asigs| && Apunta(asigs, indices, k, j) && UltimaEn(asigs, indices, k, j)
      ensures Aplicar(campos, asigs, indices).value[j] == asigs[k].valor
    {
      AplicarUltima(campos, asigs, indices, j, k);
    }
  }

  /** With comma-free fields and values, no field of the result holds a
      comma. */
  lemma {:induction false} AplicarSinComa(campos: seq<string>, asigs: seq<Asignacion>, indices: map<string, nat>)
    requires Aplicable(asigs, indices, |campos|)
    requires forall j :: 0 <= j < |campos| ==> ',' !in campos[j]
    requires forall k :: 0 <= k < |asigs| ==> ',' !in asigs[k].valor
    ensures forall j :: 0 <= j < |campos| ==> ',' !in Aplicar(campos, asigs, indices).value[j]
    decreases |asigs|
  {
    if |asigs| > 0 {
      var c2 := campos[indices[asigs[0].columna] := asigs[0].valor];
      AplicableCola(asigs, indices, |campos|);
      assert forall k :: 0 <= k < |asigs[1..]| ==> asigs[1..][k] == asigs[k + 1];
      AplicarSinComa(c2, asigs[1..], indices);
    }
  }

  /** A rewritten row, cut at commas again, gives exactly the assigned
      fields: the row keeps its number of fields. */
  lemma ActualizarLineaCampos(linea: string, asigs: seq<Asignacion>, indices: map<string, nat>)
    requires forall k :: 0 <= k < |asigs| ==> ',' !in asigs[k].valor
    ensures var r := ActualizarLinea(linea, asigs, indices);
            r.Ok? ==> Split(r.value, ',') == Aplicar(Split(linea, ','), Preparar(asigs), indices).value
                      && |Split(r.value, ',')| == |Split(linea, ',')|
  {
    var r := ActualizarLinea(linea, asigs, indices);
    if r.Ok? {
      var campos := Split(linea, ',');
      var prep := Preparar(asigs);
      SplitSinSeparador(linea, ',');
      forall k | 0 <= k < |asigs|
        ensures ',' !in prep[k].valor
      {
        NuevoValorCaracteres(asigs[k].valor);
      }
      AplicarSinComa(campos, prep, indices);
      SplitJoin(Aplicar(campos, prep, indices).value, ',');
    }
  }

  // =====================================================================
  // Rewriting the file

  /** The rewrite succeeds exactly when every row does, and then holds
      each row's result. */
  lemma ReescribirCorrecto(filas: seq<string>, asigs: seq<Asignacion>, indices: map<string, nat>, e: Expresion)
    ensures var r := ReescribirFilas(filas, asigs, indices, e);
            (r.Ok? <==> forall i :: 0 <= i < |filas| ==> Fila(filas[i], asigs, indices, e).Ok?)
            && (r.Ok? ==> forall i :: 0 <= i < |filas| ==> r.value[i] == Fila(filas[i], asigs, indices, e).value)
  {
    var rs := seq(|filas|, i requires 0 <= i < |filas| => Fila(filas[i], asigs, indices, e));
    assert ReescribirFilas(filas, asigs, indices, e) == Reunir(rs);
    assert forall i :: 0 <= i < |filas| ==> rs[i] == Fila(filas[i], asigs, indices, e);
  }

  /** An accepted rewrite keeps the header and the number of lines, and
      puts every data row through `Fila`. */
  lemma ProcesarFilas(lineas: seq<string>, asigs: seq<Asignacion>, e: Expresion)
    requires |lineas| > 0
    ensures var r := ProcesarUpdate(lineas, asigs, e);
            var indices := Ejecutor.ObtenerIndicesColumnas(Split(lineas[0], ','));
            r.Ok? ==> |r.value| == |lineas| && r.value[0] == lineas[0]
                      && forall i :: 1 <= i < |lineas| ==> Fila(lineas[i], asigs, indices, e) == Ok(r.value[i])
  {
    var r := ProcesarUpdate(lineas, asigs, e);
    if r.Ok? {
      var columnas := Split(lineas[0], ',');
      var indices := Ejecutor.ObtenerIndicesColumnas(columnas);
      assert r == ActualizarArchivo(lineas, columnas, asigs, e);
      var rf := ReescribirFilas(lineas[1..], asigs, indices, e);
      assert rf.Ok? && r.value == [Join(columnas, ",")] + rf.value;
      JoinSplit(lineas[0], ',');
      ReescribirCorrecto(lineas[1..], asigs, indices, e);
      forall i | 1 <= i < |lineas|
        ensures Fila(lineas[i], asigs, indices, e) == Ok(r.value[i])
      {
        assert lineas[1..][i - 1] == lineas[i];
        assert r.value[i] == rf.value[i - 1];
      }
    }
  }

  /** When the tree accepts no data row, a valid update leaves the file as
      it was. */
  lemma ProcesarSinCoincidencias(lineas: seq<string>, asigs: seq<Asignacion>, e: Expresion)
    requires |lineas| > 0 && ClausulaSetValida(asigs, Split(lineas[0], ','))
    requires forall i :: 1 <= i < |lineas|
               ==> !CumpleCW(lineas[i], e, Ejecutor.ObtenerIndicesColumnas(Split(lineas[0], ',')))
    ensures ProcesarUpdate(lineas, asigs, e) == Ok(lineas)
  {
    var indices := Ejecutor.ObtenerIndicesColumnas(Split(lineas[0], ','));
    JoinSplit(lineas[0], ',');
    assert forall i :: 0 <= i < |lineas[1..]| ==> lineas[1..][i] == lineas[i + 1];
    ReescribirCorrecto(lineas[1..], asigs, indices, e);
    var filas := ReescribirFilas(lineas[1..], asigs, indices, e);
    assert filas.Ok?;
    assert filas.value == lineas[1..];
    assert lineas == [lineas[0]] + lineas[1..];
  }

  /** A valid SET clause whose column names carry only spaces around them
      succeeds on a table whose rows all have as many fields as the
      header. */
  lemma ProcesarExitoso(lineas: seq<string>, asigs: seq<Asignacion>, e: Expresion)
    requires |lineas| > 0 && ClausulaSetValida(asigs, Split(lineas[0], ','))
    requires forall k :: 0 <= k < |asigs| ==> Trim(asigs[k].columna) == SinEspacios(asigs[k].columna)
    requires forall i :: 1 <= i < |lineas| ==> |Split(lineas[i], ',')| == |Split(lineas[0], ',')|
    ensures ProcesarUpdate(lineas, asigs, e).Ok?
  {
    var columnas := Split(lineas[0], ',');
    var indices := Ejecutor.ObtenerIndicesColumnas(columnas);
    forall k | 0 <= k < |asigs|
      ensures Valida(Preparar(asigs)[k], indices, |columnas|)
    {
      assert AsignacionValida(asigs, columnas, k);
      var i :| 0 <= i < |columnas| && columnas[i] == SinEspacios(asigs[k].columna);
      assert Trim(asigs[k].columna) in indices.Keys;
    }
    forall i | 0 <= i < |lineas[1..]|
      ensures Fila(lineas[1..][i], asigs, indices, e).Ok?
    {
      assert lineas[1..][i] == lineas[i + 1];
      assert Aplicable(Preparar(asigs), indices, |Split(lineas[i + 1], ',')|);
    }
    ReescribirCorrecto(lineas[1..], asigs, indices, e);
  }

  // =====================================================================
  // The whole command

  /** Without a WHERE clause (or with only `;`), every data row is
      rewritten: the command runs the SET clause against the tree that
      accepts every row. */
  lemma UpdateSinWhere(t: string, asigs: seq<Asignacion>, fin: string, lineas: seq<string>)
    requires fin == "" || fin == ";"
    requires |asigs| > 0 && forall k :: 0 <= k < |asigs| ==> Escribible(asigs[k])
    ensures EjecutarUpdate(Comandos.Update(t, TextoSet(asigs), fin), lineas) == ProcesarUpdate(lineas, asigs, Unknown)
    ensures forall l, indices :: Fila(l, asigs, indices, Unknown) == ActualizarLinea(l, asigs, indices)
  {
    ClausulaDeTexto(asigs);
    assert RecortarFin(fin, {';'}) == "";
    assert RecortarSufijo("", "; ") == "";
    assert Ejecutor.AdaptarWhere("") == [];
  }
}
