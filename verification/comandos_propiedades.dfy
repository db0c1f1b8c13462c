/** Properties of the command parsers: which token lists each parser
    accepts, what it extracts from them, and the text-level entry point. */
module ComandosPropiedades {
  import opened Resultados
  import opened Cadenas
  import opened Comandos
  import opened AnalizadorPropiedades
  import EjecutorPropiedades
  import Ejecutor

  /** No token of `ws` is the keyword `p`, in any letter case. */
  predicate SinClave(ws: seq<string>, p: string) {
    forall k :: 0 <= k < |ws| ==> Mayusculas(ws[k]) != p
  }

  /** `obtener_indice` finds the first token that uppercases to the
      keyword, and finds nothing exactly when no token does. */
  lemma {:induction false} ObtenerIndiceCorrecto(ts: seq<string>, p: string)
    ensures var r := ObtenerIndice(ts, p);
      && (r.Some? ==> Mayusculas(ts[r.value]) == p)
      && (r.Some? ==> forall j :: 0 <= j < r.value ==> Mayusculas(ts[j]) != p)
      && (r.None? <==> SinClave(ts, p))
    decreases |ts|
  {
    if |ts| > 0 {
      ObtenerIndiceCorrecto(ts[1..], p);
      assert forall j :: 0 < j < |ts| ==> ts[j] == ts[1..][j - 1];
    }
  }

  /** The keyword's first position is the first token that spells it. */
  lemma IndiceTras(a: seq<string>, x: string, b: seq<string>, p: string)
    requires SinClave(a, p) && Mayusculas(x) == p
    ensures ObtenerIndice(a + [x] + b, p) == Some(|a|)
  {
    var ts := a + [x] + b;
    ObtenerIndiceCorrecto(ts, p);
    assert ts[|a|] == x;
    assert forall j :: 0 <= j < |a| ==> ts[j] == a[j];
  }

  lemma SinClaveUnion(a: seq<string>, b: seq<string>, p: string)
    requires SinClave(a, p) && SinClave(b, p)
    ensures SinClave(a + b, p)
  {
    assert forall k :: 0 <= k < |a| ==> (a + b)[k] == a[k];
    assert forall k :: |a| <= k < |a + b| ==> (a + b)[k] == b[k - |a|];
  }

  /** A keyword first found after `[x] + a`. */
  lemma PrimeraClave(x: seq<string>, a: seq<string>, k: string, b: seq<string>, p: string)
    requires SinClave(x, p) && SinClave(a, p) && Mayusculas(k) == p
    ensures ObtenerIndice(x + a + [k] + b, p) == Some(|x| + |a|)
  {
    SinClaveUnion(x, a, p);
    IndiceTras(x + a, k, b, p);
  }

  /** A keyword first found after `x + a + y + c`. */
  lemma SegundaClave(x: seq<string>, a: seq<string>, y: seq<string>, c: seq<string>,
                     k: string, b: seq<string>, p: string)
    requires SinClave(x, p) && SinClave(a, p) && SinClave(y, p) && SinClave(c, p)
    requires Mayusculas(k) == p
    ensures ObtenerIndice(x + a + y + c + [k] + b, p) == Some(|x| + |a| + |y| + |c|)
  {
    SinClaveUnion(x, a, p);
    SinClaveUnion(x + a, y, p);
    SinClaveUnion(x + a + y, c, p);
    IndiceTras(x + a + y + c, k, b, p);
  }

  /** A keyword that no piece spells is absent. */
  lemma Ausente(x: seq<string>, a: seq<string>, y: seq<string>, c: seq<string>,
                z: seq<string>, d: seq<string>, p: string)
    requires SinClave(x, p) && SinClave(a, p) && SinClave(y, p)
    requires SinClave(c, p) && SinClave(z, p) && SinClave(d, p)
    ensures ObtenerIndice(x + a + y + c + z + d, p) == None
  {
    SinClaveUnion(x, a, p);
    SinClaveUnion(x + a, y, p);
    SinClaveUnion(x + a + y, c, p);
    SinClaveUnion(x + a + y + c, z, p);
    SinClaveUnion(x + a + y + c + z, d, p);
    ObtenerIndiceCorrecto(x + a + y + c + z + d, p);
  }

  // =====================================================================
  // EliminarPuntoYComa

  /** `eliminar_punto_y_coma` works token by token. */
  lemma {:induction false} EliminarUnion(a: seq<string>, b: seq<string>)
    ensures EliminarPuntoYComa(a + b) == EliminarPuntoYComa(a) + EliminarPuntoYComa(b)
    decreases |a|
  {
    if |a| == 0 {
      assert a + b == b;
    } else {
      assert (a + b)[0] == a[0];
      assert (a + b)[1..] == a[1..] + b;
      EliminarUnion(a[1..], b);
      if a[0] != ";" {
        assert [a[0]] + EliminarPuntoYComa(a[1..]) + EliminarPuntoYComa(b)
            == [a[0]] + (EliminarPuntoYComa(a[1..]) + EliminarPuntoYComa(b));
      }
    }
  }

  /** No `;` token is left, and every other token is kept as often as it
      occurs. */
  lemma {:induction false} EliminarConserva(ts: seq<string>)
    ensures forall k :: 0 <= k < |EliminarPuntoYComa(ts)| ==> EliminarPuntoYComa(ts)[k] != ";"
    ensures forall t :: t != ";" ==> multiset(EliminarPuntoYComa(ts))[t] == multiset(ts)[t]
    decreases |ts|
  {
    if |ts| > 0 {
      EliminarConserva(ts[1..]);
      assert ts == [ts[0]] + ts[1..];
    }
  }

  /** A clause with no `;` token passes unchanged. */
  lemma {:induction false} EliminarSinPuntoYComa(ts: seq<string>)
    requires forall k :: 0 <= k < |ts| ==> ts[k] != ";"
    ensures EliminarPuntoYComa(ts) == ts
    decreases |ts|
  {
    if |ts| > 0 {
      EliminarSinPuntoYComa(ts[1..]);
    }
  }

  // =====================================================================
  // UPDATE

  /** `UPDATE t SET s... WHERE w...` yields the table, the SET words and
      the WHERE words, each clause space-joined. */
  lemma UpdateConWhere(t: string, s: seq<string>, w: seq<string>)
    requires Mayusculas(t) != "SET" && Mayusculas(t) != "WHERE" && SinClave(s, "WHERE")
    requires |s| > 0 && |w| > 0
    ensures ParserUpdate(["UPDATE", t, "SET"] + s + ["WHERE"] + w)
            == Ok(Update(t, Join(s, " "), Join(w, " ")))
  {
    var ts := ["UPDATE", t, "SET"] + s + ["WHERE"] + w;
    MayusculasDeMayusculas("UPDATE");
    MayusculasDeMayusculas("SET");
    assert ts == ["UPDATE", t] + ["SET"] + (s + ["WHERE"] + w);
    IndiceTras(["UPDATE", t], "SET", s + ["WHERE"] + w, "SET");
    SinClaveUnion(["UPDATE", t, "SET"], s, "WHERE");
    assert ts == (["UPDATE", t, "SET"] + s) + ["WHERE"] + w;
    IndiceTras(["UPDATE", t, "SET"] + s, "WHERE", w, "WHERE");
    assert ts[3..3 + |s|] == s;
    assert ts[4 + |s|..] == w;
  }

  /** Without WHERE the SET clause is everything after SET. */
  lemma UpdateSinWhere(t: string, s: seq<string>)
    requires Mayusculas(t) != "SET" && Mayusculas(t) != "WHERE" && SinClave(s, "WHERE")
    ensures ParserUpdate(["UPDATE", t, "SET"] + s) == Ok(Update(t, Join(s, " "), ""))
  {
    var ts := ["UPDATE", t, "SET"] + s;
    MayusculasDeMayusculas("UPDATE");
    MayusculasDeMayusculas("SET");
    assert ts == ["UPDATE", t] + ["SET"] + s;
    IndiceTras(["UPDATE", t], "SET", s, "SET");
    SinClaveUnion(["UPDATE", t, "SET"], s, "WHERE");
    ObtenerIndiceCorrecto(ts, "WHERE");
    assert ts[3..] == s;
  }

  /** A WHERE with nothing after it is a syntax error. */
  lemma UpdateWhereVacio(t: string, s: seq<string>)
    requires Mayusculas(t) != "SET" && Mayusculas(t) != "WHERE" && SinClave(s, "WHERE")
    ensures ParserUpdate(["UPDATE", t, "SET"] + s + ["WHERE"]) == Err(InvalidSyntax)
  {
    var ts := ["UPDATE", t, "SET"] + s + ["WHERE"];
    MayusculasDeMayusculas("UPDATE");
    MayusculasDeMayusculas("SET");
    assert ts == ["UPDATE", t] + ["SET"] + (s + ["WHERE"]);
    IndiceTras(["UPDATE", t], "SET", s + ["WHERE"], "SET");
    SinClaveUnion(["UPDATE", t, "SET"], s, "WHERE");
    assert ts == (["UPDATE", t, "SET"] + s) + ["WHERE"] + [];
    IndiceTras(["UPDATE", t, "SET"] + s, "WHERE", [], "WHERE");
  }

  // =====================================================================
  // DELETE

  /** `DELETE FROM t WHERE w...`: a table written with or without one
      trailing `;` names the same table; the WHERE words are space-joined. */
  lemma DeleteConWhere(t: string, fin: string, w: seq<string>)
    requires |t| > 0 && t[|t| - 1] != ';' && (fin == "" || fin == ";")
    requires Mayusculas(t + fin) != "WHERE"
    ensures ParserDelete(["DELETE", "FROM", t + fin, "WHERE"] + w)
            == Ok(Delete(t, Join(w, " ")))
  {
    var ts := ["DELETE", "FROM", t + fin, "WHERE"] + w;
    assert Mayusculas(ts[1]) == "FROM" by { MayusculasDeMayusculas("FROM"); }
    IndiceDelete(t + fin, w);
    DeleteEnIndice(ts, 3);
    assert ts[2] == t + fin && ts[4..] == w;
    TablaDelete(t, fin);
  }

  /** The WHERE after `DELETE FROM x` is found at index 3. */
  lemma IndiceDelete(x: string, w: seq<string>)
    requires Mayusculas(x) != "WHERE"
    ensures ObtenerIndice(["DELETE", "FROM", x, "WHERE"] + w, "WHERE") == Some(3)
  {
    MayusculasDeMayusculas("DELETE");
    MayusculasDeMayusculas("FROM");
    MayusculasDeMayusculas("WHERE");
    assert ["DELETE", "FROM", x, "WHERE"] + w == ["DELETE", "FROM", x] + ["WHERE"] + w;
    IndiceTras(["DELETE", "FROM", x], "WHERE", w, "WHERE");
  }

  /** Once WHERE sits at index `i`, the condition is the rest of the words. */
  lemma DeleteEnIndice(ts: seq<string>, i: nat)
    requires |ts| >= 3 && Mayusculas(ts[1]) == "FROM"
    requires ObtenerIndice(ts, "WHERE") == Some(i) && i < |ts|
    ensures ParserDelete(ts).Ok? && ParserDelete(ts).value.clausulaWhere == Join(ts[i + 1..], " ")
  {
    match ObtenerIndice(ts, "WHERE")
    case Some(w) =>
      assert w == i && w + 1 <= |ts|;
  }

  /** The table word loses one trailing `;` and nothing else. */
  lemma TablaDelete(t: string, fin: string)
    requires |t| > 0 && t[|t| - 1] != ';' && (fin == "" || fin == ";")
    ensures RecortarSufijo(RecortarFin(t + fin, {';'}), " ;") == t
  {
    assert RecortarFin(t + fin, {';'}) == t by {
      if fin == ";" {
        assert (t + fin)[..|t + fin| - 1] == t;
      }
    }
  }

  // =====================================================================
  // SELECT

  /** A field name as a SELECT list writes it: non-empty, no whitespace,
      no trailing comma. */
  predicate Campo(n: string) {
    EsPalabra(n) && n[|n| - 1] != ','
  }

  lemma LimpiarCampoNombre(n: string, fin: string)
    requires Campo(n) && (fin == "" || fin == ",")
    ensures LimpiarCampo(n + fin) == n && Trim(n) == n
  {
    assert RecortarPrefijo(n + fin, " ") == n + fin by {
      assert (n + fin)[..1] == [n[0]];
    }
    if fin == "," {
      assert (n + fin)[..|n + fin| - 1] == n;
    }
    EjecutorPropiedades.TrimSinBordes(n);
  }

  /** `id, nombre, email` between SELECT and FROM are the fields `id`,
      `nombre`, `email`. */
  lemma {:induction false} CamposDeNombres(cs: seq<string>, ns: seq<string>)
    requires |cs| == |ns|
    requires forall k :: 0 <= k < |ns| ==> Campo(ns[k]) && (cs[k] == ns[k] || cs[k] == ns[k] + ",")
    ensures CamposSelect(cs) == ns
    decreases |cs|
  {
    if |cs| > 0 {
      LimpiarCampoNombre(ns[0], cs[0][|ns[0]|..]);
      assert cs[0] == ns[0] + cs[0][|ns[0]|..];
      CamposDeNombres(cs[1..], ns[1..]);
      assert ns == [ns[0]] + ns[1..];
    }
  }

  /** The keywords spelled in capitals are their own uppercase form. */
  lemma Claves()
    ensures Mayusculas("SELECT") == "SELECT" && Mayusculas("FROM") == "FROM"
    ensures Mayusculas("WHERE") == "WHERE" && Mayusculas("ORDER") == "ORDER"
  {
    MayusculasDeMayusculas("SELECT");
    MayusculasDeMayusculas("FROM");
    MayusculasDeMayusculas("WHERE");
    MayusculasDeMayusculas("ORDER");
  }

  /** `parser_select` for an ORDER without WHERE, once the keyword
      positions are known. */
  lemma SelectOrdenPorIndices(ts: seq<string>, f: nat, o: nat,
                              cs: seq<string>, t: string, oc: seq<string>)
    requires |ts| > 0 && Mayusculas(ts[0]) == "SELECT" && OrdenTrasWhere(ts)
    requires ObtenerIndice(ts, "FROM") == Some(f) && f + 1 < |ts|
    requires ObtenerIndice(ts, "WHERE") == None && ObtenerIndice(ts, "ORDER") == Some(o)
    requires o + 2 <= |ts|
    requires ts[1..f] == cs && ts[f + 1] == t && ts[o + 2..] == oc
    ensures ParserSelect(ts) == Ok(Select(CamposSelect(cs), t, "", oc))
  {
    var cl := ClausulasSelect(ts, ObtenerIndice(ts, "WHERE"), ObtenerIndice(ts, "ORDER"));
    assert cl == Ok(("", oc)) by {
      assert cl == ClausulasSelect(ts, None, Some(o));
    }
  }

  /** `parser_select` for a WHERE before an ORDER, once the keyword
      positions are known. */
  lemma SelectWhereOrdenPorIndices(ts: seq<string>, f: nat, w: nat, o: nat,
                                   cs: seq<string>, t: string, wc: seq<string>, oc: seq<string>)
    requires |ts| > 0 && Mayusculas(ts[0]) == "SELECT" && OrdenTrasWhere(ts)
    requires ObtenerIndice(ts, "FROM") == Some(f) && f + 1 < |ts|
    requires ObtenerIndice(ts, "WHERE") == Some(w) && ObtenerIndice(ts, "ORDER") == Some(o)
    requires o + 2 <= |ts| && w < o
    requires ts[1..f] == cs && ts[f + 1] == t && ts[w + 1..o] == wc && ts[o + 2..] == oc
    ensures ParserSelect(ts) == Ok(Select(CamposSelect(cs), t, Join(wc, " "), EliminarPuntoYComa(oc)))
  {
    assert ClausulasSelect(ts, Some(w), Some(o)) == Ok((Join(wc, " "), EliminarPuntoYComa(oc)));
  }

  lemma SinClaveDos(x: string, y: string, p: string)
    requires Mayusculas(x) != p && Mayusculas(y) != p
    ensures SinClave([x, y], p)
  {
  }

  lemma FromEnSelect(cs: seq<string>, t: string, r: seq<string>, b: string, o: seq<string>)
    requires SinClave(cs, "FROM")
    ensures ObtenerIndice(["SELECT"] + cs + ["FROM", t] + r + ["ORDER", b] + o, "FROM") == Some(|cs| + 1)
  {
    Claves();
    assert ["SELECT"] + cs + ["FROM", t] + r + ["ORDER", b] + o
        == ["SELECT"] + cs + ["FROM"] + ([t] + r + ["ORDER", b] + o);
    PrimeraClave(["SELECT"], cs, "FROM", [t] + r + ["ORDER", b] + o, "FROM");
  }

  lemma OrderEnSelect(cs: seq<string>, t: string, r: seq<string>, b: string, o: seq<string>)
    requires SinClave(cs, "ORDER") && Mayusculas(t) != "ORDER" && SinClave(r, "ORDER")
    ensures ObtenerIndice(["SELECT"] + cs + ["FROM", t] + r + ["ORDER", b] + o, "ORDER")
            == Some(|cs| + 3 + |r|)
  {
    Claves();
    assert ["SELECT"] + cs + ["FROM", t] + r + ["ORDER", b] + o
        == ["SELECT"] + cs + ["FROM", t] + r + ["ORDER"] + ([b] + o);
    SinClaveDos("FROM", t, "ORDER");
    SegundaClave(["SELECT"], cs, ["FROM", t], r, "ORDER", [b] + o, "ORDER");
  }

  lemma WhereFueraDeSelect(cs: seq<string>, t: string, r: seq<string>, b: string, o: seq<string>)
    requires SinClave(cs, "WHERE") && Mayusculas(t) != "WHERE" && SinClave(r, "WHERE")
    requires Mayusculas(b) != "WHERE" && SinClave(o, "WHERE")
    ensures ObtenerIndice(["SELECT"] + cs + ["FROM", t] + r + ["ORDER", b] + o, "WHERE") == None
  {
    Claves();
    SinClaveDos("FROM", t, "WHERE");
    SinClaveDos("ORDER", b, "WHERE");
    Ausente(["SELECT"], cs, ["FROM", t], r, ["ORDER", b], o, "WHERE");
  }

  /** `SELECT cs... FROM t r... ORDER b o...` without WHERE: the order
      clause is every token after `ORDER b`, `;` tokens included. */
  lemma SelectConOrden(cs: seq<string>, t: string, r: seq<string>, b: string, o: seq<string>)
    requires SinClave(cs, "FROM") && SinClave(cs, "ORDER") && SinClave(cs, "WHERE")
    requires Mayusculas(t) != "ORDER" && Mayusculas(t) != "WHERE"
    requires SinClave(r, "ORDER") && SinClave(r, "WHERE")
    requires Mayusculas(b) != "WHERE" && SinClave(o, "WHERE")
    ensures OrdenTrasWhere(["SELECT"] + cs + ["FROM", t] + r + ["ORDER", b] + o)
    ensures ParserSelect(["SELECT"] + cs + ["FROM", t] + r + ["ORDER", b] + o)
            == Ok(Select(CamposSelect(cs), t, "", o))
  {
    Claves();
    var ts := ["SELECT"] + cs + ["FROM", t] + r + ["ORDER", b] + o;
    FromEnSelect(cs, t, r, b, o);
    OrderEnSelect(cs, t, r, b, o);
    WhereFueraDeSelect(cs, t, r, b, o);
    assert ts[1..|cs| + 1] == cs;
    assert ts[|cs| + 5 + |r|..] == o;
    assert ts[|cs| + 2] == t;
    assert ts[0] == "SELECT";
    assert OrdenTrasWhere(ts);
    SelectOrdenPorIndices(ts, |cs| + 1, |cs| + 3 + |r|, cs, t, o);
  }

  lemma FromEnSelectWhere(cs: seq<string>, t: string, w: seq<string>, b: string, o: seq<string>)
    requires SinClave(cs, "FROM")
    ensures ObtenerIndice(["SELECT"] + cs + ["FROM", t, "WHERE"] + w + ["ORDER", b] + o, "FROM")
            == Some(|cs| + 1)
  {
    Claves();
    assert ["SELECT"] + cs + ["FROM", t, "WHERE"] + w + ["ORDER", b] + o
        == ["SELECT"] + cs + ["FROM"] + ([t, "WHERE"] + w + ["ORDER", b] + o);
    PrimeraClave(["SELECT"], cs, "FROM", [t, "WHERE"] + w + ["ORDER", b] + o, "FROM");
  }

  lemma WhereEnSelect(cs: seq<string>, t: string, w: seq<string>, b: string, o: seq<string>)
    requires SinClave(cs, "WHERE") && Mayusculas(t) != "WHERE"
    ensures ObtenerIndice(["SELECT"] + cs + ["FROM", t, "WHERE"] + w + ["ORDER", b] + o, "WHERE")
            == Some(|cs| + 3)
  {
    Claves();
    assert ["SELECT"] + cs + ["FROM", t, "WHERE"] + w + ["ORDER", b] + o
        == ["SELECT"] + cs + ["FROM"] + [t] + ["WHERE"] + (w + ["ORDER", b] + o);
    SegundaClave(["SELECT"], cs, ["FROM"], [t], "WHERE", w + ["ORDER", b] + o, "WHERE");
  }

  lemma OrderEnSelectWhere(cs: seq<string>, t: string, w: seq<string>, b: string, o: seq<string>)
    requires SinClave(cs, "ORDER") && Mayusculas(t) != "ORDER" && SinClave(w, "ORDER")
    ensures ObtenerIndice(["SELECT"] + cs + ["FROM", t, "WHERE"] + w + ["ORDER", b] + o, "ORDER")
            == Some(|cs| + 4 + |w|)
  {
    Claves();
    assert ["SELECT"] + cs + ["FROM", t, "WHERE"] + w + ["ORDER", b] + o
        == ["SELECT"] + cs + ["FROM", t, "WHERE"] + w + ["ORDER"] + ([b] + o);
    assert SinClave(["FROM", t, "WHERE"], "ORDER");
    SegundaClave(["SELECT"], cs, ["FROM", t, "WHERE"], w, "ORDER", [b] + o, "ORDER");
  }

  lemma TrozosSelectWhere(cs: seq<string>, t: string, w: seq<string>, b: string, o: seq<string>)
    ensures var ts := ["SELECT"] + cs + ["FROM", t, "WHERE"] + w + ["ORDER", b] + o;
      && |ts| == |cs| + |w| + |o| + 6 && ts[0] == "SELECT" && ts[|cs| + 2] == t
      && ts[1..|cs| + 1] == cs && ts[|cs| + 4..|cs| + 4 + |w|] == w && ts[|cs| + 6 + |w|..] == o
  {
    var ts := ["SELECT"] + cs + ["FROM", t, "WHERE"] + w + ["ORDER", b] + o;
    assert ts[1..|cs| + 1] == cs;
    assert ts[|cs| + 4..|cs| + 4 + |w|] == w;
    assert ts[|cs| + 6 + |w|..] == o;
  }

  /** `SELECT cs... FROM t WHERE w... ORDER b o...`: the WHERE clause runs
      up to ORDER and the order clause loses its `;` tokens. */
  lemma SelectConWhereYOrden(cs: seq<string>, t: string, w: seq<string>, b: string, o: seq<string>)
    requires SinClave(cs, "FROM") && SinClave(cs, "WHERE") && SinClave(cs, "ORDER")
    requires Mayusculas(t) != "WHERE" && Mayusculas(t) != "ORDER"
    requires SinClave(w, "ORDER")
    ensures OrdenTrasWhere(["SELECT"] + cs + ["FROM", t, "WHERE"] + w + ["ORDER", b] + o)
    ensures ParserSelect(["SELECT"] + cs + ["FROM", t, "WHERE"] + w + ["ORDER", b] + o)
            == Ok(Select(CamposSelect(cs), t, Join(w, " "), EliminarPuntoYComa(o)))
  {
    FromEnSelectWhere(cs, t, w, b, o);
    WhereEnSelect(cs, t, w, b, o);
    OrderEnSelectWhere(cs, t, w, b, o);
    SelectWhereFinal(cs, t, w, b, o);
  }

  lemma SelectWhereFinal(cs: seq<string>, t: string, w: seq<string>, b: string, o: seq<string>)
    requires var ts := ["SELECT"] + cs + ["FROM", t, "WHERE"] + w + ["ORDER", b] + o;
      ObtenerIndice(ts, "FROM") == Some(|cs| + 1) && ObtenerIndice(ts, "WHERE") == Some(|cs| + 3)
      && ObtenerIndice(ts, "ORDER") == Some(|cs| + 4 + |w|)
    ensures OrdenTrasWhere(["SELECT"] + cs + ["FROM", t, "WHERE"] + w + ["ORDER", b] + o)
    ensures ParserSelect(["SELECT"] + cs + ["FROM", t, "WHERE"] + w + ["ORDER", b] + o)
            == Ok(Select(CamposSelect(cs), t, Join(w, " "), EliminarPuntoYComa(o)))
  {
    MayusculasDeMayusculas("SELECT");
    var ts := ["SELECT"] + cs + ["FROM", t, "WHERE"] + w + ["ORDER", b] + o;
    TrozosSelectWhere(cs, t, w, b, o);
    var f, wi, oi := |cs| + 1, |cs| + 3, |cs| + 4 + |w|;
    assert OrdenTrasWhere(ts);
    SelectWhereOrdenPorIndices(ts, f, wi, oi, cs, t, w, o);
  }

  /** `parser_select` for a WHERE without ORDER, once the keyword
      positions are known. */
  lemma SelectWherePorIndices(ts: seq<string>, f: nat, w: nat,
                              cs: seq<string>, t: string, wc: seq<string>)
    requires |ts| > 0 && Mayusculas(ts[0]) == "SELECT" && OrdenTrasWhere(ts)
    requires ObtenerIndice(ts, "FROM") == Some(f) && f + 1 < |ts|
    requires ObtenerIndice(ts, "WHERE") == Some(w) && ObtenerIndice(ts, "ORDER") == None
    requires ts[1..f] == cs && ts[f + 1] == t && ts[w + 1..] == wc
    ensures ParserSelect(ts) == Ok(Select(CamposSelect(cs), t, Join(wc, " "), []))
  {
    var cl := ClausulasSelect(ts, ObtenerIndice(ts, "WHERE"), ObtenerIndice(ts, "ORDER"));
    assert cl == Ok((Join(wc, " "), [])) by {
      assert cl == ClausulasSelect(ts, Some(w), None);
    }
  }

  /** Where the keywords of `SELECT cs... FROM t WHERE w...` sit. */
  lemma ClavesSelectWhere(cs: seq<string>, t: string, w: seq<string>)
    requires SinClave(cs, "FROM") && SinClave(cs, "WHERE") && SinClave(cs, "ORDER")
    requires Mayusculas(t) != "WHERE" && Mayusculas(t) != "ORDER" && SinClave(w, "ORDER")
    ensures var ts := ["SELECT"] + cs + ["FROM", t, "WHERE"] + w;
      && ObtenerIndice(ts, "FROM") == Some(|cs| + 1)
      && ObtenerIndice(ts, "WHERE") == Some(|cs| + 3)
      && ObtenerIndice(ts, "ORDER") == None
  {
    var ts := ["SELECT"] + cs + ["FROM", t, "WHERE"] + w;
    assert ObtenerIndice(ts, "FROM") == Some(|cs| + 1) by {
      Claves();
      assert ts == ["SELECT"] + cs + ["FROM"] + ([t, "WHERE"] + w);
      PrimeraClave(["SELECT"], cs, "FROM", [t, "WHERE"] + w, "FROM");
    }
    assert ObtenerIndice(ts, "WHERE") == Some(|cs| + 3) by {
      Claves();
      assert ts == ["SELECT"] + cs + ["FROM"] + [t] + ["WHERE"] + w;
      SegundaClave(["SELECT"], cs, ["FROM"], [t], "WHERE", w, "WHERE");
    }
    assert ObtenerIndice(ts, "ORDER") == None by {
      Claves();
      assert ts == ["SELECT"] + cs + ["FROM", t] + ["WHERE"] + w + [];
      SinClaveDos("FROM", t, "ORDER");
      assert SinClave(["SELECT"], "ORDER") && SinClave(["WHERE"], "ORDER");
      Ausente(["SELECT"], cs, ["FROM", t], ["WHERE"], w, [], "ORDER");
    }
  }

  /** `SELECT cs... FROM t WHERE w...`: the WHERE clause is every token
      after WHERE, space-joined, and there is no order clause. */
  lemma SelectConWhere(cs: seq<string>, t: string, w: seq<string>)
    requires SinClave(cs, "FROM") && SinClave(cs, "WHERE") && SinClave(cs, "ORDER")
    requires Mayusculas(t) != "WHERE" && Mayusculas(t) != "ORDER" && SinClave(w, "ORDER")
    ensures OrdenTrasWhere(["SELECT"] + cs + ["FROM", t, "WHERE"] + w)
    ensures ParserSelect(["SELECT"] + cs + ["FROM", t, "WHERE"] + w)
            == Ok(Select(CamposSelect(cs), t, Join(w, " "), []))
  {
    var ts := ["SELECT"] + cs + ["FROM", t, "WHERE"] + w;
    ClavesSelectWhere(cs, t, w);
    assert ts[1..|cs| + 1] == cs && ts[|cs| + 2] == t && ts[|cs| + 4..] == w;
    assert Mayusculas(ts[0]) == "SELECT" by { Claves(); }
    SelectWherePorIndices(ts, |cs| + 1, |cs| + 3, cs, t, w);
  }

  /** An ORDER with no tokens after it is a syntax error, whatever else the
      query holds. */
  lemma SelectOrdenIncompleto(ts: seq<string>)
    requires |ts| > 0 && Mayusculas(ts[0]) == "SELECT" && OrdenTrasWhere(ts)
    requires ObtenerIndice(ts, "ORDER").Some? && ObtenerIndice(ts, "ORDER").value + 2 > |ts|
    ensures ParserSelect(ts) == Err(InvalidSyntax)
  {
  }

  // =====================================================================
  // INSERT

  /** A column name as an INSERT lists it: non-empty, no whitespace and none
      of `,`, `(`, `)`. */
  predicate Columna(n: string) {
    EsPalabra(n) && forall i :: 0 <= i < |n| ==> n[i] != ',' && n[i] != '(' && n[i] != ')'
  }

  /** A join starts with its first piece. */
  lemma JoinEmpieza(ns: seq<string>, sep: string)
    requires |ns| > 0
    ensures |ns[0]| <= |Join(ns, sep)| && Join(ns, sep)[..|ns[0]|] == ns[0]
  {
  }

  /** A join ends with its last piece. */
  lemma {:induction false} JoinTermina(ns: seq<string>, sep: string)
    requires |ns| > 0
    ensures var j := Join(ns, sep); var u := ns[|ns| - 1];
      |u| <= |j| && j[|j| - |u|..] == u
    decreases |ns|
  {
    if |ns| > 1 {
      JoinTermina(ns[1..], sep);
      assert ns[1..][|ns[1..]| - 1] == ns[|ns| - 1];
    }
  }

  /** Putting a prefix before the first piece puts it before the join. */
  lemma JoinConPrefijo(p: string, a: string, resto: seq<string>, sep: string)
    ensures Join([p + a] + resto, sep) == p + Join([a] + resto, sep)
  {
    if |resto| > 0 {
      assert ([p + a] + resto)[1..] == resto;
      assert ([a] + resto)[1..] == resto;
    }
  }

  /** `a, b, c` is `a`, ` b` and ` c` joined by commas. */
  lemma {:induction false} JoinComaEspacio(ns: seq<string>)
    requires |ns| > 0
    ensures Join(ns, ", ") == Join([ns[0]] + Ejecutor.ConEspacio(ns[1..]), ",")
    decreases |ns|
  {
    if |ns| > 1 {
      var resto := Ejecutor.ConEspacio(ns[2..]);
      JoinComaEspacio(ns[1..]);
      assert ns[1..][1..] == ns[2..];
      assert Ejecutor.ConEspacio(ns[1..]) == [" " + ns[1]] + resto;
      JoinConPrefijo(" ", ns[1], resto, ",");
      assert ([ns[0]] + Ejecutor.ConEspacio(ns[1..]))[1..] == Ejecutor.ConEspacio(ns[1..]);
    }
  }

  /** A text with no comma does not end in `, `. */
  lemma SufijoSinComa(x: string)
    requires forall i :: 0 <= i < |x| ==> x[i] != ','
    ensures RecortarSufijo(x, ", ") == x
  {
    if 2 <= |x| {
      assert x[|x| - 2..][0] == x[|x| - 2];
    }
  }

  lemma TrimColumna(pre: string, n: string)
    requires Columna(n) && (pre == "" || pre == " ")
    ensures Trim(pre + n) == n
  {
    if pre == " " {
      EjecutorPropiedades.RecortarInicioUno(' ', n, Espacios);
      EjecutorPropiedades.RecortarFinNada(n, Espacios);
    } else {
      assert pre + n == n;
      EjecutorPropiedades.TrimSinBordes(n);
    }
  }

  /** A listed column, with or without the space after its comma, comes
      back as the bare name. */
  lemma PiezaColumna(pre: string, n: string)
    requires Columna(n) && (pre == "" || pre == " ")
    ensures Trim(RecortarSufijo(pre + n, ", ")) == n
  {
    assert forall i :: 0 <= i < |pre + n| ==> (pre + n)[i] != ',' by {
      forall i | 0 <= i < |pre + n| ensures (pre + n)[i] != ',' {
        if i >= |pre| {
          assert (pre + n)[i] == n[i - |pre|];
        }
      }
    }
    SufijoSinComa(pre + n);
    TrimColumna(pre, n);
  }

  lemma SinParentesisInicial(x: string)
    requires |x| > 0 && x[0] != '('
    ensures RecortarPrefijo("(" + x + ")", "(") == x + ")"
  {
    var s1 := x + ")";
    assert s1[..1] == [x[0]];
    RecortarPrefijoUnaVez("(", s1);
    assert "(" + x + ")" == "(" + s1;
  }

  lemma SinParentesisFinal(x: string)
    requires |x| > 0 && x[|x| - 1] != ')'
    ensures RecortarSufijo(x + ")", ")") == x
  {
    assert (x + ")")[|x + ")"| - 1..] == ")";
    assert (x + ")")[..|x|] == x;
    assert x[|x| - 1..] == [x[|x| - 1]];
  }

  /** The parentheses around a column list come off. */
  lemma ParentesisDeLista(ns: seq<string>)
    requires |ns| > 0 && forall k :: 0 <= k < |ns| ==> Columna(ns[k])
    ensures RecortarSufijo(RecortarPrefijo("(" + Join(ns, ", ") + ")", "("), ")") == Join(ns, ", ")
  {
    var x := Join(ns, ", ");
    var u := ns[|ns| - 1];
    JoinEmpieza(ns, ", ");
    JoinTermina(ns, ", ");
    assert x[0] == ns[0][0];
    assert x[|x| - 1] == u[|u| - 1];
    SinParentesisInicial(x);
    SinParentesisFinal(x);
  }

  /** Cutting `a, b, c` at its commas leaves `a`, ` b`, ` c`. */
  lemma PiezasDeLista(ns: seq<string>)
    requires |ns| > 0 && forall k :: 0 <= k < |ns| ==> Columna(ns[k])
    ensures Split(Join(ns, ", "), ',') == [ns[0]] + Ejecutor.ConEspacio(ns[1..])
  {
    JoinComaEspacio(ns);
    PiezasSinComa(ns);
    SplitJoin([ns[0]] + Ejecutor.ConEspacio(ns[1..]), ',');
  }

  lemma PiezasSinComa(ns: seq<string>)
    requires |ns| > 0 && forall k :: 0 <= k < |ns| ==> Columna(ns[k])
    ensures forall k :: 0 <= k < |ns| ==> ',' !in ([ns[0]] + Ejecutor.ConEspacio(ns[1..]))[k]
  {
    var ps := [ns[0]] + Ejecutor.ConEspacio(ns[1..]);
    forall k | 0 <= k < |ps| ensures ',' !in ps[k] {
      if k > 0 {
        assert ps[k] == " " + ns[k];
      }
    }
  }

  /** The column list of `INSERT INTO t (a, b, c) VALUES ...` is `a`, `b`,
      `c`, however the list's text falls into tokens. */
  lemma ColumnasDeLista(cs: seq<string>, ns: seq<string>)
    requires |ns| > 0 && forall k :: 0 <= k < |ns| ==> Columna(ns[k])
    requires Join(cs, " ") == "(" + Join(ns, ", ") + ")"
    ensures ColumnasInto(cs) == ns
  {
    var ps := [ns[0]] + Ejecutor.ConEspacio(ns[1..]);
    assert Split(RecortarSufijo(RecortarPrefijo(Join(cs, " "), "("), ")"), ',') == ps by {
      ParentesisDeLista(ns);
      PiezasDeLista(ns);
    }
    PiezasLimpias(ns);
  }

  /** Each piece of a `, `-joined list cleans to its name. */
  lemma PiezasLimpias(ns: seq<string>)
    requires |ns| > 0 && forall k :: 0 <= k < |ns| ==> Columna(ns[k])
    ensures var ps := [ns[0]] + Ejecutor.ConEspacio(ns[1..]);
            |ps| == |ns| && forall k :: 0 <= k < |ps| ==> Trim(RecortarSufijo(ps[k], ", ")) == ns[k]
  {
    var ps := [ns[0]] + Ejecutor.ConEspacio(ns[1..]);
    forall k | 0 <= k < |ps| ensures Trim(RecortarSufijo(ps[k], ", ")) == ns[k] {
      if k == 0 {
        PiezaColumna("", ns[0]);
        assert "" + ns[0] == ns[0];
      } else {
        assert ps[k] == " " + ns[k];
        PiezaColumna(" ", ns[k]);
      }
    }
  }

  /** `INSERT INTO t cs... VALUES vs...`: the table, the column tokens'
      list and the raw value tokens. */
  lemma InsertValido(t: string, cs: seq<string>, vs: seq<string>)
    requires Mayusculas(t) != "INTO" && Mayusculas(t) != "VALUES"
    requires |cs| > 0 && SinClave(cs, "INTO") && SinClave(cs, "VALUES")
    ensures ParserInsert(["INSERT", "INTO", t] + cs + ["VALUES"] + vs)
            == Ok(Insert(t, ColumnasInto(cs), vs))
  {
    var ts := ["INSERT", "INTO", t] + cs + ["VALUES"] + vs;
    MayusculasDeMayusculas("INSERT");
    MayusculasDeMayusculas("INTO");
    MayusculasDeMayusculas("VALUES");
    assert ts == ["INSERT"] + ["INTO"] + ([t] + cs + ["VALUES"] + vs);
    IndiceTras(["INSERT"], "INTO", [t] + cs + ["VALUES"] + vs, "INTO");
    var pre := ["INSERT", "INTO", t] + cs;
    assert ts == pre + ["VALUES"] + vs;
    assert SinClave(pre, "VALUES") by {
      forall k | 0 <= k < |pre| ensures Mayusculas(pre[k]) != "VALUES" {
        if k >= 3 {
          assert pre[k] == cs[k - 3];
        }
      }
    }
    IndiceTras(pre, "VALUES", vs, "VALUES");
    assert ts[3..|pre|] == cs;
    assert ts[|pre| + 1..] == vs;
  }

  /** With no column list between the table and VALUES the insert is
      rejected. */
  lemma InsertSinColumnas(t: string, vs: seq<string>)
    requires Mayusculas(t) != "INTO" && Mayusculas(t) != "VALUES"
    ensures ParserInsert(["INSERT", "INTO", t, "VALUES"] + vs) == Err(InvalidSyntax)
  {
    MayusculasDeMayusculas("INSERT");
    MayusculasDeMayusculas("INTO");
    MayusculasDeMayusculas("VALUES");
    assert ["INSERT", "INTO", t, "VALUES"] + vs == ["INSERT", "INTO", t] + ["VALUES"] + vs;
    IndiceTras(["INSERT", "INTO", t], "VALUES", vs, "VALUES");
  }

  // =====================================================================
  // From the text

  /** A blank text has no words. */
  lemma {:induction false} PalabrasEnBlanco(c: string)
    requires forall i :: 0 <= i < |c| ==> EsEspacio(c[i])
    ensures Palabras(c) == []
    decreases |c|
  {
    if |c| > 0 {
      PalabrasEnBlanco(c[1..]);
    }
  }

  /** An empty or blank query is a syntax error. */
  lemma ParsearEnBlanco(c: string)
    requires forall i :: 0 <= i < |c| ==> EsEspacio(c[i])
    ensures Palabras(c) == []
    ensures Parsear(c) == Err(InvalidSyntax)
  {
    PalabrasEnBlanco(c);
  }

  /** A query written as words separated by single spaces is parsed from
      exactly those words. */
  lemma ParsearDePalabras(ws: seq<string>)
    requires |ws| > 0 && forall k :: 0 <= k < |ws| ==> EsPalabra(ws[k])
    requires Mayusculas(ws[0]) == "SELECT" ==> OrdenTrasWhere(ws)
    ensures Palabras(Join(ws, " ")) == ws
    ensures Parsear(Join(ws, " ")) == Despachar(ws)
  {
    PalabrasDeJoin(ws);
  }

  lemma PalabrasDeUpdate(t: string, s: seq<string>, w: seq<string>)
    requires EsPalabra(t)
    requires forall k :: 0 <= k < |s| ==> EsPalabra(s[k])
    requires forall k :: 0 <= k < |w| ==> EsPalabra(w[k])
    ensures var ts := ["UPDATE", t, "SET"] + s + ["WHERE"] + w;
      forall k :: 0 <= k < |ts| ==> EsPalabra(ts[k])
  {
    var ts := ["UPDATE", t, "SET"] + s + ["WHERE"] + w;
    forall k | 0 <= k < |ts| ensures EsPalabra(ts[k]) {
      if 3 <= k < 3 + |s| {
        assert ts[k] == s[k - 3];
      } else if k > 3 + |s| {
        assert ts[k] == w[k - 4 - |s|];
      }
    }
  }

  /** `UPDATE t SET s... WHERE w...` as text: the SET and WHERE clauses come
      back as written. */
  lemma ParsearUpdate(t: string, s: seq<string>, w: seq<string>)
    requires EsPalabra(t) && Mayusculas(t) != "SET" && Mayusculas(t) != "WHERE"
    requires |s| > 0 && |w| > 0 && SinClave(s, "WHERE")
    requires forall k :: 0 <= k < |s| ==> EsPalabra(s[k])
    requires forall k :: 0 <= k < |w| ==> EsPalabra(w[k])
    ensures Mayusculas("UPDATE") == "UPDATE"
    ensures Palabras(Join(["UPDATE", t, "SET"] + s + ["WHERE"] + w, " "))
            == ["UPDATE", t, "SET"] + s + ["WHERE"] + w
    ensures Parsear(Join(["UPDATE", t, "SET"] + s + ["WHERE"] + w, " "))
            == Ok(Update(t, Join(s, " "), Join(w, " ")))
  {
    var ts := ["UPDATE", t, "SET"] + s + ["WHERE"] + w;
    PalabrasDeUpdate(t, s, w);
    MayusculasDeMayusculas("UPDATE");
    ParsearDePalabras(ts);
    UpdateConWhere(t, s, w);
  }
}
