/** The command parsers: a query's text is cut into whitespace-separated
    tokens and, by its first word, parsed by keyword positions into one of
    the four commands. */
module Comandos {
  import opened Resultados
  import opened Cadenas

  /** A parsed command. The WHERE clause travels as text (its tokens joined
      by single spaces); INSERT keeps its raw value tokens and SELECT its
      ORDER BY tokens. */
  datatype Comando =
    | Insert(tabla: string, into: seq<string>, valores: seq<string>)
    | Update(tabla: string, clausulaSet: string, clausulaWhere: string)
    | Delete(tabla: string, clausulaWhere: string)
    | Select(campos: seq<string>, tabla: string, clausulaWhere: string, clausulaOrden: seq<string>)

  /** `obtener_indice`: the first position whose uppercased token is the
      keyword (see `ComandosPropiedades.ObtenerIndiceCorrecto`). */
  function ObtenerIndice(ts: seq<string>, palabra: string): (r: Option<nat>)
    ensures r.Some? ==> r.value < |ts|
    decreases |ts|
  {
    if |ts| == 0 then None
    else if Mayusculas(ts[0]) == palabra then Some(0)
    else match ObtenerIndice(ts[1..], palabra)
      case None => None
      case Some(k) => Some(k + 1)
  }

  /** `eliminar_punto_y_coma`: drop the tokens that are exactly `;`. */
  function EliminarPuntoYComa(ts: seq<string>): (r: seq<string>)
    ensures |r| <= |ts|
    decreases |ts|
  {
    if |ts| == 0 then []
    else
      if ts[0] == ";" then EliminarPuntoYComa(ts[1..])
      else [ts[0]] + EliminarPuntoYComa(ts[1..])
  }

  // =====================================================================
  // Dispatch

  /** The SELECT shape whose slicing would panic: a WHERE after an ORDER
      that has a token after it. */
  predicate OrdenTrasWhere(ts: seq<string>) {
    var w := ObtenerIndice(ts, "WHERE");
    var o := ObtenerIndice(ts, "ORDER");
    w.Some? && o.Some? && o.value + 2 <= |ts| ==> w.value < o.value
  }

  /** The command's first word decides which parser runs. */
  function Despachar(ts: seq<string>): (r: Result<Comando>)
    requires |ts| > 0
    requires Mayusculas(ts[0]) == "SELECT" ==> OrdenTrasWhere(ts)
    ensures r.Err? ==> r.error == InvalidSyntax
    ensures r.Ok? ==> Mayusculas(ts[0]) in {"INSERT", "UPDATE", "DELETE", "SELECT"}
    ensures r.Ok? ==> && (r.value.Insert? <==> Mayusculas(ts[0]) == "INSERT")
                      && (r.value.Update? <==> Mayusculas(ts[0]) == "UPDATE")
                      && (r.value.Delete? <==> Mayusculas(ts[0]) == "DELETE")
                      && (r.value.Select? <==> Mayusculas(ts[0]) == "SELECT")
  {
    var u := Mayusculas(ts[0]);
    if u == "INSERT" then ParserInsert(ts)
    else if u == "UPDATE" then ParserUpdate(ts)
    else if u == "DELETE" then ParserDelete(ts)
    else if u == "SELECT" then ParserSelect(ts)
    else Err(InvalidSyntax)
  }

  /** `parsear`: blank input is a syntax error; otherwise dispatch on the
      first word, case-insensitively. */
  function Parsear(comando: string): (r: Result<Comando>)
    requires |Palabras(comando)| > 0 && Mayusculas(Palabras(comando)[0]) == "SELECT"
             ==> OrdenTrasWhere(Palabras(comando))
    ensures |Palabras(comando)| == 0 ==> r == Err(InvalidSyntax)
    ensures r.Err? ==> r.error == InvalidSyntax
  {
    var ts := Palabras(comando);
    if |ts| == 0 then Err(InvalidSyntax) else Despachar(ts)
  }

  // =====================================================================
  // INSERT

  /** The column list of an INSERT: its tokens joined by spaces, leading `(`
      and trailing `)` removed, cut at commas, each piece trimmed. */
  function ColumnasInto(ts: seq<string>): (r: seq<string>)
    ensures |r| == |Split(RecortarSufijo(RecortarPrefijo(Join(ts, " "), "("), ")"), ',')|
  {
    var recortadas := RecortarSufijo(RecortarPrefijo(Join(ts, " "), "("), ")");
    var piezas := Split(recortadas, ',');
    seq(|piezas|, k requires 0 <= k < |piezas| => Trim(RecortarSufijo(piezas[k], ", ")))
  }

  /** `parser_insert`: INTO must be the second token and VALUES must leave
      at least one token between the table and itself. */
  function ParserInsert(ts: seq<string>): (r: Result<Comando>)
    ensures r.Err? ==> r.error == InvalidSyntax
    ensures r.Ok? <==> ObtenerIndice(ts, "INTO") == Some(1)
                       && ObtenerIndice(ts, "VALUES").Some?
                       && ObtenerIndice(ts, "VALUES").value > 3
    ensures r.Ok? ==> r.value.Insert? && r.value.tabla == ts[2]
                      && r.value.valores == ts[ObtenerIndice(ts, "VALUES").value + 1..]
  {
    match (ObtenerIndice(ts, "INTO"), ObtenerIndice(ts, "VALUES"))
    case (Some(i), Some(v)) =>
      if i != 1 || v <= i + 2 then Err(InvalidSyntax)
      else Ok(Insert(ts[i + 1], ColumnasInto(ts[i + 2..v]), ts[v + 1..]))
    case _ => Err(InvalidSyntax)
  }

  // =====================================================================
  // UPDATE

  /** `parser_update`. An absent WHERE reads as position 0, so the SET
      clause is then everything after SET, possibly nothing. With a WHERE,
      SET must come first and both clauses must be non-empty. */
  function ParserUpdate(ts: seq<string>): (r: Result<Comando>)
    requires |ts| > 0 && Mayusculas(ts[0]) == "UPDATE"
    ensures r.Err? ==> r.error == InvalidSyntax
    ensures ObtenerIndice(ts, "SET").None? ==> r.Err?
    ensures ObtenerIndice(ts, "SET").Some? && ObtenerIndice(ts, "WHERE").Some? ==>
              (r.Ok? <==> ObtenerIndice(ts, "SET").value < ObtenerIndice(ts, "WHERE").value
                          && ObtenerIndice(ts, "WHERE").value + 1 < |ts|)
    ensures ObtenerIndice(ts, "SET").Some? && ObtenerIndice(ts, "WHERE").None? ==> r.Ok?
    ensures r.Ok? ==> r.value.Update? && r.value.tabla == ts[1]
  {
    match ObtenerIndice(ts, "SET")
    case None => Err(InvalidSyntax)
    case Some(s) =>
      var w := match ObtenerIndice(ts, "WHERE") case None => 0 case Some(k) => k;
      if w == 0 then Ok(Update(ts[1], Join(ts[s + 1..], " "), ""))
      else if s >= w || s + 1 >= |ts| || w + 1 >= |ts| then Err(InvalidSyntax)
      else Ok(Update(ts[1], Join(ts[s + 1..w], " "), Join(ts[w + 1..], " ")))
  }

  // =====================================================================
  // DELETE

  /** `parser_delete`: `DELETE FROM tabla [WHERE ...]`; the table loses
      trailing `;`s. */
  function ParserDelete(ts: seq<string>): (r: Result<Comando>)
    ensures r.Err? ==> r.error == InvalidSyntax
    ensures r.Ok? <==> |ts| >= 3 && Mayusculas(ts[1]) == "FROM"
    ensures r.Ok? ==> r.value.Delete?
                      && r.value.tabla == RecortarSufijo(RecortarFin(ts[2], {';'}), " ;")
  {
    if |ts| < 3 || Mayusculas(ts[1]) != "FROM" then Err(InvalidSyntax)
    else
      var tabla := RecortarSufijo(RecortarFin(ts[2], {';'}), " ;");
      match ObtenerIndice(ts, "WHERE")
      case None => Ok(Delete(tabla, ""))
      case Some(w) =>
        if w + 1 > |ts| then Err(InvalidSyntax)
        else Ok(Delete(tabla, Join(ts[w + 1..], " ")))
  }

  // =====================================================================
  // SELECT

  /** A field as SELECT lists it: leading spaces and trailing commas off. */
  function LimpiarCampo(t: string): string {
    RecortarFin(RecortarPrefijo(t, " "), {','})
  }

  /** The fields between SELECT and FROM, cleaned, blank ones dropped. */
  function CamposSelect(ts: seq<string>): (r: seq<string>)
    ensures |r| <= |ts|
    decreases |ts|
  {
    if |ts| == 0 then []
    else
      var c := LimpiarCampo(ts[0]);
      if Trim(c) == "" then CamposSelect(ts[1..]) else [c] + CamposSelect(ts[1..])
  }

  /** The WHERE and ORDER BY clauses of `parser_select`, given where the
      two keywords sit. ORDER needs a token after it (the `BY`). */
  function ClausulasSelect(ts: seq<string>, w: Option<nat>, o: Option<nat>): (r: Result<(string, seq<string>)>)
    requires w.Some? ==> w.value < |ts|
    requires w.Some? && o.Some? && o.value + 2 <= |ts| ==> w.value < o.value
    ensures r.Err? <==> o.Some? && o.value + 2 > |ts|
    ensures r.Err? ==> r.error == InvalidSyntax
  {
    match (w, o)
    case (Some(w), Some(o)) =>
      if o + 2 <= |ts| then Ok((Join(ts[w + 1..o], " "), EliminarPuntoYComa(ts[o + 2..])))
      else Err(InvalidSyntax)
    case (Some(w), None) => Ok((Join(ts[w + 1..], " "), []))
    case (None, Some(o)) =>
      if o + 2 <= |ts| then Ok(("", ts[o + 2..]))
      else Err(InvalidSyntax)
    case (None, None) => Ok(("", []))
  }

  /** `parser_select`. FROM must exist and be followed by the table. The
      tokens after `ORDER BY` are the order clause (stripped of `;` tokens
      only when there is also a WHERE); the WHERE clause runs up to ORDER or
      to the end. */
  function ParserSelect(ts: seq<string>): (r: Result<Comando>)
    requires |ts| > 0 && Mayusculas(ts[0]) == "SELECT" && OrdenTrasWhere(ts)
    ensures r.Err? ==> r.error == InvalidSyntax
    ensures ObtenerIndice(ts, "FROM").None? ==> r.Err?
    ensures r.Ok? ==> r.value.Select? && ObtenerIndice(ts, "FROM").value + 1 < |ts|
                      && r.value.tabla == ts[ObtenerIndice(ts, "FROM").value + 1]
                      && r.value.campos == CamposSelect(ts[1..ObtenerIndice(ts, "FROM").value])
  {
    match ObtenerIndice(ts, "FROM")
    case None => Err(InvalidSyntax)
    case Some(f) =>
      var campos := CamposSelect(ts[1..f]);
      if f + 1 >= |ts| then Err(InvalidSyntax)
      else
        var tabla := ts[f + 1];
        var clausulas :- ClausulasSelect(ts, ObtenerIndice(ts, "WHERE"), ObtenerIndice(ts, "ORDER"));
        Ok(Select(campos, tabla, clausulas.0, clausulas.1))
  }
}
