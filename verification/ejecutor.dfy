/** The executor's shared helpers: the table path, the column index map,
    the regrouping of quoted words, the cleaning of a value list, and the
    WHERE tokenizer that turns a clause's text into the token list the
    compiler consumes. */
module Ejecutor {
  import opened Cadenas

  // =====================================================================
  // Table path and column index

  /** `crear_ruta`: the CSV file of table `tabla` inside directory `ruta`.
      The table name sits between the directory's `/` and the `.csv`. */
  function CrearRuta(ruta: string, tabla: string): (r: string)
    ensures |r| == |ruta| + |tabla| + 5
    ensures r[..|ruta|] == ruta && r[|ruta|] == '/'
    ensures r[|ruta| + 1..|r| - 4] == tabla
    ensures r[|r| - 4..] == ".csv"
  {
    ruta + "/" + tabla + ".csv"
  }

  /** `obtener_indices_columnas`: each header name mapped to its position;
      a name that occurs twice keeps its last position, because later
      inserts overwrite earlier ones. */
  function ObtenerIndicesColumnas(cols: seq<string>): (m: map<string, nat>)
    ensures m.Keys == set i | 0 <= i < |cols| :: cols[i]
    ensures forall c :: c in m ==> m[c] < |cols| && cols[m[c]] == c
    ensures forall c, j :: c in m && m[c] < j < |cols| ==> cols[j] != c
    decreases |cols|
  {
    if |cols| == 0 then map[]
    else ObtenerIndicesColumnas(cols[..|cols| - 1])[cols[|cols| - 1] := |cols| - 1]
  }

  // =====================================================================
  // Regrouping quoted words (`juntar_words`)

  /** The loop state of `juntar_words`: finished words, the open group and
      whether a group is open. */
  datatype Agrupando = Agrupando(nueva: seq<string>, aux: seq<string>, centinela: bool)

  /** One iteration of `juntar_words`. A fully quoted word is emitted without
      its quotes, even while a group is open; an opening word starts a group;
      a closing word ends the group, space-joined; a plain word inside a group
      is stored with a leading space. */
  function PasoJuntar(e: Agrupando, palabra: string): (r: Agrupando)
    ensures |e.nueva| <= |r.nueva| && r.nueva[..|e.nueva|] == e.nueva
    ensures |r.nueva| + |r.aux| <= |e.nueva| + |e.aux| + 1
  {
    if EmpiezaCon(palabra, '\'') && TerminaCon(palabra, '\'') then
      e.(nueva := e.nueva + [SinComillas(palabra)])
    else if EmpiezaCon(palabra, '\'') then
      e.(aux := e.aux + [palabra], centinela := true)
    else if TerminaCon(palabra, '\'') then
      Agrupando(e.nueva + [Join(e.aux + [palabra], " ")], [], false)
    else if e.centinela then
      e.(aux := e.aux + [" " + palabra])
    else
      e.(nueva := e.nueva + [palabra])
  }

  /** The loop over all words: finished words only grow, and every input
      word accounts for at most one finished or pending entry. */
  function RecorrerJuntar(e: Agrupando, ws: seq<string>): (r: Agrupando)
    ensures |e.nueva| <= |r.nueva| && r.nueva[..|e.nueva|] == e.nueva
    ensures |r.nueva| + |r.aux| <= |e.nueva| + |e.aux| + |ws|
    decreases |ws|
  {
    if |ws| == 0 then e
    else
      var p := PasoJuntar(e, ws[0]);
      var r := RecorrerJuntar(p, ws[1..]);
      PrefijoDePrefijo(e.nueva, p.nueva, r.nueva);
      r
  }

  lemma PrefijoDePrefijo<T>(a: seq<T>, b: seq<T>, c: seq<T>)
    requires |a| <= |b| <= |c| && b[..|a|] == a && c[..|b|] == b
    ensures c[..|a|] == a
  {
    assert c[..|a|] == c[..|b|][..|a|];
  }

  /** `juntar_words`: a group still open at the end is dropped. */
  function JuntarWords(ws: seq<string>): (r: seq<string>)
    ensures |r| <= |ws|
  {
    RecorrerJuntar(Agrupando([], [], false), ws).nueva
  }

  /** A word that neither opens nor closes a quoted group. */
  predicate SinBordeComilla(w: string) {
    !EmpiezaCon(w, '\'') && !TerminaCon(w, '\'')
  }

  /** The inner words of a group, as `juntar_words` stores them. */
  function ConEspacio(ws: seq<string>): (r: seq<string>)
    ensures |r| == |ws|
    ensures forall k :: 0 <= k < |ws| ==> r[k] == " " + ws[k]
  {
    seq(|ws|, k requires 0 <= k < |ws| => " " + ws[k])
  }

  // =====================================================================
  // Value lists (`limpiar_lista`)

  /** `limpiar_lista`: trim, drop leading `(` and `'`, trailing `;`, `,`,
      `'` and `)` (in that order), split on commas, trim the pieces and
      regroup quoted words. */
  function LimpiarLista(linea: string): seq<string> {
    LimpiarPiezas(LimpiarBordes(linea))
  }

  /** Split on commas, trim each piece, regroup quoted words. */
  function LimpiarPiezas(t: string): seq<string> {
    JuntarWords(RecortarTodos(Split(t, ',')))
  }

  /** The trims `limpiar_lista` applies to the whole text. */
  function LimpiarBordes(linea: string): string {
    QuitarDelimitadores(Trim(linea))
  }

  /** Leading `(` and `'`, then trailing `;`, `,`, `'` and `)`. */
  function QuitarDelimitadores(t: string): string {
    var inicio := RecortarInicio(RecortarInicio(t, {'('}), {'\''});
    RecortarFin(RecortarFin(RecortarFin(RecortarFin(inicio, {';'}), {','}), {'\''}), {')'})
  }

  // =====================================================================
  // WHERE tokenizer (`agrupar_expresiones`, `agrupar_condicionales`)

  /** The tokenizer's loop state: tokens emitted, the token being built and
      whether the scan is between single quotes. */
  datatype Escaneo = Escaneo(resultado: seq<string>, token: string, enComillas: bool)

  const Inicial := Escaneo([], "", false)

  predicate EsOperadorChar(c: char) {
    c == '>' || c == '<' || c == '='
  }

  /** Emit the pending token, if any. */
  function Vaciar(e: Escaneo): (r: Escaneo)
    ensures r.token == "" && r.enComillas == e.enComillas
    ensures r.resultado == if e.token == "" then e.resultado else e.resultado + [e.token]
  {
    if |e.token| > 0 then e.(resultado := e.resultado + [e.token], token := "") else e
  }

  /** One iteration of the scan loop at position `i < |q|`: the position
      after it and the new state. A comparison character followed by `=`
      consumes both. */
  function Paso(q: string, i: nat, e: Escaneo): (r: (nat, Escaneo))
    requires i < |q|
    ensures i < r.0 <= |q|
  {
    var c := q[i];
    if c == '\'' then (i + 1, e.(token := e.token + [c], enComillas := !e.enComillas))
    else if e.enComillas then (i + 1, e.(token := e.token + [c]))
    else if EsEspacio(c) then (i + 1, Vaciar(e))
    else if c == '(' || c == ')' then
      var v := Vaciar(e);
      (i + 1, v.(resultado := v.resultado + [[c]]))
    else if EsOperadorChar(c) then
      var v := Vaciar(e);
      if i + 1 < |q| && q[i + 1] == '=' then (i + 2, v.(resultado := v.resultado + [[c, '=']]))
      else (i + 1, v.(resultado := v.resultado + [[c]]))
    else (i + 1, e.(token := e.token + [c]))
  }

  /** The scan of `agrupar_expresiones` from position `i`; at the end the
      pending token is emitted. */
  function Escanear(q: string, i: nat, e: Escaneo): seq<string>
    requires i <= |q|
    decreases |q| - i
  {
    if i == |q| then Vaciar(e).resultado
    else
      var (j, e2) := Paso(q, i, e);
      Escanear(q, j, e2)
  }

  /** `agrupar_expresiones` before the triples are merged, as the while loop
      of the source computes it. */
  method Tokenizar(q: string) returns (tokens: seq<string>)
    ensures tokens == Escanear(q, 0, Inicial)
  {
    var resultado: seq<string> := [];
    var token := "";
    var enComillas := false;
    var i := 0;
    while i < |q|
      invariant i <= |q|
      invariant Escanear(q, i, Escaneo(resultado, token, enComillas)) == Escanear(q, 0, Inicial)
      decreases |q| - i
    {
      ghost var antes := Escaneo(resultado, token, enComillas);
      var c := q[i];
      if c == '\'' {
        enComillas := !enComillas;
        token := token + [c];
      } else if enComillas {
        token := token + [c];
      } else if EsEspacio(c) {
        if token != "" {
          resultado := resultado + [token];
          token := "";
        }
        assert Escaneo(resultado, token, enComillas) == Vaciar(antes);
      } else if c == '(' || c == ')' {
        if token != "" {
          resultado := resultado + [token];
          token := "";
        }
        resultado := resultado + [[c]];
      } else if EsOperadorChar(c) {
        if token != "" {
          resultado := resultado + [token];
          token := "";
        }
        ghost var v := Vaciar(antes);
        assert v == Escaneo(resultado, token, enComillas);
        token := [c];
        if i + 1 < |q| && q[i + 1] == '=' {
          token := token + [q[i + 1]];
          assert token == [c, '='];
          assert Escanear(q, i, antes) == Escanear(q, i + 2, v.(resultado := v.resultado + [token]));
          i := i + 1;
        } else {
          assert Escanear(q, i, antes) == Escanear(q, i + 1, v.(resultado := v.resultado + [token]));
        }
        resultado := resultado + [token];
        token := "";
      } else {
        token := token + [c];
      }
      i := i + 1;
    }
    if token != "" {
      resultado := resultado + [token];
    }
    tokens := resultado;
  }

  /** The comparison symbols `agrupar_condicionales` recognises. */
  predicate EsOperador(t: string) {
    t == ">" || t == "<" || t == "=" || t == ">=" || t == "<="
  }

  /** `agrupar_condicionales`: every `x op y` triple becomes one token
      `"x op y"`; the scan resumes after the triple. */
  function AgruparCondicionales(ts: seq<string>): (r: seq<string>)
    ensures |r| <= |ts|
    ensures |ts| > 0 ==> |r| > 0
    decreases |ts|
  {
    if |ts| == 0 then []
    else if 2 < |ts| && EsOperador(ts[1]) then
      [ts[0] + " " + ts[1] + " " + ts[2]] + AgruparCondicionales(ts[3..])
    else [ts[0]] + AgruparCondicionales(ts[1..])
  }

  /** `adaptar_where` of the executor: the clause's text as the token list
      the compiler reads. */
  function AdaptarWhere(q: string): seq<string> {
    AgruparCondicionales(Escanear(q, 0, Inicial))
  }
}
