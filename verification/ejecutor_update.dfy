/** The UPDATE executor with its file reduced to a sequence of lines: the
    SET clause is cut into assignments, checked against the header, and
    every data row the WHERE tree accepts is rewritten. */
module EjecutorUpdate {
  import opened Resultados
  import opened Cadenas
  import opened Expresiones
  import opened Analizador
  import Ejecutor
  import Comandos

  /** One `columna = valor` item of a SET clause, both sides untrimmed. */
  datatype Asignacion = Asignacion(columna: string, valor: string)

  // =====================================================================
  // The SET clause

  /** `obtener_clausula`: every comma-separated item must split on `=` into
      exactly two parts. */
  function ObtenerClausula(items: seq<string>): (r: Result<seq<Asignacion>>)
    ensures r.Ok? <==> forall k :: 0 <= k < |items| ==> |Split(items[k], '=')| == 2
    ensures r.Err? ==> r.error == InvalidSyntax
    ensures r.Ok? ==> |r.value| == |items|
    ensures r.Ok? ==> forall k :: 0 <= k < |items| ==>
              r.value[k] == Asignacion(Split(items[k], '=')[0], Split(items[k], '=')[1])
    decreases |items|
  {
    if |items| == 0 then Ok([])
    else
      var partes := Split(items[0], '=');
      if |partes| != 2 then Err(InvalidSyntax)
      else match ObtenerClausula(items[1..])
        case Err(e) => Err(e)
        case Ok(resto) => Ok([Asignacion(partes[0], partes[1])] + resto)
  }

  /** `clausula_set_limpia`: any failure is reported as `Error`. */
  function ClausulaSetLimpia(clausula: string): (r: Result<seq<Asignacion>>)
    ensures r.Err? ==> r.error == Error
    ensures r.Ok? <==> ObtenerClausula(Split(clausula, ',')).Ok?
    ensures r.Ok? ==> r.value == ObtenerClausula(Split(clausula, ',')).value
  {
    match ObtenerClausula(Split(clausula, ','))
    case Ok(a) => Ok(a)
    case Err(_) => Err(Error)
  }

  /** The text without spaces at either end, as
      `trim_end_matches(" ").trim_start_matches(" ")` leaves it (see
      `SinEspaciosRecorta`). */
  function SinEspacios(s: string): string
    decreases |s|
  {
    if |s| > 0 && s[|s| - 1] == ' ' then SinEspacios(s[..|s| - 1])
    else if |s| > 0 && s[0] == ' ' then SinEspacios(s[1..])
    else s
  }

  lemma {:induction false} SinEspaciosInicio(s: string)
    requires |s| == 0 || s[|s| - 1] != ' '
    ensures SinEspacios(s) == RecortarInicio(s, {' '})
    decreases |s|
  {
    if |s| > 0 && s[0] == ' ' {
      SinEspaciosInicio(s[1..]);
    }
  }

  /** The recursive definition trims the same spaces as the two library
      calls. */
  lemma {:induction false} SinEspaciosRecorta(s: string)
    ensures SinEspacios(s) == RecortarInicio(RecortarFin(s, {' '}), {' '})
    decreases |s|
  {
    if |s| > 0 && s[|s| - 1] == ' ' {
      SinEspaciosRecorta(s[..|s| - 1]);
    } else {
      SinEspaciosInicio(s);
    }
  }

  /** The untrimmed column texts of the first `i` assignments. */
  function Vistas(asigs: seq<Asignacion>, i: nat): (r: seq<string>)
    requires i <= |asigs|
    ensures |r| == i
    ensures forall j :: 0 <= j < i ==> r[j] == asigs[j].columna
  {
    seq(i, j requires 0 <= j < i => asigs[j].columna)
  }

  /** Assignment `i` names a header column and its untrimmed column text
      did not occur in an earlier assignment. */
  predicate AsignacionValida(asigs: seq<Asignacion>, columnas: seq<string>, i: nat)
    requires i < |asigs|
  {
    SinEspacios(asigs[i].columna) in columnas && asigs[i].columna !in Vistas(asigs, i)
  }

  /** What `validar_clausula_set` accepts: no more assignments than columns,
      each one valid. */
  predicate ClausulaSetValida(asigs: seq<Asignacion>, columnas: seq<string>) {
    |asigs| <= |columnas| && forall i :: 0 <= i < |asigs| ==> AsignacionValida(asigs, columnas, i)
  }

  /** `validar_clausula_set`, as its loop over the column positions. */
  method ValidarClausulaSet(asigs: seq<Asignacion>, columnas: seq<string>) returns (ok: bool)
    ensures ok <==> ClausulaSetValida(asigs, columnas)
  {
    if |asigs| > |columnas| {
      return false;
    }
    var auxiliar: seq<string> := [];
    var i := 0;
    ok := true;
    while ok && i < |columnas| && i < |asigs|
      invariant i <= |asigs|
      invariant auxiliar == Vistas(asigs, i)
      invariant ok ==> forall k :: 0 <= k < i ==> AsignacionValida(asigs, columnas, k)
      invariant !ok ==> i < |asigs| && !AsignacionValida(asigs, columnas, i)
      decreases |asigs| - i, ok
    {
      var actual := SinEspacios(asigs[i].columna);
      if actual in columnas && asigs[i].columna !in auxiliar {
        assert AsignacionValida(asigs, columnas, i);
        auxiliar := auxiliar + [asigs[i].columna];
        i := i + 1;
        assert auxiliar == Vistas(asigs, i);
      } else {
        assert !AsignacionValida(asigs, columnas, i);
        ok := false;
      }
    }
  }

  // =====================================================================
  // Rewriting one row

  /** The new value of an assignment: a leading ` '`, then leading `'`s and
      spaces, then a trailing ` '` and trailing `'`s removed. */
  function NuevoValor(v: string): string {
    var a := RecortarPrefijo(v, " '");
    var b := RecortarInicio(a, {'\''});
    var c := RecortarInicio(b, {' '});
    var d := RecortarSufijo(c, " '");
    RecortarFin(d, {'\''})
  }

  /** The assignments as `actualizar_linea` uses them: the column name
      trimmed, the value through `NuevoValor`. */
  function Preparar(asigs: seq<Asignacion>): (r: seq<Asignacion>)
    ensures |r| == |asigs|
    ensures forall k :: 0 <= k < |asigs| ==> r[k] == Asignacion(Trim(asigs[k].columna), NuevoValor(asigs[k].valor))
  {
    seq(|asigs|, k requires 0 <= k < |asigs| => Asignacion(Trim(asigs[k].columna), NuevoValor(asigs[k].valor)))
  }

  /** Prepared assignment `k` targets field `j` of a row. */
  predicate Apunta(asigs: seq<Asignacion>, indices: map<string, nat>, k: nat, j: nat)
    requires k < |asigs|
  {
    asigs[k].columna in indices && indices[asigs[k].columna] == j
  }

  /** The prepared assignment names a column of the index map that lies
      inside a row of `n` fields. */
  predicate Valida(a: Asignacion, indices: map<string, nat>, n: nat) {
    a.columna in indices && indices[a.columna] < n
  }

  /** Every prepared assignment is valid for a row of `n` fields. */
  predicate Aplicable(asigs: seq<Asignacion>, indices: map<string, nat>, n: nat) {
    forall k :: 0 <= k < |asigs| ==> Valida(asigs[k], indices, n)
  }

  lemma AplicableCola(asigs: seq<Asignacion>, indices: map<string, nat>, n: nat)
    requires |asigs| > 0
    ensures Aplicable(asigs, indices, n) <==> Valida(asigs[0], indices, n) && Aplicable(asigs[1..], indices, n)
  {
    assert forall k :: 1 <= k < |asigs| ==> asigs[1..][k - 1] == asigs[k];
  }

  /** The prepared assignments written in order into the fields of a row;
      a column outside the map or the row is an `Error`. */
  function Aplicar(campos: seq<string>, asigs: seq<Asignacion>, indices: map<string, nat>): (r: Result<seq<string>>)
    ensures r.Ok? <==> Aplicable(asigs, indices, |campos|)
    ensures r.Err? ==> r.error == Error
    ensures r.Ok? ==> |r.value| == |campos|
    decreases |asigs|
  {
    if |asigs| == 0 then Ok(campos)
    else
      AplicableCola(asigs, indices, |campos|);
      if Valida(asigs[0], indices, |campos|) then
        Aplicar(campos[indices[asigs[0].columna] := asigs[0].valor], asigs[1..], indices)
      else Err(Error)
  }

  /** `actualizar_linea`: split the row at commas, apply the assignments,
      join with commas. */
  function ActualizarLinea(linea: string, asigs: seq<Asignacion>, indices: map<string, nat>): (r: Result<string>)
    ensures r.Ok? <==> Aplicable(Preparar(asigs), indices, |Split(linea, ',')|)
    ensures r.Err? ==> r.error == Error
  {
    match Aplicar(Split(linea, ','), Preparar(asigs), indices)
    case Ok(campos) => Ok(Join(campos, ","))
    case Err(e) => Err(e)
  }

  // =====================================================================
  // Rewriting the file

  /** One data row as the file loop treats it: rewritten when the tree
      accepts it, copied otherwise. */
  function Fila(fila: string, asigs: seq<Asignacion>, indices: map<string, nat>, e: Expresion): (r: Result<string>)
    ensures r.Err? ==> r.error == Error && CumpleCW(fila, e, indices)
    ensures !CumpleCW(fila, e, indices) ==> r == Ok(fila)
    ensures CumpleCW(fila, e, indices) ==> r == ActualizarLinea(fila, asigs, indices)
  {
    if CumpleCW(fila, e, indices) then ActualizarLinea(fila, asigs, indices) else Ok(fila)
  }

  /** The rows' results gathered in order; the first failure ends the
      rewrite, as the loop of `actualizar_archivo` returns on it. */
  function Reunir(rs: seq<Result<string>>): (r: Result<seq<string>>)
    ensures r.Ok? <==> forall i :: 0 <= i < |rs| ==> rs[i].Ok?
    ensures r.Ok? ==> |r.value| == |rs| && forall i :: 0 <= i < |rs| ==> r.value[i] == rs[i].value
    ensures r.Err? ==> exists i :: 0 <= i < |rs| && rs[i] == Err(r.error)
    decreases |rs|
  {
    if |rs| == 0 then Ok([])
    else
      assert forall i :: 1 <= i < |rs| ==> rs[1..][i - 1] == rs[i];
      match rs[0]
      case Err(x) => Err(x)
      case Ok(l) =>
        match Reunir(rs[1..])
        case Err(x) => Err(x)
        case Ok(resto) => Ok([l] + resto)
  }

  /** The data rows after the header, each through `Fila` (see
      `EjecutorUpdatePropiedades.ReescribirCorrecto`). */
  function ReescribirFilas(filas: seq<string>, asigs: seq<Asignacion>, indices: map<string, nat>,
                           e: Expresion): (r: Result<seq<string>>)
    ensures r.Err? ==> r.error == Error
    ensures r.Ok? ==> |r.value| == |filas|
  {
    Reunir(seq(|filas|, i requires 0 <= i < |filas| => Fila(filas[i], asigs, indices, e)))
  }

  /** `actualizar_archivo`: the header re-emitted from the column list,
      then the data rows. An empty file produces nothing. */
  function ActualizarArchivo(lineas: seq<string>, columnas: seq<string>, asigs: seq<Asignacion>,
                             e: Expresion): (r: Result<seq<string>>)
    ensures r.Err? ==> r.error == Error
    ensures r.Ok? ==> |r.value| == |lineas|
    ensures r.Ok? && |lineas| > 0 ==> r.value[0] == Join(columnas, ",")
  {
    if |lineas| == 0 then Ok([])
    else
      match ReescribirFilas(lineas[1..], asigs, Ejecutor.ObtenerIndicesColumnas(columnas), e)
      case Err(x) => Err(x)
      case Ok(filas) => Ok([Join(columnas, ",")] + filas)
  }

  /** `procesar_archivo_update`: the header is the file's first line cut at
      commas; an invalid SET clause is `InvalidColumn`. */
  function ProcesarUpdate(lineas: seq<string>, asigs: seq<Asignacion>, e: Expresion): (r: Result<seq<string>>)
    ensures |lineas| == 0 ==> r == Err(Error)
    ensures |lineas| > 0 && !ClausulaSetValida(asigs, Split(lineas[0], ',')) ==> r == Err(InvalidColumn)
  {
    if |lineas| == 0 then Err(Error)
    else
      var columnas := Split(lineas[0], ',');
      if |columnas| == 0 then Err(InvalidTable)
      else if !ClausulaSetValida(asigs, columnas) then Err(InvalidColumn)
      else ActualizarArchivo(lineas, columnas, asigs, e)
  }

  /** `ejecutar_update`: the SET clause parsed, the WHERE clause stripped of
      a trailing `;`, tokenized and compiled, then the file rewritten. */
  function EjecutarUpdate(comando: Comandos.Comando, lineas: seq<string>): (r: Result<seq<string>>)
    ensures !comando.Update? ==> r == Err(Error)
    ensures comando.Update? && ClausulaSetLimpia(comando.clausulaSet).Err? ==> r == Err(Error)
  {
    if !comando.Update? then Err(Error)
    else
      match ClausulaSetLimpia(comando.clausulaSet)
      case Err(_) => Err(Error)
      case Ok(asigs) =>
        var tokens := Ejecutor.AdaptarWhere(RecortarSufijo(RecortarFin(comando.clausulaWhere, {';'}), "; "));
        match CompilarWhere(tokens)
        case Err(_) => Err(InvalidSyntax)
        case Ok(e) => ProcesarUpdate(lineas, asigs, e)
  }
}
