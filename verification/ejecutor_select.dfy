/** The SELECT executor: the data rows the WHERE tree accepts, cut into
    trimmed fields, optionally ordered by one column, and shown either whole
    or projected onto the requested fields.  The file is given as its lines
    and the printed output is returned as lines. */
module EjecutorSelect {
  import opened Resultados
  import opened Cadenas
  import opened Expresiones
  import opened Analizador
  import Ejecutor
  import Comandos

  // =====================================================================
  // Filtering

  /** The rows `e` accepts, in file order (see
      `EjecutorSelectPropiedades.FiltrarMiembros`). */
  function Filtrar(filas: seq<string>, e: Expresion, idx: map<string, nat>): (r: seq<string>)
    ensures |r| <= |filas|
    ensures e == Unknown ==> r == filas
    decreases |filas|
  {
    if |filas| == 0 then []
    else
      var ultima := filas[|filas| - 1];
      assert filas == filas[..|filas| - 1] + [ultima];
      Filtrar(filas[..|filas| - 1], e, idx) + (if CumpleCW(ultima, e, idx) then [ultima] else [])
  }

  lemma FiltrarSiguiente(filas: seq<string>, x: string, e: Expresion, idx: map<string, nat>)
    ensures Filtrar(filas + [x], e, idx) == Filtrar(filas, e, idx) + (if CumpleCW(x, e, idx) then [x] else [])
  {
    assert (filas + [x])[..|filas|] == filas;
  }

  /** The reading loop of `procesar_archivo_select`: the first line (the
      header) is skipped, every later line `e` accepts is kept. */
  method FiltrarFilas(lineas: seq<string>, e: Expresion, idx: map<string, nat>) returns (resultado: seq<string>)
    ensures |lineas| == 0 ==> resultado == []
    ensures |lineas| > 0 ==> resultado == Filtrar(lineas[1..], e, idx)
  {
    var primeraFila := true;
    resultado := [];
    var i := 0;
    while i < |lineas|
      invariant 0 <= i <= |lineas|
      invariant primeraFila <==> i == 0
      invariant i == 0 ==> resultado == []
      invariant i > 0 ==> resultado == Filtrar(lineas[1..i], e, idx)
    {
      if primeraFila {
        primeraFila := false;
        assert lineas[1..1] == [];
      } else {
        assert lineas[1..i + 1] == lineas[1..i] + [lineas[i]];
        FiltrarSiguiente(lineas[1..i], lineas[i], e, idx);
        if CumpleCW(lineas[i], e, idx) {
          resultado := resultado + [lineas[i]];
        }
      }
      i := i + 1;
    }
    assert |lineas| > 0 ==> lineas[1..i] == lineas[1..];
  }

  // =====================================================================
  // Ordering

  /** Every row cut into its trimmed fields. */
  function Partidas(filas: seq<string>): (r: seq<seq<string>>)
    ensures |r| == |filas|
    ensures forall k :: 0 <= k < |r| ==> r[k] == Campos(filas[k])
  {
    seq(|filas|, k requires 0 <= k < |filas| => Campos(filas[k]))
  }

  /** Every row has a field at position `c`. */
  predicate Anchas(filas: seq<seq<string>>, c: nat) {
    forall fila :: fila in filas ==> c < |fila|
  }

  /** The sort key: the field at `c`.  The comparator trims it once more,
      which changes nothing on a row `Campos` produced (see
      `EjecutorSelectPropiedades.PartidasRecortadas`). */
  function Clave(fila: seq<string>, c: nat): string
    requires c < |fila|
  {
    fila[c]
  }

  /** `a` must come strictly before `b`: its key is smaller (ASC) or
      larger (DESC). */
  predicate Antes(a: seq<string>, b: seq<string>, c: nat, desc: bool)
    requires c < |a| && c < |b|
  {
    if desc then LexMenor(Clave(b, c), Clave(a, c)) else LexMenor(Clave(a, c), Clave(b, c))
  }

  /** No row comes strictly before a row earlier in the sequence. */
  predicate Ordenada(filas: seq<seq<string>>, c: nat, desc: bool)
    requires Anchas(filas, c)
  {
    forall i, j :: 0 <= i < j < |filas| ==> !Antes(filas[j], filas[i], c, desc)
  }

  /** `x` placed before the first row it does not have to follow; rows with
      the same key as `x` stay after it. */
  function Insertar(x: seq<string>, ys: seq<seq<string>>, c: nat, desc: bool): (r: seq<seq<string>>)
    requires c < |x| && Anchas(ys, c)
    ensures |r| == |ys| + 1
    ensures multiset(r) == multiset(ys) + multiset{x}
    ensures Anchas(r, c)
    decreases |ys|
  {
    if |ys| == 0 || !Antes(ys[0], x, c, desc) then [x] + ys
    else
      assert ys == [ys[0]] + ys[1..];
      [ys[0]] + Insertar(x, ys[1..], c, desc)
  }

  /** The stable sort `sort_by` performs, as an insertion sort: see
      `EjecutorSelectPropiedades.OrdenarCorrecto` for what it computes.
      Fewer than two rows are never compared, so only longer inputs need
      the key column. */
  function Ordenar(filas: seq<seq<string>>, c: nat, desc: bool): (r: seq<seq<string>>)
    requires |filas| >= 2 ==> Anchas(filas, c)
    ensures |r| == |filas|
    ensures multiset(r) == multiset(filas)
    ensures |filas| >= 2 ==> Anchas(r, c)
    decreases |filas|
  {
    if |filas| <= 1 then filas
    else
      assert filas == [filas[0]] + filas[1..];
      Insertar(filas[0], Ordenar(filas[1..], c, desc), c, desc)
  }

  /** The ordering mode: the second ORDER BY token uppercased without
      trailing `;`, or ASC when there is none. */
  function Modo(orden: seq<string>): string
    requires |orden| > 0
  {
    if |orden| >= 2 then RecortarFin(Mayusculas(orden[1]), {';'}) else "ASC"
  }

  /** The comparator reads the key column of every row once at least two
      rows are sorted, and panics on a row without it; this is the case
      `ordenar_resultado` survives. */
  predicate OrdenSinPanico(resultado: seq<string>, idx: map<string, nat>, orden: seq<string>) {
    |orden| > 0 && orden[0] in idx && (Modo(orden) == "ASC" || Modo(orden) == "DESC") && |resultado| >= 2
    ==> Anchas(Partidas(resultado), idx[orden[0]])
  }

  /** `ordenar_resultado`: without an ORDER BY the rows keep file order;
      otherwise the named column must exist and the mode be ASC or DESC. */
  function OrdenarResultado(resultado: seq<string>, idx: map<string, nat>, orden: seq<string>): (r: Result<seq<seq<string>>>)
    requires OrdenSinPanico(resultado, idx, orden)
    ensures |orden| == 0 ==> r == Ok(Partidas(resultado))
    ensures |orden| > 0 && orden[0] !in idx ==> r == Err(InvalidSyntax)
    ensures |orden| > 0 && orden[0] in idx ==> (r.Ok? <==> Modo(orden) == "ASC" || Modo(orden) == "DESC")
    ensures r.Err? && |orden| > 0 && orden[0] in idx ==> r.error == Error
    ensures r.Ok? ==> |r.value| == |resultado| && multiset(r.value) == multiset(Partidas(resultado))
  {
    var res := Partidas(resultado);
    if |orden| == 0 then Ok(res)
    else
      var modo := Modo(orden);
      if orden[0] !in idx then Err(InvalidSyntax)
      else if modo == "ASC" then Ok(Ordenar(res, idx[orden[0]], false))
      else if modo == "DESC" then Ok(Ordenar(res, idx[orden[0]], true))
      else Err(Error)
  }

  // =====================================================================
  // Showing the result

  /** The fields named `nombres` of one row, in request order; a name that
      is not a column, or whose column the row is too short for, is
      skipped (see `EjecutorSelectPropiedades.ProyectarConocidos` and
      `ProyectarDesconocidos`). */
  function Proyectar(fila: seq<string>, nombres: seq<string>, idx: map<string, nat>): (r: seq<string>)
    ensures |r| <= |nombres|
    ensures forall v :: v in r ==> v in fila
    decreases |nombres|
  {
    if |nombres| == 0 then []
    else
      var nombre := nombres[0];
      (if nombre in idx && idx[nombre] < |fila| then [fila[idx[nombre]]] else []) + Proyectar(fila, nombres[1..], idx)
  }

  /** Every row projected onto the same names. */
  function Proyecciones(filas: seq<seq<string>>, nombres: seq<string>, idx: map<string, nat>): (r: seq<seq<string>>)
    ensures |r| == |filas|
    ensures forall k :: 0 <= k < |filas| ==> r[k] == Proyectar(filas[k], nombres, idx)
  {
    seq(|filas|, k requires 0 <= k < |filas| => Proyectar(filas[k], nombres, idx))
  }

  /** `mostrar_resultado`: `*` prints the header and every row whole; a
      field list prints itself and each row's projection. */
  function Mostrar(res: seq<seq<string>>, columnas: seq<string>, campos: seq<string>, idx: map<string, nat>): (r: seq<string>)
    ensures |r| == |res| + 1
    ensures r[0] == Join(if campos == ["*"] then columnas else campos, ",")
    ensures campos == ["*"] ==> r[1..] == UnirFilas(res)
    ensures campos != ["*"] ==> r[1..] == UnirFilas(Proyecciones(res, RecortarTodos(campos), idx))
  {
    if campos == ["*"] then [Join(columnas, ",")] + UnirFilas(res)
    else [Join(campos, ",")] + UnirFilas(Proyecciones(res, RecortarTodos(campos), idx))
  }

  // =====================================================================
  // The whole command

  /** The header's column index map. */
  function Indices(lineas: seq<string>): map<string, nat>
    requires |lineas| > 0
  {
    Ejecutor.ObtenerIndicesColumnas(Split(lineas[0], ','))
  }

  /** `procesar_archivo_select`: no first line is an error; a failed
      ordering is reported as a syntax error. */
  function ProcesarSelect(lineas: seq<string>, e: Expresion, orden: seq<string>, campos: seq<string>): (r: Result<seq<string>>)
    requires |lineas| > 0 ==> OrdenSinPanico(Filtrar(lineas[1..], e, Indices(lineas)), Indices(lineas), orden)
    ensures |lineas| == 0 ==> r == Err(Error)
    ensures r.Err? && |lineas| > 0 ==> r.error == InvalidSyntax
    ensures r.Ok? ==> |r.value| == |Filtrar(lineas[1..], e, Indices(lineas))| + 1
  {
    if |lineas| == 0 then Err(Error)
    else
      var columnas := Split(lineas[0], ',');
      var idx := Indices(lineas);
      match OrdenarResultado(Filtrar(lineas[1..], e, idx), idx, orden)
      case Err(_) => Err(InvalidSyntax)
      case Ok(res) => Ok(Mostrar(res, columnas, campos, idx))
  }

  /** The WHERE clause as the executors compile it: trailing `;` and `; `
      stripped, tokenized, compiled. */
  function Condicion(clausulaWhere: string): Result<Expresion> {
    CompilarWhere(Ejecutor.AdaptarWhere(RecortarSufijo(RecortarFin(clausulaWhere, {';'}), "; ")))
  }

  /** `ejecutar_select`. */
  function EjecutarSelect(comando: Comandos.Comando, lineas: seq<string>): (r: Result<seq<string>>)
    requires comando.Select? && Condicion(comando.clausulaWhere).Ok? && |lineas| > 0
             ==> OrdenSinPanico(Filtrar(lineas[1..], Condicion(comando.clausulaWhere).value, Indices(lineas)),
                                Indices(lineas), comando.clausulaOrden)
    ensures !comando.Select? ==> r == Err(InvalidSyntax)
    ensures comando.Select? && Condicion(comando.clausulaWhere).Err? ==> r == Err(InvalidSyntax)
    ensures comando.Select? && Condicion(comando.clausulaWhere).Ok?
            ==> r == ProcesarSelect(lineas, Condicion(comando.clausulaWhere).value, comando.clausulaOrden, comando.campos)
  {
    if !comando.Select? then Err(InvalidSyntax)
    else
      match Condicion(comando.clausulaWhere)
      case Err(_) => Err(InvalidSyntax)
      case Ok(e) => ProcesarSelect(lineas, e, comando.clausulaOrden, comando.campos)
  }
}
