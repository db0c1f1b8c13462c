/** The INSERT executor with the table file reduced to its text: the value
    tokens are cleaned and cut into rows of as many values as there are
    named columns, each row is laid out in header order, and the rows are
    appended to the text. */
module EjecutorInsert {
  import opened Resultados
  import opened Cadenas
  import Ejecutor
  import Comandos

  // =====================================================================
  // Cutting the values into rows (`juntar_valores`)

  /** The first entry of every cleaned value list. */
  function Primeros(vs: seq<seq<string>>): (r: seq<string>)
    requires forall k :: 0 <= k < |vs| ==> |vs[k]| > 0
    ensures |r| == |vs|
    ensures forall k :: 0 <= k < |vs| ==> r[k] == vs[k][0]
  {
    seq(|vs|, k requires 0 <= k < |vs| => vs[k][0])
  }

  /** Consecutive runs of exactly `tam` entries; a shorter run left at the
      end is dropped. */
  function Trozos(xs: seq<string>, tam: nat): (r: seq<seq<string>>)
    requires tam > 0
    ensures forall k :: 0 <= k < |r| ==> |r[k]| == tam
    ensures |Concatenar2(r)| <= |xs| && Concatenar2(r) == xs[..|Concatenar2(r)|]
    ensures |xs| - |Concatenar2(r)| < tam
    decreases |xs|
  {
    if |xs| < tam then []
    else
      var resto := Trozos(xs[tam..], tam);
      assert ([xs[..tam]] + resto)[1..] == resto;
      assert xs[..tam + |Concatenar2(resto)|] == xs[..tam] + xs[tam..][..|Concatenar2(resto)|];
      [xs[..tam]] + resto
  }

  /** The runs laid end to end. */
  function Concatenar2(rs: seq<seq<string>>): seq<string>
    decreases |rs|
  {
    if |rs| == 0 then [] else rs[0] + Concatenar2(rs[1..])
  }

  lemma {:induction false} Concatenar2Union(a: seq<seq<string>>, b: seq<string>)
    ensures Concatenar2(a + [b]) == Concatenar2(a) + b
    decreases |a|
  {
    if |a| == 0 {
      assert [] + [b] == [b];
    } else {
      assert (a + [b])[1..] == a[1..] + [b];
      Concatenar2Union(a[1..], b);
    }
  }

  /** Whether the runs use up every entry. */
  predicate Cubre(xs: seq<string>, tam: nat)
    requires tam > 0
  {
    |Concatenar2(Trozos(xs, tam))| == |xs|
  }

  /** Euclidean division by `t` has one quotient and remainder. */
  lemma DivisionUnica(n: int, t: nat, q: int, m: int)
    requires t > 0 && n == q * t + m && 0 <= m < t
    ensures n % t == m
  {
    var q2 := n / t;
    var m2 := n % t;
    assert n == q2 * t + m2;
    assert (q2 - q) * t == m - m2;
    if q2 > q {
      MultiploAlMenos(q2 - q, t);
    } else if q2 < q {
      MultiploAlMenos(q - q2, t);
    }
  }

  lemma {:induction false} MultiploAlMenos(a: nat, t: nat)
    requires a >= 1
    ensures a * t >= t
    decreases a
  {
    if a > 1 {
      MultiploAlMenos(a - 1, t);
      assert a * t == (a - 1) * t + t;
    }
  }

  /** The counter's remainder after one more entry. */
  lemma ModSiguiente(c: nat, t: nat)
    requires t > 0
    ensures c % t + 1 < t ==> (c + 1) % t == c % t + 1
    ensures c % t + 1 == t ==> (c + 1) % t == 0
  {
    var q := c / t;
    var m := c % t;
    assert c == q * t + m;
    if m + 1 < t {
      DivisionUnica(c + 1, t, q, m + 1);
    } else {
      assert c + 1 == (q + 1) * t + 0;
      DivisionUnica(c + 1, t, q + 1, 0);
    }
  }

  /** `juntar_valores`, as the source's loop with its counter. */
  method JuntarValores(vs: seq<seq<string>>, tam: nat) returns (resultado: seq<seq<string>>)
    requires tam > 0
    requires forall k :: 0 <= k < |vs| ==> |vs[k]| > 0
    ensures resultado == Trozos(Primeros(vs), tam)
  {
    ghost var p := Primeros(vs);
    ghost var inicio := 0;
    resultado := [];
    var grupo: seq<string> := [];
    var contador := 0;
    while contador < |vs|
      invariant contador <= |vs| && |p| == |vs|
      invariant inicio + |grupo| == contador
      invariant |grupo| == contador % tam
      invariant grupo == p[inicio..contador]
      invariant resultado == Trozos(p[..inicio], tam)
      invariant Cubre(p[..inicio], tam)
    {
      ModSiguiente(contador, tam);
      Avanzar(p, inicio, contador);
      grupo := grupo + [vs[contador][0]];
      contador := contador + 1;
      if contador % tam == 0 {
        Tajo(p, inicio, contador);
        TrozosExtiende(p[..inicio], grupo, tam);
        resultado := resultado + [grupo];
        grupo := [];
        inicio := contador;
      }
    }
    Tajo(p, inicio, contador);
    assert p[..contador] == p;
    TrozosResto(p[..inicio], grupo, tam);
  }

  /** A slice grown by one element. */
  lemma Avanzar<T>(p: seq<T>, i: nat, j: nat)
    requires i <= j < |p|
    ensures p[i..j] + [p[j]] == p[i..j + 1]
  {
  }

  /** A prefix followed by the next slice is the longer prefix. */
  lemma Tajo<T>(p: seq<T>, i: nat, j: nat)
    requires i <= j <= |p|
    ensures p[..i] + p[i..j] == p[..j]
  {
  }

  /** Adding a full run after runs that use up their entries adds exactly
      that run. */
  lemma {:induction false} TrozosExtiende(xs: seq<string>, ys: seq<string>, tam: nat)
    requires tam > 0 && Cubre(xs, tam) && |ys| == tam
    ensures Trozos(xs + ys, tam) == Trozos(xs, tam) + [ys]
    ensures Cubre(xs + ys, tam)
    decreases |xs|
  {
    if |xs| == 0 {
      assert xs + ys == ys;
      assert ys[tam..] == [];
      assert ys[..tam] == ys;
    } else {
      var t := Trozos(xs, tam);
      assert |xs| >= tam;
      assert t == [xs[..tam]] + Trozos(xs[tam..], tam);
      assert Cubre(xs[tam..], tam);
      assert (xs + ys)[tam..] == xs[tam..] + ys;
      assert (xs + ys)[..tam] == xs[..tam];
      TrozosExtiende(xs[tam..], ys, tam);
      assert ([xs[..tam]] + Trozos(xs[tam..], tam) + [ys])[1..] == Trozos(xs[tam..], tam) + [ys];
    }
    Concatenar2Union(Trozos(xs, tam), ys);
  }

  /** A short run after runs that use up their entries changes nothing. */
  lemma {:induction false} TrozosResto(xs: seq<string>, ys: seq<string>, tam: nat)
    requires tam > 0 && Cubre(xs, tam) && |ys| < tam
    ensures Trozos(xs + ys, tam) == Trozos(xs, tam)
    decreases |xs|
  {
    if |xs| == 0 {
      assert xs + ys == ys;
    } else {
      assert |xs| >= tam;
      assert Cubre(xs[tam..], tam);
      assert (xs + ys)[tam..] == xs[tam..] + ys;
      assert (xs + ys)[..tam] == xs[..tam];
      TrozosResto(xs[tam..], ys, tam);
    }
  }

  // =====================================================================
  // The row guard (`misma_len`)

  /** All lists have the length of the first. */
  predicate LargoComun(l: seq<seq<string>>) {
    forall i :: 0 <= i < |l| ==> |l[i]| == |l[0]|
  }

  /** `misma_len`, as the source's loop. */
  method MismaLen(l: seq<seq<string>>) returns (r: bool)
    ensures r <==> LargoComun(l)
  {
    if |l| == 0 {
      return true;
    }
    var largo := |l[0]|;
    var i := 0;
    while i < |l|
      invariant i <= |l|
      invariant forall j :: 0 <= j < i ==> |l[j]| == largo
    {
      if |l[i]| != largo {
        return false;
      }
      i := i + 1;
    }
    return true;
  }

  // =====================================================================
  // Laying out one row (`obtener_linea_a_escribir`)

  /** The first position of `x` in `xs`. */
  function Posicion(xs: seq<string>, x: string): (r: Option<nat>)
    ensures r.None? <==> x !in xs
    ensures r.Some? ==> r.value < |xs| && xs[r.value] == x
    ensures r.Some? ==> forall j :: 0 <= j < r.value ==> xs[j] != x
    decreases |xs|
  {
    if |xs| == 0 then None
    else if xs[0] == x then Some(0)
    else
      assert xs == [xs[0]] + xs[1..];
      match Posicion(xs[1..], x)
      case None => None
      case Some(k) => Some(k + 1)
  }

  /** A named column as the row layout looks it up: `(`, `)` and spaces
      off both ends. */
  function ColumnaLimpia(c: string): string {
    RecortarAmbos(c, {'(', ')', ' '})
  }

  /** The `i`-th value of a row, or the empty text when the row is short. */
  function Valor(valor: seq<string>, i: nat): string {
    if i < |valor| then valor[i] else ""
  }

  /** Every named column from position `i` on is in the header. */
  predicate Nombradas(columnas: seq<string>, into: seq<string>, i: nat) {
    forall k :: i <= k < |into| ==> ColumnaLimpia(into[k]) in columnas
  }

  lemma NombradasCola(columnas: seq<string>, into: seq<string>, i: nat)
    requires i < |into|
    ensures Nombradas(columnas, into, i) <==> ColumnaLimpia(into[i]) in columnas && Nombradas(columnas, into, i + 1)
  {
  }

  /** The named columns from position `i` on written into the row, each at
      its first header position. */
  function Llenar(linea: seq<string>, columnas: seq<string>, into: seq<string>, valor: seq<string>,
                  i: nat): (r: Result<seq<string>>)
    requires i <= |into| && |linea| == |columnas|
    ensures r.Ok? <==> Nombradas(columnas, into, i)
    ensures r.Err? ==> r.error == InvalidSyntax
    ensures r.Ok? ==> |r.value| == |columnas|
    decreases |into| - i
  {
    if i == |into| then Ok(linea)
    else
      NombradasCola(columnas, into, i);
      match Posicion(columnas, ColumnaLimpia(into[i]))
      case None => Err(InvalidSyntax)
      case Some(p) => Llenar(linea[p := Valor(valor, i)], columnas, into, valor, i + 1)
  }

  /** One row: every header position empty, then the named columns filled. */
  function LineaAEscribir(columnas: seq<string>, into: seq<string>, valor: seq<string>): (r: Result<seq<string>>)
    ensures r.Ok? <==> Nombradas(columnas, into, 0)
    ensures r.Err? ==> r.error == InvalidSyntax
    ensures r.Ok? ==> |r.value| == |columnas|
  {
    Llenar(seq(|columnas|, _ => ""), columnas, into, valor, 0)
  }

  /** `obtener_linea_a_escribir`: one laid-out row per value row; a named
      column missing from the header is `InvalidSyntax`. */
  function ObtenerLineaAEscribir(columnas: seq<string>, into: seq<string>, valores: seq<seq<string>>)
    : (r: Result<seq<seq<string>>>)
    ensures r.Ok? <==> |valores| == 0 || Nombradas(columnas, into, 0)
    ensures r.Err? ==> r.error == InvalidSyntax
    ensures r.Ok? ==> |r.value| == |valores|
    ensures r.Ok? ==> forall k :: 0 <= k < |valores| ==> r.value[k] == LineaAEscribir(columnas, into, valores[k]).value
    decreases |valores|
  {
    if |valores| == 0 then Ok([])
    else match LineaAEscribir(columnas, into, valores[0])
      case Err(e) => Err(e)
      case Ok(l) =>
        match ObtenerLineaAEscribir(columnas, into, valores[1..])
        case Err(e) => Err(e)
        case Ok(resto) => Ok([l] + resto)
  }

  // =====================================================================
  // The file

  /** The file's first line, as `lines().next()` yields it. */
  function PrimeraLinea(texto: string): Option<string> {
    if texto == "" then None else Some(Split(texto, '\n')[0])
  }

  /** The text without its final line break, if it has one. */
  function Cuerpo(texto: string): string {
    if TerminaCon(texto, '\n') then texto[..|texto| - 1] else texto
  }

  /** The file after the append: a line break first unless the text already
      ends with one, then every row comma-joined, each on its own line. */
  function Anexar(texto: string, lineas: seq<seq<string>>): (r: string)
    ensures |texto| <= |r| && r[..|texto|] == texto
  {
    Cuerpo(texto) + "\n" + Concatenar(seq(|lineas|, k requires 0 <= k < |lineas| => Join(lineas[k], ",") + "\n"))
  }

  /** `procesar_archivo_insert`. Every guard failure is `Error`. The source
      reads the first value row when the first two guards pass, which
      panics when there is none; that case is excluded. */
  function ProcesarInsert(texto: string, into: seq<string>, valores: seq<seq<string>>): (r: Result<string>)
    requires (PrimeraLinea(texto).Some? && |Split(PrimeraLinea(texto).value, ',')| >= |into|
              && LargoComun(valores)) ==> |valores| > 0
    ensures r.Err? ==> r.error == Error
    ensures PrimeraLinea(texto).None? ==> r.Err?
    ensures PrimeraLinea(texto).Some? && |Split(PrimeraLinea(texto).value, ',')| < |into| ==> r.Err?
    ensures PrimeraLinea(texto).Some? && !LargoComun(valores) ==> r.Err?
    ensures PrimeraLinea(texto).Some? && |valores| > 0 && |into| != |valores[0]| ==> r.Err?
    ensures r.Ok? <==> && PrimeraLinea(texto).Some?
                       && |Split(PrimeraLinea(texto).value, ',')| >= |into|
                       && LargoComun(valores) && |valores| > 0 && |into| == |valores[0]|
                       && Nombradas(Split(PrimeraLinea(texto).value, ','), into, 0)
    ensures r.Ok? ==> r.value == Anexar(texto, ObtenerLineaAEscribir(Split(PrimeraLinea(texto).value, ','), into, valores).value)
  {
    match PrimeraLinea(texto)
    case None => Err(Error)
    case Some(primera) =>
      var columnas := Split(primera, ',');
      if |columnas| < |into| || !LargoComun(valores) || |into| != |valores[0]| then Err(Error)
      else match ObtenerLineaAEscribir(columnas, into, valores)
        case Err(_) => Err(Error)
        case Ok(lineas) => Ok(Anexar(texto, lineas))
  }

  /** A named column as the command carries it: leading `(`, trailing `)`
      and trailing `,` removed. */
  function LimpiarInto(s: string): string {
    RecortarFin(RecortarFin(RecortarInicio(s, {'('}), {')'}), {','})
  }

  /** The value rows of an INSERT: each value token cleaned with
      `limpiar_lista`, its first entry kept, the entries cut into runs of
      `tam`. */
  function FilasDeValores(valores: seq<string>, tam: nat): (r: seq<seq<string>>)
    requires tam > 0
    requires forall k :: 0 <= k < |valores| ==> |Ejecutor.LimpiarLista(valores[k])| > 0
    ensures LargoComun(r)
    ensures |valores| >= tam ==> |r| > 0 && |r[0]| == tam
  {
    var limpias := seq(|valores|, k requires 0 <= k < |valores| => Ejecutor.LimpiarLista(valores[k]));
    Trozos(Primeros(limpias), tam)
  }

  /** The named columns with `LimpiarInto` applied to each. */
  function NombresFinales(into: seq<string>): (r: seq<string>)
    ensures |r| == |into|
    ensures forall k :: 0 <= k < |into| ==> r[k] == LimpiarInto(into[k])
  {
    seq(|into|, k requires 0 <= k < |into| => LimpiarInto(into[k]))
  }

  /** `ejecutar_insert`: the value rows built, the names cleaned, the file
      appended. The source indexes the first entry of every cleaned token
      and divides by the number of names, so both must be non-empty; and
      the first value row must exist when the header is wide enough. */
  function EjecutarInsert(comando: Comandos.Comando, texto: string): (r: Result<string>)
    requires comando.Insert? ==> |comando.into| > 0
    requires comando.Insert? ==> forall k :: 0 <= k < |comando.valores| ==> |Ejecutor.LimpiarLista(comando.valores[k])| > 0
    requires comando.Insert? && PrimeraLinea(texto).Some?
             && |Split(PrimeraLinea(texto).value, ',')| >= |comando.into|
             ==> |comando.valores| >= |comando.into|
    ensures !comando.Insert? ==> r == Err(Error)
    ensures r.Err? ==> r.error == Error
  {
    if !comando.Insert? then Err(Error)
    else ProcesarInsert(texto, NombresFinales(comando.into), FilasDeValores(comando.valores, |comando.into|))
  }
}
