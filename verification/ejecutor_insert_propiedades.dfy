/** Properties of the INSERT executor: where each value lands in a row,
    what the append does to the file's lines, and which guard is the only
    one that can fail for a parsed command. */
module EjecutorInsertPropiedades {
  import opened Resultados
  import opened Cadenas
  import Ejecutor
  import Comandos
  import opened EjecutorInsert

  // =====================================================================
  // One row

  /** Named column `k` lands at header position `p`. */
  predicate Nombra(columnas: seq<string>, into: seq<string>, k: nat, p: nat)
    requires k < |into|
  {
    Posicion(columnas, ColumnaLimpia(into[k])) == Some(p)
  }

  /** No named column after position `k` lands at `p`. */
  predicate UltimaEn(columnas: seq<string>, into: seq<string>, k: int, p: nat) {
    forall k2 :: 0 <= k2 < |into| && k < k2 ==> !Nombra(columnas, into, k2, p)
  }

  /** A position no named column from `i` on lands at keeps its text. */
  lemma {:induction false} LlenarIntacto(linea: seq<string>, columnas: seq<string>, into: seq<string>,
                                         valor: seq<string>, i: nat, p: nat)
    requires i <= |into| && |linea| == |columnas| && Nombradas(columnas, into, i)
    requires p < |columnas| && UltimaEn(columnas, into, i - 1, p)
    ensures Llenar(linea, columnas, into, valor, i).value[p] == linea[p]
    decreases |into| - i
  {
    if i < |into| {
      NombradasCola(columnas, into, i);
      var q := Posicion(columnas, ColumnaLimpia(into[i])).value;
      assert !Nombra(columnas, into, i, p);
      LlenarIntacto(linea[q := Valor(valor, i)], columnas, into, valor, i + 1, p);
    }
  }

  /** A position takes the value of the last named column that lands at it. */
  lemma {:induction false} LlenarUltima(linea: seq<string>, columnas: seq<string>, into: seq<string>,
                                        valor: seq<string>, i: nat, k: nat, p: nat)
    requires i <= k < |into| && |linea| == |columnas| && Nombradas(columnas, into, i)
    requires Nombra(columnas, into, k, p) && UltimaEn(columnas, into, k, p)
    ensures Llenar(linea, columnas, into, valor, i).value[p] == Valor(valor, k)
    decreases |into| - i
  {
    NombradasCola(columnas, into, i);
    var q := Posicion(columnas, ColumnaLimpia(into[i])).value;
    var l2 := linea[q := Valor(valor, i)];
    if k == i {
      LlenarIntacto(l2, columnas, into, valor, i + 1, p);
    } else {
      LlenarUltima(l2, columnas, into, valor, i + 1, k, p);
    }
  }

  /** A header position no named column lands at stays empty; one that
      named columns land at holds the value of the last of them, or the
      empty text when the value row is too short. */
  lemma LineaContenido(columnas: seq<string>, into: seq<string>, valor: seq<string>)
    requires Nombradas(columnas, into, 0)
    ensures forall p :: 0 <= p < |columnas| && UltimaEn(columnas, into, -1, p)
                        ==> LineaAEscribir(columnas, into, valor).value[p] == ""
    ensures forall k, p :: 0 <= k < |into| && 0 <= p && Nombra(columnas, into, k, p) && UltimaEn(columnas, into, k, p)
                           ==> LineaAEscribir(columnas, into, valor).value[p] == Valor(valor, k)
  {
    var vacia: seq<string> := seq(|columnas|, _ => "");
    forall p | 0 <= p < |columnas| && UltimaEn(columnas, into, -1, p)
      ensures LineaAEscribir(columnas, into, valor).value[p] == ""
    {
      LlenarIntacto(vacia, columnas, into, valor, 0, p);
    }
    forall k, p | 0 <= k < |into| && 0 <= p && Nombra(columnas, into, k, p) && UltimaEn(columnas, into, k, p)
      ensures LineaAEscribir(columnas, into, valor).value[p] == Valor(valor, k)
    {
      assert p < |columnas|;
      LlenarUltima(vacia, columnas, into, valor, 0, k, p);
    }
  }

  /** With distinct names and one value per name, every value sits under
      its own column. */
  lemma LineaDistintas(columnas: seq<string>, into: seq<string>, valor: seq<string>)
    requires Nombradas(columnas, into, 0) && |valor| == |into|
    requires forall k1, k2 :: 0 <= k1 < k2 < |into| ==> ColumnaLimpia(into[k1]) != ColumnaLimpia(into[k2])
    ensures forall k :: 0 <= k < |into| ==>
              LineaAEscribir(columnas, into, valor).value[Posicion(columnas, ColumnaLimpia(into[k])).value] == valor[k]
  {
    LineaContenido(columnas, into, valor);
    forall k | 0 <= k < |into|
      ensures LineaAEscribir(columnas, into, valor).value[Posicion(columnas, ColumnaLimpia(into[k])).value] == valor[k]
    {
      var p := Posicion(columnas, ColumnaLimpia(into[k])).value;
      assert Nombra(columnas, into, k, p) && UltimaEn(columnas, into, k, p);
    }
  }

  // =====================================================================
  // The file

  /** The appended text. */
  function Apendice(lineas: seq<seq<string>>): string {
    Concatenar(seq(|lineas|, k requires 0 <= k < |lineas| => Join(lineas[k], ",") + "\n"))
  }

  lemma {:induction false} SplitApendice(lineas: seq<seq<string>>)
    requires forall k :: 0 <= k < |lineas| ==> '\n' !in Join(lineas[k], ",")
    ensures Split(Apendice(lineas), '\n') == UnirFilas(lineas) + [""]
    decreases |lineas|
  {
    if |lineas| > 0 {
      var j := Join(lineas[0], ",");
      var resto := lineas[1..];
      ApendiceCons(lineas);
      SplitUnion(j, Apendice(resto), '\n');
      SplitSinOcurrencia(j, '\n');
      SplitApendice(resto);
      assert UnirFilas(lineas) == [j] + UnirFilas(resto);
    }
  }

  /** The appended text starts with the first row and its line break. */
  lemma ApendiceCons(lineas: seq<seq<string>>)
    requires |lineas| > 0
    ensures Apendice(lineas) == Join(lineas[0], ",") + "\n" + Apendice(lineas[1..])
  {
    var ts := seq(|lineas|, k requires 0 <= k < |lineas| => Join(lineas[k], ",") + "\n");
    var resto := lineas[1..];
    assert ts[1..] == seq(|resto|, k requires 0 <= k < |resto| => Join(resto[k], ",") + "\n");
    assert ts == [ts[0]] + ts[1..];
  }

  /** After the append the file's lines are the old lines followed by the
      new rows, and the text ends with a line break. */
  lemma AnexarLineas(texto: string, lineas: seq<seq<string>>)
    requires forall k :: 0 <= k < |lineas| ==> '\n' !in Join(lineas[k], ",")
    ensures Split(Anexar(texto, lineas), '\n') == Split(Cuerpo(texto), '\n') + UnirFilas(lineas) + [""]
  {
    SplitUnion(Cuerpo(texto), Apendice(lineas), '\n');
    SplitApendice(lineas);
  }

  // =====================================================================
  // The whole command

  /** For a command with enough values, the only guards left are the
      header width and the names: the row-length checks always pass, since
      every value row has exactly one value per name. */
  lemma EjecutarInsertResultado(comando: Comandos.Comando, texto: string)
    requires comando.Insert? && |comando.into| > 0
    requires forall k :: 0 <= k < |comando.valores| ==> |Ejecutor.LimpiarLista(comando.valores[k])| > 0
    requires |comando.valores| >= |comando.into|
    requires PrimeraLinea(texto).Some?
    ensures var columnas := Split(PrimeraLinea(texto).value, ',');
            var into := NombresFinales(comando.into);
            var filas := FilasDeValores(comando.valores, |comando.into|);
            var r := EjecutarInsert(comando, texto);
            (r.Ok? <==> |columnas| >= |into| && Nombradas(columnas, into, 0))
            && (r.Ok? ==> r.value == Anexar(texto, ObtenerLineaAEscribir(columnas, into, filas).value))
  {
  }
}
