/** Properties of the SELECT executor: the ordering is a stable sort by
    the key column, the projection drops exactly the unknown fields, and a
    bare `SELECT *` prints the table with trimmed fields. */
module EjecutorSelectPropiedades {
  import opened Resultados
  import opened Cadenas
  import opened Expresiones
  import opened Analizador
  import Ejecutor
  import Comandos
  import opened EjecutorSelect

  // =====================================================================
  // The order between rows

  lemma AntesAsimetrico(a: seq<string>, b: seq<string>, c: nat, desc: bool)
    requires c < |a| && c < |b| && Antes(a, b, c, desc)
    ensures !Antes(b, a, c, desc)
    ensures Clave(a, c) != Clave(b, c)
  {
    if desc {
      LexMenorAsimetrico(Clave(b, c), Clave(a, c));
      LexMenorIrreflexivo(Clave(a, c));
    } else {
      LexMenorAsimetrico(Clave(a, c), Clave(b, c));
      LexMenorIrreflexivo(Clave(a, c));
    }
  }

  /** Every field of a split row is already trimmed, so the comparator's
      own `trim` of the key leaves it unchanged. */
  lemma PartidasRecortadas(resultado: seq<string>)
    ensures forall k, i :: 0 <= k < |resultado| && 0 <= i < |Partidas(resultado)[k]|
                           ==> Trim(Partidas(resultado)[k][i]) == Partidas(resultado)[k][i]
  {
    forall k, i | 0 <= k < |resultado| && 0 <= i < |Partidas(resultado)[k]|
      ensures Trim(Partidas(resultado)[k][i]) == Partidas(resultado)[k][i]
    {
      TrimIdempotente(Split(resultado[k], ',')[i]);
    }
  }

  /** "Not smaller" is transitive, since the order on keys is total. */
  lemma NoMenorTransitivo(x: string, y: string, z: string)
    requires !LexMenor(y, x) && !LexMenor(z, y)
    ensures !LexMenor(z, x)
  {
    if LexMenor(z, x) {
      LexMenorTotal(x, y);
      if LexMenor(x, y) {
        LexMenorTransitivo(z, x, y);
      }
    }
  }

  /** "Does not come before" is transitive. */
  lemma NoAntesTransitivo(a: seq<string>, b: seq<string>, d: seq<string>, c: nat, desc: bool)
    requires c < |a| && c < |b| && c < |d|
    requires !Antes(a, b, c, desc) && !Antes(b, d, c, desc)
    ensures !Antes(a, d, c, desc)
  {
    if desc {
      NoMenorTransitivo(Clave(a, c), Clave(b, c), Clave(d, c));
    } else {
      NoMenorTransitivo(Clave(d, c), Clave(b, c), Clave(a, c));
    }
  }

  lemma OrdenadaCons(y: seq<string>, zs: seq<seq<string>>, c: nat, desc: bool)
    requires c < |y| && Anchas(zs, c) && Ordenada(zs, c, desc)
    requires forall z :: z in zs ==> !Antes(z, y, c, desc)
    ensures Anchas([y] + zs, c) && Ordenada([y] + zs, c, desc)
  {
    var s := [y] + zs;
    forall i, j | 0 <= i < j < |s|
      ensures !Antes(s[j], s[i], c, desc)
    {
      assert s[j] == zs[j - 1];
      if i > 0 {
        assert s[i] == zs[i - 1];
      }
    }
  }

  lemma {:induction false} InsertarOrdenada(x: seq<string>, ys: seq<seq<string>>, c: nat, desc: bool)
    requires c < |x| && Anchas(ys, c) && Ordenada(ys, c, desc)
    ensures Ordenada(Insertar(x, ys, c, desc), c, desc)
    decreases |ys|
  {
    if |ys| == 0 || !Antes(ys[0], x, c, desc) {
      forall z | z in ys
        ensures !Antes(z, x, c, desc)
      {
        var j :| 0 <= j < |ys| && ys[j] == z;
        if j > 0 {
          NoAntesTransitivo(z, ys[0], x, c, desc);
        }
      }
      OrdenadaCons(x, ys, c, desc);
    } else {
      var y := ys[0];
      var resto := ys[1..];
      assert Ordenada(resto, c, desc) by {
        forall i, j | 0 <= i < j < |resto|
          ensures !Antes(resto[j], resto[i], c, desc)
        {
          assert resto[j] == ys[j + 1] && resto[i] == ys[i + 1];
        }
      }
      InsertarOrdenada(x, resto, c, desc);
      var ins := Insertar(x, resto, c, desc);
      forall z | z in ins
        ensures !Antes(z, y, c, desc)
      {
        assert z in multiset(ins);
        if z == x {
          AntesAsimetrico(y, x, c, desc);
        } else {
          assert z in resto;
          var j :| 0 <= j < |resto| && resto[j] == z;
          assert ys[j + 1] == z;
        }
      }
      OrdenadaCons(y, ins, c, desc);
    }
  }

  lemma {:induction false} OrdenarOrdenada(filas: seq<seq<string>>, c: nat, desc: bool)
    requires Anchas(filas, c)
    ensures Ordenada(Ordenar(filas, c, desc), c, desc)
    decreases |filas|
  {
    if |filas| >= 2 {
      var resto := filas[1..];
      assert Anchas(resto, c);
      OrdenarOrdenada(resto, c, desc);
      var ord := Ordenar(resto, c, desc);
      assert Anchas(ord, c) by {
        forall z | z in ord ensures c < |z| {
          assert z in multiset(ord);
        }
      }
      InsertarOrdenada(filas[0], ord, c, desc);
    }
  }

  // =====================================================================
  // Stability

  /** The rows whose key is `k`, in order. */
  function ConClave(filas: seq<seq<string>>, c: nat, k: string): seq<seq<string>>
    requires Anchas(filas, c)
    decreases |filas|
  {
    if |filas| == 0 then []
    else (if Clave(filas[0], c) == k then [filas[0]] else []) + ConClave(filas[1..], c, k)
  }

  lemma ConClaveCons(y: seq<string>, zs: seq<seq<string>>, c: nat, k: string)
    requires c < |y| && Anchas(zs, c)
    ensures ConClave([y] + zs, c, k) == (if Clave(y, c) == k then [y] else []) + ConClave(zs, c, k)
  {
    assert ([y] + zs)[1..] == zs;
  }

  lemma {:induction false} InsertarEstable(x: seq<string>, ys: seq<seq<string>>, c: nat, desc: bool, k: string)
    requires c < |x| && Anchas(ys, c)
    ensures ConClave(Insertar(x, ys, c, desc), c, k) == ConClave([x] + ys, c, k)
    decreases |ys|
  {
    if |ys| > 0 && Antes(ys[0], x, c, desc) {
      var y := ys[0];
      var resto := ys[1..];
      assert ys == [y] + resto;
      AntesAsimetrico(y, x, c, desc);
      var ins := Insertar(x, resto, c, desc);
      assert Insertar(x, ys, c, desc) == [y] + ins;
      InsertarEstable(x, resto, c, desc, k);
      var py := if Clave(y, c) == k then [y] else [];
      var px := if Clave(x, c) == k then [x] else [];
      ConClaveCons(y, ins, c, k);
      ConClaveCons(x, resto, c, k);
      ConClaveCons(x, ys, c, k);
      ConClaveCons(y, resto, c, k);
      Intercambio(py, px, ConClave(resto, c, k));
    }
  }

  /** Two pieces of which at least one is empty commute in front of a rest. */
  lemma Intercambio<T>(a: seq<T>, b: seq<T>, resto: seq<T>)
    requires a == [] || b == []
    ensures a + (b + resto) == b + (a + resto)
  {
    if a == [] {
      assert a + (b + resto) == b + resto;
    } else {
      assert b + (a + resto) == a + resto;
    }
  }

  /** Rows with equal keys keep their relative order. */
  lemma {:induction false} OrdenarEstable(filas: seq<seq<string>>, c: nat, desc: bool, k: string)
    requires Anchas(filas, c)
    ensures ConClave(Ordenar(filas, c, desc), c, k) == ConClave(filas, c, k)
    decreases |filas|
  {
    if |filas| >= 2 {
      var resto := filas[1..];
      assert filas == [filas[0]] + resto;
      assert Anchas(resto, c);
      OrdenarEstable(resto, c, desc, k);
      var ord := Ordenar(resto, c, desc);
      assert Anchas(ord, c) by {
        forall z | z in ord ensures c < |z| {
          assert z in multiset(ord);
        }
      }
      InsertarEstable(filas[0], ord, c, desc, k);
      ConClaveCons(filas[0], ord, c, k);
      ConClaveCons(filas[0], resto, c, k);
    }
  }

  /** `sort_by` is a stable sort: the result is a permutation of the rows,
      in key order, with rows of equal key in their original order. */
  lemma OrdenarCorrecto(filas: seq<seq<string>>, c: nat, desc: bool)
    requires Anchas(filas, c)
    ensures var r := Ordenar(filas, c, desc);
            multiset(r) == multiset(filas)
            && Anchas(r, c) && Ordenada(r, c, desc)
            && forall k :: ConClave(r, c, k) == ConClave(filas, c, k)
  {
    var r := Ordenar(filas, c, desc);
    assert Anchas(r, c) by {
      forall z | z in r ensures c < |z| {
        assert z in multiset(r);
      }
    }
    OrdenarOrdenada(filas, c, desc);
    forall k | true
      ensures ConClave(r, c, k) == ConClave(filas, c, k)
    {
      OrdenarEstable(filas, c, desc, k);
    }
  }

  /** A successful ORDER BY on a known column yields the rows, split and
      trimmed, stably sorted ascending or descending by that column. */
  lemma OrdenarResultadoCorrecto(resultado: seq<string>, idx: map<string, nat>, orden: seq<string>)
    requires |orden| > 0 && orden[0] in idx && (Modo(orden) == "ASC" || Modo(orden) == "DESC")
    requires Anchas(Partidas(resultado), idx[orden[0]])
    ensures var r := OrdenarResultado(resultado, idx, orden);
            var c := idx[orden[0]];
            var desc := Modo(orden) == "DESC";
            r.Ok?
            && multiset(r.value) == multiset(Partidas(resultado))
            && Anchas(r.value, c) && Ordenada(r.value, c, desc)
            && forall k :: ConClave(r.value, c, k) == ConClave(Partidas(resultado), c, k)
  {
    OrdenarCorrecto(Partidas(resultado), idx[orden[0]], Modo(orden) == "DESC");
  }

  // =====================================================================
  // Projection

  /** When every name is a column the row has, the projection is those
      fields, one per name, in request order. */
  lemma {:induction false} ProyectarConocidos(fila: seq<string>, nombres: seq<string>, idx: map<string, nat>)
    requires forall k :: 0 <= k < |nombres| ==> nombres[k] in idx && idx[nombres[k]] < |fila|
    ensures |Proyectar(fila, nombres, idx)| == |nombres|
    ensures forall k :: 0 <= k < |nombres| ==> Proyectar(fila, nombres, idx)[k] == fila[idx[nombres[k]]]
    decreases |nombres|
  {
    if |nombres| > 0 {
      assert forall k :: 1 <= k < |nombres| ==> nombres[1..][k - 1] == nombres[k];
      ProyectarConocidos(fila, nombres[1..], idx);
    }
  }

  /** A name that is not a column the row has is dropped, so a list of
      only such names projects to nothing. */
  lemma {:induction false} ProyectarDesconocidos(fila: seq<string>, nombres: seq<string>, idx: map<string, nat>)
    requires forall k :: 0 <= k < |nombres| ==> !(nombres[k] in idx && idx[nombres[k]] < |fila|)
    ensures Proyectar(fila, nombres, idx) == []
    decreases |nombres|
  {
    if |nombres| > 0 {
      assert forall k :: 1 <= k < |nombres| ==> nombres[1..][k - 1] == nombres[k];
      ProyectarDesconocidos(fila, nombres[1..], idx);
    }
  }

  /** Projecting onto `a + b` is projecting onto `a`, then onto `b`. */
  lemma {:induction false} ProyectarUnion(fila: seq<string>, a: seq<string>, b: seq<string>, idx: map<string, nat>)
    ensures Proyectar(fila, a + b, idx) == Proyectar(fila, a, idx) + Proyectar(fila, b, idx)
    decreases |a|
  {
    if |a| > 0 {
      assert (a + b)[0] == a[0] && (a + b)[1..] == a[1..] + b;
      ProyectarUnion(fila, a[1..], b, idx);
    } else {
      assert a + b == b;
    }
  }

  // =====================================================================
  // The whole command

  /** `SELECT * FROM t` (optionally with a bare `;` as WHERE text) prints
      the header line unchanged and every data row with its fields trimmed,
      in file order. */
  lemma SelectTodo(t: string, fin: string, lineas: seq<string>)
    requires fin == "" || fin == ";"
    requires |lineas| > 0
    ensures var r := EjecutarSelect(Comandos.Select(["*"], t, fin, []), lineas);
            r.Ok? && |r.value| == |lineas|
            && r.value[0] == lineas[0]
            && forall k :: 1 <= k < |lineas| ==> r.value[k] == Join(Campos(lineas[k]), ",")
  {
    assert RecortarFin(fin, {';'}) == "";
    assert RecortarSufijo("", "; ") == "";
    assert Ejecutor.AdaptarWhere("") == [];
    assert Condicion(fin) == Ok(Unknown);
    JoinSplit(lineas[0], ',');
    assert [','] == ",";
  }

  /** A row is kept exactly when it is a row of the file that `e`
      accepts. */
  lemma {:induction false} FiltrarMiembros(filas: seq<string>, e: Expresion, idx: map<string, nat>)
    ensures forall x :: x in Filtrar(filas, e, idx) <==> x in filas && CumpleCW(x, e, idx)
    decreases |filas|
  {
    if |filas| > 0 {
      var previas := filas[..|filas| - 1];
      FiltrarMiembros(previas, e, idx);
      assert filas == previas + [filas[|filas| - 1]];
    }
  }

  /** No row accepted, nothing kept. */
  lemma {:induction false} FiltrarNinguna(filas: seq<string>, e: Expresion, idx: map<string, nat>)
    requires forall k :: 0 <= k < |filas| ==> !CumpleCW(filas[k], e, idx)
    ensures Filtrar(filas, e, idx) == []
    decreases |filas|
  {
    if |filas| > 0 {
      FiltrarNinguna(filas[..|filas| - 1], e, idx);
    }
  }

  /** A SELECT whose WHERE accepts no data row prints only its header. */
  lemma SelectVacio(lineas: seq<string>, e: Expresion, orden: seq<string>, campos: seq<string>)
    requires |lineas| > 0
    requires forall k :: 1 <= k < |lineas| ==> !CumpleCW(lineas[k], e, Indices(lineas))
    requires OrdenSinPanico(Filtrar(lineas[1..], e, Indices(lineas)), Indices(lineas), orden)
    ensures var r := ProcesarSelect(lineas, e, orden, campos);
            r.Ok? ==> (|r.value| == 1
                       && r.value[0] == (if campos == ["*"] then lineas[0] else Join(campos, ",")))
  {
    var idx := Indices(lineas);
    FiltrarNinguna(lineas[1..], e, idx);
    var r := ProcesarSelect(lineas, e, orden, campos);
    if r.Ok? {
      var res := OrdenarResultado([], idx, orden).value;
      assert |res| == 0;
      assert r.value == Mostrar(res, Split(lineas[0], ','), campos, idx);
    }
    JoinSplit(lineas[0], ',');
    assert [','] == ",";
  }
}
