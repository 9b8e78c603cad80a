/**
 * The class `GrafoDisperso`: a directed graph read from an edge-list file
 * into a CSR layout, with arbitrary integer ids remapped to dense indices.
 * A query keyed by an id that has never been seen registers that id, which
 * is why every query except the counters and statistics changes the maps.
 */
module Grafo {
  import opened Opcion
  import opened Lectura
  import opened Registro
  import opened Csr
  import opened Recorrido
  import opened Subgrafo

  /** `sizeof(int)` on the platforms the class targets. */
  const TamInt: int := 4

  /** Bytes charged per map entry: two ints and a 32-byte node overhead. */
  const TamEntrada: int := TamInt * 2 + 32

  /** `std::vector::resize(m, x)`: keeps the first `min(|s|, m)` elements and pads with `x`. */
  function Redimensionar(s: seq<int>, m: nat, x: int): (r: seq<int>)
    ensures |r| == m
    ensures forall k :: 0 <= k < m && k < |s| ==> r[k] == s[k]
    ensures forall k :: |s| <= k < m ==> r[k] == x
  {
    if m <= |s| then s[..m] else s + seq(m - |s|, _ => x)
  }

  /** The vector `lista_adyacencia_temp[i]` denotes: the stored one, or an empty one when `i` has none. */
  function Lista(temp: map<int, seq<int>>, i: int): (r: seq<int>)
    ensures i in temp ==> r == temp[i]
    ensures i !in temp ==> r == []
  {
    if i in temp then temp[i] else []
  }

  /**
   * The temporary lists the parse loop builds from edges in dense indices:
   * each edge pushes its destination onto its origin's list.
   */
  function Agrupar(e: seq<(int, int)>): map<int, seq<int>>
  {
    if e == [] then map[]
    else
      var t := Agrupar(e[..|e| - 1]);
      var (u, v) := e[|e| - 1];
      t[u := Lista(t, u) + [v]]
  }

  /** The list grouped under `i` holds the destinations of the edges from `i`, in order. */
  lemma {:induction false} AgruparDestinos(e: seq<(int, int)>, i: int)
    ensures Lista(Agrupar(e), i) == Destinos(e, i)
    decreases |e|
  {
    if e != [] {
      AgruparDestinos(e[..|e| - 1], i);
    }
  }

  /** `operator[]` creates a list exactly for the origins of the edges. */
  lemma {:induction false} AgruparClaves(e: seq<(int, int)>, u: int)
    ensures u in Agrupar(e) <==> exists k :: 0 <= k < |e| && e[k].0 == u
    decreases |e|
  {
    if e != [] {
      var p := e[..|e| - 1];
      AgruparClaves(p, u);
      if u in Agrupar(e) && u !in Agrupar(p) {
        assert e[|e| - 1].0 == u;
      }
      if exists k :: 0 <= k < |e| && e[k].0 == u {
        var k :| 0 <= k < |e| && e[k].0 == u;
        if k < |p| {
          assert p[k] == e[k];
        }
      }
    }
  }

  /** Every grouped list, at once. */
  lemma AgruparListas(e: seq<(int, int)>)
    ensures forall i :: Lista(Agrupar(e), i) == Destinos(e, i)
  {
    forall i {
      AgruparDestinos(e, i);
    }
  }

  // ---------------------------------------------------------------------
  // How the id-level edges and the index-level edges correspond

  /** The loaded edges in dense indices have, from `m[x]`, the indices of the destinations of `x`. */
  lemma {:induction false} DestinosTraducidos(t: Tablas, aristas: seq<(int, int)>, x: int)
    requires Inversos(t) && Registradas(t.idToIndex, aristas) && x in t.idToIndex
    ensures var ds := Destinos(Traducir(t.idToIndex, aristas), t.idToIndex[x]);
            var dx := Destinos(aristas, x);
            |ds| == |dx| &&
            forall k :: 0 <= k < |ds| ==> ds[k] in t.indexToId && t.indexToId[ds[k]] == dx[k]
    decreases |aristas|
  {
    if aristas != [] {
      var m := t.idToIndex;
      var p := aristas[..|aristas| - 1];
      var e := aristas[|aristas| - 1];
      assert Registradas(m, p);
      DestinosTraducidos(t, p, x);
      var tr := Traducir(m, aristas);
      assert tr[..|tr| - 1] == Traducir(m, p);
      assert tr[|tr| - 1] == (m[e.0], m[e.1]);
      Inyectiva(t, e.0, x);
      var dsp := Destinos(Traducir(m, p), m[x]);
      var dxp := Destinos(p, x);
      var ds := Destinos(tr, m[x]);
      var dx := Destinos(aristas, x);
      if e.0 == x {
        assert ds == dsp + [m[e.1]] && dx == dxp + [e.1];
        assert t.indexToId[m[e.1]] == e.1;
      } else {
        assert ds == dsp && dx == dxp;
      }
    }
  }

  /** An id whose index is not below `n` (or that has no index) is the origin of no loaded edge. */
  lemma {:induction false} SinSalientes(t: Tablas, aristas: seq<(int, int)>, n: int, x: int)
    requires Inversos(t) && Registradas(t.idToIndex, aristas)
    requires AristasEn(Traducir(t.idToIndex, aristas), n)
    requires !(x in t.idToIndex && t.idToIndex[x] < n)
    ensures Destinos(aristas, x) == []
    decreases |aristas|
  {
    if aristas != [] {
      var m := t.idToIndex;
      var p := aristas[..|aristas| - 1];
      var e := aristas[|aristas| - 1];
      var tr := Traducir(m, aristas);
      assert Registradas(m, p);
      assert tr[..|tr| - 1] == Traducir(m, p);
      SinSalientes(t, p, n, x);
      assert tr[|tr| - 1] == (m[e.0], m[e.1]);
    }
  }

  /** The tables after `obtenerIndice` on the origin, then the destination, of each edge in order. */
  function RegistrarAristas(t: Tablas, aristas: seq<(int, int)>): Tablas
  {
    if aristas == [] then t
    else
      var e := aristas[|aristas| - 1];
      Paso(Paso(RegistrarAristas(t, aristas[..|aristas| - 1]), e.0), e.1)
  }

  /** Registering edge by edge is registering the sequence of their ends, so the order-of-appearance results apply. */
  lemma {:induction false} RegistrarExtremos(t: Tablas, aristas: seq<(int, int)>)
    ensures RegistrarAristas(t, aristas) == Registrar(t, Extremos(aristas))
    decreases |aristas|
  {
    if aristas != [] {
      var p := aristas[..|aristas| - 1];
      var e := aristas[|aristas| - 1];
      RegistrarExtremos(t, p);
      var xs := Extremos(p);
      var ys := Extremos(aristas);
      assert ys == xs + [e.0, e.1];
      RegistrarUno(t, ys, |xs|);
      RegistrarUno(t, ys, |xs| + 1);
      assert ys[..|xs|] == xs && ys[..|xs| + 2] == ys;
    }
  }

  /** `Registrar` over one more id is one more `Paso`. */
  lemma RegistrarUno(t: Tablas, ids: seq<int>, k: int)
    requires 0 <= k < |ids|
    ensures Registrar(t, ids[..k + 1]) == Paso(Registrar(t, ids[..k]), ids[k])
  {
    assert ids[..k + 1][..k] == ids[..k];
  }

  /**
   * Pushing one accepted edge into the temporary lists keeps each list the
   * row, in dense indices, of the edges accepted so far.
   */
  lemma AgruparArista(m1: map<int, int>, m2: map<int, int>, aristas: seq<(int, int)>,
                      e: (int, int), temp: map<int, seq<int>>)
    requires Registradas(m1, aristas)
    requires forall id :: id in m1 ==> id in m2 && m2[id] == m1[id]
    requires e.0 in m2 && e.1 in m2
    requires temp == Agrupar(Traducir(m1, aristas))
    ensures Registradas(m2, aristas + [e])
    ensures temp[m2[e.0] := Lista(temp, m2[e.0]) + [m2[e.1]]] == Agrupar(Traducir(m2, aristas + [e]))
  {
    TraducirExtendido(m1, m2, aristas);
    var b := aristas + [e];
    assert b[..|b| - 1] == aristas;
    assert Registradas(m2, b);
    var tr := Traducir(m2, b);
    assert tr[..|tr| - 1] == Traducir(m2, aristas);
    assert tr[|tr| - 1] == (m2[e.0], m2[e.1]);
  }

  /**
   * One accepted line on top of the tables `t` its predecessors left:
   * registering its origin then its destination is registering one more
   * edge, and pushing the destination's index onto the origin's list is
   * grouping one more translated edge.
   */
  lemma AristaLeida(previas: seq<(int, int)>, e: (int, int), t: Tablas, temp: map<int, seq<int>>)
    requires Inversos(t)
    requires Registradas(t.idToIndex, previas) && temp == Agrupar(Traducir(t.idToIndex, previas))
    ensures var r := Paso(Paso(t, e.0), e.1);
            Inversos(r) && t.siguiente <= r.siguiente && r == RegistrarAristas(t, [e]) &&
            r.idToIndex[e.0] == Paso(t, e.0).idToIndex[e.0] &&
            Registradas(r.idToIndex, previas + [e]) &&
            temp[r.idToIndex[e.0] := Lista(temp, r.idToIndex[e.0]) + [r.idToIndex[e.1]]] ==
              Agrupar(Traducir(r.idToIndex, previas + [e]))
  {
    var r := Paso(Paso(t, e.0), e.1);
    assert [e][..0] == [];
    AgruparArista(t.idToIndex, r.idToIndex, previas, e, temp);
  }

  /** Registering two edge lists one after the other is registering their concatenation. */
  lemma {:induction false} RegistrarAristasConcat(t: Tablas, a: seq<(int, int)>, b: seq<(int, int)>)
    ensures RegistrarAristas(t, a + b) == RegistrarAristas(RegistrarAristas(t, a), b)
    decreases |b|
  {
    if b == [] {
      assert a + b == a;
    } else {
      var p := b[..|b| - 1];
      var e := b[|b| - 1];
      RegistrarAristasConcat(t, a, p);
      assert (a + b)[..|a + b| - 1] == a + p && (a + b)[|a + b| - 1] == e;
      calc {
        RegistrarAristas(t, a + b);
        Paso(Paso(RegistrarAristas(t, a + p), e.0), e.1);
        Paso(Paso(RegistrarAristas(RegistrarAristas(t, a), p), e.0), e.1);
        RegistrarAristas(RegistrarAristas(t, a), b);
      }
    }
  }

  /** The state of the parse loop of `cargarDatos`: the tables, the temporary lists and the count of edges read. */
  type Carga = (Tablas, map<int, seq<int>>, int)

  /**
   * One iteration of the parse loop on the state `c`: a line that is not an
   * edge leaves it as it is; an edge registers its origin, then its
   * destination, and pushes the destination's index onto the list of the
   * origin's index.
   */
  function LeerUna(c: Carga, linea: string): (r: Carga)
    ensures ParsearLinea(linea).None? ==> r == c
    ensures ParsearLinea(linea).Some? ==>
              r.2 == c.2 + 1 && ParsearLinea(linea).value.0 in r.0.idToIndex && ParsearLinea(linea).value.1 in r.0.idToIndex
    ensures Inversos(c.0) ==> Inversos(r.0) && Extiende(c.0, r.0)
  {
    match ParsearLinea(linea)
    case None => c
    case Some(e) =>
      var t1 := Paso(c.0, e.0);
      var t2 := Paso(t1, e.1);
      var o := t1.idToIndex[e.0];
      (t2, c.1[o := Lista(c.1, o) + [t2.idToIndex[e.1]]], c.2 + 1)
  }

  /** The parse loop over `lineas`, from the tables `t0`, empty lists and no edges read. */
  function Cargar(t0: Tablas, lineas: seq<string>): (r: Carga)
    ensures r.2 == |Aristas(lineas)|
  {
    if lineas == [] then (t0, map[], 0)
    else LeerUna(Cargar(t0, lineas[..|lineas| - 1]), lineas[|lineas| - 1])
  }

  /** Reading one more line is one more iteration. */
  lemma CargarUna(t0: Tablas, lineas: seq<string>, k: int)
    requires 0 <= k < |lineas|
    ensures Cargar(t0, lineas[..k + 1]) == LeerUna(Cargar(t0, lineas[..k]), lineas[k])
  {
    assert lineas[..k + 1][..k] == lineas[..k];
  }

  /**
   * What the parse loop leaves: the tables are `t0` with the ends of the
   * accepted edges registered in file order, the count is the number of
   * accepted edges, and the lists hold those edges grouped by origin index.
   */
  lemma {:induction false} CargarCorrecta(t0: Tablas, lineas: seq<string>)
    requires Inversos(t0)
    ensures var c := Cargar(t0, lineas);
            var a := Aristas(lineas);
            Inversos(c.0) && t0.siguiente <= c.0.siguiente && c.0 == RegistrarAristas(t0, a) && c.2 == |a| &&
            Registradas(c.0.idToIndex, a) && c.1 == Agrupar(Traducir(c.0.idToIndex, a))
    decreases |lineas|
  {
    if lineas != [] {
      var p := lineas[..|lineas| - 1];
      var l := lineas[|lineas| - 1];
      CargarCorrecta(t0, p);
      var c := Cargar(t0, p);
      var a := Aristas(p);
      assert Cargar(t0, lineas) == LeerUna(c, l);
      assert Aristas(lineas) == a + Aceptada(l);
      match ParsearLinea(l)
      case None =>
        assert Aristas(lineas) == a;
      case Some(e) =>
        assert Aristas(lineas) == a + [e];
        AristaLeida(a, e, c.0, c.1);
        RegistrarAristasConcat(t0, a, [e]);
    }
  }

  /** The temporary lists of `0 .. m-1`, one after the other: what the index loops of `cargarDatos` lay out. */
  function Concatenar(temp: map<int, seq<int>>, m: nat): seq<int> {
    if m == 0 then [] else Concatenar(temp, m - 1) + Lista(temp, m - 1)
  }

  /** A value is laid out exactly when it is in the list of some index below `m`. */
  lemma {:induction false} ConcatenarMiembro(temp: map<int, seq<int>>, m: nat, x: int)
    ensures x in Concatenar(temp, m) <==> exists i :: 0 <= i < m && x in Lista(temp, i)
    decreases m
  {
    if m > 0 {
      ConcatenarMiembro(temp, m - 1, x);
      assert Concatenar(temp, m) == Concatenar(temp, m - 1) + Lista(temp, m - 1);
    }
  }

  /** Writing the end of row `i` after rows `0 .. i-1` keeps the row starts of rows `0 .. i`. */
  lemma SiguienteInicio(rp: seq<int>, temp: map<int, seq<int>>, i: nat)
    requires i + 1 < |rp| && forall j {:trigger rp[j]} :: 0 <= j <= i ==> rp[j] == |Concatenar(temp, j)|
    ensures var f := rp[i] + |Lista(temp, i)|;
            forall j :: 0 <= j <= i + 1 ==> rp[i + 1 := f][j] == |Concatenar(temp, j)|
  {
  }

  /** Laying out more lists never shortens the result. */
  lemma {:induction false} ConcatenarCrece(temp: map<int, seq<int>>, i: nat, j: nat)
    requires i <= j
    ensures |Concatenar(temp, i)| <= |Concatenar(temp, j)|
    decreases j
  {
    if i < j {
      ConcatenarCrece(temp, i, j - 1);
    }
  }

  /** When each temporary list is the row of `e`, laying them out is laying out `e`. */
  lemma {:induction false} ConcatenarAplanar(temp: map<int, seq<int>>, e: seq<(int, int)>, m: nat)
    requires forall i :: Lista(temp, i) == Destinos(e, i)
    ensures Concatenar(temp, m) == Aplanar(e, m)
    decreases m
  {
    if m > 0 {
      ConcatenarAplanar(temp, e, m - 1);
      assert Lista(temp, m - 1) == Destinos(e, m - 1);
    }
  }

  /** `col_indices[pos++] = vecino` extends the copied prefix by one more destination. */
  lemma Escribir(c: seq<int>, pos: int, previas: seq<int>, vecinos: seq<int>, j: int)
    requires 0 <= pos < |c| && 0 <= j < |vecinos| && c[..pos] == previas + vecinos[..j]
    ensures c[pos := vecinos[j]][..pos + 1] == previas + vecinos[..j + 1]
  {
    assert vecinos[..j + 1] == vecinos[..j] + [vecinos[j]];
  }

  /**
   * The class invariant on the fields' values: the maps are inverse over
   * `[0, siguiente)`, the layout holds the loaded edges in dense indices over
   * `n` nodes (or is empty before any load), and `na` counts them.
   */
  ghost predicate Coherente(rp: seq<int>, ci: seq<int>, n: int, na: int, t: Tablas, aristas: seq<(int, int)>) {
    Inversos(t) && 0 <= n <= t.siguiente && na == |ci| == |aristas| &&
    Registradas(t.idToIndex, aristas) && AristasEn(Traducir(t.idToIndex, aristas), n) &&
    (rp == [] ==> n == 0 && ci == []) &&
    (rp != [] ==> Construido(rp, ci, n, Traducir(t.idToIndex, aristas)))
  }

  /**
   * The scan of `obtenerNodoMaxGrado` over the row offsets: the first index of
   * largest out-degree and that degree, or `(-1, -1)` when there are no rows.
   */
  method MayorGrado(rp: seq<int>, n: int) returns (nodo: int, grado: int)
    requires n >= 0 && (n > 0 ==> |rp| == n + 1 && forall i, j :: 0 <= i <= j <= n ==> rp[i] <= rp[j])
    ensures n == 0 ==> nodo == -1 && grado == -1
    ensures n > 0 ==>
              0 <= nodo < n && grado == rp[nodo + 1] - rp[nodo] &&
              (forall j :: 0 <= j < n ==> rp[j + 1] - rp[j] <= grado) &&
              (forall j :: 0 <= j < nodo ==> rp[j + 1] - rp[j] < grado)
  {
    grado, nodo := -1, -1;
    var i := 0;
    while i < n
      invariant 0 <= i <= n
      invariant i == 0 ==> grado == -1 && nodo == -1
      invariant i > 0 ==> 0 <= nodo < i && grado == rp[nodo + 1] - rp[nodo]
      invariant forall j :: 0 <= j < i ==> rp[j + 1] - rp[j] <= grado
      invariant forall j :: 0 <= j < nodo ==> rp[j + 1] - rp[j] < grado
    {
      var g := rp[i + 1] - rp[i];
      assert g >= 0;
      if g > grado {
        grado, nodo := g, i;
      }
      i := i + 1;
    }
  }

  /** Registering an id keeps the invariant: a new id's index lies outside the layout. */
  lemma PasoCoherente(rp: seq<int>, ci: seq<int>, n: int, na: int, t: Tablas, aristas: seq<(int, int)>, id: int)
    requires Coherente(rp, ci, n, na, t, aristas)
    ensures Coherente(rp, ci, n, na, Paso(t, id), aristas)
  {
    TraducirExtendido(t.idToIndex, Paso(t, id).idToIndex, aristas);
  }

  /** The estimate `obtenerMemoriaEstimada` computes: `TamInt` bytes per layout cell, `TamEntrada` per map entry. */
  function Memoria(rp: seq<int>, ci: seq<int>, t: Tablas): (r: int)
    ensures r >= (|rp| + |ci|) * TamInt >= 0
  {
    |rp| * TamInt + |ci| * TamInt + |t.idToIndex| * TamEntrada + |t.indexToId| * TamEntrada
  }

  /** Registering an unknown id adds one entry to each map, so the estimate grows by two entries; a known id changes nothing. */
  lemma MemoriaPaso(rp: seq<int>, ci: seq<int>, t: Tablas, id: int)
    requires Inversos(t)
    ensures id !in t.idToIndex ==> Memoria(rp, ci, Paso(t, id)) == Memoria(rp, ci, t) + 2 * TamEntrada
    ensures id in t.idToIndex ==> Memoria(rp, ci, Paso(t, id)) == Memoria(rp, ci, t)
  {
  }

  /** After the parse loop, every registered index is a node and the lists hold every accepted edge once. */
  lemma LongitudCarga(temp: map<int, seq<int>>, t: Tablas, aristas: seq<(int, int)>)
    requires Inversos(t) && Registradas(t.idToIndex, aristas)
    requires temp == Agrupar(Traducir(t.idToIndex, aristas))
    ensures AristasEn(Traducir(t.idToIndex, aristas), t.siguiente)
    ensures |Concatenar(temp, t.siguiente)| == |aristas|
  {
    var e := Traducir(t.idToIndex, aristas);
    forall k | 0 <= k < |e|
      ensures 0 <= e[k].0 < t.siguiente && 0 <= e[k].1 < t.siguiente
    {
      var (x, y) := aristas[k];
      assert x in t.idToIndex && y in t.idToIndex;
    }
    AplanarLongitud(e, t.siguiente);
    AgruparListas(e);
    ConcatenarAplanar(temp, e, t.siguiente);
  }

  /** The arrays the index loops build from the parse loop's lists satisfy the class invariant. */
  lemma CargaCoherente(temp: map<int, seq<int>>, rp: seq<int>, ci: seq<int>, t: Tablas, aristas: seq<(int, int)>)
    requires Inversos(t) && Registradas(t.idToIndex, aristas)
    requires temp == Agrupar(Traducir(t.idToIndex, aristas))
    requires |rp| == t.siguiente + 1 && forall j {:trigger rp[j]} :: 0 <= j <= t.siguiente ==> rp[j] == |Concatenar(temp, j)|
    requires ci == Concatenar(temp, t.siguiente)
    ensures Coherente(rp, ci, t.siguiente, |aristas|, t, aristas)
  {
    var e := Traducir(t.idToIndex, aristas);
    LongitudCarga(temp, t, aristas);
    AgruparListas(e);
    forall j: nat | j <= t.siguiente
      ensures Concatenar(temp, j) == Aplanar(e, j)
    {
      ConcatenarAplanar(temp, e, j);
    }
  }

  // ---------------------------------------------------------------------
  // Loops of the queries, over values

  /** `obtenerId` over the map `ix`: the id held at `indice`, or `-1`. */
  function IdDe(ix: map<int, int>, indice: int): (r: int)
    ensures indice in ix ==> r == ix[indice]
    ensures indice !in ix ==> r == -1
  {
    if indice in ix then ix[indice] else -1
  }

  /**
   * Under inverse maps `obtenerId` undoes `obtenerIndice`: a registered id
   * comes back from its index, and every index below `siguiente_indice`
   * gives back a registered id that owns it.
   */
  lemma IdDeInverso(t: Tablas, x: int, i: int)
    requires Inversos(t)
    ensures x in t.idToIndex ==> IdDe(t.indexToId, t.idToIndex[x]) == x
    ensures 0 <= i < t.siguiente ==> IdDe(t.indexToId, i) in t.idToIndex && t.idToIndex[IdDe(t.indexToId, i)] == i
    ensures !(0 <= i < t.siguiente) ==> IdDe(t.indexToId, i) == -1
  {
  }

  /** Each index of `xs` turned back into its id through `ix`. */
  function IdsDe(ix: map<int, int>, xs: seq<int>): (r: seq<int>)
    ensures |r| == |xs|
  {
    if xs == [] then [] else IdsDe(ix, xs[..|xs| - 1]) + [IdDe(ix, xs[|xs| - 1])]
  }

  /** Translating index by index gives the ids `dx` when each index maps to its id in `dx`. */
  lemma {:induction false} IdsIguales(ix: map<int, int>, ds: seq<int>, dx: seq<int>)
    requires |ds| == |dx| && forall k :: 0 <= k < |ds| ==> ds[k] in ix && ix[ds[k]] == dx[k]
    ensures IdsDe(ix, ds) == dx
    decreases |ds|
  {
    if ds != [] {
      IdsIguales(ix, ds[..|ds| - 1], dx[..|dx| - 1]);
      assert dx == dx[..|dx| - 1] + [dx[|dx| - 1]];
    }
  }

  /** One more index of a row scan, turned back into its id. */
  lemma IdsUno(ix: map<int, int>, ci: seq<int>, a: int, i: int)
    requires 0 <= a <= i < |ci|
    ensures IdsDe(ix, ci[a..i + 1]) == IdsDe(ix, ci[a..i]) + [IdDe(ix, ci[i])]
  {
    assert ci[a..i + 1][..i - a] == ci[a..i];
  }

  /** Row `i` of a built layout is the stretch `ci[rp[i]..rp[i+1])`, holding `i`'s destinations. */
  lemma FilaDeCarga(rp: seq<int>, ci: seq<int>, n: int, e: seq<(int, int)>, i: int)
    requires Construido(rp, ci, n, e) && AristasEn(e, n) && 0 <= i < n
    ensures 0 <= rp[i] <= rp[i + 1] <= |ci| && ci[rp[i]..rp[i + 1]] == Destinos(e, i)
  {
    ConstruidoBien(rp, ci, n, e);
    assert rp[0] <= rp[i] && rp[i + 1] <= rp[n];
  }

  /**
   * Under the invariant, the row of a known id `x` turned back into ids is
   * `x`'s loaded destinations in file order.
   */
  lemma FilaTraducida(rp: seq<int>, ci: seq<int>, n: int, na: int, t: Tablas, aristas: seq<(int, int)>, x: int)
    requires Coherente(rp, ci, n, na, t, aristas) && x in t.idToIndex && 0 <= t.idToIndex[x] < n
    ensures var i := t.idToIndex[x];
            |rp| == n + 1 && 0 <= rp[i] <= rp[i + 1] <= |ci| &&
            IdsDe(t.indexToId, ci[rp[i]..rp[i + 1]]) == Destinos(aristas, x)
  {
    var e := Traducir(t.idToIndex, aristas);
    var i := t.idToIndex[x];
    FilaDeCarga(rp, ci, n, e, i);
    DestinosTraducidos(t, aristas, x);
    IdsIguales(t.indexToId, Destinos(e, i), Destinos(aristas, x));
  }

  /** The loop that fills `conjunto_nodos`: the set of the listed ids. */
  method ConjuntoDe(nodos: seq<int>) returns (c: set<int>)
    ensures forall x :: x in c <==> x in nodos
    ensures c == Conjunto(nodos)
  {
    c := {};
    var k := 0;
    while k < |nodos|
      invariant 0 <= k <= |nodos| && forall x :: x in c <==> x in nodos[..k]
    {
      assert nodos[..k + 1] == nodos[..k] + [nodos[k]];
      c := c + {nodos[k]};
      k := k + 1;
    }
    assert nodos[..k] == nodos;
  }

  /** The row scan of `getVecinos`: the cells `ci[inicio..fin)` turned back into ids, in order. */
  method Renombrar(ci: seq<int>, inicio: int, fin: int, ix: map<int, int>) returns (r: seq<int>)
    requires 0 <= inicio <= fin <= |ci|
    ensures r == IdsDe(ix, ci[inicio..fin])
  {
    r := [];
    var i := inicio;
    while i < fin
      invariant inicio <= i <= fin && r == IdsDe(ix, ci[inicio..i])
    {
      IdsUno(ix, ci, inicio, i);
      r := r + [IdDe(ix, ci[i])];
      i := i + 1;
    }
  }

  /**
   * The row scan of `obtenerAristasSubgrafo` for `nodo`: the pairs from
   * `nodo` to the ids of `ci[inicio..fin)` that lie in `conjunto`, in order.
   */
  method Filtrar(ci: seq<int>, inicio: int, fin: int, ix: map<int, int>, nodo: int, conjunto: set<int>)
    returns (r: seq<(int, int)>)
    requires 0 <= inicio <= fin <= |ci|
    ensures r == Salientes(nodo, IdsDe(ix, ci[inicio..fin]), conjunto)
  {
    r := [];
    var i := inicio;
    while i < fin
      invariant inicio <= i <= fin && r == Salientes(nodo, IdsDe(ix, ci[inicio..i]), conjunto)
    {
      IdsUno(ix, ci, inicio, i);
      var idVecino := IdDe(ix, ci[i]);
      if idVecino in conjunto {
        r := r + [(nodo, idVecino)];
      }
      i := i + 1;
    }
  }

  // ---------------------------------------------------------------------

  class GrafoDisperso {
    /** Row `i` of the CSR layout is `colIndices[rowPtr[i] .. rowPtr[i+1])`. */
    var rowPtr: seq<int>
    /** The destinations of every row, row after row. */
    var colIndices: seq<int>
    var numNodos: int
    var numAristas: int
    /** Original id to dense index. */
    var idToIndex: map<int, int>
    /** Dense index to original id. */
    var indexToId: map<int, int>
    /** The next dense index to hand out. */
    var siguienteIndice: int
    /** The edges the last load accepted, in original ids and file order. */
    ghost var aristas: seq<(int, int)>

    /** The id maps and the next free index, as one value. */
    function Mapeo(): Tablas
      reads this
    {
      Tablas(idToIndex, indexToId, siguienteIndice)
    }

    /**
     * The class invariant: the maps are inverse over `[0, siguienteIndice)`,
     * the layout holds the last load's edges in dense indices over `numNodos`
     * nodes (or is empty before any load), and `numAristas` counts them.
     */
    ghost predicate Valid()
      reads this
    {
      Coherente(rowPtr, colIndices, numNodos, numAristas, Mapeo(), aristas)
    }

    /** The id has an index inside the layout: the queries' `0 <= idx < num_nodos`. */
    predicate Conocido(id: int)
      reads this
    {
      id in idToIndex && 0 <= idToIndex[id] < numNodos
    }

    /** The out-degree the layout stores for index `i`. */
    function Grado(i: int): int
      reads this
      requires 0 <= i && i + 1 < |rowPtr|
    {
      rowPtr[i + 1] - rowPtr[i]
    }

    /** A loaded layout is well formed. */
    lemma Forma()
      requires Valid() && numNodos > 0
      ensures Bien(rowPtr, colIndices, numNodos)
    {
      ConstruidoBien(rowPtr, colIndices, numNodos, Traducir(idToIndex, aristas));
    }

    /** The layout is well formed and row `i` is the row of the loaded edges. */
    lemma Disposicion()
      requires Valid() && (rowPtr != [] || numNodos > 0)
      ensures rowPtr != [] && Bien(rowPtr, colIndices, numNodos) && |colIndices| == |aristas|
      ensures forall i :: 0 <= i < numNodos ==>
                Fila(rowPtr, colIndices, numNodos, i) == Destinos(Traducir(idToIndex, aristas), i)
    {
      ConstruidoBien(rowPtr, colIndices, numNodos, Traducir(idToIndex, aristas));
    }

    /**
     * The row of a known id, seen through `indexToId`, is that id's loaded
     * destinations in file order.
     */
    lemma FilaDeId(x: int)
      requires Valid() && Conocido(x)
      ensures var i := idToIndex[x];
              |rowPtr| == numNodos + 1 && 0 <= rowPtr[i] <= rowPtr[i + 1] <= |colIndices| &&
              IdsDe(indexToId, colIndices[rowPtr[i]..rowPtr[i + 1]]) == Destinos(aristas, x)
    {
      FilaTraducida(rowPtr, colIndices, numNodos, numAristas, Mapeo(), aristas, x);
    }

    /** The layout's degree of a known id is the number of accepted lines with that origin. */
    lemma GradoDeId(x: int)
      requires Valid() && Conocido(x)
      ensures Grado(idToIndex[x]) == |Destinos(aristas, x)|
    {
      FilaDeId(x);
    }

    // -------------------------------------------------------------------
    // Operations

    /** `GrafoDisperso()`: counters at zero, containers empty. */
    constructor ()
      ensures Valid()
      ensures rowPtr == [] && colIndices == [] && numNodos == 0 && numAristas == 0
      ensures Mapeo() == Vacias && aristas == []
      ensures ObtenerMemoriaEstimada() == 0
    {
      rowPtr := [];
      colIndices := [];
      numNodos := 0;
      numAristas := 0;
      idToIndex := map[];
      indexToId := map[];
      siguienteIndice := 0;
      aristas := [];
    }

    /**
     * `obtenerIndice`: the dense index of `id`, which is registered at
     * `siguienteIndice` (outside the layout) when it is new.
     */
    method ObtenerIndice(id: int) returns (idx: int)
      requires numNodos <= siguienteIndice
      modifies this`idToIndex, this`indexToId, this`siguienteIndice
      ensures Mapeo() == Paso(old(Mapeo()), id)
      ensures id in idToIndex && idx == idToIndex[id]
      ensures old(Conocido(id)) <==> 0 <= idx < numNodos
    {
      ghost var t := Mapeo();
      if id !in idToIndex {
        idToIndex := idToIndex[id := siguienteIndice];
        indexToId := indexToId[siguienteIndice := id];
        siguienteIndice := siguienteIndice + 1;
      }
      idx := idToIndex[id];
      assert Mapeo() == Paso(t, id);
    }

    /** `obtenerId`: the original id of a dense index, and `-1` for an index nobody holds. */
    function ObtenerId(indice: int): (id: int)
      reads this
      ensures Valid() && 0 <= indice < siguienteIndice ==> id in idToIndex && idToIndex[id] == indice
      ensures Valid() && !(0 <= indice < siguienteIndice) ==> id == -1
    {
      IdDe(indexToId, indice)
    }

    /**
     * The parse loop of `cargarDatos`: every accepted line registers its
     * origin, then its destination, and pushes the destination's index onto
     * the origin's temporary list.
     */
    method LeerAristas(lineas: seq<string>) returns (temp: map<int, seq<int>>, leidas: int)
      requires Inversos(Mapeo()) && numNodos <= siguienteIndice
      modifies this`idToIndex, this`indexToId, this`siguienteIndice
      ensures Inversos(Mapeo())
      ensures Mapeo() == RegistrarAristas(old(Mapeo()), Aristas(lineas))
      ensures leidas == |Aristas(lineas)|
      ensures Registradas(idToIndex, Aristas(lineas))
      ensures temp == Agrupar(Traducir(idToIndex, Aristas(lineas)))
    {
      ghost var t0 := Mapeo();
      temp := map[];
      leidas := 0;
      var k := 0;
      while k < |lineas|
        invariant 0 <= k <= |lineas| && numNodos <= siguienteIndice
        invariant (Mapeo(), temp, leidas) == Cargar(t0, lineas[..k])
      {
        CargarUna(t0, lineas, k);
        temp, leidas := LeerLinea(lineas[k], temp, leidas);
        k := k + 1;
      }
      assert lineas[..k] == lineas;
      CargarCorrecta(t0, lineas);
    }

    /**
     * One iteration of the parse loop: an empty line, a comment or a line
     * without two integers is skipped; otherwise its origin, then its
     * destination, are registered and the destination's index is pushed
     * onto the origin's list.
     */
    method LeerLinea(linea: string, temp: map<int, seq<int>>, leidas: int)
      returns (temp2: map<int, seq<int>>, leidas2: int)
      requires numNodos <= siguienteIndice
      modifies this`idToIndex, this`indexToId, this`siguienteIndice
      ensures (Mapeo(), temp2, leidas2) == LeerUna((old(Mapeo()), temp, leidas), linea)
      ensures old(siguienteIndice) <= siguienteIndice
    {
      temp2, leidas2 := temp, leidas;
      if linea != [] && linea[0] != '#' {
        var par := ParsearLinea(linea);
        if par.Some? {
          var (origen, destino) := par.value;
          var idxOrigen := ObtenerIndice(origen);
          var idxDestino := ObtenerIndice(destino);
          temp2 := temp[idxOrigen := Lista(temp, idxOrigen) + [idxDestino]];
          leidas2 := leidas + 1;
        }
      }
    }

    /** The first index loop of `cargarDatos`: each row starts where the previous one ends. */
    method ConstruirFilas(temp: map<int, seq<int>>)
      requires numNodos >= 0 && (rowPtr == [] || rowPtr[0] == 0)
      modifies this`rowPtr
      ensures |rowPtr| == numNodos + 1 && forall i {:trigger rowPtr[i]} :: 0 <= i <= numNodos ==> rowPtr[i] == |Concatenar(temp, i)|
    {
      rowPtr := Redimensionar(rowPtr, numNodos + 1, 0);
      var i := 0;
      while i < numNodos
        invariant 0 <= i <= numNodos && |rowPtr| == numNodos + 1
        invariant forall j {:trigger rowPtr[j]} :: 0 <= j <= i ==> rowPtr[j] == |Concatenar(temp, j)|
      {
        SiguienteInicio(rowPtr, temp, i);
        if i in temp {
          rowPtr := rowPtr[i + 1 := rowPtr[i] + |temp[i]|];
        } else {
          rowPtr := rowPtr[i + 1 := rowPtr[i]];
        }
        i := i + 1;
      }
    }

    /** The inner loop of the second index loop of `cargarDatos`: `col_indices[pos++] = vecino` for each destination of one row. */
    method CopiarFila(vecinos: seq<int>, pos: int, ghost previas: seq<int>) returns (fin: int)
      requires 0 <= pos && pos + |vecinos| <= |colIndices| && colIndices[..pos] == previas
      modifies this`colIndices
      ensures fin == pos + |vecinos| && |colIndices| == old(|colIndices|)
      ensures colIndices[..fin] == previas + vecinos
      ensures colIndices[fin..] == old(colIndices)[fin..]
      ensures rowPtr == old(rowPtr) && numNodos == old(numNodos) && numAristas == old(numAristas)
      ensures Mapeo() == old(Mapeo()) && aristas == old(aristas)
    {
      fin := pos;
      var j := 0;
      while j < |vecinos|
        invariant 0 <= j <= |vecinos| && fin == pos + j && |colIndices| == old(|colIndices|)
        invariant colIndices[..fin] == previas + vecinos[..j]
        invariant colIndices[pos + |vecinos|..] == old(colIndices)[pos + |vecinos|..]
      {
        Escribir(colIndices, fin, previas, vecinos, j);
        colIndices := colIndices[fin := vecinos[j]];
        fin := fin + 1;
        j := j + 1;
      }
      assert vecinos[..j] == vecinos;
    }

    /** The second index loop of `cargarDatos`: the rows' destinations, row after row. */
    method ConstruirColumnas(temp: map<int, seq<int>>)
      requires numNodos >= 0 && numAristas == |Concatenar(temp, numNodos)|
      modifies this`colIndices
      ensures colIndices == Concatenar(temp, numNodos)
    {
      colIndices := Redimensionar(colIndices, numAristas, 0);
      var pos := 0;
      var i := 0;
      while i < numNodos
        invariant 0 <= i <= numNodos && |colIndices| == numAristas
        invariant pos == |Concatenar(temp, i)| <= numAristas
        invariant colIndices[..pos] == Concatenar(temp, i)
      {
        ConcatenarCrece(temp, i + 1, numNodos);
        if i in temp {
          pos := CopiarFila(temp[i], pos, Concatenar(temp, i));
        }
        i := i + 1;
      }
      assert colIndices[..pos] == colIndices;
    }

    /**
     * The end of `cargarDatos` after the parse loop: every registered index
     * becomes a node, and the two index loops lay out the temporary lists.
     */
    method Indexar(temp: map<int, seq<int>>, leidas: int, ghost a: seq<(int, int)>)
      requires Inversos(Mapeo()) && Registradas(idToIndex, a) && leidas == |a|
      requires temp == Agrupar(Traducir(idToIndex, a))
      requires rowPtr == [] || rowPtr[0] == 0
      modifies this`rowPtr, this`colIndices, this`numNodos, this`numAristas, this`aristas
      ensures Valid()
      ensures numNodos == siguienteIndice && numAristas == |a| && aristas == a
      ensures Construido(rowPtr, colIndices, numNodos, Traducir(idToIndex, a))
    {
      LongitudCarga(temp, Mapeo(), a);
      numNodos := siguienteIndice;
      numAristas := leidas;
      ConstruirFilas(temp);
      ConstruirColumnas(temp);
      aristas := a;
      CargaCoherente(temp, rowPtr, colIndices, Mapeo(), aristas);
    }

    /**
     * `cargarDatos`: a file that cannot be opened changes nothing. Otherwise
     * the accepted lines' ids are registered in order of appearance (the maps
     * are not cleared), every registered index becomes a node, and the layout
     * holds exactly the accepted edges.
     */
    method CargarDatos(archivo: Option<seq<string>>)
      requires Valid()
      modifies this`rowPtr, this`colIndices, this`numNodos, this`numAristas, this`aristas
      modifies this`idToIndex, this`indexToId, this`siguienteIndice
      ensures Valid()
      ensures archivo.None? ==> unchanged(this)
      ensures archivo.Some? ==>
                var lineas := archivo.value;
                Mapeo() == RegistrarAristas(old(Mapeo()), Aristas(lineas)) &&
                numNodos == siguienteIndice && numAristas == |Aristas(lineas)| &&
                aristas == Aristas(lineas) &&
                Construido(rowPtr, colIndices, numNodos, Traducir(idToIndex, Aristas(lineas)))
    {
      if archivo.None? {
        return;
      }
      var lineas := archivo.value;
      assert rowPtr != [] ==> rowPtr[0] == |Aplanar(Traducir(idToIndex, aristas), 0)| == 0;
      var temp, leidas := LeerAristas(lineas);
      Indexar(temp, leidas, Aristas(lineas));
    }

    /**
     * `BFS`: an unknown start (registered on the way) gives `[]`; a known one
     * gives the ids of a breadth-first order of the nodes within
     * `profundidadMaxima` steps of it.
     */
    method Bfs(nodoInicio: int, profundidadMaxima: int) returns (r: seq<int>, ghost orden: seq<int>)
      requires Valid()
      modifies this`idToIndex, this`indexToId, this`siguienteIndice
      ensures Valid() && Mapeo() == Paso(old(Mapeo()), nodoInicio)
      ensures !old(Conocido(nodoInicio)) ==> r == []
      ensures old(Conocido(nodoInicio)) ==>
                rowPtr != [] && Bien(rowPtr, colIndices, numNodos) &&
                EsRecorrido(rowPtr, colIndices, numNodos, idToIndex[nodoInicio], profundidadMaxima, orden) &&
                orden == Orden(rowPtr, colIndices, numNodos, idToIndex[nodoInicio], profundidadMaxima) &&
                Nombres(r, orden, indexToId)
    {
      ghost var t := Mapeo();
      var idx := ObtenerIndice(nodoInicio);
      PasoCoherente(rowPtr, colIndices, numNodos, numAristas, t, aristas, nodoInicio);
      if idx >= numNodos || idx < 0 {
        r, orden := [], [];
        return;
      }
      Disposicion();
      r, orden := Buscar(rowPtr, colIndices, numNodos, indexToId, idx, profundidadMaxima);
    }

    /** `obtenerGrado`: the number of accepted lines leaving a known id, and `-1` for an unknown one. */
    method ObtenerGrado(nodo: int) returns (g: int)
      requires Valid()
      modifies this`idToIndex, this`indexToId, this`siguienteIndice
      ensures Valid() && Mapeo() == Paso(old(Mapeo()), nodo)
      ensures old(Conocido(nodo)) ==> g == |Destinos(aristas, nodo)| && g == Grado(idToIndex[nodo])
      ensures !old(Conocido(nodo)) ==> g == -1
    {
      ghost var t := Mapeo();
      var idx := ObtenerIndice(nodo);
      PasoCoherente(rowPtr, colIndices, numNodos, numAristas, t, aristas, nodo);
      if idx >= numNodos || idx < 0 {
        return -1;
      }
      GradoDeId(nodo);
      g := rowPtr[idx + 1] - rowPtr[idx];
    }

    /** `getVecinos`: a known id's destinations in file order, and `[]` for an unknown one. */
    method GetVecinos(nodo: int) returns (vecinos: seq<int>)
      requires Valid()
      modifies this`idToIndex, this`indexToId, this`siguienteIndice
      ensures Valid() && Mapeo() == Paso(old(Mapeo()), nodo)
      ensures old(Conocido(nodo)) ==> vecinos == Destinos(aristas, nodo)
      ensures !old(Conocido(nodo)) ==> vecinos == [] && Destinos(aristas, nodo) == []
    {
      ghost var t := Mapeo();
      var idx := ObtenerIndice(nodo);
      PasoCoherente(rowPtr, colIndices, numNodos, numAristas, t, aristas, nodo);
      if idx >= numNodos || idx < 0 {
        SinSalientes(Mapeo(), aristas, numNodos, nodo);
        return [];
      }
      FilaDeId(nodo);
      vecinos := Renombrar(colIndices, rowPtr[idx], rowPtr[idx + 1], indexToId);
    }

    /** `obtenerNumNodos`: the nodes of the layout, every index registered up to the last load. */
    function ObtenerNumNodos(): (r: int)
      reads this
      ensures Valid() ==> 0 <= r <= siguienteIndice && (rowPtr != [] ==> |rowPtr| == r + 1)
      ensures Valid() ==> forall k :: 0 <= k < |aristas| ==> idToIndex[aristas[k].0] < r && idToIndex[aristas[k].1] < r
    {
      numNodos
    }

    /** `obtenerNumAristas`: the number of lines the last load accepted. */
    function ObtenerNumAristas(): (r: int)
      reads this
      ensures Valid() ==> r == |aristas| && r == |colIndices|
    {
      numAristas
    }

    /**
     * `obtenerNodoMaxGrado`: the id of the first index of largest out-degree
     * and that degree; `(-1, -1)` for a graph with no nodes.
     */
    method ObtenerNodoMaxGrado() returns (id: int, grado: int, ghost nodo: int)
      requires Valid()
      ensures numNodos == 0 ==> id == -1 && grado == -1
      ensures numNodos > 0 ==>
                0 <= nodo < numNodos && id == ObtenerId(nodo) && grado == Grado(nodo) &&
                (forall j :: 0 <= j < numNodos ==> Grado(j) <= grado) &&
                (forall j :: 0 <= j < nodo ==> Grado(j) < grado)
    {
      if numNodos > 0 {
        Forma();
      }
      var nodoMax, maxGrado := MayorGrado(rowPtr, numNodos);
      id, grado, nodo := ObtenerId(nodoMax), maxGrado, nodoMax;
    }

    /**
     * `obtenerAristasSubgrafo`: for each listed id in order (registering
     * unknown ones), its loaded edges whose destination is also listed.
     */
    method ObtenerAristasSubgrafo(nodos: seq<int>) returns (res: seq<(int, int)>)
      requires Valid()
      modifies this`idToIndex, this`indexToId, this`siguienteIndice
      ensures Valid() && Mapeo() == Registrar(old(Mapeo()), nodos)
      ensures res == Inducidas(aristas, nodos, Conjunto(nodos))
    {
      ghost var t0 := Mapeo();
      var conjunto := ConjuntoDe(nodos);
      res := [];
      var k := 0;
      while k < |nodos|
        invariant 0 <= k <= |nodos|
        invariant Valid() && Mapeo() == Registrar(t0, nodos[..k])
        invariant res == Inducidas(aristas, nodos[..k], conjunto)
      {
        var salientes := AristasDeNodo(nodos, k, conjunto, t0, res);
        res := res + salientes;
        k := k + 1;
      }
      assert nodos[..k] == nodos;
    }

    /**
     * One iteration of the outer loop of `obtenerAristasSubgrafo`: `nodos[k]`
     * is registered, and a known one gives its loaded edges into `conjunto`,
     * which extend the edges `res` of the earlier nodes.
     */
    method AristasDeNodo(nodos: seq<int>, k: int, conjunto: set<int>, ghost t0: Tablas, ghost res: seq<(int, int)>)
      returns (salientes: seq<(int, int)>)
      requires 0 <= k < |nodos|
      requires Valid() && Mapeo() == Registrar(t0, nodos[..k])
      requires res == Inducidas(aristas, nodos[..k], conjunto)
      modifies this`idToIndex, this`indexToId, this`siguienteIndice
      ensures Valid() && Mapeo() == Registrar(t0, nodos[..k + 1])
      ensures res + salientes == Inducidas(aristas, nodos[..k + 1], conjunto)
    {
      var nodo := nodos[k];
      RegistrarUno(t0, nodos, k);
      InducidasPaso(aristas, nodos, k, conjunto);
      ghost var t := Mapeo();
      var idx := ObtenerIndice(nodo);
      PasoCoherente(rowPtr, colIndices, numNodos, numAristas, t, aristas, nodo);
      if idx >= numNodos || idx < 0 {
        SinSalientes(Mapeo(), aristas, numNodos, nodo);
        return [];
      }
      FilaDeId(nodo);
      salientes := Filtrar(colIndices, rowPtr[idx], rowPtr[idx + 1], indexToId, nodo, conjunto);
    }

    /** `obtenerMemoriaEstimada`: four bytes per CSR cell and `TamEntrada` per entry of each map. */
    function ObtenerMemoriaEstimada(): (bytes: int)
      reads this
      ensures bytes >= 0
      ensures Valid() ==> bytes == TamInt * |rowPtr| + TamInt * numAristas + 2 * TamEntrada * siguienteIndice
    {
      Memoria(rowPtr, colIndices, Mapeo())
    }

    /** `imprimirEstadisticas`: the node count, the edge count and the estimate in whole megabytes. */
    function ImprimirEstadisticas(): (r: (int, int, int))
      reads this
      ensures r.0 == ObtenerNumNodos() && r.1 == ObtenerNumAristas()
      ensures r.2 * 0x10_0000 <= ObtenerMemoriaEstimada() < (r.2 + 1) * 0x10_0000
    {
      (numNodos, numAristas, ObtenerMemoriaEstimada() / (1024 * 1024))
    }
  }
}
