/**
 * The Compressed Sparse Row layout of `GrafoDisperso`: node `i`'s
 * destinations are `col_indices[row_ptr[i] .. row_ptr[i+1])`. This module
 * states when two sequences form such a layout, how `cargarDatos` lays an
 * edge list out, and which nodes are reachable in a given number of steps.
 */
module Csr {
  import opened Lectura

  /** Concatenation of sequences regroups freely. */
  lemma Asociar<T>(x: seq<T>, y: seq<T>, z: seq<T>)
    ensures (x + y) + z == x + (y + z)
  {
  }

  /** `rp` and `ci` form a CSR layout of `n` nodes. */
  predicate Bien(rp: seq<int>, ci: seq<int>, n: int) {
    n >= 0 && |rp| == n + 1 && rp[0] == 0 && rp[n] == |ci| &&
    (forall i, j :: 0 <= i <= j <= n ==> rp[i] <= rp[j]) &&
    (forall k :: 0 <= k < |ci| ==> 0 <= ci[k] < n)
  }

  /** Row `i`: node `i`'s destinations, in stored order. */
  function Fila(rp: seq<int>, ci: seq<int>, n: int, i: int): (r: seq<int>)
    requires Bien(rp, ci, n) && 0 <= i < n
    ensures |r| == rp[i + 1] - rp[i]
    ensures forall k :: 0 <= k < |r| ==> 0 <= r[k] < n
  {
    assert rp[i] <= rp[i + 1] <= rp[n];
    ci[rp[i]..rp[i + 1]]
  }

  // ---------------------------------------------------------------------
  // How a load lays an edge list out

  /** Every edge of `e` joins two of the nodes `0 .. n-1`. */
  predicate AristasEn(e: seq<(int, int)>, n: int) {
    forall k :: 0 <= k < |e| ==> 0 <= e[k].0 < n && 0 <= e[k].1 < n
  }

  /** Rows `0 .. m-1` of the edge list `e`, one after the other. */
  function Aplanar(e: seq<(int, int)>, m: nat): seq<int>
  {
    if m == 0 then [] else Aplanar(e, m - 1) + Destinos(e, m - 1)
  }

  /**
   * The arrays a load builds from the edge list `e` (in dense indices) over
   * `n` nodes: row `i` starts after the rows before it, and the columns are
   * the rows in node order.
   */
  predicate Construido(rp: seq<int>, ci: seq<int>, n: int, e: seq<(int, int)>) {
    n >= 0 && |rp| == n + 1 &&
    (forall i {:trigger rp[i]} :: 0 <= i <= n ==> rp[i] == |Aplanar(e, i)|) &&
    ci == Aplanar(e, n)
  }

  /** The edges' destinations from `i` are exactly the `j` with `(i, j)` an edge. */
  lemma {:induction false} DestinosMiembro(e: seq<(int, int)>, i: int, j: int)
    ensures j in Destinos(e, i) <==> (i, j) in e
    decreases |e|
  {
    if e != [] {
      var p := e[..|e| - 1];
      DestinosMiembro(p, i, j);
      assert e == p + [e[|e| - 1]];
    }
  }

  /** Destinations of a node of an in-range edge list are nodes. */
  lemma {:induction false} DestinosEn(e: seq<(int, int)>, i: int, n: int)
    requires AristasEn(e, n)
    ensures forall k :: 0 <= k < |Destinos(e, i)| ==> 0 <= Destinos(e, i)[k] < n
    decreases |e|
  {
    if e != [] {
      var p := e[..|e| - 1];
      assert AristasEn(p, n) by {
        assert forall k :: 0 <= k < |p| ==> p[k] == e[k];
      }
      DestinosEn(p, i, n);
    }
  }

  /** Adding one edge at the end of the list adds it to its origin's row only. */
  lemma {:induction false} AplanarAgregar(e: seq<(int, int)>, x: (int, int), m: nat)
    ensures |Aplanar(e + [x], m)| == |Aplanar(e, m)| + (if 0 <= x.0 < m then 1 else 0)
    decreases m
  {
    if m > 0 {
      AplanarAgregar(e, x, m - 1);
      assert (e + [x])[..|e + [x]| - 1] == e;
    }
  }

  /** Laid out over all its nodes, an edge list keeps every edge once. */
  lemma {:induction false} AplanarLongitud(e: seq<(int, int)>, n: nat)
    requires AristasEn(e, n)
    ensures |Aplanar(e, n)| == |e|
    decreases |e|
  {
    if e == [] {
      AplanarSinAristas(n);
    } else {
      var p := e[..|e| - 1];
      assert AristasEn(p, n) by {
        assert forall k :: 0 <= k < |p| ==> p[k] == e[k];
      }
      AplanarLongitud(p, n);
      assert e == p + [e[|e| - 1]];
      assert 0 <= e[|e| - 1].0 < n;
      AplanarAgregar(p, e[|e| - 1], n);
    }
  }

  lemma {:induction false} AplanarSinAristas(m: nat)
    ensures Aplanar([], m) == []
  {
    if m > 0 {
      AplanarSinAristas(m - 1);
    }
  }

  /** The rows before `i` are a prefix of the rows before `j`. */
  lemma {:induction false} AplanarPrefijo(e: seq<(int, int)>, i: nat, j: nat)
    requires i <= j
    ensures |Aplanar(e, i)| <= |Aplanar(e, j)|
    ensures Aplanar(e, j)[..|Aplanar(e, i)|] == Aplanar(e, i)
    decreases j
  {
    if i < j {
      AplanarPrefijo(e, i, j - 1);
      var a, b := Aplanar(e, i), Aplanar(e, j - 1);
      assert Aplanar(e, j) == b + Destinos(e, j - 1);
      assert Aplanar(e, j)[..|a|] == b[..|a|];
    }
  }

  /** Every column of the layout is the destination of some edge, hence a node. */
  lemma {:induction false} AplanarEn(e: seq<(int, int)>, n: int, m: nat)
    requires AristasEn(e, n)
    ensures forall k :: 0 <= k < |Aplanar(e, m)| ==> 0 <= Aplanar(e, m)[k] < n
    decreases m
  {
    if m > 0 {
      AplanarEn(e, n, m - 1);
      DestinosEn(e, m - 1, n);
      var a := Aplanar(e, m - 1);
      var d := Destinos(e, m - 1);
      assert forall k :: |a| <= k < |a| + |d| ==> Aplanar(e, m)[k] == d[k - |a|];
    }
  }

  /**
   * What a load builds is a CSR layout holding every edge, and row `i` is
   * the destinations of the edges leaving `i`, in edge-list order.
   */
  lemma ConstruidoBien(rp: seq<int>, ci: seq<int>, n: int, e: seq<(int, int)>)
    requires Construido(rp, ci, n, e) && AristasEn(e, n)
    ensures Bien(rp, ci, n) && |ci| == |e|
    ensures forall i :: 0 <= i < n ==> Fila(rp, ci, n, i) == Destinos(e, i)
  {
    AplanarLongitud(e, n);
    AplanarEn(e, n, n);
    forall i, j | 0 <= i <= j <= n
      ensures rp[i] <= rp[j]
    {
      AplanarPrefijo(e, i, j);
    }
    assert Bien(rp, ci, n);
    forall i | 0 <= i < n
      ensures Fila(rp, ci, n, i) == Destinos(e, i)
    {
      FilaConstruida(rp, ci, n, e, i);
    }
  }

  /** In a well-formed built layout, row `i` is the destinations of the edges leaving `i`. */
  lemma FilaConstruida(rp: seq<int>, ci: seq<int>, n: int, e: seq<(int, int)>, i: int)
    requires Construido(rp, ci, n, e) && Bien(rp, ci, n) && 0 <= i < n
    ensures Fila(rp, ci, n, i) == Destinos(e, i)
  {
    AplanarPrefijo(e, i + 1, n);
    var a := Aplanar(e, i);
    var b := Aplanar(e, i + 1);
    assert b == a + Destinos(e, i);
    assert ci[..|b|] == b;
    assert ci[rp[i]..rp[i + 1]] == b[|a|..];
  }

  // ---------------------------------------------------------------------
  // Reachability

  /** The nodes row `i` points to. */
  function Vecinos(rp: seq<int>, ci: seq<int>, n: int, i: int): (r: set<int>)
    requires Bien(rp, ci, n) && 0 <= i < n
    ensures forall j :: j in r ==> 0 <= j < n
  {
    set j | j in Fila(rp, ci, n, i)
  }

  /** A walk: every node is a node of the graph and consecutive nodes are joined by an edge. */
  ghost predicate Camino(rp: seq<int>, ci: seq<int>, n: int, p: seq<int>)
    requires Bien(rp, ci, n)
  {
    |p| > 0 && (forall k :: 0 <= k < |p| ==> 0 <= p[k] < n) &&
    forall i, j :: 0 <= i < |p| && j == i + 1 < |p| ==> p[j] in Vecinos(rp, ci, n, p[i])
  }

  /** `v` is reachable from `s` by a directed walk of at most `k` edges. */
  ghost predicate Alcanza(rp: seq<int>, ci: seq<int>, n: int, s: int, k: nat, v: int)
    requires Bien(rp, ci, n)
  {
    exists p :: Camino(rp, ci, n, p) && p[0] == s && p[|p| - 1] == v && |p| <= k + 1
  }

  /** A walk followed by a neighbour of its last node is a walk. */
  lemma CaminoExtendido(rp: seq<int>, ci: seq<int>, n: int, q: seq<int>, v: int)
    requires Bien(rp, ci, n) && Camino(rp, ci, n, q) && v in Vecinos(rp, ci, n, q[|q| - 1])
    ensures Camino(rp, ci, n, q + [v]) && (q + [v])[0] == q[0] && (q + [v])[|q|] == v
  {
    var p := q + [v];
    assert forall i :: 0 <= i < |q| ==> p[i] == q[i];
  }

  /** A walk without its last node is a walk. */
  lemma CaminoRecortado(rp: seq<int>, ci: seq<int>, n: int, p: seq<int>)
    requires Bien(rp, ci, n) && Camino(rp, ci, n, p) && |p| > 1
    ensures var q := p[..|p| - 1];
            Camino(rp, ci, n, q) && q[0] == p[0] && p[|p| - 1] in Vecinos(rp, ci, n, q[|q| - 1])
  {
    var q := p[..|p| - 1];
    assert forall i :: 0 <= i < |q| ==> q[i] == p[i];
    var i := |p| - 2;
    assert p[i + 1] in Vecinos(rp, ci, n, p[i]);
  }

  /** Only `s` is reachable in zero steps, and every reachable node is a node. */
  lemma AlcanzaCero(rp: seq<int>, ci: seq<int>, n: int, s: int, v: int)
    requires Bien(rp, ci, n) && 0 <= s < n
    ensures Alcanza(rp, ci, n, s, 0, v) <==> v == s
  {
    if v == s {
      assert Camino(rp, ci, n, [s]);
    }
  }

  /** Reachable nodes are nodes of the graph. */
  lemma AlcanzaEnRango(rp: seq<int>, ci: seq<int>, n: int, s: int, k: nat, v: int)
    requires Bien(rp, ci, n) && Alcanza(rp, ci, n, s, k, v)
    ensures 0 <= v < n
  {
    var p :| Camino(rp, ci, n, p) && p[0] == s && p[|p| - 1] == v && |p| <= k + 1;
    assert p[|p| - 1] == v;
  }

  /** Allowing more steps never loses a node. */
  lemma AlcanzaCrece(rp: seq<int>, ci: seq<int>, n: int, s: int, i: nat, j: nat, v: int)
    requires Bien(rp, ci, n) && i <= j && Alcanza(rp, ci, n, s, i, v)
    ensures Alcanza(rp, ci, n, s, j, v)
  {
    var p :| Camino(rp, ci, n, p) && p[0] == s && p[|p| - 1] == v && |p| <= i + 1;
    assert |p| <= j + 1;
  }

  /** A neighbour of a node reachable in `k` steps is reachable in `k + 1`. */
  lemma AlcanzaPaso(rp: seq<int>, ci: seq<int>, n: int, s: int, k: nat, u: int, v: int)
    requires Bien(rp, ci, n) && Alcanza(rp, ci, n, s, k, u)
    requires 0 <= u < n && v in Vecinos(rp, ci, n, u)
    ensures Alcanza(rp, ci, n, s, k + 1, v)
  {
    var q :| Camino(rp, ci, n, q) && q[0] == s && q[|q| - 1] == u && |q| <= k + 1;
    CaminoExtendido(rp, ci, n, q, v);
    assert Camino(rp, ci, n, q + [v]) && (q + [v])[|q + [v]| - 1] == v;
  }

  /** A node reachable in `k + 1` steps but not in `k` is a neighbour of one reachable in `k`. */
  lemma AlcanzaPrevio(rp: seq<int>, ci: seq<int>, n: int, s: int, k: nat, v: int) returns (u: int)
    requires Bien(rp, ci, n)
    requires Alcanza(rp, ci, n, s, k + 1, v) && !Alcanza(rp, ci, n, s, k, v)
    ensures Alcanza(rp, ci, n, s, k, u) && 0 <= u < n && v in Vecinos(rp, ci, n, u)
  {
    var p :| Camino(rp, ci, n, p) && p[0] == s && p[|p| - 1] == v && |p| <= k + 2;
    assert |p| > 1;
    CaminoRecortado(rp, ci, n, p);
    var q := p[..|p| - 1];
    u := q[|q| - 1];
    assert |q| <= k + 1;
  }

  /**
   * Reachability layer by layer: in `k + 1` steps one reaches what is
   * reachable in `k` steps and the neighbours of those nodes, and nothing else.
   */
  lemma AlcanzaCapas(rp: seq<int>, ci: seq<int>, n: int, s: int, k: nat, v: int)
    requires Bien(rp, ci, n)
    ensures Alcanza(rp, ci, n, s, k + 1, v) <==>
            Alcanza(rp, ci, n, s, k, v) ||
            exists u :: 0 <= u < n && Alcanza(rp, ci, n, s, k, u) && v in Vecinos(rp, ci, n, u)
  {
    if Alcanza(rp, ci, n, s, k + 1, v) && !Alcanza(rp, ci, n, s, k, v) {
      var u := AlcanzaPrevio(rp, ci, n, s, k, v);
    }
    if Alcanza(rp, ci, n, s, k, v) {
      AlcanzaCrece(rp, ci, n, s, k, k + 1, v);
    }
    if u :| 0 <= u < n && Alcanza(rp, ci, n, s, k, u) && v in Vecinos(rp, ci, n, u) {
      AlcanzaPaso(rp, ci, n, s, k, u, v);
    }
  }
}
