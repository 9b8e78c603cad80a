/**
 * The bounded breadth-first search of `GrafoDisperso::BFS`, stated on the
 * CSR layout: what its result is (`EsRecorrido`), and the ghost record of
 * its queue that the loop keeps (`Invariante`, `Expandidos`), with one lemma
 * per step of the loop.
 */
module Recorrido {
  import opened Csr

  /** The deepest level the search reports: nodes dequeued at depth `>= profundidadMaxima` are not expanded. */
  function Tope(profundidadMaxima: int): (r: nat)
    ensures r == 0 <==> profundidadMaxima <= 0
    ensures 0 < r ==> r == profundidadMaxima
  {
    if profundidadMaxima < 0 then 0 else profundidadMaxima
  }

  /** The indices `0 .. n-1` in order. */
  function Rango(n: nat): (r: seq<int>)
    ensures |r| == n && forall i :: 0 <= i < n ==> r[i] == i
    ensures forall v :: v in r <==> 0 <= v < n
  {
    if n == 0 then [] else Rango(n - 1) + [n - 1]
  }

  /** The nodes `0 .. n-1`, the measure the search's queue drains. */
  function Universo(n: nat): (r: set<int>)
    ensures forall v :: v in r <==> 0 <= v < n
  {
    set v | v in Rango(n)
  }

  /** `d` is the length of a shortest walk from `s` to `v`. */
  ghost predicate Distancia(rp: seq<int>, ci: seq<int>, n: int, s: int, v: int, d: nat)
    requires Bien(rp, ci, n)
  {
    Alcanza(rp, ci, n, s, d, v) && (d > 0 ==> !Alcanza(rp, ci, n, s, d - 1, v))
  }

  /**
   * What the search returns, in dense indices: it starts at `s`, repeats no
   * node, holds exactly the nodes reachable within `Tope(D)` edges, and lists
   * them by non-decreasing distance from `s`.
   */
  ghost predicate EsRecorrido(rp: seq<int>, ci: seq<int>, n: int, s: int, D: int, orden: seq<int>)
    requires Bien(rp, ci, n)
  {
    |orden| > 0 && orden[0] == s &&
    (forall i, j :: 0 <= i < j < |orden| ==> orden[i] != orden[j]) &&
    (forall v :: v in orden <==> Alcanza(rp, ci, n, s, Tope(D), v)) &&
    (forall i, j, d: nat :: 0 <= i < j < |orden| && Alcanza(rp, ci, n, s, d, orden[j]) ==>
                            Alcanza(rp, ci, n, s, d, orden[i]))
  }

  /** Each pair of the record is a node of the graph at its distance from `s`, within the limit. */
  ghost predicate Distancias(rp: seq<int>, ci: seq<int>, n: int, s: int, D: int, todos: seq<(int, int)>)
    requires Bien(rp, ci, n)
  {
    forall p :: 0 <= p < |todos| ==>
      0 <= todos[p].0 < n && 0 <= todos[p].1 <= Tope(D) &&
      Distancia(rp, ci, n, s, todos[p].0, todos[p].1)
  }

  /** `pos` gives the position of each node in the record, and holds nothing else. */
  ghost predicate Posiciones(todos: seq<(int, int)>, pos: map<int, int>) {
    (forall p :: 0 <= p < |todos| ==> todos[p].0 in pos && pos[todos[p].0] == p) &&
    (forall v :: v in pos ==> 0 <= pos[v] < |todos| && todos[pos[v]].0 == v)
  }

  /** Depths never decrease along the record. */
  ghost predicate Monotona(todos: seq<(int, int)>) {
    forall p, q :: 0 <= p < q < |todos| ==> todos[p].1 <= todos[q].1
  }

  /**
   * The ghost record of a search from `s`: `todos` is every (node, depth)
   * pair ever enqueued and `pos` gives the position of each discovered node.
   * Each depth is the node's distance and depths never decrease along the
   * queue.
   */
  ghost predicate Invariante(rp: seq<int>, ci: seq<int>, n: int, s: int, D: int,
                             todos: seq<(int, int)>, pos: map<int, int>)
    requires Bien(rp, ci, n)
  {
    0 <= s < n && |todos| > 0 && todos[0] == (s, 0) &&
    Distancias(rp, ci, n, s, D, todos) && Posiciones(todos, pos) && Monotona(todos)
  }

  /**
   * The first `m` pairs have been dequeued; nothing was pushed before the
   * first dequeue, and no depth exceeds that of the last dequeued pair by
   * more than one.
   */
  ghost predicate Frente(todos: seq<(int, int)>, m: int) {
    0 <= m <= |todos| &&
    (m == 0 ==> |todos| == 1) &&
    (m > 0 ==> forall q :: 0 <= q < |todos| ==> todos[q].1 <= todos[m - 1].1 + 1)
  }

  /** Every one of the first `m` pairs that is below the depth limit has had its whole row discovered. */
  ghost predicate Expandidos(rp: seq<int>, ci: seq<int>, n: int, D: int,
                             todos: seq<(int, int)>, pos: map<int, int>, m: int)
    requires Bien(rp, ci, n)
  {
    forall p, w ::
      (0 <= p < m && p < |todos| && todos[p].1 < D && 0 <= todos[p].0 < n &&
       w in Vecinos(rp, ci, n, todos[p].0)) ==> w in pos
  }

  /** All nodes within `d` steps have been discovered. */
  ghost predicate Cubierto(rp: seq<int>, ci: seq<int>, n: int, s: int, d: nat, pos: map<int, int>)
    requires Bien(rp, ci, n)
  {
    forall w :: Alcanza(rp, ci, n, s, d, w) ==> w in pos
  }

  // ---------------------------------------------------------------------
  // Facts about distances

  /** A node reachable in `d` steps is at distance at most `d`. */
  lemma DistanciaMinima(rp: seq<int>, ci: seq<int>, n: int, s: int, v: int, dv: nat, d: nat)
    requires Bien(rp, ci, n) && Distancia(rp, ci, n, s, v, dv) && Alcanza(rp, ci, n, s, d, v)
    ensures dv <= d
  {
  }

  /** A cell of row `u` holds a neighbour of `u`. */
  lemma EnFila(rp: seq<int>, ci: seq<int>, n: int, u: int, k: int)
    requires Bien(rp, ci, n) && 0 <= u < n && rp[u] <= k < rp[u + 1]
    ensures 0 <= k < |ci| && ci[k] in Vecinos(rp, ci, n, u)
  {
    assert rp[0] <= rp[u] && rp[u + 1] <= rp[n];
    assert Fila(rp, ci, n, u)[k - rp[u]] == ci[k];
  }

  /** Every neighbour of `u` sits in some cell of row `u`. */
  lemma CeldaDe(rp: seq<int>, ci: seq<int>, n: int, u: int, w: int) returns (k: int)
    requires Bien(rp, ci, n) && 0 <= u < n && w in Vecinos(rp, ci, n, u)
    ensures rp[u] <= k < rp[u + 1] && 0 <= k < |ci| && ci[k] == w
  {
    var f := Fila(rp, ci, n, u);
    var j :| 0 <= j < |f| && f[j] == w;
    assert rp[0] <= rp[u] && rp[u + 1] <= rp[n];
    k := rp[u] + j;
  }

  /**
   * If the pairs of depth below `j` have all been dequeued and expanded
   * (when under the limit), every node within `j` steps has been discovered.
   */
  lemma {:induction false} Cubre(rp: seq<int>, ci: seq<int>, n: int, s: int, D: int,
                                 todos: seq<(int, int)>, pos: map<int, int>, m: int, j: nat)
    requires Bien(rp, ci, n) && Invariante(rp, ci, n, s, D, todos, pos)
    requires Expandidos(rp, ci, n, D, todos, pos, m)
    requires j <= Tope(D)
    requires forall p :: 0 <= p < |todos| && todos[p].1 < j ==> p < m
    ensures Cubierto(rp, ci, n, s, j, pos)
    decreases j
  {
    forall w | Alcanza(rp, ci, n, s, j, w)
      ensures w in pos
    {
      if j == 0 {
        AlcanzaCero(rp, ci, n, s, w);
        assert todos[0].0 in pos;
      } else if Alcanza(rp, ci, n, s, j - 1, w) {
        Cubre(rp, ci, n, s, D, todos, pos, m, j - 1);
      } else {
        var u := AlcanzaPrevio(rp, ci, n, s, j - 1, w);
        Cubre(rp, ci, n, s, D, todos, pos, m, j - 1);
        var p := pos[u];
        DistanciaMinima(rp, ci, n, s, u, todos[p].1, j - 1);
        assert todos[p].1 < D;
      }
    }
  }

  // ---------------------------------------------------------------------
  // One lemma per step of the loop

  /** The state right after `cola.push({idx_inicio, 0})` and `visitados.insert(idx_inicio)`. */
  lemma Inicio(rp: seq<int>, ci: seq<int>, n: int, s: int, D: int)
    requires Bien(rp, ci, n) && 0 <= s < n
    ensures Invariante(rp, ci, n, s, D, [(s, 0)], map[s := 0])
    ensures Frente([(s, 0)], 0)
    ensures Expandidos(rp, ci, n, D, [(s, 0)], map[s := 0], 0)
  {
    AlcanzaCero(rp, ci, n, s, s);
  }

  /**
   * Dequeuing the pair at position `m`: every node within its depth has
   * already been discovered.
   */
  lemma Desencolar(rp: seq<int>, ci: seq<int>, n: int, s: int, D: int,
                   todos: seq<(int, int)>, pos: map<int, int>, m: int)
    requires Bien(rp, ci, n) && Invariante(rp, ci, n, s, D, todos, pos) && Frente(todos, m)
    requires Expandidos(rp, ci, n, D, todos, pos, m) && m < |todos|
    ensures Frente(todos, m + 1)
    ensures Cubierto(rp, ci, n, s, todos[m].1, pos)
  {
    Avanzar(todos, m);
    Cubre(rp, ci, n, s, D, todos, pos, m, todos[m].1);
  }

  /** Dequeuing keeps the front's bound, and every shallower pair is already behind. */
  lemma Avanzar(todos: seq<(int, int)>, m: int)
    requires Monotona(todos) && Frente(todos, m) && m < |todos|
    ensures Frente(todos, m + 1)
    ensures forall p :: 0 <= p < |todos| && todos[p].1 < todos[m].1 ==> p < m
  {
    if m > 0 {
      assert todos[m - 1].1 <= todos[m].1;
    }
  }

  lemma PosicionesAgregar(todos: seq<(int, int)>, pos: map<int, int>, w: int, d: int)
    requires Posiciones(todos, pos) && w !in pos
    ensures Posiciones(todos + [(w, d)], pos[w := |todos|])
  {
    var t := todos + [(w, d)];
    assert forall p :: 0 <= p < |todos| ==> t[p] == todos[p];
  }

  /** An undiscovered neighbour of a node at distance `d`, once all of level `d` is discovered, is at distance `d + 1`. */
  lemma DistanciaNueva(rp: seq<int>, ci: seq<int>, n: int, s: int, d: nat, pos: map<int, int>, v: int, w: int)
    requires Bien(rp, ci, n) && 0 <= v < n && Alcanza(rp, ci, n, s, d, v)
    requires w in Vecinos(rp, ci, n, v) && Cubierto(rp, ci, n, s, d, pos) && w !in pos
    ensures Distancia(rp, ci, n, s, w, d + 1)
  {
    AlcanzaPaso(rp, ci, n, s, d, v, w);
  }

  /** A node that is not expanded, or whose whole row has been seen, is done. */
  lemma Terminar(rp: seq<int>, ci: seq<int>, n: int, D: int,
                 todos: seq<(int, int)>, pos: map<int, int>, vis: set<int>, m: int, v: int)
    requires Bien(rp, ci, n) && 0 < m <= |todos| && todos[m - 1].0 == v && 0 <= v < n
    requires Expandidos(rp, ci, n, D, todos, pos, m - 1)
    requires todos[m - 1].1 < D ==> forall k :: rp[v] <= k < rp[v + 1] ==> ci[k] in vis
    requires vis == pos.Keys
    ensures Expandidos(rp, ci, n, D, todos, pos, m)
  {
    forall w | todos[m - 1].1 < D && w in Vecinos(rp, ci, n, v)
      ensures w in pos
    {
      var k := CeldaDe(rp, ci, n, v, w);
    }
  }

  /** When the queue is empty, the dequeued nodes are the search's result. */
  lemma Final(rp: seq<int>, ci: seq<int>, n: int, s: int, D: int,
              todos: seq<(int, int)>, pos: map<int, int>, orden: seq<int>)
    requires Bien(rp, ci, n) && Invariante(rp, ci, n, s, D, todos, pos)
    requires Expandidos(rp, ci, n, D, todos, pos, |todos|)
    requires |orden| == |todos| && forall k :: 0 <= k < |todos| ==> orden[k] == todos[k].0
    ensures EsRecorrido(rp, ci, n, s, D, orden)
  {
    var tope := Tope(D);
    Cubre(rp, ci, n, s, D, todos, pos, |todos|, tope);
    forall v | v in orden
      ensures Alcanza(rp, ci, n, s, tope, v)
    {
      var k :| 0 <= k < |orden| && orden[k] == v;
      AlcanzaCrece(rp, ci, n, s, todos[k].1, tope, v);
    }
    forall v | Alcanza(rp, ci, n, s, tope, v)
      ensures v in orden
    {
      assert orden[pos[v]] == v;
    }
    forall i, j, d: nat | 0 <= i < j < |orden| && Alcanza(rp, ci, n, s, d, orden[j])
      ensures Alcanza(rp, ci, n, s, d, orden[i])
    {
      DistanciaMinima(rp, ci, n, s, orden[j], todos[j].1, d);
      AlcanzaCrece(rp, ci, n, s, todos[i].1, d, orden[i]);
    }
  }

  // ---------------------------------------------------------------------
  // What one row scan pushes

  /** The nodes held by the cells `a .. b-1` of `ci`. */
  function Vistos(ci: seq<int>, a: int, b: int): set<int>
    requires 0 <= a <= b <= |ci|
    decreases b - a
  {
    if a == b then {} else Vistos(ci, a, b - 1) + {ci[b - 1]}
  }

  /**
   * The cells `a .. b-1` of `ci` at which a row scan meets a node that is
   * neither in `vistos` nor in an earlier cell of the scan, in row order:
   * the cells at which `BFS` pushes a neighbour.
   */
  function Ranuras(ci: seq<int>, a: int, b: int, vistos: set<int>): (r: seq<int>)
    requires 0 <= a <= b <= |ci|
    ensures forall t :: 0 <= t < |r| ==> a <= r[t] < b
    decreases b - a
  {
    if a == b then []
    else
      var r := Ranuras(ci, a, b - 1, vistos);
      if ci[b - 1] in vistos || ci[b - 1] in Vistos(ci, a, b - 1) then r else r + [b - 1]
  }

  /** The pairs pushed for the cells `r`: each cell's node, at depth `d`. */
  function Encolados(ci: seq<int>, r: seq<int>, d: int): (q: seq<(int, int)>)
    requires forall t :: 0 <= t < |r| ==> 0 <= r[t] < |ci|
    ensures |q| == |r|
  {
    if r == [] then [] else Encolados(ci, r[..|r| - 1], d) + [(ci[r[|r| - 1]], d)]
  }

  /** The pairs the row scan of `u` pushes at depth `d` when `vistos` is already visited. */
  function Empujados(rp: seq<int>, ci: seq<int>, n: int, u: int, vistos: set<int>, d: int): seq<(int, int)>
    requires Bien(rp, ci, n) && 0 <= u < n
  {
    assert rp[0] <= rp[u] <= rp[u + 1] <= rp[n];
    Encolados(ci, Ranuras(ci, rp[u], rp[u + 1], vistos), d)
  }

  /** The pair pushed for the `t`-th cell is that cell's node. */
  lemma {:induction false} EncoladosIndices(ci: seq<int>, r: seq<int>, d: int)
    requires forall t :: 0 <= t < |r| ==> 0 <= r[t] < |ci|
    ensures forall t :: 0 <= t < |r| ==> Encolados(ci, r, d)[t] == (ci[r[t]], d)
    decreases |r|
  {
    if r != [] {
      EncoladosIndices(ci, r[..|r| - 1], d);
    }
  }

  /** The pushed cells come in strictly increasing order and hold nodes outside `vistos`. */
  lemma {:induction false} RanurasOrden(ci: seq<int>, a: int, b: int, vistos: set<int>)
    requires 0 <= a <= b <= |ci|
    ensures forall t :: 0 <= t < |Ranuras(ci, a, b, vistos)| ==> ci[Ranuras(ci, a, b, vistos)[t]] !in vistos
    ensures forall t, u :: 0 <= t < u < |Ranuras(ci, a, b, vistos)| ==>
                           Ranuras(ci, a, b, vistos)[t] < Ranuras(ci, a, b, vistos)[u]
    decreases b - a
  {
    if a < b {
      RanurasOrden(ci, a, b - 1, vistos);
      var p := Ranuras(ci, a, b - 1, vistos);
      var r := Ranuras(ci, a, b, vistos);
      if r != p {
        assert r == p + [b - 1] && ci[b - 1] !in vistos;
        assert forall t :: 0 <= t < |p| ==> r[t] == p[t] && p[t] < b - 1;
      }
    }
  }

  /** Every cell of the scan holds one of its nodes, and every node of the scan sits in a cell. */
  lemma {:induction false} VistosCeldas(ci: seq<int>, a: int, b: int, x: int)
    requires 0 <= a <= b <= |ci|
    ensures x in Vistos(ci, a, b) <==> exists k :: a <= k < b && ci[k] == x
    decreases b - a
  {
    if a < b {
      VistosCeldas(ci, a, b - 1, x);
    }
  }

  /**
   * Every cell of the scan holds a node of `vistos`, or the node of a pushed
   * cell at or before it.
   */
  lemma {:induction false} RanurasCubren(ci: seq<int>, a: int, b: int, vistos: set<int>, c: int)
    requires 0 <= a <= c < b <= |ci|
    ensures var r := Ranuras(ci, a, b, vistos);
            ci[c] in vistos || exists t :: 0 <= t < |r| && r[t] <= c && ci[r[t]] == ci[c]
    decreases b - a
  {
    var p := Ranuras(ci, a, b - 1, vistos);
    assert Ranuras(ci, a, b, vistos) == p || Ranuras(ci, a, b, vistos) == p + [b - 1];
    if c < b - 1 {
      RanurasCubren(ci, a, b - 1, vistos, c);
      if ci[c] !in vistos {
        var t :| 0 <= t < |p| && p[t] <= c && ci[p[t]] == ci[c];
        assert Ranuras(ci, a, b, vistos)[t] == p[t];
      }
    } else if ci[c] !in vistos && ci[c] in Vistos(ci, a, b - 1) {
      VistosCeldas(ci, a, b - 1, ci[c]);
      var k :| a <= k < b - 1 && ci[k] == ci[c];
      RanurasCubren(ci, a, b - 1, vistos, k);
      var t :| 0 <= t < |p| && p[t] <= k && ci[p[t]] == ci[k];
      assert Ranuras(ci, a, b, vistos)[t] == p[t];
    } else if ci[c] !in vistos {
      assert Ranuras(ci, a, b, vistos)[|p|] == c;
    }
  }

  // ---------------------------------------------------------------------
  // The row scan as a fold

  /** The queue, the visited set and the ghost record, as one row scan sees them. */
  datatype Estado = Estado(cola: seq<(int, int)>, visitados: set<int>, todos: seq<(int, int)>, pos: map<int, int>)

  /** One cell of the scan: a node not yet visited is marked, recorded and pushed at depth `d`. */
  function Marcar(e: Estado, w: int, d: int): Estado {
    if w in e.visitados then e
    else Estado(e.cola + [(w, d)], e.visitados + {w}, e.todos + [(w, d)], e.pos[w := |e.todos|])
  }

  /** The scan of the cells `a .. b-1` of `ci` from the state `e`, pushing at depth `d`. */
  function Recorrer(ci: seq<int>, a: int, b: int, e: Estado, d: int): Estado
    requires 0 <= a <= b <= |ci|
    decreases b - a
  {
    if a == b then e else Marcar(Recorrer(ci, a, b - 1, e, d), ci[b - 1], d)
  }

  /** A scan marks every node of the scanned cells, and nothing else. */
  lemma {:induction false} RecorrerVistos(ci: seq<int>, a: int, b: int, e: Estado, d: int)
    requires 0 <= a <= b <= |ci|
    ensures Recorrer(ci, a, b, e, d).visitados == e.visitados + Vistos(ci, a, b)
    decreases b - a
  {
    if a < b {
      RecorrerVistos(ci, a, b - 1, e, d);
    }
  }

  /** A scan marks the node of every scanned cell. */
  lemma {:induction false} RecorrerMarca(ci: seq<int>, a: int, b: int, e: Estado, d: int)
    requires 0 <= a <= b <= |ci|
    ensures forall k :: a <= k < b ==> ci[k] in Recorrer(ci, a, b, e, d).visitados
    decreases b - a
  {
    if a < b {
      RecorrerMarca(ci, a, b - 1, e, d);
    }
  }

  /** One more picked cell pushes its node behind the others. */
  lemma Empujar(ci: seq<int>, r: seq<int>, c: int, d: int)
    requires forall t :: 0 <= t < |r| ==> 0 <= r[t] < |ci|
    requires 0 <= c < |ci|
    ensures Encolados(ci, r + [c], d) == Encolados(ci, r, d) + [(ci[c], d)]
  {
    assert (r + [c])[..|r|] == r;
  }

  /**
   * A scan pushes onto the queue, and appends to the record, exactly the
   * nodes of the cells `Ranuras` picks, in row order.
   */
  lemma {:induction false} RecorrerCola(ci: seq<int>, a: int, b: int, e: Estado, d: int)
    requires 0 <= a <= b <= |ci|
    ensures Recorrer(ci, a, b, e, d).cola == e.cola + Encolados(ci, Ranuras(ci, a, b, e.visitados), d)
    ensures Recorrer(ci, a, b, e, d).todos == e.todos + Encolados(ci, Ranuras(ci, a, b, e.visitados), d)
    decreases b - a
  {
    if a < b {
      var f := Recorrer(ci, a, b - 1, e, d);
      RecorrerCola(ci, a, b - 1, e, d);
      RecorrerVistos(ci, a, b - 1, e, d);
      var r := Ranuras(ci, a, b - 1, e.visitados);
      if ci[b - 1] !in f.visitados {
        var q := Encolados(ci, r, d);
        var x := (ci[b - 1], d);
        assert Ranuras(ci, a, b, e.visitados) == r + [b - 1];
        Empujar(ci, r, b - 1, d);
        Asociar(e.cola, q, [x]);
        Asociar(e.todos, q, [x]);
      } else {
        assert Ranuras(ci, a, b, e.visitados) == r;
      }
    }
  }

  /** A scan keeps `pos` the positions of the record and the visited set its keys. */
  lemma {:induction false} RecorrerPosiciones(ci: seq<int>, a: int, b: int, e: Estado, d: int)
    requires 0 <= a <= b <= |ci|
    requires Posiciones(e.todos, e.pos) && e.visitados == e.pos.Keys
    ensures Posiciones(Recorrer(ci, a, b, e, d).todos, Recorrer(ci, a, b, e, d).pos)
    ensures Recorrer(ci, a, b, e, d).visitados == Recorrer(ci, a, b, e, d).pos.Keys
    decreases b - a
  {
    if a < b {
      RecorrerPosiciones(ci, a, b - 1, e, d);
      var f := Recorrer(ci, a, b - 1, e, d);
      if ci[b - 1] !in f.visitados {
        PosicionesAgregar(f.todos, f.pos, ci[b - 1], d);
      }
    }
  }

  /**
   * The pairs the scan of the row of `actual`, a node at distance
   * `profundidad` whose whole level has been discovered, appends: nodes of
   * the row not discovered yet, each at distance `profundidad + 1` from `s`.
   */
  lemma Nuevos(rp: seq<int>, ci: seq<int>, n: int, s: int, actual: int, profundidad: nat,
               visitados: set<int>, pos: map<int, int>, q: seq<(int, int)>)
    requires Bien(rp, ci, n) && 0 <= actual < n && Alcanza(rp, ci, n, s, profundidad, actual)
    requires Cubierto(rp, ci, n, s, profundidad, pos) && visitados == pos.Keys
    requires q == Empujados(rp, ci, n, actual, visitados, profundidad + 1)
    ensures forall t :: 0 <= t < |q| ==>
              0 <= q[t].0 < n && q[t].0 !in pos && q[t].1 == profundidad + 1 &&
              Distancia(rp, ci, n, s, q[t].0, profundidad + 1)
  {
    var a, b, d := rp[actual], rp[actual + 1], profundidad + 1;
    assert rp[0] <= a <= b <= rp[n];
    var r := Ranuras(ci, a, b, visitados);
    EncoladosIndices(ci, r, d);
    RanurasOrden(ci, a, b, visitados);
    forall t | 0 <= t < |r|
      ensures 0 <= ci[r[t]] < n && ci[r[t]] !in pos && Distancia(rp, ci, n, s, ci[r[t]], d)
    {
      EnFila(rp, ci, n, actual, r[t]);
      DistanciaNueva(rp, ci, n, s, profundidad, pos, actual, ci[r[t]]);
    }
  }

  /**
   * Appending pairs one level below the last dequeued one, each a node at
   * that distance, keeps the record true and the front's bound.
   */
  lemma Anexados(rp: seq<int>, ci: seq<int>, n: int, s: int, D: int,
                 todos: seq<(int, int)>, pos: map<int, int>, m: int, q: seq<(int, int)>, pos2: map<int, int>)
    requires Bien(rp, ci, n) && Invariante(rp, ci, n, s, D, todos, pos) && Frente(todos, m) && m > 0
    requires todos[m - 1].1 < D
    requires forall t :: 0 <= t < |q| ==>
               0 <= q[t].0 < n && q[t].1 == todos[m - 1].1 + 1 && Distancia(rp, ci, n, s, q[t].0, q[t].1)
    requires Posiciones(todos + q, pos2)
    ensures Invariante(rp, ci, n, s, D, todos + q, pos2) && Frente(todos + q, m)
    ensures (todos + q)[m - 1] == todos[m - 1]
  {
    var t := todos + q;
    var h := todos[m - 1].1 + 1;
    assert forall p :: 0 <= p < |todos| ==> t[p] == todos[p];
    assert forall p :: |todos| <= p < |t| ==> t[p] == q[p - |todos|];
    assert forall p :: 0 <= p < |t| ==> t[p].1 <= h;
    assert Distancias(rp, ci, n, s, D, t) by {
      forall p | 0 <= p < |t|
        ensures 0 <= t[p].0 < n && 0 <= t[p].1 <= Tope(D) && Distancia(rp, ci, n, s, t[p].0, t[p].1)
      {
        if p >= |todos| {
          assert t[p] == q[p - |todos|];
        }
      }
    }
    assert Monotona(t) by {
      forall p, p2 | 0 <= p < p2 < |t|
        ensures t[p].1 <= t[p2].1
      {
        if p2 >= |todos| {
          assert t[p2] == q[p2 - |todos|];
        }
      }
    }
  }

  /** The record and its positions only grow: what was expanded stays expanded. */
  lemma ExpandidosCrece(rp: seq<int>, ci: seq<int>, n: int, D: int, todos: seq<(int, int)>, pos: map<int, int>,
                        todos2: seq<(int, int)>, pos2: map<int, int>, m: int)
    requires Bien(rp, ci, n) && Expandidos(rp, ci, n, D, todos, pos, m) && 0 <= m <= |todos|
    requires todos <= todos2 && pos.Keys <= pos2.Keys
    ensures Expandidos(rp, ci, n, D, todos2, pos2, m)
  {
    assert forall p :: 0 <= p < |todos| ==> todos2[p] == todos[p];
  }

  /** Enqueuing at the back extends the record the queue is the tail of. */
  lemma Anexar(todos: seq<(int, int)>, q: seq<(int, int)>, m: int)
    requires 0 <= m <= |todos|
    ensures (todos + q)[m..] == todos[m..] + q
  {
  }

  /**
   * After the whole row of `actual` has been scanned from `e`, giving the
   * queue `cola`, the set `visitados` and the record `todos`/`pos`, the
   * record is still true and the expanded prefix has grown by one.
   */
  lemma Expandido(rp: seq<int>, ci: seq<int>, n: int, s: int, D: int, actual: int, profundidad: int,
                  cola: seq<(int, int)>, visitados: set<int>, todos: seq<(int, int)>, pos: map<int, int>, m: int,
                  cola2: seq<(int, int)>, visitados2: set<int>, todos2: seq<(int, int)>, pos2: map<int, int>)
    requires Bien(rp, ci, n) && Invariante(rp, ci, n, s, D, todos, pos) && Frente(todos, m) && m > 0
    requires Expandidos(rp, ci, n, D, todos, pos, m - 1)
    requires todos[m - 1] == (actual, profundidad) && profundidad < D
    requires Cubierto(rp, ci, n, s, profundidad, pos)
    requires visitados == pos.Keys && cola == todos[m..]
    requires 0 <= actual < n && rp[actual + 1] <= |ci|
    requires Estado(cola2, visitados2, todos2, pos2) ==
             Recorrer(ci, rp[actual], rp[actual + 1], Estado(cola, visitados, todos, pos), profundidad + 1)
    ensures Invariante(rp, ci, n, s, D, todos2, pos2) && Frente(todos2, m)
    ensures Expandidos(rp, ci, n, D, todos2, pos2, m)
    ensures visitados2 == pos2.Keys && cola2 == todos2[m..]
  {
    var e := Estado(cola, visitados, todos, pos);
    var a, b, d := rp[actual], rp[actual + 1], profundidad + 1;
    assert rp[0] <= a <= b;
    assert 0 <= profundidad && Distancia(rp, ci, n, s, actual, profundidad);
    var q := Empujados(rp, ci, n, actual, visitados, d);
    RecorrerCola(ci, a, b, e, d);
    RecorrerVistos(ci, a, b, e, d);
    RecorrerPosiciones(ci, a, b, e, d);
    RecorrerMarca(ci, a, b, e, d);
    Nuevos(rp, ci, n, s, actual, profundidad, visitados, pos, q);
    assert todos2 == todos + q && cola2 == cola + q;
    Anexados(rp, ci, n, s, D, todos, pos, m, q, pos2);
    Anexar(todos, q, m);
    ExpandidosCrece(rp, ci, n, D, todos, pos, todos2, pos2, m - 1);
    Terminar(rp, ci, n, D, todos2, pos2, visitados2, m, actual);
  }

  /**
   * The row scan of `BFS` for the node just dequeued, `actual`: each
   * neighbour not yet visited, in row order, is marked and enqueued at
   * depth `d`, and the ghost record follows the queue.
   */
  method Expandir(rp: seq<int>, ci: seq<int>, n: int, actual: int, d: int,
                  cola: seq<(int, int)>, visitados: set<int>, ghost todos: seq<(int, int)>, ghost pos: map<int, int>)
    returns (cola2: seq<(int, int)>, visitados2: set<int>, ghost todos2: seq<(int, int)>, ghost pos2: map<int, int>)
    requires Bien(rp, ci, n) && 0 <= actual < n
    ensures rp[actual] <= rp[actual + 1] <= |ci|
    ensures Estado(cola2, visitados2, todos2, pos2) ==
            Recorrer(ci, rp[actual], rp[actual + 1], Estado(cola, visitados, todos, pos), d)
    ensures cola2 == cola + Empujados(rp, ci, n, actual, visitados, d)
    ensures todos2 == todos + Empujados(rp, ci, n, actual, visitados, d)
    ensures visitados2 == visitados + Vistos(ci, rp[actual], rp[actual + 1])
  {
    assert rp[0] <= rp[actual] <= rp[actual + 1] <= rp[n];
    ghost var e := Estado(cola, visitados, todos, pos);
    cola2, visitados2, todos2, pos2 := cola, visitados, todos, pos;
    var i := rp[actual];
    while i < rp[actual + 1]
      invariant rp[actual] <= i <= rp[actual + 1]
      invariant Estado(cola2, visitados2, todos2, pos2) == Recorrer(ci, rp[actual], i, e, d)
    {
      var vecino := ci[i];
      if vecino !in visitados2 {
        visitados2 := visitados2 + {vecino};
        cola2 := cola2 + [(vecino, d)];
        pos2 := pos2[vecino := |todos2|];
        todos2 := todos2 + [(vecino, d)];
      }
      i := i + 1;
    }
    RecorrerCola(ci, rp[actual], rp[actual + 1], e, d);
    RecorrerVistos(ci, rp[actual], rp[actual + 1], e, d);
  }

  /** Distinct values drawn from `u` are at most `|u|` many. */
  lemma {:induction false} Palomar(xs: seq<int>, u: set<int>)
    requires forall i :: 0 <= i < |xs| ==> xs[i] in u
    requires forall i, j :: 0 <= i < j < |xs| ==> xs[i] != xs[j]
    ensures |xs| <= |u|
    decreases |xs|
  {
    if xs != [] {
      var x := xs[|xs| - 1];
      Palomar(xs[..|xs| - 1], u - {x});
      assert u == (u - {x}) + {x};
    }
  }

  /** There are `n` nodes. */
  lemma {:induction false} UniversoTam(n: nat)
    ensures |Universo(n)| == n
  {
    if n > 0 {
      UniversoTam(n - 1);
      assert Universo(n) == Universo(n - 1) + {n - 1};
    }
  }

  /** The search enqueues each node at most once, so its record never outgrows the graph. */
  lemma Acotado(rp: seq<int>, ci: seq<int>, n: int, s: int, D: int, todos: seq<(int, int)>, pos: map<int, int>)
    requires Bien(rp, ci, n) && Invariante(rp, ci, n, s, D, todos, pos)
    ensures |todos| <= n
  {
    var xs := seq(|todos|, p requires 0 <= p < |todos| => todos[p].0);
    forall i, j | 0 <= i < j < |xs|
      ensures xs[i] != xs[j]
    {
      assert pos[todos[i].0] == i && pos[todos[j].0] == j;
    }
    Palomar(xs, Universo(n));
    UniversoTam(n);
  }

  /** The nodes of the first `m` pairs of the record: the nodes dequeued so far, in order. */
  ghost function Primeros(todos: seq<(int, int)>, m: int): seq<int>
    requires 0 <= m <= |todos|
  {
    if m == 0 then [] else Primeros(todos, m - 1) + [todos[m - 1].0]
  }

  /** `Primeros` lists the nodes of the record's pairs position by position. */
  lemma {:induction false} PrimerosIndices(todos: seq<(int, int)>, m: int)
    requires 0 <= m <= |todos|
    ensures |Primeros(todos, m)| == m && forall k :: 0 <= k < m ==> Primeros(todos, m)[k] == todos[k].0
  {
    if m > 0 {
      PrimerosIndices(todos, m - 1);
    }
  }

  /** Pairs pushed behind position `m` do not change the nodes before it. */
  lemma {:induction false} PrimerosPrefijo(todos: seq<(int, int)>, todos2: seq<(int, int)>, m: int)
    requires 0 <= m <= |todos| && todos <= todos2
    ensures Primeros(todos2, m) == Primeros(todos, m)
  {
    if m > 0 {
      PrimerosPrefijo(todos, todos2, m - 1);
    }
  }

  /** `r` is `orden` translated back to ids through `ix`. */
  ghost predicate Nombres(r: seq<int>, orden: seq<int>, ix: map<int, int>) {
    |r| == |orden| && forall k :: 0 <= k < |r| ==> orden[k] in ix && r[k] == ix[orden[k]]
  }

  /** Reporting one more dequeued node keeps the translation. */
  lemma Anotar(r: seq<int>, orden: seq<int>, ix: map<int, int>, x: int)
    requires Nombres(r, orden, ix) && x in ix
    ensures Nombres(r + [ix[x]], orden + [x], ix)
  {
  }

  // ---------------------------------------------------------------------
  // The order, level by level

  /** The nodes of a record's pairs. */
  function Nodos(todos: seq<(int, int)>): (r: set<int>)
    ensures forall p :: 0 <= p < |todos| ==> todos[p].0 in r
  {
    set x | x in todos :: x.0
  }

  /**
   * The record after dequeuing its pair `j`: below the depth limit, that
   * pair's row appends its nodes not yet recorded, in stored order, one
   * level deeper.
   */
  function Crecer(rp: seq<int>, ci: seq<int>, n: int, D: int, t: seq<(int, int)>, j: int): seq<(int, int)>
    requires Bien(rp, ci, n)
  {
    if 0 <= j < |t| && t[j].1 < D && 0 <= t[j].0 < n then
      t + Empujados(rp, ci, n, t[j].0, Nodos(t), t[j].1 + 1)
    else t
  }

  /**
   * The record after `k` dequeues, independently of any queue: it starts
   * as `[(s, 0)]` and grows by `Crecer` once per dequeue.
   */
  function Historial(rp: seq<int>, ci: seq<int>, n: int, s: int, D: int, k: nat): seq<(int, int)>
    requires Bien(rp, ci, n)
  {
    if k == 0 then [(s, 0)] else Crecer(rp, ci, n, D, Historial(rp, ci, n, s, D, k - 1), k - 1)
  }

  /** The breadth-first order of the search from `s`: the nodes of the record once it stops growing. */
  ghost function Orden(rp: seq<int>, ci: seq<int>, n: int, s: int, D: int): seq<int>
    requires Bien(rp, ci, n)
  {
    var t := Historial(rp, ci, n, s, D, |rp| - 1);
    Primeros(t, |t|)
  }

  /** `Orden` reads the nodes off the record after `n` dequeues. */
  lemma OrdenDe(rp: seq<int>, ci: seq<int>, n: int, s: int, D: int, t: seq<(int, int)>)
    requires Bien(rp, ci, n) && t == Historial(rp, ci, n, s, D, n)
    ensures Orden(rp, ci, n, s, D) == Primeros(t, |t|)
  {
  }

  /** A dequeue past the end of the record leaves it as it is. */
  lemma Fijo(rp: seq<int>, ci: seq<int>, n: int, s: int, D: int, k: nat)
    requires Bien(rp, ci, n) && |Historial(rp, ci, n, s, D, k)| <= k
    ensures Historial(rp, ci, n, s, D, k + 1) == Historial(rp, ci, n, s, D, k)
  {
    var t := Historial(rp, ci, n, s, D, k);
    assert Historial(rp, ci, n, s, D, k + 1) == Crecer(rp, ci, n, D, t, k);
  }

  /** Once every pair has been dequeued the record no longer changes. */
  lemma {:induction false} Estable(rp: seq<int>, ci: seq<int>, n: int, s: int, D: int, k: nat, j: nat)
    requires Bien(rp, ci, n) && k <= j && |Historial(rp, ci, n, s, D, k)| <= k
    ensures Historial(rp, ci, n, s, D, j) == Historial(rp, ci, n, s, D, k)
    decreases j - k
  {
    if k < j {
      Fijo(rp, ci, n, s, D, k);
      Estable(rp, ci, n, s, D, k + 1, j);
    }
  }

  /** One dequeue extends the record by the front's new row entries, or leaves it when the front is at the limit. */
  lemma HistorialPaso(rp: seq<int>, ci: seq<int>, n: int, s: int, D: int, m: nat, todos: seq<(int, int)>)
    requires Bien(rp, ci, n) && todos == Historial(rp, ci, n, s, D, m)
    requires m < |todos| && 0 <= todos[m].0 < n
    ensures Historial(rp, ci, n, s, D, m + 1) ==
            if todos[m].1 < D then todos + Empujados(rp, ci, n, todos[m].0, Nodos(todos), todos[m].1 + 1)
            else todos
  {
    assert Historial(rp, ci, n, s, D, m + 1) == Crecer(rp, ci, n, D, todos, m);
  }

  /** The discovered set is the set of recorded nodes. */
  lemma Claves(todos: seq<(int, int)>, pos: map<int, int>)
    requires Posiciones(todos, pos)
    ensures pos.Keys == Nodos(todos)
  {
    forall v | v in Nodos(todos)
      ensures v in pos
    {
      var x :| x in todos && x.0 == v;
      var p :| 0 <= p < |todos| && todos[p] == x;
    }
    forall v | v in pos
      ensures v in Nodos(todos)
    {
      assert todos[pos[v]] in todos;
    }
  }

  /**
   * The state of the queue loop of `BFS` from `s` after `m` dequeues: the
   * record, with the queue its undequeued suffix, and the record is the
   * level-by-level `Historial`.
   */
  ghost predicate Buscando(rp: seq<int>, ci: seq<int>, n: int, s: int, D: int,
                           cola: seq<(int, int)>, visitados: set<int>, todos: seq<(int, int)>, pos: map<int, int>, m: int)
    requires Bien(rp, ci, n)
  {
    Invariante(rp, ci, n, s, D, todos, pos) && Frente(todos, m) &&
    Expandidos(rp, ci, n, D, todos, pos, m) &&
    visitados == pos.Keys && cola == todos[m..] && |todos| <= n &&
    todos == Historial(rp, ci, n, s, D, m)
  }

  /** The state right after the start is pushed. */
  lemma Comienzo(rp: seq<int>, ci: seq<int>, n: int, s: int, D: int)
    requires Bien(rp, ci, n) && 0 <= s < n
    ensures Buscando(rp, ci, n, s, D, [(s, 0)], {s}, [(s, 0)], map[s := 0], 0)
  {
    Inicio(rp, ci, n, s, D);
  }

  /** A turn whose front is at the depth limit only dequeues it. */
  lemma VueltaTope(rp: seq<int>, ci: seq<int>, n: int, s: int, D: int,
                   cola: seq<(int, int)>, visitados: set<int>, todos: seq<(int, int)>, pos: map<int, int>, m: int)
    requires Bien(rp, ci, n) && Buscando(rp, ci, n, s, D, cola, visitados, todos, pos, m) && cola != []
    requires 0 <= cola[0].0 < n && cola[0].1 >= D
    ensures Buscando(rp, ci, n, s, D, cola[1..], visitados, todos, pos, m + 1)
    ensures Primeros(todos, m + 1) == Primeros(todos, m) + [cola[0].0]
  {
    assert todos[m] == cola[0];
    Desencolar(rp, ci, n, s, D, todos, pos, m);
    Terminar(rp, ci, n, D, todos, pos, visitados, m + 1, cola[0].0);
    HistorialPaso(rp, ci, n, s, D, m, todos);
  }

  /** A turn whose front is below the depth limit dequeues it and appends its row's new nodes. */
  lemma VueltaFila(rp: seq<int>, ci: seq<int>, n: int, s: int, D: int,
                   cola: seq<(int, int)>, visitados: set<int>, todos: seq<(int, int)>, pos: map<int, int>, m: int,
                   cola2: seq<(int, int)>, visitados2: set<int>, todos2: seq<(int, int)>, pos2: map<int, int>)
    requires Bien(rp, ci, n) && Buscando(rp, ci, n, s, D, cola, visitados, todos, pos, m) && cola != []
    requires 0 <= cola[0].0 < n && rp[cola[0].0 + 1] <= |ci| && cola[0].1 < D
    requires Estado(cola2, visitados2, todos2, pos2) ==
             Recorrer(ci, rp[cola[0].0], rp[cola[0].0 + 1], Estado(cola[1..], visitados, todos, pos), cola[0].1 + 1)
    ensures Buscando(rp, ci, n, s, D, cola2, visitados2, todos2, pos2, m + 1)
    ensures |todos| <= |todos2| && (|todos2| == |todos| ==> |cola2| < |cola|)
    ensures Primeros(todos2, m + 1) == Primeros(todos, m) + [cola[0].0]
  {
    var (actual, profundidad) := cola[0];
    assert todos[m] == cola[0];
    Desencolar(rp, ci, n, s, D, todos, pos, m);
    Claves(todos, pos);
    var a, b, d := rp[actual], rp[actual + 1], profundidad + 1;
    Expandido(rp, ci, n, s, D, actual, profundidad, cola[1..], visitados, todos, pos, m + 1,
              cola2, visitados2, todos2, pos2);
    RecorrerCola(ci, a, b, Estado(cola[1..], visitados, todos, pos), d);
    HistorialPaso(rp, ci, n, s, D, m, todos);
    Acotado(rp, ci, n, s, D, todos2, pos2);
    PrimerosPrefijo(todos, todos2, m + 1);
  }

  /**
   * One turn of the queue loop: dequeue the front and, below the depth
   * limit, scan its row. The new state is the state after `m + 1` dequeues,
   * and the record has grown or the queue has shrunk.
   */
  lemma Vuelta(rp: seq<int>, ci: seq<int>, n: int, s: int, D: int,
               cola: seq<(int, int)>, visitados: set<int>, todos: seq<(int, int)>, pos: map<int, int>, m: int,
               cola2: seq<(int, int)>, visitados2: set<int>, todos2: seq<(int, int)>, pos2: map<int, int>)
    requires Bien(rp, ci, n) && Buscando(rp, ci, n, s, D, cola, visitados, todos, pos, m) && cola != []
    requires 0 <= cola[0].0 < n && rp[cola[0].0 + 1] <= |ci|
    requires cola[0].1 < D ==>
               Estado(cola2, visitados2, todos2, pos2) ==
               Recorrer(ci, rp[cola[0].0], rp[cola[0].0 + 1], Estado(cola[1..], visitados, todos, pos), cola[0].1 + 1)
    requires cola[0].1 >= D ==> cola2 == cola[1..] && visitados2 == visitados && todos2 == todos && pos2 == pos
    ensures Buscando(rp, ci, n, s, D, cola2, visitados2, todos2, pos2, m + 1)
    ensures |todos| <= |todos2| && (|todos2| == |todos| ==> |cola2| < |cola|)
    ensures Primeros(todos2, m + 1) == Primeros(todos, m) + [cola[0].0]
  {
    if cola[0].1 < D {
      VueltaFila(rp, ci, n, s, D, cola, visitados, todos, pos, m, cola2, visitados2, todos2, pos2);
    } else {
      VueltaTope(rp, ci, n, s, D, cola, visitados, todos, pos, m);
    }
  }

  /** When the queue runs empty, the dequeued nodes are a breadth-first order, and the one `Orden` defines. */
  lemma Agotado(rp: seq<int>, ci: seq<int>, n: int, s: int, D: int,
                visitados: set<int>, todos: seq<(int, int)>, pos: map<int, int>, m: int, orden: seq<int>)
    requires Bien(rp, ci, n) && Buscando(rp, ci, n, s, D, [], visitados, todos, pos, m)
    requires orden == Primeros(todos, m)
    ensures EsRecorrido(rp, ci, n, s, D, orden) && orden == Orden(rp, ci, n, s, D)
    ensures 0 < |orden| <= n && orden[0] == s
  {
    assert m == |todos|;
    PrimerosIndices(todos, m);
    Final(rp, ci, n, s, D, todos, pos, orden);
    Estable(rp, ci, n, s, D, m, n);
    OrdenDe(rp, ci, n, s, D, todos);
  }

  /**
   * One turn of the queue loop of `BFS`: pop the front and, unless it is at
   * the depth limit, scan its row, which pushes the row's undiscovered
   * nodes one level deeper in stored order.
   */
  method Turno(rp: seq<int>, ci: seq<int>, n: int, D: int,
               cola: seq<(int, int)>, visitados: set<int>, ghost todos: seq<(int, int)>, ghost pos: map<int, int>)
    returns (cola2: seq<(int, int)>, visitados2: set<int>, ghost todos2: seq<(int, int)>, ghost pos2: map<int, int>)
    requires Bien(rp, ci, n) && cola != [] && 0 <= cola[0].0 < n
    ensures rp[cola[0].0 + 1] <= |ci|
    ensures cola[0].1 < D ==>
              Estado(cola2, visitados2, todos2, pos2) ==
              Recorrer(ci, rp[cola[0].0], rp[cola[0].0 + 1], Estado(cola[1..], visitados, todos, pos), cola[0].1 + 1)
    ensures cola[0].1 < D ==>
              cola2 == cola[1..] + Empujados(rp, ci, n, cola[0].0, visitados, cola[0].1 + 1) &&
              todos2 == todos + Empujados(rp, ci, n, cola[0].0, visitados, cola[0].1 + 1)
    ensures cola[0].1 >= D ==> cola2 == cola[1..] && visitados2 == visitados && todos2 == todos && pos2 == pos
  {
    var (actual, profundidad) := cola[0];
    if profundidad < D {
      cola2, visitados2, todos2, pos2 := Expandir(rp, ci, n, actual, profundidad + 1, cola[1..], visitados, todos, pos);
    } else {
      cola2, visitados2, todos2, pos2 := cola[1..], visitados, todos, pos;
      assert rp[0] <= rp[actual + 1] <= rp[n];
    }
  }

  /**
   * The queue loop of `BFS` from the dense index `inicio`, over the layout
   * `rp`/`ci` and the index-to-id map `ix`: it returns the ids of the
   * breadth-first order `Orden` of the nodes within `D` steps.
   */
  method Buscar(rp: seq<int>, ci: seq<int>, n: int, ix: map<int, int>, inicio: int, D: int)
    returns (r: seq<int>, ghost orden: seq<int>)
    requires Bien(rp, ci, n) && 0 <= inicio < n
    requires forall v :: 0 <= v < n ==> v in ix
    ensures EsRecorrido(rp, ci, n, inicio, D, orden) && orden == Orden(rp, ci, n, inicio, D)
    ensures Nombres(r, orden, ix)
    ensures 0 < |r| <= n && r[0] == ix[inicio]
  {
    var cola: seq<(int, int)> := [(inicio, 0)];
    var visitados: set<int> := {inicio};
    r := [];
    ghost var todos: seq<(int, int)> := [(inicio, 0)];
    ghost var pos: map<int, int> := map[inicio := 0];
    ghost var m := 0;
    orden := [];
    Comienzo(rp, ci, n, inicio, D);
    while cola != []
      invariant Buscando(rp, ci, n, inicio, D, cola, visitados, todos, pos, m)
      invariant orden == Primeros(todos, m)
      invariant Nombres(r, orden, ix)
      decreases n - |todos|, |cola|
    {
      assert cola[0] == todos[m];
      var actual := cola[0].0;
      var cola2, visitados2, todos2, pos2 := Turno(rp, ci, n, D, cola, visitados, todos, pos);
      Vuelta(rp, ci, n, inicio, D, cola, visitados, todos, pos, m, cola2, visitados2, todos2, pos2);
      Anotar(r, orden, ix, actual);
      r := r + [ix[actual]];
      orden := orden + [actual];
      cola, visitados, todos, pos, m := cola2, visitados2, todos2, pos2, m + 1;
    }
    Agotado(rp, ci, n, inicio, D, visitados, todos, pos, m, orden);
  }

  // ---------------------------------------------------------------------
  // Consequences of the contract

  /** With no depth to spend (`profundidadMaxima <= 0`) the search returns only its start. */
  lemma SinProfundidad(rp: seq<int>, ci: seq<int>, n: int, s: int, D: int, orden: seq<int>)
    requires Bien(rp, ci, n) && 0 <= s < n && D <= 0 && EsRecorrido(rp, ci, n, s, D, orden)
    ensures orden == [s]
  {
    forall k | 0 <= k < |orden|
      ensures orden[k] == s
    {
      assert orden[k] in orden;
      AlcanzaCero(rp, ci, n, s, orden[k]);
    }
    assert orden[|orden| - 1] == orden[0];
  }

  /** The layout of the edges 0->1, 0->2, 1->3, 2->3 and 3->4 over five nodes. */
  lemma EjemploBien()
    ensures Bien([0, 2, 3, 4, 5, 5], [1, 2, 3, 3, 4], 5)
  {
  }

  /** Scanning node 0's row with only 0 visited meets 1 and then 2. */
  lemma EjemploFila()
    ensures Bien([0, 2, 3, 4, 5, 5], [1, 2, 3, 3, 4], 5)
    ensures Empujados([0, 2, 3, 4, 5, 5], [1, 2, 3, 3, 4], 5, 0, {0}, 1) == [(1, 1), (2, 1)]
  {
    EjemploBien();
    var ci := [1, 2, 3, 3, 4];
    assert Ranuras(ci, 0, 0, {0}) == [];
    assert Vistos(ci, 0, 0) == {};
    assert Ranuras(ci, 0, 1, {0}) == [0];
    assert Vistos(ci, 0, 1) == {1};
    assert Ranuras(ci, 0, 2, {0}) == [0] + [1];
    assert Encolados(ci, [0], 1) == [(1, 1)];
    assert [0, 1][..1] == [0];
    assert Encolados(ci, [0, 1], 1) == [(1, 1)] + [(2, 1)];
  }

  /** With depth limit 1 the record from 0 is 0 then node 0's row, and no later dequeue adds to it. */
  lemma EjemploRegistro()
    ensures Bien([0, 2, 3, 4, 5, 5], [1, 2, 3, 3, 4], 5)
    ensures Historial([0, 2, 3, 4, 5, 5], [1, 2, 3, 3, 4], 5, 0, 1, 3) == [(0, 0), (1, 1), (2, 1)]
  {
    var rp, ci := [0, 2, 3, 4, 5, 5], [1, 2, 3, 3, 4];
    EjemploFila();
    var t0, t1 := [(0, 0)], [(0, 0), (1, 1), (2, 1)];
    assert Historial(rp, ci, 5, 0, 1, 0) == t0;
    assert Nodos(t0) == {0};
    assert Historial(rp, ci, 5, 0, 1, 1) == t0 + [(1, 1), (2, 1)] == t1;
    assert Historial(rp, ci, 5, 0, 1, 2) == t1;
  }

  /**
   * On that layout with depth limit 1, the search from 0 lists 1 before 2,
   * as node 0's row stores them, and stops at depth 1.
   */
  lemma OrdenEjemplo()
    ensures Orden([0, 2, 3, 4, 5, 5], [1, 2, 3, 3, 4], 5, 0, 1) == [0, 1, 2]
  {
    var rp, ci, t1 := [0, 2, 3, 4, 5, 5], [1, 2, 3, 3, 4], [(0, 0), (1, 1), (2, 1)];
    EjemploRegistro();
    Estable(rp, ci, 5, 0, 1, 3, 5);
    OrdenDe(rp, ci, 5, 0, 1, t1);
    assert Primeros(t1, 1) == [0];
    assert Primeros(t1, 2) == [0, 1];
  }
}
