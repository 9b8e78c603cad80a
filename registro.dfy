/**
 * The id remapping of `GrafoDisperso`: `id_to_index` and `index_to_id`
 * translate arbitrary integer ids to dense indices and back, and
 * `siguiente_indice` is the next free index. `obtenerIndice` registers an
 * unknown id at that index; nothing ever removes an entry.
 */
module Registro {

  /** The two maps and the next free index, as one value. */
  datatype Tablas = Tablas(idToIndex: map<int, int>, indexToId: map<int, int>, siguiente: int)

  /** The tables of a freshly constructed graph. */
  const Vacias: Tablas := Tablas(map[], map[], 0)

  /** The maps are mutual inverses and the dense indices are exactly `[0, siguiente)`. */
  predicate Inversos(t: Tablas) {
    t.siguiente >= 0 && |t.idToIndex| == t.siguiente && |t.indexToId| == t.siguiente &&
    (forall i :: 0 <= i < t.siguiente ==> i in t.indexToId) &&
    (forall i :: i in t.indexToId ==> 0 <= i < t.siguiente) &&
    (forall id :: id in t.idToIndex ==> t.idToIndex[id] in t.indexToId && t.indexToId[t.idToIndex[id]] == id) &&
    (forall i :: i in t.indexToId ==> t.indexToId[i] in t.idToIndex && t.idToIndex[t.indexToId[i]] == i)
  }

  /** `t2` keeps every entry of `t1`: ids keep their index and the next free index never goes back. */
  predicate Extiende(t1: Tablas, t2: Tablas) {
    t1.siguiente <= t2.siguiente &&
    (forall id :: id in t1.idToIndex ==> id in t2.idToIndex && t2.idToIndex[id] == t1.idToIndex[id]) &&
    (forall i :: i in t1.indexToId ==> i in t2.indexToId && t2.indexToId[i] == t1.indexToId[i])
  }

  /**
   * The tables after `obtenerIndice(id)`: a known id leaves them as they
   * are; an unknown one is registered at the next free index.
   */
  function Paso(t: Tablas, id: int): (r: Tablas)
    ensures Inversos(t) ==> Inversos(r) && Extiende(t, r)
    ensures id in r.idToIndex
    ensures id in t.idToIndex ==> r == t
    ensures id !in t.idToIndex ==> r.idToIndex[id] == t.siguiente && r.siguiente == t.siguiente + 1
  {
    if id in t.idToIndex then t
    else
      PasoInversos(t, id);
      Tablas(t.idToIndex[id := t.siguiente], t.indexToId[t.siguiente := id], t.siguiente + 1)
  }

  /** Registering an unknown id at the next free index keeps the maps inverse. */
  lemma PasoInversos(t: Tablas, id: int)
    requires id !in t.idToIndex
    ensures var r := Tablas(t.idToIndex[id := t.siguiente], t.indexToId[t.siguiente := id], t.siguiente + 1);
            Inversos(t) ==> Inversos(r)
  {
    if Inversos(t) {
      assert t.siguiente !in t.indexToId;
      var r := Tablas(t.idToIndex[id := t.siguiente], t.indexToId[t.siguiente := id], t.siguiente + 1);
      assert |r.idToIndex| == t.siguiente + 1;
      assert |r.indexToId| == t.siguiente + 1;
      forall i | i in r.indexToId
        ensures r.indexToId[i] in r.idToIndex && r.idToIndex[r.indexToId[i]] == i
      {
        if i != t.siguiente {
          assert t.indexToId[i] != id;
        }
      }
    }
  }

  /** The tables after `obtenerIndice` on each id of `ids`, in order. */
  function Registrar(t: Tablas, ids: seq<int>): (r: Tablas)
    ensures Inversos(t) ==> Inversos(r) && Extiende(t, r)
    ensures forall id :: id in r.idToIndex <==> id in t.idToIndex || id in ids
  {
    if ids == [] then t
    else Paso(Registrar(t, ids[..|ids| - 1]), ids[|ids| - 1])
  }

  /**
   * The ids of `ids` not in `conocidos`, once each, in order of first
   * appearance: the ids that registering `ids` on top of `conocidos` adds.
   */
  function Nuevos(conocidos: set<int>, ids: seq<int>): (r: seq<int>)
    ensures forall k :: 0 <= k < |r| ==> r[k] in ids && r[k] !in conocidos
    ensures forall id :: id in r <==> id in ids && id !in conocidos
    ensures forall j, k :: 0 <= j < k < |r| ==> r[j] != r[k]
  {
    if ids == [] then []
    else
      var p := Nuevos(conocidos, ids[..|ids| - 1]);
      var x := ids[|ids| - 1];
      if x in conocidos || x in p then p else p + [x]
  }

  /** Position of the first occurrence of `x` in `ids`. */
  function Primera(ids: seq<int>, x: int): (k: nat)
    requires x in ids
    ensures k < |ids| && ids[k] == x && forall j :: 0 <= j < k ==> ids[j] != x
  {
    if ids[0] == x then 0 else 1 + Primera(ids[1..], x)
  }

  /** Both ends of every edge are registered in `m`. */
  predicate Registradas(m: map<int, int>, aristas: seq<(int, int)>) {
    forall k :: 0 <= k < |aristas| ==> aristas[k].0 in m && aristas[k].1 in m
  }

  /** An edge list in ids, seen through `m` as an edge list in indices. */
  function Traducir(m: map<int, int>, aristas: seq<(int, int)>): (r: seq<(int, int)>)
    requires Registradas(m, aristas)
    ensures |r| == |aristas|
    ensures forall k :: 0 <= k < |aristas| ==> r[k] == (m[aristas[k].0], m[aristas[k].1])
  {
    if aristas == [] then []
    else
      var e := aristas[|aristas| - 1];
      Traducir(m, aristas[..|aristas| - 1]) + [(m[e.0], m[e.1])]
  }

  // ---------------------------------------------------------------------
  // Properties

  /**
   * Registering ids hands out the dense indices `siguiente, siguiente+1, ...`
   * to the new ids in order of first appearance, and nothing else changes.
   */
  lemma {:induction false} OrdenDeAparicion(t: Tablas, ids: seq<int>)
    requires Inversos(t)
    ensures var r := Registrar(t, ids);
            var nuevos := Nuevos(t.idToIndex.Keys, ids);
            r.siguiente == t.siguiente + |nuevos| &&
            forall k :: 0 <= k < |nuevos| ==> t.siguiente + k in r.indexToId && r.indexToId[t.siguiente + k] == nuevos[k]
    decreases |ids|
  {
    if ids != [] {
      var p := ids[..|ids| - 1];
      var x := ids[|ids| - 1];
      OrdenDeAparicion(t, p);
      var rp := Registrar(t, p);
      var np := Nuevos(t.idToIndex.Keys, p);
      assert x in rp.idToIndex <==> x in t.idToIndex.Keys || x in np;
    }
  }

  /** The index registering `ids` gives to a new id, counted from `t.siguiente`. */
  lemma IndiceDeNuevo(t: Tablas, ids: seq<int>, k: nat)
    requires Inversos(t)
    requires k < |Nuevos(t.idToIndex.Keys, ids)|
    ensures var id := Nuevos(t.idToIndex.Keys, ids)[k];
            Registrar(t, ids).idToIndex[id] == t.siguiente + k
  {
    OrdenDeAparicion(t, ids);
  }

  /** Of two new ids, the one that first appears earlier gets the smaller index. */
  lemma {:induction false} NuevosEnOrden(conocidos: set<int>, ids: seq<int>, j: nat, k: nat)
    requires j < k < |Nuevos(conocidos, ids)|
    ensures var n := Nuevos(conocidos, ids);
            Primera(ids, n[j]) < Primera(ids, n[k])
    decreases |ids|
  {
    var n := Nuevos(conocidos, ids);
    var p := ids[..|ids| - 1];
    var np := Nuevos(conocidos, p);
    PrimeraPrefijo(ids, n[j]);
    if k < |np| {
      NuevosEnOrden(conocidos, p, j, k);
      PrimeraPrefijo(ids, n[k]);
    } else {
      assert n[k] == ids[|ids| - 1] && n[k] !in p;
      assert Primera(ids, n[k]) == |ids| - 1;
    }
  }

  /** An id of the prefix is first found in the prefix. */
  lemma PrimeraPrefijo(ids: seq<int>, x: int)
    requires |ids| > 0 && x in ids
    ensures x in ids[..|ids| - 1] ==> Primera(ids, x) == Primera(ids[..|ids| - 1], x)
    ensures x !in ids[..|ids| - 1] ==> Primera(ids, x) == |ids| - 1
  {
    var p := ids[..|ids| - 1];
    var a := Primera(ids, x);
    if x in p {
      var b := Primera(p, x);
      assert ids[b] == x;
      assert a <= b;
      assert p[a] == x;
    }
  }

  /** Indices hand out by `Inversos` tables are one-to-one. */
  lemma Inyectiva(t: Tablas, a: int, b: int)
    requires Inversos(t) && a in t.idToIndex && b in t.idToIndex
    ensures t.idToIndex[a] == t.idToIndex[b] <==> a == b
  {
  }

  /** Translating through a map that was extended gives the same edges. */
  lemma TraducirExtendido(m1: map<int, int>, m2: map<int, int>, aristas: seq<(int, int)>)
    requires Registradas(m1, aristas)
    requires forall id :: id in m1 ==> id in m2 && m2[id] == m1[id]
    ensures Registradas(m2, aristas) && Traducir(m2, aristas) == Traducir(m1, aristas)
  {
    forall k | 0 <= k < |aristas|
      ensures aristas[k].0 in m2 && m2[aristas[k].0] == m1[aristas[k].0]
      ensures aristas[k].1 in m2 && m2[aristas[k].1] == m1[aristas[k].1]
    {
      var (a, b) := aristas[k];
      assert a in m1 && b in m1;
    }
  }
}
