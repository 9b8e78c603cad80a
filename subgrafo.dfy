/**
 * The edges `obtenerAristasSubgrafo` returns, at the level of original ids:
 * for each listed node in list order, its edges in stored order whose
 * destination is also listed.
 */
module Subgrafo {
  import opened Lectura
  import opened Csr

  /** The pairs `(u, v)` for the destinations `v` of `ds` that lie in `en`, in order. */
  function Salientes(u: int, ds: seq<int>, en: set<int>): (r: seq<(int, int)>)
    ensures |r| <= |ds|
  {
    if ds == [] then []
    else
      var v := ds[|ds| - 1];
      Salientes(u, ds[..|ds| - 1], en) + (if v in en then [(u, v)] else [])
  }

  /** For each node of `nodos` in order, its edges of `aristas` that end in `en`. */
  function Inducidas(aristas: seq<(int, int)>, nodos: seq<int>, en: set<int>): seq<(int, int)>
  {
    if nodos == [] then []
    else
      var u := nodos[|nodos| - 1];
      Inducidas(aristas, nodos[..|nodos| - 1], en) + Salientes(u, Destinos(aristas, u), en)
  }

  /** The ids of a list, as the set `obtenerAristasSubgrafo` builds. */
  function Conjunto(nodos: seq<int>): (r: set<int>)
    ensures forall x :: x in r <==> x in nodos
  {
    set x | x in nodos
  }

  // ---------------------------------------------------------------------
  // Properties

  /** `Salientes` keeps exactly the pairs whose destination is in `en`. */
  lemma {:induction false} SalientesMiembro(u: int, ds: seq<int>, en: set<int>, e: (int, int))
    ensures e in Salientes(u, ds, en) <==> e.0 == u && e.1 in ds && e.1 in en
    decreases |ds|
  {
    if ds != [] {
      var p := ds[..|ds| - 1];
      SalientesMiembro(u, p, en, e);
      assert ds == p + [ds[|ds| - 1]];
    }
  }

  /**
   * An edge is returned exactly when its origin is listed, its destination
   * is in `en`, and it is one of the loaded edges.
   */
  lemma {:induction false} InducidasMiembro(aristas: seq<(int, int)>, nodos: seq<int>, en: set<int>, e: (int, int))
    ensures e in Inducidas(aristas, nodos, en) <==> e.0 in nodos && e.1 in en && e in aristas
    decreases |nodos|
  {
    if nodos != [] {
      var p := nodos[..|nodos| - 1];
      var u := nodos[|nodos| - 1];
      InducidasMiembro(aristas, p, en, e);
      SalientesMiembro(u, Destinos(aristas, u), en, e);
      DestinosMiembro(aristas, u, e.1);
      assert nodos == p + [u];
    }
  }

  /** With `en` the listed ids: the induced edges are the loaded edges with both ends listed. */
  lemma SubgrafoInducido(aristas: seq<(int, int)>, nodos: seq<int>, e: (int, int))
    ensures e in Inducidas(aristas, nodos, Conjunto(nodos)) <==> e.0 in nodos && e.1 in nodos && e in aristas
  {
    InducidasMiembro(aristas, nodos, Conjunto(nodos), e);
  }

  /**
   * The result is origin-major in list order: listing `a` then `b` returns
   * `a`'s edges then `b`'s, so a repeated node repeats its edges.
   */
  lemma {:induction false} InducidasConcat(aristas: seq<(int, int)>, a: seq<int>, b: seq<int>, en: set<int>)
    ensures Inducidas(aristas, a + b, en) == Inducidas(aristas, a, en) + Inducidas(aristas, b, en)
    decreases |b|
  {
    if b == [] {
      assert a + b == a;
    } else {
      var p := b[..|b| - 1];
      var u := b[|b| - 1];
      InducidasConcat(aristas, a, p, en);
      var ab := a + b;
      assert ab[..|ab| - 1] == a + p && ab[|ab| - 1] == u;
      var s := Salientes(u, Destinos(aristas, u), en);
      assert Inducidas(aristas, ab, en) == Inducidas(aristas, a + p, en) + s;
      assert Inducidas(aristas, b, en) == Inducidas(aristas, p, en) + s;
      Asociar(Inducidas(aristas, a, en), Inducidas(aristas, p, en), s);
    }
  }

  /** One more listed node appends its own filtered row. */
  lemma InducidasPaso(aristas: seq<(int, int)>, nodos: seq<int>, k: int, en: set<int>)
    requires 0 <= k < |nodos|
    ensures Inducidas(aristas, nodos[..k + 1], en) ==
            Inducidas(aristas, nodos[..k], en) + Salientes(nodos[k], Destinos(aristas, nodos[k]), en)
  {
    assert nodos[..k + 1][..k] == nodos[..k];
  }

  /** Each origin's edges keep their stored order: listing one node returns its row filtered by `en`. */
  lemma InducidasUno(aristas: seq<(int, int)>, u: int, en: set<int>)
    ensures Inducidas(aristas, [u], en) == Salientes(u, Destinos(aristas, u), en)
  {
    assert [u][..0] == [];
  }

  /** The destinations of 0, 1 and 2 among the sample edges. */
  lemma DestinosEjemplo(e: seq<(int, int)>)
    requires e == [(0, 1), (0, 2), (1, 3), (2, 3), (3, 4)]
    ensures Destinos(e, 0) == [1, 2] && Destinos(e, 1) == [3] && Destinos(e, 2) == [3]
  {
    var p1, p2, p3, p4 := e[..1], e[..2], e[..3], e[..4];
    assert p4[..3] == p3 && p3[..2] == p2 && p2[..1] == p1 && p1[..0] == e[..0];
    assert Destinos(p1, 0) == [1] && Destinos(p1, 1) == [] && Destinos(p1, 2) == [];
    assert Destinos(p2, 0) == [1, 2] && Destinos(p2, 1) == [] && Destinos(p2, 2) == [];
    assert Destinos(p3, 0) == [1, 2] && Destinos(p3, 1) == [3] && Destinos(p3, 2) == [];
    assert Destinos(p4, 0) == [1, 2] && Destinos(p4, 1) == [3] && Destinos(p4, 2) == [3];
    assert e[..|e| - 1] == p4;
  }

  /** The rows of 0, 1 and 2 filtered by `{0, 1, 2}`. */
  lemma SalientesEjemplo(en: set<int>)
    requires en == Conjunto([0, 1, 2])
    ensures Salientes(0, [1, 2], en) == [(0, 1), (0, 2)]
    ensures Salientes(1, [3], en) == [] && Salientes(2, [3], en) == []
  {
    assert 1 in en && 2 in en && 3 !in en;
    assert [1, 2][..1] == [1] && |[1][..0]| == 0 && |[3][..0]| == 0;
  }

  /** The subgraph of `[0, 1, 2]` over the sample edges. */
  lemma InducidasMuestra(e: seq<(int, int)>, en: set<int>)
    requires e == [(0, 1), (0, 2), (1, 3), (2, 3), (3, 4)] && en == Conjunto([0, 1, 2])
    ensures Inducidas(e, [0, 1, 2], en) == [(0, 1), (0, 2)]
  {
    DestinosEjemplo(e);
    SalientesEjemplo(en);
    InducidasUno(e, 0, en);
    InducidasUno(e, 1, en);
    InducidasUno(e, 2, en);
    InducidasConcat(e, [1], [2], en);
    assert [1] + [2] == [1, 2];
    InducidasConcat(e, [0], [1, 2], en);
    assert [0] + [1, 2] == [0, 1, 2];
  }

  /**
   * On the sample file's edges, the subgraph of `[0, 1, 2]` keeps the two
   * edges leaving 0; the edges from 1 and 2 end at 3, which is not listed.
   */
  lemma InducidasEjemplo()
    ensures Inducidas(Aristas(Muestra), [0, 1, 2], Conjunto([0, 1, 2])) == [(0, 1), (0, 2)]
  {
    AristasEjemplo();
    InducidasMuestra(Aristas(Muestra), Conjunto([0, 1, 2]));
  }
}
