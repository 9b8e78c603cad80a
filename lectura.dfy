/**
 * Reading one line of the edge-list dataset, as `cargarDatos` does it:
 * a line is skipped when it is empty or starts with '#', and otherwise
 * `std::istringstream >> origen >> destino` must extract two `int`s.
 */
module Lectura {
  import opened Opcion

  /** Range of a 32-bit C++ `int`; `>>` fails on values outside it. */
  const MinEntero: int := -0x8000_0000
  const MaxEntero: int := 0x7FFF_FFFF

  predicate EnRango(v: int) { MinEntero <= v <= MaxEntero }

  /** Whitespace as the classic "C" locale classifies it (what `>>` skips). */
  predicate EsEspacio(c: char) {
    c == ' ' || c == '\t' || c == '\n' || c == '\U{0B}' || c == '\U{0C}' || c == '\r'
  }

  predicate EsDigito(c: char) { '0' <= c <= '9' }

  /** Position of the first non-whitespace character of `s` at or after `i`. */
  function SaltarBlancos(s: string, i: nat): (j: nat)
    requires i <= |s|
    ensures i <= j <= |s|
    ensures forall k :: i <= k < j ==> EsEspacio(s[k])
    ensures j < |s| ==> !EsEspacio(s[j])
    decreases |s| - i
  {
    if i < |s| && EsEspacio(s[i]) then SaltarBlancos(s, i + 1) else i
  }

  /** End of the run of decimal digits of `s` that starts at `i`. */
  function FinDigitos(s: string, i: nat): (j: nat)
    requires i <= |s|
    ensures i <= j <= |s|
    ensures forall k :: i <= k < j ==> EsDigito(s[k])
    ensures j < |s| ==> !EsDigito(s[j])
    decreases |s| - i
  {
    if i < |s| && EsDigito(s[i]) then FinDigitos(s, i + 1) else i
  }

  /** Decimal value of the digits `s[i..j]`, most significant first. */
  function Valor(s: string, i: nat, j: nat): nat
    requires i <= j <= |s|
    requires forall k :: i <= k < j ==> EsDigito(s[k])
    decreases j - i
  {
    if i == j then 0
    else
      assert EsDigito(s[j - 1]);
      Valor(s, i, j - 1) * 10 + (s[j - 1] as int - '0' as int)
  }

  /**
   * One `>>` into an `int`, reading `s` from position `i`: skip whitespace,
   * an optional sign, then the longest run of digits (at least one).
   * Returns the value and the position after it; `None` when no digit
   * follows or the value does not fit in 32 bits (the stream's failbit).
   */
  function ExtraerEntero(s: string, i: nat): (r: Option<(int, nat)>)
    requires i <= |s|
    ensures r.Some? ==> EnRango(r.value.0) && i < r.value.1 <= |s|
    ensures r.Some? ==> r.value.1 == |s| || !EsDigito(s[r.value.1])
  {
    var t := SaltarBlancos(s, i);
    var conSigno := t < |s| && (s[t] == '-' || s[t] == '+');
    var u := if conSigno then t + 1 else t;
    var k := FinDigitos(s, u);
    if k == u then None
    else
      var v: int := if conSigno && s[t] == '-' then -(Valor(s, u, k) as int) else Valor(s, u, k);
      if EnRango(v) then Some((v, k)) else None
  }

  /** An accepted line gives the pair `(origen, destino)`; any other line is skipped. */
  function ParsearLinea(linea: string): (r: Option<(int, int)>)
    ensures r.Some? ==> linea != [] && linea[0] != '#'
    ensures r.Some? ==> EnRango(r.value.0) && EnRango(r.value.1)
  {
    if linea == [] || linea[0] == '#' then None
    else
      var a := ExtraerEntero(linea, 0);
      if a.None? then None
      else
        var b := ExtraerEntero(linea, a.value.1);
        if b.None? then None else Some((a.value.0, b.value.0))
  }

  /** The edges of a dataset: the accepted lines' pairs, in file order. */
  function Aristas(lineas: seq<string>): (r: seq<(int, int)>)
    ensures |r| <= |lineas|
  {
    if lineas == [] then []
    else Aristas(lineas[..|lineas| - 1]) + Aceptada(lineas[|lineas| - 1])
  }

  /** The contribution of a single line to `Aristas`. */
  function Aceptada(linea: string): (r: seq<(int, int)>)
    ensures |r| <= 1
    ensures r != [] <==> ParsearLinea(linea).Some?
    ensures r != [] ==> r[0] == ParsearLinea(linea).value
  {
    match ParsearLinea(linea)
    case Some(e) => [e]
    case None => []
  }

  /** The ids an edge list mentions, origin before destination, in file order. */
  function Extremos(aristas: seq<(int, int)>): (r: seq<int>)
    ensures |r| == 2 * |aristas|
    ensures forall k :: 0 <= k < |aristas| ==> r[2 * k] == aristas[k].0 && r[2 * k + 1] == aristas[k].1
  {
    if aristas == [] then []
    else
      var e := aristas[|aristas| - 1];
      Extremos(aristas[..|aristas| - 1]) + [e.0, e.1]
  }

  /** Destinations of the edges leaving `origen`, in file order. */
  function Destinos(aristas: seq<(int, int)>, origen: int): (r: seq<int>)
    ensures |r| <= |aristas|
  {
    if aristas == [] then []
    else
      var e := aristas[|aristas| - 1];
      Destinos(aristas[..|aristas| - 1], origen) + (if e.0 == origen then [e.1] else [])
  }

  // ---------------------------------------------------------------------
  // Properties of the reader

  /** `Aristas` reads a dataset line by line: it distributes over concatenation. */
  lemma {:induction false} AristasConcat(a: seq<string>, b: seq<string>)
    ensures Aristas(a + b) == Aristas(a) + Aristas(b)
    decreases |b|
  {
    if b == [] {
      assert a + b == a;
    } else {
      var b' := b[..|b| - 1];
      assert (a + b)[..|a + b| - 1] == a + b';
      assert (a + b)[|a + b| - 1] == b[|b| - 1];
      AristasConcat(a, b');
    }
  }

  /** Every edge comes from a line that parses to it. */
  lemma {:induction false} LineaDeArista(lineas: seq<string>, e: (int, int)) returns (i: nat)
    requires e in Aristas(lineas)
    ensures i < |lineas| && ParsearLinea(lineas[i]) == Some(e)
    decreases |lineas|
  {
    var p := lineas[..|lineas| - 1];
    var ultima := lineas[|lineas| - 1];
    if e in Aristas(p) {
      i := LineaDeArista(p, e);
      assert lineas[i] == p[i];
    } else {
      assert e in Aceptada(ultima);
      i := |lineas| - 1;
    }
  }

  /** What a line contributes is part of the dataset's edges. */
  lemma {:induction false} AceptadaEn(lineas: seq<string>, i: nat)
    requires i < |lineas|
    ensures forall x :: x in Aceptada(lineas[i]) ==> x in Aristas(lineas)
    decreases |lineas|
  {
    var p := lineas[..|lineas| - 1];
    if i < |p| {
      AceptadaEn(p, i);
      assert p[i] == lineas[i];
    }
  }

  /** Every line that parses contributes its edge. */
  lemma AristaDeLinea(lineas: seq<string>, i: nat, e: (int, int))
    requires i < |lineas| && ParsearLinea(lineas[i]) == Some(e)
    ensures e in Aristas(lineas)
  {
    AceptadaEn(lineas, i);
    assert e in Aceptada(lineas[i]);
  }

  /** An edge is in the dataset iff some line parses to it. */
  lemma AristasSonLineasAceptadas(lineas: seq<string>, e: (int, int))
    ensures e in Aristas(lineas) <==> exists i :: 0 <= i < |lineas| && ParsearLinea(lineas[i]) == Some(e)
  {
    if e in Aristas(lineas) {
      var i := LineaDeArista(lineas, e);
    }
    if i :| 0 <= i < |lineas| && ParsearLinea(lineas[i]) == Some(e) {
      AristaDeLinea(lineas, i, e);
    }
  }

  /** Comment lines and empty lines are never edges. */
  lemma ComentarioIgnorado(resto: string)
    ensures ParsearLinea("#" + resto) == None && ParsearLinea("") == None
  {
  }

  // ---------------------------------------------------------------------
  // Inverse of the extraction: decimal rendering of an `int`, and the round trip

  function Digito(d: int): char
    requires 0 <= d < 10
  {
    ('0' as int + d) as char
  }

  /** Decimal rendering of a natural number, without leading zeros. */
  function MostrarNat(n: nat): (r: string)
    ensures |r| > 0 && forall i :: 0 <= i < |r| ==> EsDigito(r[i])
  {
    if n < 10 then [Digito(n)] else MostrarNat(n / 10) + [Digito(n % 10)]
  }

  /** Decimal rendering of an integer, with '-' for negatives. */
  function Mostrar(n: int): string
  {
    if n < 0 then "-" + MostrarNat(-n) else MostrarNat(n)
  }

  function Pot10(k: nat): (r: nat)
    ensures r > 0
  {
    if k == 0 then 1 else 10 * Pot10(k - 1)
  }

  /**
   * `Valor` is positional decimal: the last digit is the units digit, the
   * others are the value of the shorter run, and `k` digits stay below `10^k`.
   */
  lemma {:induction false} ValorCifras(s: string, i: nat, j: nat)
    requires i <= j <= |s|
    requires forall k :: i <= k < j ==> EsDigito(s[k])
    ensures Valor(s, i, j) < Pot10(j - i)
    ensures i < j ==> Valor(s, i, j) % 10 == s[j - 1] as int - '0' as int && Valor(s, i, j) / 10 == Valor(s, i, j - 1)
    decreases j - i
  {
    if i < j {
      ValorCifras(s, i, j - 1);
      var v := Valor(s, i, j - 1);
      var d := s[j - 1] as int - '0' as int;
      assert 0 <= d < 10;
      assert Valor(s, i, j) == v * 10 + d;
      assert Pot10(j - i) == 10 * Pot10(j - 1 - i);
    }
  }

  /** `Valor` only looks at the characters between its bounds. */
  lemma {:induction false} ValorTraslado(s: string, i: nat, t: string, len: nat)
    requires i + len <= |s| && len <= |t|
    requires forall k :: 0 <= k < len ==> EsDigito(t[k])
    requires forall k :: i <= k < i + len ==> s[k] == t[k - i]
    ensures forall k :: i <= k < i + len ==> EsDigito(s[k])
    ensures Valor(s, i, i + len) == Valor(t, 0, len)
    decreases len
  {
    if len > 0 {
      ValorTraslado(s, i, t, len - 1);
      assert s[i + len - 1] == t[len - 1];
    }
  }

  /** Rendering then reading the digits gives the number back. */
  lemma {:induction false} ValorMostrarNat(n: nat)
    ensures Valor(MostrarNat(n), 0, |MostrarNat(n)|) == n
  {
    var ds := MostrarNat(n);
    if n >= 10 {
      var ds' := MostrarNat(n / 10);
      assert ds == ds' + [Digito(n % 10)];
      ValorTraslado(ds, 0, ds', |ds'|);
      ValorMostrarNat(n / 10);
    }
  }

  lemma {:induction false} SaltarBlancosHasta(s: string, i: nat, j: nat)
    requires i <= j <= |s|
    requires forall k :: i <= k < j ==> EsEspacio(s[k])
    requires j == |s| || !EsEspacio(s[j])
    ensures SaltarBlancos(s, i) == j
    decreases j - i
  {
    if i < j {
      SaltarBlancosHasta(s, i + 1, j);
    }
  }

  lemma {:induction false} FinDigitosHasta(s: string, i: nat, j: nat)
    requires i <= j <= |s|
    requires forall k :: i <= k < j ==> EsDigito(s[k])
    requires j == |s| || !EsDigito(s[j])
    ensures FinDigitos(s, i) == j
    decreases j - i
  {
    if i < j {
      FinDigitosHasta(s, i + 1, j);
    }
  }

  /** The steps of one `>>`, put together. */
  lemma ExtraerDe(s: string, i: nat, t: nat, u: nat, f: nat, v: int)
    requires i <= t <= u < f <= |s|
    requires SaltarBlancos(s, i) == t
    requires u == t + 1 ==> s[t] == '-' || s[t] == '+'
    requires u == t ==> EsDigito(s[t])
    requires u <= t + 1 && FinDigitos(s, u) == f
    requires v == if u == t + 1 && s[t] == '-' then -(Valor(s, u, f) as int) else Valor(s, u, f)
    requires EnRango(v)
    ensures ExtraerEntero(s, i) == Some((v, f))
  {
  }

  /** The value of a token made of a sign `sg` and the digits `ds`. */
  function ValorToken(sg: string, ds: string): int
    requires forall k :: 0 <= k < |ds| ==> EsDigito(ds[k])
  {
    if sg == "-" then -(Valor(ds, 0, |ds|) as int) else Valor(ds, 0, |ds|)
  }

  /**
   * `>>` reads a token made of an optional sign and digits: after any
   * prefix, whitespace `bs`, the sign `sg`, the digits `ds`, then anything
   * that does not continue the number.
   */
  lemma ExtraerToken(s: string, pre: string, bs: string, sg: string, ds: string, resto: string)
    requires forall k :: 0 <= k < |bs| ==> EsEspacio(bs[k])
    requires sg == "" || sg == "-" || sg == "+"
    requires |ds| > 0 && forall k :: 0 <= k < |ds| ==> EsDigito(ds[k])
    requires resto == [] || !EsDigito(resto[0])
    requires EnRango(ValorToken(sg, ds))
    requires s == pre + bs + sg + ds + resto
    ensures ExtraerEntero(s, |pre|) == Some((ValorToken(sg, ds), |pre| + |bs| + |sg| + |ds|))
  {
    PosicionesToken(s, pre, bs, sg, ds, resto);
    PasosToken(s, |pre|, |pre| + |bs|, |pre| + |bs| + |sg|, |pre| + |bs| + |sg| + |ds|, ValorToken(sg, ds));
  }

  /** What `pre + bs + sg + ds + resto` holds at each position, stated on the line alone. */
  lemma PosicionesToken(s: string, pre: string, bs: string, sg: string, ds: string, resto: string)
    requires forall k :: 0 <= k < |bs| ==> EsEspacio(bs[k])
    requires sg == "" || sg == "-" || sg == "+"
    requires |ds| > 0 && forall k :: 0 <= k < |ds| ==> EsDigito(ds[k])
    requires resto == [] || !EsDigito(resto[0])
    requires s == pre + bs + sg + ds + resto
    ensures var t := |pre| + |bs|;
            var u := t + |sg|;
            var f := u + |ds|;
            f <= |s| &&
            (forall k :: |pre| <= k < t ==> EsEspacio(s[k])) &&
            (sg == "-" ==> s[t] == '-') && (sg == "+" ==> s[t] == '+') &&
            (sg == "" ==> EsDigito(s[t])) &&
            (forall k :: u <= k < f ==> EsDigito(s[k])) &&
            Valor(s, u, f) == Valor(ds, 0, |ds|) &&
            (f == |s| || !EsDigito(s[f]))
  {
    BlancosEn(s, pre, bs, sg, ds, resto);
    DigitosEn(s, pre, bs, sg, ds, resto);
    BordesEn(s, pre, bs, sg, ds, resto);
  }

  lemma BlancosEn(s: string, pre: string, bs: string, sg: string, ds: string, resto: string)
    requires forall k :: 0 <= k < |bs| ==> EsEspacio(bs[k])
    requires s == pre + bs + sg + ds + resto
    ensures forall k :: |pre| <= k < |pre| + |bs| ==> EsEspacio(s[k])
  {
    assert forall k :: |pre| <= k < |pre| + |bs| ==> s[k] == bs[k - |pre|];
  }

  lemma DigitosEn(s: string, pre: string, bs: string, sg: string, ds: string, resto: string)
    requires forall k :: 0 <= k < |ds| ==> EsDigito(ds[k])
    requires s == pre + bs + sg + ds + resto
    ensures var u := |pre| + |bs| + |sg|;
            (forall k :: u <= k < u + |ds| ==> EsDigito(s[k])) &&
            Valor(s, u, u + |ds|) == Valor(ds, 0, |ds|)
  {
    var u := |pre| + |bs| + |sg|;
    assert forall k :: u <= k < u + |ds| ==> s[k] == ds[k - u];
    ValorTraslado(s, u, ds, |ds|);
  }

  lemma BordesEn(s: string, pre: string, bs: string, sg: string, ds: string, resto: string)
    requires sg == "" || sg == "-" || sg == "+"
    requires |ds| > 0 && forall k :: 0 <= k < |ds| ==> EsDigito(ds[k])
    requires resto == [] || !EsDigito(resto[0])
    requires s == pre + bs + sg + ds + resto
    ensures var t := |pre| + |bs|;
            var f := t + |sg| + |ds|;
            f <= |s| && (sg == "-" ==> s[t] == '-') && (sg == "+" ==> s[t] == '+') &&
            (sg == "" ==> EsDigito(s[t])) && (f == |s| || !EsDigito(s[f]))
  {
  }

  /** `>>` on a line holding, from `i` on, whitespace up to `t`, a sign up to `u` and digits up to `f`. */
  lemma PasosToken(s: string, i: nat, t: nat, u: nat, f: nat, v: int)
    requires i <= t <= u < f <= |s| && u <= t + 1
    requires forall k :: i <= k < t ==> EsEspacio(s[k])
    requires u == t + 1 ==> s[t] == '-' || s[t] == '+'
    requires u == t ==> EsDigito(s[t])
    requires forall k :: u <= k < f ==> EsDigito(s[k])
    requires f == |s| || !EsDigito(s[f])
    requires v == if u == t + 1 && s[t] == '-' then -(Valor(s, u, f) as int) else Valor(s, u, f)
    requires EnRango(v)
    ensures ExtraerEntero(s, i) == Some((v, f))
  {
    Limites(s, i, t, u, f);
    ExtraerDe(s, i, t, u, f, v);
  }

  /** On such a line `>>` skips the whitespace up to `t` and ends the digits at `f`. */
  lemma Limites(s: string, i: nat, t: nat, u: nat, f: nat)
    requires i <= t <= u < f <= |s| && u <= t + 1
    requires forall k :: i <= k < t ==> EsEspacio(s[k])
    requires u == t + 1 ==> s[t] == '-' || s[t] == '+'
    requires u == t ==> EsDigito(s[t])
    requires forall k :: u <= k < f ==> EsDigito(s[k])
    requires f == |s| || !EsDigito(s[f])
    ensures SaltarBlancos(s, i) == t && FinDigitos(s, u) == f
  {
    if u == t + 1 {
      assert !EsEspacio(s[t]);
    }
    SaltarBlancosHasta(s, i, t);
    FinDigitosHasta(s, u, f);
  }

  /** The steps of one `>>` whose value does not fit in 32 bits: the read fails. */
  lemma ExtraerDeFuera(s: string, i: nat, t: nat, u: nat, f: nat, v: int)
    requires i <= t <= u < f <= |s|
    requires SaltarBlancos(s, i) == t
    requires u == t + 1 ==> s[t] == '-' || s[t] == '+'
    requires u == t ==> EsDigito(s[t])
    requires u <= t + 1 && FinDigitos(s, u) == f
    requires v == if u == t + 1 && s[t] == '-' then -(Valor(s, u, f) as int) else Valor(s, u, f)
    requires !EnRango(v)
    ensures ExtraerEntero(s, i) == None
  {
  }

  /**
   * A token of sign and digits whose value does not fit in 32 bits makes
   * `>>` fail, wherever it stands.
   */
  lemma ExtraerTokenFuera(s: string, pre: string, bs: string, sg: string, ds: string, resto: string)
    requires forall k :: 0 <= k < |bs| ==> EsEspacio(bs[k])
    requires sg == "" || sg == "-" || sg == "+"
    requires |ds| > 0 && forall k :: 0 <= k < |ds| ==> EsDigito(ds[k])
    requires resto == [] || !EsDigito(resto[0])
    requires !EnRango(ValorToken(sg, ds))
    requires s == pre + bs + sg + ds + resto
    ensures ExtraerEntero(s, |pre|) == None
  {
    PosicionesToken(s, pre, bs, sg, ds, resto);
    PasosTokenFuera(s, |pre|, |pre| + |bs|, |pre| + |bs| + |sg|, |pre| + |bs| + |sg| + |ds|, ValorToken(sg, ds));
  }

  /** `PasosToken` for a value that does not fit in 32 bits: the read fails. */
  lemma PasosTokenFuera(s: string, i: nat, t: nat, u: nat, f: nat, v: int)
    requires i <= t <= u < f <= |s| && u <= t + 1
    requires forall k :: i <= k < t ==> EsEspacio(s[k])
    requires u == t + 1 ==> s[t] == '-' || s[t] == '+'
    requires u == t ==> EsDigito(s[t])
    requires forall k :: u <= k < f ==> EsDigito(s[k])
    requires f == |s| || !EsDigito(s[f])
    requires v == if u == t + 1 && s[t] == '-' then -(Valor(s, u, f) as int) else Valor(s, u, f)
    requires !EnRango(v)
    ensures ExtraerEntero(s, i) == None
  {
    Limites(s, i, t, u, f);
    ExtraerDeFuera(s, i, t, u, f, v);
  }

  /** On a token of sign and digits, `>>` fails exactly when the value does not fit in 32 bits. */
  lemma ExtraerTokenRango(s: string, pre: string, bs: string, sg: string, ds: string, resto: string)
    requires forall k :: 0 <= k < |bs| ==> EsEspacio(bs[k])
    requires sg == "" || sg == "-" || sg == "+"
    requires |ds| > 0 && forall k :: 0 <= k < |ds| ==> EsDigito(ds[k])
    requires resto == [] || !EsDigito(resto[0])
    requires s == pre + bs + sg + ds + resto
    ensures ExtraerEntero(s, |pre|).None? <==> !EnRango(ValorToken(sg, ds))
  {
    if EnRango(ValorToken(sg, ds)) {
      ExtraerToken(s, pre, bs, sg, ds, resto);
    } else {
      ExtraerTokenFuera(s, pre, bs, sg, ds, resto);
    }
  }

  /**
   * Whitespace and an optional sign with no digit after them make `>>`
   * fail: `resto` starts with neither a digit nor, when there is no sign,
   * whitespace or a sign.
   */
  lemma SinDigitos(s: string, pre: string, bs: string, sg: string, resto: string)
    requires forall k :: 0 <= k < |bs| ==> EsEspacio(bs[k])
    requires sg == "" || sg == "-" || sg == "+"
    requires resto == [] || !EsDigito(resto[0])
    requires sg == "" && resto != [] ==> !EsEspacio(resto[0]) && resto[0] != '-' && resto[0] != '+'
    requires s == pre + bs + sg + resto
    ensures ExtraerEntero(s, |pre|) == None
  {
    var t := |pre| + |bs|;
    var u := t + |sg|;
    assert forall k :: |pre| <= k < t ==> s[k] == bs[k - |pre|];
    assert u < |s| ==> s[u] == resto[0];
    if sg != "" {
      assert s[t] == sg[0];
    }
    SaltarBlancosHasta(s, |pre|, t);
    FinDigitosHasta(s, u, u);
  }

  /**
   * What `>>` reads back is what was written: after any prefix, whitespace,
   * then the decimal rendering of a 32-bit value, then anything that does
   * not continue the number.
   */
  lemma ExtraerMostrar(pre: string, bs: string, n: int, resto: string)
    requires EnRango(n)
    requires forall k :: 0 <= k < |bs| ==> EsEspacio(bs[k])
    requires resto == [] || !EsDigito(resto[0])
    ensures ExtraerEntero(pre + bs + Mostrar(n) + resto, |pre|) == Some((n, |pre| + |bs| + |Mostrar(n)|))
  {
    var sg, ds := PartesMostrar(n);
    Reagrupar(pre, bs, sg, ds, resto);
    ExtraerToken(pre + bs + Mostrar(n) + resto, pre, bs, sg, ds, resto);
  }

  /** `Mostrar(n)` is a sign followed by digits whose value is `n`. */
  lemma PartesMostrar(n: int) returns (sg: string, ds: string)
    ensures sg == "" || sg == "-"
    ensures |ds| > 0 && forall k :: 0 <= k < |ds| ==> EsDigito(ds[k])
    ensures Mostrar(n) == sg + ds && ValorToken(sg, ds) == n
  {
    var m: nat := if n < 0 then -n else n;
    ds := MostrarNat(m);
    sg := if n < 0 then "-" else "";
    ValorMostrarNat(m);
  }

  lemma Reagrupar(pre: string, bs: string, sg: string, ds: string, resto: string)
    ensures pre + bs + (sg + ds) + resto == pre + bs + sg + ds + resto
  {
  }

  /**
   * A line written as `origen <whitespace> destino` followed by anything that
   * does not continue the second number (for example further tokens) is
   * accepted with exactly that pair.
   */
  lemma ParsearLineaFormateada(origen: int, sep: string, destino: int, cola: string)
    requires EnRango(origen) && EnRango(destino)
    requires |sep| > 0 && forall k :: 0 <= k < |sep| ==> EsEspacio(sep[k])
    requires cola == [] || !EsDigito(cola[0])
    ensures ParsearLinea(Mostrar(origen) + sep + Mostrar(destino) + cola) == Some((origen, destino))
  {
    var mo, md := Mostrar(origen), Mostrar(destino);
    var sg, ds := PartesMostrar(origen);
    Reunir(mo, sep, md, cola);
    ExtraerMostrar([], [], origen, sep + md + cola);
    ExtraerMostrar(mo, sep, destino, cola);
    ParsearDe(mo + sep + md + cola, origen, |mo|, destino, |mo| + |sep| + |md|);
  }

  lemma Reunir(mo: string, sep: string, md: string, cola: string)
    requires |mo| > 0 && |sep| > 0
    ensures [] + [] + mo + (sep + md + cola) == mo + sep + md + cola
    ensures (sep + md + cola)[0] == sep[0] && (mo + sep + md + cola)[0] == mo[0]
  {
  }

  /** The steps of `ParsearLinea`, put together. */
  lemma ParsearDe(linea: string, origen: int, a: nat, destino: int, f: nat)
    requires linea != [] && linea[0] != '#' && a <= |linea|
    requires ExtraerEntero(linea, 0) == Some((origen, a))
    requires ExtraerEntero(linea, a) == Some((destino, f))
    ensures ParsearLinea(linea) == Some((origen, destino))
  {
  }

  // ---------------------------------------------------------------------
  // A sample dataset

  /** The sample file: a comment, then five edges. */
  const Muestra: seq<string> := ["# muestra", "0 1", "0 2", "1 3", "2 3", "3 4"]

  /** A line of two one-digit ids separated by a blank parses to them. */
  lemma LineaEjemplo(a: int, b: int)
    requires 0 <= a < 10 && 0 <= b < 10
    ensures ParsearLinea([Digito(a), ' ', Digito(b)]) == Some((a, b))
  {
    assert Mostrar(a) == [Digito(a)] && Mostrar(b) == [Digito(b)];
    ParsearLineaFormateada(a, " ", b, []);
    assert Mostrar(a) + " " + Mostrar(b) + [] == [Digito(a), ' ', Digito(b)];
  }

  /** What each sample line contributes. */
  lemma LineasEjemplo()
    ensures Aceptada("# muestra") == [] && Aceptada("0 1") == [(0, 1)] && Aceptada("0 2") == [(0, 2)]
    ensures Aceptada("1 3") == [(1, 3)] && Aceptada("2 3") == [(2, 3)] && Aceptada("3 4") == [(3, 4)]
  {
    ComentarioIgnorado(" muestra");
    assert "# muestra" == "#" + " muestra";
    LineaEjemplo(0, 1);
    assert "0 1" == [Digito(0), ' ', Digito(1)];
    LineaEjemplo(0, 2);
    assert "0 2" == [Digito(0), ' ', Digito(2)];
    LineaEjemplo(1, 3);
    assert "1 3" == [Digito(1), ' ', Digito(3)];
    LineaEjemplo(2, 3);
    assert "2 3" == [Digito(2), ' ', Digito(3)];
    LineaEjemplo(3, 4);
    assert "3 4" == [Digito(3), ' ', Digito(4)];
  }

  /** A file of six lines gives the contributions of its lines, in order. */
  lemma AristasSeis(ls: seq<string>)
    requires |ls| == 6
    ensures Aristas(ls) == Aceptada(ls[0]) + Aceptada(ls[1]) + Aceptada(ls[2]) + Aceptada(ls[3]) + Aceptada(ls[4]) + Aceptada(ls[5])
  {
    assert Aristas(ls[..1]) == Aceptada(ls[0]) by {
      assert ls[..1][..0] == [];
    }
    assert Aristas(ls[..2]) == Aceptada(ls[0]) + Aceptada(ls[1]) by {
      assert ls[..2][..1] == ls[..1];
    }
    assert Aristas(ls[..3]) == Aceptada(ls[0]) + Aceptada(ls[1]) + Aceptada(ls[2]) by {
      assert ls[..3][..2] == ls[..2];
    }
    assert Aristas(ls[..4]) == Aceptada(ls[0]) + Aceptada(ls[1]) + Aceptada(ls[2]) + Aceptada(ls[3]) by {
      assert ls[..4][..3] == ls[..3];
    }
    assert Aristas(ls[..5]) == Aceptada(ls[0]) + Aceptada(ls[1]) + Aceptada(ls[2]) + Aceptada(ls[3]) + Aceptada(ls[4]) by {
      assert ls[..5][..4] == ls[..4];
    }
    assert ls[..5] == ls[..|ls| - 1];
  }

  /** Five one-edge contributions after an empty one, laid end to end. */
  lemma CincoSeguidas(x1: (int, int), x2: (int, int), x3: (int, int), x4: (int, int), x5: (int, int))
    ensures [] + [x1] + [x2] + [x3] + [x4] + [x5] == [x1, x2, x3, x4, x5]
  {
  }

  /** Six lines, the first giving no edge and the others one each, give those five edges. */
  lemma AristasCinco(a: string, b: string, c: string, d: string, e: string, f: string,
                     x1: (int, int), x2: (int, int), x3: (int, int), x4: (int, int), x5: (int, int))
    requires Aceptada(a) == [] && Aceptada(b) == [x1] && Aceptada(c) == [x2]
    requires Aceptada(d) == [x3] && Aceptada(e) == [x4] && Aceptada(f) == [x5]
    ensures Aristas([a, b, c, d, e, f]) == [x1, x2, x3, x4, x5]
  {
    var ls := [a, b, c, d, e, f];
    AristasSeis(ls);
    assert ls[0] == a && ls[1] == b && ls[2] == c && ls[3] == d && ls[4] == e && ls[5] == f;
    CincoSeguidas(x1, x2, x3, x4, x5);
  }

  /** The sample file gives its five edges in file order; the comment gives none. */
  lemma AristasEjemplo()
    ensures Aristas(Muestra) == [(0, 1), (0, 2), (1, 3), (2, 3), (3, 4)]
  {
    LineasEjemplo();
    AristasCinco("# muestra", "0 1", "0 2", "1 3", "2 3", "3 4", (0, 1), (0, 2), (1, 3), (2, 3), (3, 4));
  }
}
