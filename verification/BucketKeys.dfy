/** The rendered shape that names a bucket of sessions. */
module BucketKeys {
  import opened Common

  /** The settings that shape a key; zero counts as one. */
  datatype Tuning = Tuning(granularity: Option<nat>, maxDims: Option<nat>) {
    function Granularity(): (g: nat)
      ensures g >= 1
      ensures granularity.None? ==> g == 64
      ensures granularity.Some? && granularity.value >= 1 ==> g == granularity.value
      ensures granularity == Some(0) ==> g == 1
    {
      Max(if granularity.None? then 64 else granularity.value, 1)
    }

    function Dims(): (n: nat)
      ensures n >= 1
      ensures maxDims.None? ==> n == 4
      ensures maxDims.Some? && maxDims.value >= 1 ==> n == maxDims.value
      ensures maxDims == Some(0) ==> n == 1
    {
      Max(if maxDims.None? then 4 else maxDims.value, 1)
    }
  }

  datatype Shape = Shape(dtype: nat, dims: seq<nat>)

  // ----- decimal text ------------------------------------------------------

  function Digit(d: nat): char
    requires d < 10
  {
    ('0' as int + d) as char
  }

  function Decimal(n: nat): (text: string)
    ensures text != []
  {
    if n < 10 then [Digit(n)] else Decimal(n / 10) + [Digit(n % 10)]
  }

  lemma {:induction false} DecimalIsDigits(n: nat)
    ensures forall i | 0 <= i < |Decimal(n)| :: '0' <= Decimal(n)[i] <= '9'
  {
    if n >= 10 {
      DecimalIsDigits(n / 10);
    }
  }

  lemma {:induction false} DecimalInjective(m: nat, n: nat)
    requires Decimal(m) == Decimal(n)
    ensures m == n
    decreases m + n
  {
    if m >= 10 && n >= 10 {
      var a, b := Decimal(m / 10), Decimal(n / 10);
      assert Decimal(m)[..|a|] == a && Decimal(n)[..|b|] == b;
      assert Decimal(m)[|a|] == Digit(m % 10) && Decimal(n)[|b|] == Digit(n % 10);
      DecimalInjective(m / 10, n / 10);
    }
  }

  // ----- the key -----------------------------------------------------------

  function RoundedUp(d: nat, granularity: nat): nat
    requires granularity > 0
  {
    (d + granularity - 1) / granularity * granularity
  }

  /** The first dimension exactly, the others rounded up. */
  function Bucketed(t: Tuning, dims: seq<nat>): seq<nat> {
    seq(Min(|dims|, t.Dims()), i requires 0 <= i < Min(|dims|, t.Dims()) =>
      if i == 0 then dims[0] else RoundedUp(dims[i], t.Granularity()))
  }

  function Texts(values: seq<nat>): seq<string> {
    seq(|values|, i requires 0 <= i < |values| => Decimal(values[i]))
  }

  /** Every part preceded by a colon. */
  function Colons(parts: seq<string>): string {
    if parts == [] then "" else ":" + parts[0] + Colons(parts[1..])
  }

  function Parts(t: Tuning, s: Shape): seq<string> {
    ["r" + Decimal(|s.dims|)] + Texts(Bucketed(t, s.dims)) + (if |s.dims| > t.Dims() then ["*"] else [])
  }

  function KeyText(t: Tuning, s: Shape): string {
    Decimal(s.dtype) + Colons(Parts(t, s))
  }

  method BucketKey(t: Tuning, s: Shape) returns (key: string)
    ensures key == KeyText(t, s)
  {
    hide Decimal;
    key := Decimal(s.dtype) + ":r" + Decimal(|s.dims|);
    ghost var done := ["r" + Decimal(|s.dims|)];
    OneColon(done[0]);
    hide Colons;
    var maxDims, granularity := t.Dims(), t.Granularity();
    var count := Min(|s.dims|, maxDims);
    ghost var texts := Texts(Bucketed(t, s.dims));
    for index := 0 to count
      invariant done == ["r" + Decimal(|s.dims|)] + texts[..index]
      invariant key == Decimal(s.dtype) + Colons(done)
    {
      var rounded := if index == 0 then s.dims[0] else (s.dims[index] + granularity - 1) / granularity * granularity;
      assert texts[index] == Decimal(rounded);
      ColonsSnoc(done, Decimal(rounded));
      key := key + ":";
      key := key + Decimal(rounded);
      done := done + [Decimal(rounded)];
      assert texts[..index + 1] == texts[..index] + [Decimal(rounded)];
    }
    assert texts[..count] == texts;
    if |s.dims| > maxDims {
      ColonsSnoc(done, "*");
      key := key + ":*";
    } else {
      assert done + [] == done;
    }
  }

  lemma OneColon(part: string)
    ensures Colons([part]) == ":" + part
  {
    assert [part][1..] == [] && Colons([part]) == ":" + part + "";
  }

  lemma {:induction false} ColonsSnoc(parts: seq<string>, last: string)
    ensures Colons(parts + [last]) == Colons(parts) + (":" + last)
  {
    if parts == [] {
      assert [] + [last] == [last] && [last][1..] == [];
    } else {
      assert (parts + [last])[1..] == parts[1..] + [last];
      ColonsSnoc(parts[1..], last);
    }
  }

  // ----- what a key identifies ---------------------------------------------

  ghost predicate ColonFree(s: string) {
    forall i | 0 <= i < |s| :: s[i] != ':'
  }

  ghost predicate AllColonFree(parts: seq<string>) {
    forall i | 0 <= i < |parts| :: ColonFree(parts[i])
  }

  lemma FirstColon(a: string, b: string, x: string, y: string)
    requires ColonFree(a) && ColonFree(b) && a + x == b + y
    requires x == "" || x[0] == ':'
    requires y == "" || y[0] == ':'
    ensures a == b && x == y
  {
    var s := a + x;
    ColonPosition(a, x);
    ColonPosition(b, y);
    assert s == b + y;
    assert |a| == |b|;
    assert s[..|a|] == a && s[..|a|] == b && s[|a|..] == x && s[|a|..] == y;
  }

  ghost predicate ColonFirstAt(s: string, at: nat) {
    && at <= |s|
    && (forall i | 0 <= i < at :: s[i] != ':')
    && (at < |s| ==> s[at] == ':')
  }

  lemma ColonPosition(a: string, x: string)
    requires ColonFree(a) && (x == "" || x[0] == ':')
    ensures ColonFirstAt(a + x, |a|)
  {
  }

  /** Colon-separated parts are determined by the text. */
  lemma {:induction false} ColonsInjective(front: string, parts: seq<string>, front': string, parts': seq<string>)
    requires ColonFree(front) && ColonFree(front') && AllColonFree(parts) && AllColonFree(parts')
    requires front + Colons(parts) == front' + Colons(parts')
    ensures front == front' && parts == parts'
    decreases |parts|
  {
    FirstColon(front, front', Colons(parts), Colons(parts'));
    if parts != [] && parts' != [] {
      var rest, rest' := parts[0] + Colons(parts[1..]), parts'[0] + Colons(parts'[1..]);
      assert Colons(parts)[1..] == rest && Colons(parts')[1..] == rest';
      ColonsInjective(parts[0], parts[1..], parts'[0], parts'[1..]);
      assert parts == [parts[0]] + parts[1..] && parts' == [parts'[0]] + parts'[1..];
    }
  }

  lemma PartsColonFree(t: Tuning, s: Shape)
    ensures AllColonFree(Parts(t, s)) && ColonFree(Decimal(s.dtype))
  {
    DecimalIsDigits(s.dtype);
    DecimalIsDigits(|s.dims|);
    var texts := Texts(Bucketed(t, s.dims));
    forall i | 0 <= i < |texts| ensures ColonFree(texts[i]) {
      DecimalIsDigits(Bucketed(t, s.dims)[i]);
    }
  }

  lemma TextsInjective(a: seq<nat>, b: seq<nat>)
    requires Texts(a) == Texts(b)
    ensures a == b
  {
    assert |a| == |Texts(a)| == |b|;
    forall i | 0 <= i < |a| ensures a[i] == b[i] {
      assert Texts(a)[i] == Texts(b)[i];
      DecimalInjective(a[i], b[i]);
    }
  }

  /** Two requests share a bucket exactly when they agree on element type, rank,
      first dimension, and the rounded dimensions that count. */
  lemma SameKeyIff(t: Tuning, a: Shape, b: Shape)
    ensures KeyText(t, a) == KeyText(t, b) <==>
            a.dtype == b.dtype && |a.dims| == |b.dims| && Bucketed(t, a.dims) == Bucketed(t, b.dims)
  {
    if KeyText(t, a) == KeyText(t, b) {
      PartsColonFree(t, a);
      PartsColonFree(t, b);
      ColonsInjective(Decimal(a.dtype), Parts(t, a), Decimal(b.dtype), Parts(t, b));
      DecimalInjective(a.dtype, b.dtype);
      assert Parts(t, a)[0] == Parts(t, b)[0];
      assert Parts(t, a)[0][1..] == Decimal(|a.dims|) && Parts(t, b)[0][1..] == Decimal(|b.dims|);
      DecimalInjective(|a.dims|, |b.dims|);
      var n := Min(|a.dims|, t.Dims());
      assert Parts(t, a)[1..n + 1] == Texts(Bucketed(t, a.dims));
      assert Parts(t, b)[1..n + 1] == Texts(Bucketed(t, b.dims));
      TextsInjective(Bucketed(t, a.dims), Bucketed(t, b.dims));
    }
  }

  /** Rounding is to the least multiple of the granularity at or above. */
  lemma RoundedUpIsLeast(d: nat, granularity: nat)
    requires granularity > 0
    ensures d <= RoundedUp(d, granularity) < d + granularity
    ensures RoundedUp(d, granularity) % granularity == 0
  {
    var q := (d + granularity - 1) / granularity;
    DivModUnique(q * granularity, granularity, q, 0);
  }

  /** No multiple of the granularity separates the two dimensions. */
  ghost predicate SameBand(a: nat, b: nat, granularity: nat)
    requires granularity > 0
  {
    forall m: nat | m % granularity == 0 :: a <= m <==> b <= m
  }

  lemma RoundedAlikeIff(a: nat, b: nat, granularity: nat)
    requires granularity > 0
    ensures RoundedUp(a, granularity) == RoundedUp(b, granularity) <==> SameBand(a, b, granularity)
  {
    RoundedUpIsLeast(a, granularity);
    RoundedUpIsLeast(b, granularity);
    if RoundedUp(a, granularity) == RoundedUp(b, granularity) {
      forall m: nat | m % granularity == 0 ensures a <= m <==> b <= m {
        AboveLeast(a, granularity, m);
        AboveLeast(b, granularity, m);
      }
    } else if SameBand(a, b, granularity) {
      AboveLeast(a, granularity, RoundedUp(b, granularity));
      AboveLeast(b, granularity, RoundedUp(a, granularity));
      assert false;
    }
  }

  lemma AboveLeast(d: nat, granularity: nat, m: nat)
    requires granularity > 0 && m % granularity == 0
    ensures d <= m <==> RoundedUp(d, granularity) <= m
  {
    RoundedUpIsLeast(d, granularity);
    var q, k := (d + granularity - 1) / granularity, m / granularity;
    assert m == k * granularity;
    if d <= m && k < q {
      MulMonotone(k + 1, q, granularity);
      Distribute(k, 1, granularity);
    }
    if q <= k {
      MulMonotone(q, k, granularity);
    }
  }

  /** Two shapes have one key exactly when they agree on element type, rank and
      first dimension, and no multiple of the granularity separates two of their
      later dimensions that count. */
  lemma SharedKeyIff(t: Tuning, a: Shape, b: Shape)
    ensures KeyText(t, a) == KeyText(t, b) <==>
            && a.dtype == b.dtype && |a.dims| == |b.dims|
            && (a.dims != [] ==> a.dims[0] == b.dims[0])
            && forall i | 1 <= i < |a.dims| && i < t.Dims() :: SameBand(a.dims[i], b.dims[i], t.Granularity())
  {
    SameKeyIff(t, a, b);
    if |a.dims| == |b.dims| {
      forall i | 1 <= i < |a.dims| && i < t.Dims()
        ensures Bucketed(t, a.dims)[i] == Bucketed(t, b.dims)[i] <==> SameBand(a.dims[i], b.dims[i], t.Granularity())
      {
        RoundedAlikeIff(a.dims[i], b.dims[i], t.Granularity());
      }
      if a.dims != [] {
        assert Bucketed(t, a.dims)[0] == a.dims[0] && Bucketed(t, b.dims)[0] == b.dims[0];
      }
    }
  }

  /** The number a decimal text stands for. */
  function ValueOf(text: string): nat
    requires forall i | 0 <= i < |text| :: '0' <= text[i] <= '9'
  {
    if text == [] then 0
    else ValueOf(text[..|text| - 1]) * 10 + (text[|text| - 1] as int - '0' as int)
  }

  lemma {:induction false} DecimalValue(n: nat)
    ensures (forall i | 0 <= i < |Decimal(n)| :: '0' <= Decimal(n)[i] <= '9') && ValueOf(Decimal(n)) == n
    ensures n > 0 ==> Decimal(n)[0] != '0'
  {
    DecimalIsDigits(n);
    var text := Decimal(n);
    if n >= 10 {
      DecimalValue(n / 10);
      assert text[..|text| - 1] == Decimal(n / 10);
    } else {
      assert text[..0] == "";
    }
  }
}
