/** The y-axis domain and tick computation of the hydrograph
    (components/hydrograph/domain.js). */
module Domain {
  import opened RealMath
  import opened Points

  const PaddingRatio: real := 0.2

  /** Parameter codes drawn on a symlog scale. */
  const SymlogParms: seq<string> := ["00060", "72137"]

  /** `Array.prototype.indexOf`: the first index holding x, or -1. */
  function IndexOf(list: seq<string>, x: string): (r: int)
    ensures -1 <= r < |list|
    ensures r >= 0 ==> list[r] == x && forall i :: 0 <= i < r ==> list[i] != x
    ensures r == -1 <==> x !in list
  {
    if |list| == 0 then -1
    else if list[0] == x then 0
    else
      var i := IndexOf(list[1..], x);
      assert forall j :: 0 <= j < |list| - 1 ==> list[1..][j] == list[j + 1];
      assert x in list <==> x in list[1..];
      if i == -1 then -1 else i + 1
  }

  /** `SYMLOG_PARMS.indexOf(parmCd) > -1` */
  function IsSymlog(parmCd: string): (r: bool)
    ensures r <==> parmCd in SymlogParms
  {
    IndexOf(SymlogParms, parmCd) > -1
  }

  /** A two-element `[lo, hi]` array. */
  datatype Interval = Interval(lo: real, hi: real)

  /** `Math.pow(10, Math.floor(Math.log10(x)))` for x >= 0; at x = 0 the
      logarithm is -Infinity and the power is 0. */
  function PowerOfTenAtOrBelow(x: real): (p: real)
    requires x >= 0.0
    ensures x == 0.0 ==> p == 0.0
    ensures x > 0.0 ==> 0.0 < p <= x < 10.0 * p && p == Pow10(FloorLog10(x))
  {
    if x == 0.0 then 0.0
    else
      var k := FloorLog10(x);
      Pow10Succ(k);
      Pow10(k)
  }

  // ---------------------------------------------------------------------
  // extendDomain
  // ---------------------------------------------------------------------

  /** Pads `[lo, hi]` by PaddingRatio at both ends; with `lowerBoundPow10` the
      lower end becomes the power of ten at or below lo (domains with a
      negative end keep lo itself); a non-negative domain never gets a
      negative lower end. */
  function ExtendDomain(domain: Interval, lowerBoundPow10: bool): (r: Interval)
    ensures r.hi == domain.hi + PaddingRatio * (domain.hi - domain.lo)
    ensures domain.lo <= domain.hi ==> r.lo <= domain.lo && domain.hi <= r.hi
    ensures domain.lo >= 0.0 && domain.hi >= 0.0 ==> r.lo >= 0.0
    ensures lowerBoundPow10 && domain.lo >= 0.0 && domain.hi >= 0.0 ==>
              r.lo == PowerOfTenAtOrBelow(domain.lo)
    ensures lowerBoundPow10 && (domain.lo < 0.0 || domain.hi < 0.0) ==> r.lo == domain.lo
    ensures !lowerBoundPow10 && domain.lo >= 0.0 && domain.hi >= 0.0 ==>
              r.lo == Max(0.0, domain.lo - PaddingRatio * (domain.hi - domain.lo))
    ensures !lowerBoundPow10 && (domain.lo < 0.0 || domain.hi < 0.0) ==>
              r.lo == domain.lo - PaddingRatio * (domain.hi - domain.lo)
  {
    var isPositive := domain.lo >= 0.0 && domain.hi >= 0.0;
    var padding := PaddingRatio * (domain.hi - domain.lo);
    var lo := if !lowerBoundPow10 then domain.lo - padding
              else if isPositive then PowerOfTenAtOrBelow(domain.lo)
              else domain.lo;
    Interval(if isPositive then Max(0.0, lo) else lo, domain.hi + padding)
  }

  /** Under the power-of-ten flag, the lower end of a positive domain is the
      greatest power of ten at or below lo. */
  lemma ExtendDomainLowerBoundIsGreatestPowerOfTen(domain: Interval, j: int)
    requires domain.lo > 0.0 && domain.hi >= 0.0
    requires Pow10(j) <= domain.lo
    ensures Pow10(j) <= ExtendDomain(domain, true).lo <= domain.lo
    ensures exists k :: ExtendDomain(domain, true).lo == Pow10(k)
  {
    FloorLog10IsGreatest(domain.lo, j);
    assert ExtendDomain(domain, true).lo == Pow10(FloorLog10(domain.lo));
  }

  // ---------------------------------------------------------------------
  // getYDomain
  // ---------------------------------------------------------------------

  /** `[lo, hi]` as pushed into `scaleDomains`; either end may be NaN. */
  datatype Extent = Extent(lo: Num, hi: Num)

  /** The finite values of a series, in order. */
  function FiniteValues(points: seq<Point>): (r: seq<real>)
    ensures forall v :: v in r <==> exists i :: 0 <= i < |points| && points[i].value == Finite(v)
    ensures |r| <= |points|
  {
    if |points| == 0 then []
    else
      var rest := FiniteValues(points[1..]);
      assert forall i :: 0 < i < |points| ==> points[i] == points[1..][i - 1];
      if points[0].value.Finite? then [points[0].value.v] + rest else rest
  }

  /** The extent of one non-empty series: d3's `extent` of its finite values,
      widened to `[v - v/2, v + v/2]` when both ends are equal. With no finite
      value, `extent` gives `[undefined, undefined]`, which are equal and
      widen to `[NaN, NaN]`. */
  function SeriesExtent(points: seq<Point>): (r: Extent)
    ensures |FiniteValues(points)| == 0 <==> r == Extent(NonFinite, NonFinite)
    ensures |FiniteValues(points)| > 0 ==> r.lo.Finite? && r.hi.Finite?
    ensures forall v :: v in FiniteValues(points) ==> Covers(r, v)
    ensures var fv := FiniteValues(points);
            |fv| > 0 && (forall v :: v in fv ==> v == fv[0]) ==>
              r == Extent(Finite(fv[0] - fv[0] / 2.0), Finite(fv[0] + fv[0] / 2.0))
    ensures var fv := FiniteValues(points);
            |fv| > 0 && SeqMin(fv) != SeqMax(fv) ==> r == Extent(Finite(SeqMin(fv)), Finite(SeqMax(fv)))
  {
    var fv := FiniteValues(points);
    if |fv| == 0 then Extent(NonFinite, NonFinite)
    else
      var lo, hi := SeqMin(fv), SeqMax(fv);
      if lo == hi then Extent(Finite(lo - lo / 2.0), Finite(lo + lo / 2.0))
      else Extent(Finite(lo), Finite(hi))
  }

  /** v lies between the two (finite) ends of e, in either order. */
  predicate Covers(e: Extent, v: real) {
    e.lo.Finite? && e.hi.Finite? &&
    ((e.lo.v <= v <= e.hi.v) || (e.hi.v <= v <= e.lo.v))
  }

  /** How many of the series hold at least one point. */
  function NonEmptyCount(pointArrays: seq<seq<Point>>): nat
  {
    if |pointArrays| == 0 then 0
    else NonEmptyCount(pointArrays[..|pointArrays| - 1]) + (if |pointArrays[|pointArrays| - 1]| == 0 then 0 else 1)
  }

  /** The `scaleDomains` list: one extent per non-empty series. */
  function ScaleDomains(pointArrays: seq<seq<Point>>): (r: seq<Extent>)
    ensures |r| == NonEmptyCount(pointArrays) <= |pointArrays|
  {
    if |pointArrays| == 0 then []
    else
      var last := pointArrays[|pointArrays| - 1];
      ScaleDomains(pointArrays[..|pointArrays| - 1]) +
        (if |last| == 0 then [] else [SeriesExtent(last)])
  }

  /** The finite ends of one extent, lower end first. */
  function FiniteEnds(e: Extent): seq<real> {
    (if e.lo.Finite? then [e.lo.v] else []) + (if e.hi.Finite? then [e.hi.v] else [])
  }

  /** `[].concat(...scaleDomains).filter(isFinite)` */
  function FlatFinite(extents: seq<Extent>): (r: seq<real>)
    ensures |r| <= 2 * |extents|
  {
    if |extents| == 0 then []
    else FlatFinite(extents[..|extents| - 1]) + FiniteEnds(extents[|extents| - 1])
  }

  /** The finite values of the series at hand (NaN and infinities dropped). */
  predicate SeriesHasFiniteValue(points: seq<Point>) {
    |FiniteValues(points)| > 0
  }

  /** Some series holds a finite value. */
  predicate HasFiniteValue(pointArrays: seq<seq<Point>>) {
    exists k :: 0 <= k < |pointArrays| && SeriesHasFiniteValue(pointArrays[k])
  }

  /** The whole getYDomain computation over values. */
  function YDomain(pointArrays: seq<seq<Point>>, parmCd: string): (r: Interval)
    ensures r.lo <= r.hi
  {
    var flat := FlatFinite(ScaleDomains(pointArrays));
    if |flat| > 0 then ExtendDomain(Interval(SeqMin(flat), SeqMax(flat)), IsSymlog(parmCd))
    else Interval(0.0, 1.0)
  }

  /** One step of the loop: scaleDomains and its flattening grow by the
      extent of the last series, if that series is non-empty. */
  lemma ScaleDomainsStep(pointArrays: seq<seq<Point>>)
    requires |pointArrays| > 0
    ensures var n := |pointArrays| - 1;
            var last := pointArrays[n];
            FlatFinite(ScaleDomains(pointArrays)) ==
              FlatFinite(ScaleDomains(pointArrays[..n])) +
              (if |last| == 0 then [] else FiniteEnds(SeriesExtent(last)))
  {
    var n := |pointArrays| - 1;
    var last := pointArrays[n];
    var init := ScaleDomains(pointArrays[..n]);
    if |last| > 0 {
      assert (init + [SeriesExtent(last)])[..|init|] == init;
    } else {
      assert init + [] == init;
    }
  }

  /** A series contributes finite endpoints exactly when it has a finite value. */
  lemma SeriesEndsNonEmptyIffFinite(points: seq<Point>)
    ensures var ends := if |points| == 0 then [] else FiniteEnds(SeriesExtent(points));
            |ends| == 0 <==> !SeriesHasFiniteValue(points)
  {
    if |points| > 0 && SeriesHasFiniteValue(points) {
      var e := SeriesExtent(points);
      assert e.lo.Finite?;
    }
  }

  lemma {:induction false} FlatFiniteEmptyIffNoFiniteValue(pointArrays: seq<seq<Point>>)
    ensures |FlatFinite(ScaleDomains(pointArrays))| == 0 <==> !HasFiniteValue(pointArrays)
  {
    if |pointArrays| > 0 {
      var n := |pointArrays| - 1;
      var init, last := pointArrays[..n], pointArrays[n];
      FlatFiniteEmptyIffNoFiniteValue(init);
      ScaleDomainsStep(pointArrays);
      SeriesEndsNonEmptyIffFinite(last);
      var f0 := FlatFinite(ScaleDomains(init));
      var ends := if |last| == 0 then [] else FiniteEnds(SeriesExtent(last));
      assert FlatFinite(ScaleDomains(pointArrays)) == f0 + ends;
      assert |f0| == 0 <==> !HasFiniteValue(init);
      assert |ends| == 0 <==> !SeriesHasFiniteValue(last);
      HasFiniteValueStep(pointArrays);
    }
  }

  lemma HasFiniteValueStep(pointArrays: seq<seq<Point>>)
    requires |pointArrays| > 0
    ensures var n := |pointArrays| - 1;
            HasFiniteValue(pointArrays) <==>
              HasFiniteValue(pointArrays[..n]) || SeriesHasFiniteValue(pointArrays[n])
  {
    var n := |pointArrays| - 1;
    var init := pointArrays[..n];
    if HasFiniteValue(init) {
      var k :| 0 <= k < |init| && SeriesHasFiniteValue(init[k]);
      assert pointArrays[k] == init[k];
    }
    if HasFiniteValue(pointArrays) {
      var k :| 0 <= k < |pointArrays| && SeriesHasFiniteValue(pointArrays[k]);
      if k < n {
        assert pointArrays[k] == init[k];
      }
    }
  }

  lemma BetweenMembersIsWithinMinMax(flat: seq<real>, a: real, b: real, v: real)
    requires a in flat && b in flat && a <= v <= b
    ensures |flat| > 0 && SeqMin(flat) <= v <= SeqMax(flat)
  {
  }

  /** Every finite value of every series lies between two endpoints that
      scaleDomains contributes. */
  lemma {:induction false} FiniteValueIsBracketed(pointArrays: seq<seq<Point>>, k: int, v: real)
    returns (a: real, b: real)
    requires 0 <= k < |pointArrays| && v in FiniteValues(pointArrays[k])
    ensures a in FlatFinite(ScaleDomains(pointArrays)) && b in FlatFinite(ScaleDomains(pointArrays))
    ensures a <= v <= b
    decreases |pointArrays|, 1
  {
    var n := |pointArrays| - 1;
    if k < n {
      a, b := EarlierValueIsBracketed(pointArrays, k, v);
    } else {
      a, b := LastValueIsBracketed(pointArrays, v);
    }
  }

  lemma LastValueIsBracketed(pointArrays: seq<seq<Point>>, v: real) returns (a: real, b: real)
    requires |pointArrays| > 0 && v in FiniteValues(pointArrays[|pointArrays| - 1])
    ensures a in FlatFinite(ScaleDomains(pointArrays)) && b in FlatFinite(ScaleDomains(pointArrays))
    ensures a <= v <= b
  {
    var n := |pointArrays| - 1;
    var flat0 := FlatFinite(ScaleDomains(pointArrays[..n]));
    a, b := SeriesValueIsBracketed(pointArrays[n], v);
    var ends := FiniteEnds(SeriesExtent(pointArrays[n]));
    ScaleDomainsStep(pointArrays);
    assert FlatFinite(ScaleDomains(pointArrays)) == flat0 + ends;
    InAppendRight(flat0, ends, a);
    InAppendRight(flat0, ends, b);
  }

  lemma {:induction false} EarlierValueIsBracketed(pointArrays: seq<seq<Point>>, k: int, v: real)
    returns (a: real, b: real)
    requires 0 <= k < |pointArrays| - 1 && v in FiniteValues(pointArrays[k])
    ensures a in FlatFinite(ScaleDomains(pointArrays)) && b in FlatFinite(ScaleDomains(pointArrays))
    ensures a <= v <= b
    decreases |pointArrays|, 0
  {
    var n := |pointArrays| - 1;
    var init := pointArrays[..n];
    assert init[k] == pointArrays[k];
    a, b := FiniteValueIsBracketed(init, k, v);
    ScaleDomainsStep(pointArrays);
    var last := pointArrays[n];
    var ends := if |last| == 0 then [] else FiniteEnds(SeriesExtent(last));
    InAppendLeft(FlatFinite(ScaleDomains(init)), ends, a);
    InAppendLeft(FlatFinite(ScaleDomains(init)), ends, b);
  }

  lemma InAppendLeft(s: seq<real>, t: seq<real>, x: real)
    requires x in s
    ensures x in s + t
  {
  }

  lemma InAppendRight(s: seq<real>, t: seq<real>, x: real)
    requires x in t
    ensures x in s + t
  {
  }

  lemma SeriesValueIsBracketed(points: seq<Point>, v: real) returns (a: real, b: real)
    requires v in FiniteValues(points)
    ensures |points| > 0
    ensures a in FiniteEnds(SeriesExtent(points)) && b in FiniteEnds(SeriesExtent(points))
    ensures a <= v <= b
  {
    var e := SeriesExtent(points);
    assert Covers(e, v);
    if e.lo.v <= v <= e.hi.v {
      a, b := e.lo.v, e.hi.v;
    } else {
      a, b := e.hi.v, e.lo.v;
    }
  }

  /** Every finite value of every series lies within the computed domain. */
  lemma YDomainContainsEveryFiniteValue(pointArrays: seq<seq<Point>>, parmCd: string, k: int, v: real)
    requires 0 <= k < |pointArrays| && v in FiniteValues(pointArrays[k])
    ensures YDomain(pointArrays, parmCd).lo <= v <= YDomain(pointArrays, parmCd).hi
  {
    var a, b := FiniteValueIsBracketed(pointArrays, k, v);
    BetweenMembersIsWithinMinMax(FlatFinite(ScaleDomains(pointArrays)), a, b, v);
  }

  /** Without any finite value (no series, only empty series, only NaN or
      infinite values) the domain is `[0, 1]`. */
  lemma YDomainDefault(pointArrays: seq<seq<Point>>, parmCd: string)
    requires !HasFiniteValue(pointArrays)
    ensures YDomain(pointArrays, parmCd) == Interval(0.0, 1.0)
  {
    FlatFiniteEmptyIffNoFiniteValue(pointArrays);
  }

  /** With some finite value, the domain is the padded global extent, with
      the power-of-ten lower bound exactly for symlog parameters. */
  lemma YDomainExtendsGlobalExtent(pointArrays: seq<seq<Point>>, parmCd: string)
    requires HasFiniteValue(pointArrays)
    ensures var flat := FlatFinite(ScaleDomains(pointArrays));
            |flat| > 0 &&
            YDomain(pointArrays, parmCd) ==
              ExtendDomain(Interval(SeqMin(flat), SeqMax(flat)), parmCd in SymlogParms)
  {
    FlatFiniteEmptyIffNoFiniteValue(pointArrays);
  }

  /** getYDomain: collects one extent per non-empty series, then pads the
      global extent of their finite endpoints, or falls back to `[0, 1]`. */
  method GetYDomain(pointArrays: seq<seq<Point>>, parmCd: string) returns (yExtent: Interval)
    ensures yExtent == YDomain(pointArrays, parmCd)
    ensures !HasFiniteValue(pointArrays) ==> yExtent == Interval(0.0, 1.0)
    ensures forall k, v :: 0 <= k < |pointArrays| && v in FiniteValues(pointArrays[k]) ==>
              yExtent.lo <= v <= yExtent.hi
  {
    var scaleDomains: seq<Extent> := [];
    for j := 0 to |pointArrays|
      invariant scaleDomains == ScaleDomains(pointArrays[..j])
    {
      assert pointArrays[..j + 1][..j] == pointArrays[..j];
      var points := pointArrays[j];
      if |points| == 0 {
        continue;
      }
      scaleDomains := scaleDomains + [SeriesExtent(points)];
    }
    assert pointArrays[..|pointArrays|] == pointArrays;
    var flatDomains := FlatFinite(scaleDomains);
    if |flatDomains| > 0 {
      yExtent := ExtendDomain(Interval(SeqMin(flatDomains), SeqMax(flatDomains)), IsSymlog(parmCd));
    } else {
      yExtent := Interval(0.0, 1.0);
    }
    if !HasFiniteValue(pointArrays) {
      YDomainDefault(pointArrays, parmCd);
    }
    forall k, v | 0 <= k < |pointArrays| && v in FiniteValues(pointArrays[k])
      ensures yExtent.lo <= v <= yExtent.hi
    {
      YDomainContainsEveryFiniteValue(pointArrays, parmCd, k, v);
    }
  }

  // ---------------------------------------------------------------------
  // Symlog tick filling
  // ---------------------------------------------------------------------

  /** `tickValues.some(value => value < 0)`: it holds exactly when the
      filter for negatives is non-empty. */
  function HasNegative(ticks: seq<real>): (r: bool)
    ensures r <==> |Negatives(ticks)| > 0
  {
    var negatives := Negatives(ticks);
    assert |negatives| > 0 ==> negatives[0] in negatives;
    assert forall i :: 0 <= i < |ticks| && ticks[i] < 0.0 ==> ticks[i] in negatives;
    exists i :: 0 <= i < |ticks| && ticks[i] < 0.0
  }

  /** `tickValues.filter(value => value < 0)` */
  function Negatives(ticks: seq<real>): (r: seq<real>)
    ensures forall x :: x in r <==> x in ticks && x < 0.0
  {
    if |ticks| == 0 then []
    else (if ticks[0] < 0.0 then [ticks[0]] else []) + Negatives(ticks[1..])
  }

  /** getLowestAbsoluteValueOfTickValues: the absolute value of the largest
      negative tick, or the least tick when none is negative. An empty list
      would give `Math.min()` = Infinity, on which the halving loop never
      stops, so the list must be non-empty. */
  function LowestAbsoluteValueOfTickValues(ticks: seq<real>): (r: real)
    requires |ticks| > 0
    ensures HasNegative(ticks) ==>
              r > 0.0 && -r in ticks &&
              forall i :: 0 <= i < |ticks| && ticks[i] < 0.0 ==> ticks[i] <= -r
    ensures !HasNegative(ticks) ==>
              r >= 0.0 && r in ticks && forall i :: 0 <= i < |ticks| ==> r <= ticks[i]
  {
    if HasNegative(ticks) then
      NegativeTicksAreCollected(ticks);
      -SeqMax(Negatives(ticks))
    else
      SeqMin(ticks)
  }

  lemma NegativeTicksAreCollected(ticks: seq<real>)
    ensures forall j :: 0 <= j < |ticks| && ticks[j] < 0.0 ==> ticks[j] in Negatives(ticks)
    ensures HasNegative(ticks) ==> |Negatives(ticks)| > 0
  {
    forall j | 0 <= j < |ticks| && ticks[j] < 0.0
      ensures ticks[j] in Negatives(ticks)
    {
      assert ticks[j] in ticks;
    }
  }

  /** The values generateAdditionalTickValues pushes: repeated ceiling
      halving while the current value exceeds 2. */
  function Halvings(x: real): (h: seq<real>)
    ensures |h| == 0 <==> x <= 2.0
    ensures forall i :: 0 <= i < |h| ==> h[i] >= 2.0
    decreases Ceil(x)
  {
    if x <= 2.0 then []
    else
      var c := Ceil(x / 2.0);
      CeilHalfDecreases(x);
      [c as real] + Halvings(c as real)
  }

  /** The pushed values are whole numbers, strictly decreasing, starting at
      the ceiling of half the input and ending at exactly 2. */
  lemma {:induction false} HalvingsDecreaseToTwo(x: real)
    ensures var h := Halvings(x);
            (|h| > 0 ==> h[0] == Ceil(x / 2.0) as real && h[|h| - 1] == 2.0) &&
            (forall i :: 0 <= i < |h| ==> IsInteger(h[i])) &&
            (forall i, j :: 0 <= i < j < |h| ==> h[j] < h[i])
    decreases Ceil(x)
  {
    if x > 2.0 {
      var c := Ceil(x / 2.0);
      CeilHalfDecreases(x);
      var rest := Halvings(c as real);
      assert Halvings(x) == [c as real] + rest;
      HalvingsDecreaseToTwo(c as real);
      if |rest| > 0 {
        assert rest[0] < c as real;
      } else {
        assert c == 2;
      }
    }
  }

  /** Each pushed value is the ceiling of half the one before it. */
  lemma {:induction false} HalvingsStep(x: real, i: int)
    requires 0 < i < |Halvings(x)|
    ensures Halvings(x)[i] == Ceil(Halvings(x)[i - 1] / 2.0) as real
    decreases Ceil(x)
  {
    var c := Ceil(x / 2.0);
    CeilHalfDecreases(x);
    assert Halvings(x) == [c as real] + Halvings(c as real);
    if i > 1 {
      HalvingsStep(c as real, i - 1);
    }
  }

  lemma CeilHalfDecreases(x: real)
    requires x > 2.0
    ensures 2 <= Ceil(x / 2.0) < Ceil(x)
    ensures Ceil(Ceil(x / 2.0) as real) == Ceil(x / 2.0)
  {
    CeilOfInteger(Ceil(x / 2.0));
  }

  lemma AppendShift(a: seq<real>, x: real, b: seq<real>)
    ensures (a + [x]) + b == a + ([x] + b)
  {
  }

  /** generateAdditionalTickValues */
  method GenerateAdditionalTickValues(lowestTickValueOfLogScale: real) returns (additionalTickValues: seq<real>)
    ensures additionalTickValues == Halvings(lowestTickValueOfLogScale)
  {
    var v := lowestTickValueOfLogScale;
    additionalTickValues := [];
    while v > 2.0
      invariant additionalTickValues + Halvings(v) == Halvings(lowestTickValueOfLogScale)
      decreases Ceil(v)
    {
      var c := Ceil(v / 2.0);
      CeilHalfDecreases(v);
      ghost var rest := Halvings(c as real);
      assert Halvings(v) == [c as real] + rest;
      AppendShift(additionalTickValues, c as real, rest);
      v := c as real;
      additionalTickValues := additionalTickValues + [v];
    }
  }

  /** `Math.ceil(value / step) * step` */
  function CeilToMultiple(value: real, step: real): (r: real)
    requires step > 0.0
    ensures value <= r < value + step
    ensures IsInteger(r / step)
  {
    var c := Ceil(value / step);
    CeilTimesStepBounds(value, step, c);
    c as real * step
  }

  lemma CeilTimesStepBounds(value: real, step: real, c: int)
    requires step > 0.0 && c == Ceil(value / step)
    ensures value <= c as real * step < value + step
    ensures (c as real * step) / step == c as real
  {
    var q := value / step;
    var a := c as real - q;
    FractionTimesStep(a, step);
    assert q * step == value;
    assert c as real * step == value + a * step;
  }

  lemma FractionTimesStep(a: real, step: real)
    requires 0.0 <= a < 1.0 && step > 0.0
    ensures 0.0 <= a * step < step
  {
  }

  /** The rounding the comments of getRoundedTickValues describe: to a
      multiple of 1000 above 1000, of 100 above 100, of 5 otherwise. */
  function RoundTick(value: real): (r: real)
    ensures r >= value
    ensures value > 1000.0 ==> IsInteger(r / 1000.0)
    ensures 100.0 < value <= 1000.0 ==> IsInteger(r / 100.0)
    ensures value <= 100.0 ==> IsInteger(r / 5.0)
    ensures value > 1000.0 ==> r < value + 1000.0
    ensures 100.0 < value <= 1000.0 ==> r < value + 100.0
    ensures value <= 100.0 ==> r < value + 5.0
  {
    if value > 1000.0 then CeilToMultiple(value, 1000.0)
    else if value > 100.0 then CeilToMultiple(value, 100.0)
    else CeilToMultiple(value, 5.0)
  }

  /** What the forEach body of getRoundedTickValues pushes for one value as
      written: the `if` on line 143 lacks an `else`, so a value above 1000 is
      pushed once rounded to 1000 and once more rounded to 100. */
  function PushesFor(value: real): (r: seq<real>)
    ensures |r| == if value > 1000.0 then 2 else 1
    ensures r[0] == RoundTick(value)
    ensures forall i :: 0 <= i < |r| ==> r[i] >= value
  {
    if value > 1000.0 then
      var v := CeilToMultiple(value, 1000.0);
      [v, CeilToMultiple(v, 100.0)]
    else if value > 100.0 then [CeilToMultiple(value, 100.0)]
    else [CeilToMultiple(value, 5.0)]
  }

  /** The whole `roundedTickValues` list before the duplicates are dropped. */
  function Pushes(values: seq<real>): (r: seq<real>)
    ensures |values| <= |r| <= 2 * |values|
    ensures forall i :: 0 <= i < |values| ==> RoundTick(values[i]) in r
  {
    if |values| == 0 then []
    else Pushes(values[..|values| - 1]) + PushesFor(values[|values| - 1])
  }

  /** A multiple of 1000 rounded up to a multiple of 100 is itself. */
  lemma PushesForIsRepeatedRounding(value: real)
    ensures value > 1000.0 ==> PushesFor(value) == [RoundTick(value), RoundTick(value)]
    ensures value <= 1000.0 ==> PushesFor(value) == [RoundTick(value)]
  {
    if value > 1000.0 {
      var v := CeilToMultiple(value, 1000.0);
      var m := (v / 1000.0).Floor;
      assert v == (10 * m) as real * 100.0;
      CeilOfInteger(10 * m);
    }
  }

  predicate NoDuplicates(s: seq<real>) {
    forall i, j :: 0 <= i < j < |s| ==> s[i] != s[j]
  }

  /** `Array.from(new Set(...))` continuing from the already collected
      `seen`: keeps each value at its first occurrence. */
  function DedupFrom(seen: seq<real>, s: seq<real>): (r: seq<real>)
    ensures forall x :: x in r <==> x in seen || x in s
    ensures NoDuplicates(seen) ==> NoDuplicates(r)
    ensures |seen| <= |r| && r[..|seen|] == seen
    decreases |s|
  {
    if |s| == 0 then seen
    else if s[0] in seen then DedupFrom(seen, s[1..])
    else DedupFrom(seen + [s[0]], s[1..])
  }

  function Dedup(s: seq<real>): (r: seq<real>)
    ensures forall x :: x in r <==> x in s
    ensures NoDuplicates(r)
  {
    DedupFrom([], s)
  }

  lemma {:induction false} DedupFromAppend(seen: seq<real>, a: seq<real>, b: seq<real>)
    ensures DedupFrom(seen, a + b) == DedupFrom(DedupFrom(seen, a), b)
    decreases |a|
  {
    if |a| == 0 {
      assert a + b == b;
    } else {
      assert (a + b)[1..] == a[1..] + b;
      if a[0] in seen {
        DedupFromAppend(seen, a[1..], b);
      } else {
        DedupFromAppend(seen + [a[0]], a[1..], b);
      }
    }
  }

  /** Dedup keeps first occurrences: a value appended later is kept only if
      it was not already present. */
  lemma DedupAppendOne(s: seq<real>, x: real)
    ensures Dedup(s + [x]) == if x in s then Dedup(s) else Dedup(s) + [x]
  {
    DedupFromAppend([], s, [x]);
    var d := Dedup(s);
    assert DedupFrom(d, [x]) == if x in d then DedupFrom(d, []) else DedupFrom(d + [x], []);
  }

  /** The values rounded one by one, in order. */
  function RoundEach(values: seq<real>): (r: seq<real>)
    ensures |r| == |values|
    ensures forall i :: 0 <= i < |values| ==> r[i] == RoundTick(values[i])
  {
    seq(|values|, i requires 0 <= i < |values| => RoundTick(values[i]))
  }

  /** The missing `else` only pushes duplicates, which the dedup removes:
      the result is that of rounding each value once. */
  lemma {:induction false} DedupOfPushesIsDedupOfRounded(seen: seq<real>, values: seq<real>)
    ensures DedupFrom(seen, Pushes(values)) == DedupFrom(seen, RoundEach(values))
  {
    if |values| > 0 {
      var n := |values| - 1;
      var init, v := values[..n], values[n];
      RoundEachSnoc(values);
      DedupOfPushesIsDedupOfRounded(seen, init);
      DedupFromAppend(seen, Pushes(init), PushesFor(v));
      DedupFromAppend(seen, RoundEach(init), [RoundTick(v)]);
      DedupOfPushesForIsDedupOfRounded(DedupFrom(seen, RoundEach(init)), v);
    } else {
      assert RoundEach(values) == [];
    }
  }

  lemma RoundEachSnoc(values: seq<real>)
    requires |values| > 0
    ensures RoundEach(values) == RoundEach(values[..|values| - 1]) + [RoundTick(values[|values| - 1])]
  {
  }

  /** For one value: pushing the value rounded twice adds nothing over
      pushing it once. */
  lemma DedupOfPushesForIsDedupOfRounded(d: seq<real>, v: real)
    ensures DedupFrom(d, PushesFor(v)) == DedupFrom(d, [RoundTick(v)])
  {
    PushesForIsRepeatedRounding(v);
    var r := RoundTick(v);
    if v > 1000.0 {
      assert [r, r][1..] == [r];
      var d' := if r in d then d else d + [r];
      assert DedupFrom(d, [r, r]) == DedupFrom(d', [r]);
      assert DedupFrom(d, [r]) == DedupFrom(d', []);
    }
  }

  /** getRoundedTickValues */
  method GetRoundedTickValues(additionalTickValues: seq<real>) returns (roundedTickValues: seq<real>)
    ensures roundedTickValues == Dedup(RoundEach(additionalTickValues))
    ensures NoDuplicates(roundedTickValues)
    ensures forall x :: x in roundedTickValues <==>
              exists i :: 0 <= i < |additionalTickValues| && x == RoundTick(additionalTickValues[i])
  {
    var pushed: seq<real> := [];
    for i := 0 to |additionalTickValues|
      invariant pushed == Pushes(additionalTickValues[..i])
    {
      assert additionalTickValues[..i + 1][..i] == additionalTickValues[..i];
      var value := additionalTickValues[i];
      if value > 1000.0 {
        value := CeilToMultiple(value, 1000.0);
        pushed := pushed + [value];
      }
      if value > 100.0 {
        value := CeilToMultiple(value, 100.0);
        pushed := pushed + [value];
      } else {
        value := CeilToMultiple(value, 5.0);
        pushed := pushed + [value];
      }
    }
    assert additionalTickValues[..|additionalTickValues|] == additionalTickValues;
    roundedTickValues := Dedup(pushed);
    DedupOfPushesIsDedupOfRounded([], additionalTickValues);
    DedupOfRoundedMembership(additionalTickValues);
  }

  /** The distinct rounded values are exactly the roundings of the inputs. */
  lemma DedupOfRoundedMembership(values: seq<real>)
    ensures forall x :: x in Dedup(RoundEach(values)) <==>
              exists i :: 0 <= i < |values| && x == RoundTick(values[i])
  {
    forall x | x in Dedup(RoundEach(values))
      ensures exists i :: 0 <= i < |values| && x == RoundTick(values[i])
    {
      var i :| 0 <= i < |RoundEach(values)| && RoundEach(values)[i] == x;
    }
  }

  /** `additionalTickValues` kept where greater than `lo`, in order. */
  function Above(values: seq<real>, lo: real): (r: seq<real>)
    ensures forall x :: x in r <==> x in values && x > lo
    ensures |r| <= |values|
    ensures NoDuplicates(values) ==> NoDuplicates(r)
  {
    if |values| == 0 then []
    else
      var n := |values| - 1;
      assert forall i :: 0 <= i < n ==> values[..n][i] == values[i];
      assert NoDuplicates(values) ==> NoDuplicates(values[..n]) && values[n] !in values[..n];
      Above(values[..n], lo) + (if values[n] > lo then [values[n]] else [])
  }

  lemma SeqAppendAssociative(a: seq<real>, b: seq<real>, c: seq<real>)
    ensures (a + b) + c == a + (b + c)
  {
  }

  /** Filtering keeps relative order: it distributes over concatenation. */
  lemma {:induction false} AboveAppend(a: seq<real>, b: seq<real>, lo: real)
    ensures Above(a + b, lo) == Above(a, lo) + Above(b, lo)
    decreases |b|
  {
    if |b| == 0 {
      assert a + b == a;
    } else {
      var init, x := b[..|b| - 1], b[|b| - 1];
      assert b == init + [x];
      assert a + b == (a + init) + [x];
      AboveSnoc(a + init, x, lo);
      AboveSnoc(init, x, lo);
      AboveAppend(a, init, lo);
      SeqAppendAssociative(Above(a, lo), Above(init, lo), if x > lo then [x] else []);
    }
  }

  /** Filtering a sequence extended by x extends the filtered sequence by x when x passes. */
  lemma AboveSnoc(xs: seq<real>, x: real, lo: real)
    ensures Above(xs + [x], lo) == Above(xs, lo) + (if x > lo then [x] else [])
  {
    assert (xs + [x])[..|xs|] == xs;
  }


  /** removeTickValuesBelowXaxis */
  method RemoveTickValuesBelowXaxis(additionalTickValues: seq<real>, yDomain: Interval)
    returns (tickValuesAboveXaxis: seq<real>)
    ensures tickValuesAboveXaxis == Above(additionalTickValues, yDomain.lo)
    ensures forall x :: x in tickValuesAboveXaxis <==> x in additionalTickValues && x > yDomain.lo
  {
    tickValuesAboveXaxis := [];
    for i := 0 to |additionalTickValues|
      invariant tickValuesAboveXaxis == Above(additionalTickValues[..i], yDomain.lo)
    {
      assert additionalTickValues[..i + 1][..i] == additionalTickValues[..i];
      var value := additionalTickValues[i];
      if value > yDomain.lo {
        tickValuesAboveXaxis := tickValuesAboveXaxis + [value];
      }
    }
    assert additionalTickValues[..|additionalTickValues|] == additionalTickValues;
  }

  function Negated(values: seq<real>): (r: seq<real>)
    ensures |r| == |values|
    ensures forall i :: 0 <= i < |values| ==> r[i] == -values[i]
  {
    seq(|values|, i requires 0 <= i < |values| => -values[i])
  }

  /** generateNegativeTicks: when a base tick is negative, the negated
      fillers come first, then the fillers themselves. */
  function GenerateNegativeTicks(ticks: seq<real>, additional: seq<real>): (r: seq<real>)
    ensures HasNegative(ticks) ==> |r| == 2 * |additional|
    ensures !HasNegative(ticks) ==> r == additional
    ensures r[|r| - |additional|..] == additional
    ensures HasNegative(ticks) ==> forall i :: 0 <= i < |additional| ==> r[i] == -additional[i]
  {
    if HasNegative(ticks) then Negated(additional) + additional else additional
  }

  /** The positive filler ticks of getArrayOfAdditionalTickMarks. */
  function Fillers(ticks: seq<real>, yDomain: Interval): (r: seq<real>)
    requires |ticks| > 0
    ensures NoDuplicates(r)
    ensures forall f :: f in r ==> f > yDomain.lo
  {
    Above(Dedup(Pushes(Halvings(LowestAbsoluteValueOfTickValues(ticks)))), yDomain.lo)
  }

  /** A whole multiple of 5, at least 5. */
  predicate IsRoundFiller(f: real) {
    f >= 5.0 && IsInteger(f / 5.0) && IsInteger(f)
  }

  /** Each filler lies above the lower end of the domain, is a whole multiple
      of 5 no smaller than 5, and appears once. */
  lemma FillersAreRoundMultiplesOfFive(ticks: seq<real>, yDomain: Interval)
    requires |ticks| > 0
    ensures NoDuplicates(Fillers(ticks, yDomain))
    ensures forall f :: f in Fillers(ticks, yDomain) ==> f > yDomain.lo && IsRoundFiller(f)
  {
    var h := Halvings(LowestAbsoluteValueOfTickValues(ticks));
    DedupOfPushesIsDedupOfRounded([], h);
    var rounded := Dedup(Pushes(h));
    assert rounded == Dedup(RoundEach(h));
    RoundEachOfHalvingsAreRoundFillers(h);
    forall f | f in Fillers(ticks, yDomain)
      ensures IsRoundFiller(f)
    {
      assert f in rounded;
      assert f in RoundEach(h);
    }
  }

  lemma RoundEachOfHalvingsAreRoundFillers(h: seq<real>)
    requires forall i :: 0 <= i < |h| ==> h[i] >= 2.0
    ensures forall f :: f in RoundEach(h) ==> IsRoundFiller(f)
  {
    forall f | f in RoundEach(h) ensures IsRoundFiller(f) {
      var i :| 0 <= i < |h| && RoundEach(h)[i] == f;
      RoundedIsMultipleOfFive(h[i]);
    }
  }

  lemma MultipleIsMultipleOfFive(r: real, step: real, times: int)
    requires step == 5.0 * times as real && times >= 1
    requires IsInteger(r / step)
    ensures IsInteger(r / 5.0) && IsInteger(r)
  {
    var m := (r / step).Floor;
    assert r == m as real * step;
    assert r == (m * times * 5) as real;
    assert r / 5.0 == (m * times) as real;
  }

  lemma RoundedIsMultipleOfFive(value: real)
    requires value >= 2.0
    ensures IsRoundFiller(RoundTick(value))
  {
    var r := RoundTick(value);
    if value > 1000.0 {
      MultipleIsMultipleOfFive(r, 1000.0, 200);
    } else if value > 100.0 {
      MultipleIsMultipleOfFive(r, 100.0, 20);
    } else {
      MultipleIsMultipleOfFive(r, 5.0, 1);
      assert r > 0.0;
      var m := (r / 5.0).Floor;
      assert r == m as real * 5.0;
    }
  }

  /** getArrayOfAdditionalTickMarks: (negated fillers, if some base tick is
      negative) + fillers + the base ticks, unsorted. */
  function ArrayOfAdditionalTickMarks(ticks: seq<real>, yDomain: Interval): (r: seq<real>)
    requires |ticks| > 0
    ensures var f := Fillers(ticks, yDomain);
            var k := if HasNegative(ticks) then 2 * |f| else |f|;
            |r| == k + |ticks| &&
            r[k..] == ticks &&
            r[k - |f|..k] == f &&
            (HasNegative(ticks) ==> forall i :: 0 <= i < |f| ==> r[i] == -f[i])
  {
    GenerateNegativeTicks(ticks, Fillers(ticks, yDomain)) + ticks
  }

  // ---------------------------------------------------------------------
  // getYTickDetails
  // ---------------------------------------------------------------------

  /** d3-format specifiers used for the tick labels. */
  datatype TickFormat = Integer /* 'd' */ | TwoDecimals /* '.2f' */

  datatype TickDetails = TickDetails(tickValues: seq<real>, tickFormat: TickFormat)

  /** `values.filter((_, index) => index % 2)`: the odd-indexed entries. */
  function OddIndexed(values: seq<real>): (r: seq<real>)
    ensures |r| == |values| / 2
    ensures forall k :: 0 <= k < |r| ==> r[k] == values[2 * k + 1]
  {
    seq(|values| / 2, k requires 0 <= k < |values| / 2 => values[2 * k + 1])
  }

  predicate AllIntegers(values: seq<real>) {
    forall i :: 0 <= i < |values| ==> IsInteger(values[i])
  }

  /** `values.filter(t => !Number.isInteger(t))` */
  function NonIntegers(values: seq<real>): (r: seq<real>)
    ensures |r| == 0 <==> AllIntegers(values)
  {
    if |values| == 0 then []
    else
      assert forall i :: 0 < i < |values| ==> values[i] == values[1..][i - 1];
      (if IsInteger(values[0]) then [] else [values[0]]) + NonIntegers(values[1..])
  }

  /** The tick list before thinning: the base ticks, with fillers for symlog
      parameters. */
  function FullTicks(yDomain: Interval, parmCd: string, baseTicks: seq<real>): (r: seq<real>)
    requires IsSymlog(parmCd) ==> |baseTicks| > 0
    ensures |baseTicks| <= |r| && r[|r| - |baseTicks|..] == baseTicks
    ensures !IsSymlog(parmCd) ==> r == baseTicks
  {
    if IsSymlog(parmCd) then ArrayOfAdditionalTickMarks(baseTicks, yDomain) else baseTicks
  }

  /** getYTickDetails, given d3's `ticks(lo, hi, 5)` as `baseTicks` and
      `!mediaQuery(USWDS_MEDIUM_SCREEN)` as `narrow`. */
  function GetYTickDetails(yDomain: Interval, parmCd: string, baseTicks: seq<real>, narrow: bool)
    : (r: TickDetails)
    requires IsSymlog(parmCd) ==> |baseTicks| > 0
    ensures var full := FullTicks(yDomain, parmCd, baseTicks);
            var thin := IsSymlog(parmCd) && |full| > 3 && narrow;
            (|r.tickValues| < |full| <==> thin) &&
            (thin ==> r.tickValues == OddIndexed(full)) &&
            (!thin ==> r.tickValues == full)
    ensures !IsSymlog(parmCd) ==> r.tickValues == baseTicks
    ensures r.tickFormat == Integer <==> AllIntegers(r.tickValues)
  {
    var full := FullTicks(yDomain, parmCd, baseTicks);
    var tickValues := if IsSymlog(parmCd) && |full| > 3 && narrow then OddIndexed(full) else full;
    TickDetails(tickValues, if |NonIntegers(tickValues)| > 0 then TwoDecimals else Integer)
  }

  /** For a symlog parameter on a wide screen, the fillers never force the
      two-decimal format: it is chosen exactly when a base tick is not a
      whole number, and the base ticks end the list unchanged. */
  lemma SymlogWideFormatFollowsBaseTicks(yDomain: Interval, parmCd: string, baseTicks: seq<real>)
    requires IsSymlog(parmCd) && |baseTicks| > 0
    ensures var r := GetYTickDetails(yDomain, parmCd, baseTicks, false);
            r.tickValues[|r.tickValues| - |baseTicks|..] == baseTicks &&
            (r.tickFormat == Integer <==> AllIntegers(baseTicks))
  {
    var r := GetYTickDetails(yDomain, parmCd, baseTicks, false);
    assert r.tickValues == ArrayOfAdditionalTickMarks(baseTicks, yDomain);
    TickMarksAreIntegersIffBaseTicksAre(baseTicks, yDomain);
  }

  /** The tick marks are all whole numbers exactly when the base ticks are. */
  lemma TickMarksAreIntegersIffBaseTicksAre(ticks: seq<real>, yDomain: Interval)
    requires |ticks| > 0
    ensures AllIntegers(ArrayOfAdditionalTickMarks(ticks, yDomain)) <==> AllIntegers(ticks)
  {
    var f := Fillers(ticks, yDomain);
    FillersAreIntegers(ticks, yDomain);
    NegatedIntegersAreIntegers(f);
    if HasNegative(ticks) {
      AllIntegersAppend(Negated(f), f);
    }
    AllIntegersAppend(GenerateNegativeTicks(ticks, f), ticks);
  }

  lemma FillersAreIntegers(ticks: seq<real>, yDomain: Interval)
    requires |ticks| > 0
    ensures AllIntegers(Fillers(ticks, yDomain))
  {
    var f := Fillers(ticks, yDomain);
    FillersAreRoundMultiplesOfFive(ticks, yDomain);
    forall i | 0 <= i < |f| ensures IsInteger(f[i]) {
      assert f[i] in f;
    }
  }

  lemma AllIntegersAppend(a: seq<real>, b: seq<real>)
    ensures AllIntegers(a + b) <==> AllIntegers(a) && AllIntegers(b)
  {
    if AllIntegers(a + b) {
      forall i | 0 <= i < |a| ensures IsInteger(a[i]) {
        assert a[i] == (a + b)[i];
      }
      forall i | 0 <= i < |b| ensures IsInteger(b[i]) {
        assert b[i] == (a + b)[|a| + i];
      }
    }
  }

  lemma NegatedIntegersAreIntegers(values: seq<real>)
    requires AllIntegers(values)
    ensures AllIntegers(Negated(values))
  {
    forall i | 0 <= i < |values| ensures IsInteger(Negated(values)[i]) {
      NegatedIntegerIsInteger(values[i]);
    }
  }

  lemma NegatedIntegerIsInteger(x: real)
    requires IsInteger(x)
    ensures IsInteger(-x)
  {
    var n := x.Floor;
    var m: int := -n;
    assert -x == m as real;
    assert (m as real).Floor == m;
  }
}
