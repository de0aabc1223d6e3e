/**
 The interquartile filter of the benchmark statistics, over the real numbers: samples
 further than one and a half interquartile ranges outside the quartiles are dropped.
 */
module Outliers {

  // ----- sorting -----

  function Insert(s: seq<real>, x: real): (r: seq<real>)
    ensures |r| == |s| + 1
  {
    if s == [] || s[|s| - 1] <= x then s + [x] else Insert(s[..|s| - 1], x) + [s[|s| - 1]]
  }

  function Sort(s: seq<real>): (r: seq<real>)
    ensures |r| == |s|
  {
    if s == [] then [] else Insert(Sort(s[..|s| - 1]), s[|s| - 1])
  }

  ghost predicate Sorted(s: seq<real>) {
    forall i, j :: 0 <= i <= j < |s| ==> s[i] <= s[j]
  }

  // ----- quartiles (statistics.quantiles, inclusive method) -----

  function Interpolate(x: real, y: real, delta: nat): real
    requires delta <= 3
  {
    (x * (4 - delta) as real + y * delta as real) / 4.0
  }

  /** The i-th quartile of sorted data. */
  function Quartile(s: seq<real>, i: nat): real
    requires |s| >= 4 && 1 <= i <= 3
  {
    var m := |s| - 1;
    Interpolate(s[i * m / 4], s[i * m / 4 + 1], i * m % 4)
  }

  /** The interval of values to keep. */
  function Bounds(values: seq<real>): (real, real)
    requires |values| >= 4
  {
    SortedBounds(Sort(values))
  }

  function SortedBounds(s: seq<real>): (real, real)
    requires |s| >= 4
  {
    Fences(Quartile(s, 1), Quartile(s, 3))
  }

  function Fences(q1: real, q3: real): (real, real) {
    (q1 - 1.5 * (q3 - q1), q3 + 1.5 * (q3 - q1))
  }

  predicate Keeps(values: seq<real>, v: real) {
    |values| < 4 || Bounds(values).0 <= v <= Bounds(values).1
  }

  function Mask(values: seq<real>): (mask: seq<bool>)
    ensures |mask| == |values|
    ensures forall i :: 0 <= i < |values| ==> mask[i] == Keeps(values, values[i])
  {
    seq(|values|, i requires 0 <= i < |values| => Keeps(values, values[i]))
  }

  /** The values whose flag is set, in their order. */
  function Select(values: seq<real>, mask: seq<bool>): seq<real>
    requires |mask| == |values|
  {
    if values == [] then []
    else
      var n := |values| - 1;
      Select(values[..n], mask[..n]) + (if mask[n] then [values[n]] else [])
  }

  function RemoveOutliers(values: seq<real>): (seq<real>, int, seq<bool>) {
    if |values| < 4 then (values, 0, Mask(values))
    else
      var kept := Select(values, Mask(values));
      (kept, |values| - |kept|, Mask(values))
  }

  // ----- sorting facts -----

  lemma SortedAppend(s: seq<real>, x: real)
    requires Sorted(s) && forall i :: 0 <= i < |s| ==> s[i] <= x
    ensures Sorted(s + [x])
  {
  }

  lemma {:induction false} InsertSorts(s: seq<real>, x: real)
    requires Sorted(s)
    ensures Sorted(Insert(s, x)) && multiset(Insert(s, x)) == multiset(s) + multiset{x}
    decreases |s|
  {
    if s == [] || s[|s| - 1] <= x {
      SortedAppend(s, x);
    } else {
      var a, z := s[..|s| - 1], s[|s| - 1];
      InsertSorts(a, x);
      assert s == a + [z];
      var r := Insert(a, x);
      forall i | 0 <= i < |r| ensures r[i] <= z {
        assert r[i] in multiset(r);
        assert r[i] in multiset(a) || r[i] == x;
      }
      SortedAppend(r, z);
    }
  }

  lemma {:induction false} SortSorts(s: seq<real>)
    ensures Sorted(Sort(s)) && multiset(Sort(s)) == multiset(s)
    decreases |s|
  {
    if s != [] {
      SortSorts(s[..|s| - 1]);
      InsertSorts(Sort(s[..|s| - 1]), s[|s| - 1]);
      assert s == s[..|s| - 1] + [s[|s| - 1]];
    }
  }

  /** There is only one sorted order. */
  lemma {:induction false} SortedUnique(a: seq<real>, b: seq<real>)
    requires Sorted(a) && Sorted(b) && multiset(a) == multiset(b)
    ensures a == b
    decreases |a|
  {
    assert |a| == |multiset(a)| == |multiset(b)| == |b|;
    if a != [] {
      var x := SameLast(a, b);
      SortedUnique(a[..|a| - 1], b[..|b| - 1]);
      assert a == a[..|a| - 1] + [x] && b == b[..|b| - 1] + [x];
    }
  }

  lemma SameLast(a: seq<real>, b: seq<real>) returns (x: real)
    requires Sorted(a) && Sorted(b) && multiset(a) == multiset(b) && a != [] && b != []
    ensures a[|a| - 1] == x == b[|b| - 1]
    ensures multiset(a[..|a| - 1]) == multiset(b[..|b| - 1])
  {
    x := a[|a| - 1];
    var y := b[|b| - 1];
    assert x in multiset(b) && y in multiset(a);
    LastIsGreatest(a, y);
    LastIsGreatest(b, x);
    AllButLast(a);
    AllButLast(b);
  }

  lemma AllButLast(s: seq<real>)
    requires s != []
    ensures multiset(s[..|s| - 1]) == multiset(s) - multiset{s[|s| - 1]}
  {
    assert s == s[..|s| - 1] + [s[|s| - 1]];
  }

  lemma LastIsGreatest(s: seq<real>, v: real)
    requires Sorted(s) && v in multiset(s)
    ensures s != [] && v <= s[|s| - 1]
  {
    var i :| 0 <= i < |s| && s[i] == v;
  }

  // ----- conservation and order -----

  /** Kept and removed samples add up, every kept sample is one whose flag is set, and
      flags that are all set keep the list as it is. */
  lemma {:induction false} SelectKeepsFlagged(values: seq<real>, mask: seq<bool>)
    requires |mask| == |values|
    ensures |Select(values, mask)| <= |values|
    ensures |Select(values, mask)| == |values| <==> forall i :: 0 <= i < |mask| ==> mask[i]
    ensures (forall i :: 0 <= i < |mask| ==> mask[i]) ==> Select(values, mask) == values
    decreases |values|
  {
    if values != [] {
      var n := |values| - 1;
      SelectKeepsFlagged(values[..n], mask[..n]);
      assert values == values[..n] + [values[n]];
      assert (forall i :: 0 <= i < |mask| ==> mask[i]) <==> (mask[n] && forall i :: 0 <= i < n ==> mask[..n][i]);
    }
  }

  ghost function CountIn(s: seq<real>, lo: real, hi: real): nat {
    if s == [] then 0 else CountIn(s[..|s| - 1], lo, hi) + (if lo <= s[|s| - 1] <= hi then 1 else 0)
  }

  lemma {:induction false} SelectCounts(values: seq<real>, mask: seq<bool>, lo: real, hi: real)
    requires |mask| == |values| && forall i :: 0 <= i < |values| ==> (mask[i] <==> lo <= values[i] <= hi)
    ensures |Select(values, mask)| == CountIn(values, lo, hi)
    decreases |values|
  {
    if values != [] { SelectCounts(values[..|values| - 1], mask[..|values| - 1], lo, hi); }
  }

  lemma {:induction false} InsertCounts(s: seq<real>, x: real, lo: real, hi: real)
    ensures CountIn(Insert(s, x), lo, hi) == CountIn(s, lo, hi) + (if lo <= x <= hi then 1 else 0)
    decreases |s|
  {
    var r := Insert(s, x);
    if s == [] || s[|s| - 1] <= x {
      assert r[..|r| - 1] == s;
    } else {
      InsertCounts(s[..|s| - 1], x, lo, hi);
      assert r[..|r| - 1] == Insert(s[..|s| - 1], x);
    }
  }

  lemma {:induction false} SortCounts(s: seq<real>, lo: real, hi: real)
    ensures CountIn(Sort(s), lo, hi) == CountIn(s, lo, hi)
    decreases |s|
  {
    if s != [] {
      SortCounts(s[..|s| - 1], lo, hi);
      InsertCounts(Sort(s[..|s| - 1]), s[|s| - 1], lo, hi);
    }
  }

  /** A stretch of positions inside the interval bounds the count from below. */
  lemma {:induction false} CountStretch(s: seq<real>, a: nat, b: nat, lo: real, hi: real)
    requires a <= b <= |s| && forall i :: a <= i < b ==> lo <= s[i] <= hi
    ensures CountIn(s, lo, hi) >= b - a
    decreases |s|
  {
    if s != [] && a < b {
      var n := |s| - 1;
      CountStretch(s[..n], a, if b == |s| then n else b, lo, hi);
    }
  }

  // ----- at least half is kept -----

  lemma Between(x: real, y: real, delta: nat)
    requires x <= y && delta <= 3
    ensures x <= Interpolate(x, y, delta) <= y
  {
    if delta == 0 {} else if delta == 1 {} else if delta == 2 {} else {}
  }

  /** One and a half ranges below the first quartile reach the sample just below it,
      unless the quartile lies three quarters of the way to the next. */
  lemma LowerReach(x: real, y: real, delta: nat, q3: real)
    requires x <= y <= q3 && delta <= 2
    ensures var q1 := Interpolate(x, y, delta); q1 - 1.5 * (q3 - q1) <= x
  {
    if delta == 0 {} else if delta == 1 {} else {}
  }

  /** The middle positions of sorted data that the filter always keeps. */
  function First(n: nat): nat
    requires n >= 4
  {
    if (n - 1) % 4 == 3 then (n - 1) / 4 + 1 else (n - 1) / 4
  }

  lemma MiddleIsHalf(n: nat)
    requires n >= 4
    ensures First(n) <= 3 * (n - 1) / 4 < n - 1
    ensures 2 * (3 * (n - 1) / 4 + 1 - First(n)) >= n
  {
    var k, r := (n - 1) / 4, (n - 1) % 4;
    assert 3 * (n - 1) == 4 * (3 * k) + 3 * r;
    assert 3 * (n - 1) / 4 == 3 * k + 3 * r / 4;
  }

  lemma MiddleIsKept(s: seq<real>, i: nat)
    requires Sorted(s) && |s| >= 4 && First(|s|) <= i <= 3 * (|s| - 1) / 4
    ensures var q1, q3 := Quartile(s, 1), Quartile(s, 3);
      q1 - 1.5 * (q3 - q1) <= s[i] <= q3 + 1.5 * (q3 - q1)
  {
    var m := |s| - 1;
    var k, j := m / 4, 3 * m / 4;
    MiddleIsHalf(|s|);
    var q1, q3 := Quartile(s, 1), Quartile(s, 3);
    assert q1 == Interpolate(s[k], s[k + 1], m % 4);
    assert q3 == Interpolate(s[j], s[j + 1], 3 * m % 4);
    Between(s[k], s[k + 1], m % 4);
    Between(s[j], s[j + 1], 3 * m % 4);
    assert s[i] <= s[j] <= q3;
    assert k + 1 <= j && s[k + 1] <= s[j];
    if i > k {
      assert s[k + 1] <= s[i];
    } else {
      LowerReach(s[k], s[k + 1], m % 4, q3);
    }
  }

  /** The filter keeps at least half of any list of samples, so it never empties one; what
      it keeps and what it removes add up to the list. */
  lemma KeepsAtLeastHalf(values: seq<real>)
    ensures var (kept, removed, mask) := RemoveOutliers(values);
      && kept == Select(values, mask)
      && |kept| + removed == |values|
      && 2 * |kept| >= |values|
      && (values != [] ==> kept != [])
  {
    if |values| < 4 {
      SelectKeepsFlagged(values, Mask(values));
    } else {
      var s := Sort(values);
      var (lo, hi) := Bounds(values);
      SortSorts(values);
      MiddleIsHalf(|s|);
      var a, b := First(|s|), 3 * (|s| - 1) / 4 + 1;
      forall i | a <= i < b ensures lo <= s[i] <= hi { MiddleIsKept(s, i); }
      CountStretch(s, a, b, lo, hi);
      SortCounts(values, lo, hi);
      SelectCounts(values, Mask(values), lo, hi);
    }
  }

  // ----- independence of order and unit -----

  /** Which values are kept does not depend on the order of the samples. */
  lemma KeepsIgnoresOrder(a: seq<real>, b: seq<real>, v: real)
    requires multiset(a) == multiset(b)
    ensures Keeps(a, v) == Keeps(b, v)
  {
    SortSorts(a);
    SortSorts(b);
    SortedUnique(Sort(a), Sort(b));
    assert |a| == |multiset(a)| == |b|;
  }

  lemma {:induction false} SelectMultiplicity(values: seq<real>, mask: seq<bool>, all: seq<real>, v: real)
    requires |mask| == |values| && forall i :: 0 <= i < |values| ==> mask[i] == Keeps(all, values[i])
    ensures multiset(Select(values, mask))[v] == if Keeps(all, v) then multiset(values)[v] else 0
    decreases |values|
  {
    if values != [] {
      var n := |values| - 1;
      var before, x := values[..n], values[n];
      SelectMultiplicity(before, mask[..n], all, v);
      assert multiset(values) == multiset(before) + multiset{x} by { assert values == before + [x]; }
      assert mask[n] == Keeps(all, x);
    }
  }

  /** Reordering the samples reorders what is kept and changes nothing else. */
  lemma KeptIgnoresOrder(a: seq<real>, b: seq<real>)
    requires multiset(a) == multiset(b)
    ensures multiset(Select(a, Mask(a))) == multiset(Select(b, Mask(b)))
  {
    forall v ensures multiset(Select(a, Mask(a)))[v] == multiset(Select(b, Mask(b)))[v] {
      SelectMultiplicity(a, Mask(a), a, v);
      SelectMultiplicity(b, Mask(b), b, v);
      KeepsIgnoresOrder(a, b, v);
    }
  }

  function Map(s: seq<real>, f: real -> real): (r: seq<real>)
    ensures |r| == |s|
    ensures forall i :: 0 <= i < |s| ==> r[i] == f(s[i])
  {
    seq(|s|, i requires 0 <= i < |s| => f(s[i]))
  }

  ghost predicate KeepsOrder(f: real -> real) {
    forall x, y :: x <= y <==> f(x) <= f(y)
  }

  lemma {:induction false} InsertMap(s: seq<real>, x: real, f: real -> real)
    requires KeepsOrder(f)
    ensures Insert(Map(s, f), f(x)) == Map(Insert(s, x), f)
    decreases |s|
  {
    if s != [] {
      InsertMap(s[..|s| - 1], x, f);
      assert Map(s, f)[..|s| - 1] == Map(s[..|s| - 1], f);
    }
  }

  lemma {:induction false} SortMap(s: seq<real>, f: real -> real)
    requires KeepsOrder(f)
    ensures Sort(Map(s, f)) == Map(Sort(s), f)
    decreases |s|
  {
    if s != [] {
      SortMap(s[..|s| - 1], f);
      InsertMap(Sort(s[..|s| - 1]), s[|s| - 1], f);
      assert Map(s, f)[..|s| - 1] == Map(s[..|s| - 1], f);
    }
  }

  /** A change of unit: scaling and shifting. */
  function Convert(k: real, c: real, v: real): real {
    k * v + c
  }

  function Affine(k: real, c: real): real -> real {
    (v: real) => Convert(k, c, v)
  }

  lemma ScaleOrder(x: real, y: real, k: real, c: real)
    requires k > 0.0
    ensures x <= y <==> Convert(k, c, x) <= Convert(k, c, y)
  {
    var g := y - x;
    Distribute(k, x, g, 1.0, 1.0);
    assert k * y == k * x + k * g;
    PositiveProduct(k, g);
  }

  lemma PositiveProduct(k: real, g: real)
    requires k > 0.0
    ensures k * g >= 0.0 <==> g >= 0.0
  {
    if g >= 0.0 {
      assert k * g >= 0.0;
    } else {
      var h := -g;
      assert k * h > 0.0;
      assert k * g == -(k * h);
    }
  }

  lemma Distribute(k: real, x: real, y: real, a: real, b: real)
    ensures k * (x * a + y * b) == (k * x) * a + (k * y) * b
  {
  }

  lemma AffineKeepsOrder(k: real, c: real)
    requires k > 0.0
    ensures KeepsOrder(Affine(k, c))
  {
    forall x, y ensures x <= y <==> Affine(k, c)(x) <= Affine(k, c)(y) { ScaleOrder(x, y, k, c); }
  }

  lemma InterpolateAffine(x: real, y: real, delta: nat, k: real, c: real)
    requires delta <= 3
    ensures Interpolate(Convert(k, c, x), Convert(k, c, y), delta) == Convert(k, c, Interpolate(x, y, delta))
  {
    var a, b := (4 - delta) as real / 4.0, delta as real / 4.0;
    Distribute(k, x, y, a, b);
    Weighted(x, y, delta);
    Weighted(Convert(k, c, x), Convert(k, c, y), delta);
    Combine(k * x, k * y, c, a, b);
  }

  lemma Weighted(x: real, y: real, delta: nat)
    requires delta <= 3
    ensures var a, b := (4 - delta) as real / 4.0, delta as real / 4.0;
      a + b == 1.0 && Interpolate(x, y, delta) == x * a + y * b
  {
    if delta == 0 {} else if delta == 1 {} else if delta == 2 {} else {}
  }

  lemma Combine(u: real, v: real, c: real, a: real, b: real)
    requires a + b == 1.0
    ensures (u + c) * a + (v + c) * b == u * a + v * b + c
  {
    assert c * a + c * b == c * (a + b);
  }

  lemma QuartileAffine(s: seq<real>, i: nat, k: real, c: real)
    requires |s| >= 4 && 1 <= i <= 3
    ensures Quartile(Map(s, Affine(k, c)), i) == Convert(k, c, Quartile(s, i))
  {
    var m := |s| - 1;
    assert i * m / 4 + 1 <= m;
    InterpolateAffine(s[i * m / 4], s[i * m / 4 + 1], i * m % 4, k, c);
  }

  lemma FencesAffine(q1: real, q3: real, k: real, c: real)
    ensures Fences(Convert(k, c, q1), Convert(k, c, q3)).0 == Convert(k, c, Fences(q1, q3).0)
    ensures Fences(Convert(k, c, q1), Convert(k, c, q3)).1 == Convert(k, c, Fences(q1, q3).1)
  {
    Distribute(k, q1, q3, 2.5, -1.5);
    Distribute(k, q1, q3, -1.5, 2.5);
    assert Fences(q1, q3).0 == q1 * 2.5 + q3 * -1.5;
    assert Fences(q1, q3).1 == q1 * -1.5 + q3 * 2.5;
  }

  lemma BoundsAffine(values: seq<real>, k: real, c: real)
    requires k > 0.0 && |values| >= 4
    ensures Bounds(Map(values, Affine(k, c))).0 == Convert(k, c, Bounds(values).0)
    ensures Bounds(Map(values, Affine(k, c))).1 == Convert(k, c, Bounds(values).1)
  {
    var s := Sort(values);
    AffineKeepsOrder(k, c);
    SortMap(values, Affine(k, c));
    QuartileAffine(s, 1, k, c);
    QuartileAffine(s, 3, k, c);
    FencesAffine(Quartile(s, 1), Quartile(s, 3), k, c);
    assert Bounds(Map(values, Affine(k, c))) == Fences(Convert(k, c, Quartile(s, 1)), Convert(k, c, Quartile(s, 3)));
  }

  /** The same samples are kept in any other unit with the same direction, shifted or not. */
  lemma MaskIgnoresUnit(values: seq<real>, k: real, c: real)
    requires k > 0.0
    ensures Mask(Map(values, Affine(k, c))) == Mask(values)
  {
    var scaled := Map(values, Affine(k, c));
    if |values| >= 4 {
      BoundsAffine(values, k, c);
      forall i | 0 <= i < |values| ensures Keeps(scaled, scaled[i]) == Keeps(values, values[i]) {
        ScaleOrder(Bounds(values).0, values[i], k, c);
        ScaleOrder(values[i], Bounds(values).1, k, c);
        assert scaled[i] == Convert(k, c, values[i]);
      }
    }
  }

  // ----- what is kept -----

  /** A quarter of the way through sorted data counted in steps, and three quarters, between the two
      samples next to it in proportion. */
  ghost predicate QuarterPoint(s: seq<real>, i: nat, q: real)
    requires |s| >= 4 && 1 <= i <= 3
  {
    var p := i * (|s| - 1);
    4.0 * q == (4 - p % 4) as real * s[p / 4] + (p % 4) as real * s[p / 4 + 1]
  }

  /** Of at least four samples, exactly those are kept that lie within one and a half
      interquartile ranges of the quartiles. */
  lemma KeptExactly(values: seq<real>, s: seq<real>, q1: real, q3: real, v: real)
    requires |values| >= 4 && Sorted(s) && multiset(s) == multiset(values) && |s| == |values|
    requires QuarterPoint(s, 1, q1) && QuarterPoint(s, 3, q3)
    ensures Keeps(values, v) <==> 2.0 * q1 - 3.0 * (q3 - q1) <= 2.0 * v <= 2.0 * q3 + 3.0 * (q3 - q1)
  {
    SortSorts(values);
    SortedUnique(Sort(values), s);
    QuarterIsQuartile(s, 1, q1);
    QuarterIsQuartile(s, 3, q3);
  }

  lemma QuarterIsQuartile(s: seq<real>, i: nat, q: real)
    requires |s| >= 4 && 1 <= i <= 3 && QuarterPoint(s, i, q)
    ensures Quartile(s, i) == q
  {
    var d := i * (|s| - 1) % 4;
    if d == 0 {} else if d == 1 {} else if d == 2 {} else {}
  }
}
