/** The median of a list of reals. */
module Medians {
  import opened Ordering

  predicate RealLe(x: real, y: real) {
    x <= y
  }

  lemma RealOrderIsTotal()
    ensures TotalOrder(RealLe)
  {}

  function MiddleOf(sorted: seq<real>): real
    requires sorted != []
  {
    var half := |sorted| / 2;
    if |sorted| % 2 == 1 then sorted[half] else (sorted[half - 1] + sorted[half]) / 2.0
  }

  function Median(s: seq<real>): real
    requires s != []
  {
    MiddleOf(Sort(s, RealLe))
  }

  lemma MedianForgetsOrder(s: seq<real>, t: seq<real>)
    requires s != [] && multiset(s) == multiset(t)
    ensures |t| == |s| && Median(s) == Median(t)
  {
    assert |s| == |multiset(s)| == |multiset(t)| == |t|;
    assert Sort(s, RealLe) == Sort(t, RealLe) by {
      RealOrderIsTotal();
      SortIsNormalForm(s, t, RealLe);
    }
  }

  /** The median halves the list: as many entries lie on one side as on the other, and it is
      the odd entry out, or the midpoint of the two inner ones. */
  lemma MedianHalves(s: seq<real>) returns (low: seq<real>, high: seq<real>)
    requires s != []
    ensures multiset(low) + multiset(high) == multiset(s)
    ensures |low| == |s| / 2 && |high| == |s| - |s| / 2
    ensures forall i | 0 <= i < |low| :: low[i] <= Median(s)
    ensures forall i | 0 <= i < |high| :: Median(s) <= high[i]
    ensures if |s| % 2 == 1 then high[0] == Median(s)
            else Median(s) - low[|low| - 1] == high[0] - Median(s)
  {
    var sorted := Sort(s, RealLe);
    assert Sorted(sorted, RealLe) by {
      RealOrderIsTotal();
      SortSorts(s, RealLe);
    }
    var half := |s| / 2;
    low, high := sorted[..half], sorted[half..];
    assert sorted == low + high;
    Ordered(sorted, half);
  }

  lemma Ordered(sorted: seq<real>, half: nat)
    requires sorted != [] && Sorted(sorted, RealLe) && half == |sorted| / 2
    ensures forall i | 0 <= i < half :: sorted[i] <= MiddleOf(sorted)
    ensures forall i | half <= i < |sorted| :: MiddleOf(sorted) <= sorted[i]
  {
    forall i | 0 <= i < half ensures sorted[i] <= MiddleOf(sorted) {
      assert RealLe(sorted[i], sorted[half]);
      assert i == half - 1 || RealLe(sorted[i], sorted[half - 1]);
    }
    forall i | half <= i < |sorted| ensures MiddleOf(sorted) <= sorted[i] {
      assert i == half || RealLe(sorted[half], sorted[i]);
      assert half == 0 || RealLe(sorted[half - 1], sorted[half]);
    }
  }

  lemma MedianIsBetween(s: seq<real>, low: real, high: real)
    requires s != [] && forall x | x in s :: low <= x <= high
    ensures low <= Median(s) <= high
  {
    var sorted := Sort(s, RealLe);
    forall i | 0 <= i < |sorted| ensures low <= sorted[i] <= high {
      assert sorted[i] in multiset(sorted);
      assert sorted[i] in multiset(s);
      assert sorted[i] in s;
    }
  }

  lemma MedianIsAtLeast(s: seq<real>, low: real)
    requires s != [] && forall x | x in s :: low <= x
    ensures low <= Median(s)
  {
    var sorted := Sort(s, RealLe);
    forall i | 0 <= i < |sorted| ensures low <= sorted[i] {
      assert sorted[i] in multiset(sorted);
      assert sorted[i] in multiset(s);
      assert sorted[i] in s;
    }
  }

  // ---------------------------------------------------------------- halves decide the median

  /** The list in two halves around the inner values a and b, which are the same for an odd one. */
  ghost predicate Halved(s: seq<real>, low: seq<real>, high: seq<real>, a: real, b: real) {
    && multiset(low) + multiset(high) == multiset(s)
    && |low| == |s| / 2 && |high| == |s| - |s| / 2
    && (forall x | x in low :: x <= a) && a <= b && (forall x | x in high :: b <= x)
    && b in high && (if |s| % 2 == 0 then a in low else a == b)
  }

  lemma HalvesExist(s: seq<real>) returns (low: seq<real>, high: seq<real>, a: real, b: real)
    requires s != []
    ensures Halved(s, low, high, a, b)
  {
    RealOrderIsTotal();
    SortSorts(s, RealLe);
    low, high, a, b := HalvesOfSorted(Sort(s, RealLe));
  }

  lemma HalvesOfSorted(sorted: seq<real>) returns (low: seq<real>, high: seq<real>, a: real, b: real)
    requires sorted != [] && Sorted(sorted, RealLe)
    ensures Halved(sorted, low, high, a, b)
  {
    var half := |sorted| / 2;
    low, high := sorted[..half], sorted[half..];
    assert sorted == low + high;
    b := sorted[half];
    a := if |sorted| % 2 == 0 then sorted[half - 1] else b;
    assert high[0] == b;
    SplitAround(sorted, half, a);
    if |sorted| % 2 == 0 {
      assert low[half - 1] == a;
    }
  }

  lemma SplitAround(sorted: seq<real>, half: nat, a: real)
    requires Sorted(sorted, RealLe) && half < |sorted|
    requires a == sorted[half] || (half > 0 && a == sorted[half - 1])
    ensures forall x | x in sorted[..half] :: x <= a
    ensures forall x | x in sorted[half..] :: sorted[half] <= x
    ensures a <= sorted[half]
  {
    var low, high := sorted[..half], sorted[half..];
    if half > 0 {
      assert RealLe(sorted[half - 1], sorted[half]);
    }
    forall x | x in low ensures x <= a {
      var i :| 0 <= i < half && low[i] == x;
      assert i == half - 1 || RealLe(sorted[i], sorted[half - 1]);
    }
    forall x | x in high ensures sorted[half] <= x {
      var i :| 0 <= i < |high| && high[i] == x;
      assert high[i] == sorted[half + i];
      assert i == 0 || RealLe(sorted[half], sorted[half + i]);
    }
  }

  /** Any halves will do: the inner values decide the median. */
  lemma MedianOfHalves(s: seq<real>, low: seq<real>, high: seq<real>, a: real, b: real)
    requires s != [] && Halved(s, low, high, a, b)
    ensures Median(s) == if |s| % 2 == 1 then b else (a + b) / 2.0
  {
    var l, h := Sort(low, RealLe), Sort(high, RealLe);
    RealOrderIsTotal();
    SortSorts(low, RealLe);
    SortSorts(high, RealLe);
    SortSorts(s, RealLe);
    SortedKeepsElements(low);
    SortedKeepsElements(high);
    JoinedIsSorted(l, h, a, b);
    SortedIsUnique(Sort(s, RealLe), l + h, RealLe);
    LeastFirst(h, b);
    if |s| % 2 == 0 {
      GreatestLast(l, a);
    }
  }

  lemma SortedKeepsElements(s: seq<real>)
    ensures forall x :: x in Sort(s, RealLe) <==> x in s
  {
    forall x ensures x in Sort(s, RealLe) <==> x in s {
      assert x in multiset(Sort(s, RealLe)) <==> x in multiset(s);
    }
  }

  lemma JoinedIsSorted(l: seq<real>, h: seq<real>, a: real, b: real)
    requires Sorted(l, RealLe) && Sorted(h, RealLe) && a <= b
    requires (forall x | x in l :: x <= a) && (forall x | x in h :: b <= x)
    ensures Sorted(l + h, RealLe)
  {
    var s := l + h;
    forall i, j | 0 <= i < j < |s| ensures RealLe(s[i], s[j]) {
      if i < |l| <= j {
        assert s[i] in l && s[j] in h;
      } else if j < |l| {
        assert RealLe(l[i], l[j]);
      } else {
        assert RealLe(h[i - |l|], h[j - |l|]);
      }
    }
  }

  lemma LeastFirst(h: seq<real>, b: real)
    requires Sorted(h, RealLe) && b in h && forall x | x in h :: b <= x
    ensures h[0] == b
  {
    var i :| 0 <= i < |h| && h[i] == b;
    assert h[0] in h && (i == 0 || RealLe(h[0], h[i]));
  }

  lemma GreatestLast(l: seq<real>, a: real)
    requires Sorted(l, RealLe) && a in l && forall x | x in l :: x <= a
    ensures l[|l| - 1] == a
  {
    var i :| 0 <= i < |l| && l[i] == a;
    assert l[|l| - 1] in l && (i == |l| - 1 || RealLe(l[i], l[|l| - 1]));
  }

  /** Moving an entry that lies beyond the inner values, on its own side, moves no median. */
  lemma MedianIgnoresFar(
      s: seq<real>, i: nat, y: real, low: seq<real>, high: seq<real>, a: real, b: real)
    requires i < |s| && Halved(s, low, high, a, b)
    requires (s[i] > b && y > b) || (s[i] < a && y < a)
    ensures Median(s[i := y]) == Median(s)
  {
    MedianOfHalves(s, low, high, a, b);
    assert s[i] in multiset(s);
    assert s[i] in multiset(low) || s[i] in multiset(high);
    assert s[i] in low || s[i] in high;
    if s[i] > b {
      var j :| 0 <= j < |high| && high[j] == s[i];
      HighMoved(s, i, y, low, high, a, b, j);
      MedianOfHalves(s[i := y], low, high[j := y], a, b);
    } else {
      var j :| 0 <= j < |low| && low[j] == s[i];
      LowMoved(s, i, y, low, high, a, b, j);
      MedianOfHalves(s[i := y], low[j := y], high, a, b);
    }
  }

  lemma UpdatedMultiset(s: seq<real>, i: nat, y: real)
    requires i < |s|
    ensures multiset(s[i := y]) == multiset(s) - multiset{s[i]} + multiset{y}
  {}

  lemma HighMoved(
      s: seq<real>, i: nat, y: real, low: seq<real>, high: seq<real>, a: real, b: real, j: nat)
    requires i < |s| && Halved(s, low, high, a, b) && j < |high| && high[j] == s[i] && s[i] > b && y > b
    ensures Halved(s[i := y], low, high[j := y], a, b)
  {
    UpdatedMultiset(s, i, y);
    UpdatedMultiset(high, j, y);
    var k :| 0 <= k < |high| && high[k] == b;
    assert high[j := y][k] == b;
    var moved := high[j := y];
    forall x | x in moved ensures b <= x {
      assert x == y || x in high;
    }
  }

  lemma LowMoved(
      s: seq<real>, i: nat, y: real, low: seq<real>, high: seq<real>, a: real, b: real, j: nat)
    requires i < |s| && Halved(s, low, high, a, b) && j < |low| && low[j] == s[i] && s[i] < a && y < a
    ensures Halved(s[i := y], low[j := y], high, a, b)
  {
    UpdatedMultiset(s, i, y);
    UpdatedMultiset(low, j, y);
    if a in low {
      var k :| 0 <= k < |low| && low[k] == a;
      assert low[j := y][k] == a;
    }
    var moved := low[j := y];
    forall x | x in moved ensures x <= a {
      assert x == y || x in low;
    }
  }
}
