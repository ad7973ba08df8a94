/** Adding up the prices of consecutive days, where a single missing price leaves no total. */
module RateTotals {
  import opened Wrappers

  type Rate = Option<int>

  function Plus(a: Rate, b: Rate): Rate {
    if a == None || b == None then None else Some(a.value + b.value)
  }

  function Total(rates: seq<Rate>): Rate {
    if rates == [] then Some(0) else Plus(Total(rates[..|rates| - 1]), rates[|rates| - 1])
  }

  lemma TotalNext(rates: seq<Rate>, i: nat)
    requires i < |rates|
    ensures Total(rates[..i + 1]) == Plus(Total(rates[..i]), rates[i])
  {
    assert rates[..i + 1][..i] == rates[..i];
  }

  lemma {:induction false} TotalSplits(a: seq<Rate>, b: seq<Rate>)
    ensures Total(a + b) == Plus(Total(a), Total(b))
  {
    if b == [] {
      assert a + b == a;
    } else {
      assert (a + b)[..|a + b| - 1] == a + b[..|b| - 1];
      TotalSplits(a, b[..|b| - 1]);
    }
  }

  lemma {:induction false} TotalNullExactly(rates: seq<Rate>)
    ensures Total(rates) == None <==> None in rates
  {
    if rates != [] {
      TotalNullExactly(rates[..|rates| - 1]);
      assert rates == rates[..|rates| - 1] + [rates[|rates| - 1]];
    }
  }

  predicate Within(rates: seq<Rate>, lo: int, hi: int) {
    forall i :: 0 <= i < |rates| && rates[i].Some? ==> lo <= rates[i].value <= hi
  }

  lemma {:induction false} TotalBounds(rates: seq<Rate>, lo: int, hi: int)
    requires Total(rates).Some? && Within(rates, lo, hi)
    ensures |rates| * lo <= Total(rates).value <= |rates| * hi
  {
    if rates != [] {
      var n := |rates| - 1;
      TotalBounds(rates[..n], lo, hi);
      assert |rates| * lo == n * lo + lo && |rates| * hi == n * hi + hi;
    }
  }

  /** What replacing some prices adds: the sum of the differences. */
  function Gain(before: seq<Rate>, after: seq<Rate>): int
    requires |before| == |after|
  {
    if before == [] then 0
    else
      var n := |before| - 1;
      Gain(before[..n], after[..n])
      + (if before[n].Some? && after[n].Some? then after[n].value - before[n].value else 0)
  }

  lemma {:induction false} TotalGains(before: seq<Rate>, after: seq<Rate>)
    requires |before| == |after| && Total(before).Some?
    requires forall i :: 0 <= i < |after| ==> before[i].Some? ==> after[i].Some?
    ensures Total(after) == Some(Total(before).value + Gain(before, after))
  {
    if before != [] {
      TotalGains(before[..|before| - 1], after[..|before| - 1]);
    }
  }

  predicate AtMost(x: Rate, y: Rate) {
    (x.Some? <==> y.Some?) && (x.Some? ==> x.value <= y.value)
  }

  lemma {:induction false} TotalMonotone(a: seq<Rate>, b: seq<Rate>)
    requires |a| == |b| && forall i :: 0 <= i < |a| ==> AtMost(a[i], b[i])
    ensures AtMost(Total(a), Total(b))
  {
    if a != [] {
      TotalMonotone(a[..|a| - 1], b[..|b| - 1]);
    }
  }
}
