/** The throttled calls that the idle loop makes to the API's cron routes. */
module CronTriggers {
  import opened Wrappers
  import opened Text
  import opened Times

  /** One trigger: its interval in milliseconds and the secret in the environment. */
  datatype Trigger = Trigger(interval: nat, secret: Option<string>)

  predicate Armed(tr: Trigger) {
    tr.interval >= 1 && tr.secret.Some? && |Trim(tr.secret.value)| >= 16
  }

  /** Whether a check at `now` fires, when the last firing was at `last`. */
  predicate Fires(tr: Trigger, last: int, now: int) {
    Armed(tr) && now - last >= tr.interval
  }

  /** A check fires with an interval, a secret of 16 characters between white space, and an interval gone by; never without. */
  lemma FiresExactly(interval: nat, a: string, secret: string, b: string, last: int, now: int)
    requires AllSpace(a) && AllSpace(b) && Trimmed(secret)
    ensures Fires(Trigger(interval, Some(a + secret + b)), last, now) <==>
            interval >= 1 && |secret| >= 16 && now >= last + interval
    ensures !Fires(Trigger(interval, None), last, now)
  {
    TrimOf(a, secret, b);
  }

  /** The firings among a sequence of checks. */
  function Firings(tr: Trigger, last: int, checks: seq<int>): seq<int>
    decreases checks
  {
    if checks == [] then []
    else if Fires(tr, last, checks[0]) then [checks[0]] + Firings(tr, checks[0], checks[1..])
    else Firings(tr, last, checks[1..])
  }

  /** The time of the last firing after a sequence of checks. */
  function LastFiring(tr: Trigger, last: int, checks: seq<int>): int
    decreases checks
  {
    if checks == [] then last
    else LastFiring(tr, if Fires(tr, last, checks[0]) then checks[0] else last, checks[1..])
  }

  lemma FiringsOfOne(tr: Trigger, last: int, check: int)
    ensures LastFiring(tr, last, [check]) == if Fires(tr, last, check) then check else last
    ensures Firings(tr, last, [check]) == if Fires(tr, last, check) then [check] else []
  {
    assert [check][1..] == [];
    assert Firings(tr, check, []) == [] && Firings(tr, last, []) == [];
  }

  lemma FiringsOfNone()
    ensures forall tr, last :: Firings(tr, last, []) == []
  {
  }

  /** Checks made one batch after the other fire as one sequence of checks. */
  lemma FiringsOfFirst(tr: Trigger, last: int, check: int, rest: seq<int>)
    ensures Firings(tr, last, [check] + rest)
            == Firings(tr, last, [check]) + Firings(tr, LastFiring(tr, last, [check]), rest)
  {
    assert ([check] + rest)[1..] == rest && [check][1..] == [];
  }

  /** Times at least `gap` apart, the first at least `gap` after `last`. */
  predicate Spaced(last: int, times: seq<int>, gap: nat) {
    (times != [] ==> times[0] - last >= gap) && forall i :: 0 < i < |times| ==> times[i] - times[i - 1] >= gap
  }

  /** Two firings of a trigger are at least its interval apart, whatever the clock does. */
  lemma {:induction false} FiringsAreSpaced(tr: Trigger, last: int, checks: seq<int>)
    ensures Spaced(last, Firings(tr, last, checks), tr.interval)
    ensures Firings(tr, last, checks) != [] ==> Armed(tr)
    decreases checks
  {
    if checks != [] {
      FiringsAreSpaced(tr, if Fires(tr, last, checks[0]) then checks[0] else last, checks[1..]);
    }
  }

  /** How many of the times lie in a closed window. */
  function CountWithin(times: seq<int>, lo: int, hi: int): nat {
    if times == [] then 0
    else CountWithin(times[..|times| - 1], lo, hi) + (if lo <= times[|times| - 1] <= hi then 1 else 0)
  }

  /** Spaced times in a window: `n` of them need a window of length (n - 1) * gap. */
  lemma {:induction false} SpacedCount(last: int, times: seq<int>, gap: nat, lo: int, hi: int)
    requires gap > 0 && Spaced(last, times, gap) && lo <= hi
    ensures var n := CountWithin(times, lo, hi);
            n == 0 || (times != [] && lo + (n - 1) * gap <= times[|times| - 1] && lo + (n - 1) * gap <= hi)
  {
    if times != [] {
      var m := |times| - 1;
      var front, t := times[..m], times[m];
      SpacedCount(last, front, gap, lo, hi);
      var n := CountWithin(front, lo, hi);
      if m > 0 {
        assert t - front[m - 1] >= gap;
        if lo <= t <= hi && n > 0 {
          assert n * gap == (n - 1) * gap + gap;
        }
      }
    }
  }

  /** Any closed window of length `length` holds at most length / interval + 1 firings. */
  lemma WindowBound(tr: Trigger, last: int, checks: seq<int>, lo: int, length: nat)
    requires tr.interval > 0
    ensures CountWithin(Firings(tr, last, checks), lo, lo + length) <= length / tr.interval + 1
  {
    var times := Firings(tr, last, checks);
    FiringsAreSpaced(tr, last, checks);
    SpacedCount(last, times, tr.interval, lo, lo + length);
    var n := CountWithin(times, lo, lo + length);
    if n > 0 {
      QuotientBound(n - 1, tr.interval, length);
    }
  }

  lemma QuotientBound(k: nat, gap: nat, length: nat)
    requires gap > 0 && k * gap <= length
    ensures k <= length / gap
  {
    var q := length / gap;
    assert length < (q + 1) * gap;
  }

  /** An armed trigger is never late: a check that does not fire has a firing less than an interval before it. */
  lemma {:induction false} NeverStarved(tr: Trigger, last: int, checks: seq<int>, i: nat)
    requires Armed(tr) && Ascending(checks) && i < |checks|
    ensures checks[i] - last < tr.interval
            || exists f :: f in Firings(tr, last, checks) && f <= checks[i] < f + tr.interval
    decreases checks
  {
    var rest := checks[1..];
    var fired := Fires(tr, last, checks[0]);
    if i == 0 {
      if fired {
        assert checks[0] in Firings(tr, last, checks);
      }
    } else {
      var from := if fired then checks[0] else last;
      NeverStarved(tr, from, rest, i - 1);
      if f :| f in Firings(tr, from, rest) && f <= rest[i - 1] < f + tr.interval {
        assert f in Firings(tr, last, checks);
      } else {
        assert fired ==> checks[0] in Firings(tr, last, checks) && checks[0] <= checks[i];
      }
    }
  }
}
