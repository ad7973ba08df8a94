/**
 How often a row can be claimed.

 A worker writes back the attempt count it read before its claim, so with several workers the
 count of a row can fall (see ProtocolCounts) and does not by itself bound the number of claims.
 What bounds it is a potential: a sum over the workers of powers of their number plus one.
 */
module ProtocolTermination {
  import opened Submissions
  import opened WorkerProtocol

  function Pow(b: nat, e: nat): (r: nat)
    requires b > 0
    ensures r >= 1
  {
    if e == 0 then 1 else b * Pow(b, e - 1)
  }

  lemma {:induction false} PowMonotone(b: nat, d: nat, e: nat)
    requires b > 0 && d <= e
    ensures Pow(b, d) <= Pow(b, e)
    decreases e
  {
    if d < e {
      PowMonotone(b, d, e - 1);
      assert b * Pow(b, e - 1) >= Pow(b, e - 1);
    }
  }

  /** Attempts that remain at count `n`. */
  function Left(c: Config, n: nat): nat {
    if n < c.maxAttempts then c.maxAttempts - n else 0
  }

  /** The least count that worker `w` may still write over: the row's, or an older one that it holds. */
  function Floor(s: System, id: nat, w: nat): nat
    requires id < |s.rows| && w < |s.agents|
  {
    var here, agent := s.rows[id].attemptCount, s.agents[w];
    if (agent.Chose? || agent.Holding?) && agent.id == id && agent.count < here then agent.count else here
  }

  function Weight(c: Config, s: System, id: nat, w: nat): nat
    requires id < |s.rows| && w < |s.agents|
  {
    Pow(|s.agents| + 1, Left(c, Floor(s, id, w)))
  }

  /** The weights of the first `n` workers. */
  function Weights(c: Config, s: System, id: nat, n: nat): nat
    requires id < |s.rows| && n <= |s.agents|
  {
    if n == 0 then 0 else Weights(c, s, id, n - 1) + Weight(c, s, id, n - 1)
  }

  /** The potential of a row; a row not enqueued yet has that of a fresh one. */
  function Potential(c: Config, s: System, id: nat): nat {
    if id < |s.rows| then
      Weights(c, s, id, |s.agents|) + (if s.rows[id].status == PENDING then 1 else 0)
    else
      |s.agents| * Pow(|s.agents| + 1, c.maxAttempts) + 1
  }

  /** If no worker sees more attempts left, the weights do not rise. */
  lemma {:induction false} WeightsFall(c: Config, s: System, t: System, id: nat, n: nat)
    requires id < |s.rows| && id < |t.rows| && |s.agents| == |t.agents| && n <= |s.agents|
    requires forall w :: 0 <= w < n ==> Left(c, Floor(t, id, w)) <= Left(c, Floor(s, id, w))
    ensures Weights(c, t, id, n) <= Weights(c, s, id, n)
  {
    if n > 0 {
      WeightsFall(c, s, t, id, n - 1);
      PowMonotone(|s.agents| + 1, Left(c, Floor(t, id, n - 1)), Left(c, Floor(s, id, n - 1)));
    }
  }

  /**
   Worker `w` steps down from weight at least B*x to at most x, where B is the number of workers plus
   one, and nobody else gains more than x.
   */
  lemma {:induction false} WeightsTrade(c: Config, s: System, t: System, id: nat, n: nat, w: nat, x: nat)
    requires id < |s.rows| && id < |t.rows| && |s.agents| == |t.agents| && n <= |s.agents| && w < |s.agents|
    requires forall v :: 0 <= v < n && v != w ==> Weight(c, t, id, v) <= Weight(c, s, id, v) + x
    requires Weight(c, s, id, w) >= (|s.agents| + 1) * x && Weight(c, t, id, w) <= x
    ensures Weights(c, t, id, n) + (if w < n then (|s.agents| + 1) * x else 0) <= Weights(c, s, id, n) + n * x
  {
    if n > 0 {
      WeightsTrade(c, s, t, id, n - 1, w, x);
      assert n * x == (n - 1) * x + x;
    }
  }

  /** After row `id` is given count `n`, a worker that was not involved gains at most the weight of `n`. */
  lemma BystanderWeight(c: Config, s: System, t: System, id: nat, u: nat, n: nat)
    requires id < |s.rows| && id < |t.rows| && u < |s.agents| == |t.agents| && s.agents[u] == t.agents[u]
    requires t.rows[id].attemptCount == n
    ensures Weight(c, t, id, u) <= Weight(c, s, id, u) + Pow(|s.agents| + 1, Left(c, n))
  {
    var b := |s.agents| + 1;
    if Floor(t, id, u) < n {
      PowMonotone(b, Left(c, Floor(t, id, u)), Left(c, Floor(s, id, u)));
    } else {
      PowMonotone(b, Left(c, Floor(t, id, u)), Left(c, n));
    }
  }

  /** The worker that requeues a row goes from weight at least B*x to exactly x. */
  lemma RequeuerWeight(c: Config, s: System, t: System, w: nat, id: nat, count: nat)
    requires w < |s.agents| == |t.agents| && id < |s.rows| && id < |t.rows|
    requires s.agents[w].Holding? && s.agents[w].id == id && s.agents[w].count == count
    requires count + 1 < c.maxAttempts && t.rows[id].attemptCount == count + 1 && t.agents[w] == Idle
    ensures Weight(c, t, id, w) == Pow(|s.agents| + 1, Left(c, count + 1))
    ensures Weight(c, s, id, w) >= (|s.agents| + 1) * Pow(|s.agents| + 1, Left(c, count + 1))
  {
    PowMonotone(|s.agents| + 1, Left(c, count), Left(c, Floor(s, id, w)));
    assert Left(c, count) == Left(c, count + 1) + 1;
  }

  /** A requeue writes count `n + 1` from a worker that read `n`: the weights fall, whatever the row's count was. */
  lemma RequeueLowersWeights(c: Config, s: System, t: System, w: nat, id: nat, count: nat)
    requires w < |s.agents| == |t.agents| && id < |s.rows| && id < |t.rows|
    requires s.agents[w].Holding? && s.agents[w].id == id && s.agents[w].count == count
    requires count + 1 < c.maxAttempts && t.rows[id].attemptCount == count + 1
    requires t.agents == s.agents[w := Idle]
    ensures Weights(c, t, id, |s.agents|) < Weights(c, s, id, |s.agents|)
  {
    hide Weights, Weight, Floor, Left, Pow;
    var n := |s.agents|;
    var x := Pow(n + 1, Left(c, count + 1));
    RequeuerWeight(c, s, t, w, id, count);
    forall u | 0 <= u < n && u != w ensures Weight(c, t, id, u) <= Weight(c, s, id, u) + x {
      BystanderWeight(c, s, t, id, u, count + 1);
    }
    WeightsTrade(c, s, t, id, n, w, x);
    assert (n + 1) * x == n * x + x;
  }

  /** What one action may add to the potential of a row: only a stale reset of that row adds, and only one. */
  ghost predicate Recovers(s: System, a: Action, id: nat) {
    a.Recover? && a.w < |s.agents| && s.agents[a.w].Starting? && id < |s.rows|
    && s.rows[id].status == PROCESSING && s.rows[id].updatedAt < s.agents[a.w].deadline
  }

  /** No action but a requeue of row `id` lets any worker see more attempts left for it. */
  lemma LeftFalls(c: Config, s: System, a: Action, id: nat, w: nat)
    requires WellFormed(s) && Enabled(s, a) && id < |s.rows| && w < |s.agents|
    requires a.Settle? && s.agents[a.w].id == id ==> !Requeues(a.verdict, s.agents[a.w].count, c.maxAttempts)
    ensures Left(c, Floor(Apply(c, s, a), id, w)) <= Left(c, Floor(s, id, w))
  {
  }

  /** The potential of an enqueued row across one action. */
  lemma PotentialStep(c: Config, s: System, a: Action, id: nat)
    requires WellFormed(s) && Enabled(s, a) && id < |s.rows|
    ensures Potential(c, Apply(c, s, a), id) + (if Claims(s, a, id) then 1 else 0)
            <= Potential(c, s, id) + (if Recovers(s, a, id) then 1 else 0)
  {
    var t := Apply(c, s, a);
    if a.Settle? && s.agents[a.w].id == id && Requeues(a.verdict, s.agents[a.w].count, c.maxAttempts) {
      RequeueLowersWeights(c, s, t, a.w, id, s.agents[a.w].count);
    } else {
      forall w | 0 <= w < |s.agents| ensures Left(c, Floor(t, id, w)) <= Left(c, Floor(s, id, w)) {
        LeftFalls(c, s, a, id, w);
      }
      WeightsFall(c, s, t, id, |s.agents|);
    }
  }

  lemma {:induction false} UniformWeights(c: Config, s: System, id: nat, n: nat, x: nat)
    requires id < |s.rows| && n <= |s.agents|
    requires forall w :: 0 <= w < n ==> Weight(c, s, id, w) == x
    ensures Weights(c, s, id, n) == n * x
  {
    if n > 0 {
      UniformWeights(c, s, id, n - 1, x);
      assert n * x == (n - 1) * x + x;
    }
  }

  /** A fresh row starts with the potential that was set aside for it. */
  lemma PotentialOfFresh(c: Config, s: System, a: Action, id: nat)
    requires WellFormed(s) && Enabled(s, a) && id >= |s.rows|
    ensures Potential(c, Apply(c, s, a), id) == Potential(c, s, id)
  {
    var t := Apply(c, s, a);
    if id < |t.rows| {
      forall w | 0 <= w < |t.agents| ensures Weight(c, t, id, w) == Pow(|s.agents| + 1, c.maxAttempts) {
      }
      UniformWeights(c, t, id, |t.agents|, Pow(|s.agents| + 1, c.maxAttempts));
    }
  }

  /** How often row `id` is claimed in a run. */
  ghost function ClaimCount(c: Config, s: System, run: seq<Action>, id: nat): nat
    requires WellFormed(s) && Run(c, s, run)
    decreases run
  {
    if run == [] then 0
    else (if Claims(s, run[0], id) then 1 else 0) + ClaimCount(c, Apply(c, s, run[0]), run[1..], id)
  }

  /** How often a stale reset returns row `id` to PENDING in a run. */
  ghost function RecoverCount(c: Config, s: System, run: seq<Action>, id: nat): nat
    requires WellFormed(s) && Run(c, s, run)
    decreases run
  {
    if run == [] then 0
    else (if Recovers(s, run[0], id) then 1 else 0) + RecoverCount(c, Apply(c, s, run[0]), run[1..], id)
  }

  /**
   For every run, whatever the interleaving, the verdicts and the crashes: each claim of a row is
   paid for by its potential or by a stale reset of that row.
   */
  lemma {:induction false} ClaimsArePaidFor(c: Config, s: System, run: seq<Action>, id: nat)
    requires WellFormed(s) && Run(c, s, run)
    ensures ClaimCount(c, s, run, id) + Potential(c, After(c, s, run), id)
            <= Potential(c, s, id) + RecoverCount(c, s, run, id)
    decreases run
  {
    if run != [] {
      hide Potential;
      if id < |s.rows| {
        PotentialStep(c, s, run[0], id);
      } else {
        PotentialOfFresh(c, s, run[0], id);
      }
      ClaimsArePaidFor(c, Apply(c, s, run[0]), run[1..], id);
    }
  }

  lemma {:induction false} WeightsPositive(c: Config, s: System, id: nat, n: nat)
    requires id < |s.rows| && n <= |s.agents|
    ensures Weights(c, s, id, n) >= n
  {
    if n > 0 {
      WeightsPositive(c, s, id, n - 1);
    }
  }

  lemma {:induction false} NoRecoveries(c: Config, s: System, run: seq<Action>, id: nat)
    requires WellFormed(s) && Run(c, s, run) && CrashFree(run)
    ensures RecoverCount(c, s, run, id) == 0
    decreases run
  {
    if run != [] {
      assert !run[0].Recover?;
      assert CrashFree(run[1..]) by {
        forall i | 0 <= i < |run| - 1 ensures run[1..][i] == run[i + 1] {
        }
      }
      NoRecoveries(c, Apply(c, s, run[0]), run[1..], id);
    }
  }

  /** With W crash-free workers, a row enqueued during the run is claimed at most W * (W + 1)^maxAttempts times. */
  lemma ClaimsOfFreshRow(c: Config, s: System, run: seq<Action>, id: nat)
    requires WellFormed(s) && Run(c, s, run) && CrashFree(run) && |s.agents| > 0
    requires |s.rows| <= id
    ensures ClaimCount(c, s, run, id) <= |s.agents| * Pow(|s.agents| + 1, c.maxAttempts)
  {
    var t := After(c, s, run);
    ClaimsArePaidFor(c, s, run, id);
    NoRecoveries(c, s, run, id);
    if id < |t.rows| {
      WeightsPositive(c, t, id, |t.agents|);
    }
  }
}
