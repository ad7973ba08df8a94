/**
 The winner among overlapping season rows: filter the rows that cover a day, sort them in place by
 the program's comparator, take the head.  Which rows cover the day is a parameter here.
 */
module SeasonRates {
  import opened Wrappers
  import opened Calendar
  import opened RateTotals

  datatype SeasonRow = SeasonRow(validFrom: Instant, validTo: Instant, dailyCents: int, priority: int)

  /** The comparator given to `sort`: negative when `x` comes first. */
  function Compare(x: SeasonRow, y: SeasonRow): int {
    if y.priority - x.priority != 0 then y.priority - x.priority else y.dailyCents - x.dailyCents
  }

  /** Inserts `x` behind every row that does not have to come after it: a stable insertion. */
  function Insert(rows: seq<SeasonRow>, x: SeasonRow): (r: seq<SeasonRow>)
    ensures |r| == |rows| + 1
  {
    if rows == [] || Compare(x, rows[|rows| - 1]) >= 0 then rows + [x]
    else Insert(rows[..|rows| - 1], x) + [rows[|rows| - 1]]
  }

  function Sorted(rows: seq<SeasonRow>): (r: seq<SeasonRow>)
    ensures |r| == |rows|
  {
    if rows == [] then [] else Insert(Sorted(rows[..|rows| - 1]), rows[|rows| - 1])
  }

  predicate InOrder(rows: seq<SeasonRow>) {
    forall i, j :: 0 <= i < j < |rows| ==> Compare(rows[i], rows[j]) <= 0
  }

  lemma {:induction false} InsertIsPermutation(rows: seq<SeasonRow>, x: SeasonRow)
    ensures multiset(Insert(rows, x)) == multiset(rows) + multiset{x}
  {
    if rows != [] {
      assert rows == rows[..|rows| - 1] + [rows[|rows| - 1]];
      InsertIsPermutation(rows[..|rows| - 1], x);
    }
  }

  lemma CompareThrough(a: SeasonRow, b: SeasonRow, c: SeasonRow)
    requires a == b || Compare(a, b) <= 0
    requires Compare(c, b) >= 0
    ensures Compare(a, c) <= 0
  {
  }

  /** Inserting into sorted rows splits them where the comparator changes sign. */
  lemma {:induction false} InsertPlace(rows: seq<SeasonRow>, x: SeasonRow) returns (j: nat)
    requires InOrder(rows)
    ensures j <= |rows| && Insert(rows, x) == rows[..j] + [x] + rows[j..]
    ensures forall k :: 0 <= k < j ==> Compare(rows[k], x) <= 0
    ensures forall k :: j <= k < |rows| ==> Compare(x, rows[k]) < 0
  {
    hide Compare;
    if rows == [] || Compare(x, rows[|rows| - 1]) >= 0 {
      j := |rows|;
      forall k | 0 <= k < j ensures Compare(rows[k], x) <= 0 {
        CompareThrough(rows[k], rows[|rows| - 1], x);
      }
    } else {
      var front, last := rows[..|rows| - 1], rows[|rows| - 1];
      j := InsertPlace(front, x);
      assert front[..j] == rows[..j] && front[j..] + [last] == rows[j..];
      assert front[..j] + [x] + front[j..] + [last] == front[..j] + [x] + (front[j..] + [last]);
    }
  }

  lemma InsertKeepsOrder(rows: seq<SeasonRow>, x: SeasonRow)
    requires InOrder(rows)
    ensures InOrder(Insert(rows, x))
  {
    var j := InsertPlace(rows, x);
    var r := Insert(rows, x);
    assert forall k :: 0 <= k < j ==> r[k] == rows[k];
    assert forall k :: j < k < |r| ==> r[k] == rows[k - 1];
  }

  /** `sort` leaves a permutation of the rows, in the order of the comparator. */
  lemma {:induction false} SortedIsOrderedPermutation(rows: seq<SeasonRow>)
    ensures InOrder(Sorted(rows)) && multiset(Sorted(rows)) == multiset(rows)
  {
    if rows != [] {
      var front, last := rows[..|rows| - 1], rows[|rows| - 1];
      SortedIsOrderedPermutation(front);
      InsertKeepsOrder(Sorted(front), last);
      InsertIsPermutation(Sorted(front), last);
      assert rows == front + [last];
    }
  }

  lemma {:induction false} InsertStep(rows: seq<SeasonRow>, x: SeasonRow, j: nat)
    requires j <= |rows|
    requires j == 0 || Compare(x, rows[j - 1]) >= 0
    requires forall k :: j <= k < |rows| ==> Compare(x, rows[k]) < 0
    ensures Insert(rows, x) == rows[..j] + [x] + rows[j..]
  {
    if j == |rows| {
      assert rows[..j] + [x] + rows[j..] == rows + [x];
    } else {
      var front, last := rows[..|rows| - 1], rows[|rows| - 1];
      InsertStep(front, x, j);
      assert front[..j] + [x] + front[j..] + [last] == rows[..j] + [x] + rows[j..];
    }
  }

  /** Moves the row at `i` leftwards to its place among the sorted rows before it: the sort's inner loop. */
  method SiftLeft(a: array<SeasonRow>, i: nat, ghost done: seq<SeasonRow>)
    requires i < a.Length && |done| == i && a[..i] == done
    modifies a
    ensures a[..i + 1] == Insert(done, old(a[i])) && a[i + 1..] == old(a[i + 1..])
  {
    hide Insert, Compare;
    var x := a[i];
    var j := i;
    while j > 0 && Compare(x, a[j - 1]) < 0
      invariant 0 <= j <= i && a[j] == x
      invariant forall k :: 0 <= k < j ==> a[k] == done[k]
      invariant forall k :: j < k <= i ==> a[k] == done[k - 1]
      invariant forall k :: j <= k < i ==> Compare(x, done[k]) < 0
      invariant a[i + 1..] == old(a[i + 1..])
    {
      a[j], a[j - 1] := a[j - 1], x;
      j := j - 1;
    }
    InsertStep(done, x, j);
    assert a[..i + 1] == done[..j] + [x] + done[j..];
  }

  lemma SortedNext(rows: seq<SeasonRow>, i: nat)
    requires i < |rows|
    ensures Sorted(rows[..i + 1]) == Insert(Sorted(rows[..i]), rows[i])
  {
    assert rows[..i + 1][..i] == rows[..i];
  }

  /** `candidates.sort(…)`: sorts the array in place. */
  method SortCandidates(a: array<SeasonRow>)
    modifies a
    ensures a[..] == Sorted(old(a[..]))
  {
    ghost var rows := a[..];
    assert Sorted(rows[..0]) == [];
    hide Sorted, Insert;
    var i := 0;
    while i < a.Length
      invariant 0 <= i <= a.Length
      invariant a[..i] == Sorted(rows[..i]) && a[i..] == rows[i..]
    {
      SortedNext(rows, i);
      assert a[i] == rows[i];
      SiftLeft(a, i, Sorted(rows[..i]));
      i := i + 1;
    }
    assert rows[..i] == rows && a[..i] == a[..];
  }

  function Candidates(seasons: seq<SeasonRow>, covers: SeasonRow -> bool): seq<SeasonRow> {
    if seasons == [] then []
    else
      Candidates(seasons[..|seasons| - 1], covers)
      + (if covers(seasons[|seasons| - 1]) then [seasons[|seasons| - 1]] else [])
  }

  lemma {:induction false} CandidatesAppend(a: seq<SeasonRow>, b: seq<SeasonRow>, covers: SeasonRow -> bool)
    ensures Candidates(a + b, covers) == Candidates(a, covers) + Candidates(b, covers)
    decreases |b|
  {
    if b == [] {
      assert a + b == a;
    } else {
      assert (a + b)[..|a + b| - 1] == a + b[..|b| - 1];
      CandidatesAppend(a, b[..|b| - 1], covers);
    }
  }

  /** Filtering keeps each covering row where it is among the others, and nothing else. */
  lemma FilterKeepsPlaces(a: seq<SeasonRow>, s: SeasonRow, b: seq<SeasonRow>, covers: SeasonRow -> bool)
    ensures Candidates([], covers) == []
    ensures Candidates(a + [s] + b, covers)
            == Candidates(a, covers) + (if covers(s) then [s] else []) + Candidates(b, covers)
  {
    CandidatesAppend(a + [s], b, covers);
    CandidatesAppend(a, [s], covers);
    assert [s][..0] == [];
  }

  /** The rows that the comparator does not tell from `key`. */
  function Ties(key: SeasonRow): SeasonRow -> bool {
    (s: SeasonRow) => Compare(key, s) == 0
  }

  lemma {:induction false} NoTies(rows: seq<SeasonRow>, key: SeasonRow)
    requires forall k :: 0 <= k < |rows| ==> Compare(key, rows[k]) != 0
    ensures Candidates(rows, Ties(key)) == []
  {
    if rows != [] {
      NoTies(rows[..|rows| - 1], key);
    }
  }

  lemma InsertIsStable(rows: seq<SeasonRow>, x: SeasonRow, key: SeasonRow)
    requires InOrder(rows)
    ensures Candidates(Insert(rows, x), Ties(key)) == Candidates(rows, Ties(key)) + (if Ties(key)(x) then [x] else [])
  {
    var j := InsertPlace(rows, x);
    if Ties(key)(x) {
      LaterDoNotTie(rows, x, key, j);
    }
    hide Compare, Insert, InOrder, Ties;
    SplitFilter(rows, x, j, Ties(key));
    hide Candidates;
  }

  lemma SplitFilter(rows: seq<SeasonRow>, x: SeasonRow, j: nat, covers: SeasonRow -> bool)
    requires j <= |rows|
    ensures Candidates(rows, covers) == Candidates(rows[..j], covers) + Candidates(rows[j..], covers)
    ensures Candidates(rows[..j] + [x] + rows[j..], covers)
            == Candidates(rows[..j], covers) + (if covers(x) then [x] else []) + Candidates(rows[j..], covers)
  {
    hide Candidates;
    FilterKeepsPlaces(rows[..j], x, rows[j..], covers);
    CandidatesAppend(rows[..j], rows[j..], covers);
    assert rows == rows[..j] + rows[j..];
  }

  lemma LaterDoNotTie(rows: seq<SeasonRow>, x: SeasonRow, key: SeasonRow, j: nat)
    requires j <= |rows| && Compare(key, x) == 0 && forall k :: j <= k < |rows| ==> Compare(x, rows[k]) < 0
    ensures Candidates(rows[j..], Ties(key)) == []
  {
    forall k | 0 <= k < |rows| - j ensures Compare(key, rows[j..][k]) != 0 {
      TieThrough(key, x, rows[j + k]);
    }
    NoTies(rows[j..], key);
  }

  lemma TieThrough(key: SeasonRow, x: SeasonRow, s: SeasonRow)
    requires Compare(key, x) == 0
    ensures Compare(key, s) == Compare(x, s)
  {
  }

  /** The sort is stable: rows that tie stay in the order in which they came. */
  lemma {:induction false} SortIsStable(rows: seq<SeasonRow>, key: SeasonRow)
    ensures Candidates(Sorted(rows), Ties(key)) == Candidates(rows, Ties(key))
  {
    if rows != [] {
      var front := rows[..|rows| - 1];
      SortedIsOrderedPermutation(front);
      SortIsStable(front, key);
      InsertIsStable(Sorted(front), rows[|rows| - 1], key);
    }
  }

  lemma {:induction false} CandidateMembers(seasons: seq<SeasonRow>, covers: SeasonRow -> bool, s: SeasonRow)
    ensures s in Candidates(seasons, covers) <==> s in seasons && covers(s)
  {
    if seasons != [] {
      CandidateMembers(seasons[..|seasons| - 1], covers, s);
      assert seasons == seasons[..|seasons| - 1] + [seasons[|seasons| - 1]];
    }
  }

  /** `seasons.filter(…)`. */
  method FilterCandidates(seasons: seq<SeasonRow>, covers: SeasonRow -> bool) returns (candidates: array<SeasonRow>)
    ensures fresh(candidates) && candidates[..] == Candidates(seasons, covers)
  {
    var kept: seq<SeasonRow> := [];
    for k := 0 to |seasons|
      invariant kept == Candidates(seasons[..k], covers)
    {
      assert seasons[..k + 1][..k] == seasons[..k];
      if covers(seasons[k]) {
        kept := kept + [seasons[k]];
      }
    }
    assert seasons[..|seasons|] == seasons;
    candidates := new SeasonRow[|kept|](k requires 0 <= k < |kept| => kept[k]);
  }

  /** The price of a day: the head of the sorted candidates, else the default. */
  function RateOf(default: Option<int>, seasons: seq<SeasonRow>, covers: SeasonRow -> bool): Option<int> {
    var candidates := Sorted(Candidates(seasons, covers));
    if |candidates| > 0 then Some(candidates[0].dailyCents) else default
  }

  /** Row `s` covers the day and no covering row has a higher (priority, daily price). */
  ghost predicate Wins(seasons: seq<SeasonRow>, covers: SeasonRow -> bool, s: SeasonRow) {
    s in seasons && covers(s)
    && forall q :: q in seasons && covers(q) ==>
         q.priority < s.priority || (q.priority == s.priority && q.dailyCents <= s.dailyCents)
  }

  /** What the price of a day should be, with no sorting: that of a winning row, else the default. */
  ghost predicate IsRate(default: Option<int>, seasons: seq<SeasonRow>, covers: SeasonRow -> bool, rate: Option<int>) {
    (exists s :: Wins(seasons, covers, s) && rate == Some(s.dailyCents))
    || ((forall s :: s in seasons ==> !covers(s)) && rate == default)
  }

  lemma HeadWins(seasons: seq<SeasonRow>, covers: SeasonRow -> bool)
    requires Candidates(seasons, covers) != []
    ensures Wins(seasons, covers, Sorted(Candidates(seasons, covers))[0])
  {
    var found := Candidates(seasons, covers);
    var ranked := Sorted(found);
    SortedIsOrderedPermutation(found);
    var head := ranked[0];
    assert head in multiset(ranked) && head in found;
    CandidateMembers(seasons, covers, head);
    forall q | q in seasons && covers(q)
      ensures q.priority < head.priority || (q.priority == head.priority && q.dailyCents <= head.dailyCents)
    {
      CandidateMembers(seasons, covers, q);
      assert q in multiset(found) && q in multiset(ranked);
      var k :| 0 <= k < |ranked| && ranked[k] == q;
      assert k > 0 ==> Compare(ranked[0], ranked[k]) <= 0;
    }
  }

  /** The sorted head has the right price, and no other price is right. */
  lemma RateOfIsTheRate(default: Option<int>, seasons: seq<SeasonRow>, covers: SeasonRow -> bool, rate: Option<int>)
    ensures IsRate(default, seasons, covers, rate) <==> rate == RateOf(default, seasons, covers)
  {
    if Candidates(seasons, covers) != [] {
      HeadWins(seasons, covers);
    } else {
      forall s | s in seasons ensures !covers(s) {
        CandidateMembers(seasons, covers, s);
      }
    }
  }

  /** Tests that agree on the rows give the same price. */
  lemma {:induction false} SameCandidates(seasons: seq<SeasonRow>, c: SeasonRow -> bool, c': SeasonRow -> bool)
    requires forall i :: 0 <= i < |seasons| ==> c(seasons[i]) == c'(seasons[i])
    ensures Candidates(seasons, c) == Candidates(seasons, c')
  {
    if seasons != [] {
      SameCandidates(seasons[..|seasons| - 1], c, c');
    }
  }

  /** Only which rows there are matters for a day's price, not their order or repetition. */
  lemma RateIgnoresOrder(default: Option<int>, a: seq<SeasonRow>, b: seq<SeasonRow>, covers: SeasonRow -> bool)
    requires forall s :: s in a <==> s in b
    ensures RateOf(default, a, covers) == RateOf(default, b, covers)
  {
    var rate := RateOf(default, a, covers);
    RateOfIsTheRate(default, a, covers, rate);
    RateOfIsTheRate(default, b, covers, rate);
    if s :| Wins(a, covers, s) && rate == Some(s.dailyCents) {
      assert Wins(b, covers, s);
    }
  }

  /** A row of higher priority than all others sets the price of the days it covers, and of no other day. */
  lemma OverrideRate(default: Option<int>, seasons: seq<SeasonRow>, row: SeasonRow, covers: SeasonRow -> bool)
    requires forall s :: s in seasons ==> s.priority < row.priority
    ensures RateOf(default, seasons + [row], covers)
            == if covers(row) then Some(row.dailyCents) else RateOf(default, seasons, covers)
  {
    var all := seasons + [row];
    assert all[..|all| - 1] == seasons;
    if covers(row) {
      assert Wins(all, covers, row);
      RateOfIsTheRate(default, all, covers, Some(row.dailyCents));
    } else {
      assert Candidates(all, covers) == Candidates(seasons, covers);
    }
  }

  /** Row for row, `b` covers the day when `a` does, with the same priority and no lower a price. */
  predicate DearerOn(a: seq<SeasonRow>, b: seq<SeasonRow>, covers: SeasonRow -> bool) {
    |a| == |b|
    && forall i :: 0 <= i < |a| ==>
         covers(b[i]) == covers(a[i]) && b[i].priority == a[i].priority && b[i].dailyCents >= a[i].dailyCents
  }

  lemma WinnersRise(a: seq<SeasonRow>, b: seq<SeasonRow>, covers: SeasonRow -> bool, s: SeasonRow, t: SeasonRow)
    requires DearerOn(a, b, covers) && Wins(a, covers, s) && Wins(b, covers, t)
    ensures s.dailyCents <= t.dailyCents
  {
    var k :| 0 <= k < |a| && a[k] == s;
    var m :| 0 <= m < |b| && b[m] == t;
    assert b[k] in b && covers(b[k]) && a[m] in a && covers(a[m]);
  }

  /** Raising daily prices does not lower the price of a day. */
  lemma RaisedRate(a: seq<SeasonRow>, b: seq<SeasonRow>, d: Option<int>, d': Option<int>, covers: SeasonRow -> bool)
    requires DearerOn(a, b, covers) && AtMost(d, d')
    ensures AtMost(RateOf(d, a, covers), RateOf(d', b, covers))
  {
    if i :| 0 <= i < |a| && covers(a[i]) {
      assert a[i] in a && b[i] in b && covers(b[i]);
      CandidateMembers(a, covers, a[i]);
      CandidateMembers(b, covers, b[i]);
      HeadWins(a, covers);
      HeadWins(b, covers);
      WinnersRise(a, b, covers, Sorted(Candidates(a, covers))[0], Sorted(Candidates(b, covers))[0]);
    } else {
      forall s | s in a ensures !covers(s) {
        var k :| 0 <= k < |a| && a[k] == s;
      }
      forall s | s in b ensures !covers(s) {
        var k :| 0 <= k < |b| && b[k] == s;
        assert !covers(a[k]);
      }
      RateOfIsTheRate(d, a, covers, d);
      RateOfIsTheRate(d', b, covers, d');
    }
  }
}
