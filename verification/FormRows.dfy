/**
 Reading the rows of a form: blank rows are left out, every other row is read, and the first row that
 cannot be read decides.  Which rows are blank and how one is read are parameters, and so is
 what a row is worth where rows are added up.
 */
module FormRows {
  import opened Wrappers

  function ReadAll<F, I, E>(rows: seq<F>, blank: F -> bool, read: F -> Result<I, E>): Result<seq<I>, E> {
    if rows == [] then Ok([])
    else
      var front, last := ReadAll(rows[..|rows| - 1], blank, read), rows[|rows| - 1];
      if front.Err? || blank(last) then front
      else match read(last)
        case Err(e) => Err(e)
        case Ok(item) => Ok(front.value + [item])
  }

  /** How many rows are not blank. */
  function Shown<F>(rows: seq<F>, blank: F -> bool): nat {
    if rows == [] then 0 else Shown(rows[..|rows| - 1], blank) + (if blank(rows[|rows| - 1]) then 0 else 1)
  }

  lemma {:induction false} ErrorDecides<F, I, E>(rows: seq<F>, blank: F -> bool, read: F -> Result<I, E>, k: nat)
    requires k <= |rows| && ReadAll(rows[..k], blank, read).Err?
    ensures ReadAll(rows, blank, read) == ReadAll(rows[..k], blank, read)
    decreases |rows|
  {
    if k == |rows| {
      assert rows[..k] == rows;
    } else {
      var front := rows[..|rows| - 1];
      assert front[..k] == rows[..k];
      ErrorDecides(front, blank, read, k);
    }
  }

  /** A blank row may stand anywhere without making a difference. */
  lemma {:induction false} BlankDropsOut<F, I, E>(
    a: seq<F>, x: F, b: seq<F>, blank: F -> bool, read: F -> Result<I, E>)
    requires blank(x)
    ensures ReadAll(a + [x] + b, blank, read) == ReadAll(a + b, blank, read)
    decreases |b|
  {
    if b == [] {
      assert a + [x] + b == a + [x] && (a + [x])[..|a|] == a && a + b == a;
    } else {
      var front := b[..|b| - 1];
      assert (a + [x] + b)[..|a + [x] + b| - 1] == a + [x] + front;
      assert (a + b)[..|a + b| - 1] == a + front;
      BlankDropsOut(a, x, front, blank, read);
    }
  }

  // ---------------------------------------------------------------- which items, and in which order

  /** Row `k`, if it is not blank, has its item: as many come before it as rows that are not blank. */
  predicate HasItem<F, I>(rows: seq<F>, items: seq<I>, empty: F -> bool, from: (F, I) -> bool, k: nat)
    requires k < |rows|
  {
    empty(rows[k])
    || (Shown(rows[..k], empty) < |items| && from(rows[k], items[Shown(rows[..k], empty)]))
  }

  /** One item for each row that is not blank, in their order, each in the given relation to its row. */
  predicate Matches<F, I>(rows: seq<F>, items: seq<I>, empty: F -> bool, from: (F, I) -> bool) {
    |items| == Shown(rows, empty) && forall k :: 0 <= k < |rows| ==> HasItem(rows, items, empty, from, k)
  }

  /** The relation is what reading establishes. */
  ghost predicate Reads<F(!new), I(!new), E>(
    blank: F -> bool, read: F -> Result<I, E>, empty: F -> bool, from: (F, I) -> bool)
  {
    (forall f :: blank(f) <==> empty(f))
    && forall f, item :: !empty(f) ==> (from(f, item) <==> read(f) == Ok(item))
  }

  lemma {:induction false} ShownGrows<F>(rows: seq<F>, k: nat, empty: F -> bool)
    requires k <= |rows|
    ensures Shown(rows[..k], empty) + (if k < |rows| && !empty(rows[k]) then 1 else 0) <= Shown(rows, empty)
    decreases |rows|
  {
    if k == |rows| {
      assert rows[..k] == rows;
    } else {
      var front := rows[..|rows| - 1];
      if k < |front| {
        assert front[..k] == rows[..k] && front[k] == rows[k];
        ShownGrows(front, k, empty);
      } else {
        assert rows[..k] == front;
      }
    }
  }

  lemma FrontHasItems<F, I>(rows: seq<F>, items: seq<I>, empty: F -> bool, from: (F, I) -> bool)
    requires rows != []
    ensures forall k :: 0 <= k < |rows| - 1 ==>
              (HasItem(rows, items, empty, from, k) <==> HasItem(rows[..|rows| - 1], items, empty, from, k))
  {
    var front := rows[..|rows| - 1];
    assert forall k :: 0 <= k < |front| ==> rows[..k] == front[..k] && rows[k] == front[k];
  }

  lemma InitHasItems<F, I>(rows: seq<F>, items: seq<I>, empty: F -> bool, from: (F, I) -> bool)
    requires items != [] && |items| - 1 == Shown(rows, empty)
    ensures forall k :: 0 <= k < |rows| ==>
              (HasItem(rows, items, empty, from, k) <==> HasItem(rows, items[..|items| - 1], empty, from, k))
  {
    forall k | 0 <= k < |rows|
      ensures HasItem(rows, items, empty, from, k) <==> HasItem(rows, items[..|items| - 1], empty, from, k)
    {
      ShownGrows(rows, k, empty);
    }
  }

  lemma MatchesSnoc<F, I>(rows: seq<F>, items: seq<I>, empty: F -> bool, from: (F, I) -> bool)
    requires rows != []
    ensures var front, last := rows[..|rows| - 1], rows[|rows| - 1];
            Matches(rows, items, empty, from) <==>
            if empty(last) then Matches(front, items, empty, from)
            else items != [] && Matches(front, items[..|items| - 1], empty, from) && from(last, items[|items| - 1])
  {
    var n := |rows| - 1;
    var front := rows[..n];
    FrontHasItems(rows, items, empty, from);
    assert Shown(rows, empty) == Shown(front, empty) + (if empty(rows[n]) then 0 else 1);
    if !empty(rows[n]) && |items| == Shown(front, empty) + 1 {
      InitHasItems(front, items, empty, from);
    }
    assert HasItem(rows, items, empty, from, n) <==>
           empty(rows[n]) || (Shown(front, empty) < |items| && from(rows[n], items[Shown(front, empty)]));
    hide HasItem, Shown;
    if !empty(rows[n]) && |items| == Shown(front, empty) + 1 {
      var init := items[..|items| - 1];
      if Matches(front, init, empty, from) && from(rows[n], items[|items| - 1]) {
        forall k | 0 <= k < |rows| ensures HasItem(rows, items, empty, from, k) {
          assert k < n ==> HasItem(front, init, empty, from, k);
        }
      }
      if Matches(rows, items, empty, from) {
        forall k | 0 <= k < n ensures HasItem(front, init, empty, from, k) {
          assert HasItem(rows, items, empty, from, k);
        }
      }
    } else if empty(rows[n]) && Matches(rows, items, empty, from) {
      forall k | 0 <= k < n ensures HasItem(front, items, empty, from, k) {
        assert HasItem(rows, items, empty, from, k);
      }
    }
  }

  /** Every item comes from a row. */
  lemma {:induction false} EveryItemHasRow<F, I>(
    rows: seq<F>, items: seq<I>, empty: F -> bool, from: (F, I) -> bool, i: nat) returns (k: nat)
    requires Matches(rows, items, empty, from) && i < |items|
    ensures k < |rows| && !empty(rows[k]) && Shown(rows[..k], empty) == i && from(rows[k], items[i])
    decreases |rows|
  {
    MatchesSnoc(rows, items, empty, from);
    var n := |rows| - 1;
    if !empty(rows[n]) && i == |items| - 1 {
      k := n;
    } else {
      var before := if empty(rows[n]) then items else items[..|items| - 1];
      k := EveryItemHasRow(rows[..n], before, empty, from, i);
      assert rows[..n][..k] == rows[..k];
    }
  }

  /** Reading yields exactly the items that match the rows. */
  lemma {:induction false} ReadsExactly<F(!new), I(!new), E>(
    rows: seq<F>, items: seq<I>, blank: F -> bool, read: F -> Result<I, E>, empty: F -> bool, from: (F, I) -> bool)
    requires Reads(blank, read, empty, from)
    ensures ReadAll(rows, blank, read) == Ok(items) <==> Matches(rows, items, empty, from)
    decreases |rows|
  {
    if rows != [] {
      var front, last := rows[..|rows| - 1], rows[|rows| - 1];
      MatchesSnoc(rows, items, empty, from);
      hide Matches, Shown;
      if empty(last) {
        ReadsExactly(front, items, blank, read, empty, from);
      } else if items != [] {
        var init, item := items[..|items| - 1], items[|items| - 1];
        ReadsExactly(front, init, blank, read, empty, from);
        assert items == init + [item];
        var before := ReadAll(front, blank, read);
        if before.Ok? && read(last).Ok? && before.value + [read(last).value] == items {
          assert before.value == init && read(last).value == item;
        }
      }
    }
  }

  // ---------------------------------------------------------------- which error

  /** Row `k` is the first that is not blank and cannot be read. */
  ghost predicate FirstError<F, E(!new)>(rows: seq<F>, empty: F -> bool, fails: (F, E) -> bool, k: nat, e: E) {
    k < |rows| && !empty(rows[k]) && fails(rows[k], e)
    && forall j :: 0 <= j < k && !empty(rows[j]) ==> forall e' :: !fails(rows[j], e')
  }

  /** Reading fails as the first row in error does. */
  lemma {:induction false} FailsExactly<F, I, E(!new)>(
    rows: seq<F>, blank: F -> bool, read: F -> Result<I, E>, empty: F -> bool, fails: (F, E) -> bool, e: E)
    requires forall f :: f in rows ==> (blank(f) <==> empty(f))
    requires forall f, e' :: f in rows && !empty(f) ==> (fails(f, e') <==> read(f) == Err(e'))
    ensures ReadAll(rows, blank, read) == Err(e) <==> exists k :: FirstError(rows, empty, fails, k, e)
    ensures ReadAll(rows, blank, read).Ok? <==>
            forall k :: 0 <= k < |rows| && !empty(rows[k]) ==> read(rows[k]).Ok?
    decreases |rows|
  {
    if rows != [] {
      var n := |rows| - 1;
      var front, last := rows[..n], rows[n];
      FailsExactly(front, blank, read, empty, fails, e);
      FirstErrorSnoc(rows, empty, fails, e);
      assert last in rows;
      assert forall k :: 0 <= k < n ==> rows[k] == front[k] && rows[k] in rows;
      if ReadAll(front, blank, read).Err? {
        var k :| 0 <= k < n && !empty(front[k]) && !read(front[k]).Ok?;
        assert fails(rows[k], read(rows[k]).error);
      }
      if forall k :: 0 <= k < n && !empty(rows[k]) ==> read(rows[k]).Ok? {
        assert forall k, e' :: 0 <= k < n && !empty(rows[k]) ==> !fails(rows[k], e');
      }
    }
  }

  lemma FirstErrorSnoc<F, E(!new)>(rows: seq<F>, empty: F -> bool, fails: (F, E) -> bool, e: E)
    requires rows != []
    ensures var n := |rows| - 1;
            (exists k :: FirstError(rows, empty, fails, k, e)) <==>
            (exists k :: FirstError(rows[..n], empty, fails, k, e)) || FirstError(rows, empty, fails, n, e)
  {
    var n := |rows| - 1;
    if k: nat :| FirstError(rows, empty, fails, k, e) && k < n {
      assert FirstError(rows[..n], empty, fails, k, e);
    }
    if k: nat :| FirstError(rows[..n], empty, fails, k, e) {
      assert forall j :: 0 <= j < k ==> rows[j] == rows[..n][j];
      assert FirstError(rows, empty, fails, k, e);
    }
  }

  // ---------------------------------------------------------------- sums

  /** What the rows are worth together. */
  function Sum<T>(rows: seq<T>, worth: T -> nat): nat {
    if rows == [] then 0 else Sum(rows[..|rows| - 1], worth) + worth(rows[|rows| - 1])
  }

  lemma SumNext<T>(rows: seq<T>, k: nat, worth: T -> nat)
    requires k < |rows|
    ensures Sum(rows[..k + 1], worth) == Sum(rows[..k], worth) + worth(rows[k])
  {
    assert rows[..k + 1][..k] == rows[..k];
  }

  lemma {:induction false} SumAppend<T>(a: seq<T>, b: seq<T>, worth: T -> nat)
    ensures Sum(a + b, worth) == Sum(a, worth) + Sum(b, worth)
    decreases |b|
  {
    if b == [] {
      assert a + b == a;
    } else {
      assert (a + b)[..|a + b| - 1] == a + b[..|b| - 1];
      SumAppend(a, b[..|b| - 1], worth);
    }
  }

  lemma SumOfOne<T>(x: T, worth: T -> nat)
    ensures Sum([x], worth) == worth(x)
  {
    assert [x][..0] == [];
  }

  /** A row anywhere adds what it is worth. */
  lemma SumAdds<T>(a: seq<T>, x: T, b: seq<T>, worth: T -> nat)
    ensures Sum(a + [x] + b, worth) == Sum(a + b, worth) + worth(x)
  {
    hide Sum;
    SumAppend(a + [x], b, worth);
    SumAppend(a, [x], worth);
    SumAppend(a, b, worth);
    SumOfOne(x, worth);
  }
}
