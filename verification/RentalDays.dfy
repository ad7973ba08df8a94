/** 24-hour rental days, rounded up. */
module RentalDays {
  import opened Calendar

  /** `Math.ceil(n / d)` on integers. */
  function CeilDiv(n: int, d: int): int
    requires d > 0
  {
    -((-n) / d)
  }

  function CountRentalDays24h(pickup: int, returnAt: int): (days: nat)
    ensures returnAt <= pickup ==> days == 0
    ensures returnAt > pickup ==> (days - 1) * MS_PER_DAY < returnAt - pickup <= days * MS_PER_DAY
  {
    if !(returnAt > pickup) then
      0
    else
      var blocks := CeilDiv(returnAt - pickup, MS_PER_DAY);
      if blocks < 1 then 1 else blocks
  }

  /** The bracket in the contract of the count admits a single number of days. */
  lemma CountUnique(pickup: int, returnAt: int, days: int)
    requires returnAt > pickup
    requires (days - 1) * MS_PER_DAY < returnAt - pickup <= days * MS_PER_DAY
    ensures days == CountRentalDays24h(pickup, returnAt)
  {
    var k := CountRentalDays24h(pickup, returnAt);
    assert (k - days - 1) * MS_PER_DAY < 0 && (days - k - 1) * MS_PER_DAY < 0;
  }

  /** Both parts of a split are charged a rounded-up day although together they fit in one. */
  predicate SharesADay(first: int, second: int) {
    first % MS_PER_DAY != 0 && second % MS_PER_DAY != 0
    && first % MS_PER_DAY + second % MS_PER_DAY <= MS_PER_DAY
  }

  /** Splitting a rental adds a billing day exactly when the two part-days would have shared one. */
  lemma SplitCount(pickup: int, mid: int, returnAt: int)
    requires pickup < mid < returnAt
    ensures CountRentalDays24h(pickup, mid) + CountRentalDays24h(mid, returnAt)
            == CountRentalDays24h(pickup, returnAt) + (if SharesADay(mid - pickup, returnAt - mid) then 1 else 0)
  {
    var a, b := mid - pickup, returnAt - mid;
    var q := a / MS_PER_DAY + b / MS_PER_DAY;
    var r := a % MS_PER_DAY + b % MS_PER_DAY;
    assert a + b == q * MS_PER_DAY + r;
    CountUnique(pickup, mid, a / MS_PER_DAY + (if a % MS_PER_DAY == 0 then 0 else 1));
    CountUnique(mid, returnAt, b / MS_PER_DAY + (if b % MS_PER_DAY == 0 then 0 else 1));
    CountUnique(pickup, returnAt, q + (if r == 0 then 0 else if r <= MS_PER_DAY then 1 else 2));
  }
}
