/** The arithmetic of unattended renewal: how long a renewed certificate lives and how far
    apart two renewals of one row have to be. All times are in milliseconds. */
module RenewalClock {
  const DAY: int := 86_400_000
  const WEEK: int := 7 * DAY
  const MIN_DAYS: int := 14

  /** Integer division of the source language, which truncates toward zero. */
  function Quot(a: int, b: int): int
    requires b > 0
  {
    if a >= 0 then a / b else -((-a) / b)
  }

  /** Whole days of the old lifetime, by the four nested divisions, but at least 14. */
  function ValidityDays(createdOn: int, validUntil: int): (days: int)
    ensures days >= MIN_DAYS
  {
    var d := Quot(Quot(Quot(Quot(validUntil - createdOn, 1000), 60), 60), 24);
    if d > MIN_DAYS then d else MIN_DAYS
  }

  /** The builder reads the clock once for the start and once more for the end. */
  function RenewedUntil(createdOn: int, validUntil: int, clock: int): int {
    clock + ValidityDays(createdOn, validUntil) * DAY
  }

  /** The watcher's trigger. */
  predicate Due(validUntil: int, tick: int) {
    validUntil < tick + WEEK
  }

  lemma DayQuotient(days: int, rest: int)
    requires 0 <= rest < 86_400_000
    ensures (86_400_000 * days + rest) / 86_400_000 == days
  {
  }

  /** The nested divisions are one division by the length of a day. */
  lemma NestedDivisions(createdOn: int, validUntil: int)
    ensures var lifetime := validUntil - createdOn;
            ValidityDays(createdOn, validUntil) ==
            if lifetime >= 14 * 86_400_000 then lifetime / 86_400_000 else 14
  {
    var l := validUntil - createdOn;
    if l >= 0 {
      var s := l / 1000;
      assert s / 60 / 60 / 24 == s / 86_400;
      assert l / 86_400_000 == s / 86_400;
    }
  }

  /** A row that is due and renewed later than the tick that found it due always ends later
      than before: it lives at least 14 days, and less than 7 were left. */
  lemma RenewalExtends(createdOn: int, validUntil: int, tick: int, clock: int)
    requires Due(validUntil, tick) && tick <= clock
    ensures RenewedUntil(createdOn, validUntil, clock) >= tick + 14 * 86_400_000
    ensures RenewedUntil(createdOn, validUntil, clock) > validUntil + 7 * 86_400_000
  {
    assert ValidityDays(createdOn, validUntil) * DAY >= MIN_DAYS * DAY;
  }

  /** The day count a renewal computes from its predecessor's stored dates: it never
      shrinks, and stays put while the builder's two clock readings are less than a day
      apart (`skew`). */
  lemma DaysNeverShrink(createdOn: int, validUntil: int, start: int, skew: int)
    requires skew >= 0
    ensures var days := ValidityDays(createdOn, validUntil);
            var next := ValidityDays(start, RenewedUntil(createdOn, validUntil, start + skew));
            && next >= days
            && (next == days <==> skew < DAY)
  {
    var days := ValidityDays(createdOn, validUntil);
    var end := RenewedUntil(createdOn, validUntil, start + skew);
    NestedDivisions(start, end);
    assert end - start == DAY * days + skew;
    assert days * DAY >= MIN_DAYS * DAY;
    if skew < DAY {
      DayQuotient(days, skew);
    } else {
      DayQuotient(days + skew / DAY, skew % DAY);
    }
  }

  /** One renewal of a row: the tick that found it due and the builder's two readings. */
  datatype Renewal = Renewal(tick: int, start: int, end: int)

  datatype Dates = Dates(createdOn: int, validUntil: int)

  function After(d: Dates, r: Renewal): Dates {
    Dates(r.start, RenewedUntil(d.createdOn, d.validUntil, r.end))
  }

  function AfterAll(d: Dates, rs: seq<Renewal>): Dates {
    if rs == [] then d else After(AfterAll(d, rs[..|rs| - 1]), rs[|rs| - 1])
  }

  /** Each renewal happened because the row was due at its tick; clocks do not go back. */
  ghost predicate Chain(d: Dates, rs: seq<Renewal>) {
    forall i :: 0 <= i < |rs| ==>
      && rs[i].tick <= rs[i].start <= rs[i].end
      && Due(AfterAll(d, rs[..i]).validUntil, rs[i].tick)
  }

  lemma ChainPrefix(d: Dates, rs: seq<Renewal>, n: nat)
    requires Chain(d, rs) && n <= |rs|
    ensures Chain(d, rs[..n])
  {
    forall i | 0 <= i < n
      ensures rs[..n][i] == rs[i] && rs[..n][..i] == rs[..i]
    {
    }
  }

  lemma ConsecutiveRenewals(d: Dates, rs: seq<Renewal>, i: nat)
    requires Chain(d, rs) && i + 1 < |rs|
    ensures rs[i + 1].tick > rs[i].tick + 604_800_000
  {
    var before := AfterAll(d, rs[..i]);
    assert rs[..i + 1][..i] == rs[..i];
    assert AfterAll(d, rs[..i + 1]) == After(before, rs[i]);
    RenewalExtends(before.createdOn, before.validUntil, rs[i].tick, rs[i].end);
  }

  /** Any two renewals of one row are more than a week apart per renewal between them, so
      the number of versions a span of time can add to the history is bounded by its
      length in weeks. */
  lemma {:induction false} RenewalsAreSpaced(d: Dates, rs: seq<Renewal>, i: nat, j: nat)
    requires Chain(d, rs) && i < j < |rs|
    ensures rs[j].tick > rs[i].tick + (j - i) * 604_800_000
    decreases j
  {
    ConsecutiveRenewals(d, rs, j - 1);
    if i + 1 < j {
      RenewalsAreSpaced(d, rs, i, j - 1);
    }
  }

  /** Over any number of renewals the whole-day lifetime never shrinks, and never changes at
      all if every builder finished within a day of starting. */
  lemma {:induction false} DaysOverAllRenewals(d: Dates, rs: seq<Renewal>)
    requires Chain(d, rs)
    ensures var end := AfterAll(d, rs);
            && ValidityDays(end.createdOn, end.validUntil) >= ValidityDays(d.createdOn, d.validUntil)
            && ((forall i :: 0 <= i < |rs| ==> rs[i].end < rs[i].start + DAY)
                ==> ValidityDays(end.createdOn, end.validUntil) == ValidityDays(d.createdOn, d.validUntil))
    decreases |rs|
  {
    if rs != [] {
      var n := |rs| - 1;
      ChainPrefix(d, rs, n);
      DaysOverAllRenewals(d, rs[..n]);
      var before := AfterAll(d, rs[..n]);
      DaysNeverShrink(before.createdOn, before.validUntil, rs[n].start, rs[n].end - rs[n].start);
    }
  }
}
