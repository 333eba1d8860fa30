/** The order quota of an ACME account and the job that deletes expired orders beside it. An
    order request reads the clock three times, and how far apart the readings are decides what
    the quota is worth. */
module AcmeRateLimit {
  import opened Prelude

  const WINDOW: int := 86_400_000

  datatype Order = Order(account: int, createdOn: int, expires: int)

  datatype OrderId = OrderId(number: int)

  type Table = map<OrderId, Order>

  /** When the request computes the order's end, when it counts recent orders and when it stores
      the new one. */
  datatype Readings = Readings(now: int, counted: int, stored: int) {
    predicate InOrder() { now <= counted <= stored }
  }

  datatype Op = NewOrder(id: OrderId, account: int, at: Readings) | Cleanup(now: int) {
    function Start(): int { if NewOrder? then at.now else now }

    function End(): int { if NewOrder? then at.stored else now }
  }

  /** Counted by the quota: the account's orders created within the window before `now`. */
  function Recent(t: Table, account: int, now: int): set<OrderId> {
    set id | id in t && t[id].account == account && t[id].createdOn > now - WINDOW
  }

  predicate Admits(t: Table, account: int, now: int, limit: nat) {
    |Recent(t, account, now)| < limit
  }

  function Placed(account: int, at: Readings): Order {
    Order(account, at.stored, at.now + WINDOW)
  }

  function Step(t: Table, op: Op, limit: nat): Table {
    match op
    case NewOrder(id, account, at) =>
      if Admits(t, account, at.counted, limit) then t[id := Placed(account, at)] else t
    case Cleanup(now) => map id | id in t && !(t[id].expires < now) :: t[id]
  }

  function Decisions(t: Table, ops: seq<Op>, limit: nat): seq<bool>
    decreases |ops|
  {
    if ops == [] then []
    else
      (if ops[0].NewOrder? then [Admits(t, ops[0].account, ops[0].at.counted, limit)] else [])
      + Decisions(Step(t, ops[0], limit), ops[1..], limit)
  }

  function WithoutCleanups(ops: seq<Op>): seq<Op> {
    if ops == [] then []
    else (if ops[0].Cleanup? then [] else [ops[0]]) + WithoutCleanups(ops[1..])
  }

  // ---- Assumptions about runs ----

  /** Requests run one after the other, the clock does not go back, no request's readings are
      more than `skew` apart, and row ids are not reused. */
  ghost predicate Orderly(ops: seq<Op>, clock: int, skew: int, used: set<OrderId>)
    decreases |ops|
  {
    ops == [] ||
    (&& clock <= ops[0].Start() <= ops[0].End()
     && (ops[0].NewOrder? ==> ops[0].at.InOrder() && ops[0].at.stored - ops[0].at.now <= skew && ops[0].id !in used)
     && Orderly(ops[1..], ops[0].End(), skew, UsedAfter(used, ops[0])))
  }

  function UsedAfter(used: set<OrderId>, op: Op): set<OrderId> {
    if op.NewOrder? then used + {op.id} else used
  }

  /** `all` is `t` plus orders that cleanup has deleted by `clock`. */
  ghost predicate OnlyExpiredMore(t: Table, all: Table, clock: int, skew: int) {
    && (forall id :: id in t ==> id in all && all[id] == t[id])
    && (forall id :: id in all && id !in t ==> all[id].expires < clock)
    && (forall id :: id in all ==> all[id].createdOn <= clock && all[id].createdOn + WINDOW <= all[id].expires + skew)
  }

  lemma StepKeepsOnlyExpired(t: Table, all: Table, clock: int, skew: int, op: Op, limit: nat)
    requires OnlyExpiredMore(t, all, clock, skew) && clock <= op.Start() <= op.End()
    requires op.NewOrder? ==> op.at.InOrder() && op.at.stored - op.at.now <= skew && op.id !in all
    ensures OnlyExpiredMore(Step(t, op, limit), AllAdmitted(t, all, op, limit), op.End(), skew)
  {
  }

  /** Every order admitted so far, whether or not cleanup has since deleted it. */
  function AllAdmitted(t: Table, all: Table, op: Op, limit: nat): Table {
    if op.NewOrder? && Admits(t, op.account, op.at.counted, limit) then all[op.id := Placed(op.account, op.at)]
    else all
  }

  function EverAdmitted(t: Table, all: Table, ops: seq<Op>, limit: nat): Table
    decreases |ops|
  {
    if ops == [] then all
    else EverAdmitted(Step(t, ops[0], limit), AllAdmitted(t, all, ops[0], limit), ops[1..], limit)
  }

  // ---- Is cleanup visible to the quota? ----

  predicate SameWithoutCleanups(ops: seq<Op>, limit: nat) {
    Decisions(map[], ops, limit) == Decisions(map[], WithoutCleanups(ops), limit)
  }

  ghost predicate CleanupIsInvisible(skew: int) {
    forall ops, clock, limit: nat :: Orderly(ops, clock, skew, {}) ==> SameWithoutCleanups(ops, limit)
  }

  lemma {:induction false} CleanupChangesNothing(
      t: Table, all: Table, clock: int, skew: int, ops: seq<Op>, limit: nat)
    requires skew <= 1 && OnlyExpiredMore(t, all, clock, skew) && Orderly(ops, clock, skew, all.Keys)
    ensures Decisions(t, ops, limit) == Decisions(all, WithoutCleanups(ops), limit)
    decreases |ops|
  {
    if ops != [] {
      var op, rest := ops[0], ops[1..];
      StepKeepsOnlyExpired(t, all, clock, skew, op, limit);
      if op.NewOrder? {
        assert Recent(t, op.account, op.at.counted) == Recent(all, op.account, op.at.counted);
        assert WithoutCleanups(ops) == [op] + WithoutCleanups(rest);
        assert WithoutCleanups(ops)[1..] == WithoutCleanups(rest);
      } else {
        assert WithoutCleanups(ops) == WithoutCleanups(rest);
      }
      FewerUsed(rest, op.End(), skew, UsedAfter(all.Keys, op),
                AllAdmitted(t, all, op, limit).Keys);
      CleanupChangesNothing(Step(t, op, limit), AllAdmitted(t, all, op, limit), op.End(), skew, rest, limit);
    }
  }

  lemma {:induction false} FewerUsed(ops: seq<Op>, clock: int, skew: int, used: set<OrderId>, fewer: set<OrderId>)
    requires Orderly(ops, clock, skew, used) && fewer <= used
    ensures Orderly(ops, clock, skew, fewer)
    decreases |ops|
  {
    if ops != [] {
      FewerUsed(ops[1..], ops[0].End(), skew, UsedAfter(used, ops[0]), UsedAfter(fewer, ops[0]));
    }
  }

  /** An order whose request took two milliseconds, deleted while the quota still counts it. */
  lemma SlowOrderIsForgotten(skew: int)
    requires skew >= 2
    ensures var first := NewOrder(OrderId(1), 1, Readings(0, 0, 2));
            var second := NewOrder(OrderId(2), 1, Readings(WINDOW + 1, WINDOW + 1, WINDOW + 1));
            var ops := [first, Cleanup(WINDOW + 1), second];
            Orderly(ops, 0, skew, {}) && !SameWithoutCleanups(ops, 1)
  {
    var first := NewOrder(OrderId(1), 1, Readings(0, 0, 2));
    var second := NewOrder(OrderId(2), 1, Readings(WINDOW + 1, WINDOW + 1, WINDOW + 1));
    var cleanup := Cleanup(WINDOW + 1);
    assert [first, cleanup, second][1..] == [cleanup, second] && [cleanup, second][1..] == [second];
    assert [second][1..] == [] && [first, second][1..] == [second];
    assert {} + {OrderId(1)} == {OrderId(1)};
    assert Orderly([second], WINDOW + 1, skew, {OrderId(1)});
    assert Orderly([cleanup, second], 2, skew, {OrderId(1)});
    assert WithoutCleanups([second]) == [second] && WithoutCleanups([cleanup, second]) == [second];
    assert WithoutCleanups([first, cleanup, second]) == [first, second];
    var placed := Placed(1, first.at);
    assert Recent(map[], 1, 0) == {};
    assert Step(map[], first, 1) == map[OrderId(1) := placed];
    assert Step(map[OrderId(1) := placed], cleanup, 1) == map[];
    assert Recent(map[], 1, WINDOW + 1) == {};
    assert OrderId(1) in Recent(map[OrderId(1) := placed], 1, WINDOW + 1);
    assert Recent(map[OrderId(1) := placed], 1, WINDOW + 1) == {OrderId(1)};
    assert Decisions(map[], [second], 1) == [true];
    assert Decisions(map[], [cleanup, second], 1) == [true];
    assert Decisions(map[OrderId(1) := placed], [cleanup, second], 1) == [true];
    assert Decisions(map[OrderId(1) := placed], [second], 1) == [false];
    assert Decisions(map[], [first, cleanup, second], 1)[1];
    assert !Decisions(map[], [first, second], 1)[1];
  }

  /** Deleting expired orders changes no quota decision of any run exactly when no request's
      clock readings are more than a millisecond apart. */
  lemma CleanupIsInvisibleIff(skew: int)
    ensures CleanupIsInvisible(skew) <==> skew <= 1
  {
    if skew <= 1 {
      forall ops, clock, limit: nat | Orderly(ops, clock, skew, {})
        ensures SameWithoutCleanups(ops, limit)
      {
        var none: Table := map[];
        assert none.Keys == {};
        CleanupChangesNothing(none, none, clock, skew, ops, limit);
      }
    } else {
      SlowOrderIsForgotten(skew);
    }
  }

  // ---- The sliding window ----

  /** The account's orders created in the window of the given length that ends at `end`. */
  function InWindow(t: Table, account: int, end: int, length: int): set<OrderId> {
    set id | id in t && t[id].account == account && end - length < t[id].createdOn <= end
  }

  ghost predicate WindowsBounded(all: Table, length: int, limit: nat) {
    forall account, end :: |InWindow(all, account, end, length)| <= limit
  }

  /** The longest window the quota bounds when readings are up to `skew` apart. */
  function SafeLength(skew: nat): int {
    if skew == 0 then WINDOW else WINDOW + 1 - skew
  }

  lemma AdmissionKeepsWindows(
      t: Table, all: Table, clock: int, skew: nat, id: OrderId, account: int, at: Readings, limit: nat)
    requires OnlyExpiredMore(t, all, clock, skew) && WindowsBounded(all, SafeLength(skew), limit)
    requires id !in all && clock <= at.now && at.InOrder() && at.stored - at.now <= skew
    requires Admits(t, account, at.counted, limit)
    ensures WindowsBounded(all[id := Placed(account, at)], SafeLength(skew), limit)
  {
    var length := SafeLength(skew);
    var all' := all[id := Placed(account, at)];
    forall a, end
      ensures |InWindow(all', a, end, length)| <= limit
    {
      var window := InWindow(all', a, end, length);
      if id in window {
        assert window - {id} <= Recent(t, account, at.counted);
        FewerElements(window - {id}, Recent(t, account, at.counted));
        assert |window| == |window - {id}| + 1;
      } else {
        assert window == InWindow(all, a, end, length);
      }
    }
  }

  lemma {:induction false} WindowsStayBounded(
      t: Table, all: Table, clock: int, skew: nat, ops: seq<Op>, limit: nat)
    requires OnlyExpiredMore(t, all, clock, skew) && WindowsBounded(all, SafeLength(skew), limit)
    requires Orderly(ops, clock, skew, all.Keys)
    ensures WindowsBounded(EverAdmitted(t, all, ops, limit), SafeLength(skew), limit)
    decreases |ops|
  {
    if ops != [] {
      var op, rest := ops[0], ops[1..];
      StepKeepsOnlyExpired(t, all, clock, skew, op, limit);
      if op.NewOrder? && Admits(t, op.account, op.at.counted, limit) {
        AdmissionKeepsWindows(t, all, clock, skew, op.id, op.account, op.at, limit);
      }
      FewerUsed(rest, op.End(), skew, UsedAfter(all.Keys, op),
                AllAdmitted(t, all, op, limit).Keys);
      WindowsStayBounded(Step(t, op, limit), AllAdmitted(t, all, op, limit), op.End(), skew, rest, limit);
    }
  }

  /** Over every run, cleanups included, every window of this length holds at most the limit's
      number of orders of any one account, counting those cleanup has deleted. */
  ghost predicate WindowIsSafe(skew: int, length: int) {
    forall ops, clock, limit: nat, account, end ::
      Orderly(ops, clock, skew, {}) ==>
        |InWindow(EverAdmitted(map[], map[], ops, limit), account, end, length)| <= limit
  }

  lemma WindowsAreBounded(ops: seq<Op>, clock: int, skew: nat, length: int, limit: nat, account: int, end: int)
    requires Orderly(ops, clock, skew, {}) && length <= SafeLength(skew)
    ensures |InWindow(EverAdmitted(map[], map[], ops, limit), account, end, length)| <= limit
  {
    assert WindowsBounded(map[], SafeLength(skew), limit) by {
      forall a, e ensures |InWindow(map[], a, e, SafeLength(skew))| <= limit {
        assert InWindow(map[], a, e, SafeLength(skew)) == {};
      }
    }
    var none: Table := map[];
    assert none.Keys == {};
    WindowsStayBounded(none, none, clock, skew, ops, limit);
    var all := EverAdmitted(map[], map[], ops, limit);
    assert InWindow(all, account, end, length) <= InWindow(all, account, end, SafeLength(skew));
    FewerElements(InWindow(all, account, end, length), InWindow(all, account, end, SafeLength(skew)));
  }

  /** Two orders under a limit of one, as close together as the skew allows. */
  lemma TwoInALongerWindow(skew: nat, length: int)
    requires skew <= WINDOW && length > SafeLength(skew)
    ensures exists ops, clock, end ::
              Orderly(ops, clock, skew, {}) && |InWindow(EverAdmitted(map[], map[], ops, 1), 1, end, length)| == 2
  {
    var last := if skew == 0 then WINDOW else WINDOW + 1;
    var first := NewOrder(OrderId(1), 1, Readings(0, 0, skew));
    var second := NewOrder(OrderId(2), 1, Readings(last, last, last));
    var cleanup := Cleanup(last);
    var ops := [first, cleanup, second];
    assert ops[1..] == [cleanup, second] && [cleanup, second][1..] == [second] && [second][1..] == [];
    assert {} + {OrderId(1)} == {OrderId(1)};
    assert Orderly([second], last, skew, {OrderId(1)});
    assert Orderly([cleanup, second], skew, skew, {OrderId(1)});
    assert Orderly(ops, 0, skew, {});
    var a, b := Placed(1, first.at), Placed(1, second.at);
    var one := map[OrderId(1) := a];
    assert Recent(map[], 1, 0) == {};
    assert Step(map[], first, 1) == one;
    var left := Step(one, cleanup, 1);
    assert Recent(left, 1, last) == {};
    assert AllAdmitted(left, one, second, 1) == one[OrderId(2) := b];
    assert EverAdmitted(left, one, [second], 1) == one[OrderId(2) := b];
    assert EverAdmitted(one, one, [cleanup, second], 1) == one[OrderId(2) := b];
    var all := EverAdmitted(map[], map[], ops, 1);
    assert all == one[OrderId(2) := b];
    assert InWindow(all, 1, last, length) == {OrderId(1), OrderId(2)};
  }

  /** The quota bounds a full 24 hours when a request's readings agree, and otherwise exactly
      the windows shorter by one millisecond less than the readings can be apart. */
  lemma WindowIsSafeIff(skew: nat, length: int)
    requires skew <= WINDOW
    ensures WindowIsSafe(skew, length) <==> length <= SafeLength(skew)
  {
    if length <= SafeLength(skew) {
      forall ops, clock, limit: nat, account, end | Orderly(ops, clock, skew, {})
        ensures |InWindow(EverAdmitted(map[], map[], ops, limit), account, end, length)| <= limit
      {
        WindowsAreBounded(ops, clock, skew, length, limit, account, end);
      }
    } else {
      TwoInALongerWindow(skew, length);
    }
  }

  class OrderQuota {
    var rows: Table

    constructor ()
      ensures rows == map[]
    {
      rows := map[];
    }

    method CountRecent(account: int, now: int) returns (n: nat)
      ensures n == |Recent(rows, account, now)|
      ensures n == |set id | id in rows && rows[id].account == account && rows[id].createdOn > now - 86_400_000|
    {
      var cutoff := now - WINDOW;
      n := |set id | id in rows && rows[id].account == account && rows[id].createdOn > cutoff|;
    }

    method PlaceOrder(id: OrderId, account: int, at: Readings, limit: nat) returns (admitted: bool)
      modifies this
      ensures rows == Step(old(rows), NewOrder(id, account, at), limit)
      ensures admitted <==> Admits(old(rows), account, at.counted, limit)
      ensures rows == if admitted then old(rows)[id := Order(account, at.stored, at.now + 86_400_000)] else old(rows)
    {
      var n := CountRecent(account, at.counted);
      if n >= limit { return false; }
      rows := rows[id := Order(account, at.stored, at.now + WINDOW)];
      return true;
    }

    method CleanupExpired(now: int, limit: nat)
      modifies this
      ensures rows == Step(old(rows), Cleanup(now), limit)
      ensures forall id :: id in rows <==> id in old(rows) && old(rows)[id].expires >= now
      ensures forall id :: id in rows ==> rows[id] == old(rows)[id]
    {
      rows := map id | id in rows && !(rows[id].expires < now) :: rows[id];
    }
  }
}
