/** The order quota when requests interleave: counting the recent orders and storing the new one
    are separate database steps, and requests that have counted but not stored are not counted
    by others. */
module AcmeQuotaRaces {
  import opened Prelude
  import opened AcmeRateLimit

  datatype RequestId = RequestId(number: int)

  /** A request that was let through by the count and has not stored its order. */
  datatype Pending = Pending(account: int, now: int, counted: int)

  /** `all` is every order ever stored, whether or not cleanup has since deleted it. */
  datatype State = State(rows: Table, pending: map<RequestId, Pending>, all: Table, clock: int)

  datatype Event =
    | Count(request: RequestId, account: int, now: int, at: int)
    | Store(request: RequestId, id: OrderId, at: int)
    | Abandon(request: RequestId, at: int)
    | Clean(at: int)

  /** The account's requests under way. */
  function Under(s: State, account: int): set<RequestId> {
    Of(s.pending, account)
  }

  function Of(pending: map<RequestId, Pending>, account: int): set<RequestId> {
    set r | r in pending && pending[r].account == account
  }

  lemma OfAdded(pending: map<RequestId, Pending>, r: RequestId, p: Pending, a: int)
    requires r !in pending
    ensures |Of(pending[r := p], a)| == |Of(pending, a)| + (if a == p.account then 1 else 0)
  {
    assert Of(pending[r := p], a) == if a == p.account then Of(pending, a) + {r} else Of(pending, a);
  }

  lemma OfRemoved(pending: map<RequestId, Pending>, r: RequestId, a: int)
    requires r in pending
    ensures |Of(pending - {r}, a)| == |Of(pending, a)| - (if a == pending[r].account then 1 else 0)
  {
    if a == pending[r].account {
      assert Of(pending, a) == Of(pending - {r}, a) + {r};
    } else {
      assert Of(pending - {r}, a) == Of(pending, a);
    }
  }

  function Next(s: State, e: Event, limit: nat): State {
    match e
    case Count(r, account, now, at) =>
      if Admits(s.rows, account, at, limit)
      then s.(pending := s.pending[r := Pending(account, now, at)], clock := at)
      else s.(clock := at)
    case Store(r, id, at) =>
      if r !in s.pending then s.(clock := at)
      else
        var order := Placed(s.pending[r].account, Readings(s.pending[r].now, s.pending[r].counted, at));
        State(s.rows[id := order], s.pending - {r}, s.all[id := order], at)
    case Abandon(r, at) => s.(pending := s.pending - {r}, clock := at)
    case Clean(at) => s.(rows := map id | id in s.rows && !(s.rows[id].expires < at) :: s.rows[id], clock := at)
  }

  /** The clock does not go back, ids are not reused, no request takes longer than `skew` from its
      first reading to its last, and at most `most` requests of an account are under way. */
  ghost predicate Fits(s: State, e: Event, skew: nat, most: nat, limit: nat) {
    && s.clock <= e.at
    && (e.Count? ==> e.request !in s.pending && e.now <= e.at && |Under(Next(s, e, limit), e.account)| <= most)
    && (e.Store? ==> e.id !in s.all && (e.request in s.pending ==> e.at - s.pending[e.request].now <= skew))
  }

  function Ran(clock: int, events: seq<Event>, limit: nat): State {
    if events == [] then State(map[], map[], map[], clock)
    else Next(Ran(clock, events[..|events| - 1], limit), events[|events| - 1], limit)
  }

  ghost predicate Proper(clock: int, events: seq<Event>, skew: nat, most: nat, limit: nat) {
    events == [] ||
    (&& Proper(clock, events[..|events| - 1], skew, most, limit)
     && Fits(Ran(clock, events[..|events| - 1], limit), events[|events| - 1], skew, most, limit))
  }

  // ---- What every step keeps ----

  ghost predicate Sound(s: State, skew: nat) {
    && OnlyExpiredMore(s.rows, s.all, s.clock, skew)
    && forall r :: r in s.pending ==> s.pending[r].now <= s.clock
  }

  lemma NextKeepsSound(s: State, e: Event, skew: nat, most: nat, limit: nat)
    requires Sound(s, skew) && Fits(s, e, skew, most, limit)
    ensures Sound(Next(s, e, limit), skew)
  {
  }

  /** Stored orders and requests under way together keep within the bound, in every window that
      is not over, and stored orders alone in every window. */
  ghost predicate Within(s: State, length: int, bound: int) {
    forall account, end :: KeepsTo(s, account, end, length, bound)
  }

  predicate KeepsTo(s: State, account: int, end: int, length: int, bound: int) {
    && |InWindow(s.all, account, end, length)| <= bound
    && (s.clock <= end ==> |InWindow(s.all, account, end, length)| + |Under(s, account)| <= bound)
  }

  /** A request is let through although stored orders and requests under way fill the window that
      ends now. */
  ghost predicate Overfills(s: State, e: Event, length: int, limit: nat, bound: int) {
    && e.Count? && Admits(s.rows, e.account, e.at, limit)
    && |InWindow(s.all, e.account, e.at, length)| + |Under(s, e.account)| >= bound
  }

  lemma LaterWindowsAreSmaller(s: State, skew: nat, account: int, end: int, later: int, length: int)
    requires Sound(s, skew) && s.clock <= end <= later
    ensures |InWindow(s.all, account, later, length)| <= |InWindow(s.all, account, end, length)|
  {
    FewerElements(InWindow(s.all, account, later, length), InWindow(s.all, account, end, length));
  }

  /** Counting in adds the request to those of its account under way and changes nothing else. */
  lemma CountingIn(s: State, e: Event, limit: nat, a: int)
    requires e.Count? && Admits(s.rows, e.account, e.at, limit) && e.request !in s.pending
    ensures |Under(Next(s, e, limit), a)| == |Under(s, a)| + (if a == e.account then 1 else 0)
  {
    OfAdded(s.pending, e.request, Pending(e.account, e.now, e.at), a);
  }

  lemma CountKeepsWithinIff(s: State, e: Event, skew: nat, length: int, limit: nat, bound: int)
    requires Sound(s, skew) && Within(s, length, bound)
    requires e.Count? && Admits(s.rows, e.account, e.at, limit) && e.request !in s.pending && s.clock <= e.at
    ensures Within(Next(s, e, limit), length, bound) <==> !Overfills(s, e, length, limit, bound)
  {
    var s' := Next(s, e, limit);
    CountingIn(s, e, limit, e.account);
    if Overfills(s, e, length, limit, bound) {
      assert !KeepsTo(s', e.account, e.at, length, bound);
    } else {
      forall a, end
        ensures KeepsTo(s', a, end, length, bound)
      {
        CountKeepsTo(s, e, skew, length, limit, bound, a, end);
      }
    }
  }

  lemma CountKeepsTo(
      s: State, e: Event, skew: nat, length: int, limit: nat, bound: int, a: int, end: int)
    requires Sound(s, skew) && Within(s, length, bound) && !Overfills(s, e, length, limit, bound)
    requires e.Count? && Admits(s.rows, e.account, e.at, limit) && e.request !in s.pending && s.clock <= e.at
    ensures KeepsTo(Next(s, e, limit), a, end, length, bound)
  {
    assert KeepsTo(s, a, end, length, bound);
    CountingIn(s, e, limit, a);
    if a == e.account && e.at <= end {
      LaterWindowsAreSmaller(s, skew, a, e.at, end, length);
    }
  }

  lemma StoreKeepsWithin(s: State, e: Event, length: int, limit: nat, bound: int)
    requires Within(s, length, bound) && s.clock <= e.at
    requires e.Store? && e.id !in s.all && e.request in s.pending
    ensures Within(Next(s, e, limit), length, bound)
  {
    forall a, end
      ensures KeepsTo(Next(s, e, limit), a, end, length, bound)
    {
      assert KeepsTo(s, a, end, length, bound);
      StoringIn(s, e, limit, a);
      StoringIntoWindow(s, e, limit, a, end, length);
    }
  }

  lemma StoringIn(s: State, e: Event, limit: nat, a: int)
    requires e.Store? && e.request in s.pending
    ensures |Under(Next(s, e, limit), a)| == |Under(s, a)| - (if a == s.pending[e.request].account then 1 else 0)
  {
    OfRemoved(s.pending, e.request, a);
  }

  lemma StoringIntoWindow(s: State, e: Event, limit: nat, a: int, end: int, length: int)
    requires e.Store? && e.request in s.pending && e.id !in s.all
    ensures |InWindow(Next(s, e, limit).all, a, end, length)|
            <= |InWindow(s.all, a, end, length)|
               + (if a == s.pending[e.request].account && e.at <= end then 1 else 0)
  {
    var p := s.pending[e.request];
    var order := Placed(p.account, Readings(p.now, p.counted, e.at));
    OneMoreInWindow(s.all, e.id, order, a, end, length);
  }

  lemma OneMoreInWindow(all: Table, id: OrderId, order: Order, a: int, end: int, length: int)
    requires id !in all
    ensures |InWindow(all[id := order], a, end, length)|
            <= |InWindow(all, a, end, length)| + (if a == order.account && order.createdOn <= end then 1 else 0)
  {
    var was, window := InWindow(all, a, end, length), InWindow(all[id := order], a, end, length);
    assert window == if id in window then was + {id} else was;
  }

  lemma FewerUnderKeepWithin(s: State, s': State, length: int, bound: int)
    requires Within(s, length, bound) && s'.all == s.all && s.clock <= s'.clock
    requires forall r :: r in s'.pending ==> r in s.pending && s'.pending[r] == s.pending[r]
    ensures Within(s', length, bound)
  {
    forall a, end
      ensures KeepsTo(s', a, end, length, bound)
    {
      assert KeepsTo(s, a, end, length, bound);
      FewerElements(Under(s', a), Under(s, a));
    }
  }

  /** Exactly which step breaks the bound, whatever it is. */
  lemma StepKeepsWithinIff(s: State, e: Event, skew: nat, most: nat, length: int, limit: nat, bound: int)
    requires Sound(s, skew) && Fits(s, e, skew, most, limit) && Within(s, length, bound)
    ensures Within(Next(s, e, limit), length, bound) <==> !Overfills(s, e, length, limit, bound)
  {
    if e.Count? && Admits(s.rows, e.account, e.at, limit) {
      CountKeepsWithinIff(s, e, skew, length, limit, bound);
    } else if e.Store? && e.request in s.pending {
      StoreKeepsWithin(s, e, length, limit, bound);
    } else {
      FewerUnderKeepWithin(s, Next(s, e, limit), length, bound);
    }
  }

  // ---- The bound over runs ----

  /** The count sees every order stored in a window that ends now. */
  lemma CountSeesTheWindow(s: State, skew: nat, account: int, at: int)
    requires Sound(s, skew) && s.clock <= at
    ensures |InWindow(s.all, account, at, SafeLength(skew))| <= |Recent(s.rows, account, at)|
  {
    FewerElements(InWindow(s.all, account, at, SafeLength(skew)), Recent(s.rows, account, at));
  }

  lemma {:induction false} RunKeepsWithin(clock: int, events: seq<Event>, skew: nat, most: nat, limit: nat)
    requires Proper(clock, events, skew, most, limit) && most >= 1
    ensures Sound(Ran(clock, events, limit), skew)
    ensures Within(Ran(clock, events, limit), SafeLength(skew), limit + most - 1)
  {
    var length, bound := SafeLength(skew), limit + most - 1;
    if events == [] {
      forall a, end
        ensures KeepsTo(Ran(clock, [], limit), a, end, length, bound)
      {
        assert InWindow(map[], a, end, length) == {} && Under(Ran(clock, [], limit), a) == {};
      }
    } else {
      var n := |events| - 1;
      var s, e := Ran(clock, events[..n], limit), events[n];
      RunKeepsWithin(clock, events[..n], skew, most, limit);
      NextKeepsSound(s, e, skew, most, limit);
      StepKeepsWithinIff(s, e, skew, most, length, limit, bound);
      if e.Count? && Admits(s.rows, e.account, e.at, limit) {
        CountSeesTheWindow(s, skew, e.account, e.at);
        CountingIn(s, e, limit, e.account);
      }
    }
  }

  /** In every interleaving of counting, storing, abandoning and cleanup, every such window holds
      at most the limit's number of orders of an account, and one less than the number of its
      requests that were ever under way together. */
  ghost predicate RacesKeep(skew: nat, most: nat, limit: nat, bound: int) {
    forall clock, events, account, end ::
      Proper(clock, events, skew, most, limit) ==> HoldsAtMost(clock, events, limit, account, end, skew, bound)
  }

  predicate HoldsAtMost(
      clock: int, events: seq<Event>, limit: nat, account: int, end: int, skew: nat, bound: int)
  {
    |InWindow(Ran(clock, events, limit).all, account, end, SafeLength(skew))| <= bound
  }

  // ---- A race that fills it ----

  function Ids(n: nat): set<OrderId> {
    set i | 0 <= i < n :: OrderId(i)
  }

  function Requests(n: nat, p: nat): set<RequestId> {
    set i | n <= i < n + p :: RequestId(i)
  }

  lemma {:induction false} IdsSize(n: nat)
    ensures |Ids(n)| == n
  {
    if n == 0 {
      assert Ids(0) == {};
    } else {
      IdsSize(n - 1);
      assert Ids(n) == Ids(n - 1) + {OrderId(n - 1)};
    }
  }

  lemma {:induction false} RequestsSize(n: nat, p: nat)
    ensures |Requests(n, p)| == p
  {
    if p == 0 {
      assert Requests(n, 0) == {};
    } else {
      RequestsSize(n, p - 1);
      assert Requests(n, p) == Requests(n, p - 1) + {RequestId(n + p - 1)};
    }
  }

  /** `p` requests under way from the `n`-th on. */
  function Waiting(n: nat, p: nat): map<RequestId, Pending> {
    map r | r in Requests(n, p) :: Pending(1, 0, 0)
  }

  function Stored(n: nat): Table {
    map id | id in Ids(n) :: Order(1, 0, WINDOW)
  }

  lemma OneMoreWaiting(n: nat, p: nat)
    ensures RequestId(n + p) !in Waiting(n, p)
    ensures Waiting(n, p)[RequestId(n + p) := Pending(1, 0, 0)] == Waiting(n, p + 1)
  {
    assert Requests(n, p + 1) == Requests(n, p) + {RequestId(n + p)};
  }

  lemma OneLessWaiting(n: nat, p: nat)
    requires p > 0
    ensures RequestId(n) in Waiting(n, p) && Waiting(n, p) - {RequestId(n)} == Waiting(n + 1, p - 1)
  {
    assert Requests(n, p) == Requests(n + 1, p - 1) + {RequestId(n)};
  }

  lemma OneMoreStored(n: nat)
    ensures OrderId(n) !in Stored(n) && Stored(n)[OrderId(n) := Order(1, 0, WINDOW)] == Stored(n + 1)
  {
    assert Ids(n + 1) == Ids(n) + {OrderId(n)};
  }

  /** Everything at one moment: `n` orders stored and `p` requests under way. */
  function Crowd(n: nat, p: nat): State {
    State(Stored(n), Waiting(n, p), Stored(n), 0)
  }

  lemma CrowdSizes(n: nat, p: nat, length: int)
    requires length > 0
    ensures |Recent(Crowd(n, p).rows, 1, 0)| == n && |Under(Crowd(n, p), 1)| == p
    ensures |InWindow(Crowd(n, p).all, 1, 0, length)| == n
  {
    IdsSize(n);
    RequestsSize(n, p);
    assert Recent(Stored(n), 1, 0) == Ids(n) && Of(Waiting(n, p), 1) == Requests(n, p);
    assert InWindow(Stored(n), 1, 0, length) == Ids(n);
  }

  lemma OneMoreCounts(n: nat, p: nat, skew: nat, most: nat, limit: nat)
    requires n < limit && p < most
    ensures var e := Count(RequestId(n + p), 1, 0, 0);
            Next(Crowd(n, p), e, limit) == Crowd(n, p + 1) && Fits(Crowd(n, p), e, skew, most, limit)
  {
    CrowdSizes(n, p, 1);
    CrowdSizes(n, p + 1, 1);
    OneMoreWaiting(n, p);
  }

  lemma OneMoreStores(n: nat, p: nat, skew: nat, most: nat, limit: nat)
    requires p > 0
    ensures var e := Store(RequestId(n), OrderId(n), 0);
            Next(Crowd(n, p), e, limit) == Crowd(n + 1, p - 1) && Fits(Crowd(n, p), e, skew, most, limit)
  {
    OneLessWaiting(n, p);
    OneMoreStored(n);
  }

  lemma Appending(events: seq<Event>, e: Event, skew: nat, most: nat, limit: nat)
    requires Proper(0, events, skew, most, limit) && Fits(Ran(0, events, limit), e, skew, most, limit)
    ensures Proper(0, events + [e], skew, most, limit)
    ensures Ran(0, events + [e], limit) == Next(Ran(0, events, limit), e, limit)
  {
    assert (events + [e])[..|events|] == events;
  }

  lemma {:induction false} FillUp(n: nat, skew: nat, most: nat, limit: nat) returns (events: seq<Event>)
    requires n < limit && most >= 1
    ensures Proper(0, events, skew, most, limit) && Ran(0, events, limit) == Crowd(n, 0)
  {
    if n == 0 {
      events := [];
    } else {
      var k: nat := n - 1;
      var before := FillUp(k, skew, most, limit);
      events := CountAndStore(before, k, skew, most, limit);
    }
  }

  lemma CountAndStore(before: seq<Event>, n: nat, skew: nat, most: nat, limit: nat) returns (events: seq<Event>)
    requires n < limit && most >= 1
    requires Proper(0, before, skew, most, limit) && Ran(0, before, limit) == Crowd(n, 0)
    ensures Proper(0, events, skew, most, limit) && Ran(0, events, limit) == Crowd(n + 1, 0)
  {
    var count, store := Count(RequestId(n), 1, 0, 0), Store(RequestId(n), OrderId(n), 0);
    OneMoreCounts(n, 0, skew, most, limit);
    Appending(before, count, skew, most, limit);
    OneMoreStores(n, 1, skew, most, limit);
    events := before + [count] + [store];
    Appending(before + [count], store, skew, most, limit);
  }

  lemma {:induction false} PileUp(n: nat, p: nat, skew: nat, most: nat, limit: nat) returns (events: seq<Event>)
    requires n < limit && p <= most && most >= 1
    ensures Proper(0, events, skew, most, limit) && Ran(0, events, limit) == Crowd(n, p)
  {
    if p == 0 {
      events := FillUp(n, skew, most, limit);
    } else {
      var before := PileUp(n, p - 1, skew, most, limit);
      OneMoreCounts(n, p - 1, skew, most, limit);
      Appending(before, Count(RequestId(n + (p - 1)), 1, 0, 0), skew, most, limit);
      events := before + [Count(RequestId(n + (p - 1)), 1, 0, 0)];
    }
  }

  lemma {:induction false} AllStore(
      before: seq<Event>, n: nat, p: nat, skew: nat, most: nat, limit: nat) returns (events: seq<Event>)
    requires Proper(0, before, skew, most, limit) && Ran(0, before, limit) == Crowd(n, p)
    ensures Proper(0, events, skew, most, limit) && Ran(0, events, limit) == Crowd(n + p, 0)
    decreases p
  {
    if p == 0 {
      events := before;
    } else {
      var next := StoreOne(before, n, p, skew, most, limit);
      events := AllStore(next, n + 1, p - 1, skew, most, limit);
    }
  }

  lemma StoreOne(
      before: seq<Event>, n: nat, p: nat, skew: nat, most: nat, limit: nat) returns (events: seq<Event>)
    requires p > 0 && Proper(0, before, skew, most, limit) && Ran(0, before, limit) == Crowd(n, p)
    ensures Proper(0, events, skew, most, limit) && Ran(0, events, limit) == Crowd(n + 1, p - 1)
  {
    var store := Store(RequestId(n), OrderId(n), 0);
    OneMoreStores(n, p, skew, most, limit);
    Appending(before, store, skew, most, limit);
    events := before + [store];
  }

  lemma RaceIsTight(skew: nat, most: nat, limit: nat, bound: int) returns (events: seq<Event>)
    requires skew <= WINDOW && most >= 1 && limit >= 1 && bound < limit + most - 1
    ensures Proper(0, events, skew, most, limit) && !HoldsAtMost(0, events, limit, 1, 0, skew, bound)
  {
    var pile := PileUp(limit - 1, most, skew, most, limit);
    events := AllStore(pile, limit - 1, most, skew, most, limit);
    CrowdSizes(limit - 1 + most, 0, SafeLength(skew));
  }

  /** The quota under interleaving, exactly: with at most `most` requests of an account under way
      together, the least bound that every window of this length keeps is `limit + most - 1`. It
      is the limit itself exactly when requests run one at a time. */
  lemma RacesKeepIff(skew: nat, most: nat, limit: nat, bound: int)
    requires skew <= WINDOW && most >= 1 && limit >= 1
    ensures RacesKeep(skew, most, limit, bound) <==> bound >= limit + most - 1
  {
    if bound >= limit + most - 1 {
      forall clock, events, account, end | Proper(clock, events, skew, most, limit)
        ensures HoldsAtMost(clock, events, limit, account, end, skew, bound)
      {
        RunKeepsWithin(clock, events, skew, most, limit);
        assert KeepsTo(Ran(clock, events, limit), account, end, SafeLength(skew), limit + most - 1);
      }
    } else {
      var events := RaceIsTight(skew, most, limit, bound);
      assert !HoldsAtMost(0, events, limit, 1, 0, skew, bound);
    }
  }
}
