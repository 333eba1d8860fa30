/** What interleaving challenge and finalize requests can do to an order: exactly when an order
    keeps to one certificate and exactly when a valid one stays valid. */
module AcmeInterleaving {
  import opened Prelude
  import opened AcmeOrders
  import opened AcmeHandlers
  import DomainMatch
  import Quota = AcmeRateLimit

  function Steps(s: Server, events: seq<Event>): Server
    decreases |events|
  {
    if events == [] then s else Steps(Step(s, events[0]), events[1..])
  }

  lemma {:induction false} StepsOfConcat(s: Server, a: seq<Event>, b: seq<Event>)
    ensures Steps(s, a + b) == Steps(Steps(s, a), b)
    decreases |a|
  {
    if a == [] {
      assert a + b == b;
    } else {
      assert (a + b)[1..] == a[1..] + b;
      StepsOfConcat(Step(s, a[0]), a[1..], b);
    }
  }

  /** Runs are steps from nothing. */
  lemma {:induction false} RunIsSteps(events: seq<Event>)
    ensures Run(events) == Steps(EMPTY, events)
  {
    if events != [] {
      var n := |events| - 1;
      RunIsSteps(events[..n]);
      assert events == events[..n] + [events[n]];
      StepsOfConcat(EMPTY, events[..n], [events[n]]);
      assert [events[n]] == [events[n]] + [];
      OneMoreStep(Run(events[..n]), events[n], []);
    }
  }

  lemma OneMoreStep(s: Server, e: Event, rest: seq<Event>)
    ensures Steps(s, [e] + rest) == Steps(Step(s, e), rest)
  {
    assert ([e] + rest)[1..] == rest;
  }

  lemma TwoSteps(s: Server, a: Event, b: Event)
    ensures Steps(s, [a, b]) == Step(Step(s, a), b)
  {
    assert [a, b] == [a] + [b] && [b] == [b] + [];
    OneMoreStep(s, a, [b]);
    OneMoreStep(Step(s, a), b, []);
  }

  lemma ThreeSteps(s: Server, a: Event, b: Event, c: Event)
    ensures Steps(s, [a, b, c]) == Step(Step(Step(s, a), b), c)
  {
    assert [a, b, c] == [a] + [b, c];
    OneMoreStep(s, a, [b, c]);
    TwoSteps(Step(s, a), b, c);
  }

  lemma FourSteps(s: Server, a: Event, b: Event, c: Event, d: Event)
    ensures Steps(s, [a, b, c, d]) == Step(Step(Step(Step(s, a), b), c), d)
  {
    assert [a, b, c, d] == [a] + [b, c, d];
    OneMoreStep(s, a, [b, c, d]);
    ThreeSteps(Step(s, a), b, c, d);
  }

  // ---- What an advancing request does to the table of requests ----

  /** What the request becomes; it ends after its last write. */
  function NextOf(s: Server, q: Request, outcome: bool, c: CertId): Option<Request> {
    match q
    case Validating(account, id, index, _) =>
      if CanValidate(s, account) then Some(Recording(id, index, s.accounts[account].autoValidate || outcome)) else None
    case Recording(id, _, accepted) => Some(if accepted then Rereading(id) else Rejecting(id))
    case Rereading(id) => if id in s.orders && AllValid(s.orders[id]) then Some(Readying(id)) else None
    case Preparing(account, id, names, validUntil) =>
      if account in s.accounts then Some(Issuing(id, names, validUntil)) else None
    case Issuing(id, _, _) =>
      if !outcome then Some(Rejecting(id)) else if c in s.certificates then None else Some(Closing(id, c))
    case _ => None
  }

  function OrderOf(q: Request): OrderId {
    match q
    case Validating(_, id, _, _) => id
    case Recording(id, _, _) => id
    case Rereading(id) => id
    case Readying(id) => id
    case Rejecting(id) => id
    case Preparing(_, id, _, _) => id
    case Issuing(id, _, _) => id
    case Closing(id, _) => id
  }

  lemma WritesKeepRequests(s: Server, id: OrderId, status: Status, certificate: Option<CertId>, index: nat)
    ensures SetStatus(s, id, status, certificate).requests == s.requests
    ensures SetStatus(s, id, status, certificate).certificates == s.certificates
    ensures SetIdentifier(s, id, index, status).requests == s.requests
    ensures SetIdentifier(s, id, index, status).certificates == s.certificates
  {
  }

  lemma ValidatingRequests(s: Server, r: RequestId, q: Request, outcome: bool, c: CertId)
    requires q.Validating?
    ensures var s' := AdvanceValidating(s, r, q, outcome);
            && s'.requests == Moved(s.requests, r, NextOf(s, q, outcome, c)) && s'.certificates == s.certificates
  {
  }

  lemma IssuingRequests(s: Server, r: RequestId, q: Request, outcome: bool, c: CertId)
    requires q.Issuing?
    ensures var s' := AdvanceIssuing(s, r, q, outcome, c);
            && s'.requests == Moved(s.requests, r, NextOf(s, q, outcome, c))
            && s'.certificates == if outcome && c !in s.certificates then Issued(s, q, c).certificates
                                  else s.certificates
  {
  }

  function Moved(requests: map<RequestId, Request>, r: RequestId, next: Option<Request>): map<RequestId, Request> {
    match next
    case Some(q) => requests[r := q]
    case None => requests - {r}
  }

  /** Only the request that advances changes, and only signing stores a certificate. */
  lemma AdvancedRequests(s: Server, r: RequestId, q: Request, outcome: bool, c: CertId)
    ensures var s' := Advanced(s, r, q, outcome, c);
            && s'.requests == Moved(s.requests, r, NextOf(s, q, outcome, c))
            && s'.certificates == if q.Issuing? && outcome && c !in s.certificates then Issued(s, q, c).certificates
                                  else s.certificates
  {
    match q
    case Validating(_, _, _, _) => ValidatingRequests(s, r, q, outcome, c);
    case Issuing(_, _, _) => IssuingRequests(s, r, q, outcome, c);
    case Recording(id, index, accepted) => WritesKeepRequests(s, id, if accepted then Valid else Invalid, None, index);
    case Readying(id) => WritesKeepRequests(s, id, Ready, None, 0);
    case Rejecting(id) => WritesKeepRequests(s, id, Invalid, None, 0);
    case Closing(id, certificate) => WritesKeepRequests(s, id, Valid, Some(certificate), 0);
    case _ =>
  }

  // ---- One certificate per order, step by step ----

  /** The step stores a certificate for an order that has one. */
  ghost predicate IssuesAgain(s: Server, e: Event) {
    && e.Advance? && e.request in s.requests && s.requests[e.request].Issuing?
    && e.outcome && e.certificate !in s.certificates
    && exists c :: IssuedFor(s, c, s.requests[e.request].order)
  }

  /** The one step that gives an order a second certificate. */
  lemma StepKeepsOneEachIff(s: Server, e: Event)
    requires OneEach(s)
    ensures OneEach(Step(s, e)) <==> !IssuesAgain(s, e)
  {
    if e.Advance? && e.request in s.requests {
      var q := s.requests[e.request];
      AdvancedRequests(s, e.request, q, e.outcome, e.certificate);
      if q.Issuing? && e.outcome && e.certificate !in s.certificates {
        StoringKeepsOneEachIff(s, q, e.certificate, Step(s, e));
      }
    } else {
      OnlyAdvancingStores(s, e);
    }
  }

  lemma StoringKeepsOneEachIff(s: Server, q: Request, c: CertId, s': Server)
    requires OneEach(s) && q.Issuing? && c !in s.certificates && s'.certificates == Issued(s, q, c).certificates
    ensures OneEach(s') <==> !exists d :: IssuedFor(s, d, q.order)
  {
    if d :| IssuedFor(s, d, q.order) {
      assert s'.certificates[d].order == s'.certificates[c].order && c != d;
    } else {
      forall x, y | x in s'.certificates && y in s'.certificates && s'.certificates[x].order == s'.certificates[y].order
        ensures x == y
      {
        assert x != c ==> !IssuedFor(s, x, q.order);
        assert y != c ==> !IssuedFor(s, y, q.order);
      }
    }
  }

  lemma OnlyAdvancingStores(s: Server, e: Event)
    requires !(e.Advance? && e.request in s.requests)
    ensures Step(s, e).certificates == s.certificates
  {
  }

  // ---- One certificate per order, over runs ----

  /** A finalize request that has been let through and has not stored its certificate. */
  ghost predicate ClaimedBy(s: Server, r: RequestId, id: OrderId) {
    r in s.requests && (s.requests[r].Preparing? || s.requests[r].Issuing?) && s.requests[r].order == id
  }

  /** Certificates and such requests together: at most one per order. */
  ghost predicate AtMostOnce(s: Server) {
    && (forall c, d, id :: IssuedFor(s, c, id) && IssuedFor(s, d, id) ==> c == d)
    && (forall r, q, id :: ClaimedBy(s, r, id) && ClaimedBy(s, q, id) ==> r == q)
    && (forall r, c, id :: ClaimedBy(s, r, id) ==> !IssuedFor(s, c, id))
  }

  ghost predicate Taken(s: Server, id: OrderId) {
    (exists c :: IssuedFor(s, c, id)) || (exists r :: ClaimedBy(s, r, id))
  }

  predicate LetsThrough(s: Server, e: Event) {
    e.Finalize? && e.request !in s.requests && FinalizeCheck(s, e.account, e.order, e.now).Ok?
  }

  /** A finalize request is let through although the order has a certificate or another finalize
      request for it is under way. */
  ghost predicate ClaimsAgain(s: Server, e: Event) {
    LetsThrough(s, e) && Taken(s, e.order)
  }

  lemma NextOfKeepsOrder(s: Server, q: Request, outcome: bool, c: CertId)
    ensures var next := NextOf(s, q, outcome, c);
            next.Some? ==>
              && OrderOf(next.value) == OrderOf(q) && !q.Closing?
              && (next.value.Preparing? || next.value.Issuing? ==> q.Preparing?)
  {
  }

  /** An advancing request takes up no new claim; it gives one up when it stores a certificate. */
  lemma AdvanceMovesClaim(s: Server, r: RequestId, outcome: bool, c: CertId)
    requires r in s.requests
    ensures var s' := Step(s, Advance(r, outcome, c));
            && (forall x, id :: ClaimedBy(s', x, id) ==> ClaimedBy(s, x, id))
            && (forall x, id :: IssuedFor(s', x, id) ==>
                  IssuedFor(s, x, id) || (ClaimedBy(s, r, id) && !ClaimedBy(s', r, id) && x == c))
  {
    var q := s.requests[r];
    AdvancedRequests(s, r, q, outcome, c);
    NextOfKeepsOrder(s, q, outcome, c);
  }

  lemma FewerClaimsKeepAtMostOnce(s: Server, s': Server)
    requires AtMostOnce(s)
    requires forall x, id :: ClaimedBy(s', x, id) ==> ClaimedBy(s, x, id)
    requires forall x, id :: IssuedFor(s', x, id) ==> IssuedFor(s, x, id)
    ensures AtMostOnce(s')
  {
  }

  lemma MovedClaimKeepsAtMostOnce(s: Server, r: RequestId, c: CertId, s': Server)
    requires AtMostOnce(s)
    requires forall x, id :: ClaimedBy(s', x, id) ==> ClaimedBy(s, x, id)
    requires forall x, id :: IssuedFor(s', x, id) ==>
               IssuedFor(s, x, id) || (ClaimedBy(s, r, id) && !ClaimedBy(s', r, id) && x == c)
    ensures AtMostOnce(s')
  {
  }

  /** Exactly which step breaks it. */
  lemma StepKeepsAtMostOnceIff(s: Server, e: Event)
    requires AtMostOnce(s)
    ensures AtMostOnce(Step(s, e)) <==> !ClaimsAgain(s, e)
  {
    if LetsThrough(s, e) {
      LettingThroughClaims(s, e);
    } else if e.Advance? && e.request in s.requests {
      AdvanceMovesClaim(s, e.request, e.outcome, e.certificate);
      MovedClaimKeepsAtMostOnce(s, e.request, e.certificate, Step(s, e));
    } else {
      OtherStepsClaimNothing(s, e);
      FewerClaimsKeepAtMostOnce(s, Step(s, e));
    }
  }

  lemma OtherStepsClaimNothing(s: Server, e: Event)
    requires !LetsThrough(s, e) && !(e.Advance? && e.request in s.requests)
    ensures forall c, id :: IssuedFor(Step(s, e), c, id) ==> IssuedFor(s, c, id)
    ensures forall r, id :: ClaimedBy(Step(s, e), r, id) ==> ClaimedBy(s, r, id)
  {
    OnlyAdvancingStores(s, e);
  }

  lemma LettingThroughClaims(s: Server, e: Event)
    requires AtMostOnce(s) && LetsThrough(s, e)
    ensures AtMostOnce(Step(s, e)) <==> !Taken(s, e.order)
  {
    var s' := Step(s, e);
    assert forall c, id :: IssuedFor(s', c, id) <==> IssuedFor(s, c, id);
    assert forall r, id :: ClaimedBy(s', r, id) <==> (ClaimedBy(s, r, id) || (r == e.request && id == e.order));
    assert ClaimedBy(s', e.request, e.order);
    if c :| IssuedFor(s, c, e.order) {
      assert IssuedFor(s', c, e.order);
    } else if r :| ClaimedBy(s, r, e.order) {
      assert ClaimedBy(s', r, e.order) && r != e.request;
    } else {
      OneNewClaim(s, e.request, e.order, s');
    }
  }

  lemma OneNewClaim(s: Server, r: RequestId, id: OrderId, s': Server)
    requires AtMostOnce(s) && !Taken(s, id)
    requires forall c, i :: IssuedFor(s', c, i) <==> IssuedFor(s, c, i)
    requires forall x, i :: ClaimedBy(s', x, i) <==> (ClaimedBy(s, x, i) || (x == r && i == id))
    ensures AtMostOnce(s')
  {
    forall c, d, i | IssuedFor(s', c, i) && IssuedFor(s', d, i)
      ensures c == d
    {
      assert IssuedFor(s, c, i) && IssuedFor(s, d, i);
    }
  }

  ghost predicate AlwaysAtMostOnce(events: seq<Event>) {
    forall n :: 0 <= n <= |events| ==> AtMostOnce(Run(events[..n]))
  }

  /** No finalize request of the run is let through for an order that is taken. */
  ghost predicate Careful(events: seq<Event>)
    decreases |events|
  {
    events == [] ||
    (Careful(events[..|events| - 1]) && !ClaimsAgain(Run(events[..|events| - 1]), events[|events| - 1]))
  }

  lemma {:induction false} CarefulRunsClaimOnce(events: seq<Event>)
    requires Careful(events)
    ensures AtMostOnce(Run(events))
  {
    if events != [] {
      CarefulRunsClaimOnce(events[..|events| - 1]);
      StepKeepsAtMostOnceIff(Run(events[..|events| - 1]), events[|events| - 1]);
    }
  }

  lemma AtMostOnceIsOneEach(s: Server)
    requires AtMostOnce(s)
    ensures OneEach(s)
  {
    forall c, d | c in s.certificates && d in s.certificates && s.certificates[c].order == s.certificates[d].order
      ensures c == d
    {
      assert IssuedFor(s, c, s.certificates[c].order) && IssuedFor(s, d, s.certificates[c].order);
    }
  }

  /** In every interleaving, crashes and abandoned requests included: no order gets two
      certificates as long as no finalize request is let through for an order that has a
      certificate or another finalize request under way. */
  lemma CarefulRunsIssueOnce(events: seq<Event>)
    requires Careful(events)
    ensures OneEach(Run(events))
  {
    CarefulRunsClaimOnce(events);
    AtMostOnceIsOneEach(Run(events));
  }

  lemma {:induction false} CarefulPrefix(events: seq<Event>, n: nat)
    requires Careful(events) && n <= |events|
    ensures Careful(events[..n])
    decreases |events|
  {
    if n == |events| {
      assert events[..n] == events;
    } else {
      assert events[..|events| - 1][..n] == events[..n];
      CarefulPrefix(events[..|events| - 1], n);
    }
  }

  lemma {:induction false} ClaimingOnceIsCareful(events: seq<Event>)
    requires AlwaysAtMostOnce(events)
    ensures Careful(events)
    decreases |events|
  {
    if events != [] {
      var n := |events| - 1;
      forall m | 0 <= m <= n
        ensures AtMostOnce(Run(events[..n][..m]))
      {
        assert events[..n][..m] == events[..m];
      }
      ClaimingOnceIsCareful(events[..n]);
      assert AtMostOnce(Run(events[..n])) && AtMostOnce(Run(events[..|events|]));
      assert events[..|events|] == events;
      StepKeepsAtMostOnceIff(Run(events[..n]), events[n]);
    }
  }

  /** The care is exact: it is what keeps certificates and requests under way to one per order
      all through the run. */
  lemma CarefulIff(events: seq<Event>)
    ensures Careful(events) <==> AlwaysAtMostOnce(events)
  {
    if Careful(events) {
      forall n | 0 <= n <= |events|
        ensures AtMostOnce(Run(events[..n]))
      {
        CarefulPrefix(events, n);
        CarefulRunsClaimOnce(events[..n]);
      }
    } else if AlwaysAtMostOnce(events) {
      ClaimingOnceIsCareful(events);
    }
  }

  // ---- ... and nothing less will do ----

  lemma FreshCert(used: set<CertId>) returns (c: CertId)
    ensures c !in used
  {
    var n := CertBound(used);
    c := CertId(n);
  }

  lemma CertBound(used: set<CertId>) returns (n: int)
    ensures forall c :: c in used ==> c.number < n
    decreases |used|
  {
    if used == {} {
      n := 0;
    } else {
      var c :| c in used;
      var m := CertBound(used - {c});
      n := if c.number < m then m else c.number + 1;
    }
  }

  lemma RequestBound(used: set<RequestId>) returns (n: int)
    ensures forall r :: r in used ==> r.number < n
    decreases |used|
  {
    if used == {} {
      n := 0;
    } else {
      var r :| r in used;
      var m := RequestBound(used - {r});
      n := if r.number < m then m else r.number + 1;
    }
  }

  ghost predicate NoFinalizes(events: seq<Event>) {
    forall e :: e in events ==> !e.Finalize?
  }

  const STRICT: Account := Account("", false, UsableKey)

  /** A claim can go on to its certificate whatever happens to others. */
  lemma ClaimCanIssue(s: Server, r: RequestId, id: OrderId, c: CertId) returns (more: seq<Event>)
    requires ClaimedBy(s, r, id) && c !in s.certificates
    ensures NoFinalizes(more) && IssuedFor(Steps(s, more), c, id)
    ensures forall x, i :: IssuedFor(s, x, i) ==> IssuedFor(Steps(s, more), x, i)
    ensures forall x, i :: x != r && ClaimedBy(s, x, i) ==> ClaimedBy(Steps(s, more), x, i)
  {
    var q, issue := s.requests[r], Advance(r, true, c);
    if q.Preparing? {
      var permit := SetAccount(q.account, STRICT);
      more := [permit, issue, issue];
      ThreeSteps(s, permit, issue, issue);
      var ready := Step(Step(s, permit), issue);
      assert ready.requests == s.requests[r := Issuing(q.order, q.names, q.validUntil)];
    } else {
      more := [issue];
      assert [issue] == [issue] + [];
      OneMoreStep(s, issue, []);
    }
  }

  lemma TwoClaimsCanIssueTwice(s: Server, r: RequestId, q: RequestId, id: OrderId) returns (more: seq<Event>)
    requires r != q && ClaimedBy(s, r, id) && ClaimedBy(s, q, id)
    ensures NoFinalizes(more) && !OneEach(Steps(s, more))
  {
    var c := FreshCert(s.certificates.Keys);
    var first := ClaimCanIssue(s, r, id, c);
    var s1 := Steps(s, first);
    var d := FreshCert(s1.certificates.Keys);
    var second := ClaimCanIssue(s1, q, id, d);
    more := first + second;
    StepsOfConcat(s, first, second);
    assert IssuedFor(Steps(s1, second), c, id) && IssuedFor(Steps(s1, second), d, id) && c != d;
  }

  lemma ClaimBesideCertificateCanIssue(s: Server, r: RequestId, c: CertId, id: OrderId) returns (more: seq<Event>)
    requires ClaimedBy(s, r, id) && IssuedFor(s, c, id)
    ensures NoFinalizes(more) && !OneEach(Steps(s, more))
  {
    var d := FreshCert(s.certificates.Keys);
    more := ClaimCanIssue(s, r, id, d);
    assert IssuedFor(Steps(s, more), c, id) && IssuedFor(Steps(s, more), d, id) && c != d;
  }

  /** No way of going on without further finalize requests gives an order two certificates. */
  ghost predicate IssuesOnceFrom(s: Server) {
    forall more :: NoFinalizes(more) ==> OneEach(Steps(s, more))
  }

  lemma {:induction false} StepsKeepAtMostOnce(s: Server, more: seq<Event>)
    requires AtMostOnce(s) && NoFinalizes(more)
    ensures AtMostOnce(Steps(s, more))
    decreases |more|
  {
    if more != [] {
      assert more[0] in more;
      StepKeepsAtMostOnceIff(s, more[0]);
      StepsKeepAtMostOnce(Step(s, more[0]), more[1..]);
    }
  }

  /** Exactly from which states orders are safe from a second certificate: those with at most
      one certificate or finalize request under way for each. Together with
      `StepKeepsAtMostOnceIff`: letting a finalize request through for a taken order is exactly
      what makes a second certificate possible. */
  lemma IssuesOnceFromIff(s: Server)
    ensures IssuesOnceFrom(s) <==> AtMostOnce(s)
  {
    if AtMostOnce(s) {
      forall more | NoFinalizes(more)
        ensures OneEach(Steps(s, more))
      {
        StepsKeepAtMostOnce(s, more);
        AtMostOnceIsOneEach(Steps(s, more));
      }
    } else if c, d, id :| IssuedFor(s, c, id) && IssuedFor(s, d, id) && c != d {
      assert NoFinalizes([]) && Steps(s, []) == s && !OneEach(s);
    } else if r, q, id :| ClaimedBy(s, r, id) && ClaimedBy(s, q, id) && r != q {
      var more := TwoClaimsCanIssueTwice(s, r, q, id);
    } else {
      var r, c, id :| ClaimedBy(s, r, id) && IssuedFor(s, c, id);
      var more := ClaimBesideCertificateCanIssue(s, r, c, id);
    }
  }

  // ---- A valid order, step by step ----

  /** The steps that take an order out of valid: late writes of other requests. */
  lemma StepLeavesValidIff(s: Server, e: Event, id: OrderId)
    requires id in s.orders && id in s.created && s.orders[id].status == Valid
    ensures (id in Step(s, e).orders && Step(s, e).orders[id].status != Valid) <==>
            e.Advance? && e.request in s.requests && s.requests[e.request] in {Readying(id), Rejecting(id)}
  {
    if e.Advance? && e.request in s.requests {
      AdvanceLeavesValidIff(s, e.request, s.requests[e.request], e.outcome, e.certificate, id);
    }
  }

  lemma AdvanceLeavesValidIff(s: Server, r: RequestId, q: Request, outcome: bool, c: CertId, id: OrderId)
    requires id in s.orders && s.orders[id].status == Valid
    ensures var s' := Advanced(s, r, q, outcome, c);
            id in s'.orders && (s'.orders[id].status != Valid <==> q in {Readying(id), Rejecting(id)})
  {
  }

  // ---- A valid order, for good ----

  /** Every request in flight for the order is a finalize request about to write its result. */
  ghost predicate OnlyClosing(s: Server, id: OrderId) {
    forall r :: r in s.requests && OrderOf(s.requests[r]) == id ==> s.requests[r].Closing?
  }

  /** The order, if its row still exists, is valid with all its identifiers. */
  ghost predicate ValidIfThere(s: Server, id: OrderId) {
    id in s.created && (id in s.orders ==> s.orders[id].status == Valid && AllValid(s.orders[id]))
  }

  lemma AdvancedKeepsValid(s: Server, r: RequestId, q: Request, outcome: bool, c: CertId, id: OrderId)
    requires ValidIfThere(s, id) && (OrderOf(q) == id ==> q.Closing?)
    ensures ValidIfThere(Advanced(s, r, q, outcome, c), id)
  {
  }

  lemma StepKeepsValid(s: Server, e: Event, id: OrderId)
    requires ValidIfThere(s, id) && OnlyClosing(s, id)
    ensures ValidIfThere(Step(s, e), id) && OnlyClosing(Step(s, e), id)
  {
    if e.Advance? && e.request in s.requests {
      var q := s.requests[e.request];
      AdvancedKeepsValid(s, e.request, q, e.outcome, e.certificate, id);
      AdvancedRequests(s, e.request, q, e.outcome, e.certificate);
      NextOfKeepsOrder(s, q, e.outcome, e.certificate);
    }
  }

  lemma {:induction false} StepsKeepValid(s: Server, more: seq<Event>, id: OrderId)
    requires ValidIfThere(s, id) && OnlyClosing(s, id)
    ensures ValidIfThere(Steps(s, more), id)
    decreases |more|
  {
    if more != [] {
      StepKeepsValid(s, more[0], id);
      StepsKeepValid(Step(s, more[0]), more[1..], id);
    }
  }

  ghost predicate Leaves(s: Server, id: OrderId, more: seq<Event>) {
    id in Steps(s, more).orders && Steps(s, more).orders[id].status != Valid
  }

  lemma {:induction false} FinishIsSteps(s: Server, r: RequestId, outcome: bool, c: CertId) returns (more: seq<Event>)
    ensures Steps(s, more) == Finish(s, r, outcome, c)
    decreases if r in s.requests then 1 + Rank(s.requests[r]) else 0
  {
    if r !in s.requests {
      more := [];
    } else {
      var e := Advance(r, outcome, c);
      AdvancingLowersRank(s, r, s.requests[r], outcome, c);
      var rest := FinishIsSteps(Step(s, e), r, outcome, c);
      more := [e] + rest;
      OneMoreStep(s, e, rest);
    }
  }

  lemma TakenOut(s: Server, r: RequestId)
    requires r in s.requests
    ensures s == Next(Ended(s, r), r, s.requests[r])
  {
    assert (s.requests - {r})[r := s.requests[r]] == s.requests;
  }

  /** A challenge or a finalize request read before the order became valid can still spoil it. */
  lemma UnfinishedRequestCanSpoil(s: Server, r: RequestId, id: OrderId) returns (more: seq<Event>)
    requires id in s.orders && AllValid(s.orders[id])
    requires r in s.requests && OrderOf(s.requests[r]) == id && !s.requests[r].Closing?
    ensures Leaves(s, id, more)
  {
    var q := s.requests[r];
    var account := if q.Validating? || q.Preparing? then q.account else 0;
    var permit := SetAccount(account, STRICT);
    var s1 := Step(s, permit);
    TakenOut(s1, r);
    FinishSpoils(Ended(s1, r), r, q, id);
    var rest := FinishIsSteps(s1, r, false, CertId(0));
    more := [permit] + rest;
    OneMoreStep(s, permit, rest);
  }

  lemma FinishSpoils(s: Server, r: RequestId, q: Request, id: OrderId)
    requires r !in s.requests && id in s.orders && AllValid(s.orders[id]) && OrderOf(q) == id && !q.Closing?
    requires q.Validating? || q.Preparing? ==> q.account in s.accounts && s.accounts[q.account] == STRICT
    ensures var s' := Finish(Next(s, r, q), r, false, CertId(0));
            id in s'.orders && s'.orders[id].status != Valid
  {
    match q
    case Validating(_, _, _, _) => FinishValidating(s, r, q, false, CertId(0));
    case Recording(_, index, accepted) => FinishRecording(s, r, id, index, accepted, false, CertId(0));
    case Rereading(_) => FinishReread(s, r, id, false, CertId(0));
    case Readying(_) => FinishStatus(s, r, q, id, Ready, None, false, CertId(0));
    case Rejecting(_) => FinishStatus(s, r, q, id, Invalid, None, false, CertId(0));
    case Preparing(_, _, names, validUntil) =>
      FinishPreparing(s, r, q, false, CertId(0));
      FinishIssuing(s, r, Issuing(id, names, validUntil), false, CertId(0));
    case Issuing(_, _, _) => FinishIssuing(s, r, q, false, CertId(0));
  }

  /** An identifier that is not valid can be challenged, and the challenge can fail. */
  lemma UnvalidatedIdentifierCanSpoil(s: Server, i: nat, id: OrderId) returns (more: seq<Event>)
    requires id in s.orders && i < |s.orders[id].identifiers| && s.orders[id].identifiers[i].status != Valid
    ensures Leaves(s, id, more)
  {
    var n := RequestBound(s.requests.Keys);
    var r := RequestId(n);
    var account := s.orders[id].account;
    var permit, ask := SetAccount(account, STRICT), Challenge(r, account, id, "dns-01", i);
    var s1 := Step(s, permit);
    var q := Validating(account, id, i, "dns-01");
    assert Step(s1, ask) == Next(s1, r, q);
    FinishValidating(s1, r, q, false, CertId(0));
    var rest := FinishIsSteps(Step(s1, ask), r, false, CertId(0));
    more := [permit, ask] + rest;
    StepsOfConcat(s, [permit, ask], rest);
    TwoSteps(s, permit, ask);
  }

  /** A valid order stays valid in every way of going on exactly when all its identifiers are
      valid and every request in flight for it is about to write a certificate's result. */
  lemma ValidStaysIff(s: Server, id: OrderId)
    requires Sound(s) && id in s.orders && s.orders[id].status == Valid
    ensures (forall more :: !Leaves(s, id, more)) <==> AllValid(s.orders[id]) && OnlyClosing(s, id)
  {
    assert OrderSound(s, id, s.orders[id]);
    if !AllValid(s.orders[id]) {
      var i :| 0 <= i < |s.orders[id].identifiers| && s.orders[id].identifiers[i].status != Valid;
      var more := UnvalidatedIdentifierCanSpoil(s, i, id);
    } else if !OnlyClosing(s, id) {
      var r :| r in s.requests && OrderOf(s.requests[r]) == id && !s.requests[r].Closing?;
      var more := UnfinishedRequestCanSpoil(s, r, id);
    } else {
      forall more
        ensures !Leaves(s, id, more)
      {
        StepsKeepValid(s, more, id);
      }
    }
  }

  // ---- Such interleavings ----

  /** Two finalize requests that both read a ready order before either finishes each get a
      certificate: one certificate per order needs uninterrupted handlers. */
  lemma InterleavedFinalizesIssueTwice(
      s: Server, id: OrderId, now: int, r1: RequestId, r2: RequestId, c1: CertId, c2: CertId)
    requires r1 != r2 && c1 != c2 && s.requests == map[]
    requires c1 !in s.certificates && c2 !in s.certificates
    requires id in s.orders && s.orders[id].status == Ready && now < s.orders[id].expires
    requires s.orders[id].account in s.accounts
    ensures var account := s.orders[id].account;
            var read := Step(Step(s, Finalize(r1, account, id, now)), Finalize(r2, account, id, now));
            var a, b := Advance(r1, true, c1), Advance(r2, true, c2);
            var s' := Steps(read, [a, b, a, b]);
            IssuedFor(s', c1, id) && IssuedFor(s', c2, id)
  {
    var account := s.orders[id].account;
    var a, b := Advance(r1, true, c1), Advance(r2, true, c2);
    var read := Step(Step(s, Finalize(r1, account, id, now)), Finalize(r2, account, id, now));
    FourSteps(read, a, b, a, b);
    var names, end := DnsNames(s.orders[id].identifiers), s.orders[id].notAfter;
    assert read.requests == map[r1 := Preparing(account, id, names, end), r2 := Preparing(account, id, names, end)];
    var prepared := Step(Step(read, a), b);
    assert prepared.requests == map[r1 := Issuing(id, names, end), r2 := Issuing(id, names, end)];
  }

  lemma SingleLetterIsAName()
    ensures DomainMatch.IsValidDnsName("a") && DomainMatch.CheckDomains("a", ["a"])
  {
    assert DomainMatch.TrimBlanks("a") == "a";
    DomainMatch.SplitWithoutSeparator("a", '.');
    DomainMatch.SplitWithoutSeparator("a", ',');
    assert DomainMatch.IsLabelChar("a"[0]) && DomainMatch.ValidLabel("a");
    assert !DomainMatch.AllDigits("a") && !("*." <= "a");
    assert DomainMatch.Labels("a") == ["a"];
    assert DomainMatch.Split("a", ',') == ["a"] && DomainMatch.MatchesDomain("a", "a");
    assert forall d :: d in ["a"] ==> d == "a";
    assert "a" in DomainMatch.Split("a", ',');
  }

  const OPEN := SetAccount(1, Account("a", true, UsableKey))
  const ORDER := NewOrder(FIRST, 1, [Wanted("dns", "a")], Quota.Readings(0, 0, 0), None)
  const ONE := RequestId(1)
  const TWO := RequestId(2)

  function Ask(r: RequestId): Event {
    Challenge(r, 1, FIRST, "http-01", 0)
  }

  function Go(r: RequestId): Event {
    Advance(r, true, CertId(0))
  }

  /** The order has been placed and two challenge requests for its one name are under way. */
  lemma TwoChallengesStart()
    ensures var s := Steps(EMPTY, [OPEN, ORDER, Ask(ONE), Ask(TWO)]);
            var q := Validating(1, FIRST, 0, "http-01");
            && s.requests == map[ONE := q, TWO := q] && s.certificates == map[]
            && s.orders == map[FIRST := PendingOrder(1, [Wanted("dns", "a")], Quota.Readings(0, 0, 0))]
            && s.accounts == map[1 := Account("a", true, UsableKey)]
  {
    FourSteps(EMPTY, OPEN, ORDER, Ask(ONE), Ask(TWO));
    SingleLetterIsAName();
    var s1 := Step(EMPTY, OPEN);
    OneNameRefusal(s1, "a");
    var s2 := Step(s1, ORDER);
    assert s2.orders == map[FIRST := PendingOrder(1, [Wanted("dns", "a")], Quota.Readings(0, 0, 0))];
  }

  lemma TwoChallengesJudge(s: Server)
    requires var q := Validating(1, FIRST, 0, "http-01"); s.requests == map[ONE := q, TWO := q]
    requires s.accounts == map[1 := Account("a", true, UsableKey)]
    ensures var s' := Steps(s, [Go(ONE), Go(TWO)]);
            && s'.requests == map[ONE := Recording(FIRST, 0, true), TWO := Recording(FIRST, 0, true)]
            && s'.certificates == s.certificates && s'.accounts == s.accounts && s'.orders == s.orders
  {
    TwoSteps(s, Go(ONE), Go(TWO));
    ChallengeIsJudged(s, ONE);
    ChallengeIsJudged(Step(s, Go(ONE)), TWO);
  }

  lemma ChallengeIsJudged(s: Server, r: RequestId)
    requires r in s.requests && s.requests[r] == Validating(1, FIRST, 0, "http-01")
    requires s.accounts == map[1 := Account("a", true, UsableKey)]
    ensures Step(s, Go(r)) == Next(Accept(s, 1, FIRST, "http-01", 0), r, Recording(FIRST, 0, true))
  {
  }

  lemma TwoChallengesRecord(s: Server)
    requires s.requests == map[ONE := Recording(FIRST, 0, true), TWO := Recording(FIRST, 0, true)]
    requires s.orders == map[FIRST := PendingOrder(1, [Wanted("dns", "a")], Quota.Readings(0, 0, 0))]
    ensures var s' := Steps(s, [Go(ONE), Go(TWO)]);
            && s'.requests == map[ONE := Rereading(FIRST), TWO := Rereading(FIRST)]
            && s'.certificates == s.certificates && s'.accounts == s.accounts
            && FIRST in s'.orders && AllValid(s'.orders[FIRST])
            && s'.orders[FIRST].account == 1 && s'.orders[FIRST].expires == MS_PER_DAY
  {
    TwoSteps(s, Go(ONE), Go(TWO));
    var s1 := Step(s, Go(ONE));
    assert s1.requests == map[ONE := Rereading(FIRST), TWO := Recording(FIRST, 0, true)];
  }

  lemma TwoChallengesReread(s: Server)
    requires s.requests == map[ONE := Rereading(FIRST), TWO := Rereading(FIRST)]
    requires FIRST in s.orders && AllValid(s.orders[FIRST])
    ensures var s' := Steps(s, [Go(ONE), Go(TWO), Go(ONE)]);
            && s'.requests == map[TWO := Readying(FIRST)]
            && s'.certificates == s.certificates && s'.accounts == s.accounts
            && s'.orders == s.orders[FIRST := s.orders[FIRST].(status := Ready, certificate := None)]
  {
    ThreeSteps(s, Go(ONE), Go(TWO), Go(ONE));
    OrderIsReread(s, ONE);
    var s1 := Step(s, Go(ONE));
    OrderIsReread(s1, TWO);
    var s2 := Step(s1, Go(TWO));
    assert s2.requests == map[ONE := Readying(FIRST), TWO := Readying(FIRST)];
    OrderIsReadied(s2, ONE);
  }

  lemma OrderIsReread(s: Server, r: RequestId)
    requires r in s.requests && s.requests[r] == Rereading(FIRST) && FIRST in s.orders && AllValid(s.orders[FIRST])
    ensures Step(s, Go(r)) == Next(s, r, Readying(FIRST))
  {
  }

  lemma OrderIsReadied(s: Server, r: RequestId)
    requires r in s.requests && s.requests[r] == Readying(FIRST)
    ensures Step(s, Go(r)) == Ended(SetStatus(s, FIRST, Ready, None), r)
  {
  }

  /** Two challenge requests for one name, advanced in turn. */
  const LATE_RUN: seq<Event> :=
    [OPEN, ORDER, Ask(ONE), Ask(TWO)]
    + ([Go(ONE), Go(TWO)] + ([Go(ONE), Go(TWO)] + [Go(ONE), Go(TWO), Go(ONE)]))

  /** The first has made the order ready, the second is about to. From here one finalize request
      issues a certificate... */
  lemma LateReadyIsReachable()
    ensures var s := Steps(EMPTY, LATE_RUN);
            && s.requests == map[TWO := Readying(FIRST)] && s.certificates == map[]
            && FIRST in s.orders && s.orders[FIRST].status == Ready
            && s.orders[FIRST].account == 1 && 1 in s.accounts && s.orders[FIRST].expires == MS_PER_DAY
  {
    var a, b, c := [OPEN, ORDER, Ask(ONE), Ask(TWO)], [Go(ONE), Go(TWO)], [Go(ONE), Go(TWO), Go(ONE)];
    StepsOfConcat(EMPTY, a, b + (b + c));
    TwoChallengesStart();
    var s1 := Steps(EMPTY, a);
    StepsOfConcat(s1, b, b + c);
    TwoChallengesJudge(s1);
    var s2 := Steps(s1, b);
    StepsOfConcat(s2, b, c);
    TwoChallengesRecord(s2);
    TwoChallengesReread(Steps(s2, b));
  }

  /** ... and the late write takes the order out of valid again. */
  lemma LateReadyUndoesValid(s: Server, id: OrderId, now: int, r: RequestId, c: CertId)
    requires r != HANDLER && s.requests == map[r := Readying(id)] && c !in s.certificates
    requires id in s.orders && s.orders[id].status == Ready && now < s.orders[id].expires
    requires s.orders[id].account in s.accounts
    ensures var valid := Handle(s, Complete(s.orders[id].account, id, now, Signed, c));
            var s' := Step(valid, Advance(r, true, c));
            && id in valid.orders && valid.orders[id].status == Valid
            && id in s'.orders && s'.orders[id].status == Ready && s'.orders[id].certificate == None
            && IssuedFor(s', c, id)
  {
    FinalizeSteps(s, s.orders[id].account, id, now, Signed, c);
  }

  /** The whole of it, from nothing. */
  lemma ValidIsLeftInSomeRun()
    ensures var s := Steps(EMPTY, LATE_RUN);
            var valid := Handle(s, Complete(1, FIRST, 0, Signed, CertId(0)));
            var s' := Step(valid, Go(TWO));
            && FIRST in valid.orders && valid.orders[FIRST].status == Valid
            && FIRST in s'.orders && s'.orders[FIRST].status == Ready && IssuedFor(s', CertId(0), FIRST)
  {
    LateReadyIsReachable();
    LateReadyUndoesValid(Steps(EMPTY, LATE_RUN), FIRST, 0, TWO, CertId(0));
  }

  /** Two finalize requests let through one after the other for a reachable ready order: it is
      taken when the second one comes, and both issue. */
  lemma TwoCertificatesInSomeRun()
    ensures var s := Step(Steps(EMPTY, LATE_RUN), Abandon(TWO));
            var a, b := Finalize(ONE, 1, FIRST, 0), Finalize(TWO, 1, FIRST, 0);
            && ClaimsAgain(Step(s, a), b)
            && var x, y := Advance(ONE, true, CertId(1)), Advance(TWO, true, CertId(2));
            var s' := Steps(Step(Step(s, a), b), [x, y, x, y]);
            IssuedFor(s', CertId(1), FIRST) && IssuedFor(s', CertId(2), FIRST)
  {
    LateReadyIsReachable();
    var s := Step(Steps(EMPTY, LATE_RUN), Abandon(TWO));
    assert s.requests == map[];
    InterleavedFinalizesIssueTwice(s, FIRST, 0, ONE, TWO, CertId(1), CertId(2));
    assert ClaimedBy(Step(s, Finalize(ONE, 1, FIRST, 0)), ONE, FIRST);
  }
}
