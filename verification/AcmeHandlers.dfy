/** The ACME handlers run without interruption: their effect and the invariant they keep. */
module AcmeHandlers {
  import opened Prelude
  import opened AcmeOrders
  import DomainMatch
  import Quota = AcmeRateLimit

  /** Stands for the one request being handled. */
  const HANDLER := RequestId(0)

  function Rank(q: Request): nat {
    match q
    case Validating(_, _, _, _) => 4
    case Recording(_, _, _) => 3
    case Rereading(_) => 2
    case Preparing(_, _, _, _) => 3
    case Issuing(_, _, _) => 2
    case Readying(_) => 1
    case Rejecting(_) => 1
    case Closing(_, _) => 1
  }

  lemma AdvancingLowersRank(s: Server, r: RequestId, q: Request, outcome: bool, c: CertId)
    ensures var s' := Advanced(s, r, q, outcome, c);
            r in s'.requests ==> Rank(s'.requests[r]) < Rank(q)
  {
    if q.Validating? {
      ValidatingLowersRank(s, r, q, outcome);
    } else if q.Issuing? {
      IssuingLowersRank(s, r, q, outcome, c);
    }
  }

  lemma ValidatingLowersRank(s: Server, r: RequestId, q: Request, outcome: bool)
    requires q.Validating?
    ensures var s' := AdvanceValidating(s, r, q, outcome);
            r in s'.requests ==> Rank(s'.requests[r]) < Rank(q)
  {
  }

  lemma IssuingLowersRank(s: Server, r: RequestId, q: Request, outcome: bool, c: CertId)
    requires q.Issuing?
    ensures var s' := AdvanceIssuing(s, r, q, outcome, c);
            r in s'.requests ==> Rank(s'.requests[r]) < Rank(q)
  {
  }

  /** The remaining steps of one request, none failing and nothing in between. */
  function Finish(s: Server, r: RequestId, outcome: bool, c: CertId): Server
    decreases if r in s.requests then 1 + Rank(s.requests[r]) else 0
  {
    if r !in s.requests then s
    else
      AdvancingLowersRank(s, r, s.requests[r], outcome, c);
      Finish(Step(s, Advance(r, outcome, c)), r, outcome, c)
  }

  /** What becomes of a finalize request past its checks. */
  datatype Issuance = Signed | NotSigned | NoCa | BadPayload

  datatype Call =
    | Create(id: OrderId, account: int, wanted: seq<Wanted>, at: Quota.Readings, limit: Option<nat>)
    | Respond(account: int, order: OrderId, kind: string, index: nat, lookup: bool)
    | Complete(account: int, order: OrderId, now: int, issuance: Issuance, certificate: CertId)
    | Expire(now: int)
    | Remove(order: OrderId)
    | Configure(account: int, settings: Account)
    | Forget(account: int)

  /** Whole handlers. A payload that does not parse and a missing CA end the request. */
  function Handle(s: Server, call: Call): Server {
    match call
    case Create(id, account, wanted, at, limit) => Step(s, NewOrder(id, account, wanted, at, limit))
    case Respond(account, order, kind, index, lookup) =>
      Finish(Step(s, Challenge(HANDLER, account, order, kind, index)), HANDLER, lookup, CertId(0))
    case Complete(account, order, now, issuance, c) =>
      var read := Step(s, Finalize(HANDLER, account, order, now));
      if issuance.NoCa? || issuance.BadPayload? then Step(read, Abandon(HANDLER))
      else Finish(read, HANDLER, issuance.Signed?, c)
    case Expire(now) => Step(s, Cleanup(now))
    case Remove(order) => Step(s, DeleteOrder(order))
    case Configure(account, settings) => Step(s, SetAccount(account, settings))
    case Forget(account) => Step(s, DeleteAccount(account))
  }

  function Served(calls: seq<Call>): Server {
    if calls == [] then EMPTY else Handle(Served(calls[..|calls| - 1]), calls[|calls| - 1])
  }

  // ---- The effect of a whole handler ----

  function Accepting(s: Server, account: int, order: OrderId, kind: string, index: nat): Server
    requires account in s.accounts
  {
    var s1 := SetIdentifier(Accept(s, account, order, kind, index), order, index, Valid);
    if order in s1.orders && AllValid(s1.orders[order]) then SetStatus(s1, order, Ready, None) else s1
  }

  function Rejected(s: Server, order: OrderId, index: nat): Server {
    SetStatus(SetIdentifier(s, order, index, Invalid), order, Invalid, None)
  }

  function ChallengeEffect(s: Server, account: int, order: OrderId, kind: string, index: nat, lookup: bool): Server {
    var check := ChallengeCheck(s, account, order, kind, index);
    if check.Err? || check.value.None? || !CanValidate(s, account) then s
    else if s.accounts[account].autoValidate || lookup then Accepting(s, account, order, kind, index)
    else Rejected(s, order, index)
  }

  function Issued(s: Server, q: Request, c: CertId): Server
    requires q.Issuing?
  {
    s.(certificates := s.certificates[c := Certificate(q.order, q.names, q.validUntil)])
  }

  function Issue(s: Server, order: OrderId, c: CertId): Server
    requires order in s.orders
  {
    var o := s.orders[order];
    SetStatus(Issued(s, Issuing(order, DnsNames(o.identifiers), o.notAfter), c), order, Valid, Some(c))
  }

  function FinalizeEffect(s: Server, account: int, order: OrderId, now: int, issuance: Issuance, c: CertId): Server {
    if FinalizeCheck(s, account, order, now).Err? || account !in s.accounts then s
    else
      match issuance
      case Signed => if c in s.certificates then s else Issue(s, order, c)
      case NotSigned => SetStatus(s, order, Invalid, None)
      case _ => s
  }

  lemma NextOverNext(s: Server, r: RequestId, q: Request, q': Request)
    ensures Next(Next(s, r, q), r, q') == Next(s, r, q')
  {
  }

  lemma EndedOverNext(s: Server, r: RequestId, q: Request)
    requires r !in s.requests
    ensures Ended(Next(s, r, q), r) == s
  {
    assert s.requests[r := q] - {r} == s.requests;
  }

  lemma FinishOne(s: Server, r: RequestId, q: Request, outcome: bool, c: CertId)
    ensures Finish(Next(s, r, q), r, outcome, c)
         == Finish(Advanced(Next(s, r, q), r, q, outcome, c), r, outcome, c)
  {
  }

  /** The last step of every request sets the order's status. */
  lemma FinishStatus(
      s: Server, r: RequestId, q: Request, order: OrderId, status: Status, certificate: Option<CertId>,
      outcome: bool, c: CertId)
    requires r !in s.requests
    requires forall s0 :: Advanced(s0, r, q, outcome, c) == Ended(SetStatus(s0, order, status, certificate), r)
    ensures Finish(Next(s, r, q), r, outcome, c) == SetStatus(s, order, status, certificate)
  {
    var s' := SetStatus(s, order, status, certificate);
    FinishOne(s, r, q, outcome, c);
    assert SetStatus(Next(s, r, q), order, status, certificate) == Next(s', r, q);
    EndedOverNext(s', r, q);
  }

  lemma FinishReread(s: Server, r: RequestId, order: OrderId, outcome: bool, c: CertId)
    requires r !in s.requests
    ensures Finish(Next(s, r, Rereading(order)), r, outcome, c) ==
            if order in s.orders && AllValid(s.orders[order]) then SetStatus(s, order, Ready, None) else s
  {
    var q := Rereading(order);
    FinishOne(s, r, q, outcome, c);
    if order in s.orders && AllValid(s.orders[order]) {
      NextOverNext(s, r, q, Readying(order));
      FinishStatus(s, r, Readying(order), order, Ready, None, outcome, c);
    } else {
      EndedOverNext(s, r, q);
    }
  }

  lemma FinishRecording(
      s: Server, r: RequestId, order: OrderId, index: nat, accepted: bool, outcome: bool, c: CertId)
    requires r !in s.requests
    ensures Finish(Next(s, r, Recording(order, index, accepted)), r, outcome, c) ==
            var s1 := SetIdentifier(s, order, index, if accepted then Valid else Invalid);
            if !accepted then SetStatus(s1, order, Invalid, None)
            else if order in s1.orders && AllValid(s1.orders[order]) then SetStatus(s1, order, Ready, None) else s1
  {
    var q := Recording(order, index, accepted);
    var s1 := SetIdentifier(s, order, index, if accepted then Valid else Invalid);
    FinishOne(s, r, q, outcome, c);
    assert SetIdentifier(Next(s, r, q), order, index, if accepted then Valid else Invalid) == Next(s1, r, q);
    if accepted {
      NextOverNext(s1, r, q, Rereading(order));
      FinishReread(s1, r, order, outcome, c);
    } else {
      NextOverNext(s1, r, q, Rejecting(order));
      FinishStatus(s1, r, Rejecting(order), order, Invalid, None, outcome, c);
    }
  }

  lemma FinishValidating(s: Server, r: RequestId, q: Request, outcome: bool, c: CertId)
    requires r !in s.requests && q.Validating? && CanValidate(s, q.account)
    ensures Finish(Next(s, r, q), r, outcome, c) ==
            if s.accounts[q.account].autoValidate || outcome then Accepting(s, q.account, q.order, q.kind, q.index)
            else Rejected(s, q.order, q.index)
  {
    var accepted := s.accounts[q.account].autoValidate || outcome;
    var s1 := if accepted then Accept(s, q.account, q.order, q.kind, q.index) else s;
    FinishOne(s, r, q, outcome, c);
    var q1 := Recording(q.order, q.index, accepted);
    NextOverNext(s1, r, q, q1);
    assert AdvanceValidating(Next(s, r, q), r, q, outcome) == Next(s1, r, q1);
    FinishRecording(s1, r, q.order, q.index, accepted, outcome, c);
  }

  lemma ChallengeSteps(s: Server, account: int, order: OrderId, kind: string, index: nat, lookup: bool)
    requires HANDLER !in s.requests
    ensures Handle(s, Respond(account, order, kind, index, lookup)) ==
            ChallengeEffect(s, account, order, kind, index, lookup)
  {
    var check := ChallengeCheck(s, account, order, kind, index);
    if check.Ok? && check.value.Some? {
      var q := check.value.value;
      if CanValidate(s, account) {
        FinishValidating(s, HANDLER, q, lookup, CertId(0));
      } else {
        FinishTurnedAway(s, HANDLER, q, lookup, CertId(0));
      }
    }
  }

  lemma FinishTurnedAway(s: Server, r: RequestId, q: Request, outcome: bool, c: CertId)
    requires r !in s.requests && q.Validating? && !CanValidate(s, q.account)
    ensures Finish(Next(s, r, q), r, outcome, c) == s
  {
    FinishOne(s, r, q, outcome, c);
    EndedOverNext(s, r, q);
  }

  lemma FinishIssuing(s: Server, r: RequestId, q: Request, signed: bool, c: CertId)
    requires r !in s.requests && q.Issuing?
    ensures Finish(Next(s, r, q), r, signed, c) ==
            if !signed then SetStatus(s, q.order, Invalid, None)
            else if c in s.certificates then s
            else SetStatus(Issued(s, q, c), q.order, Valid, Some(c))
  {
    FinishOne(s, r, q, signed, c);
    if !signed {
      NextOverNext(s, r, q, Rejecting(q.order));
      FinishStatus(s, r, Rejecting(q.order), q.order, Invalid, None, signed, c);
    } else if c in s.certificates {
      EndedOverNext(s, r, q);
    } else {
      FinishSigned(s, r, q, c);
    }
  }

  lemma FinishSigned(s: Server, r: RequestId, q: Request, c: CertId)
    requires r !in s.requests && q.Issuing? && c !in s.certificates
    ensures Finish(AdvanceIssuing(Next(s, r, q), r, q, true, c), r, true, c)
            == SetStatus(Issued(s, q, c), q.order, Valid, Some(c))
  {
    var s1 := Issued(s, q, c);
    NextOverNext(s1, r, q, Closing(q.order, c));
    assert AdvanceIssuing(Next(s, r, q), r, q, true, c) == Next(s1, r, Closing(q.order, c));
    FinishStatus(s1, r, Closing(q.order, c), q.order, Valid, Some(c), true, c);
  }

  lemma FinishPreparing(s: Server, r: RequestId, q: Request, signed: bool, c: CertId)
    requires r !in s.requests && q.Preparing? && q.account in s.accounts
    ensures Finish(Next(s, r, q), r, signed, c) ==
            Finish(Next(s, r, Issuing(q.order, q.names, q.validUntil)), r, signed, c)
  {
    FinishOne(s, r, q, signed, c);
    NextOverNext(s, r, q, Issuing(q.order, q.names, q.validUntil));
  }

  lemma FinalizeSteps(s: Server, account: int, order: OrderId, now: int, issuance: Issuance, c: CertId)
    requires HANDLER !in s.requests
    ensures Handle(s, Complete(account, order, now, issuance, c))
            == FinalizeEffect(s, account, order, now, issuance, c)
  {
    var check := FinalizeCheck(s, account, order, now);
    if check.Err? {
      assert s.requests - {HANDLER} == s.requests;
    } else {
      var q := check.value;
      EndedOverNext(s, HANDLER, q);
      if account in s.accounts {
        FinishPreparing(s, HANDLER, q, issuance.Signed?, c);
        FinishIssuing(s, HANDLER, Issuing(q.order, q.names, q.validUntil), issuance.Signed?, c);
      } else {
        FinishOne(s, HANDLER, q, issuance.Signed?, c);
      }
    }
  }

  // ---- What whole handlers keep ----

  ghost predicate Tidy(o: Order) {
    && (o.status in {Ready, Valid} ==> AllValid(o))
    && (o.status == Pending ==> !AllValid(o))
    && (o.certificate.Some? <==> o.status == Valid)
  }

  /** A certificate belongs to a known order, which, while its row exists, points back to it. */
  ghost predicate PointsBack(s: Server, c: CertId, id: OrderId) {
    && id in s.created
    && (id in s.orders ==> s.orders[id].certificate == Some(c))
  }

  ghost predicate OneEach(s: Server) {
    forall c, d :: (c in s.certificates && d in s.certificates
                    && s.certificates[c].order == s.certificates[d].order) ==> c == d
  }

  ghost predicate Consistent(s: Server) {
    && s.requests == map[]
    && (forall id :: id in s.orders ==> Tidy(s.orders[id]) && id in s.created)
    && (forall c :: c in s.certificates ==> PointsBack(s, c, s.certificates[c].order))
    && OneEach(s)
  }

  /** Rewriting a row that has no certificate. */
  lemma RewriteKeepsConsistent(s: Server, id: OrderId, o: Order)
    requires Consistent(s) && id in s.orders && s.orders[id].certificate == None
    requires Tidy(o) && o.certificate == None
    ensures Consistent(s.(orders := s.orders[id := o]))
  {
    var s' := s.(orders := s.orders[id := o]);
    forall c | c in s'.certificates
      ensures PointsBack(s', c, s'.certificates[c].order)
    {
      assert PointsBack(s, c, s.certificates[c].order);
    }
  }

  lemma AcceptedChangesNothing(s: Server, accepted: map<Authorization, Proof>)
    requires Consistent(s)
    ensures Consistent(s.(accepted := accepted))
  {
    var s' := s.(accepted := accepted);
    forall c | c in s'.certificates
      ensures PointsBack(s', c, s'.certificates[c].order)
    {
      assert PointsBack(s, c, s.certificates[c].order);
    }
  }

  lemma AcceptingKeepsConsistent(s: Server, account: int, order: OrderId, kind: string, index: nat)
    requires Consistent(s) && account in s.accounts && order in s.orders
    requires index < |s.orders[order].identifiers| && s.orders[order].identifiers[index].status != Valid
    ensures Consistent(Accepting(s, account, order, kind, index))
  {
    var s0 := Accept(s, account, order, kind, index);
    AcceptedChangesNothing(s, s0.accepted);
    var o2 := OneMoreValid(s.orders[order], index);
    assert Tidy(s.orders[order]);
    RewriteKeepsConsistent(s0, order, o2);
    AcceptingWrites(s, account, order, kind, index);
  }

  /** The row after one more identifier became valid. */
  function OneMoreValid(o: Order, index: nat): Order
    requires index < |o.identifiers|
  {
    var o1 := o.(identifiers := o.identifiers[index := o.identifiers[index].(status := Valid)]);
    if AllValid(o1) then o1.(status := Ready, certificate := None) else o1
  }

  lemma AcceptingWrites(s: Server, account: int, order: OrderId, kind: string, index: nat)
    requires account in s.accounts && order in s.orders && index < |s.orders[order].identifiers|
    ensures Accepting(s, account, order, kind, index)
            == Accept(s, account, order, kind, index).(
               orders := s.orders[order := OneMoreValid(s.orders[order], index)])
  {
  }

  lemma RejectedKeepsConsistent(s: Server, order: OrderId, index: nat)
    requires Consistent(s) && order in s.orders
    requires index < |s.orders[order].identifiers| && s.orders[order].identifiers[index].status != Valid
    ensures Consistent(Rejected(s, order, index))
  {
    var o := s.orders[order];
    assert Tidy(o);
    var o1 := o.(identifiers := o.identifiers[index := o.identifiers[index].(status := Invalid)]);
    RewriteKeepsConsistent(s, order, o1.(status := Invalid, certificate := None));
    assert Rejected(s, order, index).orders == s.orders[order := o1.(status := Invalid, certificate := None)];
  }

  lemma ChallengeKeepsConsistent(s: Server, account: int, order: OrderId, kind: string, index: nat, lookup: bool)
    requires Consistent(s)
    ensures Consistent(ChallengeEffect(s, account, order, kind, index, lookup))
  {
    var check := ChallengeCheck(s, account, order, kind, index);
    if check.Ok? && check.value.Some? && CanValidate(s, account) {
      AcceptingKeepsConsistent(s, account, order, kind, index);
      RejectedKeepsConsistent(s, order, index);
    }
  }

  lemma IssueKeepsConsistent(s: Server, order: OrderId, c: CertId)
    requires Consistent(s) && order in s.orders && s.orders[order].status == Ready && c !in s.certificates
    ensures Consistent(Issue(s, order, c))
  {
    var s' := Issue(s, order, c);
    forall d | d in s'.certificates
      ensures PointsBack(s', d, s'.certificates[d].order)
      ensures d != c ==> s'.certificates[d].order != order
    {
      if d != c {
        assert PointsBack(s, d, s.certificates[d].order);
      }
    }
  }

  lemma FinalizeKeepsConsistent(s: Server, account: int, order: OrderId, now: int, issuance: Issuance, c: CertId)
    requires Consistent(s)
    ensures Consistent(FinalizeEffect(s, account, order, now, issuance, c))
  {
    if FinalizeCheck(s, account, order, now).Ok? && account in s.accounts {
      if issuance.NotSigned? {
        RewriteKeepsConsistent(s, order, s.orders[order].(status := Invalid, certificate := None));
      } else if issuance.Signed? && c !in s.certificates {
        IssueKeepsConsistent(s, order, c);
      }
    }
  }

  lemma CreateKeepsConsistent(
      s: Server, id: OrderId, account: int, wanted: seq<Wanted>, at: Quota.Readings, limit: Option<nat>)
    requires Consistent(s)
    ensures Consistent(Place(s, id, account, wanted, at, limit))
  {
    var s' := Place(s, id, account, wanted, at, limit);
    if s' != s {
      assert s'.orders[id].identifiers[0].status == Pending;
      forall c | c in s'.certificates
        ensures PointsBack(s', c, s'.certificates[c].order)
      {
        assert PointsBack(s, c, s.certificates[c].order);
      }
    }
  }

  lemma DroppingKeepsConsistent(s: Server, s': Server)
    requires Consistent(s) && s' == s.(orders := s'.orders, accounts := s'.accounts)
    requires forall id :: id in s'.orders ==> id in s.orders && s'.orders[id] == s.orders[id]
    ensures Consistent(s')
  {
    forall c | c in s'.certificates
      ensures PointsBack(s', c, s'.certificates[c].order)
    {
      assert PointsBack(s, c, s.certificates[c].order);
    }
  }

  lemma HandleKeepsConsistent(s: Server, call: Call)
    requires Consistent(s)
    ensures Consistent(Handle(s, call))
  {
    match call
    case Create(id, account, wanted, at, limit) => CreateKeepsConsistent(s, id, account, wanted, at, limit);
    case Respond(account, order, kind, index, lookup) =>
      ChallengeSteps(s, account, order, kind, index, lookup);
      ChallengeKeepsConsistent(s, account, order, kind, index, lookup);
    case Complete(account, order, now, issuance, c) =>
      FinalizeSteps(s, account, order, now, issuance, c);
      FinalizeKeepsConsistent(s, account, order, now, issuance, c);
    case Expire(_) => DroppingKeepsConsistent(s, Handle(s, call));
    case Remove(_) => DroppingKeepsConsistent(s, Handle(s, call));
    case Configure(_, _) => DroppingKeepsConsistent(s, Handle(s, call));
    case Forget(_) => DroppingKeepsConsistent(s, Handle(s, call));
  }

  /** After any whole handlers from an empty table: ready or valid means every identifier is
      valid, pending means some identifier is not, an order points to a certificate exactly
      when it is valid, and no order has two certificates. */
  lemma {:induction false} WholeHandlersAreConsistent(calls: seq<Call>)
    ensures Consistent(Served(calls))
  {
    if calls != [] {
      WholeHandlersAreConsistent(calls[..|calls| - 1]);
      HandleKeepsConsistent(Served(calls[..|calls| - 1]), calls[|calls| - 1]);
    }
  }

  /** Nothing is left to happen to the order: it is valid, or its issuance failed after every
      identifier had been validated. */
  predicate Settled(o: Order) {
    o.status == Valid || (o.status == Invalid && AllValid(o))
  }

  lemma ChallengesSpareSettled(
      s: Server, id: OrderId, account: int, order: OrderId, kind: string, index: nat, lookup: bool)
    requires id in s.orders && AllValid(s.orders[id])
    ensures id in ChallengeEffect(s, account, order, kind, index, lookup).orders
    ensures ChallengeEffect(s, account, order, kind, index, lookup).orders[id] == s.orders[id]
  {
  }

  lemma FinalizesSpareSettled(
      s: Server, id: OrderId, account: int, order: OrderId, now: int, issuance: Issuance, c: CertId)
    requires id in s.orders && s.orders[id].status != Ready
    ensures id in FinalizeEffect(s, account, order, now, issuance, c).orders
    ensures FinalizeEffect(s, account, order, now, issuance, c).orders[id] == s.orders[id]
  {
  }

  /** No whole handler changes a settled order; it can only be deleted. */
  lemma SettledOrdersStay(s: Server, call: Call, id: OrderId)
    requires Consistent(s) && id in s.orders && Settled(s.orders[id])
    requires id in Handle(s, call).orders
    ensures Handle(s, call).orders[id] == s.orders[id]
  {
    match call
    case Respond(account, order, kind, index, lookup) =>
      ChallengeSteps(s, account, order, kind, index, lookup);
      ChallengesSpareSettled(s, id, account, order, kind, index, lookup);
    case Complete(account, order, now, issuance, c) =>
      FinalizeSteps(s, account, order, now, issuance, c);
      FinalizesSpareSettled(s, id, account, order, now, issuance, c);
    case _ =>
  }

  lemma EffectsKeepIds(s: Server, call: Call)
    requires s.requests == map[] && !call.Create?
    ensures Handle(s, call).created == s.created
    ensures forall id :: id in Handle(s, call).orders ==> id in s.orders
  {
    match call
    case Respond(account, order, kind, index, lookup) =>
      ChallengeSteps(s, account, order, kind, index, lookup);
      ChallengeKeepsIds(s, account, order, kind, index, lookup);
    case Complete(account, order, now, issuance, c) =>
      FinalizeSteps(s, account, order, now, issuance, c);
      FinalizeKeepsIds(s, account, order, now, issuance, c);
    case _ =>
  }

  lemma ChallengeKeepsIds(s: Server, account: int, order: OrderId, kind: string, index: nat, lookup: bool)
    ensures var s' := ChallengeEffect(s, account, order, kind, index, lookup);
            s'.created == s.created && s'.orders.Keys == s.orders.Keys
  {
    RejectedKeepsIds(s, order, index);
    var check := ChallengeCheck(s, account, order, kind, index);
    if check.Ok? && CanValidate(s, account) {
      AcceptingWrites(s, account, order, kind, index);
    }
  }

  lemma RejectedKeepsIds(s: Server, order: OrderId, index: nat)
    ensures var s' := Rejected(s, order, index);
            s'.created == s.created && s'.orders.Keys == s.orders.Keys
  {
  }

  lemma FinalizeKeepsIds(s: Server, account: int, order: OrderId, now: int, issuance: Issuance, c: CertId)
    ensures var s' := FinalizeEffect(s, account, order, now, issuance, c);
            s'.created == s.created && s'.orders.Keys == s.orders.Keys
  {
  }

  lemma {:induction false} KnownIdsStayKnown(calls: seq<Call>, i: nat, id: OrderId)
    requires i <= |calls| && id in Served(calls[..i]).created
    ensures id in Served(calls).created
  {
    if i == |calls| {
      assert calls[..i] == calls;
    } else {
      var n := |calls| - 1;
      assert calls[..n][..i] == calls[..i];
      assert Served(calls) == Handle(Served(calls[..n]), calls[n]);
      KnownIdsStayKnown(calls[..n], i, id);
      NoneInFlight(calls[..n]);
      HandleKeepsKnown(Served(calls[..n]), calls[n], id);
    }
  }

  lemma NoneInFlight(calls: seq<Call>)
    ensures Served(calls).requests == map[]
  {
    WholeHandlersAreConsistent(calls);
  }

  lemma HandleKeepsKnown(s: Server, call: Call, id: OrderId)
    requires s.requests == map[] && id in s.created
    ensures id in Handle(s, call).created
    ensures id in Handle(s, call).orders ==> id in s.orders
  {
    if !call.Create? {
      EffectsKeepIds(s, call);
    }
  }

  /** Once valid an order keeps its status and its certificate for as long as its row exists,
      whatever whole handlers follow. */
  lemma {:induction false} ValidForever(calls: seq<Call>, i: nat, id: OrderId)
    requires i <= |calls| && id in Served(calls[..i]).orders && Settled(Served(calls[..i]).orders[id])
    requires id in Served(calls).orders
    ensures Served(calls).orders[id] == Served(calls[..i]).orders[id]
  {
    if i == |calls| {
      assert calls[..i] == calls;
    } else {
      var n := |calls| - 1;
      var before := Served(calls[..n]);
      assert calls[..n][..i] == calls[..i];
      WholeHandlersAreConsistent(calls[..i]);
      WholeHandlersAreConsistent(calls[..n]);
      KnownIdsStayKnown(calls[..n], i, id);
      HandleKeepsKnown(before, calls[n], id);
      ValidForever(calls[..n], i, id);
      SettledOrdersStay(before, calls[n], id);
    }
  }

  // ---- Whole handlers are runs of steps ----

  lemma RunOfOneMore(events: seq<Event>, e: Event)
    ensures Run(events + [e]) == Step(Run(events), e)
  {
    assert (events + [e])[..|events|] == events;
  }

  lemma {:induction false} FinishIsARun(events: seq<Event>, r: RequestId, outcome: bool, c: CertId)
    ensures exists more :: Run(more) == Finish(Run(events), r, outcome, c)
    decreases if r in Run(events).requests then 1 + Rank(Run(events).requests[r]) else 0
  {
    var s := Run(events);
    if r in s.requests {
      var e := Advance(r, outcome, c);
      RunOfOneMore(events, e);
      AdvancingLowersRank(s, r, s.requests[r], outcome, c);
      FinishIsARun(events + [e], r, outcome, c);
    }
  }

  /** So everything every interleaving keeps holds after whole handlers too. */
  lemma {:induction false} WholeHandlersAreARun(calls: seq<Call>)
    ensures exists events :: Run(events) == Served(calls)
  {
    if calls == [] {
      assert Run([]) == Served(calls);
    } else {
      var call := calls[|calls| - 1];
      WholeHandlersAreARun(calls[..|calls| - 1]);
      var events :| Run(events) == Served(calls[..|calls| - 1]);
      var first := FirstEvent(call);
      RunOfOneMore(events, first);
      if call.Respond? {
        FinishIsARun(events + [first], HANDLER, call.lookup, CertId(0));
      } else if call.Complete? {
        RunOfOneMore(events + [first], Abandon(HANDLER));
        FinishIsARun(events + [first], HANDLER, call.issuance.Signed?, call.certificate);
      } else {
        assert Run(events + [first]) == Served(calls);
      }
    }
  }

  function FirstEvent(call: Call): Event {
    match call
    case Create(id, account, wanted, at, limit) => NewOrder(id, account, wanted, at, limit)
    case Respond(account, order, kind, index, _) => Challenge(HANDLER, account, order, kind, index)
    case Complete(account, order, now, _, _) => Finalize(HANDLER, account, order, now)
    case Expire(now) => Cleanup(now)
    case Remove(order) => DeleteOrder(order)
    case Configure(account, settings) => SetAccount(account, settings)
    case Forget(account) => DeleteAccount(account)
  }

  // ---- Once failed ----

  function HandleAll(s: Server, calls: seq<Call>): Server
    decreases |calls|
  {
    if calls == [] then s else HandleAll(Handle(s, calls[0]), calls[1..])
  }

  lemma {:induction false} HandleAllKeepsSettled(s: Server, calls: seq<Call>, id: OrderId)
    requires Consistent(s) && id in s.created && (id in s.orders ==> Settled(s.orders[id]))
    ensures id in HandleAll(s, calls).orders ==> id in s.orders && HandleAll(s, calls).orders[id] == s.orders[id]
    decreases |calls|
  {
    if calls != [] {
      HandleKeepsConsistent(s, calls[0]);
      HandleKeepsKnown(s, calls[0], id);
      if id in Handle(s, calls[0]).orders {
        SettledOrdersStay(s, calls[0], id);
      }
      HandleAllKeepsSettled(Handle(s, calls[0]), calls[1..], id);
    }
  }

  /** How many identifiers are not valid, among the first `n`. */
  function Missing(o: Order, n: nat): nat
    requires n <= |o.identifiers|
  {
    if n == 0 then 0 else Missing(o, n - 1) + (if o.identifiers[n - 1].status == Valid then 0 else 1)
  }

  lemma {:induction false} MissingAfterOne(o: Order, i: nat, o': Order, n: nat)
    requires i < |o.identifiers| && o.identifiers[i].status != Valid && n <= |o.identifiers|
    requires o'.identifiers == o.identifiers[i := o.identifiers[i].(status := Valid)]
    ensures Missing(o', n) == Missing(o, n) - (if i < n then 1 else 0)
  {
    if n > 0 {
      MissingAfterOne(o, i, o', n - 1);
    }
  }

  lemma {:induction false} NoneMissing(o: Order, n: nat)
    requires n <= |o.identifiers| && forall i :: 0 <= i < n ==> o.identifiers[i].status == Valid
    ensures Missing(o, n) == 0
  {
    if n > 0 {
      NoneMissing(o, n - 1);
    }
  }

  /** The account lets every challenge through. */
  predicate Lenient(s: Server, account: int) {
    CanValidate(s, account) && s.accounts[account].autoValidate
  }

  /** One challenge at a time until every identifier is valid, the last making the order ready. */
  lemma {:induction false} ChallengesMakeReady(s: Server, id: OrderId) returns (calls: seq<Call>)
    requires s.requests == map[] && id in s.orders && !AllValid(s.orders[id]) && Lenient(s, s.orders[id].account)
    ensures var s' := HandleAll(s, calls);
            id in s'.orders && s'.orders[id].status == Ready
    decreases Missing(s.orders[id], |s.orders[id].identifiers|)
  {
    var o := s.orders[id];
    var i :| 0 <= i < |o.identifiers| && o.identifiers[i].status != Valid;
    var call := Respond(o.account, id, "dns-01", i, true);
    ChallengeSteps(s, o.account, id, "dns-01", i, true);
    AcceptingWrites(s, o.account, id, "dns-01", i);
    var s1 := Handle(s, call);
    assert s1.orders[id] == OneMoreValid(o, i);
    if AllValid(s1.orders[id]) {
      calls := [call];
      assert HandleAll(s1, [call][1..]) == s1;
    } else {
      MissingAfterOne(o, i, s1.orders[id], |o.identifiers|);
      var more := ChallengesMakeReady(s1, id);
      calls := [call] + more;
      assert calls[1..] == more;
    }
  }

  ghost predicate BecomesReady(s: Server, id: OrderId, calls: seq<Call>) {
    id in HandleAll(s, calls).orders && HandleAll(s, calls).orders[id].status == Ready
  }

  /** A failed order can still become ready exactly when some identifier of it is not valid: a
      failed validation can be retried, a failed issuance cannot. */
  lemma FailedOrderCanRecoverIff(s: Server, id: OrderId)
    requires Consistent(s) && id in s.orders && s.orders[id].status == Invalid
    ensures (exists calls :: BecomesReady(s, id, calls)) <==> !AllValid(s.orders[id])
  {
    if AllValid(s.orders[id]) {
      forall calls
        ensures !BecomesReady(s, id, calls)
      {
        HandleAllKeepsSettled(s, calls, id);
      }
    } else {
      var configure := Configure(s.orders[id].account, Account("", true, UsableKey));
      var calls := ChallengesMakeReady(Handle(s, configure), id);
      assert ([configure] + calls)[1..] == calls;
      assert BecomesReady(s, id, [configure] + calls);
    }
  }

  // ---- The quota ----

  /** The steps act on the order table as the quota model describes; requests in flight and
      account changes leave the quota alone. */
  lemma StepsFollowQuota(s: Server, e: Event, limit: nat)
    ensures e.Cleanup? ==> QuotaView(Step(s, e).orders) == Quota.Step(QuotaView(s.orders), Quota.Cleanup(e.now), limit)
    ensures e.NewOrder? && e.id !in s.created && e.limit == Some(limit)
            && NewOrderRefusal(s, e.account, e.wanted, e.at.counted, None) == None ==>
              && QuotaView(Step(s, e).orders)
                 == Quota.Step(QuotaView(s.orders), Quota.NewOrder(e.id, e.account, e.at), limit)
              && (NewOrderRefusal(s, e.account, e.wanted, e.at.counted, e.limit) == None
                  <==> Quota.Admits(QuotaView(s.orders), e.account, e.at.counted, limit))
    ensures !e.Cleanup? && !e.NewOrder? && !e.DeleteOrder? ==> QuotaView(Step(s, e).orders) == QuotaView(s.orders)
  {
    match e
    case NewOrder(id, account, wanted, at, _) =>
      if id !in s.created && NewOrderRefusal(s, account, wanted, at.counted, None) == None {
        PlacingFollowsQuota(s, id, account, wanted, at, limit);
      }
    case Advance(r, outcome, c) =>
      if r in s.requests {
        AdvancedKeepsQuota(s, r, s.requests[r], outcome, c);
      }
    case _ =>
  }

  lemma PlacingFollowsQuota(
      s: Server, id: OrderId, account: int, wanted: seq<Wanted>, at: Quota.Readings, limit: nat)
    requires id !in s.created && NewOrderRefusal(s, account, wanted, at.counted, None) == None
    ensures QuotaView(Place(s, id, account, wanted, at, Some(limit)).orders)
            == Quota.Step(QuotaView(s.orders), Quota.NewOrder(id, account, at), limit)
    ensures NewOrderRefusal(s, account, wanted, at.counted, Some(limit)) == None
            <==> Quota.Admits(QuotaView(s.orders), account, at.counted, limit)
  {
  }

  lemma WritesKeepQuota(s: Server, id: OrderId, status: Status, certificate: Option<CertId>, index: nat)
    ensures QuotaView(SetStatus(s, id, status, certificate).orders) == QuotaView(s.orders)
    ensures QuotaView(SetIdentifier(s, id, index, status).orders) == QuotaView(s.orders)
  {
  }

  lemma AdvancedKeepsQuota(s: Server, r: RequestId, q: Request, outcome: bool, c: CertId)
    ensures QuotaView(Advanced(s, r, q, outcome, c).orders) == QuotaView(s.orders)
  {
    match q
    case Recording(id, index, accepted) => WritesKeepQuota(s, id, if accepted then Valid else Invalid, None, index);
    case Readying(id) => WritesKeepQuota(s, id, Ready, None, 0);
    case Rejecting(id) => WritesKeepQuota(s, id, Invalid, None, 0);
    case Closing(id, certificate) => WritesKeepQuota(s, id, Valid, Some(certificate), 0);
    case _ =>
  }

  // ---- The handlers as they update the table ----

  class OrderDesk {
    var accounts: map<int, Account>
    var orders: map<OrderId, Order>
    var certificates: map<CertId, Certificate>
    ghost var created: map<OrderId, Creation>
    ghost var accepted: map<Authorization, Proof>

    constructor ()
      ensures State() == EMPTY
    {
      accounts, orders, certificates, created, accepted := map[], map[], map[], map[], map[];
    }

    ghost function State(): (s: Server)
      reads this
    {
      Server(accounts, orders, map[], certificates, created, accepted)
    }

    method UpdateOrderStatus(id: OrderId, status: Status, certificate: Option<CertId>)
      modifies this`orders
      ensures State() == SetStatus(old(State()), id, status, certificate)
      ensures orders == if id in old(orders)
                        then old(orders)[id := old(orders)[id].(status := status, certificate := certificate)]
                        else old(orders)
    {
      if id in orders {
        orders := orders[id := orders[id].(status := status, certificate := certificate)];
      }
    }

    method UpdateIdentifierStatus(id: OrderId, index: nat, status: Status)
      modifies this`orders
      ensures State() == SetIdentifier(old(State()), id, index, status)
      ensures id !in old(orders) || index >= |old(orders)[id].identifiers| ==> orders == old(orders)
      ensures id in old(orders) && index < |old(orders)[id].identifiers| ==>
                var was := old(orders)[id].identifiers;
                orders == old(orders)[id := old(orders)[id].(
                  identifiers := was[index := was[index].(status := status)])]
    {
      if id in orders && index < |orders[id].identifiers| {
        var o := orders[id];
        orders := orders[id := o.(identifiers := o.identifiers[index := o.identifiers[index].(status := status)])];
      }
    }

    /** Goes through the identifiers in order and stops at the first bad one. */
    method CheckIdentifiers(wanted: seq<Wanted>) returns (refusal: Option<Refusal>)
      ensures refusal == FirstRefusal(wanted)
    {
      for i := 0 to |wanted|
        invariant FirstRefusal(wanted) == FirstRefusal(wanted[i..])
      {
        var w := wanted[i];
        assert wanted[i..][1..] == wanted[i + 1..];
        if w.kind != "dns" || w.value == "" { return Some(Malformed); }
        if !DomainMatch.IsValidDnsName(w.value) { return Some(RejectedIdentifier); }
      }
      return None;
    }

    /** `id` is the row id the insert hands out. */
    method NewOrder(id: OrderId, account: int, wanted: seq<Wanted>, at: Quota.Readings, limit: Option<nat>)
      returns (r: Result<Order, Refusal>)
      requires id !in created
      modifies this`orders, this`created
      ensures State() == Handle(old(State()), Create(id, account, wanted, at, limit))
      ensures NewOrderRefusal(old(State()), account, wanted, at.counted, limit)
              == if r.Err? then Some(r.error) else None
      ensures r.Ok? ==> id in orders && r.value == orders[id] && r.value.status == Pending
    {
      if account !in accounts { return Err(ServerInternal); }
      if wanted == [] { return Err(Malformed); }
      var refusal := CheckIdentifiers(wanted);
      if refusal.Some? { return Err(refusal.value); }
      if !DomainMatch.CheckDomains(accounts[account].allowed, Names(wanted)) { return Err(RejectedIdentifier); }
      if limit.Some? {
        var cutoff := at.counted - Quota.WINDOW;
        var recent := |set o | o in orders && orders[o].account == account && orders[o].createdOn > cutoff|;
        assert Quota.Recent(QuotaView(orders), account, at.counted)
            == set o | o in orders && orders[o].account == account && orders[o].createdOn > cutoff;
        if recent >= limit.value { return Err(Malformed); }
      }
      var o := PendingOrder(account, wanted, at);
      orders := orders[id := o];
      created := created[id := Creation(account, accounts[account].allowed, Names(wanted), o.notAfter)];
      return Ok(o);
    }

    /** `lookup` is the answer of the DNS or HTTP validation, if one is made. */
    method GetChallenge(account: int, order: OrderId, kind: string, index: nat, lookup: bool)
      returns (r: Result<Status, Refusal>)
      modifies this`orders, this`accepted
      ensures State() == Handle(old(State()), Respond(account, order, kind, index, lookup))
      ensures r.Ok? ==>
                && order in orders && index < |orders[order].identifiers|
                && orders[order].identifiers[index].status == Valid
      ensures order in old(orders) && old(orders)[order].account != account ==> State() == old(State())
      ensures (kind == "http-01" || kind == "dns-01") && order in old(orders) && old(orders)[order].account != account
              ==> r == Err(Unauthorized)
      ensures var check := ChallengeCheck(old(State()), account, order, kind, index);
              r == if check.Err? then Err(check.error)
                   else if check.value.None? then Ok(Valid)
                   else if !CanValidate(old(State()), account) then Err(ValidationRefusal(old(State()), account).value)
                   else if accounts[account].autoValidate || lookup then Ok(Valid)
                   else Err(Unauthorized)
    {
      ghost var s := State();
      ChallengeSteps(s, account, order, kind, index, lookup);
      if kind != "http-01" && kind != "dns-01" { return Err(Malformed); }
      if order !in orders { return Err(NotFound); }
      if orders[order].account != account { return Err(Unauthorized); }
      if index >= |orders[order].identifiers| { return Err(NotFound); }
      var identifier := orders[order].identifiers[index];
      if identifier.status == Valid { return Ok(Valid); }
      if IsWildcard(identifier.value) && kind == "http-01" { return Err(Malformed); }
      if account !in accounts { return Err(ServerInternal); }
      match accounts[account].key {
        case NoKey => return Err(AccountDoesNotExist);
        case CorruptKey => return Err(ServerInternal);
        case UnsupportedKey => return Err(Malformed);
        case UsableKey =>
      }

      var valid := accounts[account].autoValidate || lookup;
      RecordVerdict(account, order, kind, index, valid);
      if valid {
        assert orders[order].identifiers[index].status == Valid;
        return Ok(Valid);
      }
      return Err(Unauthorized);
    }

    /** The identifier's status first, then the order's: ready once every identifier is valid,
        invalid after a failed validation. */
    method RecordVerdict(account: int, order: OrderId, kind: string, index: nat, valid: bool)
      requires account in accounts && order in orders && index < |orders[order].identifiers|
      modifies this`orders, this`accepted
      ensures State() == if valid then Accepting(old(State()), account, order, kind, index)
                         else Rejected(old(State()), order, index)
      ensures order in orders && |orders[order].identifiers| == |old(orders[order].identifiers)|
      ensures valid ==> orders[order].identifiers[index].status == Valid
    {
      if valid {
        ghost var proof := if accounts[account].autoValidate then Automatic else ByChallenge(kind);
        accepted := accepted[Authorization(order, index) := proof];
      }
      UpdateIdentifierStatus(order, index, if valid then Valid else Invalid);
      if !valid {
        UpdateOrderStatus(order, Invalid, None);
      } else if AllValid(orders[order]) {
        UpdateOrderStatus(order, Ready, None);
      }
    }

    /** `c` is the row id of the new certificate. */
    method FinalizeOrder(account: int, order: OrderId, now: int, issuance: Issuance, c: CertId)
      returns (r: Result<Order, Refusal>)
      requires c !in certificates
      modifies this`orders, this`certificates
      ensures State() == Handle(old(State()), Complete(account, order, now, issuance, c))
      ensures order in old(orders) && old(orders)[order].account != account ==>
                r == Err(Unauthorized) && State() == old(State())
      ensures order in old(orders) && old(orders)[order].account == account && old(orders)[order].status != Ready ==>
                r == Err(Malformed) && State() == old(State())
      ensures var check := FinalizeCheck(old(State()), account, order, now);
              r.Err? ==> r.error == if check.Err? then check.error
                                    else if issuance.BadPayload? then Malformed else ServerInternal
      ensures r.Ok? <==>
              FinalizeCheck(old(State()), account, order, now).Ok? && account in accounts && issuance.Signed?
      ensures r.Ok? ==>
                && order in orders && r.value == orders[order]
                && r.value.status == Valid && r.value.certificate == Some(c)
    {
      ghost var s := State();
      FinalizeSteps(s, account, order, now, issuance, c);
      if order !in orders { return Err(NotFound); }
      var o := orders[order];
      if o.account != account { return Err(Unauthorized); }
      if o.status != Ready { return Err(Malformed); }
      if o.expires <= now { return Err(Malformed); }
      if issuance.BadPayload? { return Err(Malformed); }
      var names := DnsNames(o.identifiers);
      if account !in accounts { return Err(ServerInternal); }
      if issuance.NoCa? { return Err(ServerInternal); }
      if issuance.NotSigned? {
        UpdateOrderStatus(order, Invalid, None);
        return Err(ServerInternal);
      }
      certificates := certificates[c := Certificate(order, names, o.notAfter)];
      UpdateOrderStatus(order, Valid, Some(c));
      return Ok(orders[order]);
    }

    method CleanupExpiredOrders(now: int)
      modifies this`orders
      ensures State() == Handle(old(State()), Expire(now))
      ensures forall id :: id in orders <==> id in old(orders) && old(orders)[id].expires >= now
      ensures forall id :: id in orders ==> orders[id] == old(orders)[id]
    {
      orders := map id | id in orders && !(orders[id].expires < now) :: orders[id];
    }
  }
}
