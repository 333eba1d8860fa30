/** What the ACME handlers accept and what they change, in terms of the order's row, the account
    and the request alone: exactly when each goes through, which error it gives otherwise, and
    what every field holds afterwards. */
module AcmeEffects {
  import opened Prelude
  import opened AcmeOrders
  import opened AcmeHandlers
  import DomainMatch
  import Quota = AcmeRateLimit

  // ---- Answers ----

  predicate Supported(kind: string) {
    kind == "http-01" || kind == "dns-01"
  }

  /** Whose order it is, whether the identifier is there, and the wildcard rule, in that order. */
  lemma ChallengeAnswers(s: Server, account: int, id: OrderId, kind: string, index: nat)
    ensures var check := ChallengeCheck(s, account, id, kind, index);
            && (!Supported(kind) ==> check == Err(Malformed))
            && (Supported(kind) && id !in s.orders ==> check == Err(NotFound))
            && (Supported(kind) && id in s.orders && s.orders[id].account != account ==> check == Err(Unauthorized))
            && (Supported(kind) && id in s.orders && s.orders[id].account == account ==>
                  var identifiers := s.orders[id].identifiers;
                  if index >= |identifiers| then check == Err(NotFound)
                  else if identifiers[index].status == Valid then check == Ok(None)
                  else if "*." <= identifiers[index].value && kind == "http-01" then check == Err(Malformed)
                  else check == Ok(Some(Validating(account, id, index, kind))))
  {
  }

  /** Before the lookup the account has to have a key that can be used. */
  lemma ValidationAnswers(s: Server, account: int)
    ensures ValidationRefusal(s, account) == None <==> account in s.accounts && s.accounts[account].key == UsableKey
    ensures account !in s.accounts ==> ValidationRefusal(s, account) == Some(ServerInternal)
    ensures account in s.accounts && s.accounts[account].key == NoKey ==>
              ValidationRefusal(s, account) == Some(AccountDoesNotExist)
    ensures account in s.accounts && s.accounts[account].key == CorruptKey ==>
              ValidationRefusal(s, account) == Some(ServerInternal)
    ensures account in s.accounts && s.accounts[account].key == UnsupportedKey ==>
              ValidationRefusal(s, account) == Some(Malformed)
  {
  }

  /** Whose order it is, then whether it is ready and has not expired. */
  lemma FinalizeAnswers(s: Server, account: int, id: OrderId, now: int)
    ensures var check := FinalizeCheck(s, account, id, now);
            && (id !in s.orders ==> check == Err(NotFound))
            && (id in s.orders && s.orders[id].account != account ==> check == Err(Unauthorized))
            && (id in s.orders && s.orders[id].account == account ==>
                  (check.Ok? <==> s.orders[id].status == Ready && now < s.orders[id].expires)
                  && (check.Err? ==> check.error == Malformed))
  {
  }

  /** The account's orders the quota counts: of the last 24 hours, and of no other account. */
  function Counted(s: Server, account: int, counted: int): set<OrderId> {
    set id | id in s.orders && s.orders[id].account == account && s.orders[id].createdOn > counted - 86_400_000
  }

  /** An order is taken exactly for a known account, at least one identifier, only acceptable DNS
      names, each permitted to the account, and below the account's own limit. */
  lemma NewOrderAnswers(s: Server, account: int, wanted: seq<Wanted>, counted: int, limit: Option<nat>)
    ensures NewOrderRefusal(s, account, wanted, counted, limit) == None <==>
            && account in s.accounts && wanted != []
            && (forall i :: 0 <= i < |wanted| ==>
                  wanted[i].kind == "dns" && wanted[i].value != "" && DomainMatch.IsValidDnsName(wanted[i].value))
            && DomainMatch.CheckDomains(s.accounts[account].allowed, Names(wanted))
            && (limit.Some? ==> |Counted(s, account, counted)| < limit.value)
  {
    FirstRefusalFindsAll(wanted);
    assert Quota.Recent(QuotaView(s.orders), account, counted) == Counted(s, account, counted);
    assert forall i :: 0 <= i < |wanted| ==>
        (WantedRefusal(wanted[i]) == None <==>
         wanted[i].kind == "dns" && wanted[i].value != "" && DomainMatch.IsValidDnsName(wanted[i].value));
  }

  /** The error of the first check that fails: the account, whether anything was asked for, the
      names, the account's patterns, and its quota last. */
  lemma NewOrderErrors(s: Server, account: int, wanted: seq<Wanted>, counted: int, limit: Option<nat>)
    ensures var refusal := NewOrderRefusal(s, account, wanted, counted, limit);
            && (account !in s.accounts ==> refusal == Some(ServerInternal))
            && (account in s.accounts && wanted == [] ==> refusal == Some(Malformed))
            && (account in s.accounts && wanted != [] ==>
                  if FirstRefusal(wanted).Some? then refusal == FirstRefusal(wanted)
                  else if !DomainMatch.CheckDomains(s.accounts[account].allowed, Names(wanted))
                  then refusal == Some(RejectedIdentifier)
                  else refusal == None || refusal == Some(Malformed))
  {
  }

  lemma RefusalIsTheFirst(wanted: seq<Wanted>, i: nat)
    requires i < |wanted| && FirstRefusal(wanted[..i]) == None
    ensures wanted[i].kind != "dns" || wanted[i].value == "" ==> FirstRefusal(wanted) == Some(Malformed)
    ensures wanted[i].kind == "dns" && wanted[i].value != "" && !DomainMatch.IsValidDnsName(wanted[i].value) ==>
              FirstRefusal(wanted) == Some(RejectedIdentifier)
    decreases i
  {
    if i > 0 {
      assert wanted[..i][0] == wanted[0] && wanted[..i][1..] == wanted[1..][..i - 1];
      RefusalIsTheFirst(wanted[1..], i - 1);
    }
  }

  // ---- Strangers ----

  /** A challenge or finalize request of an account that does not own the order changes nothing. */
  lemma StrangersChangeNothing(s: Server, account: int, id: OrderId)
    requires HANDLER !in s.requests && id in s.orders && s.orders[id].account != account
    ensures forall kind, index: nat, lookup :: Handle(s, Respond(account, id, kind, index, lookup)) == s
    ensures forall now, issuance, c :: Handle(s, Complete(account, id, now, issuance, c)) == s
  {
    forall kind, index: nat, lookup
      ensures Handle(s, Respond(account, id, kind, index, lookup)) == s
    {
      ChallengeSteps(s, account, id, kind, index, lookup);
    }
    forall now, issuance, c
      ensures Handle(s, Complete(account, id, now, issuance, c)) == s
    {
      FinalizeSteps(s, account, id, now, issuance, c);
    }
  }

  /** In every interleaving each validation is accepted from the account that placed the order,
      while that account has a usable key. */
  lemma AcceptedFromTheOwner(events: seq<Event>, k: nat, a: Authorization)
    requires AcceptedAt(events, k, a)
    ensures var s := Run(events[..k]);
            && a.order in s.created && a.order in Run(events).created
            && Run(events).created[a.order].account == s.created[a.order].account
            && s.requests[events[k].request].account == s.created[a.order].account
            && s.created[a.order].account in s.accounts
            && s.accounts[s.created[a.order].account].key == UsableKey
            && (s.accounts[s.created[a.order].account].autoValidate || events[k].outcome)
  {
    var s := Run(events[..k]);
    RunIsSound(events[..k]);
    assert RequestSound(s, s.requests[events[k].request]);
    CreatedStays(events, k, a.order);
  }

  lemma {:induction false} CreatedStays(events: seq<Event>, k: nat, id: OrderId)
    requires k <= |events| && id in Run(events[..k]).created
    ensures id in Run(events).created && Run(events).created[id] == Run(events[..k]).created[id]
  {
    if k == |events| {
      assert events[..k] == events;
    } else {
      var n := |events| - 1;
      assert events[..n][..k] == events[..k];
      CreatedStays(events[..n], k, id);
      StepKeepsCreated(Run(events[..n]), events[n], id);
    }
  }

  lemma StepKeepsCreated(s: Server, e: Event, id: OrderId)
    requires id in s.created
    ensures id in Step(s, e).created && Step(s, e).created[id] == s.created[id]
  {
    if e.Advance? && e.request in s.requests {
      AdvancedKeepsCreated(s, e.request, s.requests[e.request], e.outcome, e.certificate);
    }
  }

  lemma AdvancedKeepsCreated(s: Server, r: RequestId, q: Request, outcome: bool, c: CertId)
    ensures Advanced(s, r, q, outcome, c).created == s.created
  {
  }

  /** So each identifier of a ready, valid or certified order was accepted from its owner. */
  lemma OwnerValidatedBeforeIssued(events: seq<Event>, id: OrderId, i: nat)
    requires var s := Run(events);
             && id in s.created && i < |s.created[id].names|
             && ((id in s.orders && s.orders[id].status in {Ready, Valid}) || exists c :: IssuedFor(s, c, id))
    ensures exists k: nat :: AcceptedAt(events, k, Authorization(id, i))
                             && Run(events[..k]).requests[events[k].request].account == Run(events).created[id].account
  {
    ValidatedBeforeReadyOrIssued(events, id, i);
    var k: nat :| AcceptedAt(events, k, Authorization(id, i));
    AcceptedFromTheOwner(events, k, Authorization(id, i));
  }

  // ---- Changes ----

  /** Nothing but this order's row has changed. */
  ghost predicate OnlyOrder(s: Server, after: Server, id: OrderId) {
    && after.accounts == s.accounts && after.requests == s.requests && after.created == s.created
    && forall x :: x != id ==>
         (x in after.orders <==> x in s.orders) && (x in s.orders ==> after.orders[x] == s.orders[x])
  }

  /** An order placed: pending, its identifiers pending in the order they were asked for, to end in
      ninety days and to expire in one, both from the first reading. */
  lemma PlacedOrderIs(s: Server, call: Call)
    requires call.Create?
    ensures var (after, wanted) := (Handle(s, call), call.wanted);
            var goes := NewOrderRefusal(s, call.account, wanted, call.at.counted, call.limit) == None
                        && call.id !in s.created;
            && (!goes ==> after == s)
            && (goes ==>
                  && after.accounts == s.accounts && after.certificates == s.certificates
                  && after.orders.Keys == s.orders.Keys + {call.id}
                  && (forall x :: x in s.orders && x != call.id ==> after.orders[x] == s.orders[x])
                  && var o := after.orders[call.id];
                  && o.account == call.account && o.status == Pending && o.certificate == None
                  && o.createdOn == call.at.stored
                  && o.expires == call.at.now + 86_400_000 && o.notAfter == call.at.now + 90 * 86_400_000
                  && |o.identifiers| == |wanted|
                  && (forall i :: 0 <= i < |wanted| ==>
                        o.identifiers[i] == Identifier(wanted[i].kind, wanted[i].value, Pending))
                  && call.id in after.created && after.created[call.id].account == call.account
                  && after.created[call.id].allowed == s.accounts[call.account].allowed)
  {
  }

  /** A challenge is decided exactly for the owner's own unvalidated identifier, with a supported
      kind the wildcard rule permits and a usable key. */
  predicate Decided(s: Server, account: int, id: OrderId, kind: string, index: nat) {
    && Supported(kind) && id in s.orders && s.orders[id].account == account
    && index < |s.orders[id].identifiers| && s.orders[id].identifiers[index].status != Valid
    && !("*." <= s.orders[id].identifiers[index].value && kind == "http-01")
    && account in s.accounts && s.accounts[account].key == UsableKey
  }

  /** It changes the identifier and then the order: ready once every identifier is valid, invalid
      when the validation failed. Success is remembered with its reason. */
  lemma ChallengeChanges(s: Server, account: int, id: OrderId, kind: string, index: nat, lookup: bool)
    requires HANDLER !in s.requests
    ensures var after := Handle(s, Respond(account, id, kind, index, lookup));
            && (!Decided(s, account, id, kind, index) ==> after == s)
            && (Decided(s, account, id, kind, index) ==>
                  var o := s.orders[id];
                  var ok := s.accounts[account].autoValidate || lookup;
                  var others := forall i :: 0 <= i < |o.identifiers| && i != index ==> o.identifiers[i].status == Valid;
                  var all := ok && others;
                  && OnlyOrder(s, after, id) && after.certificates == s.certificates && id in after.orders
                  && var o' := after.orders[id];
                  && |o'.identifiers| == |o.identifiers|
                  && o'.identifiers[index] == o.identifiers[index].(status := if ok then Valid else Invalid)
                  && (forall i :: 0 <= i < |o.identifiers| && i != index ==> o'.identifiers[i] == o.identifiers[i])
                  && o'.status == (if !ok then Invalid else if all then Ready else o.status)
                  && o'.certificate == (if !ok || all then None else o.certificate)
                  && o'.account == o.account && o'.notAfter == o.notAfter && o'.expires == o.expires
                  && o'.createdOn == o.createdOn
                  && (!ok ==> after.accepted == s.accepted)
                  && (ok ==> after.accepted == s.accepted[Authorization(id, index) :=
                               if s.accounts[account].autoValidate then Automatic else ByChallenge(kind)]))
  {
    ChallengeSteps(s, account, id, kind, index, lookup);
    if Decided(s, account, id, kind, index) {
      if s.accounts[account].autoValidate || lookup {
        AcceptingWrites(s, account, id, kind, index);
        OneMoreValidIs(s.orders[id], index);
      } else {
        RejectedIs(s, id, index);
      }
    }
  }

  lemma OneMoreValidIs(o: Order, index: nat)
    requires index < |o.identifiers|
    ensures var o' := OneMoreValid(o, index);
            var all := forall i :: 0 <= i < |o.identifiers| && i != index ==> o.identifiers[i].status == Valid;
            && o'.identifiers == o.identifiers[index := o.identifiers[index].(status := Valid)]
            && o'.status == (if all then Ready else o.status)
            && o'.certificate == (if all then None else o.certificate)
            && o'.(identifiers := o.identifiers, status := o.status, certificate := o.certificate) == o
  {
    var identifiers := o.identifiers[index := o.identifiers[index].(status := Valid)];
    assert forall i :: 0 <= i < |o.identifiers| && i != index ==> identifiers[i] == o.identifiers[i];
  }

  lemma RejectedIs(s: Server, id: OrderId, index: nat)
    requires id in s.orders && index < |s.orders[id].identifiers|
    ensures var o := s.orders[id];
            Rejected(s, id, index) == s.(orders := s.orders[id := o.(
              identifiers := o.identifiers[index := o.identifiers[index].(status := Invalid)],
              status := Invalid, certificate := None)])
  {
  }

  /** A finalize request gets to the signing exactly for the owner's own ready, unexpired order. */
  predicate ReachesSigning(s: Server, account: int, id: OrderId, now: int, issuance: Issuance) {
    && id in s.orders && s.orders[id].account == account && s.orders[id].status == Ready && now < s.orders[id].expires
    && account in s.accounts && issuance != NoCa && issuance != BadPayload
  }

  /** A signed certificate is stored under its new id with the order's end, and the order is valid
      with it; when signing fails the order is invalid. */
  lemma FinalizeChanges(s: Server, account: int, id: OrderId, now: int, issuance: Issuance, c: CertId)
    requires HANDLER !in s.requests && c !in s.certificates
    ensures var after := Handle(s, Complete(account, id, now, issuance, c));
            && (!ReachesSigning(s, account, id, now, issuance) ==> after == s)
            && (ReachesSigning(s, account, id, now, issuance) ==>
                  var o := s.orders[id];
                  && OnlyOrder(s, after, id) && after.accepted == s.accepted && id in after.orders
                  && after.orders[id] == o.(status := if issuance == Signed then Valid else Invalid,
                                            certificate := if issuance == Signed then Some(c) else None)
                  && (issuance != Signed ==> after.certificates == s.certificates)
                  && (issuance == Signed ==>
                        && after.certificates.Keys == s.certificates.Keys + {c}
                        && (forall x :: x in s.certificates ==> after.certificates[x] == s.certificates[x])
                        && after.certificates[c].order == id && after.certificates[c].validUntil == o.notAfter))
  {
    FinalizeSteps(s, account, id, now, issuance, c);
  }

  /** Cleanup deletes exactly the orders that have expired and changes no other. */
  lemma CleanupChanges(s: Server, now: int)
    ensures var after := Handle(s, Expire(now));
            && (forall id :: id in after.orders <==> id in s.orders && s.orders[id].expires >= now)
            && (forall id :: id in after.orders ==> after.orders[id] == s.orders[id])
            && after.(orders := s.orders) == s
  {
  }
}
