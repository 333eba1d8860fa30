/** ACME orders, one database step at a time: orders, the challenge and finalize requests in
    flight, the certificates issued, and a record of what was asked for and validated. */
module AcmeOrders {
  import opened Prelude
  import DomainMatch
  import Quota = AcmeRateLimit

  const MS_PER_DAY: int := 86_400_000
  const ORDER_EXPIRY_DAYS: int := 1
  const CERT_VALIDITY_DAYS: int := 90

  type OrderId = Quota.OrderId

  datatype CertId = CertId(number: int)

  datatype RequestId = RequestId(number: int)

  /** Statuses of orders and of their identifiers; an identifier is never `Ready`. */
  datatype Status = Pending | Ready | Valid | Invalid

  datatype Identifier = Identifier(kind: string, value: string, status: Status)

  datatype Order = Order(
    account: int, status: Status, identifiers: seq<Identifier>,
    notAfter: int, expires: int, createdOn: int, certificate: Option<CertId>)

  /** The account's registered key, as far as a challenge can use it. */
  datatype AccountKey = NoKey | CorruptKey | UnsupportedKey | UsableKey

  datatype Account = Account(allowed: string, autoValidate: bool, key: AccountKey)

  /** `order` is not stored by the program; it remembers which order led to the row. */
  datatype Certificate = Certificate(order: OrderId, names: seq<string>, validUntil: int)

  /** What an order asked for, and the patterns of its account at that moment. */
  datatype Creation = Creation(account: int, allowed: string, names: seq<string>, notAfter: int)

  datatype Authorization = Authorization(order: OrderId, index: nat)

  /** Why a validation was accepted. */
  datatype Proof = Automatic | ByChallenge(kind: string)

  /** A challenge or finalize request between two of its database steps. */
  datatype Request =
    | Validating(account: int, order: OrderId, index: nat, kind: string)
    | Recording(order: OrderId, index: nat, accepted: bool)
    | Rereading(order: OrderId)
    | Readying(order: OrderId)
    | Rejecting(order: OrderId)
    | Preparing(account: int, order: OrderId, names: seq<string>, validUntil: int)
    | Issuing(order: OrderId, names: seq<string>, validUntil: int)
    | Closing(order: OrderId, certificate: CertId)

  /** `created` and `accepted` only record history; no branch reads `accepted`. */
  datatype Server = Server(
    accounts: map<int, Account>, orders: map<OrderId, Order>, requests: map<RequestId, Request>,
    certificates: map<CertId, Certificate>,
    created: map<OrderId, Creation>, accepted: map<Authorization, Proof>)

  const EMPTY := Server(map[], map[], map[], map[], map[], map[])

  datatype Refusal =
    | NotFound | Unauthorized | Malformed | RejectedIdentifier | ServerInternal | AccountDoesNotExist

  // ---- Checks made before anything is written ----

  datatype Wanted = Wanted(kind: string, value: string)

  function WantedRefusal(w: Wanted): Option<Refusal> {
    if w.kind != "dns" then Some(Malformed)
    else if w.value == "" then Some(Malformed)
    else if !DomainMatch.IsValidDnsName(w.value) then Some(RejectedIdentifier)
    else None
  }

  /** The complaint about the first identifier that has one. */
  function FirstRefusal(wanted: seq<Wanted>): Option<Refusal> {
    if wanted == [] then None
    else if WantedRefusal(wanted[0]).Some? then WantedRefusal(wanted[0])
    else FirstRefusal(wanted[1..])
  }

  function Names(wanted: seq<Wanted>): seq<string> {
    seq(|wanted|, i requires 0 <= i < |wanted| => wanted[i].value)
  }

  function QuotaView(orders: map<OrderId, Order>): Quota.Table {
    map id | id in orders :: Quota.Order(orders[id].account, orders[id].createdOn, orders[id].expires)
  }

  /** `counted` is the clock when recent orders are counted; no limit, no count. */
  function NewOrderRefusal(s: Server, account: int, wanted: seq<Wanted>, counted: int, limit: Option<nat>)
    : Option<Refusal>
  {
    if account !in s.accounts then Some(ServerInternal)
    else if wanted == [] then Some(Malformed)
    else if FirstRefusal(wanted).Some? then FirstRefusal(wanted)
    else if !DomainMatch.CheckDomains(s.accounts[account].allowed, Names(wanted)) then Some(RejectedIdentifier)
    else if limit.Some? && !Quota.Admits(QuotaView(s.orders), account, counted, limit.value) then Some(Malformed)
    else None
  }

  predicate IsWildcard(name: string) {
    "*." <= name
  }

  /** Nothing left to do when the identifier is already valid. */
  function ChallengeCheck(s: Server, account: int, order: OrderId, kind: string, index: nat)
    : Result<Option<Request>, Refusal>
  {
    if kind != "http-01" && kind != "dns-01" then Err(Malformed)
    else if order !in s.orders then Err(NotFound)
    else if s.orders[order].account != account then Err(Unauthorized)
    else if index >= |s.orders[order].identifiers| then Err(NotFound)
    else
      var identifier := s.orders[order].identifiers[index];
      if identifier.status == Valid then Ok(None)
      else if IsWildcard(identifier.value) && kind == "http-01" then Err(Malformed)
      else Ok(Some(Validating(account, order, index, kind)))
  }

  /** Looked up between the checks and the validation. */
  function ValidationRefusal(s: Server, account: int): Option<Refusal> {
    if account !in s.accounts then Some(ServerInternal)
    else
      match s.accounts[account].key
      case NoKey => Some(AccountDoesNotExist)
      case CorruptKey => Some(ServerInternal)
      case UnsupportedKey => Some(Malformed)
      case UsableKey => None
  }

  predicate CanValidate(s: Server, account: int) {
    ValidationRefusal(s, account).None?
  }

  function DnsNames(identifiers: seq<Identifier>): seq<string> {
    if identifiers == [] then []
    else (if identifiers[0].kind == "dns" then [identifiers[0].value] else []) + DnsNames(identifiers[1..])
  }

  function FinalizeCheck(s: Server, account: int, order: OrderId, now: int): Result<Request, Refusal> {
    if order !in s.orders then Err(NotFound)
    else
      var o := s.orders[order];
      if o.account != account then Err(Unauthorized)
      else if o.status != Ready then Err(Malformed)
      else if o.expires <= now then Err(Malformed)
      else Ok(Preparing(account, order, DnsNames(o.identifiers), o.notAfter))
  }

  // ---- Writes ----

  /** No row, no effect. */
  function SetStatus(s: Server, id: OrderId, status: Status, certificate: Option<CertId>): Server {
    if id !in s.orders then s
    else s.(orders := s.orders[id := s.orders[id].(status := status, certificate := certificate)])
  }

  function SetIdentifier(s: Server, id: OrderId, index: nat, status: Status): Server {
    if id !in s.orders || index >= |s.orders[id].identifiers| then s
    else
      var o := s.orders[id];
      s.(orders := s.orders[id := o.(identifiers := o.identifiers[index := o.identifiers[index].(status := status)])])
  }

  predicate AllValid(o: Order) {
    forall i :: 0 <= i < |o.identifiers| ==> o.identifiers[i].status == Valid
  }

  function Ended(s: Server, r: RequestId): Server {
    s.(requests := s.requests - {r})
  }

  function Next(s: Server, r: RequestId, q: Request): Server {
    s.(requests := s.requests[r := q])
  }

  function PendingOrder(account: int, wanted: seq<Wanted>, at: Quota.Readings): Order {
    Order(account, Pending,
          seq(|wanted|, i requires 0 <= i < |wanted| => Identifier(wanted[i].kind, wanted[i].value, Pending)),
          at.now + CERT_VALIDITY_DAYS * MS_PER_DAY, at.now + ORDER_EXPIRY_DAYS * MS_PER_DAY, at.stored, None)
  }

  /** Row ids are assumed not to be reused: an event that hands out the id of an order that ever
      existed, deleted or not, is no event. The primary key itself only rules out live ids. */
  function Place(
      s: Server, id: OrderId, account: int, wanted: seq<Wanted>, at: Quota.Readings, limit: Option<nat>): Server
  {
    if NewOrderRefusal(s, account, wanted, at.counted, limit).Some? || id in s.created then s
    else
      var o := PendingOrder(account, wanted, at);
      s.(orders := s.orders[id := o],
      created := s.created[id := Creation(account, s.accounts[account].allowed, Names(wanted), o.notAfter)])
  }

  // ---- Steps ----

  datatype Event =
    | NewOrder(id: OrderId, account: int, wanted: seq<Wanted>, at: Quota.Readings, limit: Option<nat>)
    | Challenge(request: RequestId, account: int, order: OrderId, kind: string, index: nat)
    | Finalize(request: RequestId, account: int, order: OrderId, now: int)
      /** The request's next step; `outcome` is the answer of the lookup or of the signing. */
    | Advance(request: RequestId, outcome: bool, certificate: CertId)
      /** An error, a crash or a dropped connection. */
    | Abandon(request: RequestId)
    | Cleanup(now: int)
    | DeleteOrder(order: OrderId)
    | SetAccount(account: int, settings: Account)
    | DeleteAccount(account: int)

  function AdvanceValidating(s: Server, r: RequestId, q: Request, outcome: bool): Server
    requires q.Validating?
  {
    if !CanValidate(s, q.account) then Ended(s, r)
    else
      var accepted := s.accounts[q.account].autoValidate || outcome;
      var s' := if accepted then Accept(s, q.account, q.order, q.kind, q.index) else s;
      Next(s', r, Recording(q.order, q.index, accepted))
  }

  /** Remembers that the validation was accepted, and why. */
  function Accept(s: Server, account: int, order: OrderId, kind: string, index: nat): Server
    requires account in s.accounts
  {
    var proof := if s.accounts[account].autoValidate then Automatic else ByChallenge(kind);
    s.(accepted := s.accepted[Authorization(order, index) := proof])
  }

  function AdvanceIssuing(s: Server, r: RequestId, q: Request, outcome: bool, c: CertId): Server
    requires q.Issuing?
  {
    if !outcome then Next(s, r, Rejecting(q.order))
    else if c in s.certificates then Ended(s, r)
    else
      Next(s.(certificates := s.certificates[c := Certificate(q.order, q.names, q.validUntil)]),
           r, Closing(q.order, c))
  }

  function Advanced(s: Server, r: RequestId, q: Request, outcome: bool, c: CertId): Server {
    match q
    case Validating(_, _, _, _) => AdvanceValidating(s, r, q, outcome)
    case Recording(id, index, accepted) =>
      Next(SetIdentifier(s, id, index, if accepted then Valid else Invalid),
           r, if accepted then Rereading(id) else Rejecting(id))
    case Rereading(id) =>
      if id in s.orders && AllValid(s.orders[id]) then Next(s, r, Readying(id)) else Ended(s, r)
    case Readying(id) => Ended(SetStatus(s, id, Ready, None), r)
    case Rejecting(id) => Ended(SetStatus(s, id, Invalid, None), r)
    case Preparing(account, id, names, validUntil) =>
      if account in s.accounts then Next(s, r, Issuing(id, names, validUntil)) else Ended(s, r)
    case Issuing(_, _, _) => AdvanceIssuing(s, r, q, outcome, c)
    case Closing(id, certificate) => Ended(SetStatus(s, id, Valid, Some(certificate)), r)
  }

  function Step(s: Server, e: Event): Server {
    match e
    case NewOrder(id, account, wanted, at, limit) => Place(s, id, account, wanted, at, limit)
    case Challenge(r, account, order, kind, index) =>
      var check := ChallengeCheck(s, account, order, kind, index);
      if r !in s.requests && check.Ok? && check.value.Some? then Next(s, r, check.value.value) else s
    case Finalize(r, account, order, now) =>
      var check := FinalizeCheck(s, account, order, now);
      if r !in s.requests && check.Ok? then Next(s, r, check.value) else s
    case Advance(r, outcome, c) =>
      if r in s.requests then Advanced(s, r, s.requests[r], outcome, c) else s
    case Abandon(r) => Ended(s, r)
    case Cleanup(now) => s.(orders := map id | id in s.orders && !(s.orders[id].expires < now) :: s.orders[id])
    case DeleteOrder(id) => s.(orders := s.orders - {id})
    case SetAccount(account, settings) => s.(accounts := s.accounts[account := settings])
    case DeleteAccount(account) => s.(accounts := s.accounts - {account})
  }

  function Run(events: seq<Event>): Server {
    if events == [] then EMPTY else Step(Run(events[..|events| - 1]), events[|events| - 1])
  }

  // ---- What every interleaving keeps ----

  /** Each identifier of the order has an accepted validation. */
  ghost predicate Vouched(s: Server, id: OrderId) {
    && id in s.created
    && forall i :: 0 <= i < |s.created[id].names| ==> Authorization(id, i) in s.accepted
  }

  ghost predicate CreationSound(c: Creation) {
    && c.names != [] && DomainMatch.CheckDomains(c.allowed, c.names)
    && forall i :: 0 <= i < |c.names| ==> DomainMatch.IsValidDnsName(c.names[i])
  }

  /** The row still asks for what was asked for at creation. */
  ghost predicate AsCreated(c: Creation, o: Order) {
    && o.account == c.account && o.notAfter == c.notAfter
    && o.notAfter == o.expires + (CERT_VALIDITY_DAYS - ORDER_EXPIRY_DAYS) * MS_PER_DAY
    && |o.identifiers| == |c.names|
    && forall i :: 0 <= i < |c.names| ==> o.identifiers[i].kind == "dns" && o.identifiers[i].value == c.names[i]
  }

  ghost predicate OrderSound(s: Server, id: OrderId, o: Order) {
    && id in s.created && AsCreated(s.created[id], o)
    && (forall i :: 0 <= i < |o.identifiers| && o.identifiers[i].status == Valid ==> Authorization(id, i) in s.accepted)
    && (o.status in {Ready, Valid} ==> Vouched(s, id))
    && (o.certificate.Some? ==> IssuedFor(s, o.certificate.value, id))
  }

  ghost predicate IssuedFor(s: Server, c: CertId, id: OrderId) {
    c in s.certificates && s.certificates[c].order == id
  }

  /** A certificate carries exactly the names and the end date its order asked for. */
  ghost predicate CertificateSound(s: Server, c: Certificate) {
    && Vouched(s, c.order)
    && c.names == s.created[c.order].names && c.validUntil == s.created[c.order].notAfter
  }

  ghost predicate ProvedBy(names: seq<string>, index: nat, kind: string) {
    && index < |names| && kind in {"http-01", "dns-01"}
    && (IsWildcard(names[index]) ==> kind == "dns-01")
  }

  ghost predicate ProofSound(s: Server, a: Authorization, p: Proof) {
    && a.order in s.created && a.index < |s.created[a.order].names|
    && (p.ByChallenge? ==> ProvedBy(s.created[a.order].names, a.index, p.kind))
  }

  ghost predicate RequestSound(s: Server, q: Request) {
    match q
    case Validating(account, id, index, kind) =>
      id in s.created && account == s.created[id].account && ProvedBy(s.created[id].names, index, kind)
    case Recording(id, index, accepted) => accepted ==> Authorization(id, index) in s.accepted
    case Rereading(_) => true
    case Readying(id) => Vouched(s, id)
    case Rejecting(_) => true
    case Preparing(account, id, names, validUntil) =>
      CertificateSound(s, Certificate(id, names, validUntil)) && account == s.created[id].account
    case Issuing(id, names, validUntil) => CertificateSound(s, Certificate(id, names, validUntil))
    case Closing(id, c) => Vouched(s, id) && IssuedFor(s, c, id)
  }

  ghost predicate Sound(s: Server) {
    && (forall id :: id in s.created ==> CreationSound(s.created[id]))
    && (forall id :: id in s.orders ==> OrderSound(s, id, s.orders[id]))
    && (forall r :: r in s.requests ==> RequestSound(s, s.requests[r]))
    && (forall c :: c in s.certificates ==> CertificateSound(s, s.certificates[c]))
    && (forall a :: a in s.accepted ==> ProofSound(s, a, s.accepted[a]))
  }

  /** The records only grow. */
  ghost predicate Grows(s: Server, s': Server) {
    && (forall id :: id in s.created ==> id in s'.created && s'.created[id] == s.created[id])
    && (forall c :: c in s.certificates ==> c in s'.certificates && s'.certificates[c] == s.certificates[c])
    && (forall a :: a in s.accepted ==> a in s'.accepted)
  }

  lemma GrowingKeepsOrders(s: Server, s': Server)
    requires Grows(s, s')
    ensures forall id, o :: OrderSound(s, id, o) ==> OrderSound(s', id, o)
  {
  }

  lemma GrowingKeepsRequests(s: Server, s': Server)
    requires Grows(s, s')
    ensures forall q :: RequestSound(s, q) ==> RequestSound(s', q)
    ensures forall c :: CertificateSound(s, c) ==> CertificateSound(s', c)
    ensures forall a, p :: ProofSound(s, a, p) ==> ProofSound(s', a, p)
  {
  }

  lemma PlaceKeepsSound(
      s: Server, id: OrderId, account: int, wanted: seq<Wanted>, at: Quota.Readings, limit: Option<nat>)
    requires Sound(s)
    ensures Sound(Place(s, id, account, wanted, at, limit))
  {
    var s' := Place(s, id, account, wanted, at, limit);
    if s' != s {
      FirstRefusalFindsAll(wanted);
      GrowingKeepsOrders(s, s');
      GrowingKeepsRequests(s, s');
      assert OrderSound(s', id, s'.orders[id]);
      assert CreationSound(s'.created[id]);
    }
  }

  lemma {:induction false} FirstRefusalFindsAll(wanted: seq<Wanted>)
    ensures FirstRefusal(wanted) == None <==>
            forall i :: 0 <= i < |wanted| ==> WantedRefusal(wanted[i]) == None
  {
    if wanted != [] {
      FirstRefusalFindsAll(wanted[1..]);
      assert forall i :: 1 <= i < |wanted| ==> wanted[i] == wanted[1..][i - 1];
      assert forall i :: 0 <= i < |wanted[1..]| ==> wanted[1..][i] == wanted[i + 1];
    }
  }

  lemma {:induction false} DnsNamesOfSound(names: seq<string>, identifiers: seq<Identifier>)
    requires |identifiers| == |names|
    requires forall i :: 0 <= i < |names| ==> identifiers[i].kind == "dns" && identifiers[i].value == names[i]
    ensures DnsNames(identifiers) == names
  {
    if names != [] {
      DnsNamesOfSound(names[1..], identifiers[1..]);
      assert names == [names[0]] + names[1..];
    }
  }

  lemma StartKeepsSound(s: Server, r: RequestId, q: Request)
    requires Sound(s) && RequestSound(s, q)
    ensures Sound(Next(s, r, q)) && Sound(Ended(s, r))
  {
    GrowingKeepsOrders(s, Next(s, r, q));
    GrowingKeepsRequests(s, Next(s, r, q));
    GrowingKeepsOrders(s, Ended(s, r));
    GrowingKeepsRequests(s, Ended(s, r));
  }

  /** Replacing one order row by a sound one. */
  lemma WriteKeepsSound(s: Server, id: OrderId, o: Order)
    requires Sound(s) && OrderSound(s, id, o)
    ensures Sound(s.(orders := s.orders[id := o]))
  {
    GrowingKeepsOrders(s, s.(orders := s.orders[id := o]));
    GrowingKeepsRequests(s, s.(orders := s.orders[id := o]));
  }

  lemma SetStatusKeepsSound(s: Server, id: OrderId, status: Status, certificate: Option<CertId>)
    requires Sound(s)
    requires status in {Ready, Valid} ==> Vouched(s, id)
    requires certificate.Some? ==> IssuedFor(s, certificate.value, id)
    ensures Sound(SetStatus(s, id, status, certificate)) && Grows(s, SetStatus(s, id, status, certificate))
  {
    if id in s.orders {
      WriteKeepsSound(s, id, s.orders[id].(status := status, certificate := certificate));
    }
  }

  lemma SetIdentifierKeepsSound(s: Server, id: OrderId, index: nat, status: Status)
    requires Sound(s)
    requires status == Valid ==> Authorization(id, index) in s.accepted
    ensures Sound(SetIdentifier(s, id, index, status))
  {
    if id in s.orders && index < |s.orders[id].identifiers| {
      var o := s.orders[id];
      assert OrderSound(s, id, o);
      WriteKeepsSound(s, id, o.(identifiers := o.identifiers[index := o.identifiers[index].(status := status)]));
    }
  }

  lemma ValidatingKeepsSound(s: Server, r: RequestId, q: Request, outcome: bool)
    requires Sound(s) && RequestSound(s, q) && q.Validating?
    ensures Sound(AdvanceValidating(s, r, q, outcome))
  {
    if !CanValidate(s, q.account) {
      StartKeepsSound(s, r, q);
    } else {
      var accepted := s.accounts[q.account].autoValidate || outcome;
      var s' := if accepted then Accept(s, q.account, q.order, q.kind, q.index) else s;
      GrowingKeepsOrders(s, s');
      GrowingKeepsRequests(s, s');
      StartKeepsSound(s', r, Recording(q.order, q.index, accepted));
    }
  }

  lemma IssuingKeepsSound(s: Server, r: RequestId, q: Request, outcome: bool, c: CertId)
    requires Sound(s) && RequestSound(s, q) && q.Issuing?
    ensures Sound(AdvanceIssuing(s, r, q, outcome, c))
  {
    StartKeepsSound(s, r, Rejecting(q.order));
    if outcome && c !in s.certificates {
      var s' := s.(certificates := s.certificates[c := Certificate(q.order, q.names, q.validUntil)]);
      GrowingKeepsOrders(s, s');
      GrowingKeepsRequests(s, s');
      StartKeepsSound(s', r, Closing(q.order, c));
    }
  }

  lemma AdvancedKeepsSound(s: Server, r: RequestId, q: Request, outcome: bool, c: CertId)
    requires Sound(s) && RequestSound(s, q)
    ensures Sound(Advanced(s, r, q, outcome, c))
  {
    StartKeepsSound(s, r, q);
    match q
    case Validating(_, _, _, _) => ValidatingKeepsSound(s, r, q, outcome);
    case Recording(id, index, accepted) =>
      SetIdentifierKeepsSound(s, id, index, if accepted then Valid else Invalid);
      StartKeepsSound(SetIdentifier(s, id, index, if accepted then Valid else Invalid), r,
                      if accepted then Rereading(id) else Rejecting(id));
    case Rereading(id) =>
      if id in s.orders && AllValid(s.orders[id]) {
        assert OrderSound(s, id, s.orders[id]);
        StartKeepsSound(s, r, Readying(id));
      }
    case Readying(id) =>
      SetStatusKeepsSound(s, id, Ready, None);
      StartKeepsSound(SetStatus(s, id, Ready, None), r, Rejecting(id));
    case Rejecting(id) =>
      SetStatusKeepsSound(s, id, Invalid, None);
      StartKeepsSound(SetStatus(s, id, Invalid, None), r, Rejecting(id));
    case Preparing(_, id, names, validUntil) => StartKeepsSound(s, r, Issuing(id, names, validUntil));
    case Issuing(_, _, _) => IssuingKeepsSound(s, r, q, outcome, c);
    case Closing(id, certificate) =>
      SetStatusKeepsSound(s, id, Valid, Some(certificate));
      StartKeepsSound(SetStatus(s, id, Valid, Some(certificate)), r, Rejecting(id));
  }

  lemma FewerOrdersKeepSound(s: Server, s': Server)
    requires Sound(s) && s' == s.(orders := s'.orders, accounts := s'.accounts)
    requires forall id :: id in s'.orders ==> id in s.orders && s'.orders[id] == s.orders[id]
    ensures Sound(s')
  {
    GrowingKeepsOrders(s, s');
    GrowingKeepsRequests(s, s');
  }

  lemma StepKeepsSound(s: Server, e: Event)
    requires Sound(s)
    ensures Sound(Step(s, e))
  {
    match e
    case NewOrder(id, account, wanted, at, limit) => PlaceKeepsSound(s, id, account, wanted, at, limit);
    case Challenge(r, account, order, kind, index) =>
      var check := ChallengeCheck(s, account, order, kind, index);
      if check.Ok? && check.value.Some? {
        assert OrderSound(s, order, s.orders[order]);
        StartKeepsSound(s, r, check.value.value);
      }
    case Finalize(r, account, order, now) =>
      var check := FinalizeCheck(s, account, order, now);
      if check.Ok? {
        assert OrderSound(s, order, s.orders[order]);
        DnsNamesOfSound(s.created[order].names, s.orders[order].identifiers);
        StartKeepsSound(s, r, check.value);
      }
    case Advance(r, outcome, c) =>
      if r in s.requests {
        AdvancedKeepsSound(s, r, s.requests[r], outcome, c);
      }
    case Abandon(r) => StartKeepsSound(s, r, Rejecting(Quota.OrderId(0)));
    case Cleanup(now) => FewerOrdersKeepSound(s, Step(s, e));
    case DeleteOrder(id) => FewerOrdersKeepSound(s, Step(s, e));
    case SetAccount(account, settings) => FewerOrdersKeepSound(s, Step(s, e));
    case DeleteAccount(account) => FewerOrdersKeepSound(s, Step(s, e));
  }

  lemma {:induction false} RunIsSound(events: seq<Event>)
    ensures Sound(Run(events))
  {
    if events != [] {
      RunIsSound(events[..|events| - 1]);
      StepKeepsSound(Run(events[..|events| - 1]), events[|events| - 1]);
    }
  }

  /** The step at which a validation of this identifier is accepted: a challenge request reads
      its account, and the account skips validation or the lookup answers as expected. */
  ghost predicate Accepts(s: Server, e: Event, a: Authorization) {
    && e.Advance? && e.request in s.requests
    && var q := s.requests[e.request];
    q.Validating? && q.order == a.order && q.index == a.index && CanValidate(s, q.account)
    && (s.accounts[q.account].autoValidate || e.outcome)
  }

  ghost predicate AcceptedAt(events: seq<Event>, k: nat, a: Authorization) {
    k < |events| && Accepts(Run(events[..k]), events[k], a)
  }

  ghost predicate WasAccepted(events: seq<Event>, a: Authorization) {
    exists k: nat :: AcceptedAt(events, k, a)
  }

  lemma OnlyAcceptingStepsAccept(s: Server, e: Event, a: Authorization)
    requires a !in s.accepted && a in Step(s, e).accepted
    ensures Accepts(s, e, a)
  {
    OnlyRequestsAccept(s, e);
    if e.Advance? && e.request in s.requests {
      OtherRequestsDoNotAccept(s, e.request, s.requests[e.request], e.outcome, e.certificate);
    }
  }

  lemma OnlyRequestsAccept(s: Server, e: Event)
    ensures !(e.Advance? && e.request in s.requests) ==> Step(s, e).accepted == s.accepted
  {
  }

  lemma OtherRequestsDoNotAccept(s: Server, r: RequestId, q: Request, outcome: bool, c: CertId)
    ensures !q.Validating? ==> Advanced(s, r, q, outcome, c).accepted == s.accepted
  {
  }

  lemma AcceptedAtPrefix(events: seq<Event>, n: nat, k: nat, a: Authorization)
    requires n <= |events| && AcceptedAt(events[..n], k, a)
    ensures AcceptedAt(events, k, a)
  {
    assert events[..n][..k] == events[..k];
  }

  lemma {:induction false} AcceptedMeansAStep(events: seq<Event>, a: Authorization)
    requires a in Run(events).accepted
    ensures WasAccepted(events, a)
  {
    if events != [] {
      var n := |events| - 1;
      if a in Run(events[..n]).accepted {
        AcceptedMeansAStep(events[..n], a);
        var k: nat :| AcceptedAt(events[..n], k, a);
        AcceptedAtPrefix(events, n, k, a);
      } else {
        OnlyAcceptingStepsAccept(Run(events[..n]), events[n], a);
        assert AcceptedAt(events, n, a);
      }
    }
  }

  /** In every interleaving of requests, failures, cleanups and account changes: an order is
      ready or valid, and a certificate exists, only when each identifier had a validation
      accepted earlier in the run. */
  lemma ValidatedBeforeReadyOrIssued(events: seq<Event>, id: OrderId, i: nat)
    requires var s := Run(events);
             && id in s.created && i < |s.created[id].names|
             && ((id in s.orders && s.orders[id].status in {Ready, Valid}) || exists c :: IssuedFor(s, c, id))
    ensures WasAccepted(events, Authorization(id, i))
  {
    var s := Run(events);
    RunIsSound(events);
    if id in s.orders && s.orders[id].status in {Ready, Valid} {
      assert OrderSound(s, id, s.orders[id]);
    } else {
      var c :| IssuedFor(s, c, id);
      assert CertificateSound(s, s.certificates[c]);
    }
    AcceptedMeansAStep(events, Authorization(id, i));
  }

  /** A certificate names exactly what its order asked for, each name a valid DNS name matched
      by a pattern its account had when the order was created. */
  lemma IssuedNamesWereOrderedAndPermitted(events: seq<Event>, c: CertId, i: nat)
    requires c in Run(events).certificates && i < |Run(events).certificates[c].names|
    ensures var s := Run(events);
            var cert := s.certificates[c];
            && cert.order in s.created && cert.names == s.created[cert.order].names
            && cert.validUntil == s.created[cert.order].notAfter
            && DomainMatch.IsValidDnsName(cert.names[i])
            && exists p :: p in DomainMatch.Split(s.created[cert.order].allowed, ',')
                           && DomainMatch.LabelMatch(DomainMatch.Canonical(p), DomainMatch.Canonical(cert.names[i]))
  {
    var s := Run(events);
    var cert := s.certificates[c];
    RunIsSound(events);
    assert CertificateSound(s, cert) && CreationSound(s.created[cert.order]);
    DomainMatch.CheckDomainsMeansLabels(s.created[cert.order].allowed, cert.names);
    assert cert.names[i] in cert.names;
  }

  // ---- The certificate's own end ----

  /** Whole days left until the order's end when the request is checked, but at least one. The
      division truncates, so anything under a day counts as none. */
  function ValidityDays(notAfter: int, now: int): (days: int)
    ensures days >= 1
  {
    if notAfter - now < MS_PER_DAY then 1 else (notAfter - now) / MS_PER_DAY
  }

  /** The end the signed certificate carries: that many days from the clock at signing, cut to
      whole seconds. */
  function SignedUntil(notAfter: int, now: int, clock: nat): int {
    (clock + ValidityDays(notAfter, now) * MS_PER_DAY) / 1000 * 1000
  }

  /** The stored end is the order's; the certificate's own is at most a day and a second earlier,
      and never later by more than the time between check and signing; it lives at least 89 days. */
  lemma SignedEndIsNearStoredEnd(events: seq<Event>, account: int, id: OrderId, now: int, clock: nat)
    requires FinalizeCheck(Run(events), account, id, now).Ok? && now <= clock
    ensures var stored := Run(events).orders[id].notAfter;
            var late := SignedUntil(stored, now, clock) - (clock - now);
            && stored - MS_PER_DAY - 1000 < late <= stored
            && ValidityDays(stored, now) >= CERT_VALIDITY_DAYS - ORDER_EXPIRY_DAYS
  {
    RunIsSound(events);
    assert OrderSound(Run(events), id, Run(events).orders[id]);
  }

  // ---- Wildcards ----

  /** The order's name at this index was accepted on the strength of an http-01 challenge. */
  ghost predicate AcceptedByHttp(s: Server, a: Authorization, name: string) {
    && a in s.accepted && s.accepted[a] == ByChallenge("http-01")
    && a.order in s.created && a.index < |s.created[a.order].names| && s.created[a.order].names[a.index] == name
  }

  /** Wildcards as the name check and the patterns see them: blanks around the name do not
      count. */
  predicate IsTrimmedWildcard(name: string) {
    IsWildcard(DomainMatch.TrimBlanks(name))
  }

  /** The rule that wildcards need dns-01 looks at the name as sent, so it applies to a wildcard
      exactly when no blank comes first. */
  lemma WildcardRuleAppliesIff(name: string)
    requires IsTrimmedWildcard(name)
    ensures IsWildcard(name) <==> !IsBlank(name[0])
  {
    if name != "" && !IsBlank(name[0]) {
      DomainMatch.TrimKeepsStart(name);
    }
  }

  /** No run accepts a wildcard on an http-01 challenge unless the name begins with a blank. */
  lemma WildcardsNeedDns(events: seq<Event>, a: Authorization, name: string)
    requires AcceptedByHttp(Run(events), a, name)
    ensures IsTrimmedWildcard(name) ==> IsBlank(name[0])
  {
    RunIsSound(events);
    if IsTrimmedWildcard(name) {
      assert ProofSound(Run(events), a, Run(events).accepted[a]);
      WildcardRuleAppliesIff(name);
    }
  }

  const FIRST := Quota.OrderId(1)
  const SOLE := RequestId(1)

  /** One account whose only pattern is the name itself, one order, one http-01 challenge that
      the lookup confirms. */
  function HttpRun(name: string): seq<Event> {
    [SetAccount(1, Account(name, false, UsableKey)),
     NewOrder(FIRST, 1, [Wanted("dns", name)], Quota.Readings(0, 0, 0), None),
     Challenge(SOLE, 1, FIRST, "http-01", 0),
     Advance(SOLE, true, CertId(0))]
  }

  lemma RunOfFour(a: Event, b: Event, c: Event, d: Event)
    ensures Run([a, b, c, d]) == Step(Step(Step(Step(EMPTY, a), b), c), d)
  {
    assert [a, b, c, d][..3] == [a, b, c] && [a, b, c][..2] == [a, b] && [a, b][..1] == [a] && [a][..0] == [];
    assert Run([a]) == Step(EMPTY, a);
    assert Run([a, b]) == Step(Run([a]), b);
    assert Run([a, b, c]) == Step(Run([a, b]), c);
  }

  lemma OneNameRefusal(s: Server, name: string)
    requires 1 in s.accounts && s.accounts[1].allowed == name
    requires DomainMatch.IsValidDnsName(name) && DomainMatch.CheckDomains(name, [name])
    ensures NewOrderRefusal(s, 1, [Wanted("dns", name)], 0, None) == None
  {
    assert [Wanted("dns", name)][1..] == [] && name != "";
    assert FirstRefusal([Wanted("dns", name)]) == None;
    assert Names([Wanted("dns", name)]) == [name];
  }

  lemma BlankFirstEscapes(name: string)
    requires DomainMatch.IsValidDnsName(name) && IsTrimmedWildcard(name) && IsBlank(name[0])
    ensures AcceptedByHttp(Run(HttpRun(name)), Authorization(FIRST, 0), name)
  {
    var es := HttpRun(name);
    RunOfFour(es[0], es[1], es[2], es[3]);
    DomainMatch.WildcardPermitsItself(name);
    var s1 := Step(EMPTY, es[0]);
    OneNameRefusal(s1, name);
    var s2 := Step(s1, es[1]);
    assert FIRST in s2.orders && s2.orders[FIRST].identifiers == [Identifier("dns", name, Pending)];
    assert s2.created[FIRST].names == [name];
    assert !IsWildcard(name);
    var s3 := Step(s2, es[2]);
    assert s3.requests == map[SOLE := Validating(1, FIRST, 0, "http-01")];
  }

  ghost predicate AcceptsByHttp(events: seq<Event>, a: Authorization, name: string) {
    AcceptedByHttp(Run(events), a, name)
  }

  /** Exactly which wildcards an http-01 challenge can be accepted for in some run: those sent
      with a blank in front. */
  lemma HttpAcceptsWildcardIff(name: string)
    requires DomainMatch.IsValidDnsName(name) && IsTrimmedWildcard(name)
    ensures (exists events, a :: AcceptsByHttp(events, a, name)) <==> IsBlank(name[0])
  {
    if IsBlank(name[0]) {
      BlankFirstEscapes(name);
      assert AcceptsByHttp(HttpRun(name), Authorization(FIRST, 0), name);
    } else if events, a :| AcceptsByHttp(events, a, name) {
      WildcardsNeedDns(events, a, name);
    }
  }

  /** Such names: the wildcard of "a" with a space in front, or a form feed, or any other blank. */
  lemma SpacedWildcardIsAccepted(blank: char)
    requires IsBlank(blank)
    ensures var name := [blank] + "*.a";
            IsTrimmedWildcard(name) && AcceptedByHttp(Run(HttpRun(name)), Authorization(FIRST, 0), name)
  {
    DomainMatch.SpacedWildcardIsValid(blank);
    BlankFirstEscapes([blank] + "*.a");
  }

  /** In particular these two. */
  lemma SpaceAndFormFeedAreAccepted()
    ensures AcceptedByHttp(Run(HttpRun(" *.a")), Authorization(FIRST, 0), " *.a")
    ensures AcceptedByHttp(Run(HttpRun("\U{C}*.a")), Authorization(FIRST, 0), "\U{C}*.a")
  {
    SpacedWildcardIsAccepted(' ');
    SpacedWildcardIsAccepted('\U{C}');
    assert [' '] + "*.a" == " *.a" && ['\U{C}'] + "*.a" == "\U{C}*.a";
  }
}
