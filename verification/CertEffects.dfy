/** What each certificate request does, said in terms of the request and the row alone: exactly
    when it goes through, and what the row holds afterwards. From this follows who signed each
    version in any reachable state, and so whose revocation list it has to be on. */
module CertEffects {
  import opened Prelude
  import Hex
  import opened CertStore
  import opened Revocation
  import opened CertHandlers
  import opened CertRuns
  import Clock = RenewalClock

  // ---- Shapes ----

  /** Nothing but row `id` and its history has changed. */
  ghost predicate OnlyRow(db: Db, after: Db, id: int) {
    && (forall j :: j != id ==> (j in after.rows <==> j in db.rows) && (j in db.rows ==> after.rows[j] == db.rows[j]))
    && (forall k: Key :: k.id != id ==>
          (k in after.history <==> k in db.history) && (k in db.history ==> after.history[k] == db.history[k]))
  }

  /** The row holds this as its next version. */
  ghost predicate Holds(
      was: Row, row: Row, blob: Blob, password: string, createdOn: int, validUntil: int, caId: Option<int>,
      fingerprint: string)
  {
    && row.version == was.version + 1 && row.fingerprint == Some(fingerprint)
    && row.content.blob == blob && row.content.password == password
    && row.content.createdOn == createdOn && row.content.validUntil == validUntil
    && row.content.caId == caId
    && row.certType == was.certType && row.userId == was.userId && row.revokedAt == None
    && row.isImported == was.isImported && row.acmeProvider == was.acmeProvider
  }

  /** Its previous version is filed with when and by whom it was replaced. */
  ghost predicate Filed(after: Db, was: Row, id: int, at: int, actor: Option<int>) {
    var k := Key(id, was.version);
    && k in after.history && after.history[k].content == was.content
    && after.history[k].replacedAt == at && after.history[k].replacedBy == actor
  }

  predicate IsTlsType(t: CertType) {
    t == TLSClient || t == TLSServer
  }

  predicate RenewsItself(m: RenewMethod) {
    m == Renew || m == RenewAndNotify
  }

  // ---- Creation ----

  lemma CreateStoresTheRequest(db: Db, req: Request)
    requires req.Create?
    ensures var after := Handle(db, req);
            && (req.id in db.rows ==> after == db)
            && (req.id !in db.rows ==>
                  && OnlyRow(db, after, req.id) && after.history == db.history && req.id in after.rows
                  && var row := after.rows[req.id];
                  && row.version == 1 && row.revokedAt == None && row.acmeProvider == None
                  && row.content.blob == req.blob && row.content.password == req.password
                  && row.content.createdOn == req.createdOn && row.content.validUntil == req.validUntil
                  && row.content.caId == req.issuer && row.fingerprint == req.digest
                  && row.certType == req.certType && row.renewMethod == req.renewMethod
                  && row.userId == req.userId && row.isImported == req.isImported)
  {
    HandleUnfolds(db, req);
  }

  /** A certificate obtained from an ACME provider starts as a TLS server certificate without a
      password and without a CA of this system, with an expiry notice armed. */
  lemma AcmeCreateStoresTheRequest(db: Db, req: Request)
    requires req.CreateFromAcme?
    ensures var after := Handle(db, req);
            && (req.id in db.rows ==> after == db)
            && (req.id !in db.rows ==>
                  && OnlyRow(db, after, req.id) && after.history == db.history && req.id in after.rows
                  && var row := after.rows[req.id];
                  && row.version == 1 && row.revokedAt == None && row.acmeProvider == Some(req.provider)
                  && row.content.blob == req.blob && row.content.password == ""
                  && row.content.createdOn == req.now && row.content.validUntil == req.validUntil
                  && row.content.caId == None && row.certType == TLSServer && row.renewMethod == Notify
                  && row.userId == req.userId && !row.isImported)
  {
    HandleUnfolds(db, req);
  }

  // ---- The four replacement paths ----

  /** The manual endpoint takes material for an imported, unrevoked TLS row that is valid now and
      ends later, or is forced by a local administrator. */
  predicate ManualAllowed(row: Row, req: Request)
    requires req.ReplaceManually?
  {
    && row.isImported && row.acmeProvider == None && row.revokedAt == None && IsTlsType(row.certType)
    && req.upload.accepted && req.upload.notBefore <= req.now < req.upload.notAfter
    && (req.upload.notAfter > row.content.validUntil || (req.force && req.localAdmin))
  }

  lemma ManualReplacement(db: Db, req: Request)
    requires HistoryBelow(db) && req.ReplaceManually?
    ensures var after := Handle(db, req);
            var goes := req.id in db.rows && ManualAllowed(db.rows[req.id], req);
            && (!goes ==> after == db)
            && (goes ==>
                  && OnlyRow(db, after, req.id) && req.id in after.rows
                  && var (was, row) := (db.rows[req.id], after.rows[req.id]);
                  && Holds(was, row, req.upload.blob, req.upload.password, req.upload.notBefore, req.upload.notAfter,
                           if req.upload.caId > 0 then Some(req.upload.caId) else was.content.caId,
                           req.upload.fingerprint)
                  && Filed(after, was, req.id, req.now, Some(req.actor))
                  && row.renewMethod == (if req.chosen.Some? then req.chosen.value
                                         else if was.renewMethod == NoRenewal then Notify else was.renewMethod))
  {
    HandleUnfolds(db, req);
    if Plan(db, req) != [] {
      var s := Plan(db, req)[0];
      ReplaceIsAllOrNothing(db, s.id, s.actor, s.now, s.input, s.guard);
    }
  }

  /** The watcher renews by the internal CA what is its own, unrevoked, TLS, set to renew and due
      within seven days. */
  predicate InternalDue(row: Row, tick: int) {
    && !row.isImported && row.acmeProvider == None && row.revokedAt == None && IsTlsType(row.certType)
    && RenewsItself(row.renewMethod) && row.content.validUntil < tick + 604_800_000
  }

  /** The renewed certificate keeps the password and lives as many whole days as before, at least
      fourteen. */
  lemma InternalRenewal(db: Db, req: Request)
    requires HistoryBelow(db) && req.RenewInternally?
    ensures var after := Handle(db, req);
            var goes := req.id in db.rows && InternalDue(db.rows[req.id], req.tick);
            && (!goes ==> after == db)
            && (goes ==>
                  && OnlyRow(db, after, req.id) && req.id in after.rows
                  && var (was, row) := (db.rows[req.id], after.rows[req.id]);
                  var life := was.content.validUntil - was.content.createdOn;
                  var days := if life >= 14 * 86_400_000 then life / 86_400_000 else 14;
                  && Holds(was, row, req.blob, was.content.password, req.start, req.end + days * 86_400_000,
                           if req.caId > 0 then Some(req.caId) else was.content.caId, req.fingerprint)
                  && Filed(after, was, req.id, req.end, None) && row.renewMethod == was.renewMethod)
  {
    HandleUnfolds(db, req);
    if Plan(db, req) != [] {
      var s := Plan(db, req)[0];
      ReplaceIsAllOrNothing(db, s.id, s.actor, s.now, s.input, s.guard);
      Clock.NestedDivisions(db.rows[req.id].content.createdOn, db.rows[req.id].content.validUntil);
    }
  }

  /** The watcher renews by ACME what is its own, unrevoked, set to renew and due within thirty
      days, when the new certificate ends later. */
  predicate AcmeDue(row: Row, tick: int) {
    && row.acmeProvider != None && row.revokedAt == None
    && RenewsItself(row.renewMethod) && row.content.validUntil < tick + 2_592_000_000
  }

  lemma AcmeRenewalByWatcher(db: Db, req: Request)
    requires HistoryBelow(db) && req.WatchAcme?
    ensures var after := Handle(db, req);
            var goes := req.id in db.rows && AcmeDue(db.rows[req.id], req.tick)
                        && req.validUntil > db.rows[req.id].content.validUntil;
            && (!goes ==> after == db)
            && (goes ==>
                  && OnlyRow(db, after, req.id) && req.id in after.rows
                  && var (was, row) := (db.rows[req.id], after.rows[req.id]);
                  && Holds(was, row, req.blob, "", req.now, req.validUntil, was.content.caId, req.fingerprint)
                  && Filed(after, was, req.id, req.now, None) && row.renewMethod == was.renewMethod)
  {
    HandleUnfolds(db, req);
    if Plan(db, req) != [] {
      var s := Plan(db, req)[0];
      ReplaceIsAllOrNothing(db, s.id, s.actor, s.now, s.input, s.guard);
    }
  }

  /** The same at an operator's request, whenever the row is an unrevoked ACME one and the new
      certificate ends later. */
  lemma AcmeRenewalByOperator(db: Db, req: Request)
    requires HistoryBelow(db) && req.IssueAcme?
    ensures var after := Handle(db, req);
            var goes := req.id in db.rows && db.rows[req.id].acmeProvider != None && db.rows[req.id].revokedAt == None
                        && req.validUntil > db.rows[req.id].content.validUntil;
            && (!goes ==> after == db)
            && (goes ==>
                  && OnlyRow(db, after, req.id) && req.id in after.rows
                  && var (was, row) := (db.rows[req.id], after.rows[req.id]);
                  && Holds(was, row, req.blob, "", req.now, req.validUntil, was.content.caId, req.fingerprint)
                  && Filed(after, was, req.id, req.now, Some(req.actor)) && row.renewMethod == was.renewMethod)
  {
    HandleUnfolds(db, req);
    if Plan(db, req) != [] {
      var s := Plan(db, req)[0];
      ReplaceIsAllOrNothing(db, s.id, s.actor, s.now, s.input, s.guard);
    }
  }

  // ---- Revocation, deletion and notices ----

  /** Revocation sets the mark of an unrevoked row and nothing else; through the API the row also
      needs a CA that can sign the list. */
  lemma RevocationMarksTheRow(db: Db, req: Request)
    requires req.RevokeByApi? || req.RevokeByAcme?
    ensures var after := Handle(db, req);
            var goes := req.id in db.rows && db.rows[req.id].revokedAt == None
                        && (req.RevokeByApi? ==> db.rows[req.id].content.caId != None && req.caUsable);
            && (!goes ==> after == db)
            && (goes ==>
                  && OnlyRow(db, after, req.id) && after.history == db.history && req.id in after.rows
                  && after.rows[req.id].revokedAt == Some(req.now)
                  && after.rows[req.id].(revokedAt := None) == db.rows[req.id])
  {
    HandleUnfolds(db, req);
  }

  /** One historical version goes, of an unrevoked row; the current one cannot. */
  lemma DeletionTakesOneVersion(db: Db, req: Request)
    requires req.DeleteHistory? && HistoryBelow(db)
    ensures var (after, gone) := (Handle(db, req), Key(req.id, req.version));
            && after.rows == db.rows
            && (forall k :: k in after.history ==> k in db.history && after.history[k] == db.history[k])
            && (forall k :: k in db.history && k != gone ==> k in after.history)
            && (gone in db.history ==> (gone !in after.history <==> db.rows[req.id].revokedAt == None))
  {
    HandleUnfolds(db, req);
  }

  lemma DeletionTakesTheRow(db: Db, id: int)
    ensures var after := Handle(db, DeleteCertificate(id));
            && OnlyRow(db, after, id) && id !in after.rows && forall k :: k in after.history ==> k.id != id
  {
    HandleUnfolds(db, DeleteCertificate(id));
  }

  /** A notice is spent within seven days of the end of an unrevoked row: of one that only
      notifies, or of an imported one whatever it is set to. */
  lemma NoticeIsSpentOnce(db: Db, req: Request)
    requires req.NotifyOnce?
    ensures var after := Handle(db, req);
            var goes := req.id in db.rows && db.rows[req.id].revokedAt == None
                        && db.rows[req.id].renewMethod != NoRenewal
                        && db.rows[req.id].content.validUntil < req.tick + 604_800_000
                        && (db.rows[req.id].renewMethod == Notify
                            || (db.rows[req.id].acmeProvider == None && db.rows[req.id].isImported));
            && (!goes ==> after == db)
            && (goes ==>
                  && OnlyRow(db, after, req.id) && after.history == db.history && req.id in after.rows
                  && after.rows[req.id] == db.rows[req.id].(renewMethod := NoRenewal))
  {
    HandleUnfolds(db, req);
  }

  /** At start-up a missing or empty serial text is filled in from the certificate; one that is
      there stays. */
  lemma BackfillFillsTheText(db: Db, req: Request)
    requires req.BackfillSerial?
    ensures var after := Handle(db, req);
            var goes := req.id in db.rows
                        && (db.rows[req.id].content.serialHex == None || db.rows[req.id].content.serialHex == Some(""))
                        && db.rows[req.id].content.blob.serial != None
                        && db.rows[req.id].content.blob.serial != Some([]);
            && (!goes ==> after == db)
            && (goes ==>
                  && OnlyRow(db, after, req.id) && after.history == db.history && req.id in after.rows
                  && after.rows[req.id].content.serialHex == Some(Hex.Encode(db.rows[req.id].content.blob.serial.value))
                  && SameMaterial(after.rows[req.id].content, db.rows[req.id].content)
                  && after.rows[req.id].(content := db.rows[req.id].content) == db.rows[req.id])
  {
    HandleUnfolds(db, req);
  }

  // ---- Who signed what ----

  /** The CA of this system that signed the request's new material, as the request has it. */
  function Signer(req: Request): Option<int> {
    match req
    case Create(_, _, _, _, _, _, _, issuer, _, _, _) => issuer
    case ReplaceManually(_, _, upload, _, _, _, _) => Some(upload.caId)
    case RenewInternally(_, _, _, _, _, _, caId) => Some(caId)
    case _ => None
  }

  /** CA ids are row ids, and those are positive. */
  predicate RealCa(req: Request) {
    (req.ReplaceManually? || req.RenewInternally?) ==> Signer(req).value > 0
  }

  /** A version keeps its signer; one that was not there has the request's. */
  ghost function Enter(db: Db, signers: map<Key, Option<int>>, req: Request): map<Key, Option<int>> {
    map k | k in Versions(Handle(db, req)) :: if k in signers then signers[k] else Signer(req)
  }

  ghost function SignersAfter(db: Db, signers: map<Key, Option<int>>, reqs: seq<Request>): map<Key, Option<int>>
    decreases |reqs|
  {
    if reqs == [] then signers
    else SignersAfter(Handle(db, reqs[0]), Enter(db, signers, reqs[0]), reqs[1..])
  }

  /** The record covers exactly the versions there are, and the tables agree with it. */
  ghost predicate Agrees(db: Db, signers: map<Key, Option<int>>) {
    && signers.Keys == Versions(db).Keys
    && forall k :: k in signers ==> Versions(db)[k].caId == signers[k]
  }

  lemma NewVersionsAreTheRequests(db: Db, req: Request, k: Key)
    requires Inv(db) && Plausible(req) && RealCa(req)
    requires k in Versions(Handle(db, req)) && k !in Versions(db)
    ensures Versions(Handle(db, req))[k].caId == Signer(req)
  {
    VersionsAfter(db, req, k);
    assert k.id in db.rows ==> IsCurrent(db, Key(k.id, db.rows[k.id].version));
    match req
    case Create(_, _, _, _, _, _, _, _, _, _, _) => CreateStoresTheRequest(db, req);
    case CreateFromAcme(_, _, _, _, _, _) => AcmeCreateStoresTheRequest(db, req);
    case ReplaceManually(_, _, _, _, _, _, _) => ManualReplacement(db, req);
    case RenewInternally(_, _, _, _, _, _, _) => InternalRenewal(db, req);
    case WatchAcme(_, _, _, _, _, _) => AcmeRenewalByWatcher(db, req);
    case IssueAcme(_, _, _, _, _, _) => AcmeRenewalByOperator(db, req);
    case _ =>
  }

  lemma EnterKeepsAgrees(db: Db, signers: map<Key, Option<int>>, req: Request)
    requires Inv(db) && Plausible(req) && RealCa(req) && Agrees(db, signers)
    ensures Agrees(Handle(db, req), Enter(db, signers, req))
  {
    var after := Handle(db, req);
    forall k | k in Versions(after)
      ensures Versions(after)[k].caId == if k in signers then signers[k] else Signer(req)
    {
      if k in signers {
        VersionsAfter(db, req, k);
      } else {
        NewVersionsAreTheRequests(db, req, k);
      }
    }
  }

  lemma {:induction false} RunAgrees(db: Db, signers: map<Key, Option<int>>, reqs: seq<Request>)
    requires Inv(db) && Agrees(db, signers) && forall r :: r in reqs ==> Plausible(r) && RealCa(r)
    ensures Agrees(Serve(db, reqs), SignersAfter(db, signers, reqs))
    decreases |reqs|
  {
    if reqs != [] {
      EnterKeepsAgrees(db, signers, reqs[0]);
      HandleKeepsInv(db, reqs[0]);
      RunAgrees(Handle(db, reqs[0]), Enter(db, signers, reqs[0]), reqs[1..]);
    }
  }

  ghost function SignersOf(reqs: seq<Request>): map<Key, Option<int>> {
    SignersAfter(EMPTY, map[], reqs)
  }

  lemma ReachableAgrees(reqs: seq<Request>)
    requires forall r :: r in reqs ==> Plausible(r) && RealCa(r)
    ensures Agrees(Serve(EMPTY, reqs), SignersOf(reqs)) && Inv(Serve(EMPTY, reqs))
  {
    EmptyIsFine();
    ServeKeepsInv(EMPTY, reqs);
    assert CurrentKeys(EMPTY) == {};
    assert Versions(EMPTY).Keys == {};
    RunAgrees(EMPTY, map[], reqs);
  }

  /** This version carries the serial, the CA signed it and its row was revoked at that moment. */
  ghost predicate SignedAndRevoked(reqs: seq<Request>, ca: int, e: CrlEntry, k: Key) {
    var db := Serve(EMPTY, reqs);
    && k in Versions(db) && Versions(db)[k].blob.serial == Some(e.serial)
    && k in SignersOf(reqs) && SignersOf(reqs)[k] == Some(ca)
    && k.id in db.rows && db.rows[k.id].revokedAt == Some(e.revokedAt)
  }

  /** In every reachable state a CA's computed list holds exactly the serials that this CA
      signed, as the requests have it, and whose row is revoked, wherever renewals have moved
      the row since. */
  lemma ListIsWhatTheCaSigned(reqs: seq<Request>, ca: int, e: CrlEntry)
    requires forall r :: r in reqs ==> Plausible(r) && RealCa(r)
    ensures IsCrlEntry(Serve(EMPTY, reqs), ca, e) <==> exists k :: SignedAndRevoked(reqs, ca, e, k)
  {
    ReachableAgrees(reqs);
    ReachableCrlIsExact(reqs, ca, e);
    var db := Serve(EMPTY, reqs);
    if IsCrlEntry(db, ca, e) {
      var k :| IsRevokedVersion(db, ca, k) && Versions(db)[k].blob.serial == Some(e.serial)
               && db.rows[k.id].revokedAt == Some(e.revokedAt);
      assert SignedAndRevoked(reqs, ca, e, k);
    }
    if k :| SignedAndRevoked(reqs, ca, e, k) {
      assert IsRevokedVersion(db, ca, k);
    }
  }

  /** The public lookup names the CA that signed the version, as the requests have it, and reports
      it revoked exactly when its row is. */
  lemma LookupNamesTheSigner(reqs: seq<Request>, k: Key, now: int, reply: ValidateReply)
    requires AllFresh(EMPTY, reqs) && forall r :: r in reqs ==> Plausible(r) && RealCa(r)
    requires k in Versions(Serve(EMPTY, reqs)) && k in SignersOf(reqs) && SignersOf(reqs)[k].Some?
    requires Versions(Serve(EMPTY, reqs))[k].blob.serial.Some?
    requires var serial := Versions(Serve(EMPTY, reqs))[k].blob.serial.value;
             MayReply(Serve(EMPTY, reqs), Hex.Encode(serial), now, reply)
    ensures var db := Serve(EMPTY, reqs);
            && reply.Known? && reply.row.caId == SignersOf(reqs)[k]
            && k.id in db.rows && reply.row.revokedAt == db.rows[k.id].revokedAt
            && (reply.status == Revoked <==> db.rows[k.id].revokedAt != None)
  {
    ReachableAgrees(reqs);
    ReachableDistinct(reqs);
    SignerIsLookedUp(Serve(EMPTY, reqs), SignersOf(reqs), k, now, reply);
  }

  lemma ReachableDistinct(reqs: seq<Request>)
    requires AllFresh(EMPTY, reqs) && forall r :: r in reqs ==> Plausible(r)
    ensures SerialsDistinct(Serve(EMPTY, reqs))
  {
    EmptyIsFine();
    ServeKeepsDistinct(EMPTY, reqs);
  }

  lemma SignerIsLookedUp(db: Db, signers: map<Key, Option<int>>, k: Key, now: int, reply: ValidateReply)
    requires Inv(db) && SerialsDistinct(db) && Agrees(db, signers)
    requires k in Versions(db) && signers[k].Some? && Versions(db)[k].blob.serial.Some?
    requires MayReply(db, Hex.Encode(Versions(db)[k].blob.serial.value), now, reply)
    ensures reply.Known? && reply.row.caId == signers[k] && k.id in db.rows
    ensures reply.row.revokedAt == db.rows[k.id].revokedAt
    ensures reply.status == Revoked <==> db.rows[k.id].revokedAt != None
  {
    VersionIsLookedUp(db, k, now, reply);
    StatusMeans(now, reply.row);
  }

  /** The reply to the serial of a version some CA of this system signed is that version's own. */
  lemma VersionIsLookedUp(db: Db, k: Key, now: int, reply: ValidateReply)
    requires HistoryBelow(db) && SerialsRecorded(db) && SerialsDistinct(db)
    requires k in Versions(db) && Versions(db)[k].caId.Some? && Versions(db)[k].blob.serial.Some?
    requires MayReply(db, Hex.Encode(Versions(db)[k].blob.serial.value), now, reply)
    ensures reply.Known? && reply.row.caId == Versions(db)[k].caId && reply.status == StatusAt(now, reply.row)
    ensures k.id in db.rows && reply.row.revokedAt == db.rows[k.id].revokedAt
  {
    var serial := Versions(db)[k].blob.serial.value;
    NormaliseOfEncode(serial);
    RecordedVersion(db, k);
    assert |Hex.Encode(serial)| == 2 * |serial|;
    LookupFindsTheVersion(db, serial, k, if reply.Known? then Some(reply.row) else None);
  }

  lemma RecordedVersion(db: Db, k: Key)
    requires SerialsRecorded(db) && k in Versions(db)
    ensures SerialRecorded(Versions(db)[k])
  {
    if !IsCurrent(db, k) {
      assert k in db.history;
    }
  }
}
