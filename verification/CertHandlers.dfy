/** The request handlers and background tasks that change certificates, each treated as one
    uninterrupted sequence of database steps, and what every run of them preserves. */
module CertHandlers {
  import opened Prelude
  import Hex
  import Clock = RenewalClock
  import opened CertStore
  import opened Revocation

  const THIRTY_DAYS: int := 30 * Clock.DAY

  /** Material sent to the manual replace endpoint. `accepted` stands for everything that
      endpoint checks about the sender and the material besides what the model spells out:
      authorisation, parsing, duplicate fingerprints, the common name and the chain. */
  datatype Upload = Upload(
    blob: Blob, password: string, notBefore: int, notAfter: int, fingerprint: string, caId: int,
    accepted: bool)

  datatype Request =
    | Create(id: int, blob: Blob, password: string, createdOn: int, validUntil: int, certType: CertType,
             renewMethod: RenewMethod, issuer: Option<int>, userId: int, isImported: bool, digest: Option<string>)
    | CreateFromAcme(id: int, blob: Blob, validUntil: int, userId: int, provider: int, now: int)
    | BackfillSerial(id: int)
    | ReplaceManually(id: int, actor: int, upload: Upload, chosen: Option<RenewMethod>,
                      force: bool, localAdmin: bool, now: int)
    | RenewInternally(id: int, tick: int, start: int, end: int, blob: Blob, fingerprint: string, caId: int)
    | WatchAcme(id: int, tick: int, blob: Blob, fingerprint: string, validUntil: int, now: int)
    | IssueAcme(id: int, actor: int, blob: Blob, fingerprint: string, validUntil: int, now: int)
    | RevokeByApi(id: int, caUsable: bool, now: int)
    | RevokeByAcme(id: int, now: int)
    | DeleteHistory(id: int, version: int)
    | DeleteCertificate(id: int)
    | NotifyOnce(id: int, tick: int)

  /** The serial text a replacement stores. */
  function SerialText(blob: Blob): Option<string> {
    if blob.serial.Some? then Some(Hex.Encode(blob.serial.value)) else None
  }

  /** Recording the serial after an insert, or at start-up; an empty one is not stored. */
  function RecordSerial(id: int, blob: Blob): seq<DbStep> {
    if blob.serial.Some? && blob.serial.value != [] then [StepSetSerial(id, Hex.Encode(blob.serial.value))] else []
  }

  /** The manual endpoint lets a replacement through. Only a local admin's `force` waives
      the demand that it ends later than what it replaces. */
  predicate MayReplaceManually(row: Row, upload: Upload, force: bool, localAdmin: bool, now: int) {
    && row.acmeProvider.None? && row.isImported && row.revokedAt.None? && row.certType.IsTls()
    && upload.accepted
    && upload.notAfter > now && upload.notBefore <= now
    && (upload.notAfter > row.content.validUntil || (force && localAdmin))
  }

  /** An operator's choice wins; a row whose one notice is spent is re-armed. */
  function RearmedMethod(row: Row, chosen: Option<RenewMethod>): RenewMethod {
    if chosen.Some? then chosen.value
    else if row.renewMethod == NoRenewal then Notify
    else row.renewMethod
  }

  /** The expiry watcher renews the row through the internal CA at this tick. */
  predicate RenewsInternally(row: Row, tick: int) {
    && row.revokedAt.None? && row.renewMethod.Renews()
    && row.acmeProvider.None? && !row.isImported
    && Clock.Due(row.content.validUntil, tick)
    && row.certType.IsTls()
  }

  /** The expiry watcher starts an ACME renewal of the row at this tick. */
  predicate RenewsByAcme(row: Row, tick: int) {
    row.revokedAt.None? && row.acmeProvider.Some? && row.renewMethod.Renews()
    && row.content.validUntil < tick + THIRTY_DAYS
  }

  /** The expiry watcher mails the one notice of the row at this tick. A row that renews by
      itself has none to spend, unless it is an imported one, which never renews by itself. */
  predicate SpendsNotice(row: Row, tick: int) {
    && row.revokedAt.None? && row.renewMethod != NoRenewal && Clock.Due(row.content.validUntil, tick)
    && (row.renewMethod == Notify || (row.acmeProvider.None? && row.isImported))
  }

  function AcmeInput(blob: Blob, fingerprint: string, validUntil: int, now: int): ReplaceInput {
    ReplaceInput(blob, "", now, validUntil, SerialText(blob), fingerprint, 0, None)
  }

  /** The database steps a request takes when nothing comes between them. */
  function Plan(db: Db, req: Request): seq<DbStep> {
    match req
    case Create(id, blob, password, createdOn, validUntil, certType, renewMethod, caId, userId, isImported, fp) =>
      if id in db.rows then [] else
      [StepInsert(id, Row(Content(blob, password, createdOn, validUntil, None, caId), 1, fp, renewMethod,
                          certType, userId, isImported, None, None))] + RecordSerial(id, blob)
    case CreateFromAcme(id, blob, validUntil, userId, provider, now) =>
      if id in db.rows then [] else
      [StepInsert(id, Row(Content(blob, "", now, validUntil, None, None), 1, None, Notify,
                          TLSServer, userId, false, Some(provider), None))]
    case BackfillSerial(id) =>
      if id in db.rows && (db.rows[id].content.serialHex == None || db.rows[id].content.serialHex == Some(""))
      then RecordSerial(id, db.rows[id].content.blob) else []
    case ReplaceManually(id, actor, upload, chosen, force, localAdmin, now) =>
      if id in db.rows && MayReplaceManually(db.rows[id], upload, force, localAdmin, now) then
        [StepReplace(id, Some(actor), now,
                     ReplaceInput(upload.blob, upload.password, upload.notBefore, upload.notAfter,
                                  SerialText(upload.blob), upload.fingerprint, upload.caId,
                                  Some(RearmedMethod(db.rows[id], chosen))),
                     ImportedManual)]
      else []
    case RenewInternally(id, tick, start, end, blob, fingerprint, caId) =>
      if id in db.rows && RenewsInternally(db.rows[id], tick) then
        var was := db.rows[id].content;
        [StepReplace(id, None, end,
                     ReplaceInput(blob, was.password, start,
                                  Clock.RenewedUntil(was.createdOn, was.validUntil, end),
                                  SerialText(blob), fingerprint, caId, None),
                     Renewal)]
      else []
    case WatchAcme(id, tick, blob, fingerprint, validUntil, now) =>
      if id in db.rows && RenewsByAcme(db.rows[id], tick) && validUntil > db.rows[id].content.validUntil then
        [StepReplace(id, None, now, AcmeInput(blob, fingerprint, validUntil, now), AcmeRenewal)]
      else []
    case IssueAcme(id, actor, blob, fingerprint, validUntil, now) =>
      if id in db.rows && validUntil > db.rows[id].content.validUntil then
        [StepReplace(id, Some(actor), now, AcmeInput(blob, fingerprint, validUntil, now), AcmeRenewal)]
      else []
    case RevokeByApi(id, caUsable, now) =>
      if id in db.rows && db.rows[id].revokedAt.None? && db.rows[id].content.caId.Some? && caUsable
      then [StepRevoke(id, now)] else []
    case RevokeByAcme(id, now) =>
      if id in db.rows && db.rows[id].revokedAt.None? then [StepRevoke(id, now)] else []
    case DeleteHistory(id, version) =>
      if id in db.rows && db.rows[id].version != version && db.rows[id].revokedAt.None?
      then [StepDeleteVersion(id, version)] else []
    case DeleteCertificate(id) => [StepDeleteRow(id)]
    case NotifyOnce(id, tick) =>
      if id in db.rows && SpendsNotice(db.rows[id], tick) then [StepSetRenewMethod(id, NoRenewal)] else []
  }

  function Handle(db: Db, req: Request): Db {
    RunSteps(db, Plan(db, req))
  }

  function Serve(db: Db, reqs: seq<Request>): Db
    decreases |reqs|
  {
    if reqs == [] then db else Serve(Handle(db, reqs[0]), reqs[1..])
  }

  // ---- Assumptions about requests ----

  function NewBlob(req: Request): Option<Blob> {
    match req
    case Create(_, blob, _, _, _, _, _, _, _, _, _) => Some(blob)
    case CreateFromAcme(_, blob, _, _, _, _) => Some(blob)
    case ReplaceManually(_, _, upload, _, _, _, _) => Some(upload.blob)
    case RenewInternally(_, _, _, _, blob, _, _) => Some(blob)
    case WatchAcme(_, _, blob, _, _, _) => Some(blob)
    case IssueAcme(_, _, blob, _, _, _) => Some(blob)
    case _ => None
  }

  /** Clocks do not run backwards within a request, and the serial of newly stored material
      can be read and is not empty. */
  predicate Plausible(req: Request) {
    && (req.RenewInternally? ==> req.tick <= req.start <= req.end)
    && (NewBlob(req).Some? ==> NewBlob(req).value.serial.Some? && NewBlob(req).value.serial.value != [])
  }

  /** No local admin forces a shorter-lived replacement through. */
  predicate Unforced(req: Request) {
    req.ReplaceManually? ==> !(req.force && req.localAdmin)
  }

  predicate KeepsCertificate(req: Request, id: int) {
    req != DeleteCertificate(id)
  }

  // ---- Invariants ----

  /** Within one row, a higher version ends later. */
  ghost predicate ExpiryIncreases(db: Db) {
    && (forall k :: k in db.history && k.id in db.rows
          ==> db.history[k].content.validUntil < db.rows[k.id].content.validUntil)
    && (forall j, k :: j in db.history && k in db.history && j.id == k.id && j.version < k.version
          ==> db.history[j].content.validUntil < db.history[k].content.validUntil)
  }

  /** ACME client rows never carry a CA of this system and are TLS server certificates;
      SSH rows never gain history. */
  ghost predicate ClassesKept(db: Db) {
    && (forall id :: id in db.rows && db.rows[id].acmeProvider.Some?
          ==> db.rows[id].content.caId.None? && db.rows[id].certType == TLSServer)
    && (forall k :: k in db.history && k.id in db.rows ==> db.rows[k.id].certType.IsTls())
  }

  ghost predicate Inv(db: Db) {
    HistoryBelow(db) && SerialsRecorded(db) && ClassesKept(db)
  }

  lemma OneStep(db: Db, step: DbStep)
    ensures RunSteps(db, [step]) == Apply(db, step)
  {
    assert RunSteps(Apply(db, step), [step][1..]) == Apply(db, step);
  }

  lemma TwoSteps(db: Db, first: DbStep, second: DbStep)
    ensures RunSteps(db, [first, second]) == Apply(Apply(db, first), second)
  {
    assert [first, second][1..] == [second];
    OneStep(Apply(db, first), second);
  }

  /** What a request comes to: at most one step, except that a creation inserts the row and
      then records its serial. */
  lemma HandleUnfolds(db: Db, req: Request)
    ensures |Plan(db, req)| == 0 ==> Handle(db, req) == db
    ensures |Plan(db, req)| == 1 ==> Handle(db, req) == Apply(db, Plan(db, req)[0])
    ensures |Plan(db, req)| == 2 ==> Handle(db, req) == Apply(Apply(db, Plan(db, req)[0]), Plan(db, req)[1])
    ensures |Plan(db, req)| <= 2
  {
    var plan := Plan(db, req);
    if |plan| == 1 {
      assert plan == [plan[0]];
      OneStep(db, plan[0]);
    } else if |plan| == 2 {
      assert plan == [plan[0], plan[1]];
      TwoSteps(db, plan[0], plan[1]);
    }
  }

  lemma ReplaceKeepsInv(db: Db, id: int, actor: Option<int>, now: int, input: ReplaceInput, guard: Guard)
    requires Inv(db) && id in db.rows && Admits(guard, db.rows[id])
    requires db.rows[id].certType.IsTls()
    requires input.blob.serial.Some? && input.blob.serial.value != [] && input.serialHex == SerialText(input.blob)
    requires guard == AcmeRenewal ==> input.caId == 0
    ensures Inv(Replace(db, id, actor, now, input, guard).0)
    ensures ExpiryIncreases(db) && db.rows[id].content.validUntil < input.validUntil
            ==> ExpiryIncreases(Replace(db, id, actor, now, input, guard).0)
  {
    ReplaceIsAllOrNothing(db, id, actor, now, input, guard);
    var row := db.rows[id];
    var after := Replace(db, id, actor, now, input, guard).0;
    assert after == Db(db.rows[id := Renewed(row, input)],
                       db.history[Key(id, row.version) := Displace(row, now, actor)]);
    assert SerialRecorded(NewContent(row, input));
  }

  predicate IsReplacement(req: Request) {
    req.ReplaceManually? || req.RenewInternally? || req.WatchAcme? || req.IssueAcme?
  }

  /** What each replacement path asks the database for: material whose serial is recorded,
      no CA for an ACME row, and, unless forced, a later end than the current one. Three
      paths compare the ends themselves; the internal one gets it from the clock. */
  lemma ReplacementsExtend(db: Db, req: Request)
    requires IsReplacement(req) && Plausible(req) && Plan(db, req) != []
    ensures Plan(db, req)[0].StepReplace? && |Plan(db, req)| == 1 && Plan(db, req)[0].id in db.rows
    ensures var step := Plan(db, req)[0];
            && step.input.blob.serial.Some? && step.input.blob.serial.value != []
            && step.input.serialHex == SerialText(step.input.blob)
            && (step.guard == AcmeRenewal ==> step.input.caId == 0)
            && (step.guard == AcmeRenewal || db.rows[step.id].certType.IsTls())
            && (Unforced(req) ==> db.rows[step.id].content.validUntil < step.input.validUntil)
  {
    if req.RenewInternally? {
      var c := db.rows[req.id].content;
      Clock.RenewalExtends(c.createdOn, c.validUntil, req.tick, req.end);
    }
  }

  predicate SameIdentity(a: Row, b: Row) {
    a.content == b.content && a.certType == b.certType && a.version == b.version && a.acmeProvider == b.acmeProvider
  }

  /** `after` has no rows or versions that `db` does not have. */
  ghost predicate Shrinks(db: Db, after: Db) {
    && (forall id :: id in after.rows ==> id in db.rows && SameIdentity(after.rows[id], db.rows[id]))
    && (forall k :: k in after.history ==> k in db.history && k.id in after.rows && after.history[k] == db.history[k])
  }

  lemma ShrinkingKeepsInv(db: Db, after: Db)
    requires Inv(db) && Shrinks(db, after)
    ensures Inv(after) && (ExpiryIncreases(db) ==> ExpiryIncreases(after))
  {
  }

  lemma SmallStepKeepsInv(db: Db, step: DbStep)
    requires Inv(db)
    requires step.StepDeleteRow? || step.StepDeleteVersion? || step.StepRevoke? || step.StepSetRenewMethod?
    ensures Inv(Apply(db, step)) && (ExpiryIncreases(db) ==> ExpiryIncreases(Apply(db, step)))
  {
    assert Shrinks(db, Apply(db, step));
    ShrinkingKeepsInv(db, Apply(db, step));
  }

  lemma RecordingKeepsInv(db: Db, id: int)
    requires Inv(db) && id in db.rows
    ensures var step := StepSetSerial(id, Hex.Encode(db.rows[id].content.blob.serial.value));
            Inv(Apply(db, step)) && (ExpiryIncreases(db) ==> ExpiryIncreases(Apply(db, step)))
  {
    assert SerialRecorded(db.rows[id].content);
    var after := Apply(db, StepSetSerial(id, Hex.Encode(db.rows[id].content.blob.serial.value)));
    assert SerialRecorded(after.rows[id].content);
    assert forall j :: j in db.rows && j != id ==> after.rows[j] == db.rows[j];
  }

  lemma HandleKeepsInv(db: Db, req: Request)
    requires Inv(db) && Plausible(req)
    ensures Inv(Handle(db, req))
    ensures ExpiryIncreases(db) && Unforced(req) ==> ExpiryIncreases(Handle(db, req))
  {
    HandleUnfolds(db, req);
    var plan := Plan(db, req);
    if plan == [] {
    } else if IsReplacement(req) {
      ReplacementsExtend(db, req);
      var s := plan[0];
      ReplaceIsAllOrNothing(db, s.id, s.actor, s.now, s.input, s.guard);
      if Admits(s.guard, db.rows[s.id]) {
        ReplaceKeepsInv(db, s.id, s.actor, s.now, s.input, s.guard);
      }
    } else if req.Create? {
      CreateKeepsInv(db, req);
    } else if req.CreateFromAcme? {
      AcmeCreateKeepsInv(db, req);
    } else if req.BackfillSerial? {
      RecordingKeepsInv(db, req.id);
    } else {
      SmallStepKeepsInv(db, plan[0]);
    }
  }

  lemma AcmeCreateKeepsInv(db: Db, req: Request)
    requires Inv(db) && Plausible(req) && req.CreateFromAcme? && req.id !in db.rows
    ensures Inv(Handle(db, req))
    ensures ExpiryIncreases(db) ==> ExpiryIncreases(Handle(db, req))
  {
    HandleUnfolds(db, req);
    var after := Handle(db, req);
    assert after.history == db.history;
    assert forall id :: id in db.rows ==> after.rows[id] == db.rows[id];
    assert forall k :: k in db.history ==> k.id != req.id;
    assert SerialRecorded(after.rows[req.id].content);
  }

  lemma CreateKeepsInv(db: Db, req: Request)
    requires Inv(db) && Plausible(req) && req.Create? && req.id !in db.rows
    ensures Inv(Handle(db, req))
    ensures ExpiryIncreases(db) ==> ExpiryIncreases(Handle(db, req))
  {
    HandleUnfolds(db, req);
    var after := Handle(db, req);
    assert after.history == db.history;
    assert after.rows.Keys == db.rows.Keys + {req.id};
    assert forall id :: id in db.rows ==> after.rows[id] == db.rows[id];
    assert forall k :: k in db.history ==> k.id != req.id;
    assert SerialRecorded(after.rows[req.id].content);
  }

  /** Every run of requests from a state satisfying the invariants, in particular from empty
      tables, keeps them; without forced downgrades expiry keeps increasing with the
      version over all four replacement paths. */
  lemma {:induction false} ServeKeepsInv(db: Db, reqs: seq<Request>)
    requires Inv(db) && forall r :: r in reqs ==> Plausible(r)
    ensures Inv(Serve(db, reqs))
    ensures ExpiryIncreases(db) && (forall r :: r in reqs ==> Unforced(r)) ==> ExpiryIncreases(Serve(db, reqs))
    decreases |reqs|
  {
    if reqs != [] {
      HandleKeepsInv(db, reqs[0]);
      ServeKeepsInv(Handle(db, reqs[0]), reqs[1..]);
    }
  }

  const EMPTY: Db := Db(map[], map[])

  lemma EmptyIsFine()
    ensures Inv(EMPTY) && ExpiryIncreases(EMPTY) && SerialsDistinct(EMPTY)
  {
  }
}
