/** What holds over every run of certificate requests: expiry identifies the version, rows
    stay in their class, revocation is final, and both ways of asking about revocation give
    the same exact answer. */
module CertRuns {
  import opened Prelude
  import Hex
  import opened CertStore
  import opened Revocation
  import opened CertHandlers
  import Clock = RenewalClock

  // ---- Expiry identifies the version ----

  lemma StepOnExpiry(db: Db, req: Request, id: int)
    requires Inv(db) && Plausible(req) && Unforced(req) && KeepsCertificate(req, id) && id in db.rows
    ensures var after := Handle(db, req);
            && id in after.rows
            && ((after.rows[id].version == db.rows[id].version
                 && after.rows[id].content.validUntil == db.rows[id].content.validUntil
                 && after.rows[id].content.blob == db.rows[id].content.blob
                 && after.rows[id].content.password == db.rows[id].content.password)
                || (after.rows[id].version == db.rows[id].version + 1
                    && after.rows[id].content.validUntil > db.rows[id].content.validUntil
                    && IsReplacement(req) && req.id == id
                    && NewBlob(req) == Some(after.rows[id].content.blob)))
  {
    HandleUnfolds(db, req);
    if IsReplacement(req) && Plan(db, req) != [] {
      ReplacementsExtend(db, req);
    }
  }

  /** Over every unforced run that does not delete the row, the expiry of the current version
      grows strictly with its number: the two compare alike, so the pair of row id and
      expiry identifies a version. */
  lemma {:induction false} ExpiryNamesVersion(db: Db, reqs: seq<Request>, id: int)
    requires Inv(db) && id in db.rows
    requires forall r :: r in reqs ==> Plausible(r) && Unforced(r) && KeepsCertificate(r, id)
    ensures var after := Serve(db, reqs);
            && id in after.rows
            && after.rows[id].version >= db.rows[id].version
            && (after.rows[id].version == db.rows[id].version
                <==> after.rows[id].content.validUntil == db.rows[id].content.validUntil)
            && (after.rows[id].version > db.rows[id].version
                <==> after.rows[id].content.validUntil > db.rows[id].content.validUntil)
    decreases |reqs|
  {
    if reqs != [] {
      StepOnExpiry(db, reqs[0], id);
      HandleKeepsInv(db, reqs[0]);
      ExpiryNamesVersion(Handle(db, reqs[0]), reqs[1..], id);
    }
  }

  /** Exactly when a replacement keeps expiry increasing with the version: it ends later than
      the version it finds at the moment it writes. A forced downgrade does not, and neither
      does a check made against a version that has been replaced meanwhile. */
  lemma ReplaceKeepsExpiryIff(db: Db, id: int, actor: Option<int>, now: int, input: ReplaceInput, guard: Guard)
    requires HistoryBelow(db) && ExpiryIncreases(db)
    requires Replace(db, id, actor, now, input, guard).1.Replaced?
    ensures ExpiryIncreases(Replace(db, id, actor, now, input, guard).0)
            <==> input.validUntil > db.rows[id].content.validUntil
  {
    var after := Replace(db, id, actor, now, input, guard).0;
    var k := Key(id, db.rows[id].version);
    assert k in after.history && k !in db.history;
    assert after.history[k].content == db.rows[id].content;
    assert after.rows[id].content.validUntil == input.validUntil;
    if input.validUntil > db.rows[id].content.validUntil {
      assert forall j :: j in after.history && j != k ==> j in db.history && after.history[j] == db.history[j];
    }
  }

  /** A local administrator's request that goes through without extending the validity. */
  predicate ForcesDowngrade(db: Db, req: Request) {
    && req.ReplaceManually? && req.id in db.rows
    && MayReplaceManually(db.rows[req.id], req.upload, req.force, req.localAdmin, req.now)
    && req.upload.notAfter <= db.rows[req.id].content.validUntil
  }

  /** Of all requests exactly the forced downgrades break the order of expiries. */
  lemma OnlyForcedDowngradesBreakExpiry(db: Db, req: Request)
    requires Inv(db) && ExpiryIncreases(db) && Plausible(req)
    ensures ExpiryIncreases(Handle(db, req)) <==> !ForcesDowngrade(db, req)
  {
    HandleUnfolds(db, req);
    if !req.ReplaceManually? {
      HandleKeepsInv(db, req);
    } else if Plan(db, req) != [] {
      ReplacementPlan(db, req);
      var s := Plan(db, req)[0];
      ReplaceIsAllOrNothing(db, s.id, s.actor, s.now, s.input, s.guard);
      ReplaceKeepsExpiryIff(db, s.id, s.actor, s.now, s.input, s.guard);
    }
  }

  ghost predicate NoneForces(db: Db, reqs: seq<Request>)
    decreases |reqs|
  {
    reqs == [] || (!ForcesDowngrade(db, reqs[0]) && NoneForces(Handle(db, reqs[0]), reqs[1..]))
  }

  /** Over every run without a forced downgrade expiry increases with the version. */
  lemma {:induction false} ExpiryIncreasesUnlessForced(db: Db, reqs: seq<Request>)
    requires Inv(db) && ExpiryIncreases(db) && NoneForces(db, reqs)
    requires forall r :: r in reqs ==> Plausible(r)
    ensures ExpiryIncreases(Serve(db, reqs))
    decreases |reqs|
  {
    if reqs != [] {
      OnlyForcedDowngradesBreakExpiry(db, reqs[0]);
      HandleKeepsInv(db, reqs[0]);
      ExpiryIncreasesUnlessForced(Handle(db, reqs[0]), reqs[1..]);
    }
  }

  const OLD_BLOB: Blob := Blob([1], Some([1]))
  const NEW_BLOB: Blob := Blob([2], Some([2]))
  const NEWER_BLOB: Blob := Blob([3], Some([3]))

  const IMPORT: Request :=
    Create(1, OLD_BLOB, "", 0, 200, TLSServer, Notify, Some(1), 1, true, Some("aa"))
  const DOWNGRADE: Request :=
    ReplaceManually(1, 1, Upload(NEW_BLOB, "", 0, 100, "bb", 1, true), None, true, true, 50)

  lemma OneRequest(db: Db, req: Request)
    ensures Serve(db, [req]) == Handle(db, req)
  {
    assert Serve(Handle(db, req), [req][1..]) == Handle(db, req);
  }

  /** A forced downgrade that goes through: an imported certificate that ends at 200 replaced by
      one that ends at 100. */
  lemma ForcedDowngradeHappens()
    ensures Plausible(IMPORT) && Plausible(DOWNGRADE)
    ensures var db := Serve(EMPTY, [IMPORT]);
            && Inv(db) && ExpiryIncreases(db) && ForcesDowngrade(db, DOWNGRADE)
            && !ExpiryIncreases(Handle(db, DOWNGRADE))
  {
    OneRequest(EMPTY, IMPORT);
    EmptyIsFine();
    HandleKeepsInv(EMPTY, IMPORT);
    ImportLands();
    OnlyForcedDowngradesBreakExpiry(Handle(EMPTY, IMPORT), DOWNGRADE);
  }

  lemma ImportLands()
    ensures var rows := Handle(EMPTY, IMPORT).rows;
            && 1 in rows && rows[1].acmeProvider.None? && rows[1].isImported && rows[1].revokedAt.None?
            && rows[1].certType == TLSServer && rows[1].content.validUntil == 200
            && rows[1].content.blob == OLD_BLOB && rows[1].version == 1
  {
    HandleUnfolds(EMPTY, IMPORT);
  }

  /** The replacement the request comes to is one the row admits. */
  predicate GoesThrough(db: Db, req: Request) {
    IsReplacement(req) && Plan(db, req) != [] && req.id in db.rows && Admits(Plan(db, req)[0].guard, db.rows[req.id])
  }

  lemma AdmittedAfterReplace(db: Db, id: int, actor: Option<int>, now: int, input: ReplaceInput, guard: Guard)
    requires HistoryBelow(db) && id in db.rows && Admits(guard, db.rows[id])
    ensures var after := Replace(db, id, actor, now, input, guard).0;
            && id in after.rows && HistoryBelow(after)
            && after.rows[id].content.validUntil == input.validUntil
            && forall g :: Admits(g, after.rows[id]) <==> Admits(g, db.rows[id])
  {
    ReplaceIsAllOrNothing(db, id, actor, now, input, guard);
    ApplyKeepsHistoryBelow(db, StepReplace(id, actor, now, input, guard));
  }

  /** Two replacements of one row, both checked against the same version before either writes:
      the second write keeps expiry increasing exactly when it ends later than the first, which
      neither check looked at. */
  lemma StaleCheckKeepsExpiryIff(db: Db, first: Request, second: Request)
    requires Inv(db) && ExpiryIncreases(db) && Plausible(first) && Unforced(first)
    requires first.id == second.id && GoesThrough(db, first) && GoesThrough(db, second)
    ensures ExpiryIncreases(RunSteps(db, [Plan(db, first)[0], Plan(db, second)[0]]))
            <==> Plan(db, second)[0].input.validUntil > Plan(db, first)[0].input.validUntil
  {
    ReplacementsExtend(db, first);
    ReplacementPlan(db, first);
    ReplacementPlan(db, second);
    var a, b := Plan(db, first)[0], Plan(db, second)[0];
    TwoSteps(db, a, b);
    ReplaceIsAllOrNothing(db, a.id, a.actor, a.now, a.input, a.guard);
    ReplaceKeepsExpiryIff(db, a.id, a.actor, a.now, a.input, a.guard);
    AdmittedAfterReplace(db, a.id, a.actor, a.now, a.input, a.guard);
    var mid := Apply(db, a);
    ReplaceIsAllOrNothing(mid, b.id, b.actor, b.now, b.input, b.guard);
    ReplaceKeepsExpiryIff(mid, b.id, b.actor, b.now, b.input, b.guard);
  }

  const ACME_ISSUE: Request := CreateFromAcme(1, OLD_BLOB, 100, 1, 1, 0)
  const LONGER: Request := IssueAcme(1, 1, NEW_BLOB, "bb", 300, 60)
  const SHORTER: Request := IssueAcme(1, 2, NEWER_BLOB, "cc", 200, 60)

  /** Such a pair: two operators renew one ACME certificate that ends at 100, to 300 and to 200,
      and the shorter one is written second. */
  lemma StaleCheckHappens()
    ensures var db := Serve(EMPTY, [ACME_ISSUE]);
            && Inv(db) && ExpiryIncreases(db) && GoesThrough(db, LONGER) && GoesThrough(db, SHORTER)
            && !ExpiryIncreases(RunSteps(db, [Plan(db, LONGER)[0], Plan(db, SHORTER)[0]]))
  {
    var db := Handle(EMPTY, ACME_ISSUE);
    OneRequest(EMPTY, ACME_ISSUE);
    EmptyIsFine();
    HandleKeepsInv(EMPTY, ACME_ISSUE);
    HandleUnfolds(EMPTY, ACME_ISSUE);
    assert db.rows[1].content.validUntil == 100;
    StaleCheckKeepsExpiryIff(db, LONGER, SHORTER);
  }

  // ---- How fast history grows ----

  lemma InternalStep(db: Db, req: Request, id: int)
    requires id in db.rows && ClassOf(db.rows[id]) == InternalRow && KeepsCertificate(req, id) && Plausible(req)
    ensures var (was, after) := (db.rows[id], Handle(db, req).rows);
            && id in after && ClassOf(after[id]) == InternalRow
            && ((after[id].version == was.version && after[id].content.validUntil == was.content.validUntil)
                || (after[id].version == was.version + 1 && req.RenewInternally? && req.id == id
                    && Clock.Due(was.content.validUntil, req.tick)
                    && after[id].content.validUntil >= req.tick + 2 * Clock.WEEK))
  {
    HandleUnfolds(db, req);
    if req.RenewInternally? && Plan(db, req) != [] {
      var c := db.rows[req.id].content;
      Clock.RenewalExtends(c.createdOn, c.validUntil, req.tick, req.end);
    }
  }

  /** Over every run up to time `t` a row renewed by the internal CA gains at most one version
      for each week, counted from its present end, and two more: history grows no faster. */
  lemma {:induction false} HistoryGrowthIsBounded(db: Db, reqs: seq<Request>, id: int, t: int)
    requires id in db.rows && ClassOf(db.rows[id]) == InternalRow
    requires forall r :: r in reqs ==> Plausible(r) && KeepsCertificate(r, id)
    requires forall r :: r in reqs && r.RenewInternally? && r.id == id ==> r.tick <= t
    ensures id in Serve(db, reqs).rows
    ensures var gained := Serve(db, reqs).rows[id].version - db.rows[id].version;
            gained >= 0 && (gained >= 1 ==> t > db.rows[id].content.validUntil + (gained - 2) * Clock.WEEK)
    decreases |reqs|
  {
    if reqs != [] {
      assert reqs[0] in reqs;
      InternalStep(db, reqs[0], id);
      HistoryGrowthIsBounded(Handle(db, reqs[0]), reqs[1..], id, t);
    }
  }

  lemma {:induction false} InternalEndNeverShrinks(db: Db, reqs: seq<Request>, id: int)
    requires id in db.rows && ClassOf(db.rows[id]) == InternalRow
    requires forall r :: r in reqs ==> Plausible(r) && KeepsCertificate(r, id)
    ensures var after := Serve(db, reqs);
            id in after.rows && after.rows[id].content.validUntil >= db.rows[id].content.validUntil
    decreases |reqs|
  {
    if reqs != [] {
      assert reqs[0] in reqs;
      InternalStep(db, reqs[0], id);
      InternalEndNeverShrinks(Handle(db, reqs[0]), reqs[1..], id);
    }
  }

  /** Two internal renewals of one row that both replace it are more than a week apart, whatever
      is served between them. */
  lemma InternalRenewalsAreSpaced(db: Db, first: Request, between: seq<Request>, second: Request)
    requires first.RenewInternally? && second.RenewInternally? && first.id == second.id
    requires Plausible(first) && Plan(db, first) != []
    requires forall r :: r in between ==> Plausible(r) && KeepsCertificate(r, first.id)
    requires HistoryBelow(db) && Plan(Serve(Handle(db, first), between), second) != []
    ensures second.tick > first.tick + Clock.WEEK
  {
    HandleUnfolds(db, first);
    var s := Plan(db, first)[0];
    ReplaceIsAllOrNothing(db, s.id, s.actor, s.now, s.input, s.guard);
    InternalStep(db, first, first.id);
    InternalEndNeverShrinks(Handle(db, first), between, first.id);
  }

  // ---- Paths and classes ----

  function PathOf(req: Request): Class
    requires IsReplacement(req)
  {
    if req.ReplaceManually? then ImportedRow else if req.RenewInternally? then InternalRow else AcmeRow
  }

  lemma HandleKeepsClass(db: Db, req: Request, id: int)
    requires id in db.rows && KeepsCertificate(req, id)
    ensures var after := Handle(db, req);
            && id in after.rows && ClassOf(after.rows[id]) == ClassOf(db.rows[id])
            && after.rows[id].certType == db.rows[id].certType
            && (after.rows[id].version != db.rows[id].version
                ==> IsReplacement(req) && PathOf(req) == ClassOf(db.rows[id]))
  {
    HandleUnfolds(db, req);
  }

  /** Over every run that does not delete the row, its class never changes, and a request that
      gives it a new version is one of its own class's path. */
  lemma {:induction false} VersionsComeFromOwnPath(db: Db, reqs: seq<Request>, id: int, next: Request)
    requires id in db.rows && forall r :: r in reqs ==> KeepsCertificate(r, id)
    requires KeepsCertificate(next, id)
    ensures var after := Serve(db, reqs);
            && id in after.rows && id in Handle(after, next).rows
            && ClassOf(after.rows[id]) == ClassOf(db.rows[id])
            && after.rows[id].certType == db.rows[id].certType
            && (Handle(after, next).rows[id].version != after.rows[id].version
                ==> IsReplacement(next) && PathOf(next) == ClassOf(db.rows[id]))
    decreases |reqs|
  {
    if reqs == [] {
      HandleKeepsClass(db, next, id);
    } else {
      assert KeepsCertificate(reqs[0], id);
      HandleKeepsClass(db, reqs[0], id);
      VersionsComeFromOwnPath(Handle(db, reqs[0]), reqs[1..], id, next);
    }
  }

  lemma HandleKeepsRenewing(db: Db, req: Request, id: int)
    requires id in db.rows && KeepsCertificate(req, id)
    requires ClassOf(db.rows[id]) != ImportedRow && db.rows[id].renewMethod.Renews()
    ensures var after := Handle(db, req);
            id in after.rows && ClassOf(after.rows[id]) == ClassOf(db.rows[id])
            && after.rows[id].renewMethod == db.rows[id].renewMethod
  {
    HandleUnfolds(db, req);
  }

  /** Automatic renewal keeps firing: over every run that keeps the row, a row that renews by
      itself goes on doing so, whatever notices, renewals and refusals come in between. */
  lemma {:induction false} RenewalKeepsFiring(db: Db, reqs: seq<Request>, id: int)
    requires id in db.rows && forall r :: r in reqs ==> KeepsCertificate(r, id)
    requires ClassOf(db.rows[id]) != ImportedRow && db.rows[id].renewMethod.Renews()
    ensures var after := Serve(db, reqs);
            id in after.rows && after.rows[id].renewMethod == db.rows[id].renewMethod
    decreases |reqs|
  {
    if reqs != [] {
      assert KeepsCertificate(reqs[0], id);
      HandleKeepsRenewing(db, reqs[0], id);
      RenewalKeepsFiring(Handle(db, reqs[0]), reqs[1..], id);
    }
  }

  /** A manual replacement re-arms the notice unless the operator chose otherwise: the new
      version of an imported row does not expire in silence. */
  lemma ReplacementRearmsNotice(db: Db, req: Request)
    requires HistoryBelow(db) && req.ReplaceManually? && Plan(db, req) != []
    ensures var after := Handle(db, req);
            && req.id in after.rows && after.rows[req.id].version == db.rows[req.id].version + 1
            && (after.rows[req.id].renewMethod == NoRenewal <==> req.chosen == Some(NoRenewal))
  {
    HandleUnfolds(db, req);
    var s := Plan(db, req)[0];
    ReplaceIsAllOrNothing(db, s.id, s.actor, s.now, s.input, s.guard);
  }

  /** SSH rows never gain history in a reachable state, so the serials of current rows are all
      the serials their revocation list needs. */
  lemma KrlFromCurrentRowsIsComplete(reqs: seq<Request>, ca: int, k: Key)
    requires forall r :: r in reqs ==> Plausible(r)
    ensures var db := Serve(EMPTY, reqs);
            IsRevokedVersion(db, ca, k) && !db.rows[k.id].certType.IsTls()
            ==> IsCurrent(db, k) && ListsCurrent(db, ca, k.id)
                && Versions(db)[k].blob.serial == db.rows[k.id].content.blob.serial
  {
    EmptyIsFine();
    ServeKeepsInv(EMPTY, reqs);
    var db := Serve(EMPTY, reqs);
    if IsRevokedVersion(db, ca, k) && k in db.history {
      assert db.rows[k.id].certType.IsTls();
    }
  }

  // ---- Versions at the grain of requests ----

  predicate SparesVersion(req: Request, k: Key) {
    req != DeleteCertificate(k.id) && req != DeleteHistory(k.id, k.version)
  }

  lemma PlanSpares(db: Db, req: Request, k: Key)
    requires SparesVersion(req, k)
    ensures forall s :: s in Plan(db, req) ==> WellFormedStep(s) && Spares(s, k)
  {
  }

  /** Over every run of requests that deletes neither the row nor the version, a version number
      keeps denoting the same bytes and password. */
  lemma {:induction false} ServedVersionIsForever(db: Db, reqs: seq<Request>, id: int, version: int)
    requires HistoryBelow(db) && id in db.rows && version <= db.rows[id].version
    requires forall r :: r in reqs ==> SparesVersion(r, Key(id, version))
    ensures GetVersion(Serve(db, reqs), id, version) == GetVersion(db, id, version)
    decreases |reqs|
  {
    if reqs != [] {
      var plan := Plan(db, reqs[0]);
      assert SparesVersion(reqs[0], Key(id, version));
      PlanSpares(db, reqs[0], Key(id, version));
      VersionNumberIsForever(db, plan, id, version);
      RunStepsKeepsHistoryBelow(db, plan);
      HandleUnfolds(db, reqs[0]);
      ServedVersionIsForever(Handle(db, reqs[0]), reqs[1..], id, version);
    }
  }

  // ---- Revocation is final ----

  /** The versions of one row stay what they are. */
  ghost predicate SameVersions(db: Db, after: Db, id: int) {
    && id in db.rows && id in after.rows
    && after.rows[id].version == db.rows[id].version
    && after.rows[id].content.(serialHex := None) == db.rows[id].content.(serialHex := None)
    && (forall k: Key :: k.id == id ==> (k in after.history <==> k in db.history))
    && (forall k :: k in db.history && k.id == id ==> after.history[k] == db.history[k])
  }

  lemma RevokedRowUntouched(db: Db, req: Request, id: int)
    requires id in db.rows && db.rows[id].revokedAt.Some? && KeepsCertificate(req, id)
    ensures SameVersions(db, Handle(db, req), id)
    ensures Handle(db, req).rows[id].revokedAt == db.rows[id].revokedAt
  {
    HandleUnfolds(db, req);
  }

  lemma {:induction false} RevokedRowUntouchedByRun(db: Db, reqs: seq<Request>, id: int)
    requires id in db.rows && db.rows[id].revokedAt.Some?
    requires forall r :: r in reqs ==> KeepsCertificate(r, id)
    ensures SameVersions(db, Serve(db, reqs), id)
    ensures Serve(db, reqs).rows[id].revokedAt == db.rows[id].revokedAt
    decreases |reqs|
  {
    if reqs != [] {
      assert KeepsCertificate(reqs[0], id);
      RevokedRowUntouched(db, reqs[0], id);
      RevokedRowUntouchedByRun(Handle(db, reqs[0]), reqs[1..], id);
    }
  }

  /** What a revoked row puts on any CA's list stays on it, unchanged, over every run that
      does not delete the whole row: no version of it can be trimmed, replaced or moved to
      another CA. */
  lemma RevocationIsFinal(db: Db, reqs: seq<Request>, id: int, ca: int, k: Key)
    requires Inv(db) && k.id == id && id in db.rows && db.rows[id].revokedAt.Some?
    requires forall r :: r in reqs ==> Plausible(r) && KeepsCertificate(r, id)
    ensures var after := Serve(db, reqs);
            && (IsRevokedVersion(after, ca, k) <==> IsRevokedVersion(db, ca, k))
            && (IsRevokedVersion(db, ca, k) ==>
                  && Versions(after)[k].blob == Versions(db)[k].blob
                  && id in after.rows && after.rows[id].revokedAt == db.rows[id].revokedAt
                  && forall serial :: Versions(db)[k].blob.serial == Some(serial)
                       ==> IsCrlEntry(after, ca, CrlEntry(serial, db.rows[id].revokedAt.value)))
  {
    RevokedRowUntouchedByRun(db, reqs, id);
    ServeKeepsInv(db, reqs);
    var after := Serve(db, reqs);
    assert IsCurrent(after, k) <==> IsCurrent(db, k);
    assert k in after.history <==> k in db.history;
    forall serial | IsRevokedVersion(db, ca, k) && Versions(db)[k].blob.serial == Some(serial)
      ensures IsCrlEntry(after, ca, CrlEntry(serial, db.rows[id].revokedAt.value))
    {
      assert IsRevokedVersion(after, ca, k);
      CrlIsExact(after, ca, CrlEntry(serial, db.rows[id].revokedAt.value));
    }
  }

  // ---- The two ways of asking about revocation ----

  /** Newly stored material carries a serial no surviving version has. */
  ghost predicate FreshSerial(db: Db, req: Request) {
    NewBlob(req).Some? ==> forall k :: k in Versions(db) ==> Versions(db)[k].blob.serial != NewBlob(req).value.serial
  }

  ghost predicate AllFresh(db: Db, reqs: seq<Request>)
    decreases |reqs|
  {
    reqs == [] || (FreshSerial(db, reqs[0]) && AllFresh(Handle(db, reqs[0]), reqs[1..]))
  }

  /** The same version, perhaps with its serial text recorded since. */
  predicate SameMaterial(a: Content, b: Content) {
    a.(serialHex := None) == b.(serialHex := None)
  }

  /** Apart from row `id`, `after` has only versions that `db` has, with the same content. */
  ghost predicate CarriesOver(db: Db, after: Db, id: int) {
    && (forall j :: j in after.rows && j != id ==> j in db.rows && after.rows[j].version == db.rows[j].version
                                                   && SameMaterial(after.rows[j].content, db.rows[j].content))
    && (forall k :: k in after.history && k.id != id ==> k in db.history && after.history[k] == db.history[k])
  }

  lemma CarriedVersion(db: Db, after: Db, id: int, k: Key)
    requires HistoryBelow(db) && HistoryBelow(after) && CarriesOver(db, after, id)
    requires k in Versions(after) && k.id != id
    ensures k in Versions(db) && SameMaterial(Versions(after)[k], Versions(db)[k])
  {
    if IsCurrent(after, k) {
      assert IsCurrent(db, k);
    } else {
      assert k in after.history && !IsCurrent(db, k);
    }
  }

  /** Every version after the request was there before with the same bytes, password, dates and
      CA, or is the
      request's new material, filed under a number that was not there. */
  lemma VersionsAfter(db: Db, req: Request, k: Key)
    requires Inv(db) && Plausible(req) && k in Versions(Handle(db, req))
    ensures || (k in Versions(db) && SameMaterial(Versions(Handle(db, req))[k], Versions(db)[k]))
            || (k !in Versions(db) && NewBlob(req) == Some(Versions(Handle(db, req))[k].blob)
                && k.id == req.id && IsCurrent(Handle(db, req), k))
  {
    HandleUnfolds(db, req);
    HandleKeepsInv(db, req);
    var after := Handle(db, req);
    if Plan(db, req) == [] {
    } else if IsReplacement(req) {
      ReplacedVersions(db, req, k);
    } else {
      OthersCarryOver(db, req);
      if k.id != req.id {
        CarriedVersion(db, after, req.id, k);
      } else {
        OwnVersionsAfter(db, req, k);
      }
    }
  }

  lemma OthersCarryOver(db: Db, req: Request)
    requires !IsReplacement(req)
    ensures CarriesOver(db, Handle(db, req), req.id)
  {
    HandleUnfolds(db, req);
  }

  lemma ReplacedVersions(db: Db, req: Request, k: Key)
    requires Inv(db) && Plausible(req) && IsReplacement(req) && k in Versions(Handle(db, req))
    ensures || (k in Versions(db) && SameMaterial(Versions(Handle(db, req))[k], Versions(db)[k]))
            || (k !in Versions(db) && NewBlob(req) == Some(Versions(Handle(db, req))[k].blob)
                && k.id == req.id && IsCurrent(Handle(db, req), k))
  {
    HandleUnfolds(db, req);
    if Plan(db, req) != [] {
      ReplacementsExtend(db, req);
      var s := Plan(db, req)[0];
      ReplaceIsAllOrNothing(db, s.id, s.actor, s.now, s.input, s.guard);
      if Admits(s.guard, db.rows[s.id]) {
        VersionsOfReplace(db, s.id, s.actor, s.now, s.input, s.guard, k);
        ReplacementPlan(db, req);
      }
    }
  }

  lemma ReplacementPlan(db: Db, req: Request)
    requires IsReplacement(req) && Plan(db, req) != []
    ensures var step := Plan(db, req)[0];
            step.StepReplace? && step.id == req.id && NewBlob(req) == Some(step.input.blob)
  {
  }

  lemma VersionsOfReplace(db: Db, id: int, actor: Option<int>, now: int, input: ReplaceInput, guard: Guard, k: Key)
    requires HistoryBelow(db) && Replace(db, id, actor, now, input, guard).1.Replaced?
    requires k in Versions(Replace(db, id, actor, now, input, guard).0)
    ensures var after := Replace(db, id, actor, now, input, guard).0;
            || (k in Versions(db) && SameMaterial(Versions(after)[k], Versions(db)[k]))
            || (k !in Versions(db) && Versions(after)[k].blob == input.blob && k.id == id && IsCurrent(after, k))
  {
    ReplaceAddsOneVersion(db, id, actor, now, input, guard);
    var after := Replace(db, id, actor, now, input, guard).0;
    assert after.rows[id].version == db.rows[id].version + 1;
  }

  lemma OwnVersionsAfter(db: Db, req: Request, k: Key)
    requires Inv(db) && !IsReplacement(req) && k in Versions(Handle(db, req)) && k.id == req.id
    ensures || (k in Versions(db) && SameMaterial(Versions(Handle(db, req))[k], Versions(db)[k]))
            || (k !in Versions(db) && NewBlob(req) == Some(Versions(Handle(db, req))[k].blob)
                && IsCurrent(Handle(db, req), k))
  {
    var after := Handle(db, req);
    OwnRowAfter(db, req);
    assert k in after.history ==> k in db.history && after.history[k] == db.history[k];
    if k.id in db.rows {
      assert IsCurrent(after, k) <==> IsCurrent(db, k);
    } else {
      assert k !in db.history && !IsCurrent(db, k);
    }
  }

  lemma OwnRowAfter(db: Db, req: Request)
    requires !IsReplacement(req)
    ensures var after := Handle(db, req);
            && (forall k :: k in after.history ==> k in db.history && after.history[k] == db.history[k])
            && (req.id in after.rows && req.id in db.rows ==>
                  && after.rows[req.id].version == db.rows[req.id].version
                  && SameMaterial(after.rows[req.id].content, db.rows[req.id].content))
            && (req.id in after.rows && req.id !in db.rows ==>
                  && NewBlob(req) == Some(after.rows[req.id].content.blob))
            && (req.id in db.rows && req.id !in after.rows ==>
                  forall k :: k in after.history ==> k.id != req.id)
  {
    HandleUnfolds(db, req);
  }

  lemma HandleKeepsDistinct(db: Db, req: Request)
    requires Inv(db) && Plausible(req) && SerialsDistinct(db) && FreshSerial(db, req)
    ensures SerialsDistinct(Handle(db, req))
  {
    var after := Handle(db, req);
    forall j, k | j in Versions(after) && k in Versions(after) && j != k
      ensures Versions(after)[j].blob.serial != Versions(after)[k].blob.serial
    {
      VersionsAfter(db, req, j);
      VersionsAfter(db, req, k);
    }
  }

  lemma {:induction false} ServeKeepsDistinct(db: Db, reqs: seq<Request>)
    requires Inv(db) && SerialsDistinct(db) && AllFresh(db, reqs)
    requires forall r :: r in reqs ==> Plausible(r)
    ensures SerialsDistinct(Serve(db, reqs))
    decreases |reqs|
  {
    if reqs != [] {
      HandleKeepsDistinct(db, reqs[0]);
      HandleKeepsInv(db, reqs[0]);
      ServeKeepsDistinct(Handle(db, reqs[0]), reqs[1..]);
    }
  }

  /** In every reachable state the computed list of a CA can be built and holds exactly the
      serials of the current and surviving historical versions it signed whose row is
      revoked. */
  lemma ReachableCrlIsExact(reqs: seq<Request>, ca: int, e: CrlEntry)
    requires forall r :: r in reqs ==> Plausible(r)
    ensures var db := Serve(EMPTY, reqs);
            && CrlBuildable(db, ca)
            && (IsCrlEntry(db, ca, e) <==>
                exists k :: IsRevokedVersion(db, ca, k) && Versions(db)[k].blob.serial == Some(e.serial)
                            && db.rows[k.id].revokedAt == Some(e.revokedAt))
  {
    EmptyIsFine();
    ServeKeepsInv(EMPTY, reqs);
    CrlIsExact(Serve(EMPTY, reqs), ca, e);
  }

  /** In every reachable state with distinct serials, a serial is on a CA's list exactly when
      the public lookup calls it revoked and names that CA. */
  lemma ReachableCrlAgreesWithLookup(
      reqs: seq<Request>, ca: int, serial: seq<Byte>, now: int, answer: Option<StatusRow>)
    requires AllFresh(EMPTY, reqs) && (forall r :: r in reqs ==> Plausible(r)) && serial != []
    requires MayAnswer(Serve(EMPTY, reqs), Hex.Encode(serial), answer)
    ensures (exists at :: IsCrlEntry(Serve(EMPTY, reqs), ca, CrlEntry(serial, at))) <==>
            (answer.Some? && StatusAt(now, answer.value) == Revoked && answer.value.caId == Some(ca))
  {
    EmptyIsFine();
    ServeKeepsInv(EMPTY, reqs);
    ServeKeepsDistinct(EMPTY, reqs);
    CrlAgreesWithLookup(Serve(EMPTY, reqs), ca, serial, now, answer);
  }

  /** The same for the public endpoint itself: whether the serial is typed in stored form or as
      certificate tools show it, the reply is "revoked, signed by this CA" exactly when the
      serial is on that CA's list. */
  lemma ReachableCrlAgreesWithValidation(
      reqs: seq<Request>, ca: int, serial: seq<Byte>, typed: string, now: int, reply: ValidateReply)
    requires AllFresh(EMPTY, reqs) && (forall r :: r in reqs ==> Plausible(r)) && serial != []
    requires typed == Hex.Encode(serial) || typed == Displayed(serial)
    requires MayReply(Serve(EMPTY, reqs), typed, now, reply)
    ensures (exists at :: IsCrlEntry(Serve(EMPTY, reqs), ca, CrlEntry(serial, at))) <==>
            (reply.Known? && reply.status == Revoked && reply.row.caId == Some(ca))
  {
    NormaliseOfEncode(serial);
    NormaliseOfDisplayed(serial);
    assert |Hex.Encode(serial)| == 2 * |serial|;
    var answer := if reply.Known? then Some(reply.row) else None;
    ReachableCrlAgreesWithLookup(reqs, ca, serial, now, answer);
  }
}
