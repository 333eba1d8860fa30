/** The two certificate tables as a value, and the effect of each single database
    operation on them. `user_certificates` holds the current version of a certificate,
    `certificate_versions` every version a replacement has displaced. */
module CertStore {
  import opened Prelude
  import Hex

  /** Stored certificate bytes. `serial` is what reading the serial number out of them
      yields, `None` when that fails; parsing itself is outside the model. */
  datatype Blob = Blob(bytes: seq<Byte>, serial: Option<seq<Byte>>)

  datatype CertType = TLSClient | TLSServer | SSHClient | SSHServer {
    predicate IsTls() { TLSClient? || TLSServer? }
  }

  datatype RenewMethod = NoRenewal | Notify | Renew | RenewAndNotify {
    predicate Renews() { Renew? || RenewAndNotify? }
  }

  /** What one version of a certificate consists of; a replacement moves it as a whole. */
  datatype Content = Content(
    blob: Blob, password: string, createdOn: int, validUntil: int,
    serialHex: Option<string>, caId: Option<int>)

  datatype Row = Row(
    content: Content, version: int, fingerprint: Option<string>, renewMethod: RenewMethod,
    certType: CertType, userId: int, isImported: bool, acmeProvider: Option<int>,
    revokedAt: Option<int>)

  datatype Superseded = Superseded(
    content: Content, fingerprint: string, replacedAt: int, replacedBy: Option<int>)

  /** A version of a certificate: row id and version number. */
  datatype Key = Key(id: int, version: int)

  datatype Db = Db(rows: map<int, Row>, history: map<Key, Superseded>)

  datatype ReplaceInput = ReplaceInput(
    blob: Blob, password: string, createdOn: int, validUntil: int, serialHex: Option<string>,
    fingerprint: string, caId: int, renewMethod: Option<RenewMethod>)

  datatype Guard = ImportedManual | Renewal | AcmeRenewal

  datatype ReplaceOutcome = Replaced(version: int) | NoSuchCertificate | VersionTaken | NotReplaceable

  /** The WHERE clause each caller's update is restricted by. */
  predicate Admits(guard: Guard, row: Row) {
    match guard
    case ImportedManual => row.revokedAt.None? && row.isImported && row.acmeProvider.None?
    case Renewal => row.revokedAt.None? && row.acmeProvider.None? && !row.isImported
    case AcmeRenewal => row.revokedAt.None? && row.acmeProvider.Some?
  }

  /** Which path a row belongs to. */
  datatype Class = ImportedRow | InternalRow | AcmeRow

  function ClassOf(row: Row): Class {
    if row.acmeProvider.Some? then AcmeRow else if row.isImported then ImportedRow else InternalRow
  }

  /** The row's version as it is filed in the history. */
  function Displace(row: Row, now: int, actor: Option<int>): Superseded {
    Superseded(row.content, if row.fingerprint.Some? then row.fingerprint.value else "", now, actor)
  }

  /** The row's new current version. An input without a CA keeps the row's CA. */
  function NewContent(row: Row, input: ReplaceInput): Content {
    Content(input.blob, input.password, input.createdOn, input.validUntil, input.serialHex,
            if input.caId > 0 then Some(input.caId) else row.content.caId)
  }

  function Renewed(row: Row, input: ReplaceInput): Row {
    row.(content := NewContent(row, input),
         version := row.version + 1,
         fingerprint := Some(input.fingerprint),
         renewMethod := if input.renewMethod.Some? then input.renewMethod.value else row.renewMethod)
  }

  /** `replace_certificate`: all of it or nothing. */
  function Replace(db: Db, id: int, actor: Option<int>, now: int, input: ReplaceInput, guard: Guard)
    : (Db, ReplaceOutcome)
  {
    if id !in db.rows then (db, NoSuchCertificate)
    else
      var row := db.rows[id];
      if Key(id, row.version) in db.history then (db, VersionTaken)
      else if !Admits(guard, row) then (db, NotReplaceable)
      else
        (Db(db.rows[id := Renewed(row, input)], db.history[Key(id, row.version) := Displace(row, now, actor)]),
         Replaced(row.version + 1))
  }

  function InsertRow(db: Db, id: int, row: Row): Db {
    if id in db.rows then db else db.(rows := db.rows[id := row])
  }

  /** Deleting a row cascades into its history. */
  function DeleteRow(db: Db, id: int): Db {
    Db(db.rows - {id}, map k | k in db.history && k.id != id :: db.history[k])
  }

  function DeleteVersion(db: Db, id: int, version: int): Db {
    db.(history := db.history - {Key(id, version)})
  }

  function RevokeRow(db: Db, id: int, now: int): Db {
    if id in db.rows then db.(rows := db.rows[id := db.rows[id].(revokedAt := Some(now))]) else db
  }

  function SetSerial(db: Db, id: int, serialHex: string): Db {
    if id in db.rows then
      var row := db.rows[id];
      db.(rows := db.rows[id := row.(content := row.content.(serialHex := Some(serialHex)))])
    else db
  }

  function SetRenewMethod(db: Db, id: int, renewMethod: RenewMethod): Db {
    if id in db.rows then db.(rows := db.rows[id := db.rows[id].(renewMethod := renewMethod)]) else db
  }

  datatype Stored = Stored(bytes: seq<Byte>, password: string)

  function StoredOf(c: Content): Stored {
    Stored(c.blob.bytes, c.password)
  }

  /** `get_certificate_version`. */
  function GetVersion(db: Db, id: int, version: int): Option<Stored> {
    if id !in db.rows then None
    else if db.rows[id].version == version then Some(StoredOf(db.rows[id].content))
    else if Key(id, version) in db.history then Some(StoredOf(db.history[Key(id, version)].content))
    else None
  }

  // ---- The abstract view: one table of versions ----

  ghost predicate IsCurrent(db: Db, k: Key) {
    k.id in db.rows && db.rows[k.id].version == k.version
  }

  ghost function CurrentKeys(db: Db): (keys: set<Key>)
    ensures forall k :: k in keys <==> IsCurrent(db, k)
  {
    var keys := set id | id in db.rows :: Key(id, db.rows[id].version);
    assert forall k :: IsCurrent(db, k) ==> k == Key(k.id, db.rows[k.id].version);
    keys
  }

  /** Every surviving version, current or displaced. */
  ghost function Versions(db: Db): (all: map<Key, Content>)
    ensures all.Keys == db.history.Keys + CurrentKeys(db)
    ensures forall k :: IsCurrent(db, k) ==> all[k] == db.rows[k.id].content
    ensures forall k :: k in db.history && !IsCurrent(db, k) ==> all[k] == db.history[k].content
  {
    map k | k in db.history.Keys + CurrentKeys(db) ::
      if IsCurrent(db, k) then db.rows[k.id].content else db.history[k].content
  }

  /** History belongs to live rows and lies strictly below the current version. */
  ghost predicate HistoryBelow(db: Db) {
    && (forall k :: k in db.history ==> k.id in db.rows && 1 <= k.version < db.rows[k.id].version)
    && (forall id :: id in db.rows ==> 1 <= db.rows[id].version)
  }

  // ---- Single database steps ----

  datatype DbStep =
    | StepReplace(id: int, actor: Option<int>, now: int, input: ReplaceInput, guard: Guard)
    | StepInsert(id: int, row: Row)
    | StepDeleteRow(id: int)
    | StepDeleteVersion(id: int, version: int)
    | StepRevoke(id: int, now: int)
    | StepSetSerial(id: int, serialHex: string)
    | StepSetRenewMethod(id: int, renewMethod: RenewMethod)

  function Apply(db: Db, step: DbStep): Db {
    match step
    case StepReplace(id, actor, now, input, guard) => Replace(db, id, actor, now, input, guard).0
    case StepInsert(id, row) => InsertRow(db, id, row)
    case StepDeleteRow(id) => DeleteRow(db, id)
    case StepDeleteVersion(id, version) => DeleteVersion(db, id, version)
    case StepRevoke(id, now) => RevokeRow(db, id, now)
    case StepSetSerial(id, serialHex) => SetSerial(db, id, serialHex)
    case StepSetRenewMethod(id, m) => SetRenewMethod(db, id, m)
  }

  function RunSteps(db: Db, steps: seq<DbStep>): Db
    decreases |steps|
  {
    if steps == [] then db else RunSteps(Apply(db, steps[0]), steps[1..])
  }

  /** Inserted rows start at version 1, unrevoked, as the column defaults say. */
  predicate Fresh(row: Row) {
    row.version == 1 && row.revokedAt.None?
  }

  ghost predicate WellFormedStep(step: DbStep) {
    step.StepInsert? ==> Fresh(step.row)
  }

  /** The step leaves version `k` of its row where it is. */
  predicate Spares(step: DbStep, k: Key) {
    && step != StepDeleteRow(k.id)
    && step != StepDeleteVersion(k.id, k.version)
  }

  /** The step leaves the row in the table. */
  predicate KeepsRow(step: DbStep, id: int) {
    step != StepDeleteRow(id)
  }

  lemma ApplyKeepsHistoryBelow(db: Db, step: DbStep)
    requires HistoryBelow(db) && WellFormedStep(step)
    ensures HistoryBelow(Apply(db, step))
  {
  }

  lemma {:induction false} RunStepsKeepsHistoryBelow(db: Db, steps: seq<DbStep>)
    requires HistoryBelow(db) && forall s :: s in steps ==> WellFormedStep(s)
    ensures HistoryBelow(RunSteps(db, steps))
    decreases |steps|
  {
    if steps != [] {
      ApplyKeepsHistoryBelow(db, steps[0]);
      RunStepsKeepsHistoryBelow(Apply(db, steps[0]), steps[1..]);
    }
  }

  /** A replacement goes through exactly when the row exists and the guard admits it; the
      unique-key conflict on the history insert never arises; a refusal changes nothing. */
  lemma ReplaceIsAllOrNothing(db: Db, id: int, actor: Option<int>, now: int, input: ReplaceInput, guard: Guard)
    requires HistoryBelow(db)
    ensures var (after, outcome) := Replace(db, id, actor, now, input, guard);
            && outcome != VersionTaken
            && (outcome.Replaced? <==> id in db.rows && Admits(guard, db.rows[id]))
            && (!outcome.Replaced? ==> after == db)
  {
    if id in db.rows {
      assert Key(id, db.rows[id].version) !in db.history;
    }
  }

  lemma FileUnder(db: Db, after: Db, id: int, row: Row, filed: Superseded)
    requires HistoryBelow(db) && id in db.rows
    requires row.version == db.rows[id].version + 1 && filed.content == db.rows[id].content
    requires after == Db(db.rows[id := row], db.history[Key(id, db.rows[id].version) := filed])
    ensures Key(id, row.version) !in Versions(db)
    ensures Versions(after) == Versions(db)[Key(id, row.version) := row.content]
  {
    var was, k := Key(id, db.rows[id].version), Key(id, row.version);
    assert k !in db.history && !IsCurrent(db, k);
    assert IsCurrent(after, k) && IsCurrent(db, was);
    var expected := Versions(db)[k := row.content];
    forall j
      ensures j in Versions(after) <==> j in expected
      ensures j in expected ==> Versions(after)[j] == expected[j]
    {
      assert j != k && j != was ==> (IsCurrent(after, j) <==> IsCurrent(db, j));
      assert j != was ==> (j in after.history <==> j in db.history);
    }
  }

  /** A replacement adds exactly one version to the table of versions and forgets none. */
  lemma ReplaceAddsOneVersion(db: Db, id: int, actor: Option<int>, now: int, input: ReplaceInput, guard: Guard)
    requires HistoryBelow(db) && Replace(db, id, actor, now, input, guard).1.Replaced?
    ensures var (after, outcome) := Replace(db, id, actor, now, input, guard);
            && outcome.version == db.rows[id].version + 1
            && Key(id, outcome.version) !in Versions(db)
            && Versions(after) == Versions(db)[Key(id, outcome.version) := NewContent(db.rows[id], input)]
  {
    var row := db.rows[id];
    FileUnder(db, Replace(db, id, actor, now, input, guard).0, id, Renewed(row, input), Displace(row, now, actor));
  }

  /** Reading by number is reading the table of versions. */
  lemma GetVersionReadsVersions(db: Db, id: int, version: int)
    requires HistoryBelow(db)
    ensures var k := Key(id, version);
            GetVersion(db, id, version) ==
            if k in Versions(db) then Some(Stored(Versions(db)[k].blob.bytes, Versions(db)[k].password)) else None
  {
    if Key(id, version) in db.history {
      assert id in db.rows;
    }
  }

  lemma StepKeepsVersion(db: Db, step: DbStep, id: int, version: int)
    requires HistoryBelow(db) && Spares(step, Key(id, version))
    requires id in db.rows && version <= db.rows[id].version
    ensures id in Apply(db, step).rows && version <= Apply(db, step).rows[id].version
    ensures GetVersion(Apply(db, step), id, version) == GetVersion(db, id, version)
  {
  }

  /** A version number denotes the same bytes and password for ever: through any run that
      deletes neither the row nor this version, reading an existing number keeps giving
      the same answer, and a number at or below the current one that has been deleted
      stays absent. */
  lemma {:induction false} VersionNumberIsForever(db: Db, steps: seq<DbStep>, id: int, version: int)
    requires HistoryBelow(db) && forall s :: s in steps ==> WellFormedStep(s) && Spares(s, Key(id, version))
    requires id in db.rows && version <= db.rows[id].version
    ensures GetVersion(RunSteps(db, steps), id, version) == GetVersion(db, id, version)
    decreases |steps|
  {
    if steps != [] {
      ApplyKeepsHistoryBelow(db, steps[0]);
      StepKeepsVersion(db, steps[0], id, version);
      VersionNumberIsForever(Apply(db, steps[0]), steps[1..], id, version);
    }
  }

  /** Deleting history never brings a number back: whatever is read later at a number that
      already existed is what it denoted, or nothing. */
  lemma {:induction false} VersionNumberNeverReused(db: Db, steps: seq<DbStep>, id: int, version: int)
    requires HistoryBelow(db)
    requires forall s :: s in steps ==> WellFormedStep(s) && KeepsRow(s, id)
    requires id in db.rows && version <= db.rows[id].version
    ensures var later := GetVersion(RunSteps(db, steps), id, version);
            later == GetVersion(db, id, version) || later == None
    decreases |steps|
  {
    if steps != [] {
      var db' := Apply(db, steps[0]);
      ApplyKeepsHistoryBelow(db, steps[0]);
      if steps[0] == StepDeleteVersion(id, version) {
        assert GetVersion(db', id, version) == GetVersion(db, id, version) || GetVersion(db', id, version) == None;
      } else {
        StepKeepsVersion(db, steps[0], id, version);
      }
      VersionNumberNeverReused(db', steps[1..], id, version);
    }
  }

  /** What a replacement leaves alone: every other row and filed version, and of its own row
      the owner, the type, the path it belongs to, the revocation mark and, unless the input
      names another, the renewal method. The displaced version keeps its fingerprint and gets
      the time and the actor of the replacement. */
  lemma ReplaceLeavesTheRest(db: Db, id: int, actor: Option<int>, now: int, input: ReplaceInput, guard: Guard)
    requires HistoryBelow(db) && Replace(db, id, actor, now, input, guard).1.Replaced?
    ensures var after := Replace(db, id, actor, now, input, guard).0;
            var filed := Key(id, db.rows[id].version);
            && after.rows.Keys == db.rows.Keys
            && (forall j :: j in db.rows && j != id ==> after.rows[j] == db.rows[j])
            && after.history.Keys == db.history.Keys + {filed} && filed !in db.history
            && (forall k :: k in db.history ==> after.history[k] == db.history[k])
            && after.rows[id].userId == db.rows[id].userId && after.rows[id].certType == db.rows[id].certType
            && ClassOf(after.rows[id]) == ClassOf(db.rows[id]) && after.rows[id].revokedAt == db.rows[id].revokedAt
            && (input.renewMethod == None ==> after.rows[id].renewMethod == db.rows[id].renewMethod)
            && (input.renewMethod.Some? ==> after.rows[id].renewMethod == input.renewMethod.value)
            && after.rows[id].isImported == db.rows[id].isImported
            && after.rows[id].acmeProvider == db.rows[id].acmeProvider
            && after.rows[id].version == db.rows[id].version + 1
            && after.history[filed].content == db.rows[id].content
            && (db.rows[id].fingerprint.Some? ==> after.history[filed].fingerprint == db.rows[id].fingerprint.value)
            && (db.rows[id].fingerprint.None? ==> after.history[filed].fingerprint == "")
            && after.history[filed].replacedAt == now && after.history[filed].replacedBy == actor
  {
  }

  /** What a replacement puts in place, field by field: all of the input, under the input's CA
      when it names one and under the row's old CA when it does not. */
  lemma ReplaceInstallsTheInput(db: Db, id: int, actor: Option<int>, now: int, input: ReplaceInput, guard: Guard)
    requires Replace(db, id, actor, now, input, guard).1.Replaced?
    ensures var row := Replace(db, id, actor, now, input, guard).0.rows[id];
            && row.content.blob == input.blob && row.content.password == input.password
            && row.content.createdOn == input.createdOn && row.content.validUntil == input.validUntil
            && row.content.serialHex == input.serialHex && row.fingerprint == Some(input.fingerprint)
            && (input.caId > 0 ==> row.content.caId == Some(input.caId))
            && (input.caId <= 0 ==> row.content.caId == db.rows[id].content.caId)
  {
  }

  lemma StepKeepsFiled(db: Db, step: DbStep, k: Key)
    requires HistoryBelow(db) && KeepsRow(step, k.id) && k.id in db.rows && k.version < db.rows[k.id].version
    ensures k.id in Apply(db, step).rows && k.version < Apply(db, step).rows[k.id].version
    ensures k in Apply(db, step).history ==> k in db.history && Apply(db, step).history[k] == db.history[k]
  {
  }

  /** History is append-only for as long as its row lives: below the current version nothing is
      added or altered, so a filed version and the account of who replaced it and when either
      stay as they were filed or are gone for good. */
  lemma {:induction false} HistoryIsAppendOnly(db: Db, steps: seq<DbStep>, k: Key)
    requires HistoryBelow(db) && k.id in db.rows && k.version < db.rows[k.id].version
    requires forall s :: s in steps ==> WellFormedStep(s) && KeepsRow(s, k.id)
    ensures var after := RunSteps(db, steps);
            k in after.history ==> k in db.history && after.history[k] == db.history[k]
    decreases |steps|
  {
    if steps != [] {
      ApplyKeepsHistoryBelow(db, steps[0]);
      assert KeepsRow(steps[0], k.id);
      StepKeepsFiled(db, steps[0], k);
      HistoryIsAppendOnly(Apply(db, steps[0]), steps[1..], k);
    }
  }

  /** Revocation is terminal at the grain of single database steps: until the whole row is
      deleted, no sequence of them gives a revoked row another version, other bytes,
      another CA or another expiry, or makes it unrevoked. */
  lemma {:induction false} RevokedRowIsFrozen(db: Db, steps: seq<DbStep>, id: int)
    requires id in db.rows && db.rows[id].revokedAt.Some?
    requires forall s :: s in steps ==> KeepsRow(s, id)
    ensures var after := RunSteps(db, steps);
            && id in after.rows
            && after.rows[id].revokedAt.Some?
            && after.rows[id].version == db.rows[id].version
            && after.rows[id].content.(serialHex := None) == db.rows[id].content.(serialHex := None)
            && ClassOf(after.rows[id]) == ClassOf(db.rows[id])
    decreases |steps|
  {
    if steps != [] {
      assert steps[0] in steps;
      RevokedRowIsFrozen(Apply(db, steps[0]), steps[1..], id);
    }
  }

  /** The three guards partition the unrevoked rows by class, and a replacement leaves the
      row in its class. */
  lemma GuardsPartitionRows(row: Row, guard: Guard, input: ReplaceInput)
    ensures Admits(guard, row) <==>
            row.revokedAt.None? &&
            ClassOf(row) == match guard
                            case ImportedManual => ImportedRow
                            case Renewal => InternalRow
                            case AcmeRenewal => AcmeRow
    ensures ClassOf(Renewed(row, input)) == ClassOf(row)
  {
  }
}
