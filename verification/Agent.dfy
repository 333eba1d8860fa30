/** The deployment agent's reconcile pass for one configured certificate id, run against the
    certificate store while other requests change the store between the pass's steps. */
module Agent {
  import opened Prelude
  import opened CertStore
  import opened Revocation
  import opened CertHandlers
  import opened CertRuns

  type Serial = seq<Byte>

  /** What lies in the destination: everything from one bundle, or not. */
  datatype Files = Absent | Intact(serial: Serial) | Mixed

  /** The recorded deployment; no serial in a destination never deployed to. */
  datatype Saved = Saved(certId: int, serial: Option<Serial>, validUntil: int)

  const NOTHING_SAVED: Saved := Saved(0, None, 0)

  datatype Installed = Installed(validUntil: int, serial: Option<Serial>)

  /** The tables, with a record of every version the watched row ever had. */
  datatype Store = Store(db: Db, log: map<int, Installed>)

  /** `running` is what the service that reads the destination last loaded. */
  datatype World = World(store: Store, files: Files, saved: Saved, running: Option<Serial>)

  /** A store, with a destination never deployed to. */
  function Start(db: Db): World {
    World(Store(db, map[]), Absent, NOTHING_SAVED, None)
  }

  function InstalledAs(row: Row): Installed {
    Installed(row.content.validUntil, row.content.blob.serial)
  }

  /** The current version of the watched row enters the record. */
  function Logged(s: Store, db: Db, id: int): Store {
    Store(db, if id in db.rows && db.rows[id].version !in s.log
              then s.log[db.rows[id].version := InstalledAs(db.rows[id])] else s.log)
  }

  function ServeOne(s: Store, id: int, req: Request): Store {
    Logged(s, Handle(s.db, req), id)
  }

  function ServeAll(s: Store, id: int, reqs: seq<Request>): Store
    decreases |reqs|
  {
    if reqs == [] then s else ServeAll(ServeOne(s, id, reqs[0]), id, reqs[1..])
  }

  /** Requests the store serves before each step of a pass. */
  datatype Meanwhile = Meanwhile(
    list: seq<Request>, load: seq<Request>, password: seq<Request>, download: seq<Request>, rest: seq<Request>)

  /** The step at which a pass fails or the process dies, if any. A failed deployment may
      leave the destination half written. */
  datatype Fault = NoFault | AtTarget | AtList | AtLoad | AtPassword | AtDownload | AtDecode
                 | AtApply(damage: bool) | AtSave | AtReload

  datatype Outcome = Failed | NotFound | Skipped | Deployed

  predicate TakesSkip(prev: Saved, id: int, listed: int) {
    prev.certId == id && prev.validUntil == listed && prev.serial.Some?
  }

  /** Selected when it is there and not revoked. */
  predicate Selects(db: Db, id: int) {
    id in db.rows && db.rows[id].revokedAt.None?
  }

  /** Putting a decoded bundle in place, recording it with the expiry that was listed and
      reloading the service. A bundle whose serial is already recorded is neither written nor
      loaded again. */
  function Deploy(w: World, id: int, listed: int, serial: Serial, fault: Fault): (World, Outcome) {
    var changed := w.saved.serial != Some(serial);
    if changed && fault.AtApply? then (w.(files := if fault.damage then Mixed else w.files), Failed)
    else
      var w' := if changed then w.(files := Intact(serial)) else w;
      if fault == AtSave then (w', Failed)
      else
        var w'' := w'.(saved := Saved(id, Some(serial), listed));
        if !changed then (w'', Deployed)
        else if fault == AtReload then (w'', Failed)
        else (w''.(running := Some(serial)), Deployed)
  }

  /** The bytes are the ones current when the download is served. */
  function Download(w: World, id: int, listed: int, m: Meanwhile, fault: Fault): (World, Outcome) {
    var w4 := w.(store := ServeAll(w.store, id, m.download));
    if fault == AtDownload || id !in w4.store.db.rows then (w4, Failed)
    else Unpack(w4, id, listed, m.rest, fault)
  }

  /** The bytes are decoded and deployed while the store goes on. */
  function Unpack(w: World, id: int, listed: int, reqs: seq<Request>, fault: Fault): (World, Outcome)
    requires id in w.store.db.rows
  {
    var blob := w.store.db.rows[id].content.blob;
    var w5 := w.(store := ServeAll(w.store, id, reqs));
    if fault == AtDecode || blob.serial.None? then (w5, Failed)
    else Deploy(w5, id, listed, blob.serial.value, fault)
  }

  /** From the password on. */
  function Fetch(w: World, id: int, listed: int, m: Meanwhile, fault: Fault): (World, Outcome) {
    var w3 := w.(store := ServeAll(w.store, id, m.password));
    if fault == AtPassword || id !in w3.store.db.rows then (w3, Failed) else Download(w3, id, listed, m, fault)
  }

  /** Comparing the recorded deployment with the listed expiry. */
  function Compare(w: World, id: int, listed: int, m: Meanwhile, fault: Fault): (World, Outcome) {
    var w2 := w.(store := ServeAll(w.store, id, m.load));
    if fault == AtLoad then (w2, Failed)
    else if TakesSkip(w2.saved, id, listed) then (w2, if fault == AtSave then Failed else Skipped)
    else Fetch(w2, id, listed, m, fault)
  }

  /** One pass over a domain pinned to certificate `id`. */
  function Pass(w: World, id: int, m: Meanwhile, fault: Fault): (World, Outcome) {
    if fault == AtTarget then (w, Failed)
    else
      var w1 := w.(store := ServeAll(w.store, id, m.list));
      if fault == AtList then (w1, Failed)
      else if !Selects(w1.store.db, id) then (w1, NotFound)
      else
        Compare(w1, id, w1.store.db.rows[id].content.validUntil, m, fault)
  }

  // ---- Assumptions about the store's requests ----

  /** The request does not force a downgrade, uses a serial the row never had, and does not
      reuse the row id of a certificate that was deleted. */
  ghost predicate Ordinary(s: Store, id: int, req: Request) {
    && Plausible(req) && Unforced(req)
    && ((NewBlob(req).Some? && req.id == id)
        ==> forall v :: v in s.log ==> s.log[v].serial != NewBlob(req).value.serial)
    && ((req.id == id && (req.Create? || req.CreateFromAcme?) && id !in s.db.rows) ==> s.log == map[])
  }

  ghost predicate AllOrdinary(s: Store, id: int, reqs: seq<Request>)
    decreases |reqs|
  {
    reqs == [] || (Ordinary(s, id, reqs[0]) && AllOrdinary(ServeOne(s, id, reqs[0]), id, reqs[1..]))
  }

  /** Every request served during the pass is ordinary when it is served. */
  ghost predicate OrdinaryPass(s: Store, id: int, m: Meanwhile) {
    AllOrdinary(s, id, m.list) && OrdinaryAfterList(ServeAll(s, id, m.list), id, m)
  }

  ghost predicate OrdinaryAfterList(s: Store, id: int, m: Meanwhile) {
    AllOrdinary(s, id, m.load) && OrdinaryAfterLoad(ServeAll(s, id, m.load), id, m)
  }

  ghost predicate OrdinaryAfterLoad(s: Store, id: int, m: Meanwhile) {
    var s3 := ServeAll(s, id, m.password);
    var s4 := ServeAll(s3, id, m.download);
    AllOrdinary(s, id, m.password) && AllOrdinary(s3, id, m.download) && AllOrdinary(s4, id, m.rest)
  }

  // ---- Invariant ----

  /** The tables are in order; in the record, later versions end later and no two share a
      serial; a live row's current version is the latest one recorded. */
  ghost predicate StoreSound(s: Store, id: int) {
    && Inv(s.db) && ExpiryIncreases(s.db)
    && (forall u, v :: u in s.log && v in s.log && u < v
          ==> s.log[u].validUntil < s.log[v].validUntil && s.log[u].serial != s.log[v].serial)
    && (id in s.db.rows ==>
          && s.db.rows[id].version in s.log
          && s.log[s.db.rows[id].version] == InstalledAs(s.db.rows[id])
          && forall v :: v in s.log ==> v <= s.db.rows[id].version)
  }

  /** The saved state pairs the expiry of version `n` with the serial of version `k`, the
      same one or a later one; the destination holds that serial intact, or some version is
      newer than `k`. */
  ghost predicate Refers(w: World, n: int, k: int) {
    && n in w.store.log && k in w.store.log && n <= k
    && w.saved.serial.Some?
    && w.saved.validUntil == w.store.log[n].validUntil
    && w.saved.serial == w.store.log[k].serial
    && (w.files == Intact(w.saved.serial.value) || exists p :: p in w.store.log && p > k)
  }

  ghost predicate Sound(w: World, id: int) {
    && StoreSound(w.store, id)
    && (w.saved.serial.Some? ==> w.saved.certId == id && exists n, k :: Refers(w, n, k))
  }

  ghost predicate Extends(s: Store, after: Store) {
    forall v :: v in s.log ==> v in after.log && after.log[v] == s.log[v]
  }

  lemma UnchangedRowKeepsSound(s: Store, db: Db, id: int)
    requires StoreSound(s, id) && Inv(db) && ExpiryIncreases(db)
    requires id in db.rows ==>
               && id in s.db.rows && db.rows[id].version == s.db.rows[id].version
               && InstalledAs(db.rows[id]) == InstalledAs(s.db.rows[id])
    ensures StoreSound(Logged(s, db, id), id) && Extends(s, Logged(s, db, id))
  {
  }

  /** A version above every recorded one, with a later end and a serial of its own. */
  lemma NewVersionKeepsSound(s: Store, db: Db, id: int)
    requires StoreSound(s, id) && Inv(db) && ExpiryIncreases(db) && id in db.rows
    requires forall v :: v in s.log ==>
               v < db.rows[id].version && s.log[v].validUntil < db.rows[id].content.validUntil
               && s.log[v].serial != db.rows[id].content.blob.serial
    ensures StoreSound(Logged(s, db, id), id) && Extends(s, Logged(s, db, id))
  {
  }

  lemma ServeOneKeepsSound(s: Store, id: int, req: Request)
    requires StoreSound(s, id) && Ordinary(s, id, req)
    ensures StoreSound(ServeOne(s, id, req), id) && Extends(s, ServeOne(s, id, req))
  {
    var db := Handle(s.db, req);
    HandleKeepsInv(s.db, req);
    if id in s.db.rows && KeepsCertificate(req, id) {
      StepOnExpiry(s.db, req, id);
      if db.rows[id].version == s.db.rows[id].version {
        UnchangedRowKeepsSound(s, db, id);
      } else {
        RecordedEndsAreEarlier(s, id);
        NewVersionKeepsSound(s, db, id);
      }
    } else {
      NewRowOnlyByCreation(s.db, req, id);
      if id in db.rows {
        NewVersionKeepsSound(s, db, id);
      } else {
        UnchangedRowKeepsSound(s, db, id);
      }
    }
  }

  lemma RecordedEndsAreEarlier(s: Store, id: int)
    requires StoreSound(s, id) && id in s.db.rows
    ensures forall v :: v in s.log ==>
              v <= s.db.rows[id].version && s.log[v].validUntil <= s.db.rows[id].content.validUntil
  {
    var current := s.db.rows[id].version;
    assert forall v :: v in s.log && v < current ==> s.log[v].validUntil < s.log[current].validUntil;
  }

  lemma NewRowOnlyByCreation(db: Db, req: Request, id: int)
    ensures id !in db.rows && id in Handle(db, req).rows ==> req.id == id && (req.Create? || req.CreateFromAcme?)
    ensures !KeepsCertificate(req, id) ==> id !in Handle(db, req).rows
  {
    HandleUnfolds(db, req);
  }

  lemma {:induction false} ServeAllKeepsSound(s: Store, id: int, reqs: seq<Request>)
    requires StoreSound(s, id) && AllOrdinary(s, id, reqs)
    ensures StoreSound(ServeAll(s, id, reqs), id) && Extends(s, ServeAll(s, id, reqs))
    decreases |reqs|
  {
    if reqs != [] {
      ServeOneKeepsSound(s, id, reqs[0]);
      ServeAllKeepsSound(ServeOne(s, id, reqs[0]), id, reqs[1..]);
    }
  }

  lemma ServingKeepsReference(w: World, after: Store, n: int, k: int)
    requires Refers(w, n, k) && Extends(w.store, after)
    ensures Refers(w.(store := after), n, k)
  {
  }

  lemma ServingKeepsWorldSound(w: World, id: int, reqs: seq<Request>)
    requires Sound(w, id) && AllOrdinary(w.store, id, reqs)
    ensures Sound(w.(store := ServeAll(w.store, id, reqs)), id) && Extends(w.store, ServeAll(w.store, id, reqs))
  {
    ServeAllKeepsSound(w.store, id, reqs);
    if w.saved.serial.Some? {
      var n, k :| Refers(w, n, k);
      ServingKeepsReference(w, ServeAll(w.store, id, reqs), n, k);
    }
  }

  /** Deploying version `v` after having listed the expiry of version `n`. */
  lemma DeployKeepsSound(w: World, id: int, n: int, v: int, listed: int, serial: Serial, fault: Fault)
    requires StoreSound(w.store, id)
    requires w.saved.serial.Some? ==> w.saved.certId == id && exists a, k :: Refers(w, a, k) && k <= v
    requires n in w.store.log && v in w.store.log && n <= v
    requires listed == w.store.log[n].validUntil && w.store.log[v].serial == Some(serial)
    ensures Sound(Deploy(w, id, listed, serial, fault).0, id)
  {
    var after := Deploy(w, id, listed, serial, fault).0;
    var changed := w.saved.serial != Some(serial);
    if after.saved == w.saved && w.saved.serial.Some? {
      var a, k :| Refers(w, a, k) && k <= v;
      assert Refers(after, a, k);
    } else if after.saved != w.saved || w.saved.serial.Some? {
      if !changed {
        var a, k :| Refers(w, a, k) && k <= v;
        assert k == v;
      }
      assert Refers(after, n, v);
    }
  }

  /** Deploying the bytes current at `w`, the store having moved on to `later` meanwhile. */
  lemma DownloadKeepsSound(w: World, later: Store, id: int, n: int, listed: int, fault: Fault)
    requires Sound(w, id) && id in w.store.db.rows && w.store.db.rows[id].content.blob.serial.Some?
    requires n in w.store.log && listed == w.store.log[n].validUntil
    requires StoreSound(later, id) && Extends(w.store, later)
    ensures Sound(Deploy(w.(store := later), id, listed, w.store.db.rows[id].content.blob.serial.value, fault).0, id)
  {
    var v := w.store.db.rows[id].version;
    var w' := w.(store := later);
    if w.saved.serial.Some? {
      var a, k :| Refers(w, a, k);
      ServingKeepsReference(w, later, a, k);
      assert Refers(w', a, k) && k <= v;
    }
    DeployKeepsSound(w', id, n, v, listed, w.store.db.rows[id].content.blob.serial.value, fault);
  }

  lemma FetchKeepsSound(w: World, id: int, n: int, listed: int, m: Meanwhile, fault: Fault)
    requires Sound(w, id) && n in w.store.log && listed == w.store.log[n].validUntil
    requires OrdinaryAfterLoad(w.store, id, m)
    ensures Sound(Fetch(w, id, listed, m, fault).0, id)
  {
    var w3 := w.(store := ServeAll(w.store, id, m.password));
    ServingKeepsWorldSound(w, id, m.password);
    if fault == AtPassword || id !in w3.store.db.rows {
      return;
    }
    var w4 := w3.(store := ServeAll(w3.store, id, m.download));
    ServingKeepsWorldSound(w3, id, m.download);
    if fault == AtDownload || id !in w4.store.db.rows {
      return;
    }
    var w5 := w4.(store := ServeAll(w4.store, id, m.rest));
    ServingKeepsWorldSound(w4, id, m.rest);
    if fault == AtDecode || w4.store.db.rows[id].content.blob.serial.None? {
      return;
    }
    DownloadKeepsSound(w4, w5.store, id, n, listed, fault);
  }

  /** A pass keeps the invariant whatever is served in between and wherever it fails. */
  lemma PassKeepsSound(w: World, id: int, m: Meanwhile, fault: Fault)
    requires Sound(w, id) && OrdinaryPass(w.store, id, m)
    ensures Sound(Pass(w, id, m, fault).0, id)
  {
    if fault == AtTarget {
      return;
    }
    var w1 := w.(store := ServeAll(w.store, id, m.list));
    ServingKeepsWorldSound(w, id, m.list);
    if fault == AtList || !Selects(w1.store.db, id) {
      return;
    }
    var n := w1.store.db.rows[id].version;
    var listed := w1.store.db.rows[id].content.validUntil;
    assert n in w1.store.log && listed == w1.store.log[n].validUntil;
    CompareKeepsSound(w1, id, n, listed, m, fault);
  }

  lemma CompareKeepsSound(w: World, id: int, n: int, listed: int, m: Meanwhile, fault: Fault)
    requires Sound(w, id) && n in w.store.log && listed == w.store.log[n].validUntil
    requires OrdinaryAfterList(w.store, id, m)
    ensures Sound(Compare(w, id, listed, m, fault).0, id)
  {
    ServingKeepsWorldSound(w, id, m.load);
    FetchKeepsSound(w.(store := ServeAll(w.store, id, m.load)), id, n, listed, m, fault);
  }

  /** A record whose expiry is the current one's names the current serial, and it is in place. */
  lemma EqualEndsMeanCurrent(w: World, id: int)
    requires Sound(w, id) && id in w.store.db.rows && w.saved.serial.Some?
    requires w.saved.validUntil == w.store.db.rows[id].content.validUntil
    ensures w.saved.serial == w.store.db.rows[id].content.blob.serial && w.files == Intact(w.saved.serial.value)
  {
    var v := w.store.db.rows[id].version;
    var n, k :| Refers(w, n, k);
    assert w.store.log[v].validUntil == w.store.log[n].validUntil;
    assert n == v && k == v;
  }

  /** Taking the cheap skip means the destination is intact and holds exactly the serial of
      the version that was current when the store answered the list request. */
  lemma SkipMeansUpToDate(w: World, id: int, m: Meanwhile, fault: Fault)
    requires Sound(w, id) && OrdinaryPass(w.store, id, m)
    requires Pass(w, id, m, fault).1 == Skipped
    ensures var answered := ServeAll(w.store, id, m.list).db;
            && id in answered.rows && answered.rows[id].content.blob.serial.Some?
            && w.files == Intact(answered.rows[id].content.blob.serial.value)
            && w.saved.serial == answered.rows[id].content.blob.serial
            && Pass(w, id, m, fault).0.files == w.files
  {
    SkipIsTaken(w, id, m, fault);
    ServingKeepsWorldSound(w, id, m.list);
    EqualEndsMeanCurrent(w.(store := ServeAll(w.store, id, m.list)), id);
  }

  lemma FetchNeverSkips(w: World, id: int, listed: int, m: Meanwhile, fault: Fault)
    ensures Fetch(w, id, listed, m, fault).1 != Skipped
  {
  }

  lemma SkipIsTaken(w: World, id: int, m: Meanwhile, fault: Fault)
    requires Pass(w, id, m, fault).1 == Skipped
    ensures var answered := ServeAll(w.store, id, m.list).db;
            && id in answered.rows && TakesSkip(w.saved, id, answered.rows[id].content.validUntil)
            && Pass(w, id, m, fault).0.files == w.files
  {
    var w1 := w.(store := ServeAll(w.store, id, m.list));
    if Selects(w1.store.db, id) {
      var listed := w1.store.db.rows[id].content.validUntil;
      FetchNeverSkips(w1.(store := ServeAll(w1.store, id, m.load)), id, listed, m, fault);
    }
  }

  /** The pass itself as the agent runs it, one step after the other. */
  class Reconciler {
    var store: Store
    var files: Files
    var saved: Saved
    var running: Option<Serial>

    ghost function View(): World
      reads this
    {
      World(store, files, saved, running)
    }

    constructor (db: Db)
      requires forall id :: id !in db.rows
      ensures View() == Start(db)
    {
      store, files, saved, running := Store(db, map[]), Absent, NOTHING_SAVED, None;
    }

    method Interleave(id: int, reqs: seq<Request>)
      modifies this`store
      ensures store == ServeAll(old(store), id, reqs)
    {
      var rest := reqs;
      while rest != []
        invariant ServeAll(store, id, rest) == ServeAll(old(store), id, reqs)
        decreases |rest|
      {
        store := ServeOne(store, id, rest[0]);
        rest := rest[1..];
      }
    }

    method Domain(id: int, m: Meanwhile, fault: Fault) returns (outcome: Outcome)
      modifies this
      ensures (View(), outcome) == Pass(old(View()), id, m, fault)
    {
      if fault == AtTarget { return Failed; }

      Interleave(id, m.list);
      if fault == AtList { return Failed; }
      if !Selects(store.db, id) { return NotFound; }
      var listed := store.db.rows[id].content.validUntil;

      Interleave(id, m.load);
      if fault == AtLoad { return Failed; }
      var prev := saved;
      if TakesSkip(prev, id, listed) {
        if fault == AtSave { return Failed; }
        saved := prev;
        return Skipped;
      }

      Interleave(id, m.password);
      if fault == AtPassword || id !in store.db.rows { return Failed; }
      Interleave(id, m.download);
      if fault == AtDownload || id !in store.db.rows { return Failed; }
      var blob := store.db.rows[id].content.blob;
      Interleave(id, m.rest);
      if fault == AtDecode || blob.serial.None? { return Failed; }

      var changed := prev.serial != blob.serial;
      if changed {
        if fault.AtApply? {
          if fault.damage { files := Mixed; }
          return Failed;
        }
        files := Intact(blob.serial.value);
      }
      if fault == AtSave { return Failed; }
      saved := Saved(id, blob.serial, listed);
      if changed {
        if fault == AtReload { return Failed; }
        running := blob.serial;
      }
      return Deployed;
    }
  }

  // ---- Over any number of passes ----

  datatype Round = Round(m: Meanwhile, fault: Fault)

  function Passes(w: World, id: int, rounds: seq<Round>): World
    decreases |rounds|
  {
    if rounds == [] then w else Passes(Pass(w, id, rounds[0].m, rounds[0].fault).0, id, rounds[1..])
  }

  ghost predicate OrdinaryRounds(w: World, id: int, rounds: seq<Round>)
    decreases |rounds|
  {
    rounds == [] ||
    (OrdinaryPass(w.store, id, rounds[0].m)
     && OrdinaryRounds(Pass(w, id, rounds[0].m, rounds[0].fault).0, id, rounds[1..]))
  }

  lemma {:induction false} PassesKeepSound(w: World, id: int, rounds: seq<Round>)
    requires Sound(w, id) && OrdinaryRounds(w, id, rounds)
    ensures Sound(Passes(w, id, rounds), id)
    decreases |rounds|
  {
    if rounds != [] {
      PassKeepsSound(w, id, rounds[0].m, rounds[0].fault);
      PassesKeepSound(Pass(w, id, rounds[0].m, rounds[0].fault).0, id, rounds[1..]);
    }
  }

  /** From an empty store and an untouched destination, after any number of passes with any
      interleaving and any failures, a skip still means up to date. */
  lemma SkipIsAlwaysSound(id: int, rounds: seq<Round>, m: Meanwhile, fault: Fault)
    requires OrdinaryRounds(Start(EMPTY), id, rounds)
    requires OrdinaryPass(Passes(Start(EMPTY), id, rounds).store, id, m)
    requires Pass(Passes(Start(EMPTY), id, rounds), id, m, fault).1 == Skipped
    ensures var w := Passes(Start(EMPTY), id, rounds);
            var answered := ServeAll(w.store, id, m.list).db;
            && id in answered.rows && answered.rows[id].content.blob.serial.Some?
            && w.files == Intact(answered.rows[id].content.blob.serial.value)
            && w.saved.serial == answered.rows[id].content.blob.serial
  {
    var start := Start(EMPTY);
    EmptyIsFine();
    assert Sound(start, id);
    PassesKeepSound(start, id, rounds);
    SkipMeansUpToDate(Passes(start, id, rounds), id, m, fault);
  }

  const QUIET: Meanwhile := Meanwhile([], [], [], [], [])

  /** Whatever went wrong before, one undisturbed pass over a live unrevoked certificate
      brings the destination to its current serial, and the next one skips. */
  lemma UndisturbedPassConverges(w: World, id: int)
    requires Sound(w, id) && Selects(w.store.db, id)
    ensures var row := w.store.db.rows[id];
            var after := Pass(w, id, QUIET, NoFault).0;
            && row.content.blob.serial.Some?
            && after.files == Intact(row.content.blob.serial.value)
            && Pass(after, id, QUIET, NoFault) == (after, Skipped)
  {
    var row := w.store.db.rows[id];
    var after := Pass(w, id, QUIET, NoFault).0;
    assert SerialRecorded(row.content);
    if w.saved.serial.Some? {
      var n, k :| Refers(w, n, k);
      assert w.saved.serial == row.content.blob.serial ==> k == row.version;
      assert w.saved.validUntil == row.content.validUntil ==> n == row.version;
    }
    assert after.store == w.store;
  }

  // ---- What the service has loaded ----

  /** A pass that records another serial than before settles what is owed, one way or the other. */
  predicate OwedAfter(w: World, after: World, fault: Fault, owed: bool) {
    if after.saved.serial != w.saved.serial then fault == AtReload else owed
  }

  /** The last pass that recorded another serial failed at the reload. */
  predicate ReloadOwed(w: World, id: int, rounds: seq<Round>, owed: bool)
    decreases |rounds|
  {
    if rounds == [] then owed
    else
      var after := Pass(w, id, rounds[0].m, rounds[0].fault).0;
      ReloadOwed(after, id, rounds[1..], OwedAfter(w, after, rounds[0].fault, owed))
  }

  /** The service runs version `j`, the saved serial is that of version `k`. */
  ghost predicate RunsOn(w: World, j: int, k: int) {
    && j in w.store.log && k in w.store.log && j <= k && w.running.Some?
    && w.running == w.store.log[j].serial && w.saved.serial == w.store.log[k].serial
  }

  /** What the service runs was recorded once, and nothing later has not been. */
  ghost predicate RunsBehind(w: World) {
    && (w.saved.serial.None? ==> w.running.None?)
    && (w.running.Some? ==> exists j, k :: RunsOn(w, j, k))
  }

  /** Up to date with the record exactly when no reload is owed. */
  ghost predicate Owing(w: World, owed: bool) {
    RunsBehind(w) && (w.running == w.saved.serial <==> !owed)
  }

  lemma ServingKeepsOwing(w: World, id: int, reqs: seq<Request>, owed: bool)
    requires StoreSound(w.store, id) && AllOrdinary(w.store, id, reqs) && Owing(w, owed)
    ensures Owing(w.(store := ServeAll(w.store, id, reqs)), owed)
  {
    ServeAllKeepsSound(w.store, id, reqs);
    if w.running.Some? {
      var j, k :| RunsOn(w, j, k);
      assert RunsOn(w.(store := ServeAll(w.store, id, reqs)), j, k);
    }
  }

  /** Deploying version `v`, which is not older than the saved one. */
  lemma DeployKeepsOwing(w: World, id: int, v: int, listed: int, serial: Serial, fault: Fault, owed: bool)
    requires StoreSound(w.store, id) && Owing(w, owed)
    requires v in w.store.log && w.store.log[v].serial == Some(serial)
    requires w.saved.serial.Some? ==> exists a, k :: Refers(w, a, k) && k <= v
    ensures var after := Deploy(w, id, listed, serial, fault).0;
            Owing(after, OwedAfter(w, after, fault, owed))
  {
    var after := Deploy(w, id, listed, serial, fault).0;
    if after.saved.serial != w.saved.serial {
      if w.running.Some? {
        var a, m :| Refers(w, a, m) && m <= v;
        var j, k :| RunsOn(w, j, k);
        assert k == m && k < v;
        assert after.running == w.running ==> RunsOn(after, j, v);
      }
      assert fault != AtReload ==> RunsOn(after, v, v);
    } else if w.running.Some? {
      var j, k :| RunsOn(w, j, k);
      assert RunsOn(after, j, k);
    }
  }

  lemma BytesKeepOwing(w: World, later: Store, id: int, listed: int, fault: Fault, owed: bool)
    requires Sound(w, id) && id in w.store.db.rows && w.store.db.rows[id].content.blob.serial.Some?
    requires StoreSound(later, id) && Extends(w.store, later) && Owing(w.(store := later), owed)
    ensures var w' := w.(store := later);
            var after := Deploy(w', id, listed, w.store.db.rows[id].content.blob.serial.value, fault).0;
            Owing(after, OwedAfter(w', after, fault, owed))
  {
    var v := w.store.db.rows[id].version;
    var w' := w.(store := later);
    if w.saved.serial.Some? {
      var a, k :| Refers(w, a, k);
      ServingKeepsReference(w, later, a, k);
      assert Refers(w', a, k) && k <= v;
    }
    DeployKeepsOwing(w', id, v, listed, w.store.db.rows[id].content.blob.serial.value, fault, owed);
  }

  lemma FetchKeepsOwing(w: World, id: int, listed: int, m: Meanwhile, fault: Fault, owed: bool)
    requires Sound(w, id) && OrdinaryAfterLoad(w.store, id, m) && Owing(w, owed)
    ensures var after := Fetch(w, id, listed, m, fault).0;
            Owing(after, OwedAfter(w, after, fault, owed))
  {
    ServingKeepsWorldSound(w, id, m.password);
    ServingKeepsOwing(w, id, m.password, owed);
    DownloadingKeepsOwing(w.(store := ServeAll(w.store, id, m.password)), id, listed, m, fault, owed);
  }

  lemma DownloadingKeepsOwing(w: World, id: int, listed: int, m: Meanwhile, fault: Fault, owed: bool)
    requires Sound(w, id) && Owing(w, owed) && AllOrdinary(w.store, id, m.download)
    requires AllOrdinary(ServeAll(w.store, id, m.download), id, m.rest)
    ensures var after := Download(w, id, listed, m, fault).0;
            Owing(after, OwedAfter(w, after, fault, owed))
  {
    var w4 := w.(store := ServeAll(w.store, id, m.download));
    ServingKeepsWorldSound(w, id, m.download);
    ServingKeepsOwing(w, id, m.download, owed);
    if fault == AtDownload || id !in w4.store.db.rows {
      assert Download(w, id, listed, m, fault).0 == w4;
      return;
    }
    RestKeepsOwing(w4, id, listed, m.rest, fault, owed);
  }

  lemma RestKeepsOwing(w: World, id: int, listed: int, reqs: seq<Request>, fault: Fault, owed: bool)
    requires Sound(w, id) && Owing(w, owed) && AllOrdinary(w.store, id, reqs) && id in w.store.db.rows
    ensures var after := Unpack(w, id, listed, reqs, fault).0;
            Owing(after, OwedAfter(w, after, fault, owed))
  {
    ServingKeepsWorldSound(w, id, reqs);
    ServingKeepsOwing(w, id, reqs, owed);
    if w.store.db.rows[id].content.blob.serial.Some? {
      BytesKeepOwing(w, ServeAll(w.store, id, reqs), id, listed, fault, owed);
    }
  }

  lemma CompareKeepsOwing(w: World, id: int, listed: int, m: Meanwhile, fault: Fault, owed: bool)
    requires Sound(w, id) && OrdinaryAfterList(w.store, id, m) && Owing(w, owed)
    ensures var after := Compare(w, id, listed, m, fault).0;
            Owing(after, OwedAfter(w, after, fault, owed))
  {
    ServingKeepsWorldSound(w, id, m.load);
    ServingKeepsOwing(w, id, m.load, owed);
    FetchKeepsOwing(w.(store := ServeAll(w.store, id, m.load)), id, listed, m, fault, owed);
  }

  lemma PassKeepsOwing(w: World, id: int, m: Meanwhile, fault: Fault, owed: bool)
    requires Sound(w, id) && OrdinaryPass(w.store, id, m) && Owing(w, owed)
    ensures var after := Pass(w, id, m, fault).0;
            Owing(after, OwedAfter(w, after, fault, owed))
  {
    if fault == AtTarget {
      return;
    }
    var w1 := w.(store := ServeAll(w.store, id, m.list));
    ServingKeepsWorldSound(w, id, m.list);
    ServingKeepsOwing(w, id, m.list, owed);
    if fault == AtList || !Selects(w1.store.db, id) {
      return;
    }
    CompareKeepsOwing(w1, id, w1.store.db.rows[id].content.validUntil, m, fault, owed);
  }

  lemma {:induction false} PassesKeepOwing(w: World, id: int, rounds: seq<Round>, owed: bool)
    requires Sound(w, id) && OrdinaryRounds(w, id, rounds) && Owing(w, owed)
    ensures Owing(Passes(w, id, rounds), ReloadOwed(w, id, rounds, owed))
    decreases |rounds|
  {
    if rounds != [] {
      var after := Pass(w, id, rounds[0].m, rounds[0].fault).0;
      PassKeepsSound(w, id, rounds[0].m, rounds[0].fault);
      PassKeepsOwing(w, id, rounds[0].m, rounds[0].fault, owed);
      PassesKeepOwing(after, id, rounds[1..], OwedAfter(w, after, rounds[0].fault, owed));
    }
  }

  lemma StartIsSound(id: int)
    ensures Sound(Start(EMPTY), id) && Owing(Start(EMPTY), false)
  {
    EmptyIsFine();
  }

  /** After any passes, with any failures, the service runs what the record names exactly when
      the last pass that recorded another serial did not fail at the reload. */
  lemma RunsWhatIsRecordedIff(id: int, rounds: seq<Round>)
    requires OrdinaryRounds(Start(EMPTY), id, rounds)
    ensures var w := Passes(Start(EMPTY), id, rounds);
            w.running == w.saved.serial <==> !ReloadOwed(Start(EMPTY), id, rounds, false)
  {
    StartIsSound(id);
    PassesKeepOwing(Start(EMPTY), id, rounds, false);
  }

  /** So a skip means that the service has loaded the current certificate under exactly that
      condition. */
  lemma SkipMeansLoadedIff(id: int, rounds: seq<Round>, m: Meanwhile, fault: Fault)
    requires OrdinaryRounds(Start(EMPTY), id, rounds)
    requires OrdinaryPass(Passes(Start(EMPTY), id, rounds).store, id, m)
    requires Pass(Passes(Start(EMPTY), id, rounds), id, m, fault).1 == Skipped
    ensures var w := Passes(Start(EMPTY), id, rounds);
            var answered := ServeAll(w.store, id, m.list).db;
            id in answered.rows
            && (w.running == answered.rows[id].content.blob.serial
                <==> !ReloadOwed(Start(EMPTY), id, rounds, false))
  {
    SkipIsAlwaysSound(id, rounds, m, fault);
    RunsWhatIsRecordedIff(id, rounds);
  }

  /** A failed reload is not retried: the new files are in place and recorded, the service keeps
      what it had, which is something else, and the next pass skips. */
  lemma FailedReloadIsNotRetried(w: World, id: int)
    requires Sound(w, id) && RunsBehind(w) && Selects(w.store.db, id)
    requires w.saved.serial != w.store.db.rows[id].content.blob.serial
    ensures var serial := w.store.db.rows[id].content.blob.serial;
            var (after, outcome) := Pass(w, id, QUIET, AtReload);
            && outcome == Failed && serial.Some? && after.files == Intact(serial.value)
            && after.running == w.running && after.running != serial
            && Pass(after, id, QUIET, NoFault) == (after, Skipped)
  {
    var row := w.store.db.rows[id];
    assert SerialRecorded(row.content);
    if w.saved.serial.Some? {
      var n, k :| Refers(w, n, k);
      assert w.saved.validUntil == row.content.validUntil ==> n == row.version && k == row.version;
    }
    RunsSomethingElse(w, id);
  }

  lemma RunsSomethingElse(w: World, id: int)
    requires Sound(w, id) && RunsBehind(w) && id in w.store.db.rows && w.store.db.rows[id].content.blob.serial.Some?
    requires w.saved.serial != w.store.db.rows[id].content.blob.serial
    ensures w.running != w.store.db.rows[id].content.blob.serial
  {
    if w.running.Some? {
      var j, k :| RunsOn(w, j, k);
      assert k < w.store.db.rows[id].version;
    }
  }

  /** The same after any passes: wherever a new serial is due, failing at the reload leaves the
      service behind for as long as nothing new comes. */
  lemma ReachableFailedReload(id: int, rounds: seq<Round>)
    requires OrdinaryRounds(Start(EMPTY), id, rounds)
    requires var w := Passes(Start(EMPTY), id, rounds);
             Selects(w.store.db, id) && w.saved.serial != w.store.db.rows[id].content.blob.serial
    ensures var w := Passes(Start(EMPTY), id, rounds);
            var after := Pass(w, id, QUIET, AtReload).0;
            && after.running != w.store.db.rows[id].content.blob.serial
            && Pass(after, id, QUIET, NoFault) == (after, Skipped)
  {
    StartIsSound(id);
    PassesKeepSound(Start(EMPTY), id, rounds);
    PassesKeepOwing(Start(EMPTY), id, rounds, false);
    FailedReloadIsNotRetried(Passes(Start(EMPTY), id, rounds), id);
  }

  // ---- When a new certificate goes unnoticed ----

  /** The destination holds the row's current certificate and the record says so. */
  predicate Converged(w: World, id: int) {
    && Selects(w.store.db, id)
    && var c := w.store.db.rows[id].content;
    && c.blob.serial.Some? && w.files == Intact(c.blob.serial.value)
    && w.saved == Saved(id, c.blob.serial, c.validUntil)
  }

  /** The next pass, undisturbed, over a row that has come to hold another certificate. */
  lemma NextPassNoticesIff(w: World, later: Store, id: int)
    requires Converged(w, id) && Selects(later.db, id)
    requires later.db.rows[id].content.blob.serial.Some?
    requires later.db.rows[id].content.blob.serial != w.store.db.rows[id].content.blob.serial
    ensures var (after, outcome) := Pass(w.(store := later), id, QUIET, NoFault);
            var noticed := later.db.rows[id].content.validUntil != w.store.db.rows[id].content.validUntil;
            && (after.files == Intact(later.db.rows[id].content.blob.serial.value) <==> noticed)
            && (outcome == Skipped && after.files == w.files <==> !noticed)
  {
  }

  /** On whichever path and forced or not, a replacement with another serial is deployed by the
      next pass exactly when it changes the expiry. Only a forced one can leave it equal. */
  lemma ReplacementIsNoticedIff(w: World, id: int, req: Request)
    requires Converged(w, id) && HistoryBelow(w.store.db) && Plausible(req)
    requires req.id == id && GoesThrough(w.store.db, req)
    requires NewBlob(req).value.serial != w.store.db.rows[id].content.blob.serial
    ensures var later := ServeOne(w.store, id, req);
            var (after, outcome) := Pass(w.(store := later), id, QUIET, NoFault);
            var noticed := Plan(w.store.db, req)[0].input.validUntil != w.store.db.rows[id].content.validUntil;
            && id in later.db.rows && later.db.rows[id].content.blob == NewBlob(req).value
            && (after.files == Intact(NewBlob(req).value.serial.value) <==> noticed)
            && (outcome == Skipped && after.files == w.files <==> !noticed)
            && (Unforced(req) ==> noticed)
  {
    ReplacementsExtend(w.store.db, req);
    ReplacementPlan(w.store.db, req);
    HandleUnfolds(w.store.db, req);
    var s := Plan(w.store.db, req)[0];
    ReplaceIsAllOrNothing(w.store.db, s.id, s.actor, s.now, s.input, s.guard);
    NextPassNoticesIff(w, ServeOne(w.store, id, req), id);
  }

  /** A certificate deleted and another created under the same row id is deployed by the next
      pass exactly when the two end at different times: why ids must not be reused. */
  lemma RecreationIsNoticedIff(w: World, id: int, req: Request)
    requires Converged(w, id) && Plausible(req) && req.Create? && req.id == id
    requires req.blob.serial != w.store.db.rows[id].content.blob.serial
    ensures var later := ServeOne(ServeOne(w.store, id, DeleteCertificate(id)), id, req);
            var (after, outcome) := Pass(w.(store := later), id, QUIET, NoFault);
            var noticed := req.validUntil != w.store.db.rows[id].content.validUntil;
            && id in later.db.rows && later.db.rows[id].content.blob == req.blob
            && (after.files == Intact(req.blob.serial.value) <==> noticed)
            && (outcome == Skipped && after.files == w.files <==> !noticed)
  {
    HandleUnfolds(w.store.db, DeleteCertificate(id));
    HandleUnfolds(Handle(w.store.db, DeleteCertificate(id)), req);
    NextPassNoticesIff(w, ServeOne(ServeOne(w.store, id, DeleteCertificate(id)), id, req), id);
  }

  // ---- Two runs in which one does ----

  /** A pass before whose list request these requests are served, and nothing else. */
  function Before(reqs: seq<Request>): Meanwhile {
    Meanwhile(reqs, [], [], [], [])
  }

  lemma PassAfterServing(w: World, id: int, reqs: seq<Request>, fault: Fault)
    requires fault != AtTarget
    ensures Pass(w, id, Before(reqs), fault)
            == Pass(w.(store := ServeAll(w.store, id, reqs)), id, QUIET, fault)
  {
  }

  /** From nothing: the certificate is imported and deployed by the first pass. */
  function Deployed1(): World {
    Pass(Start(EMPTY), 1, Before([IMPORT]), NoFault).0
  }

  lemma FirstPassDeploys()
    ensures var w := Deployed1();
            && Converged(w, 1) && Inv(w.store.db) && w.files == Intact([1])
            && w.store.db == Handle(EMPTY, IMPORT)
            && w.store.db.rows[1].content.validUntil == 200 && w.store.db.rows[1].content.blob == OLD_BLOB
  {
    EmptyIsFine();
    HandleKeepsInv(EMPTY, IMPORT);
    ImportLands();
    ServingOne(Start(EMPTY).store, 1, IMPORT);
    PassAfterServing(Start(EMPTY), 1, [IMPORT], NoFault);
  }

  lemma ServingOne(s: Store, id: int, req: Request)
    ensures ServeAll(s, id, [req]) == ServeOne(s, id, req)
  {
    assert [req][1..] == [];
  }

  lemma ServingTwo(s: Store, id: int, first: Request, second: Request)
    ensures ServeAll(s, id, [first, second]) == ServeOne(ServeOne(s, id, first), id, second)
  {
    assert [first, second][1..] == [second];
    ServingOne(ServeOne(s, id, first), id, second);
  }

  const SAME_END: Request :=
    ReplaceManually(1, 1, Upload(NEW_BLOB, "", 0, 200, "bb", 1, true), None, true, true, 50)
  const RECREATED: Request :=
    Create(1, NEW_BLOB, "", 0, 200, TLSServer, Notify, Some(1), 1, true, Some("bb"))

  /** A forced replacement that ends when its predecessor did: the next pass skips and leaves the
      predecessor in place. */
  lemma ForcedReplacementGoesUnnoticed()
    ensures var (after, outcome) := Pass(Deployed1(), 1, Before([SAME_END]), NoFault);
            && outcome == Skipped && after.files == Intact([1])
            && 1 in after.store.db.rows && after.store.db.rows[1].content.blob == NEW_BLOB
  {
    FirstPassDeploys();
    ImportLands();
    var w := Deployed1();
    ServingOne(w.store, 1, SAME_END);
    PassAfterServing(w, 1, [SAME_END], NoFault);
    ReplacementIsNoticedIff(w, 1, SAME_END);
  }

  /** A certificate deleted and another created under its row id, ending at the same time. */
  lemma RecreationGoesUnnoticed()
    ensures var (after, outcome) := Pass(Deployed1(), 1, Before([DeleteCertificate(1), RECREATED]), NoFault);
            && outcome == Skipped && after.files == Intact([1])
            && 1 in after.store.db.rows && after.store.db.rows[1].content.blob == NEW_BLOB
  {
    FirstPassDeploys();
    RecreatedUnnoticed(Deployed1());
  }

  lemma RecreatedUnnoticed(w: World)
    requires Converged(w, 1) && w.files == Intact([1])
    requires w.store.db.rows[1].content.validUntil == 200 && w.store.db.rows[1].content.blob == OLD_BLOB
    ensures var (after, outcome) := Pass(w, 1, Before([DeleteCertificate(1), RECREATED]), NoFault);
            && outcome == Skipped && after.files == Intact([1])
            && 1 in after.store.db.rows && after.store.db.rows[1].content.blob == NEW_BLOB
  {
    var later := ServeOne(ServeOne(w.store, 1, DeleteCertificate(1)), 1, RECREATED);
    ServingTwo(w.store, 1, DeleteCertificate(1), RECREATED);
    PassAfterServing(w, 1, [DeleteCertificate(1), RECREATED], NoFault);
    RecreationIsNoticedIff(w, 1, RECREATED);
    QuietKeepsStore(w.(store := later), 1);
  }

  lemma QuietKeepsStore(w: World, id: int)
    ensures Pass(w, id, QUIET, NoFault).0.store == w.store
  {
  }
}
