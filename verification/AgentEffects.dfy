/** What one pass of the agent does, in terms of the row the store answered with, what was saved
    and what was downloaded: which certificates it selects, when it skips, what it leaves behind
    when it gets through and what when it does not. */
module AgentEffects {
  import opened Prelude
  import opened CertStore
  import opened CertHandlers
  import opened Agent

  /** The tables as the list request is answered. */
  function Answered(w: World, id: int, m: Meanwhile): Db {
    ServeAll(w.store, id, m.list).db
  }

  /** The tables as the download is answered. */
  function Downloaded(w: World, id: int, m: Meanwhile): Db {
    var listed := ServeAll(w.store, id, m.list);
    var loaded := ServeAll(listed, id, m.load);
    ServeAll(ServeAll(loaded, id, m.password), id, m.download).db
  }

  predicate SameOnHost(w: World, after: World) {
    after.files == w.files && after.saved == w.saved && after.running == w.running
  }

  /** A certificate that is missing or revoked when the list is answered is not found, and the
      host is left as it was. */
  lemma MissingOrRevokedIsNotFound(w: World, id: int, m: Meanwhile, fault: Fault)
    requires fault != AtTarget && fault != AtList
    ensures var db := Answered(w, id, m);
            var (after, outcome) := Pass(w, id, m, fault);
            && (outcome == NotFound <==> id !in db.rows || db.rows[id].revokedAt != None)
            && (outcome == NotFound ==> SameOnHost(w, after))
  {
    if Selects(Answered(w, id, m), id) {
      CompareFinds(w.(store := ServeAll(w.store, id, m.list)), id, Answered(w, id, m).rows[id].content.validUntil,
                   m, fault);
    }
  }

  lemma CompareFinds(w: World, id: int, listed: int, m: Meanwhile, fault: Fault)
    ensures Compare(w, id, listed, m, fault).1 != NotFound
  {
    FetchFinds(w.(store := ServeAll(w.store, id, m.load)), id, listed, m, fault);
  }

  lemma FetchFinds(w: World, id: int, listed: int, m: Meanwhile, fault: Fault)
    ensures Fetch(w, id, listed, m, fault).1 != NotFound
  {
  }

  /** So whatever is deployed or left in place as current was there and unrevoked then. */
  lemma OnlyLiveCertificatesAreDeployed(w: World, id: int, m: Meanwhile, fault: Fault)
    requires Pass(w, id, m, fault).1 in {Deployed, Skipped}
    ensures var db := Answered(w, id, m);
            id in db.rows && db.rows[id].revokedAt == None
  {
  }

  /** Skipped exactly when what was saved is this certificate, some serial of it and the expiry
      that was listed, and nothing failed on the way. */
  lemma SkippedIff(w: World, id: int, m: Meanwhile, fault: Fault)
    ensures var db := Answered(w, id, m);
            Pass(w, id, m, fault).1 == Skipped <==>
            && fault != AtTarget && fault != AtList && fault != AtLoad && fault != AtSave
            && id in db.rows && db.rows[id].revokedAt == None
            && w.saved.certId == id && w.saved.validUntil == db.rows[id].content.validUntil
            && w.saved.serial != None
    ensures Pass(w, id, m, fault).1 == Skipped ==> SameOnHost(w, Pass(w, id, m, fault).0)
  {
  }

  /** Deployed means: the serial that was downloaded is saved with the certificate's id and the
      expiry that was listed, and if it is another than before, its files are in place and the
      service has loaded it. */
  lemma DeployedMeans(w: World, id: int, m: Meanwhile, fault: Fault)
    requires Pass(w, id, m, fault).1 == Deployed
    ensures var (listed, db) := (Answered(w, id, m), Downloaded(w, id, m));
            var after := Pass(w, id, m, fault).0;
            && id in listed.rows && id in db.rows && db.rows[id].content.blob.serial.Some?
            && var serial := db.rows[id].content.blob.serial.value;
            && after.saved.certId == id && after.saved.serial == Some(serial)
            && after.saved.validUntil == listed.rows[id].content.validUntil
            && (w.saved.serial != Some(serial) ==> after.files == Intact(serial) && after.running == Some(serial))
            && (w.saved.serial == Some(serial) ==> after.files == w.files && after.running == w.running)
  {
    PassDeploysByDownload(w, id, m, fault);
    DownloadMeans(w.(store := ServeAll(ServeAll(ServeAll(w.store, id, m.list), id, m.load), id, m.password)),
                  id, Answered(w, id, m).rows[id].content.validUntil, m, fault);
  }

  lemma PassDeploysByDownload(w: World, id: int, m: Meanwhile, fault: Fault)
    requires Pass(w, id, m, fault).1 == Deployed
    ensures var listed := Answered(w, id, m);
            var w3 := w.(store := ServeAll(ServeAll(ServeAll(w.store, id, m.list), id, m.load), id, m.password));
            id in listed.rows
            && Pass(w, id, m, fault) == Download(w3, id, listed.rows[id].content.validUntil, m, fault)
  {
  }

  lemma DownloadMeans(w: World, id: int, listed: int, m: Meanwhile, fault: Fault)
    requires Download(w, id, listed, m, fault).1 == Deployed
    ensures var db := ServeAll(w.store, id, m.download).db;
            var after := Download(w, id, listed, m, fault).0;
            && id in db.rows && db.rows[id].content.blob.serial.Some?
            && var serial := db.rows[id].content.blob.serial.value;
            && after.saved.certId == id && after.saved.serial == Some(serial) && after.saved.validUntil == listed
            && (w.saved.serial != Some(serial) ==> after.files == Intact(serial) && after.running == Some(serial))
            && (w.saved.serial == Some(serial) ==> after.files == w.files && after.running == w.running)
  {
  }

  /** Only a failure at the reload leaves a new record, only one from the write on leaves other
      files, and none leaves the service on anything but what it ran. */
  lemma FailedMeans(w: World, id: int, m: Meanwhile, fault: Fault)
    requires Pass(w, id, m, fault).1 == Failed
    ensures var after := Pass(w, id, m, fault).0;
            && after.running == w.running
            && (after.saved != w.saved ==> fault == AtReload)
            && (after.files != w.files ==> fault.AtApply? || fault == AtSave || fault == AtReload)
            && (fault.AtApply? && after.files != w.files ==> after.files == Mixed)
  {
    if id in Answered(w, id, m).rows {
      CompareFailedMeans(w.(store := ServeAll(w.store, id, m.list)), id, Answered(w, id, m).rows[id].content.validUntil,
                         m, fault);
    }
  }

  lemma CompareFailedMeans(w: World, id: int, listed: int, m: Meanwhile, fault: Fault)
    ensures var (after, outcome) := Compare(w, id, listed, m, fault);
            outcome == Failed ==>
              && after.running == w.running
              && (after.saved != w.saved ==> fault == AtReload)
              && (after.files != w.files ==> fault.AtApply? || fault == AtSave || fault == AtReload)
              && (fault.AtApply? && after.files != w.files ==> after.files == Mixed)
  {
    FetchFailedMeans(w.(store := ServeAll(w.store, id, m.load)), id, listed, m, fault);
  }

  lemma FetchFailedMeans(w: World, id: int, listed: int, m: Meanwhile, fault: Fault)
    ensures var (after, outcome) := Fetch(w, id, listed, m, fault);
            outcome == Failed ==>
              && after.running == w.running
              && (after.saved != w.saved ==> fault == AtReload)
              && (after.files != w.files ==> fault.AtApply? || fault == AtSave || fault == AtReload)
              && (fault.AtApply? && after.files != w.files ==> after.files == Mixed)
  {
  }

  /** An undisturbed pass that meets no failure, in full. */
  lemma QuietPassIs(w: World, id: int)
    ensures var rows := w.store.db.rows;
            var (after, outcome) := Pass(w, id, QUIET, NoFault);
            && after.store == w.store
            && (id !in rows || rows[id].revokedAt != None ==> outcome == NotFound && SameOnHost(w, after))
            && (id in rows && rows[id].revokedAt == None && rows[id].content.blob.serial.Some? ==>
                  var c := rows[id].content;
                  if w.saved.certId == id && w.saved.validUntil == c.validUntil && w.saved.serial != None
                  then outcome == Skipped && SameOnHost(w, after)
                  else
                    && outcome == Deployed && after.saved == Saved(id, c.blob.serial, c.validUntil)
                    && (if w.saved.serial == c.blob.serial
                        then after.files == w.files && after.running == w.running
                        else after.files == Intact(c.blob.serial.value) && after.running == c.blob.serial))
  {
  }
}
