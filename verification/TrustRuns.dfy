/** What holds over any sequence of trust-store runs, whatever fails in them and whatever
    other programs do to their own files in between. */
module TrustRuns {
  import opened Prelude
  import opened TrustBundle
  import opened TrustSync

  // ---- One successful run ----

  /** The names of retired anchors do not collide with the names of the bundle's anchors. */
  predicate NoCollision(prev: Record, anchors: seq<Anchor>) {
    NamesOf(prev.certs, RetiredSet(prev.certs, BundleMap(anchors))) !! FileNames(anchors)
  }

  /** A successful run leaves the record equal to the bundle's fingerprint-to-name map with
      nothing outstanding and every retired owned file gone. Every file of the bundle is
      there afterwards exactly when no retired anchor shares a name with a kept one. */
  lemma SuccessMeansInSync(pre: Host, anchors: seq<Anchor>, recorded: bool, post: Host, n: nat)
    requires MayLeave(pre, anchors, Synced(n), recorded, post)
    requires forall a :: a in anchors ==> !IsTemp(a.fileName)
    ensures post.record.certs == BundleMap(anchors) && !post.record.pending && post.applied
    ensures forall fp :: IsRetired(pre.record.certs, post.record.certs, fp)
              ==> pre.record.certs[fp] !in post.files
    ensures NoTemps(post.files)
    ensures (forall i :: 0 <= i < |anchors| ==> anchors[i].fileName in post.files) <==> NoCollision(pre.record, anchors)
    ensures InSync(post.record, anchors, post.files) <==> NoCollision(pre.record, anchors)
  {
    var gone := NamesOf(pre.record.certs, RetiredSet(pre.record.certs, BundleMap(anchors)));
    PlaceHas(WithoutTemps(pre.files), anchors);
    forall fp | IsRetired(pre.record.certs, post.record.certs, fp)
      ensures pre.record.certs[fp] !in post.files
    {
      assert fp in RetiredSet(pre.record.certs, BundleMap(anchors));
      assert pre.record.certs[fp] in gone;
    }
    AllThereIff(Place(WithoutTemps(pre.files), anchors), anchors, gone);
    FinalHasNoTemps(pre, anchors);
  }

  lemma FinalHasNoTemps(pre: Host, anchors: seq<Anchor>)
    requires forall a :: a in anchors ==> !IsTemp(a.fileName)
    ensures NoTemps(Final(pre, anchors))
  {
    PlaceHas(WithoutTemps(pre.files), anchors);
  }

  lemma AllThereIff(files: Files, anchors: seq<Anchor>, gone: set<string>)
    requires FileNames(anchors) <= files.Keys
    ensures (forall i :: 0 <= i < |anchors| ==> anchors[i].fileName in files - gone) <==> gone !! FileNames(anchors)
  {
    forall i | 0 <= i < |anchors|
      ensures anchors[i].fileName in files - gone <==> anchors[i].fileName !in gone
    {
      assert anchors[i] in anchors;
    }
    if name :| name in gone && name in FileNames(anchors) {
      var i :| 0 <= i < |anchors| && anchors[i].fileName == name;
    }
  }

  /** A previous run's file name under a fingerprint the bundle no longer has. */
  ghost predicate RetiredName(prev: Record, anchors: seq<Anchor>, name: string) {
    exists fp :: fp in prev.certs && prev.certs[fp] == name && !HasFingerprint(anchors, fp)
  }

  lemma RetiredNameIff(prev: Record, anchors: seq<Anchor>, name: string)
    ensures RetiredName(prev, anchors, name) <==>
            name in NamesOf(prev.certs, RetiredSet(prev.certs, BundleMap(anchors)))
  {
    BundleMapHas(anchors);
    if fp :| fp in prev.certs && prev.certs[fp] == name && !HasFingerprint(anchors, fp) {
      assert fp in RetiredSet(prev.certs, BundleMap(anchors));
    }
  }

  /** Whenever a run got past removing what was retired, whether or not the rest succeeded: the
      file of an anchor holds that anchor's certificate, unless a later anchor has its name, or a
      retired one has it, and then it is gone. */
  lemma FinishedHoldsTheAnchors(pre: Host, anchors: seq<Anchor>, outcome: Outcome, recorded: bool, post: Host, i: nat)
    requires MayLeave(pre, anchors, outcome, recorded, post)
    requires outcome.Synced? || outcome.UpdateFailed? || outcome.RecordFailed? || outcome.FinalRecordFailed?
    requires LastOfName(anchors, i)
    ensures RetiredName(pre.record, anchors, anchors[i].fileName) ==> anchors[i].fileName !in post.files
    ensures !RetiredName(pre.record, anchors, anchors[i].fileName) ==>
              anchors[i].fileName in post.files && post.files[anchors[i].fileName] == anchors[i].pem
  {
    RetiredNameIff(pre.record, anchors, anchors[i].fileName);
    PlaceHolds(WithoutTemps(pre.files), anchors, i);
  }

  /** With file names of their own, all anchors of the bundle are in place with their own bytes. */
  lemma SyncedHoldsTheBundle(pre: Host, anchors: seq<Anchor>, n: nat, recorded: bool, post: Host)
    requires MayLeave(pre, anchors, Synced(n), recorded, post)
    requires forall i, j :: 0 <= i < j < |anchors| ==> anchors[i].fileName != anchors[j].fileName
    requires forall i :: 0 <= i < |anchors| ==> !RetiredName(pre.record, anchors, anchors[i].fileName)
    ensures forall i :: 0 <= i < |anchors| ==>
              anchors[i].fileName in post.files && post.files[anchors[i].fileName] == anchors[i].pem
  {
    forall i | 0 <= i < |anchors|
      ensures anchors[i].fileName in post.files && post.files[anchors[i].fileName] == anchors[i].pem
    {
      FinishedHoldsTheAnchors(pre, anchors, Synced(n), recorded, post, i);
    }
  }

  /** A run that failed while placing has put the anchors before the failure in place. */
  lemma WriteFailedHoldsThePlaced(pre: Host, anchors: seq<Anchor>, k: nat, recorded: bool, post: Host, i: nat)
    requires MayLeave(pre, anchors, WriteFailed(k), recorded, post) && LastOfName(anchors[..k], i)
    ensures anchors[i].fileName in post.files && post.files[anchors[i].fileName] == anchors[i].pem
  {
    PlaceHoldsAll(WithoutTemps(pre.files), anchors[..k], post.files);
    assert HoldsOne(post.files, anchors[..k][i]);
  }

  /** One that failed while removing has them all, but for names already removed. */
  lemma RemoveFailedHoldsTheRest(
      pre: Host, anchors: seq<Anchor>, gone: set<Fingerprint>, recorded: bool, post: Host, i: nat)
    requires MayLeave(pre, anchors, RemoveFailed(gone), recorded, post) && LastOfName(anchors, i)
    requires forall fp :: fp in gone && fp in pre.record.certs ==> pre.record.certs[fp] != anchors[i].fileName
    ensures anchors[i].fileName in post.files && post.files[anchors[i].fileName] == anchors[i].pem
  {
    PlaceHolds(WithoutTemps(pre.files), anchors, i);
  }

  /** In that state the next run with the same bundle, if nothing disturbs it, changes nothing
      and runs no command: the only outcomes that touch anything are ruled out. */
  lemma RepeatIsQuiet(host: Host, anchors: seq<Anchor>, outcome: Outcome, recorded: bool, post: Host)
    requires InSync(host.record, anchors, host.files)
    requires MayLeave(host, anchors, outcome, recorded, post)
    ensures post == host
    ensures outcome in {Disabled, FetchFailed, ParseFailed, ReadFailed, UpToDate(|anchors|)}
  {
  }

  // ---- Any number of runs ----

  /** A run over a fetched bundle, or other programs changing the directory. */
  datatype Event = Ran(bundle: Bundle, outcome: Outcome, recorded: bool) | Outside

  /** Other programs may remove anything and write anything of their own; they create no file
      under a name the agent has used and none with its temporary prefix. */
  ghost predicate MayHappenOutside(pre: Host, post: Host) {
    && post.record == pre.record && post.written == pre.written && post.applied == pre.applied
    && (forall n :: n in post.files && (n in pre.written || IsTemp(n)) ==> n in pre.files)
  }

  ghost predicate StepMay(pre: Host, e: Event, ext: string, post: Host) {
    match e
    case Outside => MayHappenOutside(pre, post)
    case Ran(bundle, outcome, recorded) => RunMayLeave(pre, bundle, ext, outcome, recorded, post)
  }

  ghost predicate Trace(hosts: seq<Host>, events: seq<Event>, ext: string) {
    && |hosts| == |events| + 1
    && forall i :: 0 <= i < |events| ==> StepMay(hosts[i], events[i], ext, hosts[i + 1])
  }

  /** Every attempt to write the record succeeded, and file names are a function of the
      fingerprint, as they are under a fixed configuration. */
  ghost predicate Orderly(e: Event, ext: string, nameOf: Fingerprint -> string) {
    e.Ran? ==> e.recorded && BundleNamed(e.bundle, ext, nameOf)
  }

  /** No two fingerprints share a file name. */
  ghost predicate Naming(nameOf: Fingerprint -> string) {
    forall a, b :: a != b ==> nameOf(a) != nameOf(b)
  }

  ghost predicate Named(anchors: seq<Anchor>, nameOf: Fingerprint -> string) {
    forall a :: a in anchors ==> a.fileName == nameOf(a.fingerprint)
  }

  ghost predicate BundleNamed(bundle: Bundle, ext: string, nameOf: Fingerprint -> string) {
    Parsed(bundle, ext).Ok? ==> Named(Parsed(bundle, ext).value, nameOf)
  }

  /** Every anchor ever put in place that is still there is on record; the record follows the
      naming; with nothing outstanding there are no half-written files and the update command
      has succeeded since the last change. */
  ghost predicate Tracked(host: Host, nameOf: Fingerprint -> string) {
    && (forall n :: n in host.written && n in host.files ==> Owns(host.record.certs, n))
    && (forall fp :: fp in host.record.certs ==> host.record.certs[fp] == nameOf(fp))
    && (forall n :: n in host.written ==> !IsTemp(n))
    && (!host.record.pending ==> host.applied && NoTemps(host.files))
  }

  lemma {:induction false} BundleMapNamed(anchors: seq<Anchor>, nameOf: Fingerprint -> string)
    requires Named(anchors, nameOf)
    ensures forall fp :: fp in BundleMap(anchors) ==> BundleMap(anchors)[fp] == nameOf(fp)
    ensures forall n :: n in FileNames(anchors) ==> Owns(BundleMap(anchors), n)
  {
    if anchors != [] {
      var k := |anchors| - 1;
      var before := anchors[..k];
      assert forall a :: a in before ==> a in anchors;
      assert anchors[k] in anchors;
      BundleMapNamed(before, nameOf);
      var certs, certs' := BundleMap(before), BundleMap(anchors);
      forall n | n in FileNames(anchors)
        ensures Owns(certs', n)
      {
        if n == anchors[k].fileName {
          assert certs'[anchors[k].fingerprint] == n;
        } else {
          var a :| a in anchors && a.fileName == n;
          assert a in before && n in FileNames(before);
          var fp :| fp in certs && certs[fp] == n;
          assert certs'[fp] == n;
        }
      }
    }
  }

  /** Every file of `files` outside the removed names was there before or was just placed. */
  lemma PlacedAreOwned(
      pre: Host, nameOf: Fingerprint -> string, anchors: seq<Anchor>, next: map<Fingerprint, string>, post: Host)
    requires Tracked(pre, nameOf) && Named(anchors, nameOf)
    requires post.written == pre.written + FileNames(anchors)
    requires forall n :: n in post.files && !IsTemp(n) ==> n in pre.files || n in FileNames(anchors)
    requires forall n :: n in FileNames(anchors) ==> !IsTemp(n)
    requires forall fp :: fp in BundleMap(anchors) ==> fp in next && next[fp] == nameOf(fp)
    requires forall fp :: fp in pre.record.certs && pre.record.certs[fp] in post.files ==>
               fp in next && next[fp] == nameOf(fp)
    ensures forall n :: n in post.written && n in post.files ==> Owns(next, n)
  {
    BundleMapNamed(anchors, nameOf);
    forall n | n in post.written && n in post.files
      ensures Owns(next, n)
    {
      if n in FileNames(anchors) {
        var fp :| fp in BundleMap(anchors) && BundleMap(anchors)[fp] == n;
        assert next[fp] == n;
      } else {
        assert Owns(pre.record.certs, n);
        var fp :| fp in pre.record.certs && pre.record.certs[fp] == n;
        assert next[fp] == n;
      }
    }
  }

  lemma NotTempNames(anchors: seq<Anchor>)
    requires forall a :: a in anchors ==> !IsTemp(a.fileName)
    ensures forall n :: n in FileNames(anchors) ==> !IsTemp(n)
  {
  }

  lemma PlacedFiles(files: Files, anchors: seq<Anchor>)
    ensures forall n :: n in Place(WithoutTemps(files), anchors) ==> n in files || n in FileNames(anchors)
  {
    PlaceHas(WithoutTemps(files), anchors);
  }

  lemma WriteFailedKeepsTracked(pre: Host, anchors: seq<Anchor>, k: nat, post: Host, nameOf: Fingerprint -> string)
    requires Tracked(pre, nameOf) && Named(anchors, nameOf) && (forall a :: a in anchors ==> !IsTemp(a.fileName))
    requires MayLeave(pre, anchors, WriteFailed(k), true, post)
    ensures Tracked(post, nameOf)
  {
    var some := anchors[..k];
    assert forall a :: a in some ==> a in anchors;
    NotTempNames(some);
    BundleMapNamed(some, nameOf);
    PlacedFiles(pre.files, some);
    forall n | n in post.files && !IsTemp(n)
      ensures n in pre.files || n in FileNames(some)
    {
      assert n in WithoutTemps(post.files);
    }
    PlacedAreOwned(pre, nameOf, some, post.record.certs, post);
  }

  lemma FinishedKeepsTracked(
      pre: Host, anchors: seq<Anchor>, gone: set<Fingerprint>, post: Host, nameOf: Fingerprint -> string)
    requires Tracked(pre, nameOf) && Named(anchors, nameOf) && (forall a :: a in anchors ==> !IsTemp(a.fileName))
    requires gone <= RetiredSet(pre.record.certs, BundleMap(anchors))
    requires post.files == Place(WithoutTemps(pre.files), anchors) - NamesOf(pre.record.certs, gone)
    requires post.written == pre.written + FileNames(anchors)
    requires post.record.certs == CarriedOver(pre.record, anchors, gone).certs
    requires post.record.pending || post.applied
    ensures Tracked(post, nameOf)
  {
    NotTempNames(anchors);
    BundleMapNamed(anchors, nameOf);
    PlacedFiles(pre.files, anchors);
    PlaceHas(WithoutTemps(pre.files), anchors);
    assert forall fp ::
        fp in gone && fp in pre.record.certs ==> pre.record.certs[fp] in NamesOf(pre.record.certs, gone);
    PlacedAreOwned(pre, nameOf, anchors, post.record.certs, post);
  }

  lemma AllGone(prev: Record, anchors: seq<Anchor>)
    ensures CarriedOver(prev, anchors, RetiredSet(prev.certs, BundleMap(anchors))).certs == BundleMap(anchors)
  {
  }

  lemma StepKeepsTracked(pre: Host, e: Event, ext: string, post: Host, nameOf: Fingerprint -> string)
    requires Tracked(pre, nameOf) && StepMay(pre, e, ext, post) && Orderly(e, ext, nameOf)
    ensures Tracked(post, nameOf)
  {
    if e.Ran? && Parsed(e.bundle, ext).Ok? {
      var anchors := Parsed(e.bundle, ext).value;
      ParsedIsDistinct(e.bundle, ext);
      var retired := RetiredSet(pre.record.certs, BundleMap(anchors));
      match e.outcome {
        case WriteFailed(k) => WriteFailedKeepsTracked(pre, anchors, k, post, nameOf);
        case RemoveFailed(gone) => FinishedKeepsTracked(pre, anchors, gone, post, nameOf);
        case UpdateFailed(_) =>
          AllGone(pre.record, anchors);
          FinishedKeepsTracked(pre, anchors, retired, post, nameOf);
        case Synced(_) =>
          AllGone(pre.record, anchors);
          FinishedKeepsTracked(pre, anchors, retired, post, nameOf);
        case SweepFailed => SweepFailedKeepsTracked(pre, anchors, post, nameOf);
        case _ =>
      }
    }
  }

  lemma SweepFailedKeepsTracked(pre: Host, anchors: seq<Anchor>, post: Host, nameOf: Fingerprint -> string)
    requires Tracked(pre, nameOf) && MayLeave(pre, anchors, SweepFailed, true, post)
    ensures Tracked(post, nameOf)
  {
    if !pre.record.pending {
      assert pre.files == WithoutTemps(pre.files);
      assert post.files == WithoutTemps(post.files);
    }
  }

  lemma {:induction false} TraceKeepsTracked(
      hosts: seq<Host>, events: seq<Event>, ext: string, nameOf: Fingerprint -> string, i: nat)
    requires Trace(hosts, events, ext) && Tracked(hosts[0], nameOf) && i < |hosts|
    requires forall e :: e in events ==> Orderly(e, ext, nameOf)
    ensures Tracked(hosts[i], nameOf)
  {
    if i > 0 {
      TraceKeepsTracked(hosts, events, ext, nameOf, i - 1);
      assert events[i - 1] in events;
      StepKeepsTracked(hosts[i - 1], events[i - 1], ext, hosts[i], nameOf);
    }
  }

  /** A host the agent has never touched. */
  predicate Untouched(host: Host) {
    host.record == NO_RECORD && host.written == {} && host.applied
    && forall n :: n in host.files ==> !IsTemp(n)
  }

  /** Over any sequence of runs, with an error at any step of any of them, as long as the
      record could be written: every anchor file the agent ever put in place and that is
      still there is on record, so a later run can retire it. */
  lemma NoAnchorIsOrphaned(
      hosts: seq<Host>, events: seq<Event>, ext: string, nameOf: Fingerprint -> string, i: nat, name: string)
    requires Trace(hosts, events, ext) && Untouched(hosts[0]) && i < |hosts|
    requires forall e :: e in events ==> Orderly(e, ext, nameOf)
    requires name in hosts[i].written && name in hosts[i].files
    ensures Owns(hosts[i].record.certs, name)
  {
    TraceKeepsTracked(hosts, events, ext, nameOf, i);
  }

  /** Whenever the next run finds nothing to do, the update command has succeeded since the
      agent last changed a file. */
  lemma QuietMeansApplied(
      hosts: seq<Host>, events: seq<Event>, ext: string, nameOf: Fingerprint -> string, i: nat, anchors: seq<Anchor>)
    requires Trace(hosts, events, ext) && Untouched(hosts[0]) && i < |hosts|
    requires forall e :: e in events ==> Orderly(e, ext, nameOf)
    requires InSync(hosts[i].record, anchors, hosts[i].files)
    ensures hosts[i].applied
  {
    TraceKeepsTracked(hosts, events, ext, nameOf, i);
  }

  /** With injective names a successful run always ends in sync. */
  lemma SuccessIsInSync(
      pre: Host, anchors: seq<Anchor>, recorded: bool, post: Host, n: nat, nameOf: Fingerprint -> string)
    requires Naming(nameOf) && Tracked(pre, nameOf) && Named(anchors, nameOf) && DistinctFingerprints(anchors)
    requires MayLeave(pre, anchors, Synced(n), recorded, post)
    requires forall a :: a in anchors ==> !IsTemp(a.fileName)
    ensures InSync(post.record, anchors, post.files)
  {
    BundleMapLooksUp(anchors);
    SuccessMeansInSync(pre, anchors, recorded, post, n);
    forall fp, a | fp in RetiredSet(pre.record.certs, BundleMap(anchors)) && a in anchors
      ensures pre.record.certs[fp] != a.fileName
    {
      var i :| 0 <= i < |anchors| && anchors[i] == a;
      assert a.fingerprint in BundleMap(anchors);
    }
    assert NoCollision(pre.record, anchors);
  }

  // ---- Colliding names ----

  function Only(cert: Cert): Bundle {
    Bundle([Certificate(cert)], false)
  }

  /** The host after the only anchor on it is `a`, and after `b` has replaced it under the same
      name. */
  function Holding(a: Cert, ext: string): Host {
    Host(map[FileName(a, ext) := a.pem], Record(map[a.fingerprint := FileName(a, ext)], false, 0),
         {FileName(a, ext)}, true)
  }

  function Robbed(b: Cert, ext: string): Host {
    Host(map[], Record(map[b.fingerprint := FileName(b, ext)], false, 0), {FileName(b, ext)}, true)
  }

  const BARE: Host := Host(map[], NO_RECORD, {}, true)

  lemma ParsedOnly(cert: Cert, ext: string)
    ensures Parsed(Only(cert), ext) == Ok([AnchorOf(cert, ext)])
    ensures BundleMap([AnchorOf(cert, ext)]) == map[cert.fingerprint := FileName(cert, ext)]
    ensures forall files :: Place(files, [AnchorOf(cert, ext)]) == files[FileName(cert, ext) := cert.pem]
    ensures FileNames([AnchorOf(cert, ext)]) == {FileName(cert, ext)}
  {
    var anchor := AnchorOf(cert, ext);
    var blocks := [Certificate(cert)];
    FirstBadFindsNone(blocks);
    assert AllCertificates(blocks) && blocks[..0] == [] && [anchor][..0] == [];
    assert !HasFingerprint([], cert.fingerprint);
    assert Dedup(blocks[..0], ext) == [];
    assert Dedup(blocks, ext) == [anchor];
    var bundle := Only(cert);
    assert bundle.blocks == blocks && !bundle.trailing && FirstBad(bundle.blocks) == None;
    assert Parsed(bundle, ext) == Ok(Dedup(bundle.blocks, ext));
    forall files
      ensures Place(files, [anchor]) == files[anchor.fileName := anchor.pem]
    {
      assert Place(files, [anchor][..0]) == files;
    }
  }

  lemma FirstRunInstalls(a: Cert, ext: string)
    ensures RunMayLeave(BARE, Only(a), ext, Synced(1), true, Holding(a, ext))
  {
    ParsedOnly(a, ext);
    var anchors := [AnchorOf(a, ext)];
    assert anchors[0].fileName !in BARE.files;
    assert WithoutTemps(BARE.files) == map[];
    assert RetiredSet(NO_RECORD.certs, BundleMap(anchors)) == {};
    assert NamesOf(NO_RECORD.certs, {}) == {};
    assert Final(BARE, anchors) == map[FileName(a, ext) := a.pem];
  }

  lemma SecondRunRobs(a: Cert, b: Cert, ext: string)
    requires a.fingerprint != b.fingerprint && FileName(a, ext) == FileName(b, ext)
    ensures RunMayLeave(Holding(a, ext), Only(b), ext, Synced(1), true, Robbed(b, ext))
  {
    ParsedOnly(b, ext);
    var name, pre, anchors := FileName(a, ext), Holding(a, ext), [AnchorOf(b, ext)];
    assert a.fingerprint in pre.record.certs && a.fingerprint !in BundleMap(anchors);
    assert a.fingerprint in RetiredSet(pre.record.certs, BundleMap(anchors));
    assert RetiredSet(pre.record.certs, BundleMap(anchors)) == {a.fingerprint};
    assert NamesOf(pre.record.certs, {a.fingerprint}) == {name};
    AnchorsAreNotTemp(a, ext);
    assert WithoutTemps(pre.files) == pre.files;
    assert Final(pre, anchors) == map[name := b.pem] - {name} == map[];
  }

  /** Two certificates with one file name, the second replacing the first in the bundle: both
      runs succeed and the anchor of the bundle is not there. */
  lemma CollisionLosesTheAnchor(a: Cert, b: Cert, ext: string)
    requires a.fingerprint != b.fingerprint && FileName(a, ext) == FileName(b, ext)
    ensures Untouched(BARE)
    ensures Trace([BARE, Holding(a, ext), Robbed(b, ext)],
                  [Ran(Only(a), Synced(1), true), Ran(Only(b), Synced(1), true)], ext)
    ensures FileName(b, ext) !in Robbed(b, ext).files
            && !InSync(Robbed(b, ext).record, [AnchorOf(b, ext)], Robbed(b, ext).files)
  {
    FirstRunInstalls(a, ext);
    SecondRunRobs(a, b, ext);
    var anchors := [AnchorOf(b, ext)];
    assert anchors[0].fileName !in Robbed(b, ext).files;
  }

  /** Such a pair: one common name, fingerprints that differ in the last digit. */
  lemma CollisionHappens(ext: string)
    ensures var a := Cert(seq(64, _ => '0'), "Root", []);
            var b := Cert(seq(64, i => if i == 63 then '1' else '0'), "Root", []);
            a.fingerprint != b.fingerprint && FileName(a, ext) == FileName(b, ext)
  {
    var f: Fingerprint, g: Fingerprint := seq(64, _ => '0'), seq(64, i => if i == 63 then '1' else '0');
    assert f[63] != g[63] && f[..8] == g[..8];
    FileNamesCollideIff(Cert(f, "Root", []), Cert(g, "Root", []), ext);
  }

  /** A second success with the same bundle repairs it, whatever happened to the files in
      between. */
  lemma SecondSuccessIsInSync(
      pre: Host, anchors: seq<Anchor>, mid: Host, next: Host, post: Host, n: nat, m: nat, r: bool, q: bool)
    requires forall a :: a in anchors ==> !IsTemp(a.fileName)
    requires MayLeave(pre, anchors, Synced(n), r, mid) && next.record == mid.record
    requires MayLeave(next, anchors, Synced(m), q, post)
    ensures InSync(post.record, anchors, post.files)
  {
    assert RetiredSet(next.record.certs, BundleMap(anchors)) == {};
    assert NamesOf(next.record.certs, {}) == {};
    assert NoCollision(next.record, anchors);
    SuccessMeansInSync(next, anchors, q, post, m);
  }

  // ---- Other programs' files ----

  /** Not the agent's: no record it starts from lists the name, the bundle does not use it and
      it does not have the temporary prefix. */
  ghost predicate Foreign(record: Record, bundle: Bundle, ext: string, name: string) {
    && !IsTemp(name) && !Owns(record.certs, name)
    && (Parsed(bundle, ext).Ok? ==> name !in FileNames(Parsed(bundle, ext).value))
  }

  ghost predicate SameFile(a: Files, b: Files, name: string) {
    (name in a <==> name in b) && (name in a ==> a[name] == b[name])
  }

  lemma {:induction false} BundleMapOwnsFileNames(anchors: seq<Anchor>, name: string)
    requires Owns(BundleMap(anchors), name)
    ensures name in FileNames(anchors)
  {
    if anchors != [] {
      var k := |anchors| - 1;
      assert anchors[k] in anchors && forall a :: a in anchors[..k] ==> a in anchors;
      var fp :| fp in BundleMap(anchors) && BundleMap(anchors)[fp] == name;
      if fp != anchors[k].fingerprint {
        assert Owns(BundleMap(anchors[..k]), name);
        BundleMapOwnsFileNames(anchors[..k], name);
      }
    }
  }

  lemma PlacingSpares(pre: Files, anchors: seq<Anchor>, gone: set<string>, post: Files, name: string)
    requires WithoutTemps(post) == Place(WithoutTemps(pre), anchors) - gone
             || post == Place(WithoutTemps(pre), anchors) - gone
    requires !IsTemp(name) && name !in FileNames(anchors) && name !in gone
    ensures SameFile(pre, post, name)
  {
    PlaceHas(WithoutTemps(pre), anchors);
    assert name in post <==> name in WithoutTemps(post);
  }

  /** No run, however it ends and whether or not the record could be written, removes or
      changes a foreign file, and it never claims one either. */
  lemma RunSparesForeign(
      pre: Host, bundle: Bundle, ext: string, outcome: Outcome, recorded: bool, post: Host, name: string)
    requires RunMayLeave(pre, bundle, ext, outcome, recorded, post) && Foreign(pre.record, bundle, ext, name)
    ensures SameFile(pre.files, post.files, name) && !Owns(post.record.certs, name)
  {
    if Parsed(bundle, ext).Ok? {
      var anchors := Parsed(bundle, ext).value;
      if Owns(BundleMap(anchors), name) {
        BundleMapOwnsFileNames(anchors, name);
      }
      var retired := RetiredSet(pre.record.certs, BundleMap(anchors));
      match outcome {
        case WriteFailed(k) =>
          assert FileNames(anchors[..k]) <= FileNames(anchors);
          if Owns(BundleMap(anchors[..k]), name) {
            BundleMapOwnsFileNames(anchors[..k], name);
          }
          PlacingSpares(pre.files, anchors[..k], {}, post.files, name);
        case RemoveFailed(gone) =>
          PlacingSpares(pre.files, anchors, NamesOf(pre.record.certs, gone), post.files, name);
        case SweepFailed =>
          assert name in WithoutTemps(post.files) <==> name in WithoutTemps(pre.files);
          assert name in post.files ==> WithoutTemps(post.files)[name] == post.files[name];
        case RecordFailed => PlacingSpares(pre.files, anchors, NamesOf(pre.record.certs, retired), post.files, name);
        case UpdateFailed(_) => PlacingSpares(pre.files, anchors, NamesOf(pre.record.certs, retired), post.files, name);
        case FinalRecordFailed(_) =>
          PlacingSpares(pre.files, anchors, NamesOf(pre.record.certs, retired), post.files, name);
        case Synced(_) => PlacingSpares(pre.files, anchors, NamesOf(pre.record.certs, retired), post.files, name);
        case _ =>
      }
    }
  }

  /** Over any sequence of runs a file that is foreign to all of them is never removed or
      changed. */
  lemma {:induction false} ForeignFilesUntouched(
      hosts: seq<Host>, events: seq<Event>, ext: string, i: nat, name: string)
    requires Trace(hosts, events, ext) && i < |hosts|
    requires forall e :: e in events ==> e.Ran? && Foreign(hosts[0].record, e.bundle, ext, name)
    requires !Owns(hosts[0].record.certs, name)
    ensures SameFile(hosts[0].files, hosts[i].files, name) && !Owns(hosts[i].record.certs, name)
  {
    if i > 0 {
      ForeignFilesUntouched(hosts, events, ext, i - 1, name);
      var e := events[i - 1];
      assert e in events && StepMay(hosts[i - 1], e, ext, hosts[i]);
      RunSparesForeign(hosts[i - 1], e.bundle, ext, e.outcome, e.recorded, hosts[i], name);
    }
  }
}
