/** Bringing the host's anchor directory in line with the server's bundle. The directory and
    the ownership record are changed step by step and every step can fail; what a whole run
    may leave behind is stated as a relation between the host before and after. */
module TrustSync {
  import opened Prelude
  import opened TrustBundle

  type Files = map<string, seq<Byte>>

  /** The ownership record: fingerprint to file name. A host never touched has the empty one. */
  datatype Record = Record(certs: map<Fingerprint, string>, pending: bool, lastSync: int)

  const NO_RECORD: Record := Record(map[], false, 0)

  /** A host: its anchor directory, the record, every anchor name a run ever put in place, and
      whether the update command has succeeded since a run last changed a file. */
  datatype Host = Host(files: Files, record: Record, written: set<string>, applied: bool)

  datatype Outcome =
    | Disabled | FetchFailed | ParseFailed | ReadFailed
    | UpToDate(installed: nat)
    | MkdirFailed | SweepFailed
    | WriteFailed(placed: nat)
    | RemoveFailed(gone: set<Fingerprint>)
    | RecordFailed
    | UpdateFailed(installed: nat)
    | FinalRecordFailed(installed: nat)
    | Synced(installed: nat)

  // ---- Pure parts ----

  function BundleMap(anchors: seq<Anchor>): map<Fingerprint, string> {
    if anchors == [] then map[]
    else
      var n := |anchors| - 1;
      BundleMap(anchors[..n])[anchors[n].fingerprint := anchors[n].fileName]
  }

  function Place(files: Files, anchors: seq<Anchor>): Files {
    if anchors == [] then files
    else
      var n := |anchors| - 1;
      Place(files, anchors[..n])[anchors[n].fileName := anchors[n].pem]
  }

  function FileNames(anchors: seq<Anchor>): set<string> {
    set a | a in anchors :: a.fileName
  }

  function WithoutTemps(files: Files): Files {
    map n | n in files && !IsTemp(n) :: files[n]
  }

  ghost predicate NoTemps(files: Files) {
    forall n :: n in files ==> !IsTemp(n)
  }

  ghost predicate Owns(certs: map<Fingerprint, string>, name: string) {
    exists fp :: fp in certs && certs[fp] == name
  }

  /** Fingerprints on record that the bundle no longer carries. */
  predicate IsRetired(prev: map<Fingerprint, string>, kept: map<Fingerprint, string>, fp: Fingerprint) {
    fp in prev && fp !in kept
  }

  function NamesOf(certs: map<Fingerprint, string>, fps: set<Fingerprint>): set<string> {
    set fp | fp in fps && fp in certs :: certs[fp]
  }

  function RetiredSet(prev: map<Fingerprint, string>, kept: map<Fingerprint, string>): set<Fingerprint> {
    set fp | fp in prev && fp !in kept
  }

  /** `union`: everything the previous run left, overlaid with what this run installed. */
  function Union(prev: Record, next: Record): Record {
    Record(prev.certs + next.certs, next.pending, next.lastSync)
  }

  /** Nothing to do: same fingerprints and names, all files there, no command outstanding. */
  ghost predicate InSync(record: Record, anchors: seq<Anchor>, files: Files) {
    && !record.pending
    && record.certs == BundleMap(anchors)
    && forall i :: 0 <= i < |anchors| ==> anchors[i].fileName in files
  }

  lemma {:induction false} BundleMapHas(anchors: seq<Anchor>)
    ensures forall fp :: fp in BundleMap(anchors) <==> HasFingerprint(anchors, fp)
  {
    if anchors != [] {
      var n := |anchors| - 1;
      BundleMapHas(anchors[..n]);
      assert anchors == anchors[..n] + [anchors[n]];
      HasFingerprintOfAll(anchors[..n], anchors[n]);
    }
  }

  lemma {:induction false} BundleMapSize(anchors: seq<Anchor>)
    requires DistinctFingerprints(anchors)
    ensures |BundleMap(anchors)| == |anchors|
  {
    if anchors != [] {
      var n := |anchors| - 1;
      var before, last := anchors[..n], anchors[n];
      BundleMapSize(before);
      BundleMapHas(before);
      assert forall i :: 0 <= i < n ==> before[i].fingerprint != last.fingerprint;
      assert last.fingerprint !in BundleMap(before);
      assert BundleMap(anchors) == BundleMap(before)[last.fingerprint := last.fileName];
    }
  }

  lemma {:induction false} BundleMapAt(anchors: seq<Anchor>, i: nat)
    requires DistinctFingerprints(anchors) && i < |anchors|
    ensures anchors[i].fingerprint in BundleMap(anchors)
    ensures BundleMap(anchors)[anchors[i].fingerprint] == anchors[i].fileName
  {
    var n := |anchors| - 1;
    if i < n {
      assert anchors[..n][i] == anchors[i] && anchors[i].fingerprint != anchors[n].fingerprint;
      BundleMapAt(anchors[..n], i);
    }
  }

  lemma BundleMapLooksUp(anchors: seq<Anchor>)
    requires DistinctFingerprints(anchors)
    ensures |BundleMap(anchors)| == |anchors|
    ensures forall fp :: fp in BundleMap(anchors) <==> HasFingerprint(anchors, fp)
    ensures forall i :: 0 <= i < |anchors| ==>
              anchors[i].fingerprint in BundleMap(anchors)
              && BundleMap(anchors)[anchors[i].fingerprint] == anchors[i].fileName
  {
    BundleMapSize(anchors);
    BundleMapHas(anchors);
    forall i | 0 <= i < |anchors|
      ensures anchors[i].fingerprint in BundleMap(anchors)
      ensures BundleMap(anchors)[anchors[i].fingerprint] == anchors[i].fileName
    {
      BundleMapAt(anchors, i);
    }
  }

  lemma HasFingerprintOfAll(before: seq<Anchor>, last: Anchor)
    ensures forall fp :: HasFingerprint(before + [last], fp) <==> HasFingerprint(before, fp) || last.fingerprint == fp
  {
    forall fp
      ensures HasFingerprint(before + [last], fp) <==> HasFingerprint(before, fp) || last.fingerprint == fp
    {
      HasFingerprintSnoc(before, last, fp);
    }
  }

  lemma {:induction false} PlaceHas(files: Files, anchors: seq<Anchor>)
    ensures Place(files, anchors).Keys == files.Keys + FileNames(anchors)
    ensures forall n :: n in files && n !in FileNames(anchors) ==> Place(files, anchors)[n] == files[n]
  {
    if anchors != [] {
      var k := |anchors| - 1;
      PlaceHas(files, anchors[..k]);
      assert anchors == anchors[..k] + [anchors[k]];
      assert FileNames(anchors) == FileNames(anchors[..k]) + {anchors[k].fileName};
    }
  }

  /** No later anchor has the same file name. */
  predicate LastOfName(anchors: seq<Anchor>, i: nat) {
    i < |anchors| && forall j :: i < j < |anchors| ==> anchors[j].fileName != anchors[i].fileName
  }

  /** The file of an anchor holds that anchor's certificate, unless a later one has its name. */
  lemma {:induction false} PlaceHolds(files: Files, anchors: seq<Anchor>, i: nat)
    requires LastOfName(anchors, i)
    ensures anchors[i].fileName in Place(files, anchors)
    ensures Place(files, anchors)[anchors[i].fileName] == anchors[i].pem
  {
    var n := |anchors| - 1;
    if i < n {
      assert anchors[..n][i] == anchors[i] && anchors[n].fileName != anchors[i].fileName;
      assert LastOfName(anchors[..n], i);
      PlaceHolds(files, anchors[..n], i);
    }
  }

  /** Every anchor of these that no later one displaces is in the directory. */
  ghost predicate HoldsAnchors(files: Files, anchors: seq<Anchor>) {
    forall i: nat :: LastOfName(anchors, i) ==> HoldsOne(files, anchors[i])
  }

  predicate HoldsOne(files: Files, a: Anchor) {
    a.fileName in files && files[a.fileName] == a.pem
  }

  lemma PlaceHoldsAll(files: Files, anchors: seq<Anchor>, after: Files)
    requires after == Place(files, anchors) || WithoutTemps(after) == Place(files, anchors)
    ensures HoldsAnchors(after, anchors)
  {
    forall i: nat | LastOfName(anchors, i)
      ensures HoldsOne(after, anchors[i])
    {
      PlaceHolds(files, anchors, i);
      assert anchors[i].fileName in Place(files, anchors);
    }
  }

  /** Equal sizes and distinct fingerprints leave no room for an extra entry: a record that
      has all of the bundle's entries and as many of its own is the bundle's map. */
  lemma SameSizeSameMap(certs: map<Fingerprint, string>, anchors: seq<Anchor>)
    requires DistinctFingerprints(anchors) && |certs| == |anchors|
    requires forall i :: 0 <= i < |anchors| ==>
               anchors[i].fingerprint in certs && certs[anchors[i].fingerprint] == anchors[i].fileName
    ensures certs == BundleMap(anchors)
  {
    BundleMapLooksUp(anchors);
    var target := BundleMap(anchors);
    forall fp | fp in target
      ensures fp in certs && certs[fp] == target[fp]
    {
      var i :| 0 <= i < |anchors| && anchors[i].fingerprint == fp;
    }
    assert target.Keys <= certs.Keys;
    assert |target.Keys| == |target| && |certs.Keys| == |certs|;
    SubsetOfSameSize(target.Keys, certs.Keys);
  }

  lemma SubsetOfSameSize<T>(a: set<T>, b: set<T>)
    requires a <= b && |a| == |b|
    ensures a == b
  {
    assert b == a + (b - a);
    assert |b| == |a| + |b - a|;
  }

  // ---- What a run may do ----

  /** The record while a run that has placed `anchors` is under way. */
  function Underway(prev: Record, anchors: seq<Anchor>): Record {
    Record(BundleMap(anchors), true, prev.lastSync)
  }

  /** `next` with every retired entry of the previous run that is not among `gone`. */
  function CarryInto(prev: Record, next: Record, gone: set<Fingerprint>): Record {
    next.(certs := next.certs + (map fp | fp in prev.certs && fp !in next.certs && fp !in gone :: prev.certs[fp]))
  }

  /** The record after a removal failed with `gone` already removed. */
  function CarriedOver(prev: Record, anchors: seq<Anchor>, gone: set<Fingerprint>): Record {
    CarryInto(prev, Underway(prev, anchors), gone)
  }

  /** What a run with these anchors can leave behind, step by step of how far it got.
      `recorded` tells whether every attempt to write the record succeeded. */
  ghost predicate MayLeave(pre: Host, anchors: seq<Anchor>, outcome: Outcome, recorded: bool, post: Host) {
    match outcome
    case UpToDate(n) => InSync(pre.record, anchors, pre.files) && post == pre && n == |anchors|
    case MkdirFailed => !InSync(pre.record, anchors, pre.files) && post == pre
    case SweepFailed =>
      && !InSync(pre.record, anchors, pre.files)
      && post.record == pre.record && post.written == pre.written
      && post.files.Keys <= pre.files.Keys
      && WithoutTemps(post.files) == WithoutTemps(pre.files)
      && (post.applied ==> pre.applied)
      && (post.files == pre.files ==> post.applied == pre.applied)
    case WriteFailed(k) =>
      && !InSync(pre.record, anchors, pre.files) && k < |anchors|
      && WithoutTemps(post.files) == Place(WithoutTemps(pre.files), anchors[..k])
      && post.written == pre.written + FileNames(anchors[..k])
      && post.record == (if recorded then Union(pre.record, Underway(pre.record, anchors[..k])) else pre.record)
    case RemoveFailed(gone) =>
      && !InSync(pre.record, anchors, pre.files)
      && gone < RetiredSet(pre.record.certs, BundleMap(anchors))
      && post.files == Place(WithoutTemps(pre.files), anchors) - NamesOf(pre.record.certs, gone)
      && post.written == pre.written + FileNames(anchors)
      && post.record == (if recorded then CarriedOver(pre.record, anchors, gone) else pre.record)
    case RecordFailed =>
      && !InSync(pre.record, anchors, pre.files) && !recorded
      && post.files == Final(pre, anchors)
      && post.written == pre.written + FileNames(anchors)
      && post.record == pre.record
    case UpdateFailed(n) =>
      && !InSync(pre.record, anchors, pre.files) && n == |anchors|
      && post.files == Final(pre, anchors)
      && post.written == pre.written + FileNames(anchors)
      && post.record == Underway(pre.record, anchors)
    case FinalRecordFailed(n) =>
      && !InSync(pre.record, anchors, pre.files) && n == |anchors| && !recorded
      && post.files == Final(pre, anchors)
      && post.written == pre.written + FileNames(anchors)
      && post.record == Underway(pre.record, anchors)
    case Synced(n) =>
      && !InSync(pre.record, anchors, pre.files) && n == |anchors|
      && post.files == Final(pre, anchors)
      && post.written == pre.written + FileNames(anchors)
      && post.record.certs == BundleMap(anchors) && !post.record.pending
      && post.applied
    case _ => post == pre
  }

  /** The directory a run that gets through leaves: half-written files swept, the bundle's
      anchors in place, retired anchors gone, everything else as it was. */
  ghost function Final(pre: Host, anchors: seq<Anchor>): Files {
    Place(WithoutTemps(pre.files), anchors)
    - NamesOf(pre.record.certs, RetiredSet(pre.record.certs, BundleMap(anchors)))
  }

  /** The bundle a run works on: none is needed when it stops before having parsed one. */
  ghost predicate RunMayLeave(pre: Host, fetched: Bundle, ext: string, outcome: Outcome, recorded: bool, post: Host) {
    match Parsed(fetched, ext)
    case Err(_) => (outcome.Disabled? || outcome.FetchFailed? || outcome.ParseFailed?) && post == pre
    case Ok(anchors) => !outcome.ParseFailed? && MayLeave(pre, anchors, outcome, recorded, post)
  }

  lemma ParsedIsDistinct(fetched: Bundle, ext: string)
    requires Parsed(fetched, ext).Ok?
    ensures DistinctFingerprints(Parsed(fetched, ext).value)
    ensures forall a :: a in Parsed(fetched, ext).value ==> !IsTemp(a.fileName)
  {
    FirstBadFindsNone(fetched.blocks);
    DedupIsDistinct(fetched.blocks, ext);
    forall a | a in Parsed(fetched, ext).value
      ensures !IsTemp(a.fileName)
    {
      var i := DedupOrigin(fetched.blocks, ext, a);
      AnchorsAreNotTemp(fetched.blocks[i].cert, ext);
    }
  }

  lemma OneMoreName(certs: map<Fingerprint, string>, gone: set<Fingerprint>, fp: Fingerprint, files: Files)
    requires fp in certs
    ensures files - NamesOf(certs, gone) - {certs[fp]} == files - NamesOf(certs, gone + {fp})
  {
    assert NamesOf(certs, gone + {fp}) == NamesOf(certs, gone) + {certs[fp]};
  }

  lemma OneMoreCarried(prev: Record, next: Record, gone: set<Fingerprint>, todo: set<Fingerprint>, fp: Fingerprint)
    requires fp in todo && fp in prev.certs
    ensures var carried := CarryInto(prev, next, gone + todo);
            CarryInto(prev, next, gone + (todo - {fp})) ==
            if fp in carried.certs || fp in gone then carried
            else carried.(certs := carried.certs[fp := prev.certs[fp]])
  {
    var a, b := CarryInto(prev, next, gone + todo).certs, CarryInto(prev, next, gone + (todo - {fp})).certs;
    if fp in a || fp in gone {
      assert a == b;
    } else {
      assert b == a[fp := prev.certs[fp]];
    }
  }

  lemma OneLessToDo<T>(all: set<T>, todo: set<T>, x: T)
    requires x in todo
    ensures all - (todo - {x}) == if x in all then all - todo + {x} else all - todo
    ensures x in all ==> all - todo < all
  {
    if x in all {
      assert x !in all - todo;
    }
  }

  // ---- The run itself ----

  /** `filepath.Ext` cut off: everything before the last dot of the last path element. */
  function Stem(name: string): string {
    var dot := LastDot(name, |name|);
    if dot < 0 then name else name[..dot]
  }

  function LastDot(name: string, i: nat): (dot: int)
    requires i <= |name|
    ensures -1 <= dot < |name|
  {
    if i == 0 || name[i - 1] == '/' then -1
    else if name[i - 1] == '.' then i - 1
    else LastDot(name, i - 1)
  }

  lemma {:induction false} LastDotOf(name: string, i: nat, dot: nat)
    requires dot < i <= |name| && name[dot] == '.'
    requires forall j :: dot < j < i ==> name[j] != '.' && name[j] != '/'
    ensures LastDot(name, i) == dot
  {
    if dot + 1 < i {
      LastDotOf(name, i - 1, dot);
    }
  }

  /** The temporary name drops exactly the extension. */
  lemma StemDropsExtension(base: string, ext: string)
    requires '.' !in ext && '/' !in ext
    ensures Stem(base + ['.'] + ext) == base
  {
    var name := base + ['.'] + ext;
    assert forall j :: |base| < j < |name| ==> name[j] == ext[j - |base| - 1];
    LastDotOf(name, |name|, |base|);
  }

  datatype Removal = Removed | Missing | Unremovable

  class Machine {
    var files: Files
    var record: Record
    ghost var written: set<string>
    ghost var applied: bool
    /** Every attempt to write the record in the current run succeeded. */
    ghost var recorded: bool

    ghost function View(): Host
      reads this
    {
      Host(files, record, written, applied)
    }

    constructor (files: Files)
      ensures View() == Host(files, NO_RECORD, {}, true)
    {
      this.files, record := files, NO_RECORD;
      written, applied, recorded := {}, true, true;
    }

    method WriteRecord(next: Record) returns (ok: bool)
      modifies this`record, this`recorded
      ensures recorded == (old(recorded) && ok)
      ensures record == if ok then next else old(record)
    {
      ok := *;
      if ok {
        record := next;
      } else {
        recorded := false;
      }
    }

    method RemoveFile(name: string) returns (r: Removal)
      modifies this`files, this`applied
      ensures r != Removed ==> files == old(files) && applied == old(applied)
      ensures r == Missing ==> name !in files
      ensures r == Removed ==> name in old(files) && files == old(files) - {name} && !applied
    {
      var fails: bool := *;
      if fails { return Unremovable; }
      if name !in files { return Missing; }
      files := files - {name};
      applied := false;
      return Removed;
    }

    /** Deletes half-written files, in whatever order the directory lists them. */
    method SweepStaleTempAnchors() returns (ok: bool)
      modifies this`files, this`applied
      ensures files.Keys <= old(files).Keys && WithoutTemps(files) == WithoutTemps(old(files))
      ensures ok ==> files == WithoutTemps(old(files))
      ensures forall n :: n in old(files) && !(".vaultls-tmp-" <= n) ==> n in files
      ensures forall n :: n in files ==> n in old(files) && files[n] == old(files)[n]
      ensures ok ==> forall n :: n in files ==> !(".vaultls-tmp-" <= n)
      ensures if files == old(files) then applied == old(applied) else !applied
    {
      ok := *;
      if !ok { return; }
      var todo := files.Keys;
      while todo != {}
        invariant todo <= old(files).Keys
        invariant files.Keys <= old(files).Keys && forall n :: n in files ==> files[n] == old(files)[n]
        invariant forall n :: n in old(files) && !IsTemp(n) ==> n in files
        invariant forall n :: n in files && IsTemp(n) ==> n in todo
        invariant if files == old(files) then applied == old(applied) else !applied
        decreases |todo|
      {
        var n :| n in todo;
        todo := todo - {n};
        if !IsTemp(n) { continue; }
        var r := RemoveFile(n);
        if r == Unremovable {
          return false;
        }
      }
      return true;
    }

    /** Temporary file, mode, rename into place; any of the three can fail. */
    method WriteAnchor(a: Anchor) returns (ok: bool)
      requires !IsTemp(a.fileName)
      modifies this`files, this`applied, this`written
      ensures written == old(written) + if ok then {a.fileName} else {}
      ensures WithoutTemps(files)
              == if ok then WithoutTemps(old(files))[a.fileName := a.pem] else WithoutTemps(old(files))
      ensures ok && NoTemps(old(files)) ==> NoTemps(files) && files == old(files)[a.fileName := a.pem]
    {
      var tmp := TEMP_PREFIX + Stem(a.fileName);
      assert IsTemp(tmp);
      var wrote: bool := *;
      if !wrote {
        var partial: bool, rest: seq<Byte> := *, *;
        if partial {
          files := files[tmp := rest];
          applied := false;
        }
        return false;
      }
      files := files[tmp := a.pem];
      applied := false;
      var chmodOk: bool, renameOk: bool := *, *;
      if !chmodOk || !renameOk { return false; }
      files := (files - {tmp})[a.fileName := a.pem];
      written := written + {a.fileName};
      return true;
    }

    /** Whether the directory has to be rewritten. */
    method NeedsSync(prev: Record, anchors: seq<Anchor>) returns (needed: bool)
      requires DistinctFingerprints(anchors)
      ensures needed <==> !InSync(prev, anchors, files)
    {
      BundleMapLooksUp(anchors);
      if prev.pending || |prev.certs| != |anchors| {
        return true;
      }
      for i := 0 to |anchors|
        invariant forall j :: 0 <= j < i ==>
                    && anchors[j].fingerprint in prev.certs
                    && prev.certs[anchors[j].fingerprint] == anchors[j].fileName
                    && anchors[j].fileName in files
      {
        var a := anchors[i];
        if a.fingerprint !in prev.certs || prev.certs[a.fingerprint] != a.fileName {
          return true;
        }
        if a.fileName !in files {
          return true;
        }
      }
      SameSizeSameMap(prev.certs, anchors);
      return false;
    }

    /** Puts the bundle's anchors in place one by one; on a failure the record is made to own
        what is there now and everything the previous run left. */
    method PlaceAnchors(prev: Record, anchors: seq<Anchor>) returns (placed: nat, next: Record)
      requires prev == record && recorded && NoTemps(files)
      requires forall i :: 0 <= i < |anchors| ==> !IsTemp(anchors[i].fileName)
      modifies this
      ensures placed <= |anchors|
      ensures next == Underway(prev, anchors[..placed])
      ensures written == old(written) + FileNames(anchors[..placed])
      ensures HoldsAnchors(files, anchors[..placed])
      ensures placed < |anchors| ==>
                && WithoutTemps(files) == Place(old(files), anchors[..placed])
                && record == (if recorded then Union(prev, next) else prev)
      ensures placed == |anchors| ==> files == Place(old(files), anchors) && record == prev && recorded
    {
      next := Record(map[], true, prev.lastSync);
      placed := 0;
      while placed < |anchors|
        invariant placed <= |anchors|
        invariant next == Underway(prev, anchors[..placed])
        invariant files == Place(old(files), anchors[..placed]) && NoTemps(files)
        invariant written == old(written) + FileNames(anchors[..placed])
        invariant record == prev && recorded
      {
        var a := anchors[placed];
        var ok := WriteAnchor(a);
        if !ok {
          PlaceHoldsAll(old(files), anchors[..placed], files);
          var _ := WriteRecord(Union(prev, next));
          return;
        }
        next := next.(certs := next.certs[a.fingerprint := a.fileName]);
        assert anchors[..placed + 1][..placed] == anchors[..placed];
        assert FileNames(anchors[..placed + 1]) == FileNames(anchors[..placed]) + {a.fileName};
        placed := placed + 1;
      }
      assert anchors[..|anchors|] == anchors;
      PlaceHoldsAll(old(files), anchors, files);
    }

    /** Removes one anchor of the previous run unless the bundle still carries it. */
    method RetireOne(prev: Record, next: Record, fp: Fingerprint) returns (ok: bool, retired: bool)
      requires fp in prev.certs
      modifies this`files, this`applied
      ensures ok ==> (retired <==> IsRetired(prev.certs, next.certs, fp))
      ensures !ok ==> IsRetired(prev.certs, next.certs, fp) && !retired
      ensures files == if retired then old(files) - {prev.certs[fp]} else old(files)
    {
      if fp in next.certs { return true, false; }
      var r := RemoveFile(prev.certs[fp]);
      if r == Unremovable { return false, false; }
      return true, true;
    }

    /** Removes the retired anchors in whatever order the map yields them, up to the first that
        cannot be removed. */
    method RemoveRetired(prev: Record, next: Record) returns (ok: bool, gone: set<Fingerprint>)
      modifies this`files, this`applied
      ensures files == old(files) - NamesOf(prev.certs, gone)
      ensures if ok then gone == RetiredSet(prev.certs, next.certs) else gone < RetiredSet(prev.certs, next.certs)
    {
      gone := {};
      assert files - NamesOf(prev.certs, gone) == files;
      ghost var all := RetiredSet(prev.certs, next.certs);
      var todo := prev.certs.Keys;
      assert all - todo == {};
      while todo != {}
        invariant todo <= prev.certs.Keys
        invariant gone == all - todo
        invariant files == old(files) - NamesOf(prev.certs, gone)
        decreases |todo|
      {
        var fp :| fp in todo;
        var good, retired := RetireOne(prev, next, fp);
        OneLessToDo(all, todo, fp);
        if !good {
          return false, gone;
        }
        if retired {
          OneMoreName(prev.certs, gone, fp, old(files));
          gone := gone + {fp};
        }
        todo := todo - {fp};
      }
      assert all - todo == all;
      return true, gone;
    }

    /** On a failure the anchors not removed stay on record. */
    method RetireAnchors(prev: Record, next: Record) returns (ok: bool, gone: set<Fingerprint>)
      requires prev == record && recorded
      modifies this`files, this`applied, this`record, this`recorded
      ensures files == old(files) - NamesOf(prev.certs, gone)
      ensures ok ==> gone == RetiredSet(prev.certs, next.certs) && record == prev && recorded
      ensures !ok ==>
                && gone < RetiredSet(prev.certs, next.certs)
                && record == (if recorded then CarryInto(prev, next, gone) else prev)
    {
      ok, gone := RemoveRetired(prev, next);
      if !ok {
        KeepOnRecord(prev, next, gone);
      }
    }

    /** Every anchor of the previous run that is neither kept nor gone is put back on the new
        record, in whatever order the map yields them. */
    method CarryOver(prev: Record, next: Record, gone: set<Fingerprint>) returns (carried: Record)
      ensures carried == CarryInto(prev, next, gone)
    {
      carried := next;
      var todo := prev.certs.Keys;
      assert CarryInto(prev, next, gone + todo).certs == next.certs;
      while todo != {}
        invariant todo <= prev.certs.Keys
        invariant carried == CarryInto(prev, next, gone + todo)
        decreases |todo|
      {
        var fp :| fp in todo;
        OneMoreCarried(prev, next, gone, todo, fp);
        if fp !in carried.certs && fp !in gone {
          carried := carried.(certs := carried.certs[fp := prev.certs[fp]]);
        }
        todo := todo - {fp};
      }
      assert gone + todo == gone;
    }

    method KeepOnRecord(prev: Record, next: Record, gone: set<Fingerprint>)
      requires prev == record && recorded
      modifies this`record, this`recorded
      ensures record == (if recorded then CarryInto(prev, next, gone) else prev)
    {
      var carried := CarryOver(prev, next, gone);
      var _ := WriteRecord(carried);
    }

    /** One run. */
    method Sync(enabled: bool, fetched: Bundle, ext: string, now: int) returns (outcome: Outcome)
      modifies this
      ensures RunMayLeave(old(View()), fetched, ext, outcome, recorded, View())
      ensures record.lastSync == if outcome.Synced? then now else old(record.lastSync)
      ensures !enabled <==> outcome.Disabled?
    {
      recorded := true;
      if !enabled { return Disabled; }
      var fetchOk: bool := *;
      if !fetchOk { return FetchFailed; }
      var parsed := ParseBundle(fetched, ext);
      if parsed.Err? { return ParseFailed; }
      var anchors := parsed.value;
      ParsedIsDistinct(fetched, ext);
      var readOk: bool := *;
      if !readOk { return ReadFailed; }
      var prev := record;
      var needed := NeedsSync(prev, anchors);
      if !needed { return UpToDate(|anchors|); }
      outcome := Rewrite(prev, anchors, now);
    }

    /** The run once it is known that something has to change. */
    method Rewrite(prev: Record, anchors: seq<Anchor>, now: int) returns (outcome: Outcome)
      requires prev == record && recorded && !InSync(prev, anchors, files)
      requires forall i :: 0 <= i < |anchors| ==> !IsTemp(anchors[i].fileName)
      modifies this
      ensures MayLeave(old(View()), anchors, outcome, recorded, View())
      ensures record.lastSync == if outcome.Synced? then now else old(record.lastSync)
      ensures !outcome.Disabled? && !outcome.FetchFailed? && !outcome.ParseFailed?
    {
      var mkdirOk: bool := *;
      if !mkdirOk { return MkdirFailed; }
      var swept := SweepStaleTempAnchors();
      if !swept { return SweepFailed; }

      var placed, next := PlaceAnchors(prev, anchors);
      if placed < |anchors| { return WriteFailed(placed); }
      assert anchors[..placed] == anchors;
      var retired, gone := RetireAnchors(prev, next);
      if !retired { return RemoveFailed(gone); }

      outcome := Apply(prev, next, |anchors|, now);
    }

    /** Records the run as outstanding, runs the update command and records that it ran. */
    method Apply(prev: Record, next: Record, n: nat, now: int) returns (outcome: Outcome)
      requires record == prev && recorded && next.pending
      modifies this`record, this`recorded, this`applied
      ensures match outcome
              case RecordFailed => !recorded && record == prev
              case UpdateFailed(k) => k == n && recorded && record == next
              case FinalRecordFailed(k) => k == n && !recorded && record == next
              case Synced(k) => k == n && recorded && applied && record == next.(pending := false, lastSync := now)
              case _ => false
    {
      var ok := WriteRecord(next);
      if !ok { return RecordFailed; }
      var commandOk: bool := *;
      if !commandOk { return UpdateFailed(n); }
      applied := true;
      ok := WriteRecord(next.(pending := false, lastSync := now));
      if !ok { return FinalRecordFailed(n); }
      return Synced(n);
    }
  }
}
