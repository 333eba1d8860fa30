/** The certificate tables as the mutable object they are, with the operations written step
    by step, and each tied to its effect on the table values. */
module CertDatabase {
  import opened Prelude
  import Hex
  import opened CertStore
  import opened Revocation

  datatype VersionEntry = VersionEntry(
    version: int, current: bool, createdOn: int, validUntil: int, serialHex: Option<string>,
    fingerprint: Option<string>, replacedAt: Option<int>, replacedBy: Option<int>)

  function CurrentEntry(row: Row): VersionEntry {
    VersionEntry(row.version, true, row.content.createdOn, row.content.validUntil, row.content.serialHex,
                 row.fingerprint, None, None)
  }

  function HistoryEntry(version: int, h: Superseded): VersionEntry {
    VersionEntry(version, false, h.content.createdOn, h.content.validUntil, h.content.serialHex,
                 Some(h.fingerprint), Some(h.replacedAt), h.replacedBy)
  }

  /** An entry shows the content of the version it is listed for. */
  predicate Shows(e: VersionEntry, c: Content) {
    e.createdOn == c.createdOn && e.validUntil == c.validUntil && e.serialHex == c.serialHex
  }

  /** The current version's entry: its own number and fingerprint, never replaced. */
  predicate DescribesCurrent(row: Row, e: VersionEntry) {
    && e.current && e.version == row.version && Shows(e, row.content) && e.fingerprint == row.fingerprint
    && e.replacedAt == None && e.replacedBy == None
  }

  /** A displaced version's entry, with when and by whom it was replaced. */
  predicate DescribesFiled(h: Superseded, e: VersionEntry) {
    && !e.current && Shows(e, h.content) && e.fingerprint == Some(h.fingerprint)
    && e.replacedAt == Some(h.replacedAt) && e.replacedBy == h.replacedBy
  }

  predicate Describes(db: Db, id: int, e: VersionEntry) {
    if e.current then id in db.rows && DescribesCurrent(db.rows[id], e)
    else Key(id, e.version) in db.history && DescribesFiled(db.history[Key(id, e.version)], e)
  }

  /** The answer gives the version's own dates and CA and the row's revocation. */
  predicate Tells(answer: StatusRow, c: Content, revokedAt: Option<int>) {
    && answer.createdOn == c.createdOn && answer.validUntil == c.validUntil && answer.caId == c.caId
    && answer.revokedAt == revokedAt
  }

  /** Every row but one is the same in both tables. */
  ghost predicate OthersSame(rows: map<int, Row>, after: map<int, Row>, id: int) {
    forall j :: j != id ==> (j in after <==> j in rows) && (j in rows ==> after[j] == rows[j])
  }

  /** The listing has the version in its history part. */
  ghost predicate Listed(entries: seq<VersionEntry>, version: int) {
    exists i :: 0 < i < |entries| && entries[i].version == version
  }

  method Newest(s: set<Key>) returns (m: Key)
    requires s != {}
    ensures m in s && forall k :: k in s ==> k.version <= m.version
  {
    m :| m in s;
    var rest := s - {m};
    while rest != {}
      invariant m in s && rest <= s && forall k :: k in s - rest ==> k.version <= m.version
      decreases |rest|
    {
      var k :| k in rest;
      if k.version > m.version { m := k; }
      rest := rest - {k};
    }
  }

  class Database {
    var rows: map<int, Row>
    var history: map<Key, Superseded>

    ghost function View(): Db
      reads this
    {
      Db(rows, history)
    }

    constructor ()
      ensures View() == Db(map[], map[])
    {
      rows, history := map[], map[];
    }

    /** The transaction: file the current version, write the new one under the guard, and
        roll back if the guard turned the row away. */
    method ReplaceCertificate(id: int, actor: Option<int>, now: int, input: ReplaceInput, guard: Guard)
      returns (outcome: ReplaceOutcome)
      modifies this
      ensures (View(), outcome) == Replace(old(View()), id, actor, now, input, guard)
      ensures OthersSame(old(rows), rows, id)
      ensures outcome.Replaced? ==>
                && id in old(rows) && id in rows && old(rows)[id].revokedAt == None
                && rows[id].content.blob == input.blob && rows[id].content.password == input.password
                && rows[id].content.createdOn == input.createdOn && rows[id].content.validUntil == input.validUntil
                && rows[id].content.caId == (if input.caId > 0 then Some(input.caId) else old(rows)[id].content.caId)
                && rows[id].version == old(rows)[id].version + 1 && outcome.version == rows[id].version
                && Key(id, old(rows)[id].version) in history
                && history[Key(id, old(rows)[id].version)].content == old(rows)[id].content
      ensures !outcome.Replaced? ==> rows == old(rows) && history == old(history)
    {
      if id !in rows {
        return NoSuchCertificate;
      }
      var savedRows, savedHistory := rows, history;
      var row := rows[id];
      var filed := Key(id, row.version);
      if filed in history {
        return VersionTaken;
      }
      history := history[filed := Displace(row, now, actor)];
      var next := row.version + 1;
      var affected := 0;
      if Admits(guard, row) {
        rows := rows[id := Renewed(row, input)];
        affected := 1;
      }
      if affected == 0 {
        rows, history := savedRows, savedHistory;
        return NotReplaceable;
      }
      outcome := Replaced(next);
    }

    method InsertCertificate(id: int, row: Row)
      modifies this
      ensures View() == InsertRow(old(View()), id, row)
      ensures rows == if id in old(rows) then old(rows) else old(rows)[id := row]
      ensures history == old(history)
    {
      if id !in rows {
        rows := rows[id := row];
      }
    }

    /** The foreign key cascades: the history goes with its row. */
    method DeleteCertificate(id: int)
      modifies this
      ensures View() == DeleteRow(old(View()), id)
      ensures id !in rows && OthersSame(old(rows), rows, id)
      ensures forall k :: k in history <==> k in old(history) && k.id != id
      ensures forall k :: k in history ==> history[k] == old(history)[k]
    {
      rows := rows - {id};
      history := map k | k in history && k.id != id :: history[k];
    }

    method DeleteCertificateVersion(id: int, version: int) returns (deleted: bool)
      modifies this
      ensures View() == DeleteVersion(old(View()), id, version)
      ensures rows == old(rows)
      ensures forall k :: k in history <==> k in old(history) && !(k.id == id && k.version == version)
      ensures forall k :: k in history ==> history[k] == old(history)[k]
      ensures deleted <==> Key(id, version) in old(history)
    {
      deleted := Key(id, version) in history;
      history := history - {Key(id, version)};
    }

    method RevokeCertificate(id: int, now: int)
      modifies this
      ensures View() == RevokeRow(old(View()), id, now)
      ensures history == old(history) && OthersSame(old(rows), rows, id)
      ensures id in rows <==> id in old(rows)
      ensures id in rows ==>
                && rows[id].revokedAt == Some(now)
                && rows[id].(revokedAt := old(rows)[id].revokedAt) == old(rows)[id]
    {
      if id in rows {
        rows := rows[id := rows[id].(revokedAt := Some(now))];
      }
    }

    method SetCertSerial(id: int, serialHex: string)
      modifies this
      ensures View() == SetSerial(old(View()), id, serialHex)
      ensures history == old(history) && OthersSame(old(rows), rows, id)
      ensures id in rows <==> id in old(rows)
      ensures id in rows ==>
                && rows[id].content.serialHex == Some(serialHex)
                && rows[id].content.(serialHex := None) == old(rows)[id].content.(serialHex := None)
                && rows[id].(content := old(rows)[id].content) == old(rows)[id]
    {
      if id in rows {
        var row := rows[id];
        rows := rows[id := row.(content := row.content.(serialHex := Some(serialHex)))];
      }
    }

    method UpdateRenewMethod(id: int, renewMethod: RenewMethod)
      modifies this
      ensures View() == SetRenewMethod(old(View()), id, renewMethod)
      ensures history == old(history) && OthersSame(old(rows), rows, id)
      ensures id in rows <==> id in old(rows)
      ensures id in rows ==>
                && rows[id].renewMethod == renewMethod
                && rows[id].(renewMethod := old(rows)[id].renewMethod) == old(rows)[id]
    {
      if id in rows {
        rows := rows[id := rows[id].(renewMethod := renewMethod)];
      }
    }

    /** The row's history in descending order of version. */
    method HistoryDescending(id: int) returns (keys: seq<Key>)
      ensures forall k :: k in keys <==> k in history && k.id == id
      ensures forall i, j :: 0 <= i < j < |keys| ==> keys[i].version > keys[j].version
    {
      keys := [];
      var todo := set k | k in history && k.id == id;
      while todo != {}
        invariant forall k :: k in todo ==> k in history && k.id == id
        invariant forall k :: k in history && k.id == id ==> k in todo || k in keys
        invariant forall k :: k in keys ==> k in history && k.id == id
        invariant forall i, k :: 0 <= i < |keys| && k in todo ==> keys[i].version > k.version
        invariant forall i, j :: 0 <= i < j < |keys| ==> keys[i].version > keys[j].version
        decreases |todo|
      {
        var k := Newest(todo);
        todo := todo - {k};
        assert forall j :: j in todo ==> j.version < k.version by {
          forall j | j in todo
            ensures j.version < k.version
          {
            assert j.id == k.id && j != k;
          }
        }
        keys := keys + [k];
      }
    }

    /** All versions, newest first, the current one ahead of the history. */
    method ListCertificateVersions(id: int) returns (entries: seq<VersionEntry>)
      ensures id !in rows ==> entries == []
      ensures id in rows ==>
                && entries != [] && DescribesCurrent(rows[id], entries[0])
                && (forall i :: 0 <= i < |entries| ==> Describes(View(), id, entries[i]))
                && (forall i :: 0 < i < |entries| ==> !entries[i].current)
                && (forall v :: Key(id, v) in history ==> Listed(entries, v))
                && (forall i, j :: 0 < i < j < |entries| ==> entries[i].version > entries[j].version)
      ensures HistoryBelow(View()) ==>
                && (forall i, j :: 0 <= i < j < |entries| ==> entries[i].version > entries[j].version)
                && (forall v :: GetVersion(View(), id, v).Some? <==>
                                (id in rows && v == rows[id].version) || Listed(entries, v))
    {
      if id !in rows {
        return [];
      }
      var keys := HistoryDescending(id);
      entries := [CurrentEntry(rows[id])];
      for n := 0 to |keys|
        invariant |entries| == n + 1 && entries[0] == CurrentEntry(rows[id])
        invariant forall i :: 0 <= i < |keys| ==> keys[i] in history
        invariant forall i :: 0 < i <= n ==> entries[i] == HistoryEntry(keys[i - 1].version, history[keys[i - 1]])
      {
        assert keys[n] in keys;
        entries := entries + [HistoryEntry(keys[n].version, history[keys[n]])];
      }
      forall i | 0 < i < |entries|
        ensures Key(id, entries[i].version) in history && Describes(View(), id, entries[i])
      {
        assert keys[i - 1] in keys && keys[i - 1] == Key(id, entries[i].version);
      }
      forall v | Key(id, v) in history
        ensures Listed(entries, v)
      {
        var i :| 0 <= i < |keys| && keys[i] == Key(id, v);
        assert entries[i + 1].version == v;
      }
    }

    method GetCertificateVersion(id: int, version: int) returns (r: Option<Stored>)
      ensures r == GetVersion(View(), id, version)
      ensures id in rows && version == rows[id].version ==>
                r == Some(Stored(rows[id].content.blob.bytes, rows[id].content.password))
      ensures id in rows && version != rows[id].version && Key(id, version) in history ==>
                var c := history[Key(id, version)].content;
                r == Some(Stored(c.blob.bytes, c.password))
      ensures id !in rows || (version != rows[id].version && Key(id, version) !in history) ==> r == None
    {
      if id !in rows {
        return None;
      }
      if version == rows[id].version {
        return Some(StoredOf(rows[id].content));
      }
      if Key(id, version) in history {
        return Some(StoredOf(history[Key(id, version)].content));
      }
      return None;
    }

    /** The revoked rows of a CA, in whatever order the database yields them. */
    method GetRevokedCerts(ca: int) returns (ids: seq<int>)
      ensures Distinct(ids)
      ensures forall id :: id in ids <==> ListsCurrent(View(), ca, id)
      ensures forall id :: id in ids <==>
                id in rows && rows[id].revokedAt != None && rows[id].content.caId == Some(ca)
    {
      ids := [];
      var todo := rows.Keys;
      while todo != {}
        invariant todo <= rows.Keys && Distinct(ids)
        invariant forall id :: id in ids <==> id !in todo && ListsCurrent(View(), ca, id)
        decreases |todo|
      {
        SomeElement(todo);
        var id :| id in todo;
        if ListsCurrent(Db(rows, history), ca, id) {
          ids := ids + [id];
        }
        todo := todo - {id};
      }
    }

    method GetRevokedHistorySerials(ca: int) returns (keys: seq<Key>)
      ensures Distinct(keys)
      ensures forall k :: k in keys <==> ListsHistory(View(), ca, k)
      ensures forall k :: k in keys <==>
                && k in history && k.id in rows && rows[k.id].revokedAt != None
                && history[k].content.caId == Some(ca)
                && history[k].content.serialHex != None && history[k].content.serialHex != Some("")
    {
      keys := [];
      var todo := history.Keys;
      while todo != {}
        invariant todo <= history.Keys && Distinct(keys)
        invariant forall k :: k in keys <==> k !in todo && ListsHistory(View(), ca, k)
        decreases |todo|
      {
        var k :| k in todo;
        if ListsHistory(Db(rows, history), ca, k) {
          keys := keys + [k];
        }
        todo := todo - {k};
      }
    }

    /** The entries of a CA's revocation list: one per revoked current row, by the serial in
        its bytes, and one per usable historical serial. Fails when some current serial
        cannot be read; a malformed historical one is skipped. */
    method CreateCrlParams(ca: int) returns (r: Result<seq<CrlEntry>, int>)
      ensures r.Ok? <==> CrlBuildable(View(), ca)
      ensures r.Ok? ==> forall e :: e in r.value <==> IsCrlEntry(View(), ca, e)
    {
      var ids := GetRevokedCerts(ca);
      var entries: seq<CrlEntry> := [];
      assert forall i :: 0 <= i < |ids| ==> ids[i] in ids && ListsCurrent(View(), ca, ids[i]);
      for n := 0 to |ids|
        invariant forall i :: 0 <= i < n ==> ids[i] in rows && rows[ids[i]].revokedAt.Some?
        invariant forall i :: 0 <= i < n ==> rows[ids[i]].content.blob.serial.Some?
        invariant forall i :: 0 <= i < n
                    ==> CrlEntry(rows[ids[i]].content.blob.serial.value, rows[ids[i]].revokedAt.value) in entries
        invariant forall e :: e in entries ==> IsCrlEntry(View(), ca, e)
      {
        assert ListsCurrent(View(), ca, ids[n]);
        var row := rows[ids[n]];
        if row.content.blob.serial.None? {
          return Err(ids[n]);
        }
        var e := CrlEntry(row.content.blob.serial.value, row.revokedAt.value);
        entries := entries + [e];
      }
      var keys := GetRevokedHistorySerials(ca);
      ghost var current := entries;
      for n := 0 to |keys|
        invariant current <= entries
        invariant forall i :: 0 <= i < n && UsableHistory(View(), ca, keys[i])
                    ==> HistoryCrlEntry(View(), ca, keys[i]) in entries
        invariant forall e :: e in entries ==> IsCrlEntry(View(), ca, e)
      {
        var k := keys[n];
        assert k in keys && ListsHistory(View(), ca, k);
        match Hex.Decode(history[k].content.serialHex.value) {
          case Some(bytes) =>
            assert UsableHistory(View(), ca, k);
            entries := entries + [CrlEntry(bytes, rows[k.id].revokedAt.value)];
          case None =>
        }
      }
      forall e | IsCrlEntry(View(), ca, e)
        ensures e in entries
      {
        if id :| ListsCurrent(View(), ca, id) && rows[id].content.blob.serial == Some(e.serial)
                 && rows[id].revokedAt == Some(e.revokedAt)
        {
          assert id in ids;
          assert e in current;
        } else {
          var k :| UsableHistory(View(), ca, k)
                   && Hex.Decode(history[k].content.serialHex.value) == Some(e.serial)
                   && rows[k.id].revokedAt == Some(e.revokedAt);
          assert k in keys && e == HistoryCrlEntry(View(), ca, k);
        }
      }
      assert forall id :: ListsCurrent(View(), ca, id) ==> id in ids;
      r := Ok(entries);
    }

    /** The serials of an SSH CA's revoked current rows, for its key revocation list. */
    method CreateKrlParams(ca: int) returns (r: Result<seq<seq<Byte>>, int>)
      ensures r.Ok? <==> CrlBuildable(View(), ca)
      ensures r.Ok? ==> forall s :: s in r.value <==>
                exists id :: ListsCurrent(View(), ca, id) && rows[id].content.blob.serial == Some(s)
      ensures r.Ok? ==> forall s :: s in r.value ==>
                exists id :: && id in rows && rows[id].revokedAt != None && rows[id].content.caId == Some(ca)
                             && rows[id].content.blob.serial == Some(s)
    {
      var ids := GetRevokedCerts(ca);
      var serials: seq<seq<Byte>> := [];
      assert forall i :: 0 <= i < |ids| ==> ids[i] in ids && ListsCurrent(View(), ca, ids[i]);
      for n := 0 to |ids|
        invariant forall i :: 0 <= i < n ==> ids[i] in rows && rows[ids[i]].revokedAt.Some?
        invariant forall i :: 0 <= i < n ==> rows[ids[i]].content.blob.serial.Some?
        invariant forall i :: 0 <= i < n ==> rows[ids[i]].content.blob.serial.value in serials
        invariant forall s :: s in serials ==>
                    exists id :: ListsCurrent(View(), ca, id) && rows[id].content.blob.serial == Some(s)
      {
        assert ListsCurrent(View(), ca, ids[n]);
        if rows[ids[n]].content.blob.serial.None? {
          return Err(ids[n]);
        }
        serials := serials + [rows[ids[n]].content.blob.serial.value];
      }
      forall s, id | ListsCurrent(View(), ca, id) && rows[id].content.blob.serial == Some(s)
        ensures s in serials
      {
        assert id in ids;
      }
      assert forall id :: ListsCurrent(View(), ca, id) ==> id in ids;
      r := Ok(serials);
    }

    /** Current rows first, then the history. */
    method GetCertStatus(text: string) returns (answer: Option<StatusRow>)
      ensures MayAnswer(View(), text, answer)
      ensures answer.Some? && !answer.value.superseded ==>
                exists id :: id in rows && rows[id].content.serialHex == Some(text)
                             && Tells(answer.value, rows[id].content, rows[id].revokedAt)
      ensures answer.Some? && answer.value.superseded ==>
                && (forall id :: id in rows ==> rows[id].content.serialHex != Some(text))
                && exists k :: k in history && k.id in rows && history[k].content.serialHex == Some(text)
                               && Tells(answer.value, history[k].content, rows[k.id].revokedAt)
      ensures answer.None? ==>
                && (forall id :: id in rows ==> rows[id].content.serialHex != Some(text))
                && (forall k :: k in history && k.id in rows ==> history[k].content.serialHex != Some(text))
    {
      var ids := rows.Keys;
      while ids != {}
        invariant ids <= rows.Keys
        invariant forall id :: MatchesCurrent(View(), text, id) ==> id in ids
        decreases |ids|
      {
        SomeElement(ids);
        var id :| id in ids;
        if rows[id].content.serialHex == Some(text) {
          assert MatchesCurrent(View(), text, id);
          assert Tells(CurrentStatus(rows[id]), rows[id].content, rows[id].revokedAt);
          return Some(CurrentStatus(rows[id]));
        }
        ids := ids - {id};
      }
      assert forall id :: id in rows ==> !MatchesCurrent(View(), text, id);
      var keys := history.Keys;
      while keys != {}
        invariant keys <= history.Keys
        invariant forall id :: id in rows ==> rows[id].content.serialHex != Some(text)
        invariant forall k :: MatchesHistory(View(), text, k) ==> k in keys
        decreases |keys|
      {
        var k :| k in keys;
        if history[k].content.serialHex == Some(text) && k.id in rows {
          assert MatchesHistory(View(), text, k);
          assert Tells(HistoryStatus(View(), k), history[k].content, rows[k.id].revokedAt);
          return Some(HistoryStatus(Db(rows, history), k));
        }
        keys := keys - {k};
      }
      assert forall k :: k in history && k.id in rows ==> !MatchesHistory(View(), text, k);
      return None;
    }

    /** The public lookup: normalise, search, judge by the clock. */
    method ValidateCertificate(serial: string, now: int) returns (reply: ValidateReply)
      ensures MayReply(View(), serial, now, reply)
      ensures reply.Known? ==>
                var row := reply.row;
                && (reply.status == Revoked <==> row.revokedAt != None)
                && (reply.status == Expired <==> row.revokedAt == None && now > row.validUntil)
                && (reply.status == NotYetValid <==>
                      row.revokedAt == None && now <= row.validUntil && now < row.createdOn)
    {
      var text := Normalise(serial);
      if text == "" {
        return MissingSerial;
      }
      var answer := GetCertStatus(text);
      match answer {
        case None => reply := Unknown;
        case Some(row) => reply := Known(StatusAt(now, row), row);
      }
    }
  }

  ghost function HistoryCrlEntry(db: Db, ca: int, k: Key): CrlEntry
    requires UsableHistory(db, ca, k)
  {
    CrlEntry(Hex.Decode(db.history[k].content.serialHex.value).value, db.rows[k.id].revokedAt.value)
  }
}
