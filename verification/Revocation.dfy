/** What the stored tables say about revocation: which versions a CA's revocation list has
    to carry, which ones the two queries behind it actually find, and what the public
    validation lookup may answer for a serial. */
module Revocation {
  import opened Prelude
  import Hex
  import opened CertStore

  datatype CrlEntry = CrlEntry(serial: seq<Byte>, revokedAt: int)

  datatype StatusRow = StatusRow(
    createdOn: int, validUntil: int, revokedAt: Option<int>, caId: Option<int>, superseded: bool)

  datatype Status = Valid | Revoked | Expired | NotYetValid

  /** `compute_cert_status`: revocation first, then the validity window. */
  function StatusAt(now: int, row: StatusRow): Status {
    if row.revokedAt.Some? then Revoked
    else if now > row.validUntil then Expired
    else if now < row.createdOn then NotYetValid
    else Valid
  }

  /** What the four answers mean: revoked whenever the row is, and otherwise by where the moment
      lies in the version's own validity, both ends included. */
  lemma StatusMeans(now: int, row: StatusRow)
    ensures StatusAt(now, row) == Revoked <==> row.revokedAt != None
    ensures StatusAt(now, row) == Expired <==> row.revokedAt == None && row.validUntil < now
    ensures StatusAt(now, row) == NotYetValid <==>
            row.revokedAt == None && now <= row.validUntil && now < row.createdOn
    ensures StatusAt(now, row) == Valid <==>
            row.revokedAt == None && row.createdOn <= now <= row.validUntil
  {
  }

  // ---- What ought to be on the list ----

  /** The version is of a revoked row and was signed by `ca`. */
  ghost predicate IsRevokedVersion(db: Db, ca: int, k: Key) {
    k in Versions(db) && k.id in db.rows && db.rows[k.id].revokedAt.Some? && Versions(db)[k].caId == Some(ca)
  }

  // ---- What the two queries find ----

  /** Selected by `get_user_certs(None, ca, revoked)`. */
  predicate ListsCurrent(db: Db, ca: int, id: int) {
    id in db.rows && db.rows[id].revokedAt.Some? && db.rows[id].content.caId == Some(ca)
  }

  /** Selected by `get_revoked_history_serials_for_ca`. */
  predicate ListsHistory(db: Db, ca: int, k: Key) {
    && k in db.history && k.id in db.rows && db.rows[k.id].revokedAt.Some?
    && db.history[k].content.caId == Some(ca)
    && db.history[k].content.serialHex.Some? && db.history[k].content.serialHex.value != ""
  }

  /** A listed historical serial that is malformed is skipped. */
  predicate UsableHistory(db: Db, ca: int, k: Key) {
    ListsHistory(db, ca, k) && Hex.Decode(db.history[k].content.serialHex.value).Some?
  }

  /** The current row's serial comes from its bytes, a historical one from its text. */
  ghost predicate IsCrlEntry(db: Db, ca: int, e: CrlEntry) {
    || (exists id :: ListsCurrent(db, ca, id) && db.rows[id].content.blob.serial == Some(e.serial)
                     && db.rows[id].revokedAt == Some(e.revokedAt))
    || (exists k :: UsableHistory(db, ca, k)
                    && Hex.Decode(db.history[k].content.serialHex.value) == Some(e.serial)
                    && db.rows[k.id].revokedAt == Some(e.revokedAt))
  }

  /** Building the list fails when some listed current row's serial cannot be read. */
  ghost predicate CrlBuildable(db: Db, ca: int) {
    forall id :: ListsCurrent(db, ca, id) ==> db.rows[id].content.blob.serial.Some?
  }

  // ---- The validation lookup ----

  predicate MatchesCurrent(db: Db, text: string, id: int) {
    id in db.rows && db.rows[id].content.serialHex == Some(text)
  }

  predicate MatchesHistory(db: Db, text: string, k: Key) {
    k in db.history && k.id in db.rows && db.history[k].content.serialHex == Some(text)
  }

  function CurrentStatus(row: Row): StatusRow {
    StatusRow(row.content.createdOn, row.content.validUntil, row.revokedAt, row.content.caId, false)
  }

  function HistoryStatus(db: Db, k: Key): StatusRow
    requires k in db.history && k.id in db.rows
  {
    var c := db.history[k].content;
    StatusRow(c.createdOn, c.validUntil, db.rows[k.id].revokedAt, c.caId, true)
  }

  /** What `get_cert_status_by_serial_hex` may return: the first matching row, in whatever
      order the database yields them; current rows are asked before the history. */
  ghost predicate MayAnswer(db: Db, text: string, answer: Option<StatusRow>) {
    if exists id :: MatchesCurrent(db, text, id) then
      exists id :: MatchesCurrent(db, text, id) && answer == Some(CurrentStatus(db.rows[id]))
    else if exists k :: MatchesHistory(db, text, k) then
      exists k :: MatchesHistory(db, text, k) && answer == Some(HistoryStatus(db, k))
    else answer == None
  }

  /** White space and colons are dropped and letters lowered before the lookup. */
  function Normalise(text: string): string {
    if text == "" then ""
    else if IsBlank(text[0]) || text[0] == ':' then Normalise(text[1..])
    else [Hex.LowerChar(text[0])] + Normalise(text[1..])
  }

  predicate IsSerialText(s: string) {
    forall i :: 0 <= i < |s| ==> Hex.DigitValue(s[i]).Some? && Hex.LowerChar(s[i]) == s[i]
  }

  lemma {:induction false} EncodeIsSerialText(bytes: seq<Byte>)
    ensures IsSerialText(Hex.Encode(bytes))
  {
    if bytes != [] {
      EncodeIsSerialText(bytes[1..]);
      Hex.DigitRoundTrip(bytes[0] / 16);
      Hex.DigitRoundTrip(bytes[0] % 16);
    }
  }

  lemma {:induction false} NormaliseConcat(a: string, b: string)
    ensures Normalise(a + b) == Normalise(a) + Normalise(b)
  {
    if a == "" {
      assert a + b == b;
    } else {
      NormaliseConcat(a[1..], b);
      NormaliseCons(a[0], a[1..]);
      NormaliseCons(a[0], a[1..] + b);
      assert a == [a[0]] + a[1..];
      assert a + b == [a[0]] + (a[1..] + b);
    }
  }

  lemma NormaliseCons(c: char, t: string)
    ensures Normalise([c] + t) == (if IsBlank(c) || c == ':' then "" else [Hex.LowerChar(c)]) + Normalise(t)
  {
    assert ([c] + t)[1..] == t;
  }

  lemma {:induction false} NormaliseSerialText(s: string)
    requires IsSerialText(s)
    ensures Normalise(s) == s
  {
    if s != "" {
      assert Hex.DigitValue(s[0]).Some? && Hex.LowerChar(s[0]) == s[0];
      assert IsSerialText(s[1..]) by {
        assert forall i :: 0 <= i < |s[1..]| ==> s[1..][i] == s[i + 1];
      }
      NormaliseSerialText(s[1..]);
    }
  }

  /** A serial queried in stored form is looked up as it is. */
  lemma NormaliseOfEncode(bytes: seq<Byte>)
    ensures Normalise(Hex.Encode(bytes)) == Hex.Encode(bytes)
  {
    EncodeIsSerialText(bytes);
    NormaliseSerialText(Hex.Encode(bytes));
  }

  /** White space and colons anywhere in what was typed make no difference. */
  lemma NormaliseIgnores(a: string, c: char, b: string)
    requires IsBlank(c) || c == ':'
    ensures Normalise(a + [c] + b) == Normalise(a + b)
  {
    assert a + [c] + b == a + ([c] + b);
    NormaliseConcat(a, [c] + b);
    NormaliseCons(c, b);
    NormaliseConcat(a, b);
  }

  function UpperChar(c: char): char {
    if 'a' <= c <= 'z' then (c as int - 'a' as int + 'A' as int) as char else c
  }

  function UpperPair(b: Byte): string {
    [UpperChar(Hex.Digit(b / 16)), UpperChar(Hex.Digit(b % 16))]
  }

  /** The way certificate tools show a serial: upper-case pairs separated by colons. */
  function Displayed(bytes: seq<Byte>): string {
    if bytes == [] then ""
    else if |bytes| == 1 then UpperPair(bytes[0])
    else UpperPair(bytes[0]) + ":" + Displayed(bytes[1..])
  }

  lemma NormaliseUpperPair(b: Byte)
    ensures Normalise(UpperPair(b)) == [Hex.Digit(b / 16), Hex.Digit(b % 16)]
  {
    var hi, lo := UpperChar(Hex.Digit(b / 16)), UpperChar(Hex.Digit(b % 16));
    assert UpperPair(b) == [hi] + [lo] && [lo] == [lo] + "";
    NormaliseCons(hi, [lo]);
    NormaliseCons(lo, "");
  }

  /** A serial copied from a certificate tool finds the stored one. */
  lemma {:induction false} NormaliseOfDisplayed(bytes: seq<Byte>)
    ensures Normalise(Displayed(bytes)) == Hex.Encode(bytes)
  {
    if bytes != [] {
      NormaliseUpperPair(bytes[0]);
      NormaliseOfDisplayed(bytes[1..]);
      if |bytes| > 1 {
        NormaliseConcat(UpperPair(bytes[0]), ":" + Displayed(bytes[1..]));
        NormaliseCons(':', Displayed(bytes[1..]));
        assert Displayed(bytes) == UpperPair(bytes[0]) + (":" + Displayed(bytes[1..]));
      } else {
        assert Hex.Encode(bytes[1..]) == "";
      }
    }
  }

  datatype ValidateReply = MissingSerial | Unknown | Known(status: Status, row: StatusRow)

  /** What the public endpoint may reply to a serial as typed. */
  ghost predicate MayReply(db: Db, serial: string, now: int, reply: ValidateReply) {
    match reply
    case MissingSerial => Normalise(serial) == ""
    case Unknown => Normalise(serial) != "" && MayAnswer(db, Normalise(serial), None)
    case Known(status, row) =>
      Normalise(serial) != "" && MayAnswer(db, Normalise(serial), Some(row)) && status == StatusAt(now, row)
  }

  // ---- Agreement ----

  /** Serials were readable when stored, and the text column holds them. Versions that no
      CA of this system signed (ACME client certificates) may lack the text. */
  predicate SerialRecorded(c: Content) {
    && c.blob.serial.Some? && c.blob.serial.value != []
    && (c.caId.Some? ==> c.serialHex == Some(Hex.Encode(c.blob.serial.value)))
    && (c.serialHex.Some? && c.serialHex.value != "" ==> c.serialHex.value == Hex.Encode(c.blob.serial.value))
  }

  ghost predicate SerialsRecorded(db: Db) {
    && (forall id :: id in db.rows ==> SerialRecorded(db.rows[id].content))
    && (forall k :: k in db.history ==> SerialRecorded(db.history[k].content))
  }

  ghost predicate SerialsDistinct(db: Db) {
    forall j, k :: j in Versions(db) && k in Versions(db) && j != k
      ==> Versions(db)[j].blob.serial != Versions(db)[k].blob.serial
  }

  /** The list computed for a CA is exactly the serials of all current and surviving
      historical versions it signed whose row is revoked, each with the row's revocation
      time; it can always be built. */
  lemma CrlIsExact(db: Db, ca: int, e: CrlEntry)
    requires HistoryBelow(db) && SerialsRecorded(db)
    ensures CrlBuildable(db, ca)
    ensures IsCrlEntry(db, ca, e) <==>
            exists k :: IsRevokedVersion(db, ca, k) && Versions(db)[k].blob.serial == Some(e.serial)
                        && db.rows[k.id].revokedAt == Some(e.revokedAt)
  {
    if k :| UsableHistory(db, ca, k)
            && Hex.Decode(db.history[k].content.serialHex.value) == Some(e.serial)
            && db.rows[k.id].revokedAt == Some(e.revokedAt)
    {
      Hex.DecodeOfEncode(db.history[k].content.blob.serial.value);
      assert !IsCurrent(db, k) && IsRevokedVersion(db, ca, k);
    }
    if id :| ListsCurrent(db, ca, id) && db.rows[id].content.blob.serial == Some(e.serial)
             && db.rows[id].revokedAt == Some(e.revokedAt)
    {
      assert IsCurrent(db, Key(id, db.rows[id].version));
      assert IsRevokedVersion(db, ca, Key(id, db.rows[id].version));
    }
    if k :| IsRevokedVersion(db, ca, k) && Versions(db)[k].blob.serial == Some(e.serial)
            && db.rows[k.id].revokedAt == Some(e.revokedAt)
    {
      if IsCurrent(db, k) {
        assert ListsCurrent(db, ca, k.id);
      } else {
        Hex.DecodeOfEncode(e.serial);
        assert |Hex.Encode(e.serial)| == 2 * |e.serial|;
        assert UsableHistory(db, ca, k);
      }
    }
  }

  lemma SerialTextIdentifies(db: Db, serial: seq<Byte>, j: Key, k: Key)
    requires SerialsRecorded(db) && SerialsDistinct(db) && serial != []
    requires j in Versions(db) && k in Versions(db)
    requires Versions(db)[j].blob.serial == Some(serial)
    requires Versions(db)[k].serialHex == Some(Hex.Encode(serial))
    requires HistoryBelow(db)
    ensures j == k
  {
    var c := Versions(db)[k];
    assert SerialRecorded(c) by {
      if !IsCurrent(db, k) {
        assert k in db.history;
      }
    }
    Hex.EncodeInjective(c.blob.serial.value, serial);
  }

  /** Every answer the lookup can give for a serial on record is that version's own. */
  lemma LookupFindsTheVersion(db: Db, serial: seq<Byte>, j: Key, answer: Option<StatusRow>)
    requires HistoryBelow(db) && SerialsRecorded(db) && SerialsDistinct(db)
    requires j in Versions(db) && Versions(db)[j].blob.serial == Some(serial)
    requires Versions(db)[j].serialHex == Some(Hex.Encode(serial))
    requires MayAnswer(db, Hex.Encode(serial), answer)
    ensures answer.Some? && answer.value.caId == Versions(db)[j].caId
    ensures j.id in db.rows && answer.value.revokedAt == db.rows[j.id].revokedAt
    ensures answer.value.validUntil == Versions(db)[j].validUntil
    ensures answer.value.createdOn == Versions(db)[j].createdOn
    ensures answer.value.superseded <==> !IsCurrent(db, j)
  {
    var text := Hex.Encode(serial);
    assert serial != [] by {
      assert SerialRecorded(if IsCurrent(db, j) then db.rows[j.id].content else db.history[j].content);
    }
    if IsCurrent(db, j) {
      assert MatchesCurrent(db, text, j.id);
    } else {
      assert MatchesHistory(db, text, j);
    }
    if id :| MatchesCurrent(db, text, id) && answer == Some(CurrentStatus(db.rows[id])) {
      var k := Key(id, db.rows[id].version);
      assert IsCurrent(db, k);
      SerialTextIdentifies(db, serial, j, k);
    } else {
      var k :| MatchesHistory(db, text, k) && answer == Some(HistoryStatus(db, k));
      assert !IsCurrent(db, k);
      SerialTextIdentifies(db, serial, j, k);
    }
  }

  /** The computed list and the public lookup agree: a serial is on a CA's list exactly when
      every possible answer of the lookup is "revoked, signed by this CA". A renewal that
      moved the row to another CA makes no difference, because both go by the version's
      own CA. */
  lemma CrlAgreesWithLookup(db: Db, ca: int, serial: seq<Byte>, now: int, answer: Option<StatusRow>)
    requires HistoryBelow(db) && SerialsRecorded(db) && SerialsDistinct(db) && serial != []
    requires MayAnswer(db, Hex.Encode(serial), answer)
    ensures (exists at :: IsCrlEntry(db, ca, CrlEntry(serial, at))) <==>
            (answer.Some? && StatusAt(now, answer.value) == Revoked && answer.value.caId == Some(ca))
  {
    if at :| IsCrlEntry(db, ca, CrlEntry(serial, at)) {
      CrlIsExact(db, ca, CrlEntry(serial, at));
      var k :| IsRevokedVersion(db, ca, k) && Versions(db)[k].blob.serial == Some(serial);
      assert SerialRecorded(if IsCurrent(db, k) then db.rows[k.id].content else db.history[k].content);
      LookupFindsTheVersion(db, serial, k, answer);
    }
    if answer.Some? && answer.value.revokedAt.Some? && answer.value.caId == Some(ca) {
      AnswerComesFromAVersion(db, serial, answer);
      var k :| k in Versions(db) && k.id in db.rows && Versions(db)[k].blob.serial == Some(serial)
               && answer.value.revokedAt == db.rows[k.id].revokedAt && answer.value.caId == Versions(db)[k].caId;
      var at := db.rows[k.id].revokedAt.value;
      assert IsRevokedVersion(db, ca, k);
      CrlIsExact(db, ca, CrlEntry(serial, at));
    }
  }

  lemma AnswerComesFromAVersion(db: Db, serial: seq<Byte>, answer: Option<StatusRow>)
    requires HistoryBelow(db) && SerialsRecorded(db) && serial != []
    requires MayAnswer(db, Hex.Encode(serial), answer) && answer.Some?
    ensures exists k :: k in Versions(db) && k.id in db.rows && Versions(db)[k].blob.serial == Some(serial)
                        && answer.value.revokedAt == db.rows[k.id].revokedAt
                        && answer.value.caId == Versions(db)[k].caId
  {
    var text := Hex.Encode(serial);
    assert |text| == 2 * |serial|;
    if id :| MatchesCurrent(db, text, id) && answer == Some(CurrentStatus(db.rows[id])) {
      var k := Key(id, db.rows[id].version);
      assert IsCurrent(db, k);
      Hex.EncodeInjective(db.rows[id].content.blob.serial.value, serial);
    } else {
      var k :| MatchesHistory(db, text, k) && answer == Some(HistoryStatus(db, k));
      assert !IsCurrent(db, k);
      Hex.EncodeInjective(db.history[k].content.blob.serial.value, serial);
    }
  }
}
