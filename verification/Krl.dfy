/** The key revocation list of an SSH CA: the encoder as it builds its buffers, and a decoder
    written from the format description (PROTOCOL.krl of OpenSSH). */
module Krl {
  import opened Prelude

  type Bytes = seq<Byte>

  const MAGIC: Bytes := [0x53, 0x53, 0x48, 0x4b, 0x52, 0x4c, 0x0a, 0x00]
  const FORMAT_VERSION: nat := 1
  const SECTION_CERTIFICATES: Byte := 1
  const SECTION_SERIAL_LIST: Byte := 0x20

  function Pow256(k: nat): (p: nat)
    ensures p >= 1
  {
    if k == 0 then 1 else 256 * Pow256(k - 1)
  }

  const TWO32: nat := 0x1_0000_0000
  const TWO64: nat := 0x1_0000_0000_0000_0000

  /** The low `k` bytes of a number, most significant first. */
  function BigEndian(n: nat, k: nat): (b: Bytes)
    ensures |b| == k
  {
    if k == 0 then [] else BigEndian(n / 256, k - 1) + [n % 256]
  }

  function FromBigEndian(b: Bytes): nat {
    if b == [] then 0 else FromBigEndian(b[..|b| - 1]) * 256 + b[|b| - 1]
  }

  function U32(n: nat): Bytes { BigEndian(n, 4) }

  function U64(n: nat): Bytes { BigEndian(n, 8) }

  lemma {:induction false} BigEndianRoundTrip(n: nat, k: nat)
    ensures FromBigEndian(BigEndian(n, k)) == n % Pow256(k)
  {
    if k == 0 {
    } else {
      BigEndianRoundTrip(n / 256, k - 1);
      var b := BigEndian(n, k);
      assert b[..k - 1] == BigEndian(n / 256, k - 1);
      DropLowByte(n, Pow256(k - 1));
    }
  }

  lemma DropLowByte(n: nat, p: nat)
    requires p >= 1
    ensures (n / 256) % p * 256 + n % 256 == n % (256 * p)
  {
    var q, r := (n / 256) / p, (n / 256) % p;
    assert n / 256 == p * q + r;
    assert n == (256 * p) * q + (256 * r + n % 256) by {
      assert 256 * (p * q) == (256 * p) * q;
    }
    assert 256 * r + n % 256 < 256 * p;
    RemainderUnique(n, 256 * p, q, 256 * r + n % 256);
  }

  lemma RemainderUnique(n: int, d: int, q: int, r: int)
    requires d > 0 && n == d * q + r && 0 <= r < d
    ensures n % d == r
  {
    var q', r' := n / d, n % d;
    assert n == d * q' + r';
    assert d * (q - q') == r' - r by {
      assert d * q - d * q' == d * (q - q');
    }
    MultipleBelow(d, q - q');
  }

  lemma MultipleBelow(d: int, m: int)
    requires d > 0 && -d < d * m < d
    ensures m == 0
  {
    assert m >= 1 ==> d * m >= d;
    assert m <= -1 ==> d * m <= -d;
  }

  /** Most significant byte first. */
  lemma {:induction false} FirstByteCountsMost(b: Bytes)
    requires b != []
    ensures FromBigEndian(b) == b[0] * Pow256(|b| - 1) + FromBigEndian(b[1..])
  {
    if |b| > 1 {
      var n := |b| - 1;
      FirstByteCountsMost(b[..n]);
      assert b[..n][1..] == b[1..][..n - 1];
      assert b[0] * Pow256(n - 1) * 256 == b[0] * Pow256(n);
    }
  }

  // ---- Decoder, from the format description alone ----

  datatype Parsed<+T> = Parsed(value: T, rest: Bytes)

  function GetNumber(k: nat, b: Bytes): (r: Option<Parsed<nat>>)
    ensures r.Some? ==> |r.value.rest| == |b| - k
  {
    if |b| < k then None else Some(Parsed(FromBigEndian(b[..k]), b[k..]))
  }

  /** A string is its length in four bytes followed by that many bytes. */
  function GetString(b: Bytes): (r: Option<Parsed<Bytes>>)
    ensures r.Some? ==> |b| == 4 + |r.value.value| + |r.value.rest|
  {
    match GetNumber(4, b)
    case None => None
    case Some(Parsed(n, rest)) => if |rest| < n then None else Some(Parsed(rest[..n], rest[n..]))
  }

  /** A certificate section: the CA key, a reserved string and its serial lists. */
  datatype Section = Section(caKey: Bytes, reserved: Bytes, serialLists: seq<seq<nat>>)

  datatype KrlFile = KrlFile(
    formatVersion: nat, version: nat, date: nat, flags: nat, reserved: Bytes, comment: Bytes,
    sections: seq<Section>)

  function GetSerials(b: Bytes): (r: Option<seq<nat>>)
    ensures r.Some? ==> |b| == 8 * |r.value|
  {
    if b == [] then Some([])
    else if |b| < 8 then None
    else
      match GetSerials(b[8..])
      case None => None
      case Some(more) => Some([FromBigEndian(b[..8])] + more)
  }

  /** Subsections other than serial lists are not understood. */
  function GetSubsections(b: Bytes): Option<seq<seq<nat>>>
    decreases |b|
  {
    if b == [] then Some([])
    else if b[0] != 0x20 then None
    else
      match GetString(b[1..])
      case None => None
      case Some(Parsed(data, rest)) =>
        match (GetSerials(data), GetSubsections(rest))
        case (Some(serials), Some(more)) => Some([serials] + more)
        case _ => None
  }

  function GetSection(b: Bytes): Option<Section> {
    match GetString(b)
    case None => None
    case Some(Parsed(caKey, rest)) =>
      match GetString(rest)
      case None => None
      case Some(Parsed(reserved, rest')) =>
        match GetSubsections(rest')
        case None => None
        case Some(lists) => Some(Section(caKey, reserved, lists))
  }

  function GetSections(b: Bytes): Option<seq<Section>>
    decreases |b|
  {
    if b == [] then Some([])
    else if b[0] != 1 then None
    else
      match GetString(b[1..])
      case None => None
      case Some(Parsed(data, rest)) =>
        match (GetSection(data), GetSections(rest))
        case (Some(section), Some(more)) => Some([section] + more)
        case _ => None
  }

  /** Magic, format version, list version, date, flags, reserved, comment, sections. */
  function Decode(b: Bytes): Option<KrlFile> {
    if [0x53, 0x53, 0x48, 0x4b, 0x52, 0x4c, 0x0a, 0x00] <= b then DecodeNumbers(b[8..]) else None
  }

  function DecodeNumbers(b: Bytes): Option<KrlFile> {
    match GetNumber(4, b)
    case None => None
    case Some(Parsed(format, b1)) => DecodeVersion(format, b1)
  }

  function DecodeVersion(format: nat, b: Bytes): Option<KrlFile> {
    match GetNumber(8, b)
    case None => None
    case Some(Parsed(version, b2)) => DecodeDate(format, version, b2)
  }

  function DecodeDate(format: nat, version: nat, b: Bytes): Option<KrlFile> {
    match GetNumber(8, b)
    case None => None
    case Some(Parsed(date, b3)) => DecodeTail(format, version, date, b3)
  }

  function DecodeTail(format: nat, version: nat, date: nat, b: Bytes): Option<KrlFile> {
    match GetNumber(8, b)
    case None => None
    case Some(Parsed(flags, b4)) =>
      match GetString(b4)
      case None => None
      case Some(Parsed(reserved, b5)) =>
        match GetString(b5)
        case None => None
        case Some(Parsed(comment, b6)) =>
          match GetSections(b6)
          case None => None
          case Some(sections) => Some(KrlFile(format, version, date, flags, reserved, comment, sections))
  }

  // ---- Encoder ----

  function Flatten(serials: seq<Bytes>): Bytes {
    if serials == [] then [] else Flatten(serials[..|serials| - 1]) + serials[|serials| - 1]
  }

  /** The section's data: CA key, empty reserved string, one list of serials. Lengths are
      cut to their low four bytes, as the casts to `u32` do. */
  function SectionData(caKey: Bytes, serials: seq<Bytes>): Bytes {
    U32(|caKey|) + caKey + U32(0) + [SECTION_SERIAL_LIST] + U32(|Flatten(serials)|) + Flatten(serials)
  }

  function Body(caKey: Bytes, serials: seq<Bytes>): Bytes {
    [SECTION_CERTIFICATES] + U32(|SectionData(caKey, serials)|) + SectionData(caKey, serials)
  }

  function KrlBytes(version: nat, date: nat, caKey: Bytes, serials: seq<Bytes>): Bytes {
    MAGIC + (U32(FORMAT_VERSION) + (U64(version) + (U64(date) + (Padding() + Body(caKey, serials)))))
  }

  /** Flags, and the empty reserved and comment strings. */
  function Padding(): Bytes {
    U64(0) + (U32(0) + U32(0))
  }

  lemma RightNested(a: Bytes, b: Bytes, c: Bytes, d: Bytes, e: Bytes, f: Bytes)
    ensures a + b + c + d + e + f == a + (b + (c + (d + (e + f))))
  {
    assert e + f + [] == e + f;
    assert c + d + e + f == c + (d + (e + f));
    assert a + b + c + d + e + f == a + b + (c + d + e + f);
  }

  class Authority {
    var crlNumber: nat
    const publicKey: Bytes

    constructor (publicKey: Bytes)
      ensures crlNumber == 0 && this.publicKey == publicKey
    {
      crlNumber := 0;
      this.publicKey := publicKey;
    }

    method SerialList(serials: seq<Bytes>) returns (list: Bytes)
      ensures list == Flatten(serials)
    {
      list := [];
      for i := 0 to |serials|
        invariant list == Flatten(serials[..i])
      {
        assert serials[..i + 1][..i] == serials[..i];
        list := list + serials[i];
      }
      assert serials[..|serials|] == serials;
    }

    /** Bumps the CA's list number and writes the list into growing buffers. */
    method CreateKrl(serials: seq<Bytes>, now: nat) returns (krl: Bytes)
      modifies this
      ensures crlNumber == old(crlNumber) + 1
      ensures krl == KrlBytes(crlNumber, now, publicKey, serials)
    {
      krl := MAGIC;
      krl := krl + U32(FORMAT_VERSION);
      crlNumber := crlNumber + 1;
      krl := krl + U64(crlNumber);
      krl := krl + U64(now);
      ghost var dated := krl;
      krl := krl + U64(0);
      krl := krl + U32(0);
      krl := krl + U32(0);
      assert krl == dated + Padding();

      var sectionData: Bytes := U32(|publicKey|);
      sectionData := sectionData + publicKey;
      sectionData := sectionData + U32(0);
      sectionData := sectionData + [SECTION_SERIAL_LIST];
      var list := SerialList(serials);
      sectionData := sectionData + U32(|list|);
      sectionData := sectionData + list;
      assert sectionData == SectionData(publicKey, serials);

      ghost var header := krl;
      krl := krl + [SECTION_CERTIFICATES];
      krl := krl + U32(|sectionData|);
      krl := krl + sectionData;
      assert krl == header + Body(publicKey, serials);
      RightNested(MAGIC, U32(FORMAT_VERSION), U64(crlNumber), U64(now), Padding(), Body(publicKey, serials));
    }
  }

  // ---- Round trip ----

  ghost predicate EightBytesEach(serials: seq<Bytes>) {
    forall i :: 0 <= i < |serials| ==> |serials[i]| == 8
  }

  function Numbers(serials: seq<Bytes>): seq<nat> {
    seq(|serials|, i requires 0 <= i < |serials| => FromBigEndian(serials[i]))
  }

  lemma Powers()
    ensures Pow256(4) == TWO32 && Pow256(8) == TWO64
  {
    assert Pow256(1) == 256 && Pow256(2) == 0x1_0000 && Pow256(3) == 0x100_0000;
    assert Pow256(5) == 256 * Pow256(4) && Pow256(6) == 256 * Pow256(5) && Pow256(7) == 256 * Pow256(6);
  }

  lemma NumberThen(n: nat, k: nat, rest: Bytes)
    ensures GetNumber(k, BigEndian(n, k) + rest) == Some(Parsed(n % Pow256(k), rest))
  {
    var b := BigEndian(n, k) + rest;
    assert b[..k] == BigEndian(n, k) && b[k..] == rest;
    BigEndianRoundTrip(n, k);
  }

  lemma StringThen(s: Bytes, rest: Bytes)
    requires |s| < TWO32
    ensures GetString(U32(|s|) + s + rest) == Some(Parsed(s, rest))
  {
    assert U32(|s|) + s + rest == U32(|s|) + (s + rest);
    LengthThen(|s|, s + rest);
    assert (s + rest)[..|s|] == s && (s + rest)[|s|..] == rest;
  }

  lemma LengthThen(n: nat, rest: Bytes)
    requires n < TWO32
    ensures GetNumber(4, U32(n) + rest) == Some(Parsed(n, rest))
  {
    Powers();
    FittingNumberThen(n, 4, rest);
  }

  lemma {:induction false} FlattenSize(serials: seq<Bytes>)
    requires EightBytesEach(serials)
    ensures |Flatten(serials)| == 8 * |serials|
  {
    if serials != [] {
      FlattenSize(serials[..|serials| - 1]);
    }
  }

  lemma {:induction false} FlattenCons(s: Bytes, serials: seq<Bytes>)
    ensures Flatten([s] + serials) == s + Flatten(serials)
  {
    if serials == [] {
      assert [s] + serials == [s];
      assert [s][..0] == [];
      assert Flatten([s]) == s;
    } else {
      var n := |serials| - 1;
      assert ([s] + serials)[..n + 1] == [s] + serials[..n];
      FlattenCons(s, serials[..n]);
    }
  }

  lemma {:induction false} SerialsOfFlatten(serials: seq<Bytes>)
    requires EightBytesEach(serials)
    ensures GetSerials(Flatten(serials)) == Some(Numbers(serials))
  {
    if serials != [] {
      var s, rest := serials[0], serials[1..];
      assert serials == [s] + rest;
      FlattenCons(s, rest);
      assert EightBytesEach(rest) by {
        assert forall i :: 0 <= i < |rest| ==> rest[i] == serials[i + 1];
      }
      SerialsOfFlatten(rest);
      assert Flatten(serials)[..8] == s && Flatten(serials)[8..] == Flatten(rest);
      assert Numbers(serials) == [FromBigEndian(s)] + Numbers(rest);
    }
  }

  function Expected(caKey: Bytes, serials: seq<Bytes>): Section {
    Section(caKey, [], [Numbers(serials)])
  }

  lemma SubsectionRoundTrip(serials: seq<Bytes>)
    requires EightBytesEach(serials) && |Flatten(serials)| < TWO32
    ensures GetSubsections([SECTION_SERIAL_LIST] + (U32(|Flatten(serials)|) + Flatten(serials)))
            == Some([Numbers(serials)])
  {
    var list := Flatten(serials);
    var b := [SECTION_SERIAL_LIST] + (U32(|list|) + list);
    assert b[1..] == U32(|list|) + list + [];
    StringThen(list, []);
    SerialsOfFlatten(serials);
    assert GetSubsections([]) == Some([]);
    assert [Numbers(serials)] + [] == [Numbers(serials)];
  }

  lemma SectionRoundTrip(caKey: Bytes, serials: seq<Bytes>)
    requires EightBytesEach(serials) && |SectionData(caKey, serials)| < TWO32
    ensures GetSection(SectionData(caKey, serials)) == Some(Expected(caKey, serials))
  {
    var list := Flatten(serials);
    var subsection := [SECTION_SERIAL_LIST] + (U32(|list|) + list);
    var tail := U32(0) + subsection;
    assert SectionData(caKey, serials) == U32(|caKey|) + caKey + tail;
    StringThen(caKey, tail);
    assert U32(0) + [] + subsection == tail;
    StringThen([], subsection);
    SubsectionRoundTrip(serials);
  }

  // A parsed section determines how many bytes it came from.

  function ListsSize(lists: seq<seq<nat>>): nat {
    if lists == [] then 0 else 5 + 8 * |lists[0]| + ListsSize(lists[1..])
  }

  lemma {:induction false} SubsectionsSize(b: Bytes)
    requires GetSubsections(b).Some?
    ensures |b| == ListsSize(GetSubsections(b).value)
    decreases |b|
  {
    if b != [] {
      var Parsed(data, rest) := GetString(b[1..]).value;
      SubsectionsSize(rest);
      var lists := GetSubsections(b).value;
      assert lists[1..] == GetSubsections(rest).value;
    }
  }

  lemma SectionSize(b: Bytes)
    requires GetSection(b).Some?
    ensures var s := GetSection(b).value;
            |b| == 8 + |s.caKey| + |s.reserved| + ListsSize(s.serialLists)
  {
    var Parsed(_, rest) := GetString(b).value;
    var Parsed(_, rest') := GetString(rest).value;
    SubsectionsSize(rest');
  }

  lemma ExpectedSize(b: Bytes, caKey: Bytes, serials: seq<Bytes>)
    requires EightBytesEach(serials) && GetSection(b) == Some(Expected(caKey, serials))
    ensures |b| == |SectionData(caKey, serials)|
  {
    SectionSize(b);
    FlattenSize(serials);
    assert ListsSize([Numbers(serials)]) == 5 + 8 * |serials| + ListsSize([]);
  }

  lemma BodyRoundTripIff(caKey: Bytes, serials: seq<Bytes>)
    requires EightBytesEach(serials)
    ensures GetSections(Body(caKey, serials)) == Some([Expected(caKey, serials)])
            <==> |SectionData(caKey, serials)| < TWO32
  {
    if |SectionData(caKey, serials)| < TWO32 {
      FittingBodyRoundTrip(caKey, serials);
    } else if GetSections(Body(caKey, serials)) == Some([Expected(caKey, serials)]) {
      ParsedBodyFits(caKey, serials);
    }
  }

  lemma FittingBodyRoundTrip(caKey: Bytes, serials: seq<Bytes>)
    requires EightBytesEach(serials) && |SectionData(caKey, serials)| < TWO32
    ensures GetSections(Body(caKey, serials)) == Some([Expected(caKey, serials)])
  {
    var data := SectionData(caKey, serials);
    assert Body(caKey, serials)[1..] == U32(|data|) + data + [];
    StringThen(data, []);
    SectionRoundTrip(caKey, serials);
    assert GetSections([]) == Some([]);
    assert [Expected(caKey, serials)] + [] == [Expected(caKey, serials)];
  }

  lemma ParsedBodyFits(caKey: Bytes, serials: seq<Bytes>)
    requires EightBytesEach(serials) && GetSections(Body(caKey, serials)) == Some([Expected(caKey, serials)])
    ensures |SectionData(caKey, serials)| < TWO32
  {
    var data := SectionData(caKey, serials);
    var body := Body(caKey, serials);
    assert body[1..] == U32(|data|) + data;
    NumberThen(|data|, 4, data);
    Powers();
    var Parsed(cut, rest) := GetString(body[1..]).value;
    assert |cut| < TWO32;
    assert GetSection(cut) == Some(Expected(caKey, serials)) by {
      assert GetSections(body).value[0] == GetSection(cut).value;
    }
    ExpectedSize(cut, caKey, serials);
  }

  /** Decoding what the encoder wrote gives back exactly the list version, the date, the CA's
      key and the serials, for every list of 8-byte serials, exactly when the framed
      section's length fits in its four bytes. */
  lemma DecodeOfKrl(version: nat, date: nat, caKey: Bytes, serials: seq<Bytes>)
    requires EightBytesEach(serials) && version < TWO64 && date < TWO64
    ensures Decode(KrlBytes(version, date, caKey, serials)) ==
              Some(KrlFile(1, version, date, 0, [], [], [Section(caKey, [], [Numbers(serials)])]))
            <==> |SectionData(caKey, serials)| < TWO32
  {
    var body := Body(caKey, serials);
    AfterMagic(U32(FORMAT_VERSION) + (U64(version) + (U64(date) + (Padding() + body))));
    NumbersRoundTrip(version, date, Padding() + body);
    TailRoundTrip(version, date, body);
    BodyRoundTripIff(caKey, serials);
  }

  lemma FittingNumberThen(n: nat, k: nat, rest: Bytes)
    requires n < Pow256(k)
    ensures GetNumber(k, BigEndian(n, k) + rest) == Some(Parsed(n, rest))
  {
    NumberThen(n, k, rest);
    RemainderUnique(n, Pow256(k), 0, n);
  }

  lemma FormatThen(rest: Bytes)
    ensures DecodeNumbers(U32(FORMAT_VERSION) + rest) == DecodeVersion(FORMAT_VERSION, rest)
  {
    Powers();
    FittingNumberThen(FORMAT_VERSION, 4, rest);
  }

  lemma VersionThen(version: nat, rest: Bytes)
    requires version < TWO64
    ensures DecodeVersion(FORMAT_VERSION, U64(version) + rest) == DecodeDate(FORMAT_VERSION, version, rest)
  {
    Powers();
    FittingNumberThen(version, 8, rest);
  }

  lemma DateThen(version: nat, date: nat, rest: Bytes)
    requires date < TWO64
    ensures DecodeDate(FORMAT_VERSION, version, U64(date) + rest) == DecodeTail(FORMAT_VERSION, version, date, rest)
  {
    Powers();
    FittingNumberThen(date, 8, rest);
  }

  lemma NumbersRoundTrip(version: nat, date: nat, tail: Bytes)
    requires version < TWO64 && date < TWO64
    ensures DecodeNumbers(U32(FORMAT_VERSION) + (U64(version) + (U64(date) + tail)))
            == DecodeTail(FORMAT_VERSION, version, date, tail)
  {
    FormatThen(U64(version) + (U64(date) + tail));
    VersionThen(version, U64(date) + tail);
    DateThen(version, date, tail);
  }

  lemma AfterMagic(rest: Bytes)
    ensures MAGIC <= MAGIC + rest && (MAGIC + rest)[8..] == rest
  {
  }

  lemma TailRoundTrip(version: nat, date: nat, body: Bytes)
    ensures DecodeTail(FORMAT_VERSION, version, date, Padding() + body) ==
            match GetSections(body)
            case None => None
            case Some(sections) => Some(KrlFile(FORMAT_VERSION, version, date, 0, [], [], sections))
  {
    var b2 := U32(0) + [] + body;
    var b1 := U32(0) + [] + b2;
    assert Padding() + body == U64(0) + b1;
    NumberThen(0, 8, b1);
    StringThen([], b2);
    StringThen([], body);
  }
}
