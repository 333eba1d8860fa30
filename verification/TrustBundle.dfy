/** From the server's bundle of CA certificates to the anchor files that stand for them. */
module TrustBundle {
  import opened Prelude
  import Hex

  /** SHA-256 in hexadecimal. */
  type Fingerprint = s: string | |s| == 64 witness seq(64, _ => '0')

  datatype Cert = Cert(fingerprint: Fingerprint, commonName: string, pem: seq<Byte>)

  /** One PEM block: a certificate, a certificate block that does not parse, or another type. */
  datatype Block = Certificate(cert: Cert) | Broken | Other

  /** A fetched bundle: the blocks found, and whether anything but white space follows. */
  datatype Bundle = Bundle(blocks: seq<Block>, trailing: bool)

  datatype Anchor = Anchor(fingerprint: Fingerprint, fileName: string, pem: seq<Byte>)

  datatype ParseError = UnexpectedBlock | BadCertificate | TrailingBytes

  // ---- Slugs ----

  predicate IsAlnum(c: char) {
    'a' <= c <= 'z' || '0' <= c <= '9'
  }

  /** Letters lowered, every run of other characters squeezed to one dash. */
  function Squeeze(cn: string, dash: bool): string {
    if cn == "" then ""
    else
      var c := Hex.LowerChar(cn[0]);
      if IsAlnum(c) then [c] + Squeeze(cn[1..], false)
      else if dash then Squeeze(cn[1..], true)
      else "-" + Squeeze(cn[1..], true)
  }

  function TrimLeft(s: string): (r: string)
    ensures |r| <= |s|
  {
    if s != "" && s[0] == '-' then TrimLeft(s[1..]) else s
  }

  function TrimRight(s: string): (r: string)
    ensures |r| <= |s|
  {
    if s != "" && s[|s| - 1] == '-' then TrimRight(s[..|s| - 1]) else s
  }

  function Trim(s: string): (r: string)
    ensures |r| <= |s|
  {
    TrimRight(TrimLeft(s))
  }

  const MAX_SLUG: nat := 40

  function SlugOf(cn: string): string {
    var s := Trim(Squeeze(cn, false));
    var t := if |s| > MAX_SLUG then Trim(s[..MAX_SLUG]) else s;
    if t == "" then "ca" else t
  }

  lemma {:induction false} SqueezeSnoc(a: string, c: char, dash: bool)
    ensures Squeeze(a + [c], dash) ==
            Squeeze(a, dash) + Squeeze([c], if a == "" then dash else !IsAlnum(Hex.LowerChar(a[|a| - 1])))
  {
    if a == "" {
      assert a + [c] == [c];
    } else {
      assert (a + [c])[1..] == a[1..] + [c];
      SqueezeSnoc(a[1..], c, !IsAlnum(Hex.LowerChar(a[0])));
    }
  }

  method Slug(cn: string) returns (s: string)
    ensures s == SlugOf(cn)
  {
    var b := "";
    var dash := false;
    for i := 0 to |cn|
      invariant b == Squeeze(cn[..i], false)
      invariant dash <==> i > 0 && !IsAlnum(Hex.LowerChar(cn[i - 1]))
    {
      assert cn[..i + 1] == cn[..i] + [cn[i]];
      SqueezeSnoc(cn[..i], cn[i], false);
      var r := Hex.LowerChar(cn[i]);
      if IsAlnum(r) {
        b := b + [r];
        dash := false;
        continue;
      }
      if !dash {
        b := b + "-";
        dash := true;
      }
    }
    assert cn[..|cn|] == cn;
    s := Trim(b);
    if |s| > MAX_SLUG {
      s := Trim(s[..MAX_SLUG]);
    }
    if s == "" {
      s := "ca";
    }
  }

  predicate IsSlugChar(c: char) {
    IsAlnum(c) || c == '-'
  }

  predicate SlugChars(s: string) {
    forall i :: 0 <= i < |s| ==> IsSlugChar(s[i])
  }

  /** Dashes only ever separate letters and digits. */
  predicate NoDoubleDash(s: string) {
    forall i :: 0 < i < |s| ==> !(s[i - 1] == '-' && s[i] == '-')
  }

  predicate TidySlug(s: string) {
    && 0 < |s| <= MAX_SLUG && SlugChars(s) && NoDoubleDash(s)
    && s[0] != '-' && s[|s| - 1] != '-'
  }

  lemma {:induction false} SqueezeIsTidy(cn: string, dash: bool)
    ensures var s := Squeeze(cn, dash);
            SlugChars(s) && NoDoubleDash(s) && (dash && s != "" ==> s[0] != '-')
  {
    if cn != "" {
      var c := Hex.LowerChar(cn[0]);
      SqueezeIsTidy(cn[1..], !IsAlnum(c));
      var rest := Squeeze(cn[1..], !IsAlnum(c));
      var s := Squeeze(cn, dash);
      if s != rest {
        assert s[1..] == rest;
        assert forall i :: 0 < i < |s| ==> s[i] == rest[i - 1];
      }
    }
  }

  lemma {:induction false} TrimLeftIsSuffix(s: string)
    ensures exists n :: 0 <= n <= |s| && TrimLeft(s) == s[n..]
    ensures TrimLeft(s) != "" ==> TrimLeft(s)[0] != '-'
  {
    if s != "" && s[0] == '-' {
      TrimLeftIsSuffix(s[1..]);
      var n :| 0 <= n <= |s[1..]| && TrimLeft(s[1..]) == s[1..][n..];
      assert s[1..][n..] == s[n + 1..];
    } else {
      assert s == s[0..];
    }
  }

  lemma {:induction false} TrimRightIsPrefix(s: string)
    ensures exists n :: 0 <= n <= |s| && TrimRight(s) == s[..n]
    ensures TrimRight(s) != "" ==> TrimRight(s)[|TrimRight(s)| - 1] != '-'
  {
    if s != "" && s[|s| - 1] == '-' {
      TrimRightIsPrefix(s[..|s| - 1]);
      var n :| 0 <= n <= |s| - 1 && TrimRight(s[..|s| - 1]) == s[..|s| - 1][..n];
      assert s[..|s| - 1][..n] == s[..n];
    } else {
      assert s == s[..|s|];
    }
  }

  /** Trimming leaves a part of the text that neither starts nor ends with a dash. */
  lemma TrimIsSlice(s: string) returns (from: nat, to: nat)
    ensures from <= to <= |s| && Trim(s) == s[from..to]
    ensures Trim(s) != "" ==> Trim(s)[0] != '-' && Trim(s)[|Trim(s)| - 1] != '-'
  {
    TrimLeftIsSuffix(s);
    var l := TrimLeft(s);
    from :| 0 <= from <= |s| && l == s[from..];
    TrimRightIsPrefix(l);
    var n :| 0 <= n <= |l| && TrimRight(l) == l[..n];
    to := from + n;
    assert s[from..][..n] == s[from..to];
  }

  lemma TrimKeepsTidy(s: string)
    requires SlugChars(s) && NoDoubleDash(s)
    ensures var t := Trim(s);
            SlugChars(t) && NoDoubleDash(t) && (t != "" ==> t[0] != '-' && t[|t| - 1] != '-')
  {
    var from, to := TrimIsSlice(s);
    SliceIsTidy(s, from, to);
  }

  lemma SliceIsTidy(s: string, from: nat, to: nat)
    requires SlugChars(s) && NoDoubleDash(s) && from <= to <= |s|
    ensures SlugChars(s[from..to]) && NoDoubleDash(s[from..to])
  {
    var t := s[from..to];
    assert forall i :: 0 <= i < |t| ==> t[i] == s[from + i];
  }

  /** The slug of every common name is a safe file-name fragment: 1 to 40 lowercase letters,
      digits and single inner dashes. */
  lemma SlugIsTidy(cn: string)
    ensures TidySlug(SlugOf(cn))
  {
    SqueezeIsTidy(cn, false);
    TrimKeepsTidy(Squeeze(cn, false));
    var s := Trim(Squeeze(cn, false));
    if |s| > MAX_SLUG {
      TrimKeepsTidy(s[..MAX_SLUG]);
    }
  }

  lemma {:induction false} SqueezeOfTidy(s: string, dash: bool)
    requires SlugChars(s) && NoDoubleDash(s) && (dash && s != "" ==> s[0] != '-')
    ensures Squeeze(s, dash) == s
  {
    if s != "" {
      assert IsSlugChar(s[0]) && Hex.LowerChar(s[0]) == s[0];
      assert forall i :: 0 <= i < |s[1..]| ==> s[1..][i] == s[i + 1];
      SqueezeOfTidy(s[1..], s[0] == '-');
    }
  }

  /** Slugging is idempotent: exactly the tidy fragments are their own slugs. */
  lemma SlugFixesTidy(s: string)
    ensures SlugOf(s) == s <==> TidySlug(s)
  {
    SlugIsTidy(s);
    if TidySlug(s) {
      SqueezeOfTidy(s, false);
    }
  }

  // ---- What a slug is ----

  /** How many letters and digits the text starts with. */
  function RunLength(s: string): (n: nat)
    ensures n <= |s|
  {
    if s != "" && IsAlnum(Hex.LowerChar(s[0])) then 1 + RunLength(s[1..]) else 0
  }

  /** The maximal runs of letters and digits, lowered: the words of a name. */
  function Words(s: string): seq<string>
    decreases |s|
  {
    if s == "" then []
    else if RunLength(s) == 0 then Words(s[1..])
    else [Hex.Lower(s[..RunLength(s)])] + Words(s[RunLength(s)..])
  }

  function Dashed(words: seq<string>): string {
    if words == [] then ""
    else if |words| == 1 then words[0]
    else words[0] + "-" + Dashed(words[1..])
  }

  lemma LowerOfRun(s: string, n: nat)
    requires 0 < n <= |s|
    ensures Hex.Lower(s[..n]) == [Hex.LowerChar(s[0])] + Hex.Lower(s[1..][..n - 1])
  {
    assert s[..n][1..] == s[1..][..n - 1];
  }

  lemma {:induction false} SqueezeRun(s: string, dash: bool)
    requires RunLength(s) > 0
    ensures Squeeze(s, dash) == Hex.Lower(s[..RunLength(s)]) + Squeeze(s[RunLength(s)..], false)
  {
    var n, rest := RunLength(s), s[1..];
    var first := [Hex.LowerChar(s[0])];
    LowerOfRun(s, n);
    assert rest[n - 1..] == s[n..];
    assert Squeeze(s, dash) == first + Squeeze(rest, false);
    if n == 1 {
      assert rest[..0] == "" && rest[0..] == rest;
      assert Hex.Lower(s[..1]) == first + "";
    } else {
      SqueezeRun(rest, false);
      Reassociated(first, Hex.Lower(rest[..n - 1]), Squeeze(s[n..], false));
    }
  }

  lemma Reassociated(a: string, b: string, c: string)
    ensures a + (b + c) == (a + b) + c
  {
  }

  lemma {:induction false} RunStops(s: string)
    ensures RunLength(s) < |s| ==> !IsAlnum(Hex.LowerChar(s[RunLength(s)]))
    ensures forall i :: 0 <= i < RunLength(s) ==> IsAlnum(Hex.LowerChar(s[i]))
  {
    if s != "" && IsAlnum(Hex.LowerChar(s[0])) {
      RunStops(s[1..]);
      assert forall i :: 1 <= i < RunLength(s) ==> s[i] == s[1..][i - 1];
    }
  }

  lemma TrimLeftOfSqueeze(s: string)
    ensures TrimLeft(Squeeze(s, false)) == Squeeze(s, true)
  {
    SqueezeIsTidy(s, true);
    if s != "" && !IsAlnum(Hex.LowerChar(s[0])) {
      SqueezeIsTidy(s[1..], true);
      assert Squeeze(s, false)[1..] == Squeeze(s[1..], true);
    }
  }

  lemma {:induction false} TrimRightOfConcat(a: string, b: string)
    requires TrimRight(b) != "" || (a != "" && a[|a| - 1] != '-')
    ensures TrimRight(a + b) == a + TrimRight(b)
    decreases |b|
  {
    if b == "" {
      assert a + b == a;
    } else if b[|b| - 1] == '-' {
      assert (a + b)[..|a + b| - 1] == a + b[..|b| - 1];
      TrimRightOfConcat(a, b[..|b| - 1]);
    }
  }

  lemma {:induction false} FirstCharStays(s: string)
    requires s != "" && s[0] != '-'
    ensures TrimRight(s) != ""
  {
    if s[|s| - 1] == '-' {
      FirstCharStays(s[..|s| - 1]);
    }
  }

  /** Without its outer dashes the squeezed name is its words, joined by dashes. */
  lemma {:induction false} SqueezeIsWords(s: string)
    ensures TrimRight(Squeeze(s, true)) == Dashed(Words(s))
    ensures Squeeze(s, true) == "" <==> Words(s) == []
    decreases |s|
  {
    if s == "" {
    } else if RunLength(s) == 0 {
      SqueezeIsWords(s[1..]);
    } else {
      var n := RunLength(s);
      var word := Hex.Lower(s[..n]);
      SqueezeRun(s, true);
      RunStops(s);
      assert word[n - 1] != '-';
      if n == |s| {
        assert s[n..] == "" && Words(s) == [word];
        assert Squeeze(s, true) == word;
      } else {
        var rest := s[n + 1..];
        assert s[n..][1..] == rest;
        assert Squeeze(s[n..], false) == "-" + Squeeze(rest, true);
        assert RunLength(s[n..]) == 0 && Words(s[n..]) == Words(rest);
        SqueezeIsWords(rest);
        SqueezeIsTidy(rest, true);
        if Squeeze(rest, true) != "" {
          FirstCharStays(Squeeze(rest, true));
        }
        WordThenRest(word, Squeeze(rest, true), Words(rest));
        assert Squeeze(s, true) == word + ("-" + Squeeze(rest, true));
      }
    }
  }

  lemma WordThenRest(word: string, rest: string, words: seq<string>)
    requires word != "" && word[|word| - 1] != '-'
    requires TrimRight(rest) == Dashed(words) && (rest == "" <==> words == [])
    requires rest != "" ==> TrimRight(rest) != ""
    ensures TrimRight(word + ("-" + rest)) == Dashed([word] + words)
  {
    assert ([word] + words)[1..] == words;
    if rest == "" {
      assert "-" + rest == "-" && TrimRight("-") == "";
      TrimRightOfConcat(word, "-");
    } else {
      assert word + ("-" + rest) == (word + "-") + rest;
      TrimRightOfConcat(word + "-", rest);
    }
  }

  /** The slug of a name, said without the loop: its words joined by dashes; "ca" if it has none;
      cut after forty characters if longer, less a dash the cut would leave at the end. */
  lemma SlugIsWords(cn: string)
    ensures var s := Dashed(Words(cn));
            SlugOf(cn) == if s == "" then "ca"
                          else if |s| <= 40 then s
                          else if s[39] == '-' then s[..39] else s[..40]
  {
    TrimLeftOfSqueeze(cn);
    SqueezeIsWords(cn);
    var s := Dashed(Words(cn));
    assert Trim(Squeeze(cn, false)) == s;
    SqueezeIsTidy(cn, false);
    TrimKeepsTidy(Squeeze(cn, false));
    if |s| > 40 {
      CutIsClean(s);
    }
  }

  lemma CutIsClean(s: string)
    requires |s| > 40 && SlugChars(s) && NoDoubleDash(s) && s[0] != '-'
    ensures Trim(s[..40]) == if s[39] == '-' then s[..39] else s[..40]
  {
    var t := s[..40];
    assert TrimLeft(t) == t && t[39] == s[39] && t[..39] == s[..39];
    if s[39] == '-' {
      assert s[38] != '-';
      assert TrimRight(t) == TrimRight(s[..39]);
    }
  }

  // ---- Anchors ----

  function FileName(cert: Cert, ext: string): string {
    "vaultls-" + SlugOf(cert.commonName) + "-" + cert.fingerprint[..8] + ext
  }

  function AnchorOf(cert: Cert, ext: string): Anchor {
    Anchor(cert.fingerprint, FileName(cert, ext), cert.pem)
  }

  const TEMP_PREFIX: string := ".vaultls-tmp-"

  /** A half-written file of the agent's own. */
  predicate IsTemp(name: string) {
    TEMP_PREFIX <= name
  }

  lemma AnchorsAreNotTemp(cert: Cert, ext: string)
    ensures !IsTemp(FileName(cert, ext))
  {
    assert FileName(cert, ext)[0] == 'v';
    assert TEMP_PREFIX[0] == '.';
  }

  /** Under one extension two certificates share a file name exactly when their slugs and the
      first eight digits of their fingerprints agree. */
  lemma FileNamesCollideIff(a: Cert, b: Cert, ext: string)
    ensures FileName(a, ext) == FileName(b, ext) <==>
            SlugOf(a.commonName) == SlugOf(b.commonName) && a.fingerprint[..8] == b.fingerprint[..8]
  {
    var p, sa, sb, fa, fb :=
      "vaultls-", SlugOf(a.commonName), SlugOf(b.commonName), a.fingerprint[..8], b.fingerprint[..8];
    var na, nb := FileName(a, ext), FileName(b, ext);
    assert na == p + sa + ("-" + fa + ext) && nb == p + sb + ("-" + fb + ext);
    if na == nb {
      assert |sa| == |sb|;
      assert sa == na[|p|..|p| + |sa|] && sb == nb[|p|..|p| + |sb|];
      var o := |p| + |sa| + 1;
      assert fa == na[o..o + 8] && fb == nb[o..o + 8];
    }
  }

  /** The parts of a file name: the agent's mark, the slug, the fingerprint's start and the
      extension, with dashes between them. */
  lemma FileNameParts(cert: Cert, ext: string)
    ensures var (name, slug) := (FileName(cert, ext), SlugOf(cert.commonName));
            && |name| == 17 + |slug| + |ext| && name[..8] == "vaultls-" && name[8..8 + |slug|] == slug
            && name[8 + |slug|] == '-' && name[9 + |slug|..17 + |slug|] == cert.fingerprint[..8]
            && name[17 + |slug|..] == ext
  {
    var slug := SlugOf(cert.commonName);
    assert FileName(cert, ext) == "vaultls-" + (slug + ("-" + (cert.fingerprint[..8] + ext)));
  }

  predicate AllCertificates(blocks: seq<Block>) {
    forall i :: 0 <= i < |blocks| ==> blocks[i].Certificate?
  }

  /** The first certificate of every fingerprint, in order. */
  function Dedup(blocks: seq<Block>, ext: string): seq<Anchor>
    requires AllCertificates(blocks)
  {
    if blocks == [] then []
    else
      var n := |blocks| - 1;
      var before := Dedup(blocks[..n], ext);
      var cert := blocks[n].cert;
      if HasFingerprint(before, cert.fingerprint) then before else before + [AnchorOf(cert, ext)]
  }

  predicate HasFingerprint(anchors: seq<Anchor>, fp: Fingerprint) {
    exists i :: 0 <= i < |anchors| && anchors[i].fingerprint == fp
  }

  ghost predicate DistinctFingerprints(anchors: seq<Anchor>) {
    forall i, j :: 0 <= i < j < |anchors| ==> anchors[i].fingerprint != anchors[j].fingerprint
  }

  lemma HasFingerprintSnoc(anchors: seq<Anchor>, a: Anchor, fp: Fingerprint)
    ensures HasFingerprint(anchors + [a], fp) <==> HasFingerprint(anchors, fp) || a.fingerprint == fp
  {
    var all := anchors + [a];
    assert all[|anchors|] == a;
    assert forall i :: 0 <= i < |anchors| ==> all[i] == anchors[i];
  }

  /** Block `i` is the first one of the fingerprint. */
  predicate FirstOf(blocks: seq<Block>, i: nat, fp: Fingerprint)
    requires AllCertificates(blocks)
  {
    && i < |blocks| && blocks[i].cert.fingerprint == fp
    && forall j :: 0 <= j < i ==> blocks[j].cert.fingerprint != fp
  }

  lemma {:induction false} DedupIsDistinct(blocks: seq<Block>, ext: string)
    requires AllCertificates(blocks)
    ensures DistinctFingerprints(Dedup(blocks, ext))
  {
    if blocks != [] {
      DedupIsDistinct(blocks[..|blocks| - 1], ext);
    }
  }

  /** Every certificate of the bundle is represented by its own file... */
  lemma {:induction false} DedupCovers(blocks: seq<Block>, ext: string, i: nat)
    requires AllCertificates(blocks) && i < |blocks|
    ensures HasFingerprint(Dedup(blocks, ext), blocks[i].cert.fingerprint)
  {
    var n := |blocks| - 1;
    var before, cert := Dedup(blocks[..n], ext), blocks[n].cert;
    HasFingerprintSnoc(before, AnchorOf(cert, ext), blocks[i].cert.fingerprint);
    if i < n {
      DedupCovers(blocks[..n], ext, i);
    }
  }

  /** ... and every file stands for the first certificate of its fingerprint. */
  lemma {:induction false} DedupOrigin(blocks: seq<Block>, ext: string, a: Anchor) returns (i: nat)
    requires AllCertificates(blocks) && a in Dedup(blocks, ext)
    ensures FirstOf(blocks, i, a.fingerprint) && a == AnchorOf(blocks[i].cert, ext)
    ensures a.pem == blocks[i].cert.pem && a.fingerprint == blocks[i].cert.fingerprint
    ensures a.fileName == FileName(blocks[i].cert, ext)
  {
    var n := |blocks| - 1;
    var before := Dedup(blocks[..n], ext);
    if a in before {
      i := DedupOrigin(blocks[..n], ext, a);
      assert forall j :: 0 <= j <= i ==> blocks[j] == blocks[..n][j];
    } else {
      i := n;
      forall j | 0 <= j < n
        ensures blocks[j].cert.fingerprint != a.fingerprint
      {
        DedupCovers(blocks[..n], ext, j);
      }
    }
  }

  function FirstBad(blocks: seq<Block>): Option<ParseError> {
    if blocks == [] then None
    else
      match blocks[0]
      case Other => Some(UnexpectedBlock)
      case Broken => Some(BadCertificate)
      case Certificate(_) => FirstBad(blocks[1..])
  }

  lemma {:induction false} FirstBadFindsNone(blocks: seq<Block>)
    ensures FirstBad(blocks).None? <==> AllCertificates(blocks)
  {
    if blocks != [] {
      FirstBadFindsNone(blocks[1..]);
      assert forall i :: 0 < i < |blocks| ==> blocks[i] == blocks[1..][i - 1];
    }
  }

  lemma {:induction false} FirstBadAt(blocks: seq<Block>, i: nat)
    requires i < |blocks| && AllCertificates(blocks[..i]) && !blocks[i].Certificate?
    ensures FirstBad(blocks) == Some(if blocks[i].Other? then UnexpectedBlock else BadCertificate)
    decreases i
  {
    if i > 0 {
      assert blocks[0] == blocks[..i][0];
      assert blocks[1..][..i - 1] == blocks[..i][1..];
      FirstBadAt(blocks[1..], i - 1);
    }
  }

  /** What a bundle parses to: the first bad block or trailing bytes refuse it as a whole. */
  function Parsed(bundle: Bundle, ext: string): Result<seq<Anchor>, ParseError> {
    match FirstBad(bundle.blocks)
    case Some(e) => Err(e)
    case None =>
      FirstBadFindsNone(bundle.blocks);
      if bundle.trailing then Err(TrailingBytes) else Ok(Dedup(bundle.blocks, ext))
  }

  /** A bundle is accepted exactly when every block is a certificate that parses and nothing but
      white space follows; otherwise the first bad block names the error, and trailing bytes do
      when there is none. */
  lemma ParsedIff(bundle: Bundle, ext: string)
    ensures Parsed(bundle, ext).Ok? <==>
            (forall i :: 0 <= i < |bundle.blocks| ==> bundle.blocks[i].Certificate?) && !bundle.trailing
    ensures forall i ::
              0 <= i < |bundle.blocks| && !bundle.blocks[i].Certificate? && AllCertificates(bundle.blocks[..i])
              ==> Parsed(bundle, ext) == Err(if bundle.blocks[i] == Other then UnexpectedBlock else BadCertificate)
    ensures AllCertificates(bundle.blocks) && bundle.trailing ==> Parsed(bundle, ext) == Err(TrailingBytes)
  {
    FirstBadFindsNone(bundle.blocks);
    forall i | 0 <= i < |bundle.blocks| && !bundle.blocks[i].Certificate? && AllCertificates(bundle.blocks[..i])
      ensures Parsed(bundle, ext) == Err(if bundle.blocks[i] == Other then UnexpectedBlock else BadCertificate)
    {
      FirstBadAt(bundle.blocks, i);
    }
  }

  /** The anchors come in the order of the blocks they stand for. */
  lemma {:induction false} DedupInOrder(blocks: seq<Block>, ext: string) returns (origins: seq<nat>)
    requires AllCertificates(blocks)
    ensures |origins| == |Dedup(blocks, ext)|
    ensures forall i :: 0 <= i < |origins| ==>
              origins[i] < |blocks| && Dedup(blocks, ext)[i] == AnchorOf(blocks[origins[i]].cert, ext)
    ensures forall i, j :: 0 <= i < j < |origins| ==> origins[i] < origins[j]
  {
    if blocks == [] {
      origins := [];
    } else {
      var n := |blocks| - 1;
      var before := DedupInOrder(blocks[..n], ext);
      forall i | 0 <= i < |before|
        ensures before[i] < n && Dedup(blocks[..n], ext)[i] == AnchorOf(blocks[before[i]].cert, ext)
      {
        assert blocks[..n][before[i]] == blocks[before[i]];
      }
      origins := if HasFingerprint(Dedup(blocks[..n], ext), blocks[n].cert.fingerprint) then before else before + [n];
    }
  }

  method ParseBundle(bundle: Bundle, ext: string) returns (r: Result<seq<Anchor>, ParseError>)
    ensures r == Parsed(bundle, ext)
  {
    var out: seq<Anchor> := [];
    var seen: set<Fingerprint> := {};
    var blocks := bundle.blocks;
    FirstBadFindsNone(blocks);
    for i := 0 to |blocks|
      invariant AllCertificates(blocks[..i])
      invariant out == Dedup(blocks[..i], ext)
      invariant forall fp :: fp in seen <==> HasFingerprint(out, fp)
    {
      assert blocks[..i + 1][..i] == blocks[..i];
      if blocks[i].Other? {
        FirstBadAt(blocks, i);
        return Err(UnexpectedBlock);
      }
      if blocks[i].Broken? {
        FirstBadAt(blocks, i);
        return Err(BadCertificate);
      }
      assert forall j :: 0 <= j < i ==> blocks[..i + 1][j] == blocks[..i][j];
      var cert := blocks[i].cert;
      if cert.fingerprint in seen {
        continue;
      }
      seen := seen + {cert.fingerprint};
      forall fp
        ensures HasFingerprint(out + [AnchorOf(cert, ext)], fp) <==> HasFingerprint(out, fp) || cert.fingerprint == fp
      {
        HasFingerprintSnoc(out, AnchorOf(cert, ext), fp);
      }
      out := out + [AnchorOf(cert, ext)];
    }
    assert blocks[..|blocks|] == blocks;
    if bundle.trailing {
      return Err(TrailingBytes);
    }
    r := Ok(out);
  }
}
