/** Which names an ACME account may order: the string matcher, and the reading of it in terms
    of DNS labels. */
module DomainMatch {
  import opened Prelude
  import Hex

  // ---- The matcher as written, on strings ----

  function TrimBlanks(s: string): (r: string)
    decreases |s|
  {
    if s != "" && IsBlank(s[0]) then TrimBlanks(s[1..])
    else if s != "" && IsBlank(s[|s| - 1]) then TrimBlanks(s[..|s| - 1])
    else s
  }

  function Canonical(s: string): string {
    Hex.Lower(TrimBlanks(s))
  }

  predicate EndsWith(s: string, suffix: string) {
    |suffix| <= |s| && s[|s| - |suffix|..] == suffix
  }

  predicate MatchesDomain(pattern: string, domain: string) {
    MatchesCanonical(Canonical(pattern), Canonical(domain))
  }

  /** The comparison proper, after trimming and lowering. */
  predicate MatchesCanonical(pattern: string, domain: string) {
    if pattern == "" || domain == "" then false
    else if "**." <= pattern then
      var suffix := "." + pattern[3..];
      EndsWith(domain, suffix) && |domain| > |suffix|
    else if "*." <= pattern then
      var suffix := "." + pattern[2..];
      if EndsWith(domain, suffix) then
        var first := domain[..|domain| - |suffix|];
        first != "" && '.' !in first
      else false
    else pattern == domain
  }

  /** The parts of `s` between separators; a text without one is a single part. */
  function Split(s: string, sep: char): (parts: seq<string>)
    ensures parts != []
  {
    if s == "" then [""]
    else
      var rest := Split(s[1..], sep);
      if s[0] == sep then [""] + rest else [[s[0]] + rest[0]] + rest[1..]
  }

  function Labels(s: string): seq<string> {
    Split(s, '.')
  }

  predicate IsDigit(c: char) { '0' <= c <= '9' }

  predicate IsLabelChar(c: char) {
    'a' <= c <= 'z' || 'A' <= c <= 'Z' || IsDigit(c) || c == '-'
  }

  predicate ValidLabel(l: string) {
    && 0 < |l| <= 63 && l[0] != '-' && l[|l| - 1] != '-'
    && forall i :: 0 <= i < |l| ==> IsLabelChar(l[i])
  }

  predicate AllDigits(l: string) {
    forall i :: 0 <= i < |l| ==> IsDigit(l[i])
  }

  predicate IsValidDnsName(name: string) {
    var n := TrimBlanks(name);
    var base := if "*." <= n then n[2..] else n;
    && n != "" && |n| <= 253
    && ':' !in base && !("[" <= base) && '*' !in base
    && !(|Labels(base)| == 4 && forall i :: 0 <= i < |Labels(base)| ==> AllDigits(Labels(base)[i]))
    && forall i :: 0 <= i < |Labels(base)| ==> ValidLabel(Labels(base)[i])
  }

  predicate CheckDomains(allowed: string, requested: seq<string>) {
    && requested != []
    && forall d :: d in requested ==> exists p :: p in Split(allowed, ',') && MatchesDomain(p, d)
  }

  // ---- The same in terms of labels ----

  /** The name is some labels followed by the labels of the suffix. */
  predicate Under(name: seq<string>, suffix: seq<string>, extra: nat) {
    |name| == extra + |suffix| && name[extra..] == suffix
  }

  /** What a pattern means for a name, both trimmed and lowered: `**.` one or more labels in
      front of the suffix, `*.` exactly one, anything else the name itself. */
  predicate LabelMatch(pattern: string, name: string) {
    if "**." <= pattern then
      var suffix := Labels(pattern[3..]);
      |Labels(name)| > |suffix| && Under(Labels(name), suffix, |Labels(name)| - |suffix|)
    else if "*." <= pattern then Under(Labels(name), Labels(pattern[2..]), 1)
    else name == pattern
  }

  /** Every label of the name has at least one character. */
  predicate NoEmptyLabel(name: string) {
    forall i :: 0 <= i < |Labels(name)| ==> Labels(name)[i] != ""
  }

  lemma SplitCons(c: char, t: string, sep: char)
    ensures Split([c] + t, sep) ==
            if c == sep then [""] + Split(t, sep) else [[c] + Split(t, sep)[0]] + Split(t, sep)[1..]
  {
    assert ([c] + t)[1..] == t;
  }

  lemma {:induction false} SplitOfConcat(a: string, b: string, sep: char)
    ensures Split(a + [sep] + b, sep) == Split(a, sep) + Split(b, sep)
  {
    if a == "" {
      assert a + [sep] + b == [sep] + b;
      SplitCons(sep, b, sep);
    } else {
      SplitOfConcat(a[1..], b, sep);
      assert a + [sep] + b == [a[0]] + (a[1..] + [sep] + b) && a == [a[0]] + a[1..];
      SplitConsOfConcat(a[0], a[1..] + [sep] + b, a[1..], Split(b, sep), sep);
    }
  }

  lemma SplitConsOfConcat(c: char, t: string, front: string, back: seq<string>, sep: char)
    requires Split(t, sep) == Split(front, sep) + back
    ensures Split([c] + t, sep) == Split([c] + front, sep) + back
  {
    SplitCons(c, t, sep);
    SplitCons(c, front, sep);
    if c != sep {
      PrependToFirst([c], Split(front, sep), back);
    } else {
      assert [""] + (Split(front, sep) + back) == [""] + Split(front, sep) + back;
    }
  }

  lemma PrependToFirst(x: string, l: seq<string>, back: seq<string>)
    requires l != []
    ensures [x + (l + back)[0]] + (l + back)[1..] == [x + l[0]] + l[1..] + back
  {
    assert (l + back)[0] == l[0] && (l + back)[1..] == l[1..] + back;
  }

  lemma {:induction false} SplitWithoutSeparator(s: string, sep: char)
    requires sep !in s
    ensures Split(s, sep) == [s]
  {
    if s != "" {
      assert s[0] in s && forall c :: c in s[1..] ==> c in s;
      SplitWithoutSeparator(s[1..], sep);
      assert s == [s[0]] + s[1..];
    }
  }

  function Join(parts: seq<string>, sep: char): string
    requires parts != []
  {
    if |parts| == 1 then parts[0] else parts[0] + [sep] + Join(parts[1..], sep)
  }

  lemma {:induction false} JoinOfSplit(s: string, sep: char)
    ensures Join(Split(s, sep), sep) == s
  {
    if s != "" {
      var rest := Split(s[1..], sep);
      JoinOfSplit(s[1..], sep);
      var parts := Split(s, sep);
      if s[0] == sep {
        assert parts[1..] == rest;
      } else if |rest| > 1 {
        assert parts[1..] == rest[1..];
      }
      assert s == [s[0]] + s[1..];
    }
  }

  lemma {:induction false} JoinOfConcat(a: seq<string>, b: seq<string>, sep: char)
    requires a != [] && b != []
    ensures Join(a + b, sep) == Join(a, sep) + [sep] + Join(b, sep)
  {
    if |a| == 1 {
      assert (a + b)[1..] == b;
    } else {
      assert (a + b)[1..] == a[1..] + b;
      JoinOfConcat(a[1..], b, sep);
    }
  }

  lemma {:induction false} PartsHaveNoSeparator(s: string, sep: char, i: nat)
    requires i < |Split(s, sep)|
    ensures sep !in Split(s, sep)[i]
  {
    if s != "" {
      var rest := Split(s[1..], sep);
      if s[0] == sep {
        if i > 0 { PartsHaveNoSeparator(s[1..], sep, i - 1); }
      } else {
        PartsHaveNoSeparator(s[1..], sep, i);
      }
    }
  }

  lemma EndingGivesLabels(name: string, suffix: string)
    requires NoEmptyLabel(name) && EndsWith(name, "." + suffix)
    ensures |name| > 1 + |suffix|
    ensures Labels(name) == Labels(name[..|name| - 1 - |suffix|]) + Labels(suffix)
  {
    var head := name[..|name| - 1 - |suffix|];
    assert name == head + ['.'] + suffix;
    SplitOfConcat(head, suffix, '.');
    assert Labels(name)[0] == Labels(head)[0];
    assert Labels("") == [""];
  }

  lemma LabelsGiveEnding(name: string, suffix: string)
    requires NoEmptyLabel(name) && |Labels(name)| > |Labels(suffix)|
    requires Under(Labels(name), Labels(suffix), |Labels(name)| - |Labels(suffix)|)
    ensures EndsWith(name, "." + suffix) && |name| > 1 + |suffix|
  {
    var front := Labels(name)[..|Labels(name)| - |Labels(suffix)|];
    assert Labels(name) == front + Labels(suffix);
    JoinOfConcat(front, Labels(suffix), '.');
    JoinOfSplit(name, '.');
    JoinOfSplit(suffix, '.');
    assert name == Join(front, '.') + ['.'] + suffix;
    assert front[0] == Labels(name)[0] && front[0] != "";
    assert Join(front, '.') != "";
    assert name == Join(front, '.') + ("." + suffix);
  }

  /** Ending in a dot and the suffix is having the suffix's labels last. */
  lemma EndsInLabels(name: string, suffix: string)
    requires NoEmptyLabel(name)
    ensures var tail := "." + suffix;
            (EndsWith(name, tail) && |name| > |tail|) <==>
            (&& |Labels(name)| > |Labels(suffix)|
             && Under(Labels(name), Labels(suffix), |Labels(name)| - |Labels(suffix)|))
    ensures var tail := "." + suffix;
            EndsWith(name, tail) ==> |name| > |tail|
                                     && Labels(name) == Labels(name[..|name| - |tail|]) + Labels(suffix)
  {
    if EndsWith(name, "." + suffix) {
      EndingGivesLabels(name, suffix);
    }
    if |Labels(name)| > |Labels(suffix)| && Under(Labels(name), Labels(suffix), |Labels(name)| - |Labels(suffix)|) {
      LabelsGiveEnding(name, suffix);
    }
  }

  /** The string matcher means what the labels say, for every name without empty labels. */
  lemma MatcherMeansLabels(pattern: string, name: string)
    requires name != "" && NoEmptyLabel(name)
    ensures MatchesCanonical(pattern, name) <==> LabelMatch(pattern, name)
  {
    if pattern == "" {
    } else if "**." <= pattern {
      EndsInLabels(name, pattern[3..]);
    } else if "*." <= pattern {
      OneLabelInFront(name, pattern[2..]);
    }
  }

  /** What the wildcards ask of any text, valid name or not: to end in a dot and the rest of the
      pattern with something in front, for a single one without a dot in it. */
  lemma WildcardsOnAnyText(rest: string, name: string)
    ensures var ends := |name| > 1 + |rest| && name[|name| - 1 - |rest|..] == "." + rest;
            && (MatchesCanonical("**." + rest, name) <==> ends)
            && (MatchesCanonical("*." + rest, name) <==> ends && '.' !in name[..|name| - 1 - |rest|])
  {
    assert ("*." + rest)[2..] == rest && ("**." + rest)[3..] == rest;
    assert ("*." + rest)[1] == '.' && "**."[1] == '*';
    assert !("**." <= "*." + rest);
  }

  lemma OneLabelInFront(name: string, suffix: string)
    requires NoEmptyLabel(name)
    ensures var tail := "." + suffix;
            (EndsWith(name, tail) && '.' !in name[..|name| - |tail|] && name[..|name| - |tail|] != "") <==>
            Under(Labels(name), Labels(suffix), 1)
  {
    var tail := "." + suffix;
    EndsInLabels(name, suffix);
    if EndsWith(name, tail) {
      var head := name[..|name| - |tail|];
      if '.' !in head {
        SplitWithoutSeparator(head, '.');
      } else if |Labels(head)| == 1 {
        PartsHaveNoSeparator(head, '.', 0);
        JoinOfSplit(head, '.');
        assert false;
      }
    }
  }

  // ---- Valid names ----

  lemma {:induction false} LowerOfConcat(a: string, b: string)
    ensures Hex.Lower(a + b) == Hex.Lower(a) + Hex.Lower(b)
  {
    if a == "" {
      assert a + b == b;
    } else {
      assert (a + b)[1..] == a[1..] + b;
      LowerOfConcat(a[1..], b);
    }
  }

  /** Lowering keeps the label structure. */
  lemma {:induction false} LabelsOfLower(s: string)
    ensures |Labels(Hex.Lower(s))| == |Labels(s)|
    ensures forall i :: 0 <= i < |Labels(s)| ==> Labels(Hex.Lower(s))[i] == Hex.Lower(Labels(s)[i])
  {
    if s != "" {
      LabelsOfLower(s[1..]);
      var t := Hex.Lower(s);
      assert t[1..] == Hex.Lower(s[1..]);
      var rest := Labels(s[1..]);
      if s[0] != '.' {
        LowerOfConcat([s[0]], rest[0]);
        assert Hex.Lower([s[0]]) == [Hex.LowerChar(s[0])];
      }
    }
  }

  /** A valid name, trimmed and lowered, is not empty and has no empty label; a leading
      wildcard is a label of its own. */
  lemma ValidNameHasLabels(name: string)
    requires IsValidDnsName(name)
    ensures Canonical(name) != "" && NoEmptyLabel(Canonical(name))
  {
    var n := TrimBlanks(name);
    LabelsOfLower(n);
    ValidNameHasValidLabels(name);
    ValidLabelsAreNotEmpty(Labels(if "*." <= n then n[2..] else n));
    if "*." <= n {
      WildcardLabels(n);
    }
    assert NoEmptyLabel(n);
    forall i | 0 <= i < |Labels(Canonical(name))|
      ensures Labels(Canonical(name))[i] != ""
    {
      assert Labels(Hex.Lower(n))[i] == Hex.Lower(Labels(n)[i]);
    }
  }

  lemma ValidLabelsAreNotEmpty(labels: seq<string>)
    requires forall i :: 0 <= i < |labels| ==> ValidLabel(labels[i])
    ensures forall i :: 0 <= i < |labels| ==> labels[i] != ""
  {
    forall i | 0 <= i < |labels|
      ensures labels[i] != ""
    {
      assert ValidLabel(labels[i]);
    }
  }

  lemma WildcardLabels(n: string)
    requires "*." <= n
    ensures Labels(n) == ["*"] + Labels(n[2..])
  {
    assert n == "*" + ['.'] + n[2..];
    SplitOfConcat("*", n[2..], '.');
    SplitWithoutSeparator("*", '.');
  }

  /** For every valid DNS name and every pattern, the string matcher refines the label
      reading. */
  lemma MatchesDomainMeansLabels(pattern: string, name: string)
    requires IsValidDnsName(name)
    ensures MatchesDomain(pattern, name) <==> LabelMatch(Canonical(pattern), Canonical(name))
  {
    ValidNameHasLabels(name);
    MatcherMeansLabels(Canonical(pattern), Canonical(name));
  }

  lemma {:induction false} TrimKeepsStart(s: string)
    requires s != "" && !IsBlank(s[0])
    ensures TrimBlanks(s) <= s && TrimBlanks(s) != ""
  {
    if IsBlank(s[|s| - 1]) {
      TrimKeepsStart(s[..|s| - 1]);
    }
  }

  lemma {:induction false} TrimIsPart(s: string, c: char)
    requires c in s && !IsBlank(c)
    ensures c in TrimBlanks(s)
    decreases |s|
  {
    if IsBlank(s[0]) {
      TrimIsPart(s[1..], c);
    } else if IsBlank(s[|s| - 1]) {
      assert s == s[..|s| - 1] + [s[|s| - 1]];
      TrimIsPart(s[..|s| - 1], c);
    }
  }

  lemma {:induction false} PartsHaveAll(s: string, sep: char, c: char)
    requires c in s && c != sep
    ensures exists i :: 0 <= i < |Split(s, sep)| && c in Split(s, sep)[i]
  {
    var rest := Split(s[1..], sep);
    if s[0] == c {
      assert c in Split(s, sep)[0];
    } else {
      assert c in s[1..];
      PartsHaveAll(s[1..], sep, c);
      var i :| 0 <= i < |rest| && c in rest[i];
      if s[0] == sep {
        assert Split(s, sep)[i + 1] == rest[i];
      } else {
        assert Split(s, sep)[i] == if i == 0 then [s[0]] + rest[0] else rest[i];
      }
    }
  }

  lemma ValidNameHasNoComma(name: string)
    requires IsValidDnsName(name)
    ensures ',' !in name
  {
    var n := TrimBlanks(name);
    var base := if "*." <= n then n[2..] else n;
    assert n == if "*." <= n then ['*', '.'] + base else base;
    forall i | 0 <= i < |Labels(base)|
      ensures ',' !in Labels(base)[i]
    {
      assert ValidLabel(Labels(base)[i]);
    }
    if ',' in base {
      PartsHaveAll(base, '.', ',');
    }
    if ',' in name {
      TrimIsPart(name, ',');
    }
  }

  /** A valid wildcard is permitted by an account whose only pattern it is, blanks and all. */
  lemma WildcardPermitsItself(name: string)
    requires IsValidDnsName(name) && "*." <= TrimBlanks(name)
    ensures CheckDomains(name, [name])
  {
    ValidNameHasNoComma(name);
    SplitWithoutSeparator(name, ',');
    var n := TrimBlanks(name);
    var c := Canonical(name);
    assert c[0] == '*' && c[1] == '.' && |c| == |n|;
    assert !("**." <= c) && "*." <= c;
    assert c[..1] + ("." + c[2..]) == c;
    assert c[|c| - (|c| - 1)..] == "." + c[2..];
    assert c[..1] == "*";
    assert MatchesCanonical(c, c);
    assert name in Split(name, ',') && forall d :: d in [name] ==> d == name;
  }

  lemma SpacedWildcardIsValid(blank: char)
    requires IsBlank(blank)
    ensures IsValidDnsName([blank] + "*.a") && TrimBlanks([blank] + "*.a") == "*.a" && "*." <= "*.a"
  {
    assert ([blank] + "*.a")[1..] == "*.a";
    assert TrimBlanks("*.a") == "*.a";
    assert "*.a"[2..] == "a";
    SplitWithoutSeparator("a", '.');
    assert Labels("a") == ["a"];
    assert IsLabelChar("a"[0]) && ValidLabel("a") && !AllDigits("a");
  }

  // ---- Which names are valid ----

  /** A label: 1 to 63 letters, digits and hyphens, no hyphen at either end. */
  predicate LdhLabel(l: string) {
    && 1 <= |l| <= 63 && l[0] != '-' && l[|l| - 1] != '-'
    && forall i :: 0 <= i < |l| ==>
         'a' <= l[i] <= 'z' || 'A' <= l[i] <= 'Z' || '0' <= l[i] <= '9' || l[i] == '-'
  }

  predicate Numeric(l: string) {
    forall i :: 0 <= i < |l| ==> '0' <= l[i] <= '9'
  }

  ghost predicate NoDots(labels: seq<string>) {
    forall i :: 0 <= i < |labels| ==> '.' !in labels[i]
  }

  lemma {:induction false} SplitOfJoin(labels: seq<string>)
    requires labels != [] && NoDots(labels)
    ensures Labels(Join(labels, '.')) == labels
  {
    SplitWithoutSeparator(labels[0], '.');
    if |labels| > 1 {
      var rest := labels[1..];
      assert forall i :: 0 <= i < |rest| ==> rest[i] == labels[i + 1];
      SplitOfJoin(rest);
      SplitOfConcat(labels[0], Join(rest, '.'), '.');
      assert labels == [labels[0]] + rest;
    } else {
      assert labels == [labels[0]];
    }
  }

  /** Exactly which label lists make a valid name, after a wildcard or without one: only such
      labels, at most 253 characters in all, and not four numbers. */
  lemma ValidLabelListIff(labels: seq<string>, wild: bool)
    requires labels != [] && NoDots(labels)
    requires var name := Written(labels, wild);
             TrimBlanks(name) == name && ("*." <= name <==> wild)
    ensures IsValidDnsName(Written(labels, wild)) <==>
            && |Written(labels, wild)| <= 253 && (forall i :: 0 <= i < |labels| ==> LdhLabel(labels[i]))
            && !(|labels| == 4 && forall i :: 0 <= i < 4 ==> Numeric(labels[i]))
  {
    SplitOfJoin(labels);
    LabelsAreLdhIff(labels);
    if IsValidDnsName(Written(labels, wild)) {
      ValidNameHasValidLabels(Written(labels, wild));
      assert Join(labels, '.') == if wild then Written(labels, wild)[2..] else Written(labels, wild);
    } else if (forall i :: 0 <= i < |labels| ==> LdhLabel(labels[i]))
              && |Written(labels, wild)| <= 253 && !(|labels| == 4 && forall i :: 0 <= i < 4 ==> Numeric(labels[i])) {
      GoodListIsValid(labels, wild);
    }
  }

  function Written(labels: seq<string>, wild: bool): string
    requires labels != []
  {
    (if wild then "*." else "") + Join(labels, '.')
  }

  lemma GoodListIsValid(labels: seq<string>, wild: bool)
    requires labels != [] && NoDots(labels)
    requires var name := Written(labels, wild);
             TrimBlanks(name) == name && ("*." <= name <==> wild) && |name| <= 253
    requires forall i :: 0 <= i < |labels| ==> LdhLabel(labels[i])
    requires !(|labels| == 4 && forall i :: 0 <= i < 4 ==> Numeric(labels[i]))
    ensures IsValidDnsName(Written(labels, wild))
  {
    var name, base := Written(labels, wild), Join(labels, '.');
    SplitOfJoin(labels);
    LabelsAreLdhIff(labels);
    LdhNameHasOnlyLdh(labels);
    assert base == if wild then name[2..] else name;
  }

  lemma LabelsAreLdhIff(labels: seq<string>)
    ensures forall i :: 0 <= i < |labels| ==> (ValidLabel(labels[i]) <==> LdhLabel(labels[i]))
    ensures forall i :: 0 <= i < |labels| ==> (AllDigits(labels[i]) <==> Numeric(labels[i]))
  {
    forall i | 0 <= i < |labels|
      ensures ValidLabel(labels[i]) <==> LdhLabel(labels[i])
      ensures AllDigits(labels[i]) <==> Numeric(labels[i])
    {
      LabelIsLdhIff(labels[i]);
    }
  }

  lemma ValidNameHasValidLabels(name: string)
    requires IsValidDnsName(name)
    ensures var n := TrimBlanks(name);
            var labels := Labels(if "*." <= n then n[2..] else n);
            && (forall i :: 0 <= i < |labels| ==> ValidLabel(labels[i]))
            && !(|labels| == 4 && forall i :: 0 <= i < |labels| ==> AllDigits(labels[i]))
  {
    var n := TrimBlanks(name);
    var base := if "*." <= n then n[2..] else n;
    assert forall i :: 0 <= i < |Labels(base)| ==> ValidLabel(Labels(base)[i]);
  }

  lemma LabelIsLdhIff(l: string)
    ensures ValidLabel(l) <==> LdhLabel(l)
    ensures AllDigits(l) <==> Numeric(l)
  {
    assert forall k :: 0 <= k < |l| ==>
        (IsLabelChar(l[k]) <==>
         'a' <= l[k] <= 'z' || 'A' <= l[k] <= 'Z' || '0' <= l[k] <= '9' || l[k] == '-');
    assert forall k :: 0 <= k < |l| ==> (IsDigit(l[k]) <==> '0' <= l[k] <= '9');
  }

  lemma {:induction false} LdhNameHasOnlyLdh(labels: seq<string>)
    requires labels != [] && forall i :: 0 <= i < |labels| ==> LdhLabel(labels[i])
    ensures var name := Join(labels, '.');
            && name != "" && ':' !in name && '*' !in name && name[0] != '['
  {
    if |labels| > 1 {
      var rest := labels[1..];
      assert forall i :: 0 <= i < |rest| ==> rest[i] == labels[i + 1];
      LdhNameHasOnlyLdh(rest);
      assert Join(labels, '.')[0] == labels[0][0];
    }
  }

  /** And every valid name is such a list, blanks around it aside. */
  lemma ValidNameIsALabelList(name: string) returns (labels: seq<string>, wild: bool)
    requires IsValidDnsName(name)
    ensures labels != [] && NoDots(labels) && (forall i :: 0 <= i < |labels| ==> LdhLabel(labels[i]))
    ensures TrimBlanks(name) == Written(labels, wild) && |Written(labels, wild)| <= 253
    ensures !(|labels| == 4 && forall i :: 0 <= i < 4 ==> Numeric(labels[i]))
  {
    ValidNameHasValidLabels(name);
    labels, wild := LabelListOf(TrimBlanks(name));
  }

  lemma LabelListOf(n: string) returns (labels: seq<string>, wild: bool)
    requires var ls := Labels(if "*." <= n then n[2..] else n);
             && (forall i :: 0 <= i < |ls| ==> ValidLabel(ls[i]))
             && !(|ls| == 4 && forall i :: 0 <= i < |ls| ==> AllDigits(ls[i]))
    ensures labels != [] && NoDots(labels) && (forall i :: 0 <= i < |labels| ==> LdhLabel(labels[i]))
    ensures n == Written(labels, wild)
    ensures !(|labels| == 4 && forall i :: 0 <= i < 4 ==> Numeric(labels[i]))
  {
    wild := "*." <= n;
    var base := if wild then n[2..] else n;
    labels := Labels(base);
    JoinOfSplit(base, '.');
    LabelsHaveNoDots(base);
    LabelsAreLdhIff(labels);
  }

  lemma LabelsHaveNoDots(s: string)
    ensures NoDots(Labels(s))
  {
    forall i | 0 <= i < |Labels(s)|
      ensures '.' !in Labels(s)[i]
    {
      PartsHaveNoSeparator(s, '.', i);
    }
  }

  // ---- Blanks and case ----

  /** Trimming takes the blanks off both ends and nothing else. */
  lemma {:induction false} TrimIs(s: string) returns (from: nat, to: nat)
    ensures from <= to <= |s| && TrimBlanks(s) == s[from..to]
    ensures forall i :: 0 <= i < from || to <= i < |s| ==> IsBlank(s[i])
    ensures from < to ==> !IsBlank(s[from]) && !IsBlank(s[to - 1])
    decreases |s|
  {
    if s != "" && IsBlank(s[0]) {
      var a, b := TrimIs(s[1..]);
      from, to := a + 1, b + 1;
      assert forall i :: 1 <= i < |s| ==> s[i] == s[1..][i - 1];
      assert s[1..][a..b] == s[from..to];
    } else if s != "" && IsBlank(s[|s| - 1]) {
      from, to := TrimIs(s[..|s| - 1]);
      assert s[..|s| - 1][from..to] == s[from..to];
    } else {
      from, to := 0, |s|;
      assert s[0..|s|] == s;
    }
  }

  lemma {:induction false} TrimOfLower(s: string)
    ensures TrimBlanks(Hex.Lower(s)) == Hex.Lower(TrimBlanks(s))
    decreases |s|
  {
    if s != "" {
      var l := Hex.Lower(s);
      assert IsBlank(l[0]) <==> IsBlank(s[0]);
      assert IsBlank(l[|s| - 1]) <==> IsBlank(s[|s| - 1]);
      if IsBlank(s[0]) {
        TrimOfLower(s[1..]);
        assert l[1..] == Hex.Lower(s[1..]);
      } else if IsBlank(s[|s| - 1]) {
        TrimOfLower(s[..|s| - 1]);
        assert l[..|s| - 1] == Hex.Lower(s[..|s| - 1]);
      }
    }
  }

  lemma LowerTwice(s: string)
    ensures Hex.Lower(Hex.Lower(s)) == Hex.Lower(s)
  {
  }

  /** Matching ignores the case of both. */
  lemma CaseDoesNotMatter(pattern: string, domain: string)
    ensures MatchesDomain(pattern, domain) <==> MatchesDomain(Hex.Lower(pattern), Hex.Lower(domain))
  {
    TrimOfLower(pattern);
    TrimOfLower(domain);
    LowerTwice(TrimBlanks(pattern));
    LowerTwice(TrimBlanks(domain));
  }

  lemma PrefixOfLower(s: string)
    ensures "*." <= Hex.Lower(s) <==> "*." <= s
    ensures "**." <= Hex.Lower(s) <==> "**." <= s
  {
    var l := Hex.Lower(s);
    assert forall i :: 0 <= i < |s| ==> (l[i] == '*' <==> s[i] == '*') && (l[i] == '.' <==> s[i] == '.');
    assert "*." <= l <==> |l| >= 2 && l[0] == '*' && l[1] == '.';
    assert "*." <= s <==> |s| >= 2 && s[0] == '*' && s[1] == '.';
    assert "**." <= l <==> |l| >= 3 && l[0] == '*' && l[1] == '*' && l[2] == '.';
    assert "**." <= s <==> |s| >= 3 && s[0] == '*' && s[1] == '*' && s[2] == '.';
  }

  /** Without a wildcard in front, a pattern matches exactly the name that is the same character
      by character, case and surrounding blanks aside. */
  lemma ExactPatternMatches(pattern: string, domain: string)
    requires var p := TrimBlanks(pattern);
             p != "" && !("*." <= p) && !("**." <= p)
    ensures var (p, d) := (TrimBlanks(pattern), TrimBlanks(domain));
            MatchesDomain(pattern, domain) <==>
            |p| == |d| && forall i :: 0 <= i < |p| ==> Hex.LowerChar(p[i]) == Hex.LowerChar(d[i])
  {
    var p, d := TrimBlanks(pattern), TrimBlanks(domain);
    var lp, ld := Hex.Lower(p), Hex.Lower(d);
    PrefixOfLower(p);
    if |p| == |d| && forall i :: 0 <= i < |p| ==> Hex.LowerChar(p[i]) == Hex.LowerChar(d[i]) {
      assert lp == ld;
    }
    assert lp == ld ==> |lp| == |ld| && forall i :: 0 <= i < |p| ==> lp[i] == ld[i];
  }

  /** An order's names pass exactly when there is one and each is what some pattern of the
      comma-separated list means. */
  lemma CheckDomainsMeansLabels(allowed: string, requested: seq<string>)
    requires forall d :: d in requested ==> IsValidDnsName(d)
    ensures CheckDomains(allowed, requested) <==>
            requested != [] &&
            forall d :: d in requested ==>
              exists p :: p in Split(allowed, ',') && LabelMatch(Canonical(p), Canonical(d))
  {
    forall d, p | d in requested
      ensures MatchesDomain(p, d) <==> LabelMatch(Canonical(p), Canonical(d))
    {
      MatchesDomainMeansLabels(p, d);
    }
  }

  /** A single wildcard never reaches deeper than one label, a double one always does. */
  lemma WildcardDepth(suffix: string, first: string, deeper: string, name: string)
    requires suffix != "" && first != "" && deeper != ""
    requires '.' !in first && '.' !in deeper && NoEmptyLabel(suffix)
    requires name == deeper + ['.'] + (first + ['.'] + suffix)
    requires !("*." <= suffix) && suffix[0] != '.'
    ensures !MatchesCanonical("*." + suffix, name) && MatchesCanonical("**." + suffix, name)
    ensures MatchesCanonical("*." + suffix, first + ['.'] + suffix)
    ensures !MatchesCanonical("*." + suffix, suffix) && !MatchesCanonical("**." + suffix, suffix)
  {
    SplitOfConcat(first, suffix, '.');
    SplitOfConcat(deeper, first + ['.'] + suffix, '.');
    SplitWithoutSeparator(first, '.');
    SplitWithoutSeparator(deeper, '.');
    var ls := Labels(suffix);
    assert Labels(first + ['.'] + suffix) == [first] + ls;
    assert Labels(name) == [deeper] + ([first] + ls);
    assert ("*." + suffix)[2..] == suffix && ("**." + suffix)[3..] == suffix;
    assert !("**." <= "*." + suffix) by {
      assert ("*." + suffix)[1] == '.';
    }
    MatcherMeansLabels("*." + suffix, name);
    MatcherMeansLabels("**." + suffix, name);
    MatcherMeansLabels("*." + suffix, first + ['.'] + suffix);
    MatcherMeansLabels("*." + suffix, suffix);
    MatcherMeansLabels("**." + suffix, suffix);
    assert Labels(name)[2..] == ls;
    assert ([first] + ls)[1..] == ls;
  }
}
