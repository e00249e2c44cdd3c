/** What newer means for version strings, in terms of their numbers, words and characters alone,
    and what incrementing and cleaning give. */
module VersionOrder {
  import opened Prelude
  import opened Strings
  import opened Version

  // ---------------------------------------------------------------- order of texts

  /** Up to i the texts are the same; there the first ends or has the smaller character. */
  ghost predicate SmallerFrom(a: string, b: string, i: nat) {
    i <= |a| && i < |b| && a[..i] == b[..i] && (i == |a| || a[i] < b[i])
  }

  ghost predicate TextLess(a: string, b: string) {
    exists i :: SmallerFrom(a, b, i)
  }

  lemma {:induction false} SmallerSomewhere(a: string, b: string) returns (i: nat)
    requires StrLess(a, b)
    ensures SmallerFrom(a, b, i)
  {
    if a == "" || a[0] < b[0] {
      i := 0;
    } else {
      var k := SmallerSomewhere(a[1..], b[1..]);
      i := k + 1;
      assert a[..i] == [a[0]] + a[1..][..k] && b[..i] == [b[0]] + b[1..][..k];
    }
  }

  lemma {:induction false} SmallerIsLess(a: string, b: string, i: nat)
    requires SmallerFrom(a, b, i)
    ensures StrLess(a, b)
    decreases i
  {
    if i > 0 {
      assert a[0] == a[..i][0] == b[..i][0] == b[0];
      assert a[1..][..i - 1] == a[..i][1..] == b[..i][1..] == b[1..][..i - 1];
      SmallerIsLess(a[1..], b[1..], i - 1);
    }
  }

  lemma StrLessIff(a: string, b: string)
    ensures StrLess(a, b) <==> TextLess(a, b)
  {
    if StrLess(a, b) {
      var i := SmallerSomewhere(a, b);
    }
    if TextLess(a, b) {
      var i :| SmallerFrom(a, b, i);
      SmallerIsLess(a, b, i);
    }
  }

  // ---------------------------------------------------------------- order of identifiers

  ghost predicate BothNumbers(a: string, b: string) {
    Numeric(a) && Numeric(b)
  }

  /** As numbers if both are numbers, and otherwise as texts. */
  ghost predicate Differ(a: string, b: string) {
    if BothNumbers(a, b) then ParseU32(a).value != ParseU32(b).value else a != b
  }

  ghost predicate Greater(a: string, b: string) {
    if BothNumbers(a, b) then ParseU32(b).value > ParseU32(a).value else TextLess(a, b)
  }

  /** At i the lists differ for the first time, and there the second is greater. */
  ghost predicate GreaterFrom(a: seq<string>, b: seq<string>, i: nat) {
    i < |a| && i < |b| && Differ(a[i], b[i]) && Greater(a[i], b[i]) && forall j :: 0 <= j < i ==> !Differ(a[j], b[j])
  }

  ghost predicate NoDifference(a: seq<string>, b: seq<string>) {
    forall i :: 0 <= i < |a| && i < |b| ==> !Differ(a[i], b[i])
  }

  ghost predicate ListGreater(a: seq<string>, b: seq<string>) {
    (exists i :: GreaterFrom(a, b, i)) || (NoDifference(a, b) && |b| > |a|)
  }

  lemma IdentifierIff(a: string, b: string)
    ensures CompareIdentifier(a, b) == Same <==> !Differ(a, b)
    ensures CompareIdentifier(a, b) == Newer <==> Differ(a, b) && Greater(a, b)
  {
    StrLessIff(a, b);
  }

  lemma {:induction false} GreaterSomewhere(a: seq<string>, b: seq<string>)
    requires CompareParts(a, b)
    ensures ListGreater(a, b)
    decreases |a|
  {
    if a != [] && b != [] {
      IdentifierIff(a[0], b[0]);
      if CompareIdentifier(a[0], b[0]) == Newer {
        assert GreaterFrom(a, b, 0);
      } else {
        GreaterSomewhere(a[1..], b[1..]);
        ListGreaterOn(a, b);
      }
    }
  }

  lemma ListGreaterOn(a: seq<string>, b: seq<string>)
    requires a != [] && b != [] && !Differ(a[0], b[0]) && ListGreater(a[1..], b[1..])
    ensures ListGreater(a, b)
  {
    if i: nat :| GreaterFrom(a[1..], b[1..], i) {
      forall j | 0 <= j < i + 1 ensures !Differ(a[j], b[j]) {
        if j > 0 {
          assert !Differ(a[1..][j - 1], b[1..][j - 1]);
        }
      }
      assert GreaterFrom(a, b, i + 1);
    } else {
      forall j | 0 <= j < |a| && j < |b| ensures !Differ(a[j], b[j]) {
        if j > 0 {
          assert !Differ(a[1..][j - 1], b[1..][j - 1]);
        }
      }
    }
  }

  lemma {:induction false} GreaterAtIsNewer(a: seq<string>, b: seq<string>, i: nat)
    requires GreaterFrom(a, b, i)
    ensures CompareParts(a, b)
    decreases i
  {
    IdentifierIff(a[0], b[0]);
    if i > 0 {
      assert GreaterFrom(a[1..], b[1..], i - 1);
      GreaterAtIsNewer(a[1..], b[1..], i - 1);
    }
  }

  lemma {:induction false} LongerIsNewer(a: seq<string>, b: seq<string>)
    requires NoDifference(a, b) && |b| > |a|
    ensures CompareParts(a, b)
    decreases |a|
  {
    if a != [] {
      IdentifierIff(a[0], b[0]);
      LongerIsNewer(a[1..], b[1..]);
    }
  }

  /** A list of identifiers is newer if and only if it is greater where the two first differ, or
      they differ nowhere and it is longer. */
  lemma ComparePartsIff(a: seq<string>, b: seq<string>)
    ensures CompareParts(a, b) <==> ListGreater(a, b)
  {
    if CompareParts(a, b) {
      GreaterSomewhere(a, b);
    }
    if ListGreater(a, b) {
      if i: nat :| GreaterFrom(a, b, i) {
        GreaterAtIsNewer(a, b, i);
      } else {
        LongerIsNewer(a, b);
      }
    }
  }

  // ---------------------------------------------------------------- order of versions

  /** The parts of a text between dots. */
  ghost predicate PartsOf(s: string, parts: seq<string>) {
    |parts| > 0 && Join(parts, '.') == s && forall i :: 0 <= i < |parts| ==> '.' !in parts[i]
  }

  ghost predicate SameNumbers(v: Version, w: Version) {
    v.major == w.major && v.minor == w.minor && v.patch == w.patch
  }

  /** The numbers of w are greater, the first that differ deciding. */
  ghost predicate GreaterNumbers(v: Version, w: Version) {
    || w.major > v.major
    || (w.major == v.major && w.minor > v.minor)
    || (w.major == v.major && w.minor == v.minor && w.patch > v.patch)
  }

  ghost predicate GreaterPreRelease(a: string, b: string) {
    exists p, q :: PartsOf(a, p) && PartsOf(b, q) && ListGreater(p, q)
  }

  /** w is newer than v. */
  ghost predicate Supersedes(w: Version, v: Version) {
    || GreaterNumbers(v, w)
    || (SameNumbers(v, w) && v.pre.Some? && w.pre.None?)
    || (SameNumbers(v, w) && v.pre.Some? && w.pre.Some? && GreaterPreRelease(v.pre.value, w.pre.value))
  }

  lemma SplitIsPartsOf(s: string)
    ensures PartsOf(s, Split(s, '.'))
  {
    JoinSplit(s, '.');
    forall i | 0 <= i < |Split(s, '.')| ensures '.' !in Split(s, '.')[i] {
      PartsHaveNoSeparator(s, '.', i);
    }
  }

  /** There is one way to cut a text at its dots. */
  lemma {:induction false} PartsOfIsSplit(s: string, parts: seq<string>)
    requires PartsOf(s, parts)
    ensures parts == Split(s, '.')
    decreases |parts|
  {
    if |parts| == 1 {
      SplitWhole(s, '.');
    } else {
      var rest := Join(parts[1..], '.');
      PartsOfIsSplit(rest, parts[1..]);
      SplitFirst(parts[0], rest, '.');
      assert parts == [parts[0]] + parts[1..];
    }
  }

  lemma PreReleaseIff(a: string, b: string)
    ensures ComparePreRelease(a, b) <==> GreaterPreRelease(a, b)
  {
    SplitIsPartsOf(a);
    SplitIsPartsOf(b);
    ComparePartsIff(Split(a, '.'), Split(b, '.'));
    if p, q :| PartsOf(a, p) && PartsOf(b, q) && ListGreater(p, q) {
      PartsOfIsSplit(a, p);
      PartsOfIsSplit(b, q);
    }
  }

  lemma CompareVersionsIff(v: Version, w: Version)
    ensures CompareVersions(v, w) <==> Supersedes(w, v)
  {
    if v.pre.Some? && w.pre.Some? {
      PreReleaseIff(v.pre.value, w.pre.value);
    }
  }

  lemma NotNewerThanItself(v: Version)
    ensures !CompareVersions(v, v)
  {
    if v.pre.Some? {
      PartsAsymmetric(Split(v.pre.value, '.'), Split(v.pre.value, '.'));
    }
  }

  lemma NewerWhereBothParse(blank: char -> bool, current: string, latest: string, v: Version, w: Version)
    requires ParseVersion(CleanVersion(current, blank)) == Some(v) && ParseVersion(CleanVersion(latest, blank)) == Some(w)
    ensures IsNewer(blank, current, latest) <==> CompareVersions(v, w)
  {
    NotNewerThanItself(v);
  }

  lemma NewerWhereOneFails(blank: char -> bool, current: string, latest: string, c: string, l: string)
    requires c == CleanVersion(current, blank) && l == CleanVersion(latest, blank)
    requires ParseVersion(c).None? || ParseVersion(l).None?
    ensures IsNewer(blank, current, latest) <==> StrLess(c, l)
  {
    StrIrreflexive(c);
  }

  /** The order of version strings: by numbers, then pre-releases, where both parse, and by text
      where one does not. */
  lemma NewerIff(blank: char -> bool, current: string, latest: string, c: string, l: string)
    requires c == CleanVersion(current, blank) && l == CleanVersion(latest, blank)
    ensures ParseVersion(c).Some? && ParseVersion(l).Some? ==>
              (IsNewer(blank, current, latest) <==> Supersedes(ParseVersion(l).value, ParseVersion(c).value))
    ensures ParseVersion(c).None? || ParseVersion(l).None? ==>
              (IsNewer(blank, current, latest) <==> TextLess(c, l))
  {
    var v, w := ParseVersion(c), ParseVersion(l);
    if v.Some? && w.Some? {
      NewerWhereBothParse(blank, current, latest, v.value, w.value);
      CompareVersionsIff(v.value, w.value);
    } else {
      NewerWhereOneFails(blank, current, latest, c, l);
      StrLessIff(c, l);
    }
  }

  // ---------------------------------------------------------------- parsing

  /** The text starts with three numbers a, b, c between dots, more parts being allowed before
      the first dash, and what follows that dash is the pre-release. */
  ghost predicate ReadsAs(s: string, v: Version, base: string, a: string, b: string, c: string) {
    && s == base + (match v.pre case None => "" case Some(pre) => "-" + pre)
    && '-' !in base && '.' !in a && '.' !in b && '.' !in c
    && (base == a + "." + b + "." + c || a + "." + b + "." + c + "." <= base)
    && ParseU32(a) == Some(v.major) && ParseU32(b) == Some(v.minor) && ParseU32(c) == Some(v.patch)
  }

  lemma PreReleaseCut(s: string, base: string, pre: Option<string>)
    requires '-' !in base && s == base + (match pre case None => "" case Some(pre) => "-" + pre)
    ensures var parts := Split(s, '-');
            parts[0] == base && pre == if |parts| > 1 then Some(Join(parts[1..], '-')) else None
  {
    match pre
    case None =>
      assert s == base;
      SplitWhole(base, '-');
    case Some(text) =>
      assert s == base + ['-'] + text;
      SplitFirst(base, text, '-');
      assert ([base] + Split(text, '-'))[1..] == Split(text, '-');
      JoinSplit(text, '-');
  }

  lemma ThreeFirst(base: string, a: string, b: string, c: string)
    requires '.' !in a && '.' !in b && '.' !in c
    requires base == a + "." + b + "." + c || a + "." + b + "." + c + "." <= base
    ensures var parts := Split(base, '.'); |parts| >= 3 && parts[0] == a && parts[1] == b && parts[2] == c
  {
    var head := a + "." + b + "." + c;
    if base == head {
      SplitThree(a, b, c);
    } else {
      var more := base[|head| + 1..];
      assert base == a + ['.'] + (b + ['.'] + (c + ['.'] + more));
      SplitFirst(a, b + ['.'] + (c + ['.'] + more), '.');
      SplitFirst(b, c + ['.'] + more, '.');
      SplitFirst(c, more, '.');
    }
  }

  lemma ReadsAsParses(s: string, v: Version, base: string, a: string, b: string, c: string)
    requires ReadsAs(s, v, base, a, b, c)
    ensures ParseVersion(s) == Some(v)
  {
    PreReleaseCut(s, base, v.pre);
    ThreeFirst(base, a, b, c);
  }

  lemma FirstThree(base: string, parts: seq<string>)
    requires parts == Split(base, '.') && |parts| >= 3
    ensures var head := parts[0] + "." + parts[1] + "." + parts[2]; base == head || head + "." <= base
  {
    JoinSplit(base, '.');
    var rest := parts[2..];
    assert parts[1..][1..] == rest && rest[0] == parts[2];
    assert Join(parts[1..], '.') == parts[1] + ['.'] + Join(rest, '.');
    assert base == parts[0] + ['.'] + (parts[1] + ['.'] + Join(rest, '.'));
    var head := parts[0] + "." + parts[1] + "." + parts[2];
    if |rest| == 1 {
      assert base == head;
    } else {
      assert base == head + "." + Join(rest[1..], '.');
    }
  }

  lemma CutAtDash(s: string, parts: seq<string>)
    requires parts == Split(s, '-')
    ensures '-' !in parts[0]
    ensures s == if |parts| == 1 then parts[0] else parts[0] + ("-" + Join(parts[1..], '-'))
  {
    JoinSplit(s, '-');
    PartsHaveNoSeparator(s, '-', 0);
    if |parts| > 1 {
      assert s == parts[0] + ("-" + Join(parts[1..], '-'));
    }
  }

  lemma ParsesReadsAs(s: string, v: Version) returns (base: string, a: string, b: string, c: string)
    requires ParseVersion(s) == Some(v)
    ensures ReadsAs(s, v, base, a, b, c)
  {
    base := Split(s, '-')[0];
    var numbers := Split(base, '.');
    a, b, c := numbers[0], numbers[1], numbers[2];
    CutAtDash(s, Split(s, '-'));
    assert s == base + (match v.pre case None => "" case Some(pre) => "-" + pre);
    PartsHaveNoSeparator(base, '.', 0);
    PartsHaveNoSeparator(base, '.', 1);
    PartsHaveNoSeparator(base, '.', 2);
    FirstThree(base, numbers);
  }

  /** A text parses if and only if it reads as three numbers and possibly a pre-release. */
  lemma ParseVersionIff(s: string, v: Version)
    ensures ParseVersion(s) == Some(v) <==> exists base, a, b, c :: ReadsAs(s, v, base, a, b, c)
  {
    if ParseVersion(s) == Some(v) {
      var base, a, b, c := ParsesReadsAs(s, v);
    }
    if base, a, b, c :| ReadsAs(s, v, base, a, b, c) {
      ReadsAsParses(s, v, base, a, b, c);
    }
  }

  /** Leading zeros do not count. */
  lemma {:induction false} LeadingZero(s: string)
    requires AllDigits(s)
    ensures AllDigits("0" + s) && Value("0" + s) == Value(s)
  {
    var t := "0" + s;
    if s == "" {
      assert t == "0" && t[..0] == "";
    } else {
      assert t[..|t| - 1] == "0" + s[..|s| - 1];
      LeadingZero(s[..|s| - 1]);
    }
  }

  // ---------------------------------------------------------------- cleaning

  /** Blanks are no digits, signs or dashes, and none of what may stand before a version. */
  ghost predicate Blanks(blank: char -> bool) {
    forall c :: blank(c) ==> !IsDigit(c) && c !in "+vrR@"
  }

  /** A text that cleaning leaves alone: it has none of the prefixes and no blanks at its ends. */
  ghost predicate Clean(s: string, blank: char -> bool) {
    s != "" && s[0] !in "vrR@" && !blank(s[0]) && !blank(s[|s| - 1])
  }

  function Repeat(p: string, k: nat): string {
    if k == 0 then "" else p + Repeat(p, k - 1)
  }

  lemma {:induction false} StripRepeat(p: string, k: nat, rest: string)
    requires p != "" && rest != "" && rest[0] != p[0]
    ensures Strip(Repeat(p, k) + rest, p) == rest
  {
    if k == 0 {
      assert "" + rest == rest;
    } else {
      StripRepeat(p, k - 1, rest);
      var s := Repeat(p, k) + rest;
      assert s == p + (Repeat(p, k - 1) + rest);
      assert s[|p|..] == Repeat(p, k - 1) + rest;
    }
  }

  lemma {:induction false} TrimLeftOff(l: string, rest: string, blank: char -> bool)
    requires (forall i :: 0 <= i < |l| ==> blank(l[i])) && rest != "" && !blank(rest[0])
    ensures TrimLeft(l + rest, blank) == rest
  {
    if l == "" {
      assert l + rest == rest;
    } else {
      assert (l + rest)[0] == l[0] && (l + rest)[1..] == l[1..] + rest;
      TrimLeftOff(l[1..], rest, blank);
    }
  }

  lemma {:induction false} TrimRightOff(rest: string, r: string, blank: char -> bool)
    requires (forall i :: 0 <= i < |r| ==> blank(r[i])) && rest != "" && !blank(rest[|rest| - 1])
    ensures TrimRight(rest + r, blank) == rest
    decreases |r|
  {
    if r == "" {
      assert rest + r == rest;
    } else {
      var n := |r| - 1;
      assert (rest + r)[|rest + r| - 1] == r[n] && (rest + r)[..|rest + r| - 1] == rest + r[..n];
      TrimRightOff(rest, r[..n], blank);
    }
  }

  lemma RepeatStarts(p: string, k: nat, rest: string)
    requires p != "" && rest != ""
    ensures Repeat(p, k) + rest != ""
    ensures (Repeat(p, k) + rest)[0] == if k == 0 then rest[0] else p[0]
    ensures (Repeat(p, k) + rest)[|Repeat(p, k) + rest| - 1] == rest[|rest| - 1]
  {
    if k > 0 {
      assert Repeat(p, k) + rest == p + (Repeat(p, k - 1) + rest);
    }
  }

  /** Prefixes that start differently, each repeated, come off one after the other. */
  lemma StripFour(p: string, i: nat, q: string, j: nat, r: string, k: nat, t: string, m: nat, core: string)
    requires p != "" && q != "" && r != "" && t != "" && core != ""
    requires p[0] != q[0] && p[0] != r[0] && p[0] != t[0] && q[0] != r[0] && q[0] != t[0] && r[0] != t[0]
    requires core[0] != p[0] && core[0] != q[0] && core[0] != r[0] && core[0] != t[0]
    ensures var s := Prefixed(p, i, q, j, r, k, t, m, core);
            && Strip(Strip(Strip(Strip(s, p), q), r), t) == core
            && s != "" && s[|s| - 1] == core[|core| - 1]
            && (s[0] == core[0] || s[0] == p[0] || s[0] == q[0] || s[0] == r[0] || s[0] == t[0])
  {
    var d := Repeat(t, m) + core;
    var c := Repeat(r, k) + d;
    var b := Repeat(q, j) + c;
    RepeatStarts(t, m, core);
    RepeatStarts(r, k, d);
    RepeatStarts(q, j, c);
    RepeatStarts(p, i, b);
    StripRepeat(p, i, b);
    StripRepeat(q, j, c);
    StripRepeat(r, k, d);
    StripRepeat(t, m, core);
  }

  function Prefixed(p: string, i: nat, q: string, j: nat, r: string, k: nat, t: string, m: nat, core: string): string {
    Repeat(p, i) + (Repeat(q, j) + (Repeat(r, k) + (Repeat(t, m) + core)))
  }

  lemma Trimmed(before: string, s: string, after: string, blank: char -> bool)
    requires s != "" && !blank(s[0]) && !blank(s[|s| - 1])
    requires (forall x :: 0 <= x < |before| ==> blank(before[x])) && (forall x :: 0 <= x < |after| ==> blank(after[x]))
    ensures TrimRight(TrimLeft(before + s + after, blank), blank) == s
  {
    assert before + s + after == before + (s + after);
    TrimLeftOff(before, s + after, blank);
    TrimRightOff(s, after, blank);
  }

  /** Cleaning takes off the blanks around and any number of each prefix, and leaves the rest. */
  lemma CleanedIs(before: string, i: nat, j: nat, k: nat, m: nat, core: string, after: string, blank: char -> bool)
    requires Blanks(blank) && Clean(core, blank)
    requires (forall x :: 0 <= x < |before| ==> blank(before[x])) && (forall x :: 0 <= x < |after| ==> blank(after[x]))
    ensures CleanVersion(before + Prefixed("refs/tags/", i, "v", j, "RELEASE.", k, "@", m, core) + after, blank) == core
  {
    StripFour("refs/tags/", i, "v", j, "RELEASE.", k, "@", m, core);
    Trimmed(before, Prefixed("refs/tags/", i, "v", j, "RELEASE.", k, "@", m, core), after, blank);
  }

  lemma CleanStays(s: string, blank: char -> bool)
    requires Blanks(blank) && Clean(s, blank)
    ensures CleanVersion(s, blank) == s
  {
    CleanedIs("", 0, 0, 0, 0, s, "", blank);
    assert "" + Prefixed("refs/tags/", 0, "v", 0, "RELEASE.", 0, "@", 0, s) + "" == s;
  }

  // ---------------------------------------------------------------- what is newer

  lemma {:induction false} NumberStarts(s: string)
    requires Numeric(s)
    ensures s != "" && (IsDigit(s[0]) || s[0] == '+')
  {
  }

  /** A version that parses starts with a digit or a plus sign, so cleaning leaves it alone but
      for blanks at its end. */
  lemma ParsedIsClean(s: string, v: Version, blank: char -> bool)
    requires Blanks(blank) && ParseVersion(s) == Some(v) && (s == "" || !blank(s[|s| - 1]))
    ensures CleanVersion(s, blank) == s
  {
    var base, a, b, c := ParsesReadsAs(s, v);
    NumberStarts(a);
    assert s[0] == base[0] == a[0];
    CleanStays(s, blank);
  }

  /** For strings that parse and do not end in a blank: newer is superseding. */
  lemma ParsedNewerIff(blank: char -> bool, s: string, t: string, v: Version, w: Version)
    requires Blanks(blank) && ParseVersion(s) == Some(v) && ParseVersion(t) == Some(w)
    requires (s == "" || !blank(s[|s| - 1])) && (t == "" || !blank(t[|t| - 1]))
    ensures IsNewer(blank, s, t) <==> Supersedes(w, v)
  {
    ParsedIsClean(s, v, blank);
    ParsedIsClean(t, w, blank);
    NewerIff(blank, s, t, s, t);
  }

  /** A release is newer than each of its pre-releases, and not the other way round. */
  lemma ReleaseIsNewer(blank: char -> bool, s: string, t: string, v: Version, w: Version)
    requires Blanks(blank) && ParseVersion(s) == Some(v) && ParseVersion(t) == Some(w)
    requires (s == "" || !blank(s[|s| - 1])) && (t == "" || !blank(t[|t| - 1]))
    requires SameNumbers(v, w) && v.pre.Some? && w.pre.None?
    ensures IsNewer(blank, s, t) && !IsNewer(blank, t, s)
  {
    ParsedNewerIff(blank, s, t, v, w);
    ParsedNewerIff(blank, t, s, w, v);
  }

  // ---------------------------------------------------------------- incrementing

  function Numbers(major: nat, minor: nat, patch: nat): string {
    Decimal(major) + "." + Decimal(minor) + "." + Decimal(patch)
  }

  /** The text of an incremented version: its numbers between dots, a dash and the pre-release. */
  lemma IncrementPrints(s: string, v: Version, alpha: char -> bool)
    requires ParseVersion(s) == Some(v)
    ensures IncrementVersion(s, alpha)
         == match Incremented(v, alpha)
            case Panics => Panics
            case Returns(w) =>
              Returns(Some(match w.pre
                           case None => Numbers(w.major, w.minor, w.patch)
                           case Some(pre) => Numbers(w.major, w.minor, w.patch) + "-" + pre))
  {
  }

  /** The text is x and the number y, with a dot between and no other. */
  ghost predicate IsDotted(pre: string, x: string, y: string) {
    pre == x + "." + y && '.' !in x && '.' !in y && Numeric(y)
  }

  /** x.n becomes x.(n+1), whatever x is, and the numbers stay. */
  lemma IncrementDotted(v: Version, x: string, y: string, n: nat, alpha: char -> bool)
    requires v.pre.Some? && IsDotted(v.pre.value, x, y) && ParseU32(y) == Some(n)
    ensures Incremented(v, alpha) == Returns(Version(v.major, v.minor, v.patch, Some(x + "." + Decimal(n + 1))))
  {
    assert v.pre.value == x + ['.'] + y;
    SplitFirst(x, y, '.');
    SplitWhole(y, '.');
  }

  lemma LastAlphaAt(x: string, c: char, y: string, alpha: char -> bool)
    requires alpha(c) && forall i :: 0 <= i < |y| ==> !alpha(y[i])
    ensures var pre := x + [c] + y;
            LastAlpha(pre, alpha) == |x| && pre[..|x| + 1] == x + [c] && Suffix(pre, alpha) == y
  {
    var pre := x + [c] + y;
    assert alpha(pre[|x|]);
  }

  /** The part after the last dot holds the letter, so it is no number. */
  lemma NotDotted(x: string, c: char, y: string, alpha: char -> bool)
    requires Alphabetic(alpha) && alpha(c) && '.' !in y
    ensures !DottedNumber(x + [c] + y)
  {
    var pre, tail := x + [c] + y, [c] + y;
    assert pre == x + tail;
    SplitTail(x, tail, '.');
    var parts := Split(x, '.');
    var last := parts[|parts| - 1];
    assert (last + tail)[|last|] == c;
    LetterIsNoNumber(last + tail, |last|, alpha);
  }

  /** The last letter of the text is c, between x and y. */
  ghost predicate LastLetter(pre: string, x: string, c: char, y: string, alpha: char -> bool) {
    pre == x + [c] + y && alpha(c) && forall i :: 0 <= i < |y| ==> !alpha(y[i])
  }

  lemma LetterIncrement(pre: string, x: string, c: char, y: string, next: string, alpha: char -> bool)
    requires Alphabetic(alpha) && LastLetter(pre, x, c, y, alpha) && Numeric(y)
    requires next == x + [c] + Decimal(ParseU32(y).value + 1)
    ensures IncrementPreRelease(pre, alpha) == if Ascii(c) then Returns(Some(next)) else Panics
  {
    LastAlphaAt(x, c, y, alpha);
    NumberHasNoDot(y, ParseU32(y).value);
    NotDotted(x, c, y, alpha);
  }

  /** A number right after the last letter goes up by one and the numbers stay, unless the letter
      takes several bytes. */
  lemma IncrementAfterLetter(v: Version, x: string, c: char, y: string, n: nat, alpha: char -> bool)
    requires Alphabetic(alpha) && v.pre.Some? && LastLetter(v.pre.value, x, c, y, alpha) && ParseU32(y) == Some(n)
    ensures Incremented(v, alpha)
         == if Ascii(c) then Returns(Version(v.major, v.minor, v.patch, Some(x + [c] + Decimal(n + 1)))) else Panics
  {
    LetterIncrement(v.pre.value, x, c, y, x + [c] + Decimal(n + 1), alpha);
  }

  /** Neither of the two shapes that are increased, nor one that panics. */
  ghost predicate NothingToIncrease(pre: string, alpha: char -> bool) {
    && (forall x, y :: !IsDotted(pre, x, y))
    && (forall x, c, y :: LastLetter(pre, x, c, y, alpha) ==> Ascii(c) && !Numeric(y))
  }

  lemma DottedParts(pre: string) returns (x: string, y: string)
    requires DottedNumber(pre)
    ensures IsDotted(pre, x, y)
  {
    var parts := Split(pre, '.');
    x, y := parts[0], parts[1];
    PartsHaveNoSeparator(pre, '.', 0);
    PartsHaveNoSeparator(pre, '.', 1);
    JoinSplit(pre, '.');
    assert parts[1..] == [y] && pre == x + "." + y;
  }

  lemma NoIncrement(pre: string, alpha: char -> bool)
    requires NothingToIncrease(pre, alpha)
    ensures IncrementPreRelease(pre, alpha) == Returns(None)
  {
    if DottedNumber(pre) {
      var x, y := DottedParts(pre);
      assert false;
    }
    var i := LastAlpha(pre, alpha);
    if i >= 0 {
      assert LastLetter(pre, pre[..i], pre[i], pre[i + 1..], alpha);
    }
  }

  /** Without a number to increase, the patch goes up by one and the pre-release goes. */
  lemma IncrementPatch(v: Version, alpha: char -> bool)
    requires v.pre.Some? ==> NothingToIncrease(v.pre.value, alpha)
    ensures Incremented(v, alpha) == Returns(Version(v.major, v.minor, v.patch + 1, None))
  {
    if v.pre.Some? {
      NoIncrement(v.pre.value, alpha);
    }
  }

  lemma {:induction false} EndsInDigit(n: nat)
    ensures IsDigit(Decimal(n)[|Decimal(n)| - 1])
  {
  }

  /** What an increment returns ends in a digit. */
  lemma IncrementEndsInDigit(s: string, v: Version, next: string, alpha: char -> bool)
    requires ParseVersion(s) == Some(v) && IncrementVersion(s, alpha) == Returns(Some(next))
    ensures next != "" && IsDigit(next[|next| - 1])
  {
    var w := Incremented(v, alpha).value;
    EndsInDigit(w.patch);
    if w.pre.Some? {
      var pre := v.pre.value;
      if DottedNumber(pre) {
        EndsInDigit(ParseU32(Split(pre, '.')[1]).value + 1);
      } else {
        EndsInDigit(ParseU32(Suffix(pre, alpha)).value + 1);
      }
    }
  }

  /** The incremented version is newer than the version exactly for the pre-releases that are
      incremented as they should be. */
  lemma IncrementIsNewerIff(blank: char -> bool, s: string, v: Version, alpha: char -> bool)
    requires Blanks(blank) && Alphabetic(alpha) && ParseVersion(s) == Some(v) && NoOverflow(v, alpha)
    requires s == "" || !blank(s[|s| - 1])
    ensures IncrementVersion(s, alpha).Returns? ==> IncrementVersion(s, alpha).value.Some?
    ensures IncrementVersion(s, alpha).Returns? && IsNewer(blank, s, IncrementVersion(s, alpha).value.value)
       <==> WellIncremented(v.pre, alpha)
  {
    IncrementNewerIff(s, v, alpha);
    if IncrementVersion(s, alpha).Returns? {
      var next, w := IncrementVersion(s, alpha).value.value, Incremented(v, alpha).value;
      IncrementEndsInDigit(s, v, next, alpha);
      ParsedNewerIff(blank, s, next, v, w);
      CompareVersionsIff(v, w);
    }
  }
}
