/** Version strings: parsing, comparing in the manner of section 11 of Semantic Versioning
    2.0.0, and incrementing. */
module Version {
  import opened Prelude
  import opened Strings

  datatype Version = Version(major: nat, minor: nat, patch: nat, pre: Option<string>)

  predicate Fits(v: Version) {
    v.major <= MAX_U32 && v.minor <= MAX_U32 && v.patch <= MAX_U32
  }

  function ParseVersion(s: string): Option<Version> {
    var parts := Split(s, '-');
    var pre := if |parts| > 1 then Some(Join(parts[1..], '-')) else None;
    var numbers := Split(parts[0], '.');
    if |numbers| < 3 then None
    else match (ParseU32(numbers[0]), ParseU32(numbers[1]), ParseU32(numbers[2]))
      case (Some(major), Some(minor), Some(patch)) => Some(Version(major, minor, patch, pre))
      case _ => None
  }

  function PrintVersion(v: Version): string {
    var base := Decimal(v.major) + "." + Decimal(v.minor) + "." + Decimal(v.patch);
    match v.pre
    case None => base
    case Some(pre) => base + "-" + pre
  }

  lemma DecimalHasOnlyDigits(n: nat)
    ensures '.' !in Decimal(n) && '-' !in Decimal(n)
  {
  }

  lemma SplitThree(a: string, b: string, c: string)
    requires '.' !in a && '.' !in b && '.' !in c
    ensures Split(a + "." + b + "." + c, '.') == [a, b, c]
  {
    var tail := b + "." + c;
    assert a + "." + b + "." + c == a + ['.'] + tail && tail == b + ['.'] + c;
    SplitFirst(a, tail, '.');
    SplitFirst(b, c, '.');
    SplitWhole(c, '.');
  }

  /** Printing a version and parsing it back gives the same version, whatever the text of its
      pre-release. */
  lemma PrintParse(v: Version)
    requires Fits(v)
    ensures ParseVersion(PrintVersion(v)) == Some(v)
  {
    var base := Decimal(v.major) + "." + Decimal(v.minor) + "." + Decimal(v.patch);
    DecimalHasOnlyDigits(v.major);
    DecimalHasOnlyDigits(v.minor);
    DecimalHasOnlyDigits(v.patch);
    SplitThree(Decimal(v.major), Decimal(v.minor), Decimal(v.patch));
    ParseDecimal(v.major);
    ParseDecimal(v.minor);
    ParseDecimal(v.patch);
    match v.pre
    case None =>
      SplitWhole(base, '-');
    case Some(pre) =>
      assert base + "-" + pre == base + ['-'] + pre;
      SplitFirst(base, pre, '-');
      assert ([base] + Split(pre, '-'))[1..] == Split(pre, '-');
      JoinSplit(pre, '-');
  }

  // ---------------------------------------------------------------- cleaning

  function TrimLeft(s: string, blank: char -> bool): string {
    if s != "" && blank(s[0]) then TrimLeft(s[1..], blank) else s
  }

  function TrimRight(s: string, blank: char -> bool): string {
    if s != "" && blank(s[|s| - 1]) then TrimRight(s[..|s| - 1], blank) else s
  }

  /** `trim_start_matches`: drops the prefix as often as it is there. */
  function Strip(s: string, prefix: string): string
    requires prefix != ""
  {
    if prefix <= s then Strip(s[|prefix|..], prefix) else s
  }

  /** Drops blanks around a version and what stands before it. */
  function CleanVersion(s: string, blank: char -> bool): string {
    Strip(Strip(Strip(Strip(TrimRight(TrimLeft(s, blank), blank), "refs/tags/"), "v"), "RELEASE."), "@")
  }

  // ---------------------------------------------------------------- comparing

  datatype Verdict = Newer | Older | Same

  /** How the second of two identifiers compares with the first. */
  function CompareIdentifier(cur: string, lat: string): Verdict {
    match (ParseU32(cur), ParseU32(lat))
    case (Some(c), Some(l)) => if l > c then Newer else if l < c then Older else Same
    case _ => if cur == lat then Same else if StrLess(cur, lat) then Newer else Older
  }

  function CompareParts(cur: seq<string>, lat: seq<string>): bool {
    if cur == [] || lat == [] then |lat| > |cur|
    else match CompareIdentifier(cur[0], lat[0])
      case Newer => true
      case Older => false
      case Same => CompareParts(cur[1..], lat[1..])
  }

  function ComparePreRelease(cur: string, lat: string): bool {
    CompareParts(Split(cur, '.'), Split(lat, '.'))
  }

  function CompareVersions(cur: Version, lat: Version): bool {
    if lat.major != cur.major then lat.major > cur.major
    else if lat.minor != cur.minor then lat.minor > cur.minor
    else if lat.patch != cur.patch then lat.patch > cur.patch
    else match (cur.pre, lat.pre)
      case (None, None) => false
      case (Some(_), None) => true
      case (None, Some(_)) => false
      case (Some(c), Some(l)) => ComparePreRelease(c, l)
  }

  /** Whether the latest of two version strings is newer, after a cleaning of both. */
  function IsNewer(blank: char -> bool, current: string, latest: string): bool {
    var c, l := CleanVersion(current, blank), CleanVersion(latest, blank);
    if c == l then false
    else match (ParseVersion(c), ParseVersion(l))
      case (Some(cur), Some(lat)) => CompareVersions(cur, lat)
      case _ => StrLess(c, l)
  }

  lemma IdentifierFlip(a: string, b: string)
    ensures CompareIdentifier(a, b) == Newer <==> CompareIdentifier(b, a) == Older
    ensures CompareIdentifier(a, b) == Same <==> CompareIdentifier(b, a) == Same
  {
    StrTotal(a, b);
  }

  lemma {:induction false} PartsAsymmetric(a: seq<string>, b: seq<string>)
    ensures !(CompareParts(a, b) && CompareParts(b, a))
    decreases |a|
  {
    if a != [] && b != [] {
      IdentifierFlip(a[0], b[0]);
      PartsAsymmetric(a[1..], b[1..]);
    }
  }

  /** Of two strings at most one is newer than the other, whatever the strings are. */
  lemma NewerIsAsymmetric(blank: char -> bool, a: string, b: string)
    ensures !(IsNewer(blank, a, b) && IsNewer(blank, b, a))
  {
    var c, l := CleanVersion(a, blank), CleanVersion(b, blank);
    StrTotal(c, l);
    match (ParseVersion(c), ParseVersion(l))
    case (Some(v), Some(w)) =>
      if v.pre.Some? && w.pre.Some? {
        PartsAsymmetric(Split(v.pre.value, '.'), Split(w.pre.value, '.'));
      }
    case _ =>
  }

  // ---------------------------------------------------------------- transitivity

  predicate Numeric(s: string) {
    ParseU32(s).Some?
  }

  /** A word that stands, as text, strictly between two numbers that are ordered the other way
      as numbers. */
  ghost predicate Straddles(p: string, w: string, q: string) {
    && Numeric(p) && Numeric(q) && !Numeric(w)
    && ParseU32(p).value <= ParseU32(q).value
    && StrLess(q, w) && StrLess(w, p)
  }

  ghost predicate NoStraddle(ids: set<string>) {
    forall p, w, q :: p in ids && w in ids && q in ids ==> !Straddles(p, w, q)
  }

  ghost predicate Less(a: string, b: string) {
    CompareIdentifier(a, b) == Newer
  }

  ghost predicate TransitiveOn(ids: set<string>) {
    forall a, b, c :: a in ids && b in ids && c in ids && Less(a, b) && Less(b, c) ==> Less(a, c)
  }

  lemma StrThree(a: string, b: string, c: string)
    ensures StrLess(a, b) && StrLess(b, c) ==> StrLess(a, c)
    ensures !(StrLess(a, b) && StrLess(b, c) && StrLess(c, a))
  {
    StrTotal(a, c);
    if StrLess(a, b) && StrLess(b, c) { StrTransitive(a, b, c); }
  }

  /** Without a straddling word, one not-newer step composes with a newer one. */
  lemma IdentifierCompose(a: string, b: string, c: string)
    requires NoStraddle({a, b, c})
    requires CompareIdentifier(a, b) != Older && CompareIdentifier(b, c) != Older
    ensures CompareIdentifier(a, c) ==
            if CompareIdentifier(a, b) == Same && CompareIdentifier(b, c) == Same then Same else Newer
  {
    StrTotal(a, b);
    StrTotal(b, c);
    StrTotal(a, c);
    StrThree(a, b, c);
    assert !Straddles(a, c, b) && !Straddles(a, b, c) && !Straddles(b, a, c);
    assert !Straddles(c, b, a) && !Straddles(b, c, a) && !Straddles(c, a, b);
  }

  lemma StraddleBreaks(p: string, w: string, q: string)
    requires Straddles(p, w, q)
    ensures Less(q, w) && Less(w, p) && !Less(q, p)
  {
    StrTotal(w, p);
    StrTotal(q, w);
  }

  lemma NoStraddleSubset(ids: set<string>, sub: set<string>)
    requires NoStraddle(ids) && sub <= ids
    ensures NoStraddle(sub)
  {
  }

  lemma NoStraddleStep(ids: set<string>, a: string, b: string, c: string)
    requires NoStraddle(ids) && {a, b, c} <= ids && Less(a, b) && Less(b, c)
    ensures Less(a, c)
  {
    NoStraddleSubset(ids, {a, b, c});
    IdentifierCompose(a, b, c);
  }

  /** Identifiers compare transitively if and only if no word straddles two of the numbers. */
  lemma IdentifiersTransitiveIff(ids: set<string>)
    ensures TransitiveOn(ids) <==> NoStraddle(ids)
  {
    if NoStraddle(ids) {
      forall a, b, c | a in ids && b in ids && c in ids && Less(a, b) && Less(b, c) ensures Less(a, c) {
        NoStraddleStep(ids, a, b, c);
      }
    } else {
      var p, w, q :| p in ids && w in ids && q in ids && Straddles(p, w, q);
      StraddleBreaks(p, w, q);
    }
  }

  /** Pre-releases compare transitively where no position holds a straddling word. */
  lemma {:induction false} PartsTransitive(a: seq<string>, b: seq<string>, c: seq<string>)
    requires forall i :: 0 <= i < |a| && i < |b| && i < |c| ==> NoStraddle({a[i], b[i], c[i]})
    requires CompareParts(a, b) && CompareParts(b, c)
    ensures CompareParts(a, c)
    decreases |a|
  {
    if a != [] && b != [] && c != [] {
      IdentifierCompose(a[0], b[0], c[0]);
      if CompareIdentifier(a[0], b[0]) == Same && CompareIdentifier(b[0], c[0]) == Same {
        PartsTransitive(a[1..], b[1..], c[1..]);
      }
    }
  }

  /** In particular where the identifiers of a position are all numbers or all words. */
  lemma HomogeneousNoStraddle(ids: set<string>)
    requires (forall s :: s in ids ==> Numeric(s)) || (forall s :: s in ids ==> !Numeric(s))
    ensures NoStraddle(ids)
  {
  }

  /** Pre-releases without a dot compare as identifiers. */
  lemma WholeCompare(a: string, b: string)
    requires '.' !in a && '.' !in b
    ensures ComparePreRelease(a, b) <==> CompareIdentifier(a, b) == Newer
  {
    SplitWhole(a, '.');
    SplitWhole(b, '.');
    CommonStart([], a, b);
    assert [] + [a] == [a] && [] + [b] == [b];
  }

  lemma NineTenAndOneA()
    ensures ParseU32("9") == Some(9) && ParseU32("10") == Some(10) && ParseU32("1a") == None
  {
    assert Value("9") == 9;
    assert "10"[..1] == "1" && Value("1") == 1 && Value("10") == 10;
    assert !IsDigit("1a"[1]);
  }

  /** The comparison is not transitive in general: 9 < 10 < 1a < 9. */
  lemma ComparisonCycle()
    ensures ComparePreRelease("9", "10") && ComparePreRelease("10", "1a") && ComparePreRelease("1a", "9")
  {
    NineTenAndOneA();
    WholeCompare("9", "10");
    WholeCompare("10", "1a");
    WholeCompare("1a", "9");
    assert "10"[1..] == "0" && "1a"[1..] == "a";
  }

  // ---------------------------------------------------------------- incrementing

  /** Alphabetic characters are no digits and no punctuation of a version. */
  ghost predicate Alphabetic(alpha: char -> bool) {
    forall c :: alpha(c) ==> !IsDigit(c) && c != '+' && c != '.'
  }

  /** `rfind`: the position of the last alphabetic character, or -1. */
  function LastAlpha(s: string, alpha: char -> bool): (i: int)
    ensures -1 <= i < |s|
    ensures i >= 0 ==> alpha(s[i])
    ensures forall j :: i < j < |s| ==> !alpha(s[j])
  {
    if s == "" then -1 else if alpha(s[|s| - 1]) then |s| - 1 else LastAlpha(s[..|s| - 1], alpha)
  }

  /** A dotted pair that ends in a number, like alpha.19. */
  predicate DottedNumber(pre: string) {
    |Split(pre, '.')| == 2 && Numeric(Split(pre, '.')[1])
  }

  function Suffix(pre: string, alpha: char -> bool): string {
    pre[LastAlpha(pre, alpha) + 1..]
  }

  /** A number right after the last letter, like alpha19. */
  predicate LetterNumber(pre: string, alpha: char -> bool) {
    LastAlpha(pre, alpha) >= 0 && Numeric(Suffix(pre, alpha))
  }

  /** What a call comes to: a value, or a panic. */
  datatype Outcome<+T> = Returns(value: T) | Panics

  /** A character of one byte; any other takes two to four. */
  predicate Ascii(c: char) {
    c as int < 128
  }

  /** The last letter takes several bytes. `rfind` gives the position of its first byte, and the
      text is then cut after that byte, in the middle of the letter. */
  predicate CutsLetter(pre: string, alpha: char -> bool) {
    LastAlpha(pre, alpha) >= 0 && !Ascii(pre[LastAlpha(pre, alpha)])
  }

  function IncrementPreRelease(pre: string, alpha: char -> bool): Outcome<Option<string>> {
    if DottedNumber(pre) then
      Returns(Some(Split(pre, '.')[0] + "." + Decimal(ParseU32(Split(pre, '.')[1]).value + 1)))
    else if CutsLetter(pre, alpha) then Panics
    else if LetterNumber(pre, alpha) then
      Returns(Some(pre[..LastAlpha(pre, alpha) + 1] + Decimal(ParseU32(Suffix(pre, alpha)).value + 1)))
    else Returns(None)
  }

  function Incremented(v: Version, alpha: char -> bool): Outcome<Version> {
    var next := if v.pre.Some? then IncrementPreRelease(v.pre.value, alpha) else Returns(None);
    match next
    case Panics => Panics
    case Returns(None) => Returns(Version(v.major, v.minor, v.patch + 1, None))
    case Returns(pre) => Returns(v.(pre := pre))
  }

  function IncrementVersion(s: string, alpha: char -> bool): Outcome<Option<string>> {
    match ParseVersion(s)
    case None => Returns(None)
    case Some(v) =>
      match Incremented(v, alpha)
      case Panics => Panics
      case Returns(next) => Returns(Some(PrintVersion(next)))
  }

  /** The number that is to be increased can be. */
  ghost predicate NoOverflow(v: Version, alpha: char -> bool) {
    if v.pre.Some? && DottedNumber(v.pre.value) then ParseU32(Split(v.pre.value, '.')[1]).value < MAX_U32
    else if v.pre.Some? && CutsLetter(v.pre.value, alpha) then true
    else if v.pre.Some? && LetterNumber(v.pre.value, alpha) then ParseU32(Suffix(v.pre.value, alpha)).value < MAX_U32
    else v.patch < MAX_U32
  }

  predicate AllNines(s: string) {
    s != "" && forall i :: 0 <= i < |s| ==> s[i] == '9'
  }

  lemma {:induction false} CommonStart(init: seq<string>, a: string, b: string)
    ensures CompareParts(init + [a], init + [b]) <==> CompareIdentifier(a, b) == Newer
    decreases |init|
  {
    if init != [] {
      assert (init + [a])[1..] == init[1..] + [a] && (init + [b])[1..] == init[1..] + [b];
      StrIrreflexive(init[0]);
      CommonStart(init[1..], a, b);
    } else {
      assert init + [a] == [a] && init + [b] == [b];
    }
  }

  lemma PairCompare(p: string, a: string, b: string)
    requires '.' !in p && '.' !in a && '.' !in b
    ensures ComparePreRelease(p + "." + a, p + "." + b) <==> CompareIdentifier(a, b) == Newer
  {
    assert p + "." + a == p + ['.'] + a && p + "." + b == p + ['.'] + b;
    SplitFirst(p, a, '.');
    SplitFirst(p, b, '.');
    SplitWhole(a, '.');
    SplitWhole(b, '.');
    CommonStart([p], a, b);
  }

  lemma DottedNewer(pre: string, alpha: char -> bool)
    requires DottedNumber(pre) && ParseU32(Split(pre, '.')[1]).value < MAX_U32
    ensures IncrementPreRelease(pre, alpha).Returns? && IncrementPreRelease(pre, alpha).value.Some?
    ensures ComparePreRelease(pre, IncrementPreRelease(pre, alpha).value.value)
  {
    var parts := Split(pre, '.');
    var n := ParseU32(parts[1]).value;
    PartsHaveNoSeparator(pre, '.', 0);
    PartsHaveNoSeparator(pre, '.', 1);
    DecimalHasOnlyDigits(n + 1);
    ParseDecimal(n + 1);
    JoinSplit(pre, '.');
    assert parts[1..] == [parts[1]] && pre == parts[0] + "." + parts[1];
    PairCompare(parts[0], parts[1], Decimal(n + 1));
  }

  /** The order as text of two decimals of which the second is meant to follow the first. */
  ghost predicate FollowsAsText(s: string, t: string) {
    if AllNines(s) then s[0] == '9' && t != "" && t[0] == '1' else |t| == |s| && StrLess(s, t)
  }

  lemma LastDigitUp(p: string, d: nat, s: string, t: string)
    requires d < 9 && s == p + [Digit(d)] && t == p + [Digit(d + 1)]
    ensures FollowsAsText(s, t)
  {
    assert s[|p|] != '9';
    StrPrefix(p, [Digit(d)], [Digit(d + 1)]);
  }

  lemma LastDigitOver(p: string, q: string, s: string, t: string)
    requires p != "" && FollowsAsText(p, q) && s == p + "9" && t == q + "0"
    ensures FollowsAsText(s, t)
  {
    NinesAppend(p);
    if !AllNines(p) {
      StrExtend(p, q, "9", "0");
    }
  }

  lemma OneDigitUp(n: nat)
    requires n < 10
    ensures FollowsAsText(Decimal(n), Decimal(n + 1))
  {
    if n < 9 {
      LastDigitUp("", n, [Digit(n)], [Digit(n + 1)]);
    } else {
      DecimalStep(10, 1, 0);
    }
  }

  lemma NoCarry(n: nat, m: nat, d: nat)
    requires m > 0 && d < 9 && n == 10 * m + d
    ensures FollowsAsText(Decimal(n), Decimal(n + 1))
  {
    DecimalStep(n, m, d);
    DecimalStep(n + 1, m, d + 1);
    LastDigitUp(Decimal(m), d, Decimal(n), Decimal(n + 1));
  }

  lemma Carry(n: nat, m: nat)
    requires m > 0 && n == 10 * m + 9 && FollowsAsText(Decimal(m), Decimal(m + 1))
    ensures FollowsAsText(Decimal(n), Decimal(n + 1))
  {
    DecimalStep(n, m, 9);
    DecimalStep(n + 1, m + 1, 0);
    assert [Digit(9)] == "9" && [Digit(0)] == "0";
    LastDigitOver(Decimal(m), Decimal(m + 1), Decimal(n), Decimal(n + 1));
  }

  /** Adding one to a canonical decimal makes it greater as text, unless it is all nines. */
  lemma {:induction false} DecimalSucc(n: nat)
    ensures FollowsAsText(Decimal(n), Decimal(n + 1))
  {
    if n < 10 {
      OneDigitUp(n);
    } else {
      var m, d := n / 10, n % 10;
      if d < 9 {
        NoCarry(n, m, d);
      } else {
        DecimalSucc(m);
        Carry(n, m);
      }
    }
  }

  lemma NinesAppend(s: string)
    requires s != ""
    ensures AllNines(s + "9") <==> AllNines(s)
  {
    if AllNines(s + "9") {
      forall i | 0 <= i < |s| ensures s[i] == '9' {
        assert (s + "9")[i] == '9';
      }
    }
  }

  lemma DecimalStep(n: nat, m: nat, d: nat)
    requires m > 0 && d < 10 && n == 10 * m + d
    ensures Decimal(n) == Decimal(m) + [Digit(d)]
  {
    assert n / 10 == m && n % 10 == d;
  }

  /** A digit string without leading zero is the decimal of its value. */
  lemma {:induction false} Canonical(s: string)
    requires s != "" && AllDigits(s) && s[0] != '0'
    ensures s == Decimal(Value(s)) && Value(s) > 0
  {
    var rest, d := s[..|s| - 1], DigitValue(s[|s| - 1]);
    assert s == rest + [Digit(d)];
    if rest == "" {
      assert Value(rest) == 0;
    } else {
      Canonical(rest);
      DecimalStep(Value(s), Value(rest), d);
    }
  }

  /** The increased number is greater as text than a digit string exactly when that is not
      made of nines only. */
  lemma SuccessorIsGreater(s: string)
    requires s != "" && AllDigits(s)
    ensures StrLess(s, Decimal(Value(s) + 1)) <==> !AllNines(s)
  {
    var n := Value(s);
    if s[0] == '0' {
      DecimalStartsNonZero(n + 1);
    } else {
      Canonical(s);
      DecimalSucc(n);
    }
  }

  lemma {:induction false} DecimalStartsNonZero(n: nat)
    requires n > 0
    ensures Decimal(n)[0] > '0'
  {
    if n >= 10 { DecimalStartsNonZero(n / 10); }
  }

  /** An identifier with a letter in it is no number. */
  lemma LetterIsNoNumber(s: string, i: nat, alpha: char -> bool)
    requires Alphabetic(alpha) && i < |s| && alpha(s[i])
    ensures !Numeric(s)
  {
    var digits := if |s| > 1 && s[0] == '+' then s[1..] else s;
    if digits != s {
      assert digits[i - 1] == s[i];
    }
  }

  lemma PlusComesFirst(s: string, digits: string)
    requires s != "" && s[0] == '+' && digits != "" && AllDigits(digits)
    ensures StrLess(s, digits) && !AllNines(s)
  {
  }

  lemma NumberHasNoDot(s: string, n: nat)
    requires ParseU32(s) == Some(n)
    ensures '.' !in s
  {
    if |s| > 1 && s[0] == '+' {
      assert s == ['+'] + s[1..];
    }
  }

  lemma SuffixOrder(suffix: string, n: nat)
    requires ParseU32(suffix) == Some(n)
    ensures StrLess(suffix, Decimal(n + 1)) <==> !AllNines(suffix)
  {
    if |suffix| > 1 && suffix[0] == '+' {
      PlusComesFirst(suffix, Decimal(n + 1));
    } else {
      SuccessorIsGreater(suffix);
    }
  }

  /** After a common start that ends in a letter, dot-free ends compare as text. */
  lemma EndsCompareAsText(prefix: string, a: string, b: string, alpha: char -> bool)
    requires Alphabetic(alpha) && prefix != "" && alpha(prefix[|prefix| - 1])
    requires '.' !in a && '.' !in b
    ensures ComparePreRelease(prefix + a, prefix + b) <==> StrLess(a, b)
  {
    var parts := Split(prefix, '.');
    var last := parts[|parts| - 1];
    SplitTail(prefix, a, '.');
    SplitTail(prefix, b, '.');
    LastPartEnds(prefix, '.');
    LetterIsNoNumber(last + a, |last| - 1, alpha);
    LetterIsNoNumber(last + b, |last| - 1, alpha);
    CommonStart(parts[..|parts| - 1], last + a, last + b);
    StrPrefix(last, a, b);
    StrIrreflexive(last + a);
  }

  lemma NumberAfterLetter(prefix: string, suffix: string, n: nat, alpha: char -> bool)
    requires Alphabetic(alpha) && prefix != "" && alpha(prefix[|prefix| - 1]) && ParseU32(suffix) == Some(n)
    ensures ComparePreRelease(prefix + suffix, prefix + Decimal(n + 1)) <==> !AllNines(suffix)
  {
    SuffixOrder(suffix, n);
    NumberHasNoDot(suffix, n);
    DecimalHasOnlyDigits(n + 1);
    EndsCompareAsText(prefix, suffix, Decimal(n + 1), alpha);
  }

  lemma LetterNewerIff(pre: string, alpha: char -> bool)
    requires Alphabetic(alpha) && LetterNumber(pre, alpha) && !DottedNumber(pre)
    ensures IncrementPreRelease(pre, alpha).Panics? <==> CutsLetter(pre, alpha)
    ensures !CutsLetter(pre, alpha) ==> IncrementPreRelease(pre, alpha).value.Some?
    ensures !CutsLetter(pre, alpha) ==>
              (ComparePreRelease(pre, IncrementPreRelease(pre, alpha).value.value) <==> !AllNines(Suffix(pre, alpha)))
  {
    if !CutsLetter(pre, alpha) {
      LetterNewer(pre, alpha, IncrementPreRelease(pre, alpha).value.value);
    }
  }

  lemma LetterNewer(pre: string, alpha: char -> bool, next: string)
    requires Alphabetic(alpha) && LetterNumber(pre, alpha) && !DottedNumber(pre)
    requires IncrementPreRelease(pre, alpha) == Returns(Some(next))
    ensures ComparePreRelease(pre, next) <==> !AllNines(Suffix(pre, alpha))
  {
    var prefix, suffix, n := LetterParts(pre, alpha, next);
    NumberAfterLetter(prefix, suffix, n, alpha);
  }

  lemma LetterParts(pre: string, alpha: char -> bool, next: string) returns (prefix: string, suffix: string, n: nat)
    requires LetterNumber(pre, alpha) && !DottedNumber(pre) && IncrementPreRelease(pre, alpha) == Returns(Some(next))
    ensures suffix == Suffix(pre, alpha) && ParseU32(suffix) == Some(n)
    ensures pre == prefix + suffix && next == prefix + Decimal(n + 1)
    ensures prefix != "" && alpha(prefix[|prefix| - 1])
  {
    prefix, suffix := pre[..LastAlpha(pre, alpha) + 1], Suffix(pre, alpha);
    n := ParseU32(suffix).value;
  }

  /** A text that does not end in the separator has a last part with the same end. */
  lemma {:induction false} LastPartEnds(s: string, sep: char)
    requires s != "" && s[|s| - 1] != sep
    ensures var p := Split(s, sep); p[|p| - 1] != "" && p[|p| - 1][|p[|p| - 1]| - 1] == s[|s| - 1]
  {
    var n := |s| - 1;
    SplitTail(s[..n], [s[n]], sep);
    assert s[..n] + [s[n]] == s;
  }

  /** The pre-releases that are incremented as they should be: none, a dotted number, one
      without a letter, and one whose last letter takes one byte and is not followed by a number
      of nines only. */
  ghost predicate WellIncremented(pre: Option<string>, alpha: char -> bool) {
    pre.None? || DottedNumber(pre.value) || LastAlpha(pre.value, alpha) < 0 ||
    (Ascii(pre.value[LastAlpha(pre.value, alpha)])
     && !(Numeric(Suffix(pre.value, alpha)) && AllNines(Suffix(pre.value, alpha))))
  }

  lemma IncrementedNewerIff(v: Version, alpha: char -> bool)
    requires Alphabetic(alpha)
    ensures Incremented(v, alpha).Panics? <==>
              v.pre.Some? && !DottedNumber(v.pre.value) && CutsLetter(v.pre.value, alpha)
    ensures NoOverflow(v, alpha) ==>
              (Incremented(v, alpha).Returns? && CompareVersions(v, Incremented(v, alpha).value)
               <==> WellIncremented(v.pre, alpha))
  {
    if v.pre.Some? && NoOverflow(v, alpha) {
      if DottedNumber(v.pre.value) {
        DottedNewer(v.pre.value, alpha);
      } else if LetterNumber(v.pre.value, alpha) {
        LetterNewerIff(v.pre.value, alpha);
      }
    }
  }

  /** Incrementing a version that parses either panics or gives a string that parses to the
      incremented version, and which of the two, and whether it is newer, is told by the
      pre-release alone. */
  lemma IncrementNewerIff(s: string, v: Version, alpha: char -> bool)
    requires Alphabetic(alpha) && ParseVersion(s) == Some(v) && NoOverflow(v, alpha)
    ensures IncrementVersion(s, alpha).Panics? <==>
              v.pre.Some? && !DottedNumber(v.pre.value) && CutsLetter(v.pre.value, alpha)
    ensures IncrementVersion(s, alpha).Returns? ==>
              && IncrementVersion(s, alpha).value.Some?
              && Incremented(v, alpha).Returns?
              && ParseVersion(IncrementVersion(s, alpha).value.value) == Some(Incremented(v, alpha).value)
    ensures IncrementVersion(s, alpha).Returns? && CompareVersions(v, Incremented(v, alpha).value)
       <==> WellIncremented(v.pre, alpha)
  {
    IncrementedNewerIff(v, alpha);
    if Incremented(v, alpha).Returns? {
      PrintParse(Incremented(v, alpha).value);
    }
  }

  lemma NineAfterLetter(s: string, alpha: char -> bool)
    requires Alphabetic(alpha) && alpha('c') && s == "c9"
    ensures LastAlpha(s, alpha) == 0 && !DottedNumber(s) && ParseU32(s[1..]) == Some(9)
  {
    assert s[..1] == "c" && s[1..] == "9" && !alpha('9');
    assert LastAlpha(s[..1], alpha) == 0;
    assert Value("9") == DigitValue('9') == 9;
    SplitWhole(s, '.');
  }

  lemma TenAfterLetter(s: string, alpha: char -> bool)
    requires Alphabetic(alpha) && alpha('c') && s == "c9"
    ensures IncrementPreRelease(s, alpha) == Returns(Some("c10"))
    ensures LetterNumber(s, alpha) && !DottedNumber(s) && Suffix(s, alpha) == "9"
  {
    NineAfterLetter(s, alpha);
    DecimalStep(10, 1, 0);
    assert Decimal(10) == [Digit(1)] + [Digit(0)] == "10";
    assert s[..1] + "10" == "c10" && s[1..] == "9";
  }

  /** The increment of c9 is c10, which compares as older. */
  lemma IncrementGoesBack(s: string, alpha: char -> bool)
    requires Alphabetic(alpha) && alpha('c') && s == "c9"
    ensures IncrementPreRelease(s, alpha) == Returns(Some("c10")) && !ComparePreRelease(s, "c10")
  {
    TenAfterLetter(s, alpha);
    LetterNewer(s, alpha, "c10");
    assert AllNines("9");
  }

  /** A beta takes two bytes, and the increment of one followed by 8 panics. */
  lemma IncrementPanics(s: string, alpha: char -> bool)
    requires Alphabetic(alpha) && alpha('\U{3b2}') && s == "\U{3b2}8"
    ensures ParseVersion("1.0.0-" + s) == Some(Version(1, 0, 0, Some(s)))
    ensures IncrementVersion("1.0.0-" + s, alpha) == Panics
  {
    var v := Version(1, 0, 0, Some(s));
    assert PrintVersion(v) == "1.0.0-" + s by {
      assert Decimal(1) == "1" && Decimal(0) == "0";
    }
    PrintParse(v);
    EightAfterBeta(s, alpha);
  }

  lemma EightAfterBeta(s: string, alpha: char -> bool)
    requires Alphabetic(alpha) && alpha('\U{3b2}') && s == "\U{3b2}8"
    ensures IncrementPreRelease(s, alpha) == Panics
  {
    assert !alpha('8') && s[..1] == "\U{3b2}";
    assert LastAlpha(s[..1], alpha) == 0;
    SplitWhole(s, '.');
  }
}
