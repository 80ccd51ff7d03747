/** How the semver library reads the range texts that a pair of bounds is turned into. */
module Ranges {
  import opened Outcome
  import opened Text
  import opened Semver
  import opened Wildcards
  import opened ZeroedIdentifiers

  /** The range a pair of bounds stands for: both ends belong to it. */
  predicate InBounds(first: Version, last: Version, v: Version)
  {
    Ge(v, first) && Le(v, last)
  }

  // ---------------------------------------------------------------- reading one comparison

  /** Position of the first digit of `s`, or -1. */
  function FirstDigit(s: string): (i: int)
    ensures -1 <= i < |s|
    ensures i == -1 <==> forall c <- s :: !IsDigit(c)
    ensures i >= 0 ==> IsDigit(s[i]) && forall k :: 0 <= k < i ==> !IsDigit(s[k])
  {
    if s == "" then -1
    else if IsDigit(s[0]) then 0
    else
      var i := FirstDigit(s[1..]);
      assert s == [s[0]] + s[1..];
      if i == -1 then -1 else i + 1
  }

  /** `splitComparatorVersion`: the text before the first digit, and the rest. */
  function SplitComparator(s: string): Option<(string, string)>
  {
    var i := FirstDigit(s);
    if i == -1 then None else Some((s[..i], s[i..]))
  }

  /** `buildVersionRange` for the comparators that occur. */
  function ParseComparison(s: string): Result<Version -> bool>
  {
    match SplitComparator(s)
    case None => Err(InvalidRange)
    case Some(parts) =>
      match Parse(parts.1)
      case Err(_) => Err(InvalidRange)
      case Ok(bound) =>
        if parts.0 == ">=" then Ok(v => Ge(v, bound))
        else if parts.0 == "<=" then Ok(v => Le(v, bound))
        else if parts.0 == "<" then Ok(v => Lt(v, bound))
        else Err(InvalidRange)
  }

  lemma ComparisonOf(op: string, text: string)
    requires (forall c <- op :: !IsDigit(c)) && text != "" && IsDigit(text[0])
    ensures SplitComparator(op + text) == Some((op, text))
  {
    var s := op + text;
    assert s[|op|] == text[0] && s[..|op|] == op && s[|op|..] == text;
    forall k | 0 <= k < |op| ensures !IsDigit(s[k]) {
      assert s[k] == op[k] && op[k] in op;
    }
    assert s[|op|] in s;
    assert FirstDigit(s) == |op|;
  }

  // ---------------------------------------------------------------- reading a pair of bounds

  const I64_LIMIT := 0x8000_0000_0000_0000

  /** `strconv.Atoi`. */
  function Atoi(s: string): Option<int>
  {
    var signed := s != "" && (s[0] == '-' || s[0] == '+');
    var digits := if signed then s[1..] else s;
    if digits == "" || !AllDigits(digits) then None
    else
      var n := (if signed && s[0] == '-' then -1 else 1) * DecimalValue(digits);
      if -I64_LIMIT <= n < I64_LIMIT then Some(n) else None
  }

  /** `strconv.Itoa` of the next integer, in 64-bit arithmetic. */
  function NextText(n: int): string
  {
    var next := if n + 1 == I64_LIMIT then -I64_LIMIT else n + 1;
    if next < 0 then "-" + Itoa(-next) else Itoa(next)
  }

  /** `incrementMajorVersion` and `incrementMinorVersion` with their errors ignored: part `i` goes up by one. */
  function Incremented(s: string, i: nat): string
  {
    var parts := Split(s, '.');
    if i >= |parts| || Atoi(parts[i]).None? then "" else Join(parts[i := NextText(Atoi(parts[i]).value)], '.')
  }

  /** `expandWildcardVersion` on one comparison with ">=" or "<=". */
  function Expanded(op: string, vStr: string): string
    requires op == ">=" || op == "<="
  {
    var flat := Flattened(vStr);
    if op == ">=" then ">=" + flat
    else
      "<" + match WildcardType(vStr)
            case 3 => Incremented(flat, 1)
            case 2 => Incremented(flat, 0)
            case _ => ""
  }

  /**
   * `ParseRange` on a comparator and a version's text, a single comparison without spaces. Any 'x' in it makes the
   * library expand wildcards.
   */
  function ParseRange(op: string, v: Version): Result<Version -> bool>
    requires op == ">=" || op == "<="
  {
    var text := ToString(v);
    if 'x' !in op + text then ParseComparison(op + text)
    else
      HeadAndTail(v);
      ComparisonOf(op, text);
      var parts := SplitComparator(op + text).value;
      ParseComparison(Expanded(parts.0, parts.1))
  }

  /** The text of a version is no wildcard, so that "<=" becomes "<" with nothing after it. */
  lemma ExpandedVersion(v: Version)
    ensures Expanded(">=", ToString(v)) == ">=" + Flattened(ToString(v)) && Expanded("<=", ToString(v)) == "<"
  {
    NoWildcard(v);
  }

  lemma ParsesExpanded(op: string, v: Version)
    requires (op == ">=" || op == "<=") && 'x' in ToString(v)
    ensures ParseRange(op, v) == ParseComparison(Expanded(op, ToString(v)))
  {
    HeadAndTail(v);
    ComparisonOf(op, ToString(v));
  }

  /** The range of `getChannelDownloads`: its lower bound is read first. */
  function RangeOf(first: Version, last: Version): Result<Version -> bool>
  {
    match ParseRange(">=", first)
    case Err(e) => Err(e)
    case Ok(low) =>
      match ParseRange("<=", last)
      case Err(e) => Err(e)
      case Ok(high) => Ok(v => high(v) && low(v))
  }

  /** What the library takes for the lower bound. */
  function LowerBound(first: Version): Result<Version>
  {
    Parse(LowerText(first))
  }

  function LowerText(first: Version): string
  {
    if 'x' in ToString(first) then Flattened(ToString(first)) else ToString(first)
  }

  /** No pre-release identifier after the first begins with an 'x': a ".x" occurs in the build metadata at most. */
  predicate PlainLower(first: Version)
  {
    var text := ToString(first);
    Find(text, ".x") == -1 || '+' in text[..Find(text, ".x")]
  }

  predicate PlainUpper(last: Version)
  {
    'x' !in ToString(last)
  }

  // ---------------------------------------------------------------- texts of versions

  /** Major and minor of a version's text, with their dots. */
  function Head(v: Version): string
  {
    Itoa(v.major) + "." + (Itoa(v.minor) + ".")
  }

  function Tail(v: Version): string
  {
    TailString(v.patch, v.pre, v.build)
  }

  lemma HeadAndTail(v: Version)
    ensures ToString(v) == Head(v) + Tail(v)
    ensures Tail(v) != "" && IsDigit(Tail(v)[0]) && '+' !in Head(v) && 'x' !in Head(v)
  {
    assert Tail(v)[0] == Itoa(v.patch)[0];
  }

  /** The third part begins with a digit, so the text of a version is not a wildcard. */
  lemma NoWildcard(v: Version)
    ensures WildcardType(ToString(v)) == 0
  {
    ThreeParts(Itoa(v.major), Itoa(v.minor), Tail(v));
    HeadAndTail(v);
    LastIsNotX([Itoa(v.major), Itoa(v.minor)], Tail(v));
  }

  /** No wildcard begins in the head of a version's text. */
  lemma HeadIsPlain(v: Version, rest: string, k: int)
    requires rest != "" && IsDigit(rest[0]) && 0 <= k < |Head(v)|
    ensures !OccursAt(Head(v) + rest, ".x", k)
  {
    OccursMeans(Head(v) + rest, k);
    HeadAndTail(v);
    assert (Head(v) + rest)[k + 1] == if k + 1 < |Head(v)| then Head(v)[k + 1] else rest[0];
  }

  // ---------------------------------------------------------------- the lower bound as the library reads it

  lemma NoWildcardInHead(v: Version)
    ensures NotInPrefix(Head(v), Tail(v), ".x")
  {
    HeadAndTail(v);
    forall k | 0 <= k < |Head(v)| ensures !OccursAt(Head(v) + Tail(v), ".x", k) {
      HeadIsPlain(v, Tail(v), k);
    }
  }

  lemma HeadThen(v: Version, rest: string)
    ensures Head(v) + rest == Itoa(v.major) + ['.'] + (Itoa(v.minor) + ['.'] + rest)
  {
  }

  lemma NotTwoParts(v: Version, rest: string)
    ensures |Split(Head(v) + rest, '.')| >= 3
  {
    ThreeParts(Itoa(v.major), Itoa(v.minor), rest);
    HeadThen(v, rest);
  }

  lemma FlattenedText(v: Version)
    ensures Flattened(ToString(v)) == Head(v) + ZeroedWildcard(Tail(v))
  {
    HeadAndTail(v);
    NoWildcardInHead(v);
    ZeroedAfterPrefix(Head(v), Tail(v));
    NotTwoParts(v, ZeroedWildcard(Tail(v)));
  }

  lemma ParseHeadTail(v: Version, tail: string)
    ensures Parse(Head(v) + tail) ==
            match ParseTail(tail)
            case None => Err(InvalidVersion)
            case Some(t) => Ok(Version(v.major, v.minor, t.0, t.1, t.2))
  {
    CutFound(Itoa(v.major), '.', Itoa(v.minor) + ['.'] + tail);
    CutFound(Itoa(v.minor), '.', tail);
    HeadThen(v, tail);
    ParseNumberItoa(v.major);
    ParseNumberItoa(v.minor);
  }

  lemma PlainTailOfVersion(v: Version)
    ensures PlainLower(v) <==> PlainTail(Tail(v))
  {
    HeadAndTail(v);
    NoWildcardInHead(v);
    FindAfterPrefix(Head(v), Tail(v), ".x");
    var d := Find(Tail(v), ".x");
    if d != -1 {
      assert ToString(v)[..|Head(v)| + d] == Head(v) + Tail(v)[..d];
    }
  }

  lemma LowerBoundIs(v: Version)
    ensures LowerBound(v) == Parse(Head(v) + ZeroedWildcard(Tail(v)))
  {
    FlattenedText(v);
    if 'x' !in ToString(v) {
      HeadAndTail(v);
      FindIsFirst(Tail(v), ".x", 0);
      var d := Find(Tail(v), ".x");
      OccursMeans(Tail(v), d);
      assert d == -1;
      NothingToZero(Tail(v));
    }
  }

  // ---------------------------------------------------------------- what the range means

  lemma TailParses(v: Version)
    requires Valid(v)
    ensures ParseTail(Tail(v)) == Some((v.patch, v.pre, v.build))
  {
    ParseTailOfString(v.patch, v.pre, v.build);
  }

  /** A bound without such an identifier is read as a version of its own precedence. */
  lemma PlainLowerBound(v: Version)
    requires Valid(v) && PlainLower(v)
    ensures LowerBound(v).Ok? && Eq(LowerBound(v).value, v)
  {
    LowerBoundIs(v);
    PlainTailOfVersion(v);
    TailParses(v);
    PlainTailParses(Tail(v));
    ParseHeadTail(v, ZeroedWildcard(Tail(v)));
    EqIgnoresBuildOnly(LowerBound(v).value, v);
  }

  /** Otherwise it is read as a lower version, or not at all. */
  lemma MovedLowerBound(v: Version)
    requires Valid(v) && !PlainLower(v) && LowerBound(v).Ok?
    ensures Lt(LowerBound(v).value, v)
  {
    LowerBoundIs(v);
    PlainTailOfVersion(v);
    TailParses(v);
    ParseHeadTail(v, ZeroedWildcard(Tail(v)));
    MovedTail(Tail(v));
  }

  /** A range that is read if the bound is, and then holds the versions from the bound on. */
  ghost predicate IsAtLeast(r: Result<Version -> bool>, bound: Result<Version>)
  {
    (r.Ok? <==> bound.Ok?) && (r.Ok? && bound.Ok? ==> forall w :: r.value(w) <==> Ge(w, bound.value))
  }

  /** A range that is read and holds the versions up to `v`. */
  ghost predicate IsAtMost(r: Result<Version -> bool>, v: Version)
  {
    r.Ok? && forall w :: r.value(w) <==> Le(w, v)
  }

  lemma LowerRange(v: Version)
    ensures IsAtLeast(ParseRange(">=", v), LowerBound(v))
  {
    LowerParses(v);
    LowerTextBegins(v);
    AtLeast(LowerText(v));
  }

  lemma LowerParses(v: Version)
    ensures ParseRange(">=", v) == ParseComparison(">=" + LowerText(v))
  {
    if PlainUpper(v) {
      ParsesPlain(">=", v);
    } else {
      ParsesExpanded(">=", v);
      ExpandedVersion(v);
    }
  }

  lemma LowerTextBegins(v: Version)
    ensures LowerText(v) != "" && IsDigit(LowerText(v)[0])
  {
    HeadAndTail(v);
    FlattenedText(v);
  }

  /** "<" alone is not a comparison. */
  lemma NoVersionToCompare()
    ensures ParseComparison("<").Err?
  {
    assert forall c <- "<" :: !IsDigit(c);
    assert FirstDigit("<") == -1;
  }

  lemma AtMost(text: string, v: Version)
    requires text != "" && IsDigit(text[0]) && Parse(text) == Ok(v)
    ensures IsAtMost(ParseComparison("<=" + text), v)
  {
    ComparisonOf("<=", text);
  }

  lemma AtLeast(text: string)
    requires text != "" && IsDigit(text[0])
    ensures IsAtLeast(ParseComparison(">=" + text), Parse(text))
  {
    ComparisonOf(">=", text);
  }

  lemma ParsesPlain(op: string, v: Version)
    requires (op == ">=" || op == "<=") && PlainUpper(v)
    ensures ParseRange(op, v) == ParseComparison(op + ToString(v))
  {
  }

  lemma PlainUpperRange(v: Version)
    requires Valid(v) && PlainUpper(v)
    ensures IsAtMost(ParseRange("<=", v), v)
  {
    HeadAndTail(v);
    ParseToString(v);
    AtMost(ToString(v), v);
    ParsesPlain("<=", v);
  }

  lemma RefusedUpperRange(v: Version)
    requires !PlainUpper(v)
    ensures ParseRange("<=", v).Err?
  {
    ParsesExpanded("<=", v);
    ExpandedVersion(v);
    NoVersionToCompare();
  }

  lemma UpperRange(v: Version)
    requires Valid(v)
    ensures ParseRange("<=", v).Ok? <==> PlainUpper(v)
    ensures PlainUpper(v) ==> IsAtMost(ParseRange("<=", v), v)
  {
    if PlainUpper(v) {
      PlainUpperRange(v);
    } else {
      RefusedUpperRange(v);
    }
  }

  /** A lower bound is not readable any more exactly if zeroing an identifier makes a number with a leading zero. */
  lemma LowerFailsExactlyWhen(first: Version)
    requires Valid(first)
    ensures LowerBound(first).Err? <==> SpoiltPre(first.pre)
  {
    LowerBoundIs(first);
    TailParses(first);
    ZeroedReadsExactlyWhen(Tail(first));
    ParseHeadTail(first, ZeroedWildcard(Tail(first)));
  }

  /**
   * The library refuses the pair exactly if an 'x' stands in the upper bound or zeroing an identifier of the lower one
   * makes a number with a leading zero.
   */
  lemma RangeFailsExactlyWhen(first: Version, last: Version)
    requires Valid(first) && Valid(last)
    ensures RangeOf(first, last).Err? <==> !PlainUpper(last) || SpoiltPre(first.pre)
  {
    RangeReads(first, last);
    LowerFailsExactlyWhen(first);
  }

  /** What is read is the range from the lower bound as the library takes it up to the upper one. */
  lemma RangeReads(first: Version, last: Version)
    requires Valid(last)
    ensures RangeOf(first, last).Err? <==> !PlainUpper(last) || LowerBound(first).Err?
    ensures RangeOf(first, last).Ok? ==>
              forall v :: RangeOf(first, last).value(v) <==> Ge(v, LowerBound(first).value) && Le(v, last)
  {
    LowerRange(first);
    UpperRange(last);
  }

  /** The range read is the one the bounds stand for. */
  ghost predicate RangeIsBounds(first: Version, last: Version)
  {
    RangeOf(first, last).Ok? && forall v :: RangeOf(first, last).value(v) <==> InBounds(first, last, v)
  }

  /** A range that is read never leaves out a version between the bounds. */
  lemma RangeContainsBounds(first: Version, last: Version, v: Version)
    requires Valid(first) && Valid(last) && RangeOf(first, last).Ok? && InBounds(first, last, v)
    ensures RangeOf(first, last).value(v)
  {
    RangeReads(first, last);
    LowerIsNotAbove(first);
    TotalPreorder(LowerBound(first).value, first, v);
    CompareAntisymmetric(first, v);
    CompareAntisymmetric(LowerBound(first).value, v);
  }

  lemma LowerIsNotAbove(first: Version)
    requires Valid(first) && LowerBound(first).Ok?
    ensures Le(LowerBound(first).value, first)
  {
    if PlainLower(first) {
      PlainLowerBound(first);
    } else {
      MovedLowerBound(first);
    }
  }

  /**
   * It is exactly the versions between the bounds if and only if the upper bound has no 'x' and the lower one no
   * pre-release identifier, other than the first, that begins with one; or if the lower bound, moved down, is still
   * above the upper one.
   */
  lemma RangeIsBoundsExactlyWhen(first: Version, last: Version)
    requires Valid(first) && Valid(last)
    ensures RangeIsBounds(first, last) <==>
            PlainUpper(last) && (PlainLower(first) || (LowerBound(first).Ok? && Gt(LowerBound(first).value, last)))
  {
    RangeReads(first, last);
    if RangeOf(first, last).Ok? {
      if PlainLower(first) {
        PlainRange(first, last);
      } else {
        MovedRange(first, last);
      }
    } else if PlainLower(first) {
      PlainLowerBound(first);
    }
  }

  lemma PlainRange(first: Version, last: Version)
    requires Valid(first) && Valid(last) && RangeOf(first, last).Ok? && PlainLower(first)
    ensures RangeIsBounds(first, last)
  {
    RangeReads(first, last);
    PlainLowerBound(first);
    EqualBounds(LowerBound(first).value, first, last);
  }

  lemma EqualBounds(low: Version, first: Version, last: Version)
    requires Eq(low, first)
    ensures forall v :: Ge(v, low) && Le(v, last) <==> InBounds(first, last, v)
  {
    forall v ensures Ge(v, low) <==> Ge(v, first) {
      EqSubstitutes(low, first, v);
    }
  }

  lemma MovedRange(first: Version, last: Version)
    requires Valid(first) && Valid(last) && RangeOf(first, last).Ok? && !PlainLower(first)
    ensures LowerBound(first).Ok? && (RangeIsBounds(first, last) <==> Gt(LowerBound(first).value, last))
  {
    RangeReads(first, last);
    MovedLowerBound(first);
    MovedBounds(LowerBound(first).value, first, last, RangeOf(first, last).value);
  }

  /** Moving the lower bound down adds versions unless nothing is below the upper bound. */
  lemma MovedBounds(low: Version, first: Version, last: Version, range: Version -> bool)
    requires Lt(low, first) && forall v :: range(v) <==> Ge(v, low) && Le(v, last)
    ensures (forall v :: range(v) <==> InBounds(first, last, v)) <==> Gt(low, last)
  {
    TotalPreorder(low, first, low);
    if Gt(low, last) {
      forall v ensures !range(v) && !InBounds(first, last, v) {
        NothingBetween(low, last, v);
        CompareAntisymmetric(first, v);
        TotalPreorder(low, first, v);
        CompareAntisymmetric(low, v);
      }
    } else {
      CompareAntisymmetric(low, first);
      assert range(low) && !InBounds(first, last, low);
    }
  }

  lemma NothingBetween(low: Version, last: Version, v: Version)
    requires Gt(low, last)
    ensures !(Ge(v, low) && Le(v, last))
  {
    TotalPreorder(low, v, last);
    CompareAntisymmetric(low, v);
    CompareAntisymmetric(low, last);
  }

  // ---------------------------------------------------------------- inputs on which it differs

  lemma {:induction false} JoinContains(parts: seq<string>, i: nat, c: char)
    requires i < |parts| && c in parts[i]
    ensures c in Join(parts, '.')
  {
    if |parts| > 1 && i > 0 {
      JoinContains(parts[1..], i - 1, c);
    }
  }

  /** An upper bound with an 'x' in some pre-release identifier is refused. */
  lemma PreWithX(first: Version, last: Version, i: nat)
    requires Valid(last) && i < |last.pre| && 'x' in PRString(last.pre[i])
    ensures RangeOf(first, last).Err?
  {
    JoinContains(PRStrings(last.pre), i, 'x');
    HeadAndTail(last);
    assert 'x' in Tail(last);
    RangeReads(first, last);
  }

  /** So "4.13.0-fix.1" is refused. */
  lemma FixReleaseIsRefused(first: Version) returns (last: Version)
    ensures last == Version(4, 13, 0, [Alpha("fix"), Num(1)], []) && Valid(last) && RangeOf(first, last).Err?
  {
    last := Version(4, 13, 0, [Alpha("fix"), Num(1)], []);
    assert !IsDigit("fix"[0]) && "fix"[0] in "fix" && "fix"[2] in "fix";
    PreWithX(first, last, 0);
  }

  /** A lower bound with the pre-release "rc.x1", such as "4.13.0-rc.x1", is refused whatever the upper bound is. */
  lemma LeadingZeroIsRefused(first: Version, last: Version)
    requires first.pre == [Alpha("rc"), Alpha("x1")] && Valid(first) && Valid(last)
    ensures RangeOf(first, last).Err?
  {
    SpoiltSecond("rc", "x1");
    RangeFailsExactlyWhen(first, last);
  }

  /** More generally, a second identifier of an 'x' and digits spoils the bound. */
  lemma SpoiltSecond(a: string, b: string)
    requires BeginsWithX(b) && b[1..] != "" && AllDigits(b[1..])
    ensures SpoiltPre([Alpha(a), Alpha(b)])
  {
    var strs := PRStrings([Alpha(a), Alpha(b)]);
    assert strs[1..] == [b];
  }

  /**
   * A last identifier "x" of the lower bound is read as 0, which gives a version below it: "4.13.0-rc.x" is read as
   * "4.13.0-rc.0".
   */
  lemma WildcardMovesLower(first: Version, low: Version, id: string)
    requires AllAlphanum(id) && !AllDigits(id) && first.pre == [Alpha(id), Alpha("x")] && first.build == []
    requires low == first.(pre := [Alpha(id), Num(0)])
    ensures LowerBound(first) == Ok(low) && Lt(low, first)
  {
    TailOfTwo(first.patch, Alpha(id), Alpha("x"));
    TailOfTwo(first.patch, Alpha(id), Num(0));
    WildcardAtEnd(Itoa(first.patch) + ['-'] + id);
    TwoGroups(first.patch, id, "x");
    TwoGroups(first.patch, id, "0");
    ReadsAs(first, low);
    ComparePreAppend([Alpha(id)], [Num(0)], [Alpha("x")]);
  }

  lemma TwoGroups(patch: U64, id: string, last: string)
    ensures Itoa(patch) + ['-'] + (id + ['.'] + last) == (Itoa(patch) + ['-'] + id) + (['.'] + last)
  {
  }

  lemma ReadsAs(first: Version, low: Version)
    requires Valid(low) && first.major == low.major && first.minor == low.minor
    requires ZeroedWildcard(Tail(first)) == Tail(low)
    ensures LowerBound(first) == Ok(low)
  {
    LowerBoundIs(first);
    HeadAndTail(low);
    ParseToString(low);
  }

  lemma TailOfTwo(patch: U64, a: PRVersion, b: PRVersion)
    ensures TailString(patch, [a, b], []) == Itoa(patch) + ['-'] + (PRString(a) + ['.'] + PRString(b))
  {
    var strs := PRStrings([a, b]);
    assert strs == [PRString(a), PRString(b)];
    assert Join(strs[1..], '.') == PRString(b);
  }
}
