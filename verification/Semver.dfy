/** Versions, their precedence and their text, as github.com/blang/semver/v4 implements them. */
module Semver {
  import opened Outcome
  import opened Text

  /** A pre-release identifier: numeric, or alphanumeric. */
  datatype PRVersion = Num(num: U64) | Alpha(str: string)

  datatype Version = Version(major: U64, minor: U64, patch: U64, pre: seq<PRVersion>, build: seq<string>)

  const ZERO := Version(0, 0, 0, [], [])

  // ---------------------------------------------------------------- precedence

  function CompareInt(m: int, n: int): int
  {
    if m > n then 1 else if m < n then -1 else 0
  }

  /** Byte-wise string order. */
  function CompareString(a: string, b: string): (r: int)
    ensures -1 <= r <= 1
    ensures r == 0 <==> a == b
  {
    if a == "" && b == "" then 0
    else if a == "" then -1
    else if b == "" then 1
    else if a[0] != b[0] then if a[0] > b[0] then 1 else -1
    else
      assert a == [a[0]] + a[1..] && b == [b[0]] + b[1..];
      CompareString(a[1..], b[1..])
  }

  function ComparePR(a: PRVersion, b: PRVersion): (r: int)
    ensures -1 <= r <= 1
    ensures r == 0 <==> a == b
  {
    match (a, b)
    case (Num(_), Alpha(_)) => -1
    case (Alpha(_), Num(_)) => 1
    case (Num(m), Num(n)) => CompareInt(m, n)
    case (Alpha(s), Alpha(t)) => CompareString(s, t)
  }

  /** Identifier by identifier; when one list runs out, the longer one is greater. */
  function ComparePre(a: seq<PRVersion>, b: seq<PRVersion>): (r: int)
    ensures -1 <= r <= 1
    ensures r == 0 <==> a == b
  {
    if a == [] && b == [] then 0
    else if a == [] then -1
    else if b == [] then 1
    else
      var c := ComparePR(a[0], b[0]);
      assert a == [a[0]] + a[1..] && b == [b[0]] + b[1..];
      if c != 0 then c else ComparePre(a[1..], b[1..])
  }

  /** `Version.Compare`. */
  function Compare(v: Version, o: Version): (r: int)
    ensures -1 <= r <= 1
  {
    if v.major != o.major then CompareInt(v.major, o.major)
    else if v.minor != o.minor then CompareInt(v.minor, o.minor)
    else if v.patch != o.patch then CompareInt(v.patch, o.patch)
    else if v.pre == [] && o.pre == [] then 0
    else if v.pre == [] then 1
    else if o.pre == [] then -1
    else ComparePre(v.pre, o.pre)
  }

  predicate Eq(v: Version, o: Version) { Compare(v, o) == 0 }
  predicate Gt(v: Version, o: Version) { Compare(v, o) == 1 }
  predicate Lt(v: Version, o: Version) { Compare(v, o) == -1 }
  predicate Le(v: Version, o: Version) { Compare(v, o) <= 0 }
  predicate Ge(v: Version, o: Version) { Compare(v, o) >= 0 }

  lemma {:induction false} CompareStringLaws(a: string, b: string, c: string)
    ensures CompareString(a, b) == -CompareString(b, a)
    ensures CompareString(a, b) < 0 && CompareString(b, c) < 0 ==> CompareString(a, c) < 0
    decreases |a|
  {
    if a != "" && b != "" {
      CompareStringLaws(a[1..], b[1..], if c == "" then "" else c[1..]);
    }
  }

  lemma ComparePRLaws(a: PRVersion, b: PRVersion, c: PRVersion)
    ensures ComparePR(a, b) == -ComparePR(b, a)
    ensures ComparePR(a, b) < 0 && ComparePR(b, c) < 0 ==> ComparePR(a, c) < 0
  {
    if a.Alpha? && b.Alpha? {
      CompareStringLaws(a.str, b.str, if c.Alpha? then c.str else "");
    }
  }

  lemma {:induction false} ComparePreLaws(a: seq<PRVersion>, b: seq<PRVersion>, c: seq<PRVersion>)
    ensures ComparePre(a, b) == -ComparePre(b, a)
    ensures ComparePre(a, b) < 0 && ComparePre(b, c) < 0 ==> ComparePre(a, c) < 0
    decreases |a|
  {
    if a != [] && b != [] {
      ComparePRLaws(a[0], b[0], if c == [] then a[0] else c[0]);
      ComparePreLaws(a[1..], b[1..], if c == [] then [] else c[1..]);
    }
  }

  /** Versions that precedence does not tell apart differ in build metadata only. */
  lemma EqIgnoresBuildOnly(v: Version, o: Version)
    ensures Eq(v, o) <==> v.(build := []) == o.(build := [])
  {
  }

  lemma CompareAntisymmetric(v: Version, o: Version)
    ensures Compare(v, o) == -Compare(o, v)
  {
    ComparePreLaws(v.pre, o.pre, []);
  }

  lemma LtTransitive(u: Version, v: Version, w: Version)
    requires Lt(u, v) && Lt(v, w)
    ensures Lt(u, w)
  {
    ComparePreLaws(u.pre, v.pre, w.pre);
  }

  /** A version may be replaced by one of equal precedence on either side of a comparison. */
  lemma EqSubstitutes(u: Version, v: Version, w: Version)
    requires Eq(u, v)
    ensures Compare(u, w) == Compare(v, w) && Compare(w, u) == Compare(w, v)
  {
  }

  /** Precedence is a total preorder, and its strict part composes with it. */
  lemma TotalPreorder(u: Version, v: Version, w: Version)
    ensures Le(u, u)
    ensures Le(u, v) || Le(v, u)
    ensures Le(u, v) <==> Ge(v, u)
    ensures Lt(u, v) <==> !Le(v, u)
    ensures Le(u, v) && Le(v, w) ==> Le(u, w)
    ensures Le(u, v) && Le(v, w) && (Lt(u, v) || Lt(v, w)) ==> Lt(u, w)
  {
    CompareAntisymmetric(u, v);
    if Eq(u, v) {
      EqSubstitutes(u, v, w);
    } else if Eq(v, w) {
      EqSubstitutes(v, w, u);
    } else if Lt(u, v) && Lt(v, w) {
      LtTransitive(u, v, w);
    }
  }

  // ---------------------------------------------------------------- text

  predicate IsAlphanum(c: char)
  {
    IsDigit(c) || 'a' <= c <= 'z' || 'A' <= c <= 'Z' || c == '-'
  }

  predicate AllAlphanum(s: string) { forall c <- s :: IsAlphanum(c) }

  function PRString(p: PRVersion): string
  {
    match p
    case Num(n) => Itoa(n)
    case Alpha(s) => s
  }

  function PRStrings(pre: seq<PRVersion>): (r: seq<string>)
    ensures |r| == |pre|
    ensures forall i :: 0 <= i < |pre| ==> r[i] == PRString(pre[i])
  {
    if pre == [] then [] else [PRString(pre[0])] + PRStrings(pre[1..])
  }

  /** The text after a mark, when there is any. */
  function Marked(mark: char, parts: seq<string>): string
  {
    if parts == [] then "" else [mark] + Join(parts, '.')
  }

  function TailString(patch: U64, pre: seq<PRVersion>, build: seq<string>): string
  {
    Itoa(patch) + Marked('-', PRStrings(pre)) + Marked('+', build)
  }

  /** `Version.String`. */
  function ToString(v: Version): string
  {
    Itoa(v.major) + "." + (Itoa(v.minor) + "." + TailString(v.patch, v.pre, v.build))
  }

  predicate ValidPR(p: PRVersion)
  {
    p.Alpha? ==> AllAlphanum(p.str) && !AllDigits(p.str)
  }

  predicate ValidBuild(s: string) { s != "" && AllAlphanum(s) }

  /** What parsing yields: identifiers are alphanumeric and non-empty, and all-digit ones are numeric. */
  predicate Valid(v: Version)
  {
    (forall p <- v.pre :: ValidPR(p)) && (forall s <- v.build :: ValidBuild(s))
  }

  /** A number without leading zeroes. */
  function ParseNumber(s: string): Option<U64>
  {
    if AllDigits(s) && !HasLeadingZeroes(s) then ParseUint(s) else None
  }

  /** `NewPRVersion`. */
  function ParsePR(s: string): Option<PRVersion>
  {
    if s == "" then None
    else if AllDigits(s) then
      match ParseNumber(s)
      case None => None
      case Some(n) => Some(Num(n))
    else if AllAlphanum(s) then Some(Alpha(s))
    else None
  }

  function ParsePRs(parts: seq<string>): Option<seq<PRVersion>>
  {
    if parts == [] then Some([])
    else match (ParsePR(parts[0]), ParsePRs(parts[1..]))
      case (Some(p), Some(ps)) => Some([p] + ps)
      case _ => None
  }

  /** The text before the first `c`, and the text after it if there is a `c`. */
  function Cut(s: string, c: char): (string, Option<string>)
  {
    var i := IndexOf(s, c);
    if i == -1 then (s, None) else (s[..i], Some(s[i + 1..]))
  }

  function SplitMarked(rest: Option<string>): seq<string>
  {
    if rest.None? then [] else Split(rest.value, '.')
  }

  /** The third component: patch number, pre-release and build metadata. */
  function ParseTail(s: string): Option<(U64, seq<PRVersion>, seq<string>)>
  {
    var (front, buildText) := Cut(s, '+');
    var (patchText, preText) := Cut(front, '-');
    var build := SplitMarked(buildText);
    match (ParseNumber(patchText), ParsePRs(SplitMarked(preText)))
    case (Some(patch), Some(pre)) =>
      if forall b <- build :: ValidBuild(b) then Some((patch, pre, build)) else None
    case _ => None
  }

  /** `Parse`. */
  function Parse(s: string): Result<Version>
  {
    var (majorText, rest) := Cut(s, '.');
    if rest.None? then Err(InvalidVersion) else
    var (minorText, tail) := Cut(rest.value, '.');
    if tail.None? then Err(InvalidVersion) else
    match (ParseNumber(majorText), ParseNumber(minorText), ParseTail(tail.value))
    case (Some(major), Some(minor), Some(t)) => Ok(Version(major, minor, t.0, t.1, t.2))
    case _ => Err(InvalidVersion)
  }

  lemma CutFound(a: string, c: char, b: string)
    requires c !in a
    ensures Cut(a + [c] + b, c) == (a, Some(b))
  {
    IndexOfConcat(a, c, b);
    assert (a + [c] + b)[..|a|] == a && (a + [c] + b)[|a| + 1..] == b;
  }

  lemma CutInverse(s: string, c: char)
    ensures Cut(s, c).1.None? ==> Cut(s, c).0 == s
    ensures Cut(s, c).1.Some? ==> s == Cut(s, c).0 + [c] + Cut(s, c).1.value
    ensures c !in Cut(s, c).0
  {
  }

  lemma ParseNumberItoa(n: U64)
    ensures ParseNumber(Itoa(n)) == Some(n)
  {
    ItoaValue(n);
  }

  lemma ParseNumberInverse(s: string)
    requires ParseNumber(s).Some?
    ensures Itoa(ParseNumber(s).value) == s
  {
    ValueItoa(s);
  }

  lemma ParsePROfString(p: PRVersion)
    requires ValidPR(p)
    ensures ParsePR(PRString(p)) == Some(p)
    ensures '+' !in PRString(p) && '.' !in PRString(p)
  {
    if p.Num? {
      ParseNumberItoa(p.num);
    }
  }

  lemma {:induction false} ParsePRsOfStrings(pre: seq<PRVersion>)
    requires forall p <- pre :: ValidPR(p)
    ensures ParsePRs(PRStrings(pre)) == Some(pre)
  {
    if pre != [] {
      var p := pre[0];
      ParsePROfString(p);
      ParsePRsOfStrings(pre[1..]);
      assert PRStrings(pre)[1..] == PRStrings(pre[1..]);
      assert pre == [p] + pre[1..];
    }
  }

  lemma {:induction false} ParsePRsInverse(parts: seq<string>)
    requires ParsePRs(parts).Some?
    ensures PRStrings(ParsePRs(parts).value) == parts
    ensures forall p <- ParsePRs(parts).value :: ValidPR(p)
  {
    if parts != [] {
      if AllDigits(parts[0]) {
        ParseNumberInverse(parts[0]);
      }
      ParsePRsInverse(parts[1..]);
      var p, ps := ParsePR(parts[0]).value, ParsePRs(parts[1..]).value;
      assert ([p] + ps)[1..] == ps;
    }
  }

  /** Cutting at a mark undoes `Marked`. */
  lemma CutMarked(front: string, mark: char, parts: seq<string>)
    requires mark !in front
    requires forall p <- parts :: '.' !in p
    ensures Cut(front + Marked(mark, parts), mark).0 == front
    ensures SplitMarked(Cut(front + Marked(mark, parts), mark).1) == parts
  {
    if parts == [] {
      assert front + "" == front;
    } else {
      assert front + Marked(mark, parts) == front + [mark] + Join(parts, '.');
      CutFound(front, mark, Join(parts, '.'));
      SplitJoin(parts, '.');
    }
  }

  lemma MarkedCut(s: string, mark: char)
    ensures s == Cut(s, mark).0 + Marked(mark, SplitMarked(Cut(s, mark).1))
  {
    CutInverse(s, mark);
    var (front, rest) := Cut(s, mark);
    if rest.Some? {
      JoinSplit(rest.value, '.');
      assert Marked(mark, Split(rest.value, '.')) == [mark] + rest.value;
    } else {
      assert front + "" == s;
    }
  }

  lemma ParseTailOfString(patch: U64, pre: seq<PRVersion>, build: seq<string>)
    requires forall p <- pre :: ValidPR(p)
    requires forall s <- build :: ValidBuild(s)
    ensures ParseTail(TailString(patch, pre, build)) == Some((patch, pre, build))
  {
    var strs := PRStrings(pre);
    forall i | 0 <= i < |strs| ensures '+' !in strs[i] && '.' !in strs[i] {
      ParsePROfString(pre[i]);
    }
    JoinAvoids(strs, '.', '+');
    CutMarked(Itoa(patch) + Marked('-', strs), '+', build);
    CutMarked(Itoa(patch), '-', strs);
    ParseNumberItoa(patch);
    ParsePRsOfStrings(pre);
  }

  lemma ParseTailInverse(s: string)
    requires ParseTail(s).Some?
    ensures var t := ParseTail(s).value;
            TailString(t.0, t.1, t.2) == s && (forall p <- t.1 :: ValidPR(p)) && (forall b <- t.2 :: ValidBuild(b))
  {
    MarkedCut(s, '+');
    var front := Cut(s, '+').0;
    MarkedCut(front, '-');
    ParseNumberInverse(Cut(front, '-').0);
    ParsePRsInverse(SplitMarked(Cut(front, '-').1));
  }

  /** Reading back a printed version gives the version itself. */
  lemma ParseToString(v: Version)
    requires Valid(v)
    ensures Parse(ToString(v)) == Ok(v)
  {
    var tail := TailString(v.patch, v.pre, v.build);
    CutFound(Itoa(v.major), '.', Itoa(v.minor) + "." + tail);
    CutFound(Itoa(v.minor), '.', tail);
    ParseNumberItoa(v.major);
    ParseNumberItoa(v.minor);
    ParseTailOfString(v.patch, v.pre, v.build);
  }

  /** A version with all its parts, in print. */
  lemma PrintedVersion()
    ensures ToString(Version(4, 13, 0, [Alpha("rc"), Num(8)], ["b1"])) == "4.13.0-rc.8+b1"
  {
    assert Itoa(4) == "4" && Itoa(13) == "13" && Itoa(0) == "0" && Itoa(8) == "8";
    var pre := [Alpha("rc"), Num(8)];
    assert PRStrings(pre) == ["rc", "8"];
    JoinCons("rc", ["8"], '.');
    assert Join(["rc", "8"], '.') == "rc.8" by {
      assert ["rc"] + ["8"] == ["rc", "8"];
    }
  }

  /** Only printed versions parse: a text that parses is the text of the version it yields, which is valid. */
  lemma ToStringParse(s: string)
    requires Parse(s).Ok?
    ensures ToString(Parse(s).value) == s && Valid(Parse(s).value)
  {
    CutInverse(s, '.');
    var rest := Cut(s, '.').1.value;
    CutInverse(rest, '.');
    ParseNumberInverse(Cut(s, '.').0);
    ParseNumberInverse(Cut(rest, '.').0);
    ParseTailInverse(Cut(rest, '.').1.value);
  }
}
