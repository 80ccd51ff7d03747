/** What the semver library makes of an "x" in a version's text, which it takes for a wildcard. */
module Wildcards {
  import opened Outcome
  import opened Text
  import opened Semver

  predicate OccursAt(s: string, t: string, i: int)
  {
    0 <= i <= |s| - |t| && s[i..i + |t|] == t
  }

  /** Position of the first `t` in `s[from..]`, or -1. */
  function FindFrom(s: string, t: string, from: nat): int
    requires from <= |s|
    decreases |s| - from
  {
    if OccursAt(s, t, from) then from
    else if from == |s| then -1
    else FindFrom(s, t, from + 1)
  }

  /** `strings.Index`. */
  function Find(s: string, t: string): (i: int)
    ensures -1 <= i && (i >= 0 ==> i + |t| <= |s|)
  {
    FindIsFirst(s, t, 0);
    FindFrom(s, t, 0)
  }

  /** At `i` stands the first `t` at or after `from`; -1 says that there is none. */
  ghost predicate IsFirstAt(s: string, t: string, from: nat, i: int)
  {
    if i == -1 then forall k :: from <= k ==> !OccursAt(s, t, k)
    else from <= i && OccursAt(s, t, i) && forall k :: from <= k < i ==> !OccursAt(s, t, k)
  }

  lemma {:induction false} FindIsFirst(s: string, t: string, from: nat)
    requires from <= |s|
    ensures IsFirstAt(s, t, from, FindFrom(s, t, from))
    decreases |s| - from
  {
    if from < |s| && !OccursAt(s, t, from) {
      FindIsFirst(s, t, from + 1);
    }
  }

  lemma FirstIsUnique(s: string, t: string, i: int)
    requires IsFirstAt(s, t, 0, i)
    ensures Find(s, t) == i
  {
    FindIsFirst(s, t, 0);
  }

  /** `strings.Replace` of the first occurrence. */
  function ReplaceFirst(s: string, t: string, u: string): string
  {
    var i := Find(s, t);
    if i == -1 then s else s[..i] + u + s[i + |t|..]
  }

  /** The two replacements of `createVersionFromWildcard`. */
  function ZeroedWildcard(s: string): string
  {
    ReplaceFirst(ReplaceFirst(s, ".x.x", ".x"), ".x", ".0")
  }

  /** `createVersionFromWildcard`. */
  function Flattened(s: string): string
  {
    var zeroed := ZeroedWildcard(s);
    if |Split(zeroed, '.')| == 2 then zeroed + ".0" else zeroed
  }

  /** `getWildcardType`: 1, 2 or 3 for a last part "x", 0 otherwise. */
  function WildcardType(s: string): nat
  {
    var parts := Split(s, '.');
    if parts[|parts| - 1] == "x" && |parts| <= 3 then |parts| else 0
  }

  lemma ThreeParts(a: string, b: string, c: string)
    requires '.' !in a && '.' !in b
    ensures Split(a + ['.'] + (b + ['.'] + c), '.') == [a, b] + Split(c, '.')
  {
    SplitConcat(a, '.', b + ['.'] + c);
    SplitConcat(b, '.', c);
  }

  lemma LastIsNotX(front: seq<string>, tail: string)
    requires |front| == 2 && tail != "" && IsDigit(tail[0])
    ensures var parts := front + Split(tail, '.'); |parts| > 3 || parts[|parts| - 1] != "x"
  {
    SplitBegins(tail);
  }

  /** The first part of a text begins as the text does. */
  lemma SplitBegins(s: string)
    requires s != "" && s[0] != '.'
    ensures Split(s, '.')[0] != "" && Split(s, '.')[0][0] == s[0]
  {
  }

  lemma OccursMeans(s: string, k: int)
    ensures OccursAt(s, ".x", k) <==> 0 <= k < |s| - 1 && s[k] == '.' && s[k + 1] == 'x'
  {
    if 0 <= k < |s| - 1 {
      assert s[k..k + 2] == [s[k], s[k + 1]];
    }
  }

  lemma LongerOccurs(s: string, k: int)
    requires OccursAt(s, ".x.x", k)
    ensures OccursAt(s, ".x", k) && OccursAt(s, ".x", k + 2)
  {
    assert s[k..k + 4][..2] == s[k..k + 2] && s[k..k + 4][2..] == s[k + 2..k + 4];
  }

  /** `t` does not begin in the prefix `a` of `a + s`. */
  ghost predicate NotInPrefix(a: string, s: string, t: string)
  {
    forall k :: 0 <= k < |a| ==> !OccursAt(a + s, t, k)
  }

  /** Such a prefix only shifts the first occurrence. */
  lemma FindAfterPrefix(a: string, s: string, t: string)
    requires NotInPrefix(a, s, t)
    ensures Find(a + s, t) == if Find(s, t) == -1 then -1 else |a| + Find(s, t)
  {
    var i := Find(s, t);
    FindIsFirst(s, t, 0);
    var j := if i == -1 then -1 else |a| + i;
    forall k ensures OccursAt(a + s, t, k) ==> k >= |a| && OccursAt(s, t, k - |a|) {
      if OccursAt(a + s, t, k) {
        assert k >= |a|;
        assert (a + s)[k..k + |t|] == s[k - |a|..k - |a| + |t|];
      }
    }
    if i != -1 {
      assert (a + s)[j..j + |t|] == s[i..i + |t|];
    }
    FirstIsUnique(a + s, t, j);
  }

  lemma ReplaceAfterPrefix(a: string, s: string, t: string, u: string)
    requires NotInPrefix(a, s, t)
    ensures ReplaceFirst(a + s, t, u) == a + ReplaceFirst(s, t, u)
  {
    FindAfterPrefix(a, s, t);
    var i := Find(s, t);
    if i != -1 {
      SliceAfterPrefix(a, s, i, i + |t|, u);
      ReplaceAt(a + s, t, u, |a| + i);
      ReplaceAt(s, t, u, i);
    }
  }

  lemma ReplaceAt(s: string, t: string, u: string, i: nat)
    requires Find(s, t) == i
    ensures ReplaceFirst(s, t, u) == s[..i] + u + s[i + |t|..]
  {
  }

  lemma SliceAfterPrefix(a: string, s: string, i: nat, j: nat, u: string)
    requires i <= j <= |s|
    ensures (a + s)[..|a| + i] + u + (a + s)[|a| + j..] == a + (s[..i] + u + s[j..])
  {
    assert (a + s)[..|a| + i] == a + s[..i];
    assert (a + s)[|a| + j..] == s[j..];
  }

  lemma {:induction false} CollapseBegins(s: string)
    ensures var once := ReplaceFirst(s, ".x.x", ".x"); once != "" ==> s != "" && once[0] == s[0]
  {
    FindIsFirst(s, ".x.x", 0);
    var i := Find(s, ".x.x");
    if i >= 0 {
      LongerOccurs(s, i);
      OccursMeans(s, i);
    }
  }

  /** Both replacements leave such a prefix alone. */
  lemma ZeroedAfterPrefix(a: string, s: string)
    requires NotInPrefix(a, s, ".x")
    ensures ZeroedWildcard(a + s) == a + ZeroedWildcard(s)
  {
    forall k | 0 <= k < |a| ensures !OccursAt(a + s, ".x.x", k) {
      if OccursAt(a + s, ".x.x", k) {
        LongerOccurs(a + s, k);
      }
    }
    ReplaceAfterPrefix(a, s, ".x.x", ".x");
    CollapseStaysPlain(a, s);
    ReplaceAfterPrefix(a, ReplaceFirst(s, ".x.x", ".x"), ".x", ".0");
  }

  lemma CollapseStaysPlain(a: string, s: string)
    requires NotInPrefix(a, s, ".x")
    ensures NotInPrefix(a, ReplaceFirst(s, ".x.x", ".x"), ".x")
  {
    var once := ReplaceFirst(s, ".x.x", ".x");
    CollapseBegins(s);
    forall k | 0 <= k < |a| ensures !OccursAt(a + once, ".x", k) {
      OccursMeans(a + s, k);
      OccursMeans(a + once, k);
    }
  }

  /** Without a wildcard there is nothing to replace. */
  lemma NothingToZero(s: string)
    requires Find(s, ".x") == -1
    ensures ZeroedWildcard(s) == s
  {
    FindIsFirst(s, ".x", 0);
    FindIsFirst(s, ".x.x", 0);
    if Find(s, ".x.x") != -1 {
      LongerOccurs(s, Find(s, ".x.x"));
    }
  }

  lemma ZeroedAtStart(s: string)
    requires OccursAt(s, ".x", 0)
    ensures |ZeroedWildcard(s)| >= 2 && ZeroedWildcard(s)[..2] == ".0"
  {
    OccursMeans(s, 0);
    var once := ReplaceFirst(s, ".x.x", ".x");
    FindIsFirst(s, ".x.x", 0);
    var i := Find(s, ".x.x");
    if i > 0 {
      LongerOccurs(s, i);
      OccursMeans(s, i);
    }
    OccursMeans(once, 0);
    FirstIsUnique(once, ".x", 0);
  }

  lemma CutAtWildcard(s: string)
    requires Find(s, ".x") >= 0
    ensures var d := Find(s, ".x");
            NotInPrefix(s[..d], s[d..], ".x") && OccursAt(s[d..], ".x", 0) && s[..d] + s[d..] == s
  {
    var d := Find(s, ".x");
    FindIsFirst(s, ".x", 0);
    assert s[..d] + s[d..] == s;
    assert s[d..][0..2] == s[d..d + 2];
  }

  /** The first wildcard becomes a zero; what stands before it stays. */
  lemma ZeroedForm(s: string) returns (rest: string)
    requires Find(s, ".x") >= 0
    ensures ZeroedWildcard(s) == s[..Find(s, ".x")] + (".0" + rest)
  {
    CutAtWildcard(s);
    var d := Find(s, ".x");
    ZeroedAfterPrefix(s[..d], s[d..]);
    ZeroedAtStart(s[d..]);
    rest := ZeroedWildcard(s[d..])[2..];
    assert ZeroedWildcard(s[d..]) == ".0" + rest;
  }

  /** A wildcard occurs behind a '+' at most. */
  predicate PlainTail(s: string)
  {
    Find(s, ".x") == -1 || '+' in s[..Find(s, ".x")]
  }

  // ---------------------------------------------------------------- in the build metadata it changes nothing

  /** Non-empty identifiers with single dots between them. */
  ghost predicate WellDotted(s: string)
  {
    && s != "" && (forall i :: 0 <= i < |s| ==> IsAlphanum(s[i]) || s[i] == '.')
    && (forall i :: 0 <= i < |s| && s[i] == '.' ==> IsInnerDot(s, i))
  }

  ghost predicate IsInnerDot(s: string, i: int)
    requires 0 <= i < |s|
  {
    0 < i < |s| - 1 && s[i + 1] != '.'
  }

  ghost predicate AllValid(parts: seq<string>)
  {
    forall p <- parts :: ValidBuild(p)
  }

  lemma AllValidCons(front: string, parts: seq<string>)
    ensures AllValid([front] + parts) <==> ValidBuild(front) && AllValid(parts)
  {
    assert ([front] + parts)[0] == front;
    assert forall i :: 0 <= i < |parts| ==> ([front] + parts)[i + 1] == parts[i];
  }

  lemma {:induction false} SplitIsWellDotted(s: string)
    ensures AllValid(Split(s, '.')) <==> WellDotted(s)
    decreases |s|
  {
    var i := IndexOf(s, '.');
    if i == -1 {
      OneIdentifier(s);
      assert Split(s, '.') == [s];
    } else {
      SplitAt(s, '.', i);
      SplitIsWellDotted(s[i + 1..]);
      FirstIdentifier(s, i);
      AllValidCons(s[..i], Split(s[i + 1..], '.'));
    }
  }

  lemma OneIdentifier(s: string)
    requires '.' !in s
    ensures ValidBuild(s) <==> WellDotted(s)
  {
    if WellDotted(s) {
      forall c | c in s ensures IsAlphanum(c) {
        var k :| 0 <= k < |s| && s[k] == c;
      }
    }
  }

  lemma WellDottedStart(s: string)
    requires WellDotted(s)
    ensures s[0] != '.'
  {
  }

  lemma FirstIdentifier(s: string, i: int)
    requires 0 <= i < |s| && s[i] == '.' && '.' !in s[..i]
    ensures WellDotted(s) <==> ValidBuild(s[..i]) && WellDotted(s[i + 1..])
  {
    var front, rest := s[..i], s[i + 1..];
    if WellDotted(s) {
      assert IsInnerDot(s, i);
      forall k | 0 <= k < |rest| && rest[k] == '.' ensures IsInnerDot(rest, k) {
        assert IsInnerDot(s, i + 1 + k);
      }
      forall c | c in front ensures IsAlphanum(c) {
        var k :| 0 <= k < |front| && front[k] == c;
        assert s[k] == c;
      }
    }
    if ValidBuild(front) && WellDotted(rest) {
      forall k | 0 <= k < |s| && s[k] == '.' ensures IsInnerDot(s, k) {
        if k > i {
          assert IsInnerDot(rest, k - i - 1);
        } else {
          WellDottedStart(rest);
        }
      }
      forall k | 0 <= k < |s| ensures IsAlphanum(s[k]) || s[k] == '.' {
        if k < i {
          assert front[k] in front;
        } else if k > i {
          assert rest[k - i - 1] == s[k];
        }
      }
    }
  }

  lemma ZeroKeepsDots(s: string)
    requires WellDotted(s)
    ensures WellDotted(ReplaceFirst(s, ".x", ".0"))
  {
    var r, i := ReplaceFirst(s, ".x", ".0"), Find(s, ".x");
    FindIsFirst(s, ".x", 0);
    OccursMeans(s, i);
    if i != -1 {
      forall k | 0 <= k < |r| ensures r[k] == if k == i + 1 then '0' else s[k] {
      }
      forall k | 0 <= k < |r| && r[k] == '.' ensures IsInnerDot(r, k) {
        assert IsInnerDot(s, k);
      }
    }
  }

  lemma CollapseKeepsDots(s: string)
    requires WellDotted(s)
    ensures WellDotted(ReplaceFirst(s, ".x.x", ".x"))
  {
    FindIsFirst(s, ".x.x", 0);
    var i := Find(s, ".x.x");
    if i != -1 {
      LongerOccurs(s, i);
      OccursMeans(s, i);
      DroppingKeepsDots(s, i + 2);
      assert s[..i] + ".x" == s[..i + 2];
    }
  }

  /** Two characters may go if a dot and an identifier's first character stay before them. */
  lemma DroppingKeepsDots(s: string, j: int)
    requires WellDotted(s) && 2 <= j <= |s| - 2 && s[j - 1] != '.'
    ensures WellDotted(s[..j] + s[j + 2..])
  {
    var r := s[..j] + s[j + 2..];
    forall k | 0 <= k < |r| && r[k] == '.' ensures IsInnerDot(r, k) {
      assert IsInnerDot(s, if k < j then k else k + 2);
    }
  }

  lemma ZeroedBuildIsValid(s: string)
    requires AllValid(Split(s, '.'))
    ensures AllValid(Split(ZeroedWildcard(s), '.'))
  {
    SplitIsWellDotted(s);
    CollapseKeepsDots(s);
    ZeroKeepsDots(ReplaceFirst(s, ".x.x", ".x"));
    SplitIsWellDotted(ZeroedWildcard(s));
  }

  /** What stands before the '+' decides patch and pre-release. */
  lemma TailWithBuild(front: string, build: string)
    requires '+' !in front && AllValid(Split(build, '.'))
    ensures ParseTail(front).Some? ==>
              ParseTail(front + ['+'] + build) ==
              Some((ParseTail(front).value.0, ParseTail(front).value.1, Split(build, '.')))
    ensures ParseTail(front + ['+'] + build).Some? ==> ParseTail(front).Some?
  {
    CutFound(front, '+', build);
    CutInverse(front, '+');
  }

  /** The wildcard in the build metadata of `front+build` is zeroed there. */
  lemma ZeroedBuild(front: string, build: string)
    requires '+' !in front && PlainTail(front + ['+'] + build)
    ensures ZeroedWildcard(front + ['+'] + build) == front + ['+'] + ZeroedWildcard(build)
  {
    var a, s := front + ['+'], front + ['+'] + build;
    var d := Find(s, ".x");
    FindIsFirst(s, ".x", 0);
    if d != -1 {
      var k :| 0 <= k < d && s[..d][k] == '+';
      assert s[k] == '+';
    }
    assert d == -1 || d >= |a|;
    ZeroedAfterPrefix(a, build);
  }

  lemma PlainTailParses(s: string)
    requires ParseTail(s).Some? && PlainTail(s)
    ensures ParseTail(ZeroedWildcard(s)).Some?
    ensures ParseTail(ZeroedWildcard(s)).value.0 == ParseTail(s).value.0
    ensures ParseTail(ZeroedWildcard(s)).value.1 == ParseTail(s).value.1
  {
    var front, build := Cut(s, '+').0, Cut(s, '+').1;
    CutInverse(s, '+');
    if build.None? {
      NothingToZero(s);
    } else {
      ZeroedBuild(front, build.value);
      ZeroedBuildIsValid(build.value);
      TailWithBuild(front, build.value);
      TailWithBuild(front, ZeroedWildcard(build.value));
    }
  }

  // ---------------------------------------------------------------- in the pre-release it gives a lower version

  lemma {:induction false} SplitAppend(a: string, b: string)
    ensures Split(a + ['.'] + b, '.') == Split(a, '.') + Split(b, '.')
    decreases |a|
  {
    var i := IndexOf(a, '.');
    if i == -1 {
      SplitConcat(a, '.', b);
    } else {
      SplitAt(a, '.', i);
      SplitAppend(a[i + 1..], b);
      Regroup(a, i, '.', b);
      SplitConcat(a[..i], '.', a[i + 1..] + ['.'] + b);
      ConsAppend(a[..i], Split(a[i + 1..], '.'), Split(b, '.'));
    }
  }

  lemma ConsAppend(x: string, s: seq<string>, t: seq<string>)
    ensures [x] + (s + t) == ([x] + s) + t
  {
  }

  lemma {:induction false} ParsePRsAppend(a: seq<string>, b: seq<string>)
    requires ParsePRs(a + b).Some?
    ensures ParsePRs(a).Some? && ParsePRs(b).Some?
    ensures ParsePRs(a + b).value == ParsePRs(a).value + ParsePRs(b).value
  {
    if a == [] {
      assert a + b == b;
    } else {
      assert (a + b)[1..] == a[1..] + b;
      ParsePRsAppend(a[1..], b);
    }
  }

  lemma {:induction false} ComparePreAppend(a: seq<PRVersion>, b: seq<PRVersion>, c: seq<PRVersion>)
    ensures ComparePre(a + b, a + c) == ComparePre(b, c)
  {
    if a == [] {
      assert a + b == b && a + c == c;
    } else {
      assert (a + b)[1..] == a[1..] + b && (a + c)[1..] == a[1..] + c;
      ComparePreAppend(a[1..], b, c);
    }
  }

  /** Identifiers from a digit on come before identifiers from a letter on. */
  lemma DigitComesFirst(s: string, t: string)
    requires s != "" && t != "" && s[0] == '0' && t[0] == 'x'
    requires ParsePRs(Split(s, '.')).Some? && ParsePRs(Split(t, '.')).Some?
    ensures ComparePre(ParsePRs(Split(s, '.')).value, ParsePRs(Split(t, '.')).value) == -1
  {
    SplitBegins(s);
    SplitBegins(t);
    assert !IsDigit('x') && Split(t, '.')[0][0] in Split(t, '.')[0];
    assert ParsePR(Split(t, '.')[0]) == Some(Alpha(Split(t, '.')[0]));
  }

  /** Pre-release identifiers in which a zero takes the place of the letter that began one of them. */
  lemma PreMovesDown(front: string, s: string, t: string)
    ensures ParsePRs(Split(front + ['.'] + ("0" + s), '.')).Some? &&
            ParsePRs(Split(front + ['.'] + ("x" + t), '.')).Some? ==>
            ComparePre(ParsePRs(Split(front + ['.'] + ("0" + s), '.')).value,
                       ParsePRs(Split(front + ['.'] + ("x" + t), '.')).value) == -1
  {
    SplitAppend(front, "0" + s);
    SplitAppend(front, "x" + t);
    LaterMovesDown(Split(front, '.'), "0" + s, "x" + t);
  }

  lemma LaterMovesDown(front: seq<string>, s: string, t: string)
    requires s != "" && t != "" && s[0] == '0' && t[0] == 'x'
    ensures ParsePRs(front + Split(s, '.')).Some? && ParsePRs(front + Split(t, '.')).Some? ==>
            ComparePre(ParsePRs(front + Split(s, '.')).value, ParsePRs(front + Split(t, '.')).value) == -1
  {
    if ParsePRs(front + Split(s, '.')).Some? && ParsePRs(front + Split(t, '.')).Some? {
      ParsePRsAppend(front, Split(s, '.'));
      ParsePRsAppend(front, Split(t, '.'));
      DigitComesFirst(s, t);
      ComparePreAppend(ParsePRs(front).value, ParsePRs(Split(s, '.')).value, ParsePRs(Split(t, '.')).value);
    }
  }

  lemma CutAppend(a: string, b: string, c: char)
    requires c !in a
    ensures Cut(a + b, c) == (a + Cut(b, c).0, Cut(b, c).1)
  {
    CutInverse(b, c);
    var (front, rest) := Cut(b, c);
    if rest.Some? {
      assert a + b == a + front + [c] + rest.value;
      CutFound(a + front, c, rest.value);
    } else {
      assert c !in a + b;
    }
  }

  /** Patch and pre-release of a tail, from what stands before a '+'. */
  lemma TailFront(s: string)
    requires ParseTail(s).Some?
    ensures ParseTail(Cut(s, '+').0).Some?
    ensures ParseTail(Cut(s, '+').0).value.0 == ParseTail(s).value.0
    ensures ParseTail(Cut(s, '+').0).value.1 == ParseTail(s).value.1
  {
    CutInverse(s, '+');
    CutInverse(Cut(s, '+').0, '+');
  }

  /** A patch number is followed by a dash before any dot. */
  lemma DashBeforeDot(h: string, rest: string)
    requires '+' !in h && '+' !in rest && '-' !in h
    ensures ParseTail(h + ['.'] + rest).None?
  {
    var s := h + ['.'] + rest;
    assert s == (h + ['.']) + rest;
    CutAppend(h + ['.'], rest, '-');
    CutInverse(s, '+');
    assert (h + ['.'] + Cut(rest, '-').0)[|h|] == '.';
    assert '.' in Cut(s, '-').0;
  }

  lemma TailOfPre(patch: string, pre: string)
    requires '-' !in patch && '+' !in patch && '+' !in pre && ParseTail(patch + ['-'] + pre).Some?
    ensures ParseNumber(patch).Some? && ParsePRs(Split(pre, '.')).Some?
    ensures ParseTail(patch + ['-'] + pre).value.0 == ParseNumber(patch).value
    ensures ParseTail(patch + ['-'] + pre).value.1 == ParsePRs(Split(pre, '.')).value
  {
    CutInverse(patch + ['-'] + pre, '+');
    CutFound(patch, '-', pre);
  }

  lemma FrontOf(h: string, c: char, rest: string)
    requires '+' !in h && c != '+'
    ensures Cut(h + (['.', c] + rest), '+') == (h + ['.'] + ([c] + Cut(rest, '+').0), Cut(rest, '+').1)
    ensures '+' !in Cut(rest, '+').0
  {
    CutAppend(h, ['.', c] + rest, '+');
    CutAppend(['.', c], rest, '+');
    CutInverse(rest, '+');
    DotGroups(h, c, Cut(rest, '+').0);
  }

  lemma DotGroups(h: string, c: char, s: string)
    ensures h + (['.', c] + s) == h + ['.'] + ([c] + s)
  {
  }

  /** The first of two tails comes before the second, and both are pre-releases of one patch. */
  ghost predicate ComesBefore(t: (U64, seq<PRVersion>, seq<string>), u: (U64, seq<PRVersion>, seq<string>))
  {
    t.0 == u.0 && t.1 != [] && u.1 != [] && ComparePre(t.1, u.1) == -1
  }

  lemma PreBehindDash(patch: string, p: string, q: string)
    requires '-' !in patch && '+' !in patch && '+' !in p && '+' !in q
    requires ParseTail(patch + ['-'] + p).Some? && ParseTail(patch + ['-'] + q).Some?
    requires ParsePRs(Split(p, '.')).Some? && ParsePRs(Split(q, '.')).Some? ==>
               ComparePre(ParsePRs(Split(p, '.')).value, ParsePRs(Split(q, '.')).value) == -1
    ensures ComesBefore(ParseTail(patch + ['-'] + p).value, ParseTail(patch + ['-'] + q).value)
  {
    TailOfPre(patch, p);
    TailOfPre(patch, q);
    ParsePRsNonEmpty(Split(p, '.'));
    ParsePRsNonEmpty(Split(q, '.'));
  }

  lemma ParsePRsNonEmpty(parts: seq<string>)
    requires parts != [] && ParsePRs(parts).Some?
    ensures ParsePRs(parts).value != []
  {
  }

  lemma FrontMovesDown(h: string, s: string, t: string)
    requires '+' !in h && '+' !in s && '+' !in t
    requires ParseTail(h + ['.'] + ("0" + s)).Some? && ParseTail(h + ['.'] + ("x" + t)).Some?
    ensures ComesBefore(ParseTail(h + ['.'] + ("0" + s)).value, ParseTail(h + ['.'] + ("x" + t)).value)
  {
    if '-' !in h {
      DashBeforeDot(h, "x" + t);
      assert false;
    }
    CutInverse(h, '-');
    var patch, front := Cut(h, '-').0, Cut(h, '-').1.value;
    DashGroups(patch, front, "0" + s);
    DashGroups(patch, front, "x" + t);
    PreMovesDown(front, s, t);
    PreBehindDash(patch, front + ['.'] + ("0" + s), front + ['.'] + ("x" + t));
  }

  lemma DashGroups(patch: string, front: string, s: string)
    ensures patch + ['-'] + front + ['.'] + s == patch + ['-'] + (front + ['.'] + s)
  {
  }

  lemma MovedTail(s: string)
    requires ParseTail(s).Some? && !PlainTail(s) && ParseTail(ZeroedWildcard(s)).Some?
    ensures ComesBefore(ParseTail(ZeroedWildcard(s)).value, ParseTail(s).value)
  {
    var d := Find(s, ".x");
    var h, after := s[..d], s[d + 2..];
    var rest := ZeroedForm(s);
    WildcardInside(s, d);
    FrontOf(h, 'x', after);
    FrontOf(h, '0', rest);
    TailFront(s);
    TailFront(ZeroedWildcard(s));
    FrontMovesDown(h, Cut(rest, '+').0, Cut(after, '+').0);
  }

  lemma WildcardInside(s: string, d: int)
    requires 0 <= d == Find(s, ".x")
    ensures s == s[..d] + (['.', 'x'] + s[d + 2..])
  {
    FindIsFirst(s, ".x", 0);
    OccursMeans(s, d);
  }

  lemma WildcardAtEnd(a: string)
    requires '.' !in a
    ensures ZeroedWildcard(a + (['.'] + "x")) == a + (['.'] + "0")
  {
    var x := ['.'] + "x";
    forall k | 0 <= k < |a| ensures !OccursAt(a + x, ".x", k) {
      OccursMeans(a + x, k);
    }
    ZeroedAfterPrefix(a, x);
    ZeroedAtStart(x);
    OnlyWildcard(x);
  }

  lemma OnlyWildcard(x: string)
    requires |x| == 2 && OccursAt(x, ".x", 0)
    ensures ZeroedWildcard(x) == ".0"
  {
    FindIsFirst(x, ".x.x", 0);
    FirstIsUnique(x, ".x", 0);
  }
}
