/** When zeroing a wildcard in the pre-release of a version's text leaves a text that cannot be read. */
module ZeroedIdentifiers {
  import opened Outcome
  import opened Text
  import opened Semver
  import opened Wildcards

  predicate BeginsWithX(id: string)
  {
    id != "" && id[0] == 'x'
  }

  /**
   * What follows the zero in the first identifier that begins with an 'x', or none if there is no such identifier. If
   * it is "x" and the next one begins with an 'x' too, the two are first collapsed into the next one.
   */
  function AfterZero(ids: seq<string>): Option<string>
  {
    if ids == [] then None
    else if !BeginsWithX(ids[0]) then AfterZero(ids[1..])
    else if ids[0] == "x" && |ids| > 1 && BeginsWithX(ids[1]) then Some(ids[1][1..])
    else Some(ids[0][1..])
  }

  /** The zeroed identifier is a number with a leading zero. */
  predicate LeadsWithZero(ids: seq<string>)
  {
    AfterZero(ids).Some? && AfterZero(ids).value != "" && AllDigits(AfterZero(ids).value)
  }

  /** The condition on the identifiers after the first, which alone stand behind a dot. */
  predicate SpoiltPre(pre: seq<PRVersion>)
  {
    pre != [] && LeadsWithZero(PRStrings(pre)[1..])
  }

  // ---------------------------------------------------------------- the text behind the zero

  /** What becomes of the text after the first wildcard. */
  function RestOf(after: string): string
  {
    if OccursAt(after, ".x", 0) then after[2..] else ReplaceFirst(after, ".x.x", ".x")
  }

  lemma ZeroedRest(after: string)
    ensures ZeroedWildcard(['.', 'x'] + after) == ['.', '0'] + RestOf(after)
  {
    if OccursAt(after, ".x", 0) {
      CollapsedRest(after);
    } else {
      LaterRest(after);
    }
  }

  lemma CollapsedRest(after: string)
    requires OccursAt(after, ".x", 0)
    ensures ZeroedWildcard(['.', 'x'] + after) == ['.', '0'] + after[2..]
  {
    var w := ['.', 'x'] + after;
    OccursMeans(after, 0);
    assert w[0..4] == ".x.x";
    FirstIsUnique(w, ".x.x", 0);
    var once := ReplaceFirst(w, ".x.x", ".x");
    assert once == ['.', 'x'] + after[2..];
    ZeroFirst(after[2..]);
  }

  lemma ZeroFirst(rest: string)
    ensures ReplaceFirst(['.', 'x'] + rest, ".x", ".0") == ['.', '0'] + rest
  {
    var s := ['.', 'x'] + rest;
    OccursMeans(s, 0);
    FirstIsUnique(s, ".x", 0);
    assert s[2..] == rest;
  }

  lemma LaterRest(after: string)
    requires !OccursAt(after, ".x", 0)
    ensures ZeroedWildcard(['.', 'x'] + after) == ['.', '0'] + ReplaceFirst(after, ".x.x", ".x")
  {
    var a, w := ['.', 'x'], ['.', 'x'] + after;
    forall k | 0 <= k < |a| ensures !OccursAt(w, ".x.x", k) {
      if OccursAt(w, ".x.x", k) {
        LongerOccurs(w, k);
        OccursMeans(w, k);
        OccursMeans(w, k + 2);
        OccursMeans(after, 0);
      }
    }
    ReplaceAfterPrefix(a, after, ".x.x", ".x");
    ZeroFirst(ReplaceFirst(after, ".x.x", ".x"));
  }

  // ---------------------------------------------------------------- identifiers

  ghost predicate Readable(parts: seq<string>)
  {
    forall p <- parts :: ParsePR(p).Some?
  }

  lemma {:induction false} ParsePRsReadable(parts: seq<string>)
    ensures ParsePRs(parts).Some? <==> Readable(parts)
  {
    if parts != [] {
      ParsePRsReadable(parts[1..]);
      assert parts == [parts[0]] + parts[1..];
    }
  }

  lemma ReadableAppend(a: seq<string>, b: seq<string>)
    ensures Readable(a + b) <==> Readable(a) && Readable(b)
  {
    if Readable(a + b) {
      assert forall p <- a :: p in a + b;
      assert forall p <- b :: p in a + b;
    }
  }

  /** A character before a text goes to its first part. */
  lemma SplitCons(c: char, s: string)
    requires c != '.'
    ensures Split([c] + s, '.') == [[c] + Split(s, '.')[0]] + Split(s, '.')[1..]
  {
    var i := IndexOf(s, '.');
    if i == -1 {
      SplitConsWhole(c, s);
    } else {
      SplitConsAt(c, s, i);
    }
  }

  lemma SplitConsWhole(c: char, s: string)
    requires c != '.' && '.' !in s
    ensures Split([c] + s, '.') == [[c] + Split(s, '.')[0]] + Split(s, '.')[1..]
  {
    assert '.' !in [c] + s;
    assert Split(s, '.') == [s] && Split([c] + s, '.') == [[c] + s];
  }

  lemma SplitConsAt(c: char, s: string, i: int)
    requires c != '.' && 0 <= i == IndexOf(s, '.')
    ensures Split([c] + s, '.') == [[c] + Split(s, '.')[0]] + Split(s, '.')[1..]
  {
    SplitAt(s, '.', i);
    ConsGroups(c, s, i);
    SplitConcat([c] + s[..i], '.', s[i + 1..]);
  }

  lemma ConsGroups(c: char, s: string, i: int)
    requires 0 <= i < |s| && s[i] == '.'
    ensures [c] + s == ([c] + s[..i]) + ['.'] + s[i + 1..]
  {
  }

  /** A zero before alphanumeric text makes an identifier unless only digits follow. */
  lemma ZeroIdentifier(h: string)
    requires AllAlphanum(h)
    ensures ParsePR(['0'] + h).Some? <==> !(h != "" && AllDigits(h))
  {
    var id := ['0'] + h;
    assert id[0] == '0';
    if AllDigits(h) {
      assert AllDigits(id);
      if h == "" {
        ParseNumberItoa(0);
        assert Itoa(0) == id;
      }
    } else {
      var c :| c in h && !IsDigit(c);
      assert c in id;
    }
  }

  lemma XIdentifier(h: string)
    requires ParsePR(['x'] + h).Some?
    ensures AllAlphanum(h)
  {
    var id := ['x'] + h;
    assert id[0] == 'x' && id[0] in id && !IsDigit('x');
    assert forall c <- h :: c in id;
  }

  /** Identifiers behind an 'x' and behind the zero that replaces it. */
  lemma OnePart(h: string, t: seq<string>)
    requires Readable([['x'] + h] + t)
    ensures Readable([['0'] + h] + t) <==> !(h != "" && AllDigits(h))
  {
    ReadableAppend([['x'] + h], t);
    ReadableAppend([['0'] + h], t);
    assert (['x'] + h) in [['x'] + h];
    assert (['0'] + h) in [['0'] + h];
    XIdentifier(h);
    ZeroIdentifier(h);
  }

  /** The wildcard is followed by another one: the two collapse. */
  lemma CollapsedParts(a: string)
    requires OccursAt(a, ".x", 0) && Readable(Split(['x'] + a, '.'))
    ensures Readable(Split(['0'] + RestOf(a), '.')) <==> !LeadsWithZero(Split(['x'] + a, '.'))
  {
    OccursMeans(a, 0);
    var rest := a[2..];
    assert ['x'] + a == ['x'] + ['.'] + (['x'] + rest);
    SplitConcat(['x'], '.', ['x'] + rest);
    SplitCons('x', rest);
    SplitCons('0', rest);
    var h, t := Split(rest, '.')[0], Split(rest, '.')[1..];
    ReadableAppend([['x']], [['x'] + h] + t);
    OnePart(h, t);
    var ids := [['x']] + ([['x'] + h] + t);
    assert ids[1] == ['x'] + h && ids[1][1..] == h && ids[0] == "x";
    assert AfterZero(ids) == Some(h);
  }

  /** Whatever follows, the identifier with the wildcard is not merged with the next one. */
  lemma AloneAfterZero(a: string)
    requires !OccursAt(a, ".x", 0)
    ensures AfterZero(Split(['x'] + a, '.')) == Some(Split(a, '.')[0])
  {
    SplitCons('x', a);
    var h, t := Split(a, '.')[0], Split(a, '.')[1..];
    if h == "" && t != [] {
      NextPart(a);
    }
    AfterZeroOf(h, t);
  }

  lemma AfterZeroOf(h: string, t: seq<string>)
    requires h == "" && t != [] ==> !BeginsWithX(t[0])
    ensures AfterZero([['x'] + h] + t) == Some(h)
  {
    var ids := [['x'] + h] + t;
    assert ids[0] == ['x'] + h && ids[0][1..] == h;
  }

  lemma NextPart(a: string)
    requires Split(a, '.')[0] == "" && |Split(a, '.')| > 1 && !OccursAt(a, ".x", 0)
    ensures !BeginsWithX(Split(a, '.')[1])
  {
    assert IndexOf(a, '.') == 0;
    SplitAt(a, '.', 0);
    OccursMeans(a, 0);
    if a[1..] != "" && a[1] != '.' {
      SplitBegins(a[1..]);
      assert a[1..][0] == a[1];
    }
  }

  /** A later pair of wildcards collapses into one, which only drops an identifier. */
  lemma LaterParts(a: string)
    requires !OccursAt(a, ".x", 0) && Readable(Split(['x'] + a, '.'))
    ensures Readable(Split(['0'] + RestOf(a), '.')) <==> !LeadsWithZero(Split(['x'] + a, '.'))
  {
    AloneAfterZero(a);
    SplitCons('x', a);
    SplitCons('0', RestOf(a));
    var t := CollapseDrops(a);
    OnePart(Split(a, '.')[0], Split(a, '.')[1..]);
    ReadableAppend([['x'] + Split(a, '.')[0]], Split(a, '.')[1..]);
    ReadableAppend([['0'] + Split(a, '.')[0]], Split(a, '.')[1..]);
    ReadableAppend([['0'] + Split(a, '.')[0]], t);
  }

  lemma CollapseDrops(a: string) returns (t: seq<string>)
    requires !OccursAt(a, ".x", 0)
    ensures Split(RestOf(a), '.') == [Split(a, '.')[0]] + t
    ensures Readable(Split(a, '.')[1..]) ==> Readable(t)
  {
    FindIsFirst(a, ".x.x", 0);
    var p := Find(a, ".x.x");
    if p == -1 {
      t := Split(a, '.')[1..];
    } else {
      LongerOccurs(a, p);
      t := CollapseDropsAt(a, p);
    }
  }

  lemma CollapseDropsAt(a: string, p: int) returns (t: seq<string>)
    requires 0 < p == Find(a, ".x.x")
    ensures Split(ReplaceFirst(a, ".x.x", ".x"), '.') == [Split(a, '.')[0]] + t
    ensures Readable(Split(a, '.')[1..]) ==> Readable(t)
  {
    FindIsFirst(a, ".x.x", 0);
    AroundPair(a, p);
    var us, ws := SplitPair(a[..p], a[p + 4..]);
    t := us[1..] + ws;
    DropOne(us, ['x'], ws);
  }

  lemma SplitPair(u: string, w: string) returns (us: seq<string>, ws: seq<string>)
    ensures us != [] && Split(u + ['.'] + (['x'] + ['.'] + (['x'] + w)), '.') == us + ([['x']] + ws)
    ensures Split(u + ['.'] + (['x'] + w), '.') == us + ws
  {
    us, ws := Split(u, '.'), Split(['x'] + w, '.');
    SplitAppend(u, ['x'] + ['.'] + (['x'] + w));
    SplitConcat(['x'], '.', ['x'] + w);
    SplitAppend(u, ['x'] + w);
  }

  lemma DropOne(us: seq<string>, x: string, ws: seq<string>)
    requires us != []
    ensures us + ws == [(us + ([x] + ws))[0]] + (us[1..] + ws)
    ensures Readable((us + ([x] + ws))[1..]) ==> Readable(us[1..] + ws)
  {
    assert (us + ([x] + ws))[1..] == us[1..] + ([x] + ws);
    ReadableAppend(us[1..], [x] + ws);
    ReadableAppend([x], ws);
    ReadableAppend(us[1..], ws);
  }

  lemma AroundPair(a: string, p: int)
    requires OccursAt(a, ".x.x", p)
    ensures a == a[..p] + ['.'] + (['x'] + ['.'] + (['x'] + a[p + 4..]))
    ensures Find(a, ".x.x") == p ==> ReplaceFirst(a, ".x.x", ".x") == a[..p] + ['.'] + (['x'] + a[p + 4..])
  {
    LongerOccurs(a, p);
    OccursMeans(a, p);
    OccursMeans(a, p + 2);
    assert a[p..p + 4] == ['.'] + (['x'] + ['.'] + ['x']);
    ThreePieces(a, p, p + 4);
    PairGroups(a[..p], a[p + 4..]);
  }

  lemma ThreePieces(a: string, p: int, q: int)
    requires 0 <= p <= q <= |a|
    ensures a == a[..p] + a[p..q] + a[q..]
  {
  }

  lemma PairGroups(u: string, w: string)
    ensures u + (['.'] + (['x'] + ['.'] + ['x'])) + w == u + ['.'] + (['x'] + ['.'] + (['x'] + w))
  {
  }

  lemma PartsReadable(a: string)
    requires Readable(Split(['x'] + a, '.'))
    ensures Readable(Split(['0'] + RestOf(a), '.')) <==> !LeadsWithZero(Split(['x'] + a, '.'))
  {
    if OccursAt(a, ".x", 0) {
      CollapsedParts(a);
    } else {
      LaterParts(a);
    }
  }

  // ---------------------------------------------------------------- cutting off the build metadata

  lemma CollapseAvoids(s: string, c: char)
    requires c !in s && c != '.' && c != 'x'
    ensures c !in ReplaceFirst(s, ".x.x", ".x")
  {
  }

  lemma FindInFront(a: string, s: string, t: string)
    requires Find(a, t) >= 0
    ensures Find(a + s, t) == Find(a, t)
  {
    var i := Find(a, t);
    FindIsFirst(a, t, 0);
    forall k | 0 <= k <= i ensures OccursAt(a + s, t, k) <==> OccursAt(a, t, k) {
      assert (a + s)[k..k + |t|] == a[k..k + |t|];
    }
    FirstIsUnique(a + s, t, i);
  }

  lemma CollapseInFront(a: string, s: string)
    requires Find(a, ".x.x") >= 0
    ensures ReplaceFirst(a + s, ".x.x", ".x") == ReplaceFirst(a, ".x.x", ".x") + s
  {
    FindInFront(a, s, ".x.x");
    var i := Find(a, ".x.x");
    ReplaceAt(a, ".x.x", ".x", i);
    ReplaceAt(a + s, ".x.x", ".x", i);
    SlicesInFront(a, s, i, i + 4, ".x");
  }

  lemma SlicesInFront(a: string, s: string, i: nat, j: nat, u: string)
    requires i <= j <= |a|
    ensures (a + s)[..i] + u + (a + s)[j..] == (a[..i] + u + a[j..]) + s
  {
    assert (a + s)[..i] == a[..i] && (a + s)[j..] == a[j..] + s;
  }

  /** A pair of wildcards does not reach across a '+'. */
  lemma CollapseBehindPlus(a: string, b: string)
    requires Find(a, ".x.x") == -1
    ensures ReplaceFirst(a + ['+'] + b, ".x.x", ".x") == a + ['+'] + ReplaceFirst(b, ".x.x", ".x")
  {
    var f := a + ['+'];
    FindIsFirst(a, ".x.x", 0);
    forall k | 0 <= k < |f| ensures !OccursAt(f + b, ".x.x", k) {
      if OccursAt(f + b, ".x.x", k) {
        NotAcrossPlus(a, b, k);
      }
    }
    ReplaceAfterPrefix(f, b, ".x.x", ".x");
  }

  lemma NotAcrossPlus(a: string, b: string, k: int)
    requires 0 <= k <= |a| && OccursAt(a + ['+'] + b, ".x.x", k)
    ensures OccursAt(a, ".x.x", k)
  {
    var s := a + ['+'] + b;
    assert s[k..k + 4] == ".x.x" && s[|a|] == '+';
    assert s[k..k + 4] == a[k..k + 4];
  }

  lemma RestCut(after: string)
    ensures Cut(RestOf(after), '+').0 == RestOf(Cut(after, '+').0)
    ensures AllValid(SplitMarked(Cut(after, '+').1)) ==> AllValid(SplitMarked(Cut(RestOf(after), '+').1))
  {
    if OccursAt(after, ".x", 0) {
      RestCutAtStart(after);
    } else {
      RestCutLater(after);
    }
  }

  lemma RestCutAtStart(after: string)
    requires OccursAt(after, ".x", 0)
    ensures Cut(RestOf(after), '+').0 == RestOf(Cut(after, '+').0) && Cut(RestOf(after), '+').1 == Cut(after, '+').1
  {
    OccursMeans(after, 0);
    assert after == ['.', 'x'] + after[2..];
    CutAppend(['.', 'x'], after[2..], '+');
    var front := Cut(after, '+').0;
    OccursMeans(front, 0);
    assert front[2..] == Cut(after[2..], '+').0;
  }

  lemma RestCutLater(after: string)
    requires !OccursAt(after, ".x", 0)
    ensures Cut(RestOf(after), '+').0 == RestOf(Cut(after, '+').0)
    ensures AllValid(SplitMarked(Cut(after, '+').1)) ==> AllValid(SplitMarked(Cut(RestOf(after), '+').1))
  {
    CutInverse(after, '+');
    var front, build := Cut(after, '+').0, Cut(after, '+').1;
    OccursMeans(after, 0);
    OccursMeans(front, 0);
    CollapseAvoids(front, '+');
    if build.None? {
      CutInverse(RestOf(after), '+');
    } else if Find(front, ".x.x") >= 0 {
      assert after == front + (['+'] + build.value);
      CollapseInFront(front, ['+'] + build.value);
      CutFound(RestOf(front), '+', build.value);
      assert RestOf(after) == RestOf(front) + ['+'] + build.value;
    } else {
      CollapseBehindPlus(front, build.value);
      CutFound(front, '+', ReplaceFirst(build.value, ".x.x", ".x"));
      CollapseKeepsValid(build.value);
    }
  }

  lemma CollapseKeepsValid(build: string)
    ensures AllValid(Split(build, '.')) ==> AllValid(Split(ReplaceFirst(build, ".x.x", ".x"), '.'))
  {
    SplitIsWellDotted(build);
    SplitIsWellDotted(ReplaceFirst(build, ".x.x", ".x"));
    if WellDotted(build) {
      CollapseKeepsDots(build);
    }
  }

  // ---------------------------------------------------------------- tails

  /** A tail reads if its patch, its identifiers and its build metadata do. */
  lemma TailMeans(s: string, patch: string, pre: string)
    requires Cut(s, '+').0 == patch + ['-'] + pre && '-' !in patch
    ensures ParseTail(s).Some? <==>
            ParseNumber(patch).Some? && Readable(Split(pre, '.')) && AllValid(SplitMarked(Cut(s, '+').1))
    ensures ParseTail(s).Some? ==> PRStrings(ParseTail(s).value.1) == Split(pre, '.')
  {
    CutFound(patch, '-', pre);
    ParsePRsReadable(Split(pre, '.'));
    if ParsePRs(Split(pre, '.')).Some? {
      ParsePRsInverse(Split(pre, '.'));
    }
  }

  ghost predicate NoWildcardIn(s: string)
  {
    forall k :: !OccursAt(s, ".x", k)
  }

  ghost predicate NoneBegins(parts: seq<string>)
  {
    forall j :: 0 <= j < |parts| ==> !BeginsWithX(parts[j])
  }

  /** In a text without wildcards no part after the first begins with an 'x'. */
  lemma {:induction false} NoXParts(s: string)
    requires NoWildcardIn(s)
    ensures NoneBegins(Split(s, '.')[1..])
    decreases |s|
  {
    var i := IndexOf(s, '.');
    if i != -1 {
      NoWildcardBehind(s, i);
      NoXParts(s[i + 1..]);
      NoXBefore(s, i);
    }
  }

  lemma NoXBefore(s: string, i: int)
    requires 0 <= i == IndexOf(s, '.') && !BeginsWithX(s[i + 1..]) && NoneBegins(Split(s[i + 1..], '.')[1..])
    ensures NoneBegins(Split(s, '.')[1..])
  {
    FirstPartBegins(s[i + 1..]);
    NoneBeginsFrom(Split(s[i + 1..], '.'));
    PartsBehind(s, i);
  }

  lemma NoneBeginsFrom(parts: seq<string>)
    requires parts != [] && !BeginsWithX(parts[0]) && NoneBegins(parts[1..])
    ensures NoneBegins(parts)
  {
    assert parts == [parts[0]] + parts[1..];
  }

  lemma PartsBehind(s: string, i: int)
    requires 0 <= i == IndexOf(s, '.')
    ensures Split(s, '.')[1..] == Split(s[i + 1..], '.')
  {
    SplitAt(s, '.', i);
  }

  lemma NoWildcardBehind(s: string, i: int)
    requires NoWildcardIn(s) && 0 <= i < |s| && s[i] == '.'
    ensures NoWildcardIn(s[i + 1..]) && !BeginsWithX(s[i + 1..])
  {
    var rest := s[i + 1..];
    OccursMeans(s, i);
    forall k ensures !OccursAt(rest, ".x", k) {
      OccursMeans(rest, k);
      OccursMeans(s, i + 1 + k);
    }
  }

  lemma FirstPartBegins(s: string)
    requires !BeginsWithX(s)
    ensures !BeginsWithX(Split(s, '.')[0])
  {
    if s != "" && s[0] != '.' {
      SplitBegins(s);
    }
  }

  lemma {:induction false} AfterZeroSkips(a: seq<string>, b: seq<string>)
    requires NoneBegins(a)
    ensures AfterZero(a + b) == AfterZero(b)
  {
    if a == [] {
      assert a + b == b;
    } else {
      assert (a + b)[1..] == a[1..] + b;
      AfterZeroSkips(a[1..], b);
    }
  }

  /** Behind the first parts of a text without wildcards the identifiers are those of the rest. */
  lemma AfterPlainFront(front: string, ids: seq<string>)
    requires NoWildcardIn(front)
    ensures AfterZero((Split(front, '.') + ids)[1..]) == AfterZero(ids)
  {
    NoXParts(front);
    AfterZeroSkips(Split(front, '.')[1..], ids);
    DropFirst(Split(front, '.'), ids);
  }

  lemma DropFirst(parts: seq<string>, ids: seq<string>)
    requires parts != []
    ensures (parts + ids)[1..] == parts[1..] + ids
  {
  }

  /** A tail whose wildcard stands in the pre-release: its identifiers before and after the zero. */
  lemma ZeroedTail(s: string, h: string, after: string)
    requires s == h + (['.', 'x'] + after) && '+' !in h && NotInPrefix(h, ['.', 'x'] + after, ".x")
    ensures Cut(s, '+') == (h + ['.'] + (['x'] + Cut(after, '+').0), Cut(after, '+').1)
    ensures Cut(ZeroedWildcard(s), '+').0 == h + ['.'] + (['0'] + RestOf(Cut(after, '+').0))
    ensures AllValid(SplitMarked(Cut(s, '+').1)) ==> AllValid(SplitMarked(Cut(ZeroedWildcard(s), '+').1))
  {
    FrontOf(h, 'x', after);
    ZeroedAfterPrefix(h, ['.', 'x'] + after);
    ZeroedRest(after);
    FrontOf(h, '0', RestOf(after));
    RestCut(after);
  }

  /** A tail with patch, front identifiers and a wildcard reads after zeroing unless a zero leads a number. */
  lemma ZeroedTailReads(s: string, z: string, patch: string, front: string, a: string)
    requires '-' !in patch && ParseTail(s).Some?
    requires Cut(s, '+').0 == patch + ['-'] + (front + ['.'] + (['x'] + a))
    requires Cut(z, '+').0 == patch + ['-'] + (front + ['.'] + (['0'] + RestOf(a)))
    requires AllValid(SplitMarked(Cut(s, '+').1)) ==> AllValid(SplitMarked(Cut(z, '+').1))
    ensures ParseTail(z).None? <==> LeadsWithZero(Split(['x'] + a, '.'))
    ensures PRStrings(ParseTail(s).value.1) == Split(front, '.') + Split(['x'] + a, '.')
  {
    TailMeans(s, patch, front + ['.'] + (['x'] + a));
    TailMeans(z, patch, front + ['.'] + (['0'] + RestOf(a)));
    SplitAppend(front, ['x'] + a);
    SplitAppend(front, ['0'] + RestOf(a));
    ReadableAppend(Split(front, '.'), Split(['x'] + a, '.'));
    ReadableAppend(Split(front, '.'), Split(['0'] + RestOf(a), '.'));
    PartsReadable(a);
  }

  lemma MovedTailReads(s: string)
    requires ParseTail(s).Some? && !PlainTail(s)
    ensures ParseTail(ZeroedWildcard(s)).None? <==> SpoiltPre(ParseTail(s).value.1)
  {
    var d := Find(s, ".x");
    var h, after := s[..d], s[d + 2..];
    CutAtWildcard(s);
    WildcardInside(s, d);
    assert s[d..] == ['.', 'x'] + after;
    ZeroedTail(s, h, after);
    var a := Cut(after, '+').0;
    CutInverse(after, '+');
    TailFront(s);
    if '-' !in h {
      DashBeforeDot(h, ['x'] + a);
      assert false;
    }
    CutInverse(h, '-');
    var patch, front := Cut(h, '-').0, Cut(h, '-').1.value;
    DashGroups(patch, front, ['x'] + a);
    DashGroups(patch, front, ['0'] + RestOf(a));
    ZeroedTailReads(s, ZeroedWildcard(s), patch, front, a);
    PlainFront(patch + ['-'], front, ['.', 'x'] + after);
    AfterPlainFront(front, Split(['x'] + a, '.'));
  }

  lemma PlainFront(a: string, front: string, rest: string)
    requires NotInPrefix(a + front, rest, ".x") && rest != "" && rest[0] == '.'
    ensures NoWildcardIn(front)
  {
    var s := a + front + rest;
    forall k ensures !OccursAt(front, ".x", k) {
      OccursMeans(front, k);
      OccursMeans(s, |a| + k);
    }
  }

  /** Without a wildcard in front of the build metadata no identifier is spoilt. */
  lemma PlainTailIsNotSpoilt(s: string)
    requires ParseTail(s).Some? && PlainTail(s)
    ensures !SpoiltPre(ParseTail(s).value.1)
  {
    var front := Cut(s, '+').0;
    CutInverse(s, '+');
    CutInverse(front, '-');
    var (patch, pre) := Cut(front, '-');
    if pre.Some? {
      TailMeans(s, patch, pre.value);
      PlainTailHasPlainFront(s);
      NoWildcardAfter(patch + ['-'], pre.value);
      NoneInPlain(pre.value);
    }
  }

  lemma NoneInPlain(pre: string)
    requires NoWildcardIn(pre)
    ensures !LeadsWithZero(Split(pre, '.')[1..])
  {
    NoXParts(pre);
    var ids := Split(pre, '.')[1..];
    AfterZeroSkips(ids, []);
    assert ids + [] == ids;
  }

  lemma NoWildcardAfter(a: string, s: string)
    requires NoWildcardIn(a + s)
    ensures NoWildcardIn(s)
  {
    forall k ensures !OccursAt(s, ".x", k) {
      OccursMeans(s, k);
      OccursMeans(a + s, |a| + k);
    }
  }

  lemma PlainTailHasPlainFront(s: string)
    requires PlainTail(s)
    ensures NoWildcardIn(Cut(s, '+').0)
  {
    var front, d := Cut(s, '+').0, Find(s, ".x");
    CutInverse(s, '+');
    FindIsFirst(s, ".x", 0);
    assert d != -1 ==> d >= |front|;
    forall k ensures !OccursAt(front, ".x", k) {
      OccursMeans(front, k);
      OccursMeans(s, k);
    }
  }

  /** Zeroing the wildcard leaves a text that cannot be read exactly if it makes a number with a leading zero. */
  lemma ZeroedReadsExactlyWhen(s: string)
    requires ParseTail(s).Some?
    ensures ParseTail(ZeroedWildcard(s)).None? <==> SpoiltPre(ParseTail(s).value.1)
  {
    if PlainTail(s) {
      PlainTailParses(s);
      PlainTailIsNotSpoilt(s);
    } else {
      MovedTailReads(s);
    }
  }
}
