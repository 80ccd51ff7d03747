/** Precedence in the words of section 11 of Semantic Versioning 2.0.0, and that the library's comparison follows it. */
module Precedence {
  import opened Semver

  /** The lists agree before `k` and both go on there. */
  ghost predicate PartAt<T>(a: seq<T>, b: seq<T>, k: int)
  {
    0 <= k < |a| && k < |b| && a[..k] == b[..k]
  }

  ghost predicate IsProperPrefix<T>(a: seq<T>, b: seq<T>)
  {
    |a| < |b| && b[..|a|] == a
  }

  /** By the first different character; a text that is the beginning of the other is lower. */
  ghost predicate TextLower(s: string, t: string)
  {
    IsProperPrefix(s, t) || exists k :: PartAt(s, t, k) && s[k] < t[k]
  }

  /** Numbers by value, numbers below texts, texts by their characters. */
  ghost predicate IdentifierLower(p: PRVersion, q: PRVersion)
  {
    match (p, q)
    case (Num(m), Num(n)) => m < n
    case (Num(_), Alpha(_)) => true
    case (Alpha(_), Num(_)) => false
    case (Alpha(s), Alpha(t)) => TextLower(s, t)
  }

  /** By the first different identifier; a list that is the beginning of the other is lower. */
  ghost predicate PreReleaseLower(a: seq<PRVersion>, b: seq<PRVersion>)
  {
    IsProperPrefix(a, b) || exists k :: PartAt(a, b, k) && IdentifierLower(a[k], b[k])
  }

  ghost predicate SameNumbers(u: Version, v: Version)
  {
    u.major == v.major && u.minor == v.minor && u.patch == v.patch
  }

  /** By major, minor and patch; then a pre-release is below its release, and pre-releases by their identifiers. */
  ghost predicate Lower(u: Version, v: Version)
  {
    || u.major < v.major
    || (u.major == v.major && u.minor < v.minor)
    || (u.major == v.major && u.minor == v.minor && u.patch < v.patch)
    || (SameNumbers(u, v) && u.pre != [] && v.pre == [])
    || (SameNumbers(u, v) && u.pre != [] && v.pre != [] && PreReleaseLower(u.pre, v.pre))
  }

  lemma PartLater<T>(a: seq<T>, b: seq<T>, k: int)
    requires a != [] && b != [] && a[0] == b[0]
    ensures PartAt(a[1..], b[1..], k) <==> k >= 0 && PartAt(a, b, k + 1)
    ensures IsProperPrefix(a[1..], b[1..]) <==> IsProperPrefix(a, b)
  {
    assert a == [a[0]] + a[1..] && b == [b[0]] + b[1..];
    if 0 <= k < |a| - 1 && k < |b| - 1 {
      assert a[..k + 1] == [a[0]] + a[1..][..k] && b[..k + 1] == [b[0]] + b[1..][..k];
    }
    if |a| < |b| {
      assert b[..|a|] == [b[0]] + b[1..][..|a| - 1];
    }
  }

  lemma PartHere<T>(a: seq<T>, b: seq<T>, k: int)
    requires a != [] && b != [] && a[0] != b[0]
    ensures PartAt(a, b, k) <==> k == 0
    ensures !IsProperPrefix(a, b)
  {
    if 0 < k < |a| && k < |b| {
      assert a[..k][0] != b[..k][0];
    }
    if |a| < |b| {
      assert b[..|a|][0] != a[0];
    }
  }

  lemma {:induction false} TextOrder(s: string, t: string)
    ensures CompareString(s, t) == -1 <==> TextLower(s, t)
    decreases |s|
  {
    if s != "" && t != "" {
      if s[0] == t[0] {
        TextOrder(s[1..], t[1..]);
        TextLowerLater(s, t);
      } else {
        forall k ensures PartAt(s, t, k) <==> k == 0 {
          PartHere(s, t, k);
        }
        PartHere(s, t, 0);
      }
    }
  }

  lemma TextLowerLater(s: string, t: string)
    requires s != "" && t != "" && s[0] == t[0]
    ensures TextLower(s[1..], t[1..]) <==> TextLower(s, t)
  {
    PartLater(s, t, 0);
    if k :| PartAt(s, t, k) && s[k] < t[k] {
      PartLater(s, t, k - 1);
      assert PartAt(s[1..], t[1..], k - 1) && s[1..][k - 1] < t[1..][k - 1];
    }
    if k :| PartAt(s[1..], t[1..], k) && s[1..][k] < t[1..][k] {
      PartLater(s, t, k);
      assert PartAt(s, t, k + 1) && s[k + 1] < t[k + 1];
    }
  }

  lemma IdentifierOrder(p: PRVersion, q: PRVersion)
    ensures ComparePR(p, q) == -1 <==> IdentifierLower(p, q)
  {
    if p.Alpha? && q.Alpha? {
      TextOrder(p.str, q.str);
    }
  }

  lemma {:induction false} PreReleaseOrder(a: seq<PRVersion>, b: seq<PRVersion>)
    ensures ComparePre(a, b) == -1 <==> PreReleaseLower(a, b)
    decreases |a|
  {
    if a != [] && b != [] {
      if a[0] == b[0] {
        PreReleaseOrder(a[1..], b[1..]);
        PreReleaseLowerLater(a, b);
      } else {
        forall k ensures PartAt(a, b, k) <==> k == 0 {
          PartHere(a, b, k);
        }
        PartHere(a, b, 0);
        IdentifierOrder(a[0], b[0]);
      }
    }
  }

  lemma PreReleaseLowerLater(a: seq<PRVersion>, b: seq<PRVersion>)
    requires a != [] && b != [] && a[0] == b[0]
    ensures PreReleaseLower(a[1..], b[1..]) <==> PreReleaseLower(a, b)
  {
    PartLater(a, b, 0);
    IdentifierOrder(a[0], b[0]);
    if k :| PartAt(a, b, k) && IdentifierLower(a[k], b[k]) {
      PartLater(a, b, k - 1);
      assert PartAt(a[1..], b[1..], k - 1) && IdentifierLower(a[1..][k - 1], b[1..][k - 1]);
    }
    if k :| PartAt(a[1..], b[1..], k) && IdentifierLower(a[1..][k], b[1..][k]) {
      PartLater(a, b, k);
      assert PartAt(a, b, k + 1) && IdentifierLower(a[k + 1], b[k + 1]);
    }
  }

  /** A version comes before another exactly if section 11 says so. */
  lemma LtIsLower(u: Version, v: Version)
    ensures Lt(u, v) <==> Lower(u, v)
  {
    PreReleaseOrder(u.pre, v.pre);
  }

  /** So do all the other comparisons follow it. */
  lemma ComparisonsFollow(u: Version, v: Version)
    ensures Gt(u, v) <==> Lower(v, u)
    ensures Le(u, v) <==> !Lower(v, u)
    ensures Ge(u, v) <==> !Lower(u, v)
    ensures Eq(u, v) <==> !Lower(u, v) && !Lower(v, u)
  {
    LtIsLower(u, v);
    LtIsLower(v, u);
    CompareAntisymmetric(u, v);
  }
}
