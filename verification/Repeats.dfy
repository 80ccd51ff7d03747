/** Dropping upgrades whose image was already listed, and when that leaves a strictly rising list. */
module Repeats {
  import opened Semver
  import opened UpgradeGraph

  ghost predicate SeenBefore(s: seq<Node>, i: int)
    requires 0 <= i < |s|
  {
    exists k :: 0 <= k < i && s[k].image == s[i].image
  }

  /** The nodes whose image occurs nowhere before them. */
  ghost function FirstOccurrences(s: seq<Node>): seq<Node>
  {
    if s == [] then []
    else FirstOccurrences(s[..|s| - 1]) + if SeenBefore(s, |s| - 1) then [] else [s[|s| - 1]]
  }

  method DropRepeatedImages(upgrades: seq<Node>) returns (final: seq<Node>)
    ensures final == FirstOccurrences(upgrades)
  {
    final := [];
    var seen := {};
    for i := 0 to |upgrades|
      invariant final == FirstOccurrences(upgrades[..i])
      invariant forall image :: image in seen <==> exists k :: 0 <= k < i && upgrades[k].image == image
    {
      var front := upgrades[..i + 1];
      assert front[..i] == upgrades[..i];
      assert SeenBefore(front, i) <==> upgrades[i].image in seen by {
        if k :| 0 <= k < i && upgrades[k].image == upgrades[i].image {
          assert front[k].image == front[i].image;
        }
      }
      if upgrades[i].image !in seen {
        final := final + [upgrades[i]];
        seen := seen + {upgrades[i].image};
      }
    }
    assert upgrades[..|upgrades|] == upgrades;
  }

  /** Node `k` is the first of its image. */
  ghost predicate IsFirstOfImage(s: seq<Node>, k: int)
  {
    0 <= k < |s| && forall j :: 0 <= j < k ==> s[j].image != s[k].image
  }

  /** `at` lists, in order, the positions of all first nodes of an image. */
  ghost predicate AreFirsts(s: seq<Node>, at: seq<int>)
  {
    && (forall i, j :: 0 <= i < j < |at| ==> at[i] < at[j])
    && (forall k :: k in at <==> IsFirstOfImage(s, k))
  }

  /** What is kept stands, in order, at the positions of the first node of each image. */
  lemma {:induction false} KeptAreFirsts(s: seq<Node>) returns (at: seq<int>)
    ensures AreFirsts(s, at) && |FirstOccurrences(s)| == |at|
    ensures forall i :: 0 <= i < |at| ==> 0 <= at[i] < |s| && FirstOccurrences(s)[i] == s[at[i]]
  {
    if s == [] {
      at := [];
    } else {
      var n := |s| - 1;
      var front := KeptAreFirsts(s[..n]);
      OneMoreFirst(s, front);
      at := if SeenBefore(s, n) then front else front + [n];
      OneMoreKept(s, FirstOccurrences(s[..n]), front);
    }
  }

  lemma OneMoreKept(s: seq<Node>, kept: seq<Node>, at: seq<int>)
    requires s != [] && |kept| == |at| && kept == FirstOccurrences(s[..|s| - 1])
    requires forall i :: 0 <= i < |at| ==> 0 <= at[i] < |s| - 1 && kept[i] == s[..|s| - 1][at[i]]
    ensures var n := |s| - 1;
            var at' := if SeenBefore(s, n) then at else at + [n];
            && |FirstOccurrences(s)| == |at'|
            && forall i :: 0 <= i < |at'| ==> 0 <= at'[i] < |s| && FirstOccurrences(s)[i] == s[at'[i]]
  {
  }

  lemma OneMoreFirst(s: seq<Node>, at: seq<int>)
    requires s != [] && AreFirsts(s[..|s| - 1], at) && forall i :: 0 <= i < |at| ==> at[i] < |s| - 1
    ensures AreFirsts(s, if SeenBefore(s, |s| - 1) then at else at + [|s| - 1])
  {
    var n := |s| - 1;
    forall k ensures IsFirstOfImage(s, k) <==> IsFirstOfImage(s[..n], k) || (k == n && !SeenBefore(s, n)) {
    }
  }

  /** More nodes behind a list do not change what is kept of it. */
  lemma {:induction false} KeptFirst(a: seq<Node>, b: seq<Node>)
    ensures FirstOccurrences(a) <= FirstOccurrences(a + b)
  {
    if b == [] {
      assert a + b == a;
    } else {
      var n := |b| - 1;
      KeptFirst(a, b[..n]);
      assert (a + b)[..|a + b| - 1] == a + b[..n];
    }
  }

  // ---------------------------------------------------------------- rising lists

  ghost predicate Rising(s: seq<Node>)
  {
    forall i, j :: 0 <= i < j < |s| ==> Lt(s[i].version, s[j].version)
  }

  /** The images of two nodes are equal exactly when their versions have equal precedence. */
  ghost predicate SameTogether(x: Node, y: Node)
  {
    x.image == y.image <==> Eq(x.version, y.version)
  }

  ghost predicate Matched(s: seq<Node>)
  {
    forall i, j {:trigger SameTogether(s[i], s[j])} :: 0 <= i < |s| && 0 <= j < |s| ==> SameTogether(s[i], s[j])
  }

  /** `x` continues `acc`: its first node repeats one of `acc`, and nothing in `acc` is above it. */
  ghost predicate Continues(acc: seq<Node>, x: seq<Node>)
  {
    && x != [] && Rising(x) && Matched(acc + x)
    && (forall i :: 0 <= i < |acc| ==> Le(acc[i].version, x[0].version))
    && exists i :: 0 <= i < |acc| && Eq(acc[i].version, x[0].version)
  }

  lemma FirstIsRepeated(acc: seq<Node>, x: seq<Node>)
    requires Continues(acc, x)
    ensures SeenBefore(acc + x[..1], |acc|)
  {
    var i :| 0 <= i < |acc| && Eq(acc[i].version, x[0].version);
    var all, s := acc + x, acc + x[..1];
    assert SameTogether(all[i], all[|acc|]);
    assert s[i].image == s[|acc|].image;
  }

  lemma LaterIsNew(acc: seq<Node>, x: seq<Node>, m: int)
    requires Continues(acc, x) && 1 <= m < |x|
    ensures !SeenBefore(acc + x[..m + 1], |acc| + m)
  {
    var all, s := acc + x, acc + x[..m + 1];
    forall k | 0 <= k < |acc| + m ensures s[k].image != s[|acc| + m].image {
      assert s[k] == all[k] && s[|acc| + m] == all[|acc| + m] == x[m];
      assert SameTogether(all[k], all[|acc| + m]);
      TotalPreorder(all[k].version, x[0].version, x[m].version);
      if k >= |acc| {
        assert all[k] == x[k - |acc|];
      }
    }
  }

  lemma {:induction false} AppendDropsFirst(acc: seq<Node>, x: seq<Node>, m: int)
    requires Continues(acc, x) && 1 <= m <= |x|
    ensures FirstOccurrences(acc + x[..m]) == FirstOccurrences(acc) + x[1..m]
  {
    var s := acc + x[..m];
    assert s[..|s| - 1] == acc + x[..m - 1];
    if m == 1 {
      FirstIsRepeated(acc, x);
      assert acc + x[..0] == acc;
      assert x[1..1] == [];
    } else {
      AppendDropsFirst(acc, x, m - 1);
      LaterIsNew(acc, x, m - 1);
      assert x[1..m] == x[1..m - 1] + [x[m - 1]];
    }
  }

  lemma {:induction false} RisingIsKept(x: seq<Node>, m: int)
    requires Rising(x) && Matched(x) && 0 <= m <= |x|
    ensures FirstOccurrences(x[..m]) == x[..m]
  {
    if m > 0 {
      RisingIsKept(x, m - 1);
      assert x[..m][..m - 1] == x[..m - 1];
      forall k | 0 <= k < m - 1 ensures x[k].image != x[m - 1].image {
        assert Lt(x[k].version, x[m - 1].version) && SameTogether(x[k], x[m - 1]);
      }
      assert !SeenBefore(x[..m], m - 1);
    }
  }

  lemma {:induction false} FirstOccurrencesFrom(s: seq<Node>, n: Node)
    requires n in FirstOccurrences(s)
    ensures n in s
  {
    if s != [] && n in FirstOccurrences(s[..|s| - 1]) {
      FirstOccurrencesFrom(s[..|s| - 1], n);
    }
  }

  // ---------------------------------------------------------------- joining climbs

  /** The nodes in `acc` are all in `known`, and none is above `to`. */
  ghost predicate UpTo(known: Node -> bool, acc: seq<Node>, to: Version)
  {
    forall i :: 0 <= i < |acc| ==> known(acc[i]) && Le(acc[i].version, to)
  }

  /** `f` rises from `from` to `to` by steps of `step`. */
  ghost predicate Climb(step: (Node, Node) -> bool, from: Version, to: Version, f: seq<Node>)
  {
    && f != [] && Rising(f) && Eq(from, f[0].version) && Eq(to, f[|f| - 1].version)
    && forall i :: 1 <= i < |f| ==> StepsAt(step, f, i)
  }

  ghost predicate StepsAt(step: (Node, Node) -> bool, f: seq<Node>, i: int)
    requires 1 <= i < |f|
  {
    step(f[i - 1], f[i])
  }

  /** Known nodes match one to one, and a step depends only on the image of the node it starts from. */
  ghost predicate Setting(step: (Node, Node) -> bool, known: Node -> bool)
  {
    && (forall x, y {:trigger SameTogether(x, y)} :: known(x) && known(y) ==> SameTogether(x, y))
    && (forall x: Node, x': Node, y: Node :: step(x, y) && x.image == x'.image ==> step(x', y))
  }

  lemma UpToMatched(step: (Node, Node) -> bool, known: Node -> bool, s: seq<Node>)
    requires Setting(step, known) && forall i :: 0 <= i < |s| ==> known(s[i])
    ensures Matched(s)
  {
  }

  lemma RisingUpTo(known: Node -> bool, s: seq<Node>, to: Version)
    requires Rising(s) && s != [] && Eq(to, s[|s| - 1].version) && forall i :: 0 <= i < |s| ==> known(s[i])
    ensures UpTo(known, s, to)
  {
  }

  /** A climb `x` that begins in the version where the first occurrences `f` of `acc` end continues `acc`. */
  lemma ClimbFollows(step: (Node, Node) -> bool, known: Node -> bool, acc: seq<Node>, f: seq<Node>,
                     from: Version, mid: Version, to: Version, x: seq<Node>)
    requires Setting(step, known) && f == FirstOccurrences(acc)
    requires UpTo(known, acc, mid) && Climb(step, from, mid, f)
    requires UpTo(known, x, to) && Climb(step, mid, to, x)
    ensures Continues(acc, x) && f[|f| - 1].image == x[0].image
    ensures UpTo(known, acc + x, to)
  {
    UpToMatched(step, known, acc + x);
    var last := f[|f| - 1];
    FirstOccurrencesFrom(acc, last);
    var i :| 0 <= i < |acc| && acc[i] == last;
    EqSubstitutes(mid, last.version, x[0].version);
    CompareAntisymmetric(last.version, x[0].version);
    assert SameTogether(last, x[0]);
    forall k | 0 <= k < |acc| ensures Le(acc[k].version, x[0].version) && Le(acc[k].version, to) {
      EqSubstitutes(mid, x[0].version, acc[k].version);
      TotalPreorder(acc[k].version, x[0].version, to);
    }
  }

  /** Appending a climb that starts where `f` ends, without its first node, continues the climb. */
  lemma ClimbContinues(step: (Node, Node) -> bool, known: Node -> bool, from: Version, mid: Version, to: Version,
                       f: seq<Node>, x: seq<Node>)
    requires Setting(step, known) && Climb(step, from, mid, f) && Climb(step, mid, to, x)
    requires f[|f| - 1].image == x[0].image
    ensures Climb(step, from, to, f + x[1..])
  {
    var r := f + x[1..];
    EqSubstitutes(mid, f[|f| - 1].version, x[0].version);
    forall i, j | 0 <= i < j < |r| ensures Lt(r[i].version, r[j].version) {
      if i < |f| <= j {
        assert r[j] == x[j - |f| + 1];
        TotalPreorder(f[i].version, f[|f| - 1].version, x[0].version);
        TotalPreorder(f[i].version, x[0].version, r[j].version);
        EqIgnoresBuildOnly(f[i].version, f[i].version);
      } else if |f| <= i {
        assert r[i] == x[i - |f| + 1] && r[j] == x[j - |f| + 1];
      }
    }
    forall i | 1 <= i < |r| ensures StepsAt(step, r, i) {
      if i < |f| {
        assert StepsAt(step, f, i);
      } else {
        assert StepsAt(step, x, i - |f| + 1);
      }
    }
    if |x| == 1 {
      EqSubstitutes(x[0].version, to, f[|f| - 1].version);
    }
  }

  /** The lists in turn. */
  ghost function Concat(lists: seq<seq<Node>>, n: nat): seq<Node>
    requires n <= |lists|
  {
    if n == 0 then [] else Concat(lists, n - 1) + lists[n - 1]
  }

  /** List `k` climbs from `marks[k]` to `marks[k + 1]`. */
  ghost predicate ClimbAt(step: (Node, Node) -> bool, known: Node -> bool, marks: seq<Version>, lists: seq<seq<Node>>,
                          k: int)
  {
    && 0 <= k < |lists| == |marks| - 1
    && Climb(step, marks[k], marks[k + 1], lists[k]) && UpTo(known, lists[k], marks[k + 1])
  }

  /** Climbs that start where the one before ended give, without repeated images, one climb. */
  lemma {:induction false} JoinedClimbs(step: (Node, Node) -> bool, known: Node -> bool, marks: seq<Version>,
                                        lists: seq<seq<Node>>, n: nat) returns (f: seq<Node>)
    requires Setting(step, known) && 1 <= n <= |lists| == |marks| - 1
    requires forall k :: 0 <= k < |lists| ==> ClimbAt(step, known, marks, lists, k)
    ensures f == FirstOccurrences(Concat(lists, n)) && Climb(step, marks[0], marks[n], f)
    ensures UpTo(known, Concat(lists, n), marks[n])
  {
    assert ClimbAt(step, known, marks, lists, n - 1);
    var x := lists[n - 1];
    if n == 1 {
      f := OneClimb(step, known, marks[0], marks[1], x);
      assert Concat(lists, 1) == [] + x == x;
    } else {
      f := JoinedClimbs(step, known, marks, lists, n - 1);
      f := OneMoreClimb(step, known, marks[0], marks[n - 1], marks[n], Concat(lists, n - 1), f, x);
    }
  }

  lemma OneClimb(step: (Node, Node) -> bool, known: Node -> bool, from: Version, to: Version, x: seq<Node>)
    returns (f: seq<Node>)
    requires Setting(step, known) && Climb(step, from, to, x) && UpTo(known, x, to)
    ensures f == FirstOccurrences(x) && Climb(step, from, to, f)
  {
    UpToMatched(step, known, x);
    RisingIsKept(x, |x|);
    assert x[..|x|] == x;
    f := x;
  }

  lemma OneMoreClimb(step: (Node, Node) -> bool, known: Node -> bool, from: Version, mid: Version, to: Version,
                     acc: seq<Node>, f: seq<Node>, x: seq<Node>) returns (f': seq<Node>)
    requires Setting(step, known) && Climb(step, mid, to, x) && UpTo(known, x, to)
    requires f == FirstOccurrences(acc) && Climb(step, from, mid, f) && UpTo(known, acc, mid)
    ensures f' == FirstOccurrences(acc + x) && Climb(step, from, to, f')
    ensures UpTo(known, acc + x, to)
  {
    ClimbFollows(step, known, acc, f, from, mid, to, x);
    AppendDropsFirst(acc, x, |x|);
    assert x[..|x|] == x && x[1..|x|] == x[1..];
    f' := f + x[1..];
    ClimbContinues(step, known, from, mid, to, f, x);
  }
}
