/** The string operations the program takes from Go's `strings` and `strconv`. */
module Text {
  import opened Outcome

  const U64_LIMIT: nat := 0x1_0000_0000_0000_0000

  /** An unsigned 64-bit integer. */
  type U64 = n: int | 0 <= n < U64_LIMIT

  /** Position of the first `c` in `s`, or -1. */
  function IndexOf(s: string, c: char): (i: int)
    ensures -1 <= i < |s|
    ensures i == -1 <==> c !in s
    ensures i >= 0 ==> s[i] == c
    ensures forall k :: 0 <= k < i ==> s[k] != c
  {
    if s == "" then -1
    else if s[0] == c then 0
    else
      var i := IndexOf(s[1..], c);
      assert s == [s[0]] + s[1..];
      if i == -1 then -1 else i + 1
  }

  /** Position of the last `c` in `s`, or -1. */
  function LastIndexOf(s: string, c: char): (i: int)
    ensures -1 <= i < |s|
    ensures i == -1 <==> c !in s
    ensures i >= 0 ==> s[i] == c
    ensures forall k :: i < k < |s| ==> s[k] != c
  {
    if s == "" then -1
    else if s[|s| - 1] == c then |s| - 1
    else
      var i := LastIndexOf(s[..|s| - 1], c);
      assert s == s[..|s| - 1] + [s[|s| - 1]];
      i
  }

  lemma IndexOfConcat(a: string, c: char, b: string)
    requires c !in a
    ensures IndexOf(a + [c] + b, c) == |a|
  {
    assert (a + [c] + b)[|a|] == c;
  }

  lemma LastIndexOfConcat(a: string, c: char, b: string)
    requires c !in b
    ensures LastIndexOf(a + [c] + b, c) == |a|
  {
    assert (a + [c] + b)[|a|] == c;
  }

  /** `strings.Split` for a one-character separator. */
  function Split(s: string, c: char): (parts: seq<string>)
    ensures |parts| >= 1
    ensures forall p <- parts :: c !in p
    decreases |s|
  {
    var i := IndexOf(s, c);
    if i == -1 then [s] else [s[..i]] + Split(s[i + 1..], c)
  }

  /** `strings.Join` for a one-character separator. */
  function Join(parts: seq<string>, c: char): string
  {
    if parts == [] then ""
    else if |parts| == 1 then parts[0]
    else parts[0] + [c] + Join(parts[1..], c)
  }

  lemma JoinCons(first: string, rest: seq<string>, c: char)
    requires rest != []
    ensures Join([first] + rest, c) == first + [c] + Join(rest, c)
  {
    assert ([first] + rest)[1..] == rest;
  }

  lemma SplitAt(s: string, c: char, i: int)
    requires 0 <= i == IndexOf(s, c)
    ensures Split(s, c) == [s[..i]] + Split(s[i + 1..], c)
  {
  }

  lemma AroundIndex<T>(s: seq<T>, i: int)
    requires 0 <= i < |s|
    ensures s == s[..i] + [s[i]] + s[i + 1..]
  {
  }

  lemma {:induction false} JoinSplit(s: string, c: char)
    ensures Join(Split(s, c), c) == s
    decreases |s|
  {
    var i := IndexOf(s, c);
    if i != -1 {
      SplitAt(s, c, i);
      AroundIndex(s, i);
      JoinSplit(s[i + 1..], c);
      JoinCons(s[..i], Split(s[i + 1..], c), c);
    }
  }

  lemma Regroup(a: string, i: nat, c: char, b: string)
    requires i < |a| && a[i] == c
    ensures a + [c] + b == a[..i] + [c] + (a[i + 1..] + [c] + b)
  {
  }

  lemma SplitConcat(a: string, c: char, b: string)
    requires c !in a
    ensures Split(a + [c] + b, c) == [a] + Split(b, c)
  {
    IndexOfConcat(a, c, b);
    var s := a + [c] + b;
    assert s[..|a|] == a && s[|a| + 1..] == b;
  }

  /** A text without the separator stays in front of the first part. */
  lemma SplitHead(a: string, b: string, c: char)
    requires c !in a
    ensures Split(a + b, c)[0] == a + Split(b, c)[0]
  {
    var i, k := IndexOf(b, c), IndexOf(a + b, c);
    if i == -1 {
      assert k == -1;
    } else {
      assert (a + b)[|a| + i] == b[i];
      assert k == |a| + i;
      assert (a + b)[..k] == a + b[..i];
    }
  }

  /** Where the text goes on with the separator, it is the first part. */
  lemma SplitFirst(a: string, b: string, c: char)
    requires c !in a && (b != "" ==> b[0] == c)
    ensures Split(a + b, c)[0] == a
  {
    SplitHead(a, b, c);
    if b != "" {
      assert IndexOf(b, c) == 0;
      assert Split(b, c)[0] == "";
    }
  }

  lemma {:induction false} SplitJoin(parts: seq<string>, c: char)
    requires |parts| >= 1
    requires forall p <- parts :: c !in p
    ensures Split(Join(parts, c), c) == parts
  {
    if |parts| == 1 {
    } else {
      SplitConcat(parts[0], c, Join(parts[1..], c));
      SplitJoin(parts[1..], c);
      assert parts == [parts[0]] + parts[1..];
    }
  }

  /** No character outside the parts and the separator appears in the joined string. */
  lemma {:induction false} JoinAvoids(parts: seq<string>, c: char, d: char)
    requires c != d
    requires forall p <- parts :: d !in p
    ensures d !in Join(parts, c)
  {
    if |parts| > 1 {
      JoinAvoids(parts[1..], c, d);
    }
  }

  predicate IsDigit(c: char) { '0' <= c <= '9' }

  predicate AllDigits(s: string) { forall c <- s :: IsDigit(c) }

  predicate HasLeadingZeroes(s: string) { |s| > 1 && s[0] == '0' }

  function DigitChar(d: nat): (c: char)
    requires d < 10
    ensures IsDigit(c) && DigitValue(c) == d && c == "0123456789"[d]
  {
    ('0' as int + d) as char
  }

  function DigitValue(c: char): (d: nat)
    requires IsDigit(c)
    ensures d < 10
  {
    c as int - '0' as int
  }

  /** Decimal printing: `strconv.Itoa`, `strconv.AppendUint` in base 10 and the `%v` verb. */
  function Itoa(n: nat): (s: string)
    ensures |s| >= 1 && AllDigits(s) && !HasLeadingZeroes(s)
    ensures s[0] == '0' <==> n == 0
  {
    if n < 10 then [DigitChar(n)] else Itoa(n / 10) + [DigitChar(n % 10)]
  }

  function DecimalValue(s: string): nat
    requires AllDigits(s)
  {
    if s == "" then 0 else DecimalValue(s[..|s| - 1]) * 10 + DigitValue(s[|s| - 1])
  }

  lemma {:induction false} ItoaValue(n: nat)
    ensures DecimalValue(Itoa(n)) == n
  {
    if n < 10 {
      assert [DigitChar(n)][..0] == "";
    } else {
      ItoaValue(n / 10);
      assert Itoa(n)[..|Itoa(n)| - 1] == Itoa(n / 10);
    }
  }

  lemma {:induction false} ValueItoa(s: string)
    requires |s| >= 1 && AllDigits(s) && !HasLeadingZeroes(s)
    ensures Itoa(DecimalValue(s)) == s
    ensures |s| > 1 ==> DecimalValue(s) >= 10
  {
    var front, d := s[..|s| - 1], DigitValue(s[|s| - 1]);
    assert s == front + [s[|s| - 1]];
    if |s| == 1 {
      assert front == "";
    } else {
      ValueItoa(front);
      if |front| == 1 {
        assert front[..0] == "";
        assert DecimalValue(front) == DigitValue(front[0]);
        assert front[0] == s[0] != '0';
      }
      assert DecimalValue(front) >= 1;
      assert DecimalValue(s) / 10 == DecimalValue(front) && DecimalValue(s) % 10 == d;
    }
  }

  lemma ItoaInjective(m: nat, n: nat)
    ensures Itoa(m) == Itoa(n) ==> m == n
  {
    ItoaValue(m);
    ItoaValue(n);
  }

  /** `strconv.ParseUint(s, 10, 64)`. */
  function ParseUint(s: string): Option<U64>
  {
    if s == "" || !AllDigits(s) || DecimalValue(s) >= U64_LIMIT then None
    else Some(DecimalValue(s))
  }
}
