/**
 * The Python string builtins that the naming helpers are written with:
 * `sub in s`, `str.find`, `str.rfind`, `str.partition`, `str.rpartition`,
 * `str.split` on a one-character separator, `str.join`, `str.replace`,
 * `str(n)` for a natural number and `list.reverse`.
 * Strings are sequences of characters; Python 2's `str` and `unicode`
 * are not told apart.
 */
module Strings {

  /** `sub` occurs in `s` starting at index `i`. */
  predicate OccursAt(s: string, sub: string, i: int)
  {
    0 <= i && i + |sub| <= |s| && s[i..i + |sub|] == sub
  }

  /** Python's `sub in s`; the empty string occurs in every string. */
  predicate Contains(s: string, sub: string)
    decreases |s|
  {
    sub <= s || (|s| > 0 && Contains(s[1..], sub))
  }

  /** `Contains` holds exactly when there is an offset where `sub` occurs. */
  lemma {:induction false} ContainsIff(s: string, sub: string)
    ensures Contains(s, sub) <==> exists i :: OccursAt(s, sub, i)
    decreases |s|
  {
    if sub <= s {
      assert OccursAt(s, sub, 0);
    } else if |s| > 0 {
      ContainsIff(s[1..], sub);
      if Contains(s[1..], sub) {
        var i :| OccursAt(s[1..], sub, i);
        assert s[i + 1..i + 1 + |sub|] == s[1..][i..i + |sub|];
        assert OccursAt(s, sub, i + 1);
      }
      if exists i :: OccursAt(s, sub, i) {
        var i :| OccursAt(s, sub, i);
        assert i != 0;
        assert s[1..][i - 1..i - 1 + |sub|] == s[i..i + |sub|];
        assert OccursAt(s[1..], sub, i - 1);
      }
    }
  }

  /** For a one-character `sub`, `sub in s` is membership of that character. */
  lemma {:induction false} ContainsChar(s: string, c: char)
    ensures Contains(s, [c]) <==> c in s
    decreases |s|
  {
    if |s| > 0 {
      ContainsChar(s[1..], c);
      assert s == [s[0]] + s[1..];
    }
  }

  /** An occurrence inside the first `n` characters is an occurrence in `s` that ends by `n`. */
  lemma OccursInPrefix(s: string, sub: string, n: int, j: int)
    requires 0 <= n <= |s|
    ensures OccursAt(s[..n], sub, j) <==> OccursAt(s, sub, j) && j + |sub| <= n
  {
    if 0 <= j && j + |sub| <= n {
      assert s[..n][j..j + |sub|] == s[j..j + |sub|];
    }
  }

  /** An occurrence after the first `n` characters is an occurrence in `s` that starts at or after `n`. */
  lemma OccursInSuffix(s: string, sub: string, n: int, j: int)
    requires 0 <= n <= |s|
    ensures OccursAt(s[n..], sub, j) <==> OccursAt(s, sub, n + j) && 0 <= j
  {
    if 0 <= j && n + j + |sub| <= |s| {
      assert s[n..][j..j + |sub|] == s[n + j..n + j + |sub|];
    }
  }

  /** Python's `s.find(sub)`: the start of the first occurrence of `sub`, or -1. */
  function Find(s: string, sub: string): (r: int)
    ensures r == -1 || OccursAt(s, sub, r)
    ensures forall j :: 0 <= j && (r == -1 || j < r) ==> !OccursAt(s, sub, j)
    decreases |s|
  {
    if sub <= s then 0
    else if |s| == 0 then -1
    else
      var k := Find(s[1..], sub);
      FindStep(s, sub, k);
      if k == -1 then -1 else k + 1
  }

  /** How occurrences in `s` relate to those in `s[1..]`, for `Find`. */
  lemma FindStep(s: string, sub: string, k: int)
    requires |s| > 0 && !(sub <= s)
    requires k == -1 || OccursAt(s[1..], sub, k)
    requires forall j :: 0 <= j && (k == -1 || j < k) ==> !OccursAt(s[1..], sub, j)
    ensures k != -1 ==> OccursAt(s, sub, k + 1)
    ensures forall j :: 0 <= j && (k == -1 || j < k + 1) ==> !OccursAt(s, sub, j)
  {
    if k != -1 {
      OccursInSuffix(s, sub, 1, k);
    }
    forall j | 0 <= j && (k == -1 || j < k + 1)
      ensures !OccursAt(s, sub, j)
    {
      if j > 0 {
        OccursInSuffix(s, sub, 1, j - 1);
      }
    }
  }

  /** Python's `s.rfind(sub)`: the start of the last occurrence of `sub`, or -1. */
  function RFind(s: string, sub: string): (r: int)
    ensures r == -1 || OccursAt(s, sub, r)
    ensures forall j :: r < j ==> !OccursAt(s, sub, j)
    decreases |s|
  {
    if |s| < |sub| then -1
    else if s[|s| - |sub|..] == sub then |s| - |sub|
    else
      var k := RFind(s[..|s| - 1], sub);
      RFindStep(s, sub, k);
      k
  }

  /** How occurrences in `s` relate to those in `s[..|s| - 1]`, for `RFind`. */
  lemma RFindStep(s: string, sub: string, k: int)
    requires |sub| <= |s| && s[|s| - |sub|..] != sub
    requires k == -1 || OccursAt(s[..|s| - 1], sub, k)
    requires var t := s[..|s| - 1]; forall j :: k < j ==> !OccursAt(t, sub, j)
    ensures k == -1 || OccursAt(s, sub, k)
    ensures forall j :: k < j ==> !OccursAt(s, sub, j)
  {
    OccursInPrefix(s, sub, |s| - 1, k);
    forall j | k < j
      ensures !OccursAt(s, sub, j)
    {
      OccursInPrefix(s, sub, |s| - 1, j);
      if j + |sub| == |s| {
        assert s[j..j + |sub|] == s[|s| - |sub|..];
      }
    }
  }

  /** Python's `s.partition(sep)`; an empty `sep` raises in Python and is excluded. */
  function Partition(s: string, sep: string): (r: (string, string, string))
    requires sep != []
    ensures s == r.0 + r.1 + r.2
    ensures r.1 == sep || (r.1 == [] && r.0 == s && r.2 == [])
    ensures r.1 == sep ==> OccursAt(s, sep, |r.0|) && forall j :: 0 <= j < |r.0| ==> !OccursAt(s, sep, j)
    ensures r.1 == [] ==> forall j :: !OccursAt(s, sep, j)
  {
    var i := Find(s, sep);
    if i == -1 then (s, [], [])
    else
      assert s == s[..i] + sep + s[i + |sep|..];
      (s[..i], sep, s[i + |sep|..])
  }

  /** Python's `s.rpartition(sep)`; an empty `sep` raises in Python and is excluded. */
  function RPartition(s: string, sep: string): (r: (string, string, string))
    requires sep != []
    ensures s == r.0 + r.1 + r.2
    ensures r.1 == sep || (r.1 == [] && r.0 == [] && r.2 == s)
    ensures r.1 == sep ==> OccursAt(s, sep, |r.0|) && forall j :: |r.0| < j ==> !OccursAt(s, sep, j)
    ensures r.1 == [] ==> forall j :: !OccursAt(s, sep, j)
  {
    var i := RFind(s, sep);
    if i == -1 then ([], [], s)
    else
      assert s == s[..i] + sep + s[i + |sep|..];
      (s[..i], sep, s[i + |sep|..])
  }

  /** The text after the last `sep` contains no `sep`. */
  lemma RPartitionTail(s: string, sep: string)
    requires sep != []
    ensures !Contains(RPartition(s, sep).2, sep)
  {
    var r := RPartition(s, sep);
    ContainsIff(r.2, sep);
    var n := |r.0| + |r.1|;
    assert r.2 == s[n..];
    forall j | OccursAt(r.2, sep, j)
      ensures false
    {
      OccursInSuffix(s, sep, n, j);
    }
  }

  /** rpartition of a string ending in `sep` cuts off exactly that final `sep`. */
  lemma RPartitionOfSuffixed(p: string, sep: string)
    requires sep != []
    ensures RPartition(p + sep, sep) == (p, sep, [])
  {
    assert (p + sep)[|p + sep| - |sep|..] == sep;
    assert (p + sep)[..|p|] == p;
  }

  /** rpartition on a one-character separator cuts at the last one: the one before a tail without it. */
  lemma RPartitionLast(p: string, c: char, t: string)
    requires c !in t
    ensures RPartition(p + [c] + t, [c]) == (p, [c], t)
  {
    var s := p + [c] + t;
    var r := RPartition(s, [c]);
    assert OccursAt(s, [c], |p|) by {
      assert s[|p|..|p| + 1] == [c];
    }
    assert |p| <= |r.0|;
    assert s[|r.0|..|r.0| + 1] == [c];
    assert s[|r.0|] == c;
    assert forall k :: |p| < k < |s| ==> s[k] == t[k - |p| - 1];
    assert |r.0| == |p|;
    assert s[..|p|] == p;
    assert s[|p| + 1..] == t;
  }

  /** partition on a one-character separator cuts at its first occurrence. */
  lemma PartitionFirst(p: string, c: char, t: string)
    requires c !in p
    ensures Partition(p + [c] + t, [c]) == (p, [c], t)
  {
    var s := p + [c] + t;
    var r := Partition(s, [c]);
    assert OccursAt(s, [c], |p|) by {
      assert s[|p|..|p| + 1] == [c];
    }
    assert |r.0| <= |p|;
    assert s[|r.0|..|r.0| + 1] == [c];
    assert s[|r.0|] == c;
    assert forall k :: 0 <= k < |p| ==> s[k] == p[k];
    assert |r.0| == |p|;
    assert s[..|p|] == p;
    assert s[|p| + 1..] == t;
  }

  /** Python's `s.split(c)` for a one-character separator: never empty, and no piece holds `c`. */
  function Split(s: string, c: char): (r: seq<string>)
    ensures |r| >= 1
    ensures forall k :: 0 <= k < |r| ==> c !in r[k]
    decreases |s|
  {
    if s == [] then [[]]
    else
      var rest := Split(s[1..], c);
      if s[0] == c then [[]] + rest else [[s[0]] + rest[0]] + rest[1..]
  }

  /** Python's `sep.join(parts)`. */
  function Join(parts: seq<string>, sep: string): string
    decreases |parts|
  {
    if |parts| == 0 then []
    else if |parts| == 1 then parts[0]
    else parts[0] + sep + Join(parts[1..], sep)
  }

  /** Joining the pieces of a split with the same separator gives back the string. */
  lemma {:induction false} JoinSplit(s: string, c: char)
    ensures Join(Split(s, c), [c]) == s
    decreases |s|
  {
    if s != [] {
      JoinSplit(s[1..], c);
      var rest := Split(s[1..], c);
      if s[0] == c {
        assert Split(s, c) == [[]] + rest;
        assert ([[]] + rest)[1..] == rest;
      } else {
        var parts := [[s[0]] + rest[0]] + rest[1..];
        assert Split(s, c) == parts;
        if |rest| > 1 {
          assert parts[1..] == rest[1..];
          assert Join(rest, [c]) == rest[0] + [c] + Join(rest[1..], [c]);
        }
      }
    }
  }

  /** A string without the separator splits into itself alone. */
  lemma {:induction false} SplitAbsent(s: string, c: char)
    requires c !in s
    ensures Split(s, c) == [s]
    decreases |s|
  {
    if s != [] {
      SplitAbsent(s[1..], c);
      assert [s[0]] + s[1..] == s;
    }
  }

  /** Splitting `a + [c] + b` when `a` has no `c` gives `a` followed by the pieces of `b`. */
  lemma {:induction false} SplitAt(a: string, c: char, b: string)
    requires c !in a
    ensures Split(a + [c] + b, c) == [a] + Split(b, c)
    decreases |a|
  {
    var s := a + [c] + b;
    if a == [] {
      assert s[1..] == b;
    } else {
      assert s[1..] == a[1..] + [c] + b;
      SplitAt(a[1..], c, b);
      assert [a[0]] + a[1..] == a;
    }
  }

  /** Splitting the join of pieces that hold no separator gives back those pieces. */
  lemma {:induction false} SplitJoin(parts: seq<string>, c: char)
    requires |parts| >= 1
    requires forall k :: 0 <= k < |parts| ==> c !in parts[k]
    ensures Split(Join(parts, [c]), c) == parts
    decreases |parts|
  {
    if |parts| == 1 {
      SplitAbsent(parts[0], c);
    } else {
      SplitJoin(parts[1..], c);
      SplitAt(parts[0], c, Join(parts[1..], [c]));
      assert [parts[0]] + parts[1..] == parts;
    }
  }

  /** Every character equal to `c` replaced by `d`, position by position. */
  function SubstChar(s: string, c: char, d: char): (r: string)
  {
    seq(|s|, i requires 0 <= i < |s| => if s[i] == c then d else s[i])
  }

  /** `[d].join(s.split(c))` substitutes `d` for every `c`. */
  lemma {:induction false} JoinSplitSubst(s: string, c: char, d: char)
    ensures Join(Split(s, c), [d]) == SubstChar(s, c, d)
    decreases |s|
  {
    if s != [] {
      JoinSplitSubst(s[1..], c, d);
      var rest := Split(s[1..], c);
      var t := SubstChar(s[1..], c, d);
      assert SubstChar(s, c, d) == [if s[0] == c then d else s[0]] + t;
      if s[0] == c {
        assert ([[]] + rest)[1..] == rest;
      } else {
        var parts := [[s[0]] + rest[0]] + rest[1..];
        if |rest| > 1 {
          assert parts[1..] == rest[1..];
        }
      }
    }
  }

  /** Python's `s.replace(pat, rep)`: non-overlapping occurrences, left to right. */
  function Replace(s: string, pat: string, rep: string): string
    requires pat != []
    decreases |s|
  {
    if pat <= s then rep + Replace(s[|pat|..], pat, rep)
    else if s == [] then []
    else [s[0]] + Replace(s[1..], pat, rep)
  }

  /** A same-length replacement keeps the length. */
  lemma {:induction false} ReplaceLength(s: string, pat: string, rep: string)
    requires pat != [] && |pat| == |rep|
    ensures |Replace(s, pat, rep)| == |s|
    decreases |s|
  {
    if pat <= s {
      ReplaceLength(s[|pat|..], pat, rep);
    } else if s != [] {
      ReplaceLength(s[1..], pat, rep);
    }
  }

  /** Without an occurrence of `pat`, replace changes nothing. */
  lemma {:induction false} ReplaceAbsent(s: string, pat: string, rep: string)
    requires pat != [] && !Contains(s, pat)
    ensures Replace(s, pat, rep) == s
    decreases |s|
  {
    if s != [] {
      ReplaceAbsent(s[1..], pat, rep);
    }
  }

  /** replace keeps the text before the first occurrence of `pat`, swaps that
      occurrence for `rep`, and carries on after it. */
  lemma {:induction false} ReplaceFirst(p: string, pat: string, rep: string, q: string)
    requires pat != []
    requires forall j :: 0 <= j < |p| ==> !OccursAt(p + pat + q, pat, j)
    ensures Replace(p + pat + q, pat, rep) == p + rep + Replace(q, pat, rep)
    decreases |p|
  {
    var s := p + pat + q;
    if p == [] {
      assert s == pat + q;
      assert s[|pat|..] == q;
    } else {
      var t := p[1..] + pat + q;
      assert s[1..] == t;
      assert !(pat <= s) by {
        assert !OccursAt(s, pat, 0);
      }
      forall j | 0 <= j < |p| - 1
        ensures !OccursAt(t, pat, j)
      {
        assert !OccursAt(s, pat, 1 + j);
        OccursInSuffix(s, pat, 1, j);
      }
      ReplaceFirst(p[1..], pat, rep, q);
      calc {
        Replace(s, pat, rep);
        [s[0]] + Replace(t, pat, rep);
        [p[0]] + (p[1..] + rep + Replace(q, pat, rep));
        { assert p == [p[0]] + p[1..]; }
        p + rep + Replace(q, pat, rep);
      }
    }
  }

  /** With an occurrence of `pat`, replacing it by a different same-length `rep` changes the string. */
  lemma {:induction false} ReplaceChanges(s: string, pat: string, rep: string)
    requires pat != [] && |pat| == |rep| && pat != rep
    ensures Contains(s, pat) ==> Replace(s, pat, rep) != s
    decreases |s|
  {
    var r := Replace(s, pat, rep);
    if pat <= s {
      assert r[..|rep|] == rep;
      assert s[..|pat|] == pat;
    } else if s != [] {
      ReplaceChanges(s[1..], pat, rep);
      assert r == [s[0]] + Replace(s[1..], pat, rep);
      assert s == [s[0]] + s[1..];
    }
  }

  /** The decimal digit for `d`. */
  function Digit(d: nat): char
    requires d < 10
  {
    "0123456789"[d]
  }

  predicate IsDigit(ch: char)
  {
    '0' <= ch <= '9'
  }

  /** Python's `str(n)` for a natural number: its decimal digits, at least one,
      with no leading zero except for 0 itself. */
  function NatToString(n: nat): (r: string)
    ensures |r| >= 1 && forall k :: 0 <= k < |r| ==> IsDigit(r[k])
    ensures r[0] == '0' <==> n == 0
    ensures n == 0 ==> r == "0"
  {
    if n < 10 then [Digit(n)] else NatToString(n / 10) + [Digit(n % 10)]
  }

  /** Reads a string of decimal digits back as a number (the inverse of `NatToString`). */
  function ParseDecimal(s: string): nat
    requires forall k :: 0 <= k < |s| ==> IsDigit(s[k])
    decreases |s|
  {
    if s == [] then 0
    else
      assert IsDigit(s[|s| - 1]);
      ParseDecimal(s[..|s| - 1]) * 10 + (s[|s| - 1] as int - '0' as int)
  }

  /** The digits of `str(n)` have the value `n`. */
  lemma {:induction false} DecimalRoundTrip(n: nat)
    ensures ParseDecimal(NatToString(n)) == n
  {
    var r := NatToString(n);
    if n >= 10 {
      DecimalRoundTrip(n / 10);
      assert r[..|r| - 1] == NatToString(n / 10);
    }
  }

  /** Distinct numbers print as distinct strings. */
  lemma NatToStringInjective(m: nat, n: nat)
    requires NatToString(m) == NatToString(n)
    ensures m == n
  {
    DecimalRoundTrip(m);
    DecimalRoundTrip(n);
  }

  /** `s` with every character of `cs` deleted. */
  function DeleteChars(s: string, cs: set<char>): (r: string)
    ensures forall k :: 0 <= k < |r| ==> r[k] !in cs
    ensures |r| <= |s|
    decreases |s|
  {
    if s == [] then []
    else if s[0] in cs then DeleteChars(s[1..], cs)
    else [s[0]] + DeleteChars(s[1..], cs)
  }

  /** Deleting from a concatenation deletes from each part. */
  lemma {:induction false} DeleteCharsAppend(a: string, b: string, cs: set<char>)
    ensures DeleteChars(a + b, cs) == DeleteChars(a, cs) + DeleteChars(b, cs)
    decreases |a|
  {
    if a != [] {
      DeleteCharsAppend(a[1..], b, cs);
      assert (a + b)[1..] == a[1..] + b;
    } else {
      assert a + b == b;
    }
  }

  /** One character is deleted exactly when it is in `cs`, and kept otherwise:
      with `DeleteCharsAppend` this fixes the result, the kept characters in order. */
  lemma DeleteCharsSingle(c: char, cs: set<char>)
    ensures DeleteChars([c], cs) == if c in cs then [] else [c]
  {
  }

  /** A string holding none of `cs` is left as it is. */
  lemma {:induction false} DeleteCharsNone(s: string, cs: set<char>)
    requires forall k :: 0 <= k < |s| ==> s[k] !in cs
    ensures DeleteChars(s, cs) == s
    decreases |s|
  {
    if s != [] {
      DeleteCharsNone(s[1..], cs);
    }
  }

  /** Python's in-place `list.reverse`, as a value. */
  function Reverse<T>(xs: seq<T>): (r: seq<T>)
    decreases |xs|
  {
    if xs == [] then [] else Reverse(xs[1..]) + [xs[0]]
  }

  lemma {:induction false} ReverseAt<T>(xs: seq<T>, k: int)
    requires 0 <= k < |xs|
    ensures |Reverse(xs)| == |xs| && Reverse(xs)[k] == xs[|xs| - 1 - k]
    decreases |xs|
  {
    ReverseLength(xs);
    if k < |xs| - 1 {
      ReverseAt(xs[1..], k);
    }
  }

  /** Reversing keeps the members. */
  lemma ReverseIn<T>(xs: seq<T>, x: T)
    ensures x in Reverse(xs) <==> x in xs
  {
    ReverseLength(xs);
    if x in xs {
      var k :| 0 <= k < |xs| && xs[k] == x;
      ReverseAt(xs, |xs| - 1 - k);
    }
    if x in Reverse(xs) {
      var k :| 0 <= k < |xs| && Reverse(xs)[k] == x;
      ReverseAt(xs, k);
    }
  }

  lemma {:induction false} ReverseLength<T>(xs: seq<T>)
    ensures |Reverse(xs)| == |xs|
    decreases |xs|
  {
    if xs != [] {
      ReverseLength(xs[1..]);
    }
  }
}
