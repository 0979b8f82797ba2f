/** The few `str` operations the program relies on: `find`, `rfind`, `split` and the
    `join` that undoes it. Strings are sequences of characters. */
module Strings {

  /** First index of `c` in `s`, or `|s|` when there is none. */
  function IndexOf(s: string, c: char): (i: nat)
    ensures i <= |s|
    ensures i < |s| ==> s[i] == c
    ensures forall k :: 0 <= k < i ==> s[k] != c
  {
    if s == [] then 0 else if s[0] == c then 0 else 1 + IndexOf(s[1..], c)
  }

  /** `s.rfind(c)`: the last index of `c` in `s`, or -1 when there is none. */
  function RFind(s: string, c: char): (i: int)
    ensures -1 <= i < |s|
    ensures i >= 0 ==> s[i] == c
    ensures forall k :: i < k < |s| ==> s[k] != c
  {
    if s == [] then -1 else if s[|s| - 1] == c then |s| - 1 else RFind(s[..|s| - 1], c)
  }

  /** `rfind` on a concatenation looks in the right-hand part first. */
  lemma RFindAppend(a: string, b: string, c: char)
    ensures RFind(a + b, c) == if c in b then |a| + RFind(b, c) else RFind(a, c)
  {
    var i := RFind(a + b, c);
    if c in b {
      var j := RFind(b, c);
      assert (a + b)[|a| + j] == c;
      assert j >= 0;
    } else {
      var j := RFind(a, c);
      if j >= 0 { assert (a + b)[j] == c; }
      assert forall k :: |a| <= k < |a| + |b| ==> (a + b)[k] == b[k - |a|];
    }
  }

  /** `s.split(c)` (a one-character separator): the maximal runs between separators. */
  function Split(s: string, c: char): (parts: seq<string>)
    ensures |parts| >= 1
    ensures forall p :: p in parts ==> c !in p
    decreases |s|
  {
    var i := IndexOf(s, c);
    if i == |s| then [s] else [s[..i]] + Split(s[i + 1..], c)
  }

  /** `c.join(parts)`. */
  function Join(parts: seq<string>, c: char): string
    requires |parts| >= 1
  {
    if |parts| == 1 then parts[0] else parts[0] + [c] + Join(parts[1..], c)
  }

  /** Joining the pieces of a split gives back the string. */
  lemma {:induction false} JoinSplit(s: string, c: char)
    ensures Join(Split(s, c), c) == s
    decreases |s|
  {
    var i := IndexOf(s, c);
    var parts := Split(s, c);
    if i < |s| {
      var rest := Split(s[i + 1..], c);
      JoinSplit(s[i + 1..], c);
      assert parts == [s[..i]] + rest;
      assert parts[1..] == rest;
      assert Join(parts, c) == s[..i] + [c] + Join(rest, c);
      assert s == s[..i] + [c] + s[i + 1..];
    } else {
      assert parts == [s];
    }
  }

  /** Splitting a join of separator-free pieces gives back the pieces. */
  lemma {:induction false} SplitJoin(parts: seq<string>, c: char)
    requires |parts| >= 1
    requires forall p :: p in parts ==> c !in p
    ensures Split(Join(parts, c), c) == parts
  {
    if |parts| > 1 {
      SplitJoin(parts[1..], c);
      SplitAtFirst(parts[0], Join(parts[1..], c), c);
    } else {
      assert c !in parts[0];
    }
  }

  /** A split at the first separator. */
  lemma SplitAtFirst(a: string, b: string, c: char)
    requires c !in a
    ensures Split(a + [c] + b, c) == [a] + Split(b, c)
  {
    var s := a + [c] + b;
    assert s[|a|] == c;
    assert forall k :: 0 <= k < |a| ==> s[k] == a[k];
    assert IndexOf(s, c) == |a|;
    assert s[..|a|] == a;
    assert s[|a| + 1..] == b;
  }

  /** A separator-free string does not split. */
  lemma SplitNone(a: string, c: char)
    requires c !in a
    ensures Split(a, c) == [a]
  {
    assert IndexOf(a, c) == |a|;
  }

  /** `find` skips a prefix that does not hold the character. */
  lemma {:induction false} IndexOfAppend(a: string, b: string, c: char)
    requires c !in a
    ensures IndexOf(a + b, c) == |a| + IndexOf(b, c)
  {
    if a == [] {
      assert a + b == b;
    } else {
      assert a[0] != c && (a + b)[0] == a[0];
      assert (a + b)[1..] == a[1..] + b;
      assert c !in a[1..] by {
        assert forall k :: 0 <= k < |a| - 1 ==> a[1..][k] == a[k + 1];
      }
      IndexOfAppend(a[1..], b, c);
    }
  }

  /** The last piece of a split is what follows the last separator. */
  lemma {:induction false} SplitLast(a: string, b: string, c: char)
    requires c !in b
    ensures var parts := Split(a + [c] + b, c); parts[|parts| - 1] == b
    decreases |a|
  {
    if c !in a {
      SplitAtFirst(a, b, c);
      SplitNone(b, c);
    } else {
      var i := IndexOf(a, c);
      assert c !in a[..i] by {
        assert forall k :: 0 <= k < i ==> a[..i][k] == a[k];
      }
      assert a + [c] + b == a[..i] + [c] + (a[i + 1..] + [c] + b);
      SplitAtFirst(a[..i], a[i + 1..] + [c] + b, c);
      SplitLast(a[i + 1..], b, c);
    }
  }

  /** The last piece of a split is what follows the last separator, the whole string
      when there is none. */
  lemma SplitLastPiece(s: string, c: char)
    ensures var parts := Split(s, c); parts[|parts| - 1] == s[RFind(s, c) + 1..]
  {
    var j := RFind(s, c);
    if j < 0 {
      SplitWhole(s, c);
      assert s[j + 1..] == s;
    } else {
      SplitAfter(s, c, j);
    }
  }

  /** With no separator at all, the only piece is the whole string. */
  lemma SplitWhole(s: string, c: char)
    requires forall k :: 0 <= k < |s| ==> s[k] != c
    ensures var parts := Split(s, c); parts[|parts| - 1] == s
  {
    assert c !in s;
    SplitNone(s, c);
  }

  /** With a separator at `j` and none after it, the last piece is what follows `j`. */
  lemma SplitAfter(s: string, c: char, j: nat)
    requires j < |s| && s[j] == c
    requires forall k :: j < k < |s| ==> s[k] != c
    ensures var parts := Split(s, c); parts[|parts| - 1] == s[j + 1..]
  {
    var a, b := s[..j], s[j + 1..];
    assert c !in b by {
      assert forall k :: 0 <= k < |b| ==> b[k] == s[j + 1 + k];
    }
    assert s == a + [c] + b;
    SplitLast(a, b, c);
  }



}
