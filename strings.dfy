/**
  The two operations of Go's `strings` package that the image bookkeeping
  relies on, for a single-character separator: `strings.Split` and
  `strings.HasSuffix`. Image references only ever split on ASCII `:` and `/`,
  so working on characters instead of bytes changes nothing.

  `Split` yields a sequence of strings; the pieces the bookkeeping reads from
  it (the first, the last, the second-to-last) are characterised here by the
  positions of the first and last separator in the original string.
 */
module Strings {

  /** Position of the first occurrence of `c` in `s`. */
  function IndexOf(s: string, c: char): (k: nat)
    requires c in s
    ensures k < |s| && s[k] == c
    ensures c !in s[..k]
  {
    if s[0] == c then 0
    else
      assert s == [s[0]] + s[1..];
      var k' := IndexOf(s[1..], c);
      assert s[..k' + 1] == [s[0]] + s[1..][..k'];
      k' + 1
  }

  /** Any position holding the first `c` is the one `IndexOf` finds. */
  lemma {:induction false} IndexOfUnique(s: string, c: char, i: nat)
    requires i < |s| && s[i] == c && c !in s[..i]
    ensures IndexOf(s, c) == i
    decreases i
  {
    assert forall j :: 0 <= j < i ==> s[..i][j] == s[j];
    if s[0] != c {
      assert s[1..][..i - 1] == s[..i][1..];
      IndexOfUnique(s[1..], c, i - 1);
    }
  }

  /** Position of the last occurrence of `c` in `s`. */
  function LastIndexOf(s: string, c: char): (k: nat)
    requires c in s
    ensures k < |s| && s[k] == c
    ensures c !in s[k + 1..]
    decreases |s|
  {
    var n := |s| - 1;
    if s[n] == c then n
    else
      assert s == s[..n] + [s[n]];
      var k := LastIndexOf(s[..n], c);
      assert s[k + 1..] == s[..n][k + 1..] + [s[n]];
      k
  }

  /** Any position holding the last `c` is the one `LastIndexOf` finds. */
  lemma {:induction false} LastIndexOfUnique(s: string, c: char, i: nat)
    requires i < |s| && s[i] == c && c !in s[i + 1..]
    ensures LastIndexOf(s, c) == i
    decreases |s| - i
  {
    var n := |s| - 1;
    assert forall j :: i < j < |s| ==> s[i + 1..][j - i - 1] == s[j];
    if s[n] != c {
      assert s[..n][i + 1..] == s[i + 1..n];
      assert forall j :: i < j < n ==> s[i + 1..n][j - i - 1] == s[j];
      LastIndexOfUnique(s[..n], c, i);
    }
  }

  /**
    `strings.Split(s, string(c))`: the pieces of `s` between occurrences of
    `c`. There is always at least one piece, even for the empty string.
    Defined from the back: the pieces of the text before the last separator,
    then the text after it.
   */
  function Split(s: string, c: char): (parts: seq<string>)
    ensures |parts| >= 1
    decreases |s|
  {
    if c !in s then [s]
    else
      var j := LastIndexOf(s, c);
      Split(s[..j], c) + [s[j + 1..]]
  }

  /** Without a separator the only piece is the whole string. */
  lemma SplitNone(s: string, c: char)
    requires c !in s
    ensures Split(s, c) == [s]
  {
  }

  /** With a separator, the last piece starts right after the last separator. */
  lemma SplitLast(s: string, c: char)
    requires c in s
    ensures |Split(s, c)| >= 2
    ensures Split(s, c)[|Split(s, c)| - 1] == s[LastIndexOf(s, c) + 1..]
  {
  }

  /**
    The second-to-last piece of `s` is the last piece of the text before its
    last separator.
   */
  lemma SplitSecondLast(s: string, c: char)
    requires c in s
    ensures var u := s[..LastIndexOf(s, c)]; var p := Split(s, c); var q := Split(u, c);
      |p| == |q| + 1 && p[|p| - 2] == q[|q| - 1]
  {
  }

  /** With a separator, the first piece ends at the first separator. */
  lemma {:induction false} SplitFirst(s: string, c: char)
    requires c in s
    ensures Split(s, c)[0] == s[..IndexOf(s, c)]
    decreases |s|
  {
    var j := LastIndexOf(s, c);
    var u := s[..j];
    assert Split(s, c)[0] == Split(u, c)[0];
    if c in u {
      SplitFirst(u, c);
      var i := IndexOf(u, c);
      assert u[..i] == s[..i];
      IndexOfUnique(s, c, i);
    } else {
      SplitNone(u, c);
      IndexOfUnique(s, c, j);
    }
  }

  /** The text of `s` before its first `c`, or all of `s` when there is none. */
  function Before(s: string, c: char): string
  {
    if c in s then s[..IndexOf(s, c)] else s
  }

  /** The text of `s` after its last `c`, or all of `s` when there is none. */
  function After(s: string, c: char): string
  {
    if c in s then s[LastIndexOf(s, c) + 1..] else s
  }

  /** The first piece of `Split` is the text before the first separator. */
  lemma SplitFirstIsBefore(s: string, c: char)
    ensures Split(s, c)[0] == Before(s, c)
  {
    if c in s {
      SplitFirst(s, c);
    }
  }

  /** The last piece of `Split` is the text after the last separator. */
  lemma SplitLastIsAfter(s: string, c: char)
    ensures Split(s, c)[|Split(s, c)| - 1] == After(s, c)
  {
    if c in s {
      SplitLast(s, c);
    }
  }

  /** `Before(s, c)` is a `c`-free prefix of `s` that ends where `s` does or at a `c`. */
  lemma BeforeShape(s: string, c: char)
    ensures var w := Before(s, c);
      |w| <= |s| && w == s[..|w|] && c !in w && (|w| == |s| || s[|w|] == c)
  {
  }

  /** ... and it is the only such prefix. */
  lemma BeforeUnique(s: string, c: char, w: string)
    requires |w| <= |s| && w == s[..|w|] && c !in w && (|w| == |s| || s[|w|] == c)
    ensures Before(s, c) == w
  {
    if |w| < |s| {
      IndexOfUnique(s, c, |w|);
    } else {
      assert w == s;
    }
  }

  /** `After(s, c)` is a `c`-free suffix of `s` that starts where `s` does or after a `c`. */
  lemma AfterShape(s: string, c: char)
    ensures var t := After(s, c);
      |t| <= |s| && t == s[|s| - |t|..] && c !in t && (|t| == |s| || s[|s| - |t| - 1] == c)
  {
    if c in s {
      var k := LastIndexOf(s, c);
      assert |s| - |s[k + 1..]| == k + 1;
    }
  }

  /** ... and it is the only such suffix. */
  lemma AfterUnique(s: string, c: char, t: string)
    requires |t| <= |s| && t == s[|s| - |t|..] && c !in t && (|t| == |s| || s[|s| - |t| - 1] == c)
    ensures After(s, c) == t
  {
    if |t| < |s| {
      LastIndexOfUnique(s, c, |s| - |t| - 1);
    } else {
      assert t == s;
    }
  }

  /** A character absent from `s` is absent from every slice of it. */
  lemma SliceExcludes(s: string, lo: nat, hi: nat, d: char)
    requires lo <= hi <= |s| && d !in s
    ensures d !in s[lo..hi]
  {
    assert forall j :: lo <= j < hi ==> s[lo..hi][j - lo] == s[j];
  }

  /** `strings.HasSuffix(s, suffix)`. */
  predicate HasSuffix(s: string, suffix: string)
  {
    |suffix| <= |s| && s[|s| - |suffix|..] == suffix
  }
}
