/** Generic facts about sequences that the loop proofs use, and a front-to-back reading that stops at the first element that stops it. */
module Seqs {

  /** Setting index `i` extends the prefix before it by the new element. */
  lemma PrefixSet<T>(s: seq<T>, i: nat, x: T)
    requires i < |s|
    ensures s[i := x][..i + 1] == s[..i] + [x]
  {
  }

  /** The prefix up to `i` grows by the element at `i`. */
  lemma PrefixExtend<T>(s: seq<T>, i: nat)
    requires i < |s|
    ensures s[..i + 1] == s[..i] + [s[i]]
  {
  }

  /** A non-empty sequence is its front followed by its last element. */
  lemma SnocSplit<T>(s: seq<T>)
    requires s != []
    ensures s[..|s| - 1] + [s[|s| - 1]] == s
  {
  }

  /** The head and tail of a concatenation whose first part is not empty. */
  lemma ConsAppend<T>(xs: seq<T>, ys: seq<T>)
    requires xs != []
    ensures (xs + ys)[0] == xs[0] && (xs + ys)[1..] == xs[1..] + ys
  {
  }

  /**
    The outputs of a list read from the front until an element stops it:
    each element's output in order, up to and including the first one that
    stops.
   */
  function Until<T, U>(out: T -> seq<U>, stop: T -> bool, xs: seq<T>): seq<U>
    decreases |xs|
  {
    if xs == [] then []
    else out(xs[0]) + (if stop(xs[0]) then [] else Until(out, stop, xs[1..]))
  }

  /** Whether some element of the list satisfies `p`. */
  predicate Any<T>(p: T -> bool, xs: seq<T>)
  {
    exists i :: 0 <= i < |xs| && p(xs[i])
  }

  /** Some element satisfies `p` when the first one does or one of the rest does. */
  lemma AnyCons<T>(p: T -> bool, xs: seq<T>)
    requires xs != []
    ensures Any(p, xs) <==> p(xs[0]) || Any(p, xs[1..])
  {
    if Any(p, xs[1..]) {
      var i :| 0 <= i < |xs| - 1 && p(xs[1..][i]);
      assert p(xs[i + 1]);
    }
    if Any(p, xs) && !p(xs[0]) {
      var i :| 0 <= i < |xs| && p(xs[i]);
      assert xs[1..][i - 1] == xs[i];
    }
  }

  /** Reading two lists one after the other: the second is read only if the first did not stop. */
  lemma {:induction false} UntilAppend<T, U>(out: T -> seq<U>, stop: T -> bool, xs: seq<T>, ys: seq<T>)
    ensures Until(out, stop, xs + ys) == Until(out, stop, xs) + (if Any(stop, xs) then [] else Until(out, stop, ys))
    decreases |xs|
  {
    if xs == [] {
      assert xs + ys == ys;
    } else {
      var x := xs[0];
      ConsAppend(xs, ys);
      AnyCons(stop, xs);
      if stop(x) {
        assert Until(out, stop, xs + ys) == out(x) + [];
        assert Until(out, stop, xs) == out(x) + [];
      } else {
        UntilAppend(out, stop, xs[1..], ys);
        var rest := Until(out, stop, xs[1..]);
        var tail := if Any(stop, xs[1..]) then [] else Until(out, stop, ys);
        assert Until(out, stop, xs + ys) == out(x) + (rest + tail);
        assert out(x) + (rest + tail) == (out(x) + rest) + tail;
      }
    }
  }

  /** Some element of two lists together satisfies `p` when one of either list does. */
  lemma AnyAppend<T>(p: T -> bool, xs: seq<T>, ys: seq<T>)
    ensures Any(p, xs + ys) <==> Any(p, xs) || Any(p, ys)
  {
    if Any(p, xs) {
      var i :| 0 <= i < |xs| && p(xs[i]);
      assert (xs + ys)[i] == xs[i];
    }
    if Any(p, ys) {
      var i :| 0 <= i < |ys| && p(ys[i]);
      assert (xs + ys)[|xs| + i] == ys[i];
    }
    if Any(p, xs + ys) {
      var i :| 0 <= i < |xs + ys| && p((xs + ys)[i]);
      if i < |xs| {
        assert (xs + ys)[i] == xs[i];
      } else {
        assert (xs + ys)[i] == ys[i - |xs|];
      }
    }
  }

  /** Reading a list is reading all but its last element, then the last one's output unless the list stopped before it. */
  lemma UntilSnoc<T, U>(out: T -> seq<U>, stop: T -> bool, xs: seq<T>)
    requires xs != []
    ensures var init := xs[..|xs| - 1];
      Until(out, stop, xs) == Until(out, stop, init) + (if Any(stop, init) then [] else out(xs[|xs| - 1]))
    ensures Any(stop, xs) <==> Any(stop, xs[..|xs| - 1]) || stop(xs[|xs| - 1])
  {
    var init := xs[..|xs| - 1];
    var x := xs[|xs| - 1];
    SnocSplit(xs);
    UntilAppend(out, stop, init, [x]);
    AnyAppend(stop, init, [x]);
    assert [x][1..] == [];
    assert Any(stop, [x]) <==> stop(x) by {
      if stop(x) {
        assert stop([x][0]);
      }
    }
  }
}
