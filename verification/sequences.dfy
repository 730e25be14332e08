/** Order-preserving filtering over sequences, the model of `Array.prototype.filter`,
    together with the subsequence facts the gallery relies on. */
module Sequences {

  /** Keeps, in order, the elements of `s` that satisfy `p`. */
  function Filter<T(!new)>(s: seq<T>, p: T -> bool): (r: seq<T>)
    ensures |r| <= |s|
    ensures forall x :: x in r <==> x in s && p(x)
  {
    if |s| == 0 then []
    else
      var init := s[..|s| - 1];
      assert s == init + [s[|s| - 1]];
      Filter(init, p) + (if p(s[|s| - 1]) then [s[|s| - 1]] else [])
  }

  /** The positions of `s` whose element satisfies `p`, ascending. */
  function Positions<T(!new)>(s: seq<T>, p: T -> bool): (r: seq<int>)
    ensures |r| == |Filter(s, p)|
    ensures forall k :: 0 <= k < |r| ==> 0 <= r[k] < |s|
  {
    if |s| == 0 then []
    else Positions(s[..|s| - 1], p) + (if p(s[|s| - 1]) then [|s| - 1] else [])
  }

  ghost predicate StrictlyIncreasing(idx: seq<int>) {
    forall i, j :: 0 <= i < j < |idx| ==> idx[i] < idx[j]
  }

  /** `idx` picks out `a` from `b`: in-range positions of `b`, ascending, one per element of `a`. */
  ghost predicate Embeds<T>(idx: seq<int>, a: seq<T>, b: seq<T>) {
    && |idx| == |a|
    && StrictlyIncreasing(idx)
    && forall k :: 0 <= k < |a| ==> 0 <= idx[k] < |b| && a[k] == b[idx[k]]
  }

  /** `a` is `b` with some elements dropped and the rest kept in their original order. */
  ghost predicate IsSubsequence<T>(a: seq<T>, b: seq<T>) {
    exists idx :: Embeds(idx, a, b)
  }

  lemma {:induction false} PositionsIncrease<T(!new)>(s: seq<T>, p: T -> bool)
    ensures StrictlyIncreasing(Positions(s, p))
  {
    if |s| > 0 {
      PositionsIncrease(s[..|s| - 1], p);
    }
  }

  lemma {:induction false} PositionsPick<T(!new)>(s: seq<T>, p: T -> bool)
    ensures forall k :: 0 <= k < |Filter(s, p)| ==> Filter(s, p)[k] == s[Positions(s, p)[k]]
  {
    if |s| > 0 {
      var n := |s| - 1;
      var init := s[..n];
      PositionsPick(init, p);
      var kept := Filter(init, p);
      var pos := Positions(init, p);
      forall k | 0 <= k < |Filter(s, p)| ensures Filter(s, p)[k] == s[Positions(s, p)[k]] {
        if k < |kept| {
          assert Filter(s, p)[k] == kept[k] == init[pos[k]];
          assert Positions(s, p)[k] == pos[k];
        }
      }
    }
  }

  lemma {:induction false} PositionsExact<T(!new)>(s: seq<T>, p: T -> bool)
    ensures forall i :: 0 <= i < |s| ==> (i in Positions(s, p) <==> p(s[i]))
  {
    if |s| > 0 {
      var n := |s| - 1;
      var init := s[..n];
      PositionsExact(init, p);
      var pos := Positions(init, p);
      var extra := if p(s[n]) then [n] else [];
      assert Positions(s, p) == pos + extra;
      assert forall k :: 0 <= k < |pos| ==> pos[k] < n;
      forall i | 0 <= i < |s|
        ensures i in Positions(s, p) <==> p(s[i])
      {
        assert i in Positions(s, p) <==> i in pos || i in extra;
        if i < n {
          assert s[i] == init[i];
          assert i !in extra;
        } else {
          assert n !in pos;
        }
      }
    }
  }

  /** Filter keeps exactly the positions whose element passes, in ascending order:
      nothing is reordered, duplicated, or dropped that should have stayed. */
  lemma FilterKeepsPositions<T(!new)>(s: seq<T>, p: T -> bool)
    ensures Embeds(Positions(s, p), Filter(s, p), s)
    ensures forall i :: 0 <= i < |s| ==> (i in Positions(s, p) <==> p(s[i]))
  {
    PositionsIncrease(s, p);
    PositionsPick(s, p);
    PositionsExact(s, p);
  }

  lemma FilterIsSubsequence<T(!new)>(s: seq<T>, p: T -> bool)
    ensures IsSubsequence(Filter(s, p), s)
  {
    FilterKeepsPositions(s, p);
  }

  /** Filtering with a predicate every element passes changes nothing. */
  lemma {:induction false} FilterAllPass<T(!new)>(s: seq<T>, p: T -> bool)
    requires forall x :: x in s ==> p(x)
    ensures Filter(s, p) == s
  {
    if |s| > 0 {
      var init, last := s[..|s| - 1], s[|s| - 1];
      assert s == init + [last];
      forall x | x in init
        ensures p(x)
      {
        assert x in s;
      }
      FilterAllPass(init, p);
      assert p(last) by {
        assert last in s;
      }
    }
  }

  /** Two predicates that agree on the elements of `s` filter it identically. */
  lemma {:induction false} FilterAgree<T(!new)>(s: seq<T>, p: T -> bool, q: T -> bool)
    requires forall x :: x in s ==> p(x) == q(x)
    ensures Filter(s, p) == Filter(s, q)
  {
    if |s| > 0 {
      var init := s[..|s| - 1];
      assert forall x :: x in init ==> x in s;
      FilterAgree(init, p, q);
    }
  }

  /** Filtering by `p` and then by `q` is filtering once by their conjunction `both`. */
  lemma {:induction false} FilterFuse<T(!new)>(s: seq<T>, p: T -> bool, q: T -> bool, both: T -> bool)
    requires forall x :: both(x) == (p(x) && q(x))
    ensures Filter(Filter(s, p), q) == Filter(s, both)
  {
    if |s| > 0 {
      var init := s[..|s| - 1];
      var last := s[|s| - 1];
      FilterFuse(init, p, q, both);
      var tail := if p(last) then [last] else [];
      FilterAppend(Filter(init, p), tail, q);
      if p(last) {
        FilterSingle(last, q);
      }
    }
  }

  lemma FilterSingle<T(!new)>(x: T, q: T -> bool)
    ensures Filter([x], q) == if q(x) then [x] else []
  {
    assert [x][..0] == [];
  }

  /** Filter distributes over concatenation. */
  lemma {:induction false} FilterAppend<T(!new)>(a: seq<T>, b: seq<T>, p: T -> bool)
    ensures Filter(a + b, p) == Filter(a, p) + Filter(b, p)
    decreases |b|
  {
    if |b| == 0 {
      assert a + b == a;
    } else {
      var binit, last := b[..|b| - 1], b[|b| - 1];
      var tail := if p(last) then [last] else [];
      assert (a + b)[..|a + b| - 1] == a + binit;
      assert (a + b)[|a + b| - 1] == last;
      assert Filter(a + b, p) == Filter(a + binit, p) + tail;
      FilterAppend(a, binit, p);
      assert Filter(b, p) == Filter(binit, p) + tail;
    }
  }

  /** A subsequence of a sequence with distinct keys has distinct keys. */
  lemma SubsequenceKeepsDistinct<T, K>(a: seq<T>, b: seq<T>, key: T -> K)
    requires IsSubsequence(a, b)
    requires forall i, j :: 0 <= i < j < |b| ==> key(b[i]) != key(b[j])
    ensures forall i, j :: 0 <= i < j < |a| ==> key(a[i]) != key(a[j])
  {
    var idx :| Embeds(idx, a, b);
    forall i, j | 0 <= i < j < |a|
      ensures key(a[i]) != key(a[j])
    {
      assert idx[i] < idx[j];
    }
  }
}
