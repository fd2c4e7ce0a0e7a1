/** Generic sequence combinators shared by several stages of the pipeline. */
module Sequences {
  import opened Wrappers

  /** Keeps, in order, the values `f` yields for the elements of `s`
      (Rust's `filter_map` followed by `collect`). */
  function FilterMap<A, B>(s: seq<A>, f: A -> Option<B>): (r: seq<B>)
    ensures |r| <= |s|
  {
    if s == [] then []
    else
      var rest := FilterMap(s[1..], f);
      match f(s[0])
      case Some(b) => [b] + rest
      case None => rest
  }

  /** Left fold (`for x in xs { acc = f(acc, x) }`). */
  function FoldLeft<S, X>(f: (S, X) -> S, acc: S, xs: seq<X>): S
    decreases |xs|
  {
    if xs == [] then acc else FoldLeft(f, f(acc, xs[0]), xs[1..])
  }

  /** Strictly increasing sequence of indices, each below `bound`. */
  ghost predicate IncreasingIndices(idx: seq<nat>, bound: nat) {
    (forall j :: 0 <= j < |idx| ==> idx[j] < bound) &&
    (forall j, k :: 0 <= j < k < |idx| ==> idx[j] < idx[k])
  }

  /** Filter-mapping distributes over concatenation: what one part of the input
      contributes does not depend on the other part. */
  lemma {:induction false} FilterMapConcat<A, B>(a: seq<A>, b: seq<A>, f: A -> Option<B>)
    ensures FilterMap(a + b, f) == FilterMap(a, f) + FilterMap(b, f)
  {
    if a == [] {
      assert a + b == b;
    } else {
      assert (a + b)[1..] == a[1..] + b;
      FilterMapConcat(a[1..], b, f);
    }
  }

  /** One more input element adds what `f` yields for it, at the end. */
  lemma FilterMapStep<A, B>(s: seq<A>, f: A -> Option<B>, i: nat)
    requires i < |s|
    ensures f(s[i]).None? ==> FilterMap(s[..i + 1], f) == FilterMap(s[..i], f)
    ensures f(s[i]).Some? ==> FilterMap(s[..i + 1], f) == FilterMap(s[..i], f) + [f(s[i]).value]
  {
    assert s[..i + 1] == s[..i] + [s[i]];
    FilterMapConcat(s[..i], [s[i]], f);
    assert [s[i]][1..] == [];
  }

  /** The output for a prefix that ends before a yielding element is a proper
      prefix of the whole output. */
  lemma FilterMapPrefix<A, B>(s: seq<A>, f: A -> Option<B>, i: nat)
    requires i < |s| && f(s[i]).Some?
    ensures |FilterMap(s, f)| > |FilterMap(s[..i], f)|
    ensures FilterMap(s, f)[..|FilterMap(s[..i], f)|] == FilterMap(s[..i], f)
  {
    FilterMapStep(s, f, i);
    assert s == s[..i + 1] + s[i + 1..];
    FilterMapConcat(s[..i + 1], s[i + 1..], f);
    var front := FilterMap(s[..i], f);
    assert FilterMap(s, f) == front + ([f(s[i]).value] + FilterMap(s[i + 1..], f));
  }

  /** The output of `FilterMap` is the subsequence of the input picked out by the
      indices where `f` succeeds, in input order; every such index is picked
      exactly once. */
  lemma {:induction false} FilterMapSubsequence<A, B>(s: seq<A>, f: A -> Option<B>)
    returns (idx: seq<nat>)
    ensures |idx| == |FilterMap(s, f)|
    ensures IncreasingIndices(idx, |s|)
    ensures forall j :: 0 <= j < |idx| ==> f(s[idx[j]]) == Some(FilterMap(s, f)[j])
    ensures forall i :: 0 <= i < |s| ==> (f(s[i]).Some? <==> i in idx)
  {
    if s == [] {
      return [];
    }
    var tail := FilterMapSubsequence(s[1..], f);
    ShiftedMembers(tail, |s| - 1);
    ShiftedPicks(s, f, tail);
    idx := ConsPicks(s, f, tail);
  }

  /** The indices for a whole non-empty sequence from those of its tail: the
      first element is picked exactly when `f` yields a value for it. */
  lemma ConsPicks<A, B>(s: seq<A>, f: A -> Option<B>, tail: seq<nat>) returns (idx: seq<nat>)
    requires s != []
    requires |tail| == |FilterMap(s[1..], f)|
    requires IncreasingIndices(Shift(tail), |s|) && 0 !in Shift(tail)
    requires forall j :: 0 <= j < |tail| ==> f(s[Shift(tail)[j]]) == Some(FilterMap(s[1..], f)[j])
    requires forall i :: 1 <= i < |s| ==> (f(s[i]).Some? <==> i in Shift(tail))
    ensures |idx| == |FilterMap(s, f)|
    ensures IncreasingIndices(idx, |s|)
    ensures forall j :: 0 <= j < |idx| ==> f(s[idx[j]]) == Some(FilterMap(s, f)[j])
    ensures forall i :: 0 <= i < |s| ==> (f(s[i]).Some? <==> i in idx)
  {
    var shifted := Shift(tail);
    var rest := FilterMap(s[1..], f);
    if f(s[0]).Some? {
      idx := [0] + shifted;
      PrependZero(shifted, |s|);
      assert FilterMap(s, f) == [f(s[0]).value] + rest;
      forall j | 1 <= j < |idx|
        ensures f(s[idx[j]]) == Some(FilterMap(s, f)[j])
      {
        assert idx[j] == shifted[j - 1];
      }
    } else {
      idx := shifted;
      assert FilterMap(s, f) == rest;
    }
  }

  /** The indices picked in the tail, shifted by one, pick the same elements of
      the whole sequence. */
  lemma ShiftedPicks<A, B>(s: seq<A>, f: A -> Option<B>, tail: seq<nat>)
    requires s != []
    requires |tail| == |FilterMap(s[1..], f)|
    requires forall j :: 0 <= j < |tail| ==> tail[j] < |s| - 1 && f(s[1..][tail[j]]) == Some(FilterMap(s[1..], f)[j])
    requires forall i :: 0 <= i < |s| - 1 ==> (f(s[1..][i]).Some? <==> i in tail)
    requires forall i :: 1 <= i ==> (i in Shift(tail) <==> i - 1 in tail)
    ensures forall j :: 0 <= j < |tail| ==> f(s[Shift(tail)[j]]) == Some(FilterMap(s[1..], f)[j])
    ensures forall i :: 1 <= i < |s| ==> (f(s[i]).Some? <==> i in Shift(tail))
  {
    forall j | 0 <= j < |tail| ensures f(s[Shift(tail)[j]]) == Some(FilterMap(s[1..], f)[j]) {
      assert s[Shift(tail)[j]] == s[1..][tail[j]];
    }
    forall i | 1 <= i < |s| ensures f(s[i]).Some? <==> i in Shift(tail) {
      assert s[i] == s[1..][i - 1];
    }
  }

  /** Adds one to every index. */
  function Shift(idx: seq<nat>): (r: seq<nat>)
    ensures |r| == |idx|
    ensures forall j :: 0 <= j < |idx| ==> r[j] == idx[j] + 1
  {
    seq(|idx|, j requires 0 <= j < |idx| => idx[j] + 1)
  }

  lemma PrependZero(idx: seq<nat>, bound: nat)
    requires IncreasingIndices(idx, bound) && 0 !in idx && bound > 0
    ensures IncreasingIndices([0] + idx, bound)
  {
    var r := [0] + idx;
    forall j, k | 0 <= j < k < |r| ensures r[j] < r[k] {
      if j > 0 {
        assert r[j] == idx[j - 1] && r[k] == idx[k - 1];
      } else {
        assert r[k] == idx[k - 1] && r[k] in idx;
      }
    }
  }

  lemma ShiftedMembers(idx: seq<nat>, bound: nat)
    requires IncreasingIndices(idx, bound)
    ensures IncreasingIndices(Shift(idx), bound + 1)
    ensures 0 !in Shift(idx)
    ensures forall i :: 1 <= i ==> (i in Shift(idx) <==> i - 1 in idx)
  {
    var r := Shift(idx);
    forall i | 1 <= i ensures i in r <==> i - 1 in idx {
      if i - 1 in idx {
        var j :| 0 <= j < |idx| && idx[j] == i - 1;
        assert r[j] == i;
      }
    }
  }

  /** Folding over `xs + [x]` is folding over `xs` and then applying one more step:
      what lets a loop that applies `f` element by element keep the fold as its
      invariant. */
  lemma {:induction false} FoldLeftSnoc<S, X>(f: (S, X) -> S, acc: S, xs: seq<X>, x: X)
    ensures FoldLeft(f, acc, xs + [x]) == f(FoldLeft(f, acc, xs), x)
    decreases |xs|
  {
    if xs == [] {
      assert xs + [x] == [x];
      assert [x][1..] == [];
    } else {
      assert (xs + [x])[1..] == xs[1..] + [x];
      FoldLeftSnoc(f, f(acc, xs[0]), xs[1..], x);
    }
  }

  /** No two positions of `s` hold the same value. */
  ghost predicate Distinct(s: seq<nat>) {
    forall j, k :: 0 <= j < k < |s| ==> s[j] != s[k]
  }

  /** A sequence of `n` distinct values, each below `n`, takes every value below
      `n`: it is an ordering of `0 .. n - 1`. */
  lemma DistinctCovers(s: seq<nat>, n: nat)
    requires |s| == n && Distinct(s)
    requires forall k :: 0 <= k < |s| ==> s[k] < n
    ensures forall v :: 0 <= v < n ==> v in s
  {
    var values := Values(s);
    var range := Below(n);
    DistinctValues(s);
    assert values <= range;
    forall v | 0 <= v < n ensures v in s {
      if v !in s {
        var rest := range - {v};
        assert values <= rest;
        assert range == rest + {v} && v !in rest;
        SubsetSize(values, rest);
        assert false;
      }
    }
  }

  /** The values a sequence takes. */
  function Values(s: seq<nat>): (r: set<nat>)
    ensures forall x :: x in r <==> x in s
  {
    set x | x in s
  }

  lemma {:induction false} DistinctValues(s: seq<nat>)
    requires Distinct(s)
    ensures |Values(s)| == |s|
    decreases |s|
  {
    if s == [] {
      assert Values(s) == {};
    } else {
      var rest := s[1..];
      DistinctValues(rest);
      var later := Values(rest);
      assert s[0] !in later by {
        forall k | 0 <= k < |rest| ensures rest[k] != s[0] {
          assert rest[k] == s[k + 1];
        }
      }
      assert Values(s) == later + {s[0]};
    }
  }

  lemma SubsetSize<T>(a: set<T>, b: set<T>)
    requires a <= b
    ensures |a| <= |b|
  {
    assert b == a + (b - a);
  }

  /** The values `0 .. n - 1`. */
  function Below(n: nat): (r: set<nat>)
    ensures |r| == n
    ensures forall v: nat :: v in r <==> v < n
    decreases n
  {
    if n == 0 then {} else Below(n - 1) + {n - 1}
  }
}
