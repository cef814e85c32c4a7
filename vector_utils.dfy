/** The vector helpers of src/vector_utils.c over an igraph vector, a resizable sequence of
    numbers changed in place. The library keeps vertex ids in these vectors, so the elements
    are whole non-negative numbers and the `(unsigned long)` casts of `vector_diff` leave
    them as they are. */
module VectorUtils {
  import opened Common

  ghost predicate Increasing(s: seq<nat>) {
    forall i, j | 0 <= i < j < |s| :: s[i] < s[j]
  }

  // ---------------------------------------------------------------------------------------
  // Runs of equal values

  /** The first element of each run of equal neighbours. */
  function Dedup(s: seq<nat>): (r: seq<nat>)
    ensures |r| <= |s|
  {
    if |s| <= 1 then s
    else if s[|s| - 1] == s[|s| - 2] then Dedup(s[..|s| - 1])
    else Dedup(s[..|s| - 1]) + [s[|s| - 1]]
  }

  /** On an ascending sequence, deduplication keeps the first and last value and every value,
      each exactly once, in increasing order. */
  lemma {:induction false} DedupFacts(s: seq<nat>)
    requires Sorted(s) && s != []
    ensures Dedup(s) != [] && Increasing(Dedup(s))
    ensures Dedup(s)[0] == s[0] && Dedup(s)[|Dedup(s)| - 1] == s[|s| - 1]
    ensures forall x :: x in Dedup(s) <==> x in s
  {
    if |s| > 1 {
      var init, last := s[..|s| - 1], s[|s| - 1];
      assert Sorted(init);
      DedupFacts(init);
      assert s == init + [last];
      var d := Dedup(init);
      if last == s[|s| - 2] {
        assert Dedup(s) == d;
      } else {
        assert Dedup(s) == d + [last];
        IncreasingSnoc(d, last);
      }
    }
  }

  lemma IncreasingSnoc(d: seq<nat>, x: nat)
    requires Increasing(d) && d != [] && d[|d| - 1] < x
    ensures Increasing(d + [x])
  {
  }

  /** Without repeated neighbours, deduplication changes nothing. */
  lemma {:induction false} DedupIncreasing(s: seq<nat>)
    requires Increasing(s)
    ensures Dedup(s) == s
  {
    if |s| > 1 {
      var init := s[..|s| - 1];
      assert Increasing(init) by {
        forall i, j | 0 <= i < j < |init| ensures init[i] < init[j] {
          assert init[i] == s[i] && init[j] == s[j];
        }
      }
      assert s[|s| - 2] < s[|s| - 1];
      DedupIncreasing(init);
      assert s == init + [s[|s| - 1]];
    }
  }

  // ---------------------------------------------------------------------------------------
  // Removing values

  lemma RemoveStep(s: seq<nat>, k: nat, f: nat)
    requires k < |s|
    ensures Without(s[..k + 1], [f]) == Without(s[..k], [f]) + (if s[k] == f then [] else [s[k]])
  {
    assert s[..k + 1] == s[..k] + [s[k]];
    WithoutAppend(s[..k], [s[k]], [f]);
  }

  /** Dropping the first element after a prefix. */
  lemma SpliceOut(done: seq<nat>, rest: seq<nat>)
    requires rest != []
    ensures (done + rest)[|done|] == rest[0]
    ensures (done + rest)[..|done|] + (done + rest)[|done| + 1..] == done + rest[1..]
  {
    assert (done + rest)[..|done|] == done;
    assert (done + rest)[|done| + 1..] == rest[1..];
  }

  /** One step of the removal loop: the element at the cursor is `s[k]`, and dropping it or
      stepping past it keeps the unvisited part equal to `s[k + 1..]`. */
  lemma RemoveStepFacts(s: seq<nat>, k: nat, done: seq<nat>, v: seq<nat>)
    requires k < |s| && v == done + s[k..]
    ensures v[|done|] == s[k]
    ensures v[..|done|] + v[|done| + 1..] == done + s[k + 1..]
    ensures v == (done + [s[k]]) + s[k + 1..]
  {
    SpliceOut(done, s[k..]);
    assert s[k..][1..] == s[k + 1..];
    assert s[k..] == [s[k]] + s[k + 1..];
  }

  /** The inner loop of `vector_diff`: remove every element equal to f. A removal leaves the
      index where it is (the source steps back and forward again), so the element that moved
      into its place is examined next. */
  method RemoveAll(s: seq<nat>, f: nat) returns (v: seq<nat>)
    ensures v == Without(s, [f])
  {
    v := s;
    var ts := |v|;
    var j := 0;
    ghost var k := 0;
    ghost var done: seq<nat> := [];
    while j < ts
      invariant k <= |s| && done == Without(s[..k], [f])
      invariant v == done + s[k..] && j == |done| && ts == |v|
      decreases ts - j
    {
      RemoveStep(s, k, f);
      RemoveStepFacts(s, k, done, v);
      var x := v[j];
      if x == f {
        ts := ts - 1;
        v := v[..j] + v[j + 1..];
      } else {
        done := done + [x];
        j := j + 1;
      }
      k := k + 1;
    }
    assert s[..k] == s;
  }

  /** An igraph_vector_t. */
  class Vector {
    var elems: seq<nat>

    constructor (s: seq<nat>)
      ensures elems == s
    {
      elems := s;
    }

    /** `igraph_vector_resize(v, k)`: cut to k elements, or grow with cells igraph leaves
        uninitialised (here 0, which no contract relies on). */
    method Resize(k: nat)
      modifies this
      ensures |elems| == k && elems[..if k < |old(elems)| then k else |old(elems)|]
                             == old(elems)[..if k < |old(elems)| then k else |old(elems)|]
    {
      if k <= |elems| {
        elems := elems[..k];
      } else {
        elems := elems + seq(k - |elems|, _ => 0);
      }
    }

    /** `vector_uniq_sorted(v)`: keep the first of each run of equal neighbours by compacting
        in place, then resize to the kept prefix. An empty vector comes out with one
        uninitialised cell. */
    method UniqSorted()
      modifies this
      ensures old(elems) == [] ==> |elems| == 1
      ensures old(elems) != [] ==> elems == Dedup(old(elems))
    {
      ghost var s := elems;
      var pos := 0;
      var i := 1;
      while i < |elems|
        invariant |elems| == |s| && (s != [] ==> pos < i <= |s|) && (s == [] ==> pos == 0)
        invariant s != [] ==> elems[..pos + 1] == Dedup(s[..i]) && elems[pos] == s[i - 1]
        invariant s != [] ==> elems[i..] == s[i..]
      {
        assert s[..i + 1][..i] == s[..i];
        if elems[i] != elems[pos] {
          pos := pos + 1;
          elems := elems[pos := elems[i]];
          assert elems[..pos + 1] == elems[..pos] + [s[i]];
        }
        i := i + 1;
      }
      if s != [] {
        assert s[..i] == s;
      }
      Resize(pos + 1);
    }

    /** `vector_uniq(v)`: sort, then keep each value once. */
    method Uniq()
      modifies this
      ensures old(elems) == [] ==> |elems| == 1
      ensures old(elems) != [] ==> elems == Dedup(SortSeq(old(elems)))
    {
      SortSeqFacts(elems);
      elems := SortSeq(elems);
      UniqSorted();
    }

    /** `vector_diff(to, from)` on `to`: for each value of `from`, remove every equal element. */
    method Diff(from: Vector)
      requires from != this
      modifies this
      ensures elems == Without(old(elems), from.elems) && from.elems == old(from.elems)
    {
      ghost var s := elems;
      var xs := from.elems;
      WithoutNone(s);
      for i := 0 to |xs|
        invariant elems == Without(s, xs[..i])
      {
        elems := RemoveAll(elems, xs[i]);
        WithoutTwice(s, xs[..i], [xs[i]]);
        assert xs[..i + 1] == xs[..i] + [xs[i]];
      }
      assert xs[..|xs|] == xs;
    }

    /** `vector_union(to, from)` on `to`: append, then sort and keep each value once. */
    method Union(from: Vector)
      requires from != this
      modifies this
      ensures old(elems) + from.elems == [] ==> |elems| == 1
      ensures old(elems) + from.elems != [] ==> elems == Dedup(SortSeq(old(elems) + from.elems))
    {
      elems := elems + from.elems;
      Uniq();
    }
  }

  /** The result of `vector_uniq` on a non-empty vector is strictly increasing and holds the
      same values. */
  lemma UniqFacts(s: seq<nat>)
    requires s != []
    ensures Increasing(Dedup(SortSeq(s))) && forall x :: x in Dedup(SortSeq(s)) <==> x in s
  {
    SortSeqFacts(s);
    assert |SortSeq(s)| == |s| by {
      assert |multiset(SortSeq(s))| == |multiset(s)|;
    }
    DedupFacts(SortSeq(s));
    forall x
      ensures x in SortSeq(s) <==> x in s
    {
      assert x in SortSeq(s) <==> x in multiset(SortSeq(s));
    }
  }

  /** Applying `vector_uniq` twice equals applying it once. */
  lemma UniqIdempotent(s: seq<nat>)
    requires s != []
    ensures Dedup(SortSeq(Dedup(SortSeq(s)))) == Dedup(SortSeq(s))
  {
    UniqFacts(s);
    var t := Dedup(SortSeq(s));
    assert Sorted(t);
    SortSeqSorted(t);
    DedupIncreasing(t);
  }

  /** The result of `vector_union` is strictly increasing with the values of both vectors. */
  lemma UnionFacts(a: seq<nat>, b: seq<nat>)
    requires a + b != []
    ensures Increasing(Dedup(SortSeq(a + b)))
    ensures forall x :: x in Dedup(SortSeq(a + b)) <==> x in a || x in b
  {
    UniqFacts(a + b);
  }
}
