/** The native greedy loops `Twinning::twin` and `Twinning::get_sequence`.
    The kd-tree is replaced by an abstract search over the set of live
    (not yet removed) point indices; everything else is the loops'
    counting, removal and `std::size_t` arithmetic. */
module Native {
  import opened Seqs
  import opened Arith

  /** `knn(live, query, count)`: the `count` nearest live points to the
      point with index `query`, nearest first. Stands in for
      `tree.findNeighbors` with a `KNNResultSet` of capacity `count`. */
  type Search = (set<nat>, nat, nat) -> seq<nat>

  /** What a neighbour search promises: `count` distinct live points. */
  predicate Answer(a: seq<nat>, live: set<nat>, count: nat) {
    |a| == count && Distinct(a) && forall i :: 0 <= i < |a| ==> a[i] in live
  }

  /** A search that keeps its promise whenever the tree holds at least
      `count` live points. Distances, ties and the tree layout are left open. */
  ghost predicate Honest(knn: Search) {
    forall live: set<nat>, query: nat, count: nat :: count <= |live| ==> Answer(knn(live, query, count), live, count)
  }

  /** What `twin_cpp` returns for n points and ratio r: ceil(n / r) distinct
      indices into the dataset it was given. */
  predicate SplitAnswer(a: seq<nat>, n: nat, r: nat)
    requires r >= 1
  {
    |a| == CeilDiv(n, r) && Distinct(a) && InRange(a, n)
  }

  /** `a - b` on `std::size_t`. The precondition is the absence of
      wrap-around: every call site proves that the subtraction cannot underflow. */
  function SizeSub(a: nat, b: nat): nat
    requires b <= a
  {
    a - b
  }

  /** Removing the points of an answer from the live set removes exactly `count` points. */
  lemma RemoveAnswer(a: seq<nat>, live: set<nat>, count: nat)
    requires Answer(a, live, count)
    ensures Elems(a) <= live
    ensures |live - Elems(a)| == |live| - count
  {
    DistinctCard(a);
    assert live == (live - Elems(a)) + Elems(a);
  }

  /** `Twinning::twin`: start at `u1`, repeatedly take the r nearest live
      points, keep the nearest one, remove all r, and move to the live point
      nearest the farthest one taken; once at most r points would be left,
      keep that next start point as well and stop. The `SizeSub` call is the
      termination test `N - indices.size() * r_ <= r_`; its precondition is
      proved at every evaluation, so the test never wraps around. */
  method Twin(n: nat, r: nat, u1: nat, knn: Search) returns (indices: seq<nat>)
    requires 1 <= r < n && u1 < n
    requires Honest(knn)
    ensures SplitAnswer(indices, n, r)
  {
    var live := Below(n);
    BelowCard(n);
    indices := [];
    var position := u1;
    ghost var taken := 0;
    while true
      invariant live <= Below(n)
      invariant taken == |indices| * r
      invariant |live| + taken == n
      invariant |indices| == 0 || taken + r < n
      invariant Distinct(indices) && InRange(indices, n)
      invariant forall i :: 0 <= i < |indices| ==> indices[i] !in live
      decreases |live|
    {
      // at least r live points for the r-nearest query
      assert r <= |live|;
      var nearest := knn(live, position, r);
      RemoveAnswer(nearest, live, r);
      MulSucc(|indices|, r);
      indices := indices + [nearest[0]];
      live := live - Elems(nearest);
      taken := taken + r;
      // at least one live point for the next-start query
      assert 1 <= |live|;
      var next := knn(live, nearest[r - 1], 1);
      position := next[0];
      if SizeSub(n, |indices| * r) <= r {
        MulSucc(|indices|, r);
        indices := indices + [position];
        CeilUnique(n, r, |indices|);
        break;
      }
    }
  }

  /** Chunk sizes `get_sequence` takes from a pool of `rem` points: full
      chunks of r while at least r points remain, then one final chunk of
      whatever is left. */
  function ChunkPlan(rem: nat, r: nat): seq<nat>
    requires r >= 1
    decreases rem
  {
    if rem == 0 then []
    else if rem < r then [rem]
    else [r] + ChunkPlan(rem - r, r)
  }

  function Sum(s: seq<nat>): nat {
    if |s| == 0 then 0 else s[0] + Sum(s[1..])
  }

  /** The chunks cover the pool exactly. */
  lemma {:induction false} ChunkPlanSum(n: nat, r: nat)
    requires r >= 1
    ensures Sum(ChunkPlan(n, r)) == n
    decreases n
  {
    if n >= r {
      ChunkPlanSum(n - r, r);
      assert ([r] + ChunkPlan(n - r, r))[1..] == ChunkPlan(n - r, r);
    }
  }

  /** There are ceil(n / r) chunks. */
  lemma {:induction false} ChunkPlanCount(n: nat, r: nat)
    requires r >= 1
    ensures |ChunkPlan(n, r)| == CeilDiv(n, r)
    decreases n
  {
    if n == 0 {
      CeilUnique(0, r, 0);
    } else if n < r {
      CeilUnique(n, r, 1);
    } else {
      ChunkPlanCount(n - r, r);
      var c := CeilDiv(n - r, r);
      MulSucc(c, r);
      CeilUnique(n, r, c + 1);
    }
  }

  /** All chunks but the last are full; the last holds between 1 and r
      points, and is full exactly when r divides n. */
  lemma {:induction false} ChunkPlanFull(n: nat, r: nat)
    requires r >= 1 && n > 0
    ensures var plan := ChunkPlan(n, r);
      && |plan| >= 1
      && (forall i :: 0 <= i < |plan| - 1 ==> plan[i] == r)
      && 1 <= plan[|plan| - 1] <= r
      && (plan[|plan| - 1] == r <==> n % r == 0)
    decreases n
  {
    if n < r {
      DivModUnique(n, r, 0, n);
    } else if n == r {
      DivModUnique(n, r, 1, 0);
    } else {
      ChunkPlanFull(n - r, r);
      ModShift(n - r, r);
    }
  }

  /** `Twinning::get_sequence` (`multiplet_S3_cpp` runs it with r = k):
      take full chunks of the r nearest live points, removing each, until
      fewer than r points remain; then take all remaining points in one final
      query and stop. The result lists every point exactly once.

      The ghost `chunks` records the chunk sizes taken. The ghost
      `emptySearch` records that the next-start query ran on an empty tree:
      this happens exactly when r divides n, after the last full chunk, and
      the position it yields is never used because the loop exits. */
  method Sequence(n: nat, r: nat, u1: nat, knn: Search)
    returns (sequence: seq<nat>, ghost chunks: seq<nat>, ghost emptySearch: bool)
    requires 1 <= r <= n && u1 < n
    requires Honest(knn)
    ensures IsPermutation(sequence, n)
    ensures chunks == ChunkPlan(n, r)
    ensures emptySearch <==> n % r == 0
  {
    var live := Below(n);
    BelowCard(n);
    sequence := [];
    chunks := [];
    emptySearch := false;
    ghost var full := 0;
    ghost var tail := 0;
    var position := u1;
    assert PlanPrefix(chunks, n, |sequence|, r) by {
      assert [] + ChunkPlan(n, r) == ChunkPlan(n, r);
    }
    while |sequence| != n
      invariant Pool(n, live, sequence)
      invariant PlanPrefix(chunks, n, |sequence|, r)
      invariant |sequence| == full * r
      invariant emptySearch <==> |sequence| == n
      decreases n - |sequence|
    {
      if |sequence| > SizeSub(n, r) {
        // final chunk: between 1 and r - 1 points are left
        var rest := n - |sequence|;
        var last := knn(live, position, rest);
        FinalRound(n, r, live, sequence, chunks, rest, last);
        sequence := sequence + last;
        chunks := chunks + [rest];
        tail := rest;
        break;
      }
      var nearest := knn(live, position, r);
      FullRound(n, r, live, sequence, chunks, full, nearest);
      sequence := sequence + nearest;
      live := live - Elems(nearest);
      chunks := chunks + [r];
      full := full + 1;
      var next := knn(live, nearest[r - 1], 1);
      emptySearch := live == {};
      // on an empty tree the result set stays unfilled and the previous
      // position is read back; the loop then exits without using it
      position := if |next| > 0 then next[0] else position;
    }
    assert n == full * r + tail && tail < r && (emptySearch <==> tail == 0);
    ModMultiple(n, full, r, tail);
    if tail == 0 {
      PlanComplete(chunks, n, r);
    }
    PermutationCovers(sequence, n);
  }

  /** `twin_cpp(data, r, u1, leaf_size)`: builds a fresh `Twinning` object (and
      kd-tree) on every call and returns its `twin()`; nothing carries over
      from one call to the next. */
  method TwinCpp(n: nat, r: nat, u1: nat, knn: Search) returns (indices: seq<nat>)
    requires 1 <= r < n && u1 < n
    requires Honest(knn)
    ensures SplitAnswer(indices, n, r)
  {
    indices := Twin(n, r, u1, knn);
  }

  /** `multiplet_S3_cpp(data, k, u1, leaf_size)`: a fresh `Twinning` object whose
      chunk size r is the number of multiplets k, and its `get_sequence()`. */
  method MultipletS3Cpp(n: nat, k: nat, u1: nat, knn: Search) returns (sequence: seq<nat>)
    requires 1 <= k <= n && u1 < n
    requires Honest(knn)
    ensures IsPermutation(sequence, n)
  {
    ghost var chunks, emptySearch;
    sequence, chunks, emptySearch := Sequence(n, k, u1, knn);
  }

  /** One full round of `get_sequence` keeps all of its bookkeeping. */
  lemma FullRound(n: nat, r: nat, live: set<nat>, sequence: seq<nat>, chunks: seq<nat>,
                  full: nat, nearest: seq<nat>)
    requires 1 <= r && |sequence| + r <= n
    requires Pool(n, live, sequence) && PlanPrefix(chunks, n, |sequence|, r)
    requires |sequence| == full * r
    requires Answer(nearest, live, r)
    ensures Pool(n, live - Elems(nearest), sequence + nearest)
    ensures PlanPrefix(chunks + [r], n, |sequence + nearest|, r)
    ensures |sequence + nearest| == (full + 1) * r
    ensures live - Elems(nearest) == {} <==> |sequence + nearest| == n
  {
    TakeChunk(n, live, sequence, nearest, r);
    PlanAfterFull(chunks, n, |sequence|, r);
    MulSucc(full, r);
  }

  /** The final round of `get_sequence` lists every remaining point and
      completes the chunk plan. */
  lemma FinalRound(n: nat, r: nat, live: set<nat>, sequence: seq<nat>, chunks: seq<nat>,
                   rest: nat, last: seq<nat>)
    requires 1 <= r && |sequence| < n < |sequence| + r && rest == n - |sequence|
    requires Pool(n, live, sequence) && PlanPrefix(chunks, n, |sequence|, r)
    requires Answer(last, live, rest)
    ensures Pool(n, live - Elems(last), sequence + last)
    ensures |sequence + last| == n
    ensures chunks + [rest] == ChunkPlan(n, r)
  {
    TakeChunk(n, live, sequence, last, rest);
    PlanAfterFinal(chunks, n, |sequence|, r, rest);
  }

  /** The chunks recorded after listing `len` of n points, followed by the
      plan for the rest, make up the whole plan. */
  ghost predicate PlanPrefix(done: seq<nat>, n: nat, len: nat, r: nat) {
    1 <= r && len <= n && done + ChunkPlan(n - len, r) == ChunkPlan(n, r)
  }

  /** After a full chunk the recorded chunks are still a prefix of the plan. */
  lemma PlanAfterFull(done: seq<nat>, n: nat, len: nat, r: nat)
    requires 1 <= r && len + r <= n
    requires PlanPrefix(done, n, len, r)
    ensures PlanPrefix(done + [r], n, len + r, r)
  {
    assert ChunkPlan(n - len, r) == [r] + ChunkPlan(n - (len + r), r);
  }

  /** After the final chunk the recorded chunks are the whole plan. */
  lemma PlanAfterFinal(done: seq<nat>, n: nat, len: nat, r: nat, rest: nat)
    requires 1 <= r && len < n < len + r && rest == n - len
    requires PlanPrefix(done, n, len, r)
    ensures done + [rest] == ChunkPlan(n, r)
  {
    assert ChunkPlan(rest, r) == [rest];
  }

  lemma PlanComplete(done: seq<nat>, n: nat, r: nat)
    requires 1 <= r
    requires PlanPrefix(done, n, n, r)
    ensures done == ChunkPlan(n, r)
  {
    assert ChunkPlan(0, r) == [] && done + [] == done;
  }

  /** The bookkeeping of `get_sequence`: the sequence so far lists distinct
      points, and the tree holds exactly the points not yet listed. */
  ghost predicate Pool(n: nat, live: set<nat>, sequence: seq<nat>) {
    && |sequence| <= n
    && live == Below(n) - Elems(sequence)
    && |live| == n - |sequence|
    && Distinct(sequence)
    && InRange(sequence, n)
  }

  /** Listing and removing the points of an answer keeps the bookkeeping. */
  lemma TakeChunk(n: nat, live: set<nat>, sequence: seq<nat>, a: seq<nat>, count: nat)
    requires Pool(n, live, sequence)
    requires Answer(a, live, count)
    ensures Pool(n, live - Elems(a), sequence + a)
    ensures |sequence + a| == |sequence| + count
  {
    RemoveAnswer(a, live, count);
    AppendFresh(sequence, a, live, n);
  }

  /** Appending an answer drawn from the live points keeps the sequence
      distinct and in range, and removes those points from the live set. */
  lemma AppendFresh(s: seq<nat>, a: seq<nat>, live: set<nat>, n: nat)
    requires live == Below(n) - Elems(s)
    requires Distinct(s) && InRange(s, n) && Distinct(a)
    requires forall i :: 0 <= i < |a| ==> a[i] in live
    ensures Distinct(s + a) && InRange(s + a, n)
    ensures live - Elems(a) == Below(n) - Elems(s + a)
  {
    assert Elems(s + a) == Elems(s) + Elems(a);
  }
}
