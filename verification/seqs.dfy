/** Index bookkeeping shared by the native loops and the orchestration:
    distinct index lists, the range [0, n), permutations of it, and the
    boolean-mask selection (`a[mask]`) and fancy indexing (`a[idx]`) the
    Python layer performs on its working copies. */
module Seqs {

  predicate Distinct<T(==)>(s: seq<T>) {
    forall i, j :: 0 <= i < j < |s| ==> s[i] != s[j]
  }

  predicate StrictlyIncreasing(s: seq<nat>) {
    forall i, j :: 0 <= i < j < |s| ==> s[i] < s[j]
  }

  /** Every entry is a valid index into something of length n. */
  predicate InRange(s: seq<nat>, n: nat) {
    forall i :: 0 <= i < |s| ==> s[i] < n
  }

  /** s lists every index of [0, n) exactly once. */
  predicate IsPermutation(s: seq<nat>, n: nat) {
    |s| == n && Distinct(s) && InRange(s, n)
  }

  function Elems<T>(s: seq<T>): set<T> {
    set x | x in s
  }

  /** An increasing list has no repeats. */
  lemma StrictlyIncreasingDistinct(s: seq<nat>)
    requires StrictlyIncreasing(s)
    ensures Distinct(s)
  {
  }

  /** `np.arange(n)`. */
  function Range(n: nat): (s: seq<nat>)
    ensures |s| == n
    ensures forall i :: 0 <= i < n ==> s[i] == i
  {
    seq(n, i => i)
  }

  /** The index range [0, n) as a set. */
  function Below(n: nat): (b: set<nat>)
    ensures forall i: nat :: i in b <==> i < n
  {
    RangeMembers(n);
    Elems(Range(n))
  }

  lemma RangeMembers(n: nat)
    ensures forall i: nat :: i in Elems(Range(n)) <==> i < n
  {
    forall i: nat | i < n ensures i in Elems(Range(n)) {
      assert Range(n)[i] == i;
    }
  }

  lemma RangeIsIncreasingPermutation(n: nat)
    ensures IsPermutation(Range(n), n)
    ensures StrictlyIncreasing(Range(n))
    ensures Elems(Range(n)) == Below(n)
  {
    forall i | 0 <= i < n ensures i in Elems(Range(n)) {
      assert Range(n)[i] == i;
    }
  }

  lemma BelowCard(n: nat)
    ensures |Below(n)| == n
  {
    DistinctCard(Range(n));
  }

  lemma {:induction false} DistinctCard<T>(s: seq<T>)
    requires Distinct(s)
    ensures |Elems(s)| == |s|
  {
    if |s| > 0 {
      var t := s[..|s| - 1];
      DistinctCard(t);
      assert Elems(s) == Elems(t) + {s[|s| - 1]};
      assert s[|s| - 1] !in Elems(t);
    }
  }

  /** A distinct list of indices below n holds at most n of them, and holds
      every index below n once it has n entries. */
  lemma PermutationCovers(s: seq<nat>, n: nat)
    requires Distinct(s) && InRange(s, n)
    ensures |s| <= n
    ensures |s| == n ==> Elems(s) == Below(n)
  {
    DistinctCard(s);
    BelowCard(n);
    forall x | x in Elems(s) ensures x in Below(n) {
      var i :| 0 <= i < |s| && s[i] == x;
    }
    assert |Elems(s)| <= |Below(n)| by {
      assert Below(n) == Elems(s) + (Below(n) - Elems(s));
    }
    if |s| == n {
      SubsetSameCard(Elems(s), Below(n));
    }
  }

  lemma SubsetSameCard<T>(a: set<T>, b: set<T>)
    requires a <= b && |a| == |b|
    ensures a == b
  {
    assert b == a + (b - a);
    assert a * (b - a) == {};
    assert |b| == |a| + |b - a|;
  }

  /** `a[idx]` (fancy indexing): the entries of a at the positions idx, in idx's order. */
  function Gather<T>(a: seq<T>, idx: seq<nat>): (g: seq<T>)
    requires InRange(idx, |a|)
    ensures |g| == |idx|
    ensures forall j :: 0 <= j < |idx| ==> g[j] == a[idx[j]]
  {
    seq(|idx|, j requires 0 <= j < |idx| => a[idx[j]])
  }

  /** Gathering takes only entries of a. */
  lemma GatherWithin<T>(a: seq<T>, idx: seq<nat>)
    requires InRange(idx, |a|)
    ensures Elems(Gather(a, idx)) <= Elems(a)
  {
    var g := Gather(a, idx);
    forall x | x in Elems(g) ensures x in Elems(a) {
      var t :| 0 <= t < |g| && g[t] == x;
      assert a[idx[t]] == x;
    }
  }

  /** Gathering distinct positions of a distinct list gives a distinct list. */
  lemma GatherDistinct<T>(a: seq<T>, idx: seq<nat>)
    requires InRange(idx, |a|)
    requires Distinct(a) && Distinct(idx)
    ensures Distinct(Gather(a, idx))
  {
  }

  /** `negate = np.ones(n, bool); negate[hit] = 0`: true exactly at the
      positions below n that hit does not list. */
  function Negate(n: nat, hit: seq<nat>): (mask: seq<bool>)
    ensures |mask| == n
    ensures forall j :: 0 <= j < n ==> (mask[j] <==> j !in hit)
  {
    seq(n, j => j !in hit)
  }

  /** `np.invert(mask)`. */
  function Invert(mask: seq<bool>): (inv: seq<bool>)
    ensures |inv| == |mask|
    ensures forall j :: 0 <= j < |mask| ==> inv[j] == !mask[j]
  {
    seq(|mask|, j requires 0 <= j < |mask| => !mask[j])
  }

  /** The positions a mask keeps. */
  function Positions(mask: seq<bool>): set<nat> {
    set j | 0 <= j < |mask| && mask[j]
  }

  /** `a[mask]`: the entries of a where mask is true, in their original order. */
  function Select<T>(a: seq<T>, mask: seq<bool>): seq<T>
    requires |mask| == |a|
  {
    if |a| == 0 then []
    else
      Select(a[..|a| - 1], mask[..|a| - 1]) + (if mask[|a| - 1] then [a[|a| - 1]] else [])
  }

  /** The length of `a[mask]` is the number of positions the mask keeps. */
  lemma {:induction false} SelectLength<T>(a: seq<T>, mask: seq<bool>)
    requires |mask| == |a|
    ensures |Select(a, mask)| == |Positions(mask)|
  {
    if |a| > 0 {
      var n := |a| - 1;
      SelectLength(a[..n], mask[..n]);
      assert forall j :: 0 <= j < n ==> mask[..n][j] == mask[j];
      if mask[n] {
        assert Positions(mask) == Positions(mask[..n]) + {n};
      } else {
        assert Positions(mask) == Positions(mask[..n]);
      }
    }
  }

  /** `a[mask]` holds an entry of a exactly when the mask keeps one of its positions. */
  lemma {:induction false} SelectMembers<T>(a: seq<T>, mask: seq<bool>)
    requires |mask| == |a|
    ensures forall x :: x in Select(a, mask) <==> exists j :: 0 <= j < |a| && mask[j] && a[j] == x
  {
    if |a| > 0 {
      var n := |a| - 1;
      SelectMembers(a[..n], mask[..n]);
      forall x ensures x in Select(a, mask) <==> exists j :: 0 <= j < |a| && mask[j] && a[j] == x {
        if x in Select(a, mask) && !(x in Select(a[..n], mask[..n])) {
          assert mask[n] && a[n] == x;
        }
        if exists j :: 0 <= j < |a| && mask[j] && a[j] == x {
          var j :| 0 <= j < |a| && mask[j] && a[j] == x;
          if j < n {
            assert a[..n][j] == x && mask[..n][j];
          }
        }
      }
    }
  }

  /** Selection keeps a strictly increasing list strictly increasing. */
  lemma {:induction false} SelectIncreasing(a: seq<nat>, mask: seq<bool>)
    requires |mask| == |a|
    requires StrictlyIncreasing(a)
    ensures StrictlyIncreasing(Select(a, mask))
  {
    if |a| > 0 {
      var n := |a| - 1;
      SelectIncreasing(a[..n], mask[..n]);
      SelectMembers(a[..n], mask[..n]);
      var front := Select(a[..n], mask[..n]);
      forall x | x in front ensures x < a[n] {
        var j :| 0 <= j < n && mask[..n][j] && a[..n][j] == x;
      }
      var sel := Select(a, mask);
      assert sel == front + (if mask[n] then [a[n]] else []);
      forall i, j | 0 <= i < j < |sel| ensures sel[i] < sel[j] {
        if j >= |front| {
          assert sel[i] == front[i] && front[i] in front;
        }
      }
    }
  }

  lemma SelectInRange(a: seq<nat>, mask: seq<bool>, n: nat)
    requires |mask| == |a|
    requires InRange(a, n)
    ensures InRange(Select(a, mask), n)
  {
    SelectMembers(a, mask);
    var sel := Select(a, mask);
    forall i | 0 <= i < |sel| ensures sel[i] < n {
      assert sel[i] in sel;
    }
  }

  /** Masking rows and masking their index list commute: `a[idx][mask] == a[idx[mask]]`.
      This is why the working dataset and `row_index` stay aligned. */
  lemma {:induction false} SelectGather<T>(a: seq<T>, idx: seq<nat>, mask: seq<bool>)
    requires InRange(idx, |a|)
    requires |mask| == |idx|
    ensures InRange(Select(idx, mask), |a|)
    ensures Select(Gather(a, idx), mask) == Gather(a, Select(idx, mask))
  {
    SelectInRange(idx, mask, |a|);
    if |idx| > 0 {
      var n := |idx| - 1;
      SelectGather(a, idx[..n], mask[..n]);
      assert Gather(a, idx)[..n] == Gather(a, idx[..n]);
    }
  }

  /** Which positions the two sides of a split keep: the negated side keeps the
      positions the oracle did not return, the inverted side exactly those it did. */
  lemma NegatePositions(n: nat, hit: seq<nat>)
    requires InRange(hit, n)
    ensures Positions(Negate(n, hit)) == Below(n) - Elems(hit)
    ensures Positions(Invert(Negate(n, hit))) == Elems(hit)
  {
  }

  /** Sizes of the two sides of a split by a distinct list of hits. */
  lemma NegateSizes(n: nat, hit: seq<nat>)
    requires InRange(hit, n) && Distinct(hit)
    ensures |Positions(Negate(n, hit))| == n - |hit|
    ensures |Positions(Invert(Negate(n, hit)))| == |hit|
  {
    NegatePositions(n, hit);
    DistinctCard(hit);
    BelowCard(n);
    assert Elems(hit) <= Below(n);
  }

  /** The entries of a at the positions P. */
  function Image<T>(a: seq<T>, P: set<nat>): set<T> {
    set p | p in P && p < |a| :: a[p]
  }

  /** The image of a set of positions under a distinct list has as many elements as the set. */
  lemma {:induction false} ImageCard<T>(a: seq<T>, P: set<nat>)
    requires Distinct(a)
    requires forall p :: p in P ==> p < |a|
    ensures |Image(a, P)| == |P|
    decreases P
  {
    if P != {} {
      var p :| p in P;
      var rest := P - {p};
      ImageCard(a, rest);
      assert Image(a, P) == Image(a, rest) + {a[p]};
      assert a[p] !in Image(a, rest);
    }
  }
}
