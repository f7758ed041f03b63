/** Strategy 3 of `multiplet`: the native code orders all rows in chunks of k
    nearest neighbours, and the rows are dealt out along that order to the
    multiplets 0, 1, ..., k - 1, 0, 1, ... */
module RoundRobin {
  import opened Seqs
  import opened Arith
  import opened Dataset
  import opened Folds
  import opened Oracles

  /** `np.tile(np.arange(k), reps)`: reps copies of 0, ..., k - 1. */
  function Tile(k: nat, reps: nat): (t: seq<nat>)
    ensures |t| == k * reps
  {
    if reps == 0 then []
    else
      MulSucc(reps - 1, k);
      Tile(k, reps - 1) + Range(k)
  }

  /** Position p of the tiled ids holds p mod k. */
  lemma {:induction false} TileEntry(k: nat, reps: nat)
    requires k >= 1
    ensures forall p :: 0 <= p < k * reps ==> Tile(k, reps)[p] == p % k
  {
    if reps > 0 {
      TileEntry(k, reps - 1);
      MulSucc(reps - 1, k);
      var front := Tile(k, reps - 1);
      forall p | 0 <= p < k * reps ensures Tile(k, reps)[p] == p % k {
        if p >= |front| {
          var t := p - |front|;
          assert Tile(k, reps)[p] == Range(k)[t];
          DivModUnique(p, k, reps - 1, t);
        } else {
          assert Tile(k, reps)[p] == front[p];
        }
      }
    }
  }

  /** The table strategy 3 builds: the p-th row of the sequence is paired with
      the p-th tiled id. */
  function Deal(s: seq<nat>, k: nat): (folds: seq<Assignment>)
    requires k >= 1
    ensures RowsOf(folds) == s
    ensures forall p :: 0 <= p < |s| ==> folds[p].id == p % k
  {
    var tile := Tile(k, CeilDiv(|s|, k));
    TileEntry(k, CeilDiv(|s|, k));
    seq(|s|, p requires 0 <= p < |s| => Assignment(s[p], tile[p]))
  }

  /** Strategy 3 on the formatted dataset: with `s` the order the native
      call returns, row s[p] gets label p mod k, and every row gets one label. */
  function Strategy3(seqCpp: SequenceOracle, pick: Pick, k: nat, data: seq<Row>): (labels: seq<nat>)
    requires SequenceContract(seqCpp)
    requires 2 <= k && 2 * k <= |data|
    ensures |labels| == |data|
    ensures var s := seqCpp(data, k, Draw(pick, Range(|data|)));
      forall p :: 0 <= p < |data| ==> labels[s[p]] == p % k
    ensures forall j :: 0 <= j < |data| ==> labels[j] < k
  {
    var N := |data|;
    var s := seqCpp(data, k, Draw(pick, Range(N)));
    var folds := Deal(s, k);
    ReconstructLabels(folds, N, 0, k);
    Reconstruct(folds, N)
  }

  /** The positions below n congruent to l mod k, in increasing order. */
  function Residues(n: nat, k: nat, l: nat): (r: seq<nat>)
    requires k >= 1
    ensures StrictlyIncreasing(r)
    ensures forall p: nat :: p in r <==> p < n && p % k == l
  {
    if n == 0 then []
    else
      var front := Residues(n - 1, k, l);
      assert forall i :: 0 <= i < |front| ==> front[i] in front && front[i] < n - 1;
      if (n - 1) % k == l then front + [n - 1] else front
  }

  /** There are floor(n / k) of them, plus one when l < n mod k. */
  lemma {:induction false} ResiduesCount(n: nat, k: nat, l: nat)
    requires l < k
    ensures |Residues(n, k, l)| == n / k + (if l < n % k then 1 else 0)
  {
    if n > 0 {
      var m := n - 1;
      ResiduesCount(m, k, l);
      assert m == (m / k) * k + m % k;
      if m % k + 1 < k {
        DivModUnique(n, k, m / k, m % k + 1);
      } else {
        MulSucc(m / k, k);
        DivModUnique(n, k, m / k + 1, 0);
      }
    }
  }

  /** The multiplets of strategy 3 are balanced: label l goes to exactly
      floor(N / k) rows, plus one for the first N mod k labels, so sizes differ
      by at most one and (as N >= 2k) every label is used. */
  lemma Strategy3Balanced(seqCpp: SequenceOracle, pick: Pick, k: nat, data: seq<Row>, l: nat)
    requires SequenceContract(seqCpp)
    requires 2 <= k && 2 * k <= |data|
    requires l < k
    ensures var labels := Strategy3(seqCpp, pick, k, data);
      |set j | 0 <= j < |data| && labels[j] == l| == |data| / k + (if l < |data| % k then 1 else 0)
    ensures l in Strategy3(seqCpp, pick, k, data)
  {
    var N := |data|;
    var s := seqCpp(data, k, Draw(pick, Range(N)));
    var labels := Strategy3(seqCpp, pick, k, data);
    var res := Residues(N, k, l);
    var fold := set j | 0 <= j < N && labels[j] == l;
    Strategy3Fold(seqCpp, pick, k, data, l);
    ImageCard(s, Elems(res));
    StrictlyIncreasingDistinct(res);
    DistinctCard(res);
    ResiduesCount(N, k, l);
    FloorAtLeast(N, k, 2);
    assert |fold| > 0;
    var j :| j in fold;
    assert labels[j] == l;
  }

  /** The rows strategy 3 labels l are the rows the sequence holds at the
      positions congruent to l mod k. */
  lemma Strategy3Fold(seqCpp: SequenceOracle, pick: Pick, k: nat, data: seq<Row>, l: nat)
    requires SequenceContract(seqCpp)
    requires 2 <= k && 2 * k <= |data|
    ensures var labels := Strategy3(seqCpp, pick, k, data);
      var s := seqCpp(data, k, Draw(pick, Range(|data|)));
      (set j | 0 <= j < |data| && labels[j] == l) == Image(s, Elems(Residues(|data|, k, l)))
  {
    var N := |data|;
    var s := seqCpp(data, k, Draw(pick, Range(N)));
    var folds := Deal(s, k);
    assert Strategy3(seqCpp, pick, k, data) == Reconstruct(folds, N);
    ReconstructFold(folds, N, l);
    DealFold(s, k, l);
  }

  /** In the dealt table, the rows paired with id l are the entries of s at
      the positions congruent to l mod k. */
  lemma DealFold(s: seq<nat>, k: nat, l: nat)
    requires k >= 1
    ensures var folds := Deal(s, k);
      (set p | 0 <= p < |folds| && folds[p].id == l :: folds[p].row) == Image(s, Elems(Residues(|s|, k, l)))
  {
    var folds := Deal(s, k);
    var res := Residues(|s|, k, l);
    var taken := set p | 0 <= p < |folds| && folds[p].id == l :: folds[p].row;
    forall x | x in Image(s, Elems(res)) ensures x in taken {
      var p :| p in Elems(res) && p < |s| && s[p] == x;
      assert folds[p].row == x;
    }
    forall x | x in taken ensures x in Image(s, Elems(res)) {
      var p :| 0 <= p < |folds| && folds[p].id == l && folds[p].row == x;
      assert p in res;
    }
  }

  /** Every id 0, ..., k - 1 is some row's label. */
  lemma Strategy3UsesAll(seqCpp: SequenceOracle, pick: Pick, k: nat, data: seq<Row>)
    requires SequenceContract(seqCpp)
    requires 2 <= k && 2 * k <= |data|
    ensures forall l :: 0 <= l < k ==> l in Strategy3(seqCpp, pick, k, data)
  {
    forall l | 0 <= l < k ensures l in Strategy3(seqCpp, pick, k, data) {
      Strategy3Balanced(seqCpp, pick, k, data, l);
    }
  }
}
