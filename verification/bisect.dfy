/** Strategy 2 of `multiplet`: split into equal twins recursively until a
    subset has at most ceil(N / k) rows; each such subset becomes a multiplet,
    numbered by a counter shared by the whole recursion (`nonlocal i`). */
module Bisection {
  import opened Seqs
  import opened Arith
  import opened Dataset
  import opened Folds
  import opened Oracles
  import Native

  /** The rows `equal_twins` labelled and the counter value it leaves behind. */
  datatype Leaves = Leaves(folds: seq<Assignment>, next: nat)

  /** `equal_twins(data, row_index)` called with the counter at `next`. `orig`
      is the formatted dataset of N rows; `data` holds its rows listed by the
      increasing `rowIndex`. Every row of `rowIndex` is labelled once, with ids
      taken consecutively from the counter, which advances at least once. */
  function Bisect(cpp: TwinOracle, pick: Pick, k: nat, orig: seq<Row>,
                  data: seq<Row>, rowIndex: seq<nat>, next: nat): (out: Leaves)
    requires TwinContract(cpp)
    requires 2 <= k && 2 * k <= |orig|
    requires InRange(rowIndex, |orig|) && StrictlyIncreasing(rowIndex)
    requires data == Gather(orig, rowIndex)
    ensures |out.folds| == |rowIndex|
    ensures Distinct(RowsOf(out.folds)) && Elems(RowsOf(out.folds)) == Elems(rowIndex)
    ensures next < out.next && LabelsIn(out.folds, next, out.next)
    ensures |data| <= CeilDiv(|orig|, k) ==> out.next == next + 1
    decreases |rowIndex|
  {
    if |data| <= CeilDiv(|orig|, k) then
      Leaves(Label(rowIndex, next), next + 1)
    else
      var hit := cpp(data, 2, Draw(pick, rowIndex));
      var negate := Negate(|data|, hit);
      var inv := Invert(negate);
      BisectStep(cpp, pick, k, orig, data, rowIndex);
      var left := Bisect(cpp, pick, k, orig, Select(data, negate), Select(rowIndex, negate), next);
      var right := Bisect(cpp, pick, k, orig, Select(data, inv), Select(rowIndex, inv), left.next);
      ConcatRows(left.folds, right.folds);
      ConcatLabels(left.folds, right.folds, next, left.next, right.next);
      Leaves(left.folds + right.folds, right.next)
  }

  /** The split of a subset too large to be a leaf: it has at least 3 rows, so
      the equal-twins call is valid; both sides are smaller, aligned with their
      index lists, and divide the subset's rows between them, the inverted side
      holding exactly the rows the answer named. */
  lemma BisectStep(cpp: TwinOracle, pick: Pick, k: nat, orig: seq<Row>,
                   data: seq<Row>, rowIndex: seq<nat>)
    requires TwinContract(cpp)
    requires 2 <= k && 2 * k <= |orig|
    requires InRange(rowIndex, |orig|) && StrictlyIncreasing(rowIndex)
    requires data == Gather(orig, rowIndex)
    requires |data| > CeilDiv(|orig|, k)
    ensures 2 < |data|
    ensures var hit := cpp(data, 2, Draw(pick, rowIndex));
      var negate := Negate(|data|, hit);
      var inv := Invert(negate);
      var named := Elems(Gather(rowIndex, hit));
      && |hit| == CeilDiv(|data|, 2) && InRange(hit, |data|)
      && InRange(Select(rowIndex, negate), |orig|) && StrictlyIncreasing(Select(rowIndex, negate))
      && Select(data, negate) == Gather(orig, Select(rowIndex, negate))
      && InRange(Select(rowIndex, inv), |orig|) && StrictlyIncreasing(Select(rowIndex, inv))
      && Select(data, inv) == Gather(orig, Select(rowIndex, inv))
      && |Select(rowIndex, negate)| == |data| / 2 && |Select(rowIndex, inv)| == CeilDiv(|data|, 2)
      && |Select(rowIndex, negate)| < |rowIndex| && |Select(rowIndex, inv)| < |rowIndex|
      && Elems(Select(rowIndex, negate)) == Elems(rowIndex) - named
      && Elems(Select(rowIndex, inv)) == named
      && named <= Elems(rowIndex)
  {
    var N := |orig|;
    CeilAtLeastTwo(N, k);
    var hit := cpp(data, 2, Draw(pick, rowIndex));
    assert Native.SplitAnswer(hit, |data|, 2);
    SplitSides(orig, data, rowIndex, hit);
    GatherWithin(rowIndex, hit);
    HalveRest(|data|);
  }

  /** With at least 2k rows, ceil(N / k) is at least 2. */
  lemma CeilAtLeastTwo(N: nat, k: nat)
    requires k >= 1 && 2 * k <= N
    ensures CeilDiv(N, k) >= 2
  {
    var c := CeilDiv(N, k);
    if c <= 1 {
      MulMono(c, 1, k);
    }
  }

  /** The order of the two recursive calls: the rows the oracle did not name
      (the `negate` side) are numbered first, so every one of them gets a
      smaller id than every row the oracle named. */
  lemma ComplementFirst(cpp: TwinOracle, pick: Pick, k: nat, orig: seq<Row>,
                        data: seq<Row>, rowIndex: seq<nat>, next: nat)
    requires TwinContract(cpp)
    requires 2 <= k && 2 * k <= |orig|
    requires InRange(rowIndex, |orig|) && StrictlyIncreasing(rowIndex)
    requires data == Gather(orig, rowIndex)
    requires |data| > CeilDiv(|orig|, k)
    ensures 2 < |data|
    ensures var named := Elems(Gather(rowIndex, cpp(data, 2, Draw(pick, rowIndex))));
      var out := Bisect(cpp, pick, k, orig, data, rowIndex, next);
      forall p, q :: (0 <= p < |out.folds| && 0 <= q < |out.folds|
        && out.folds[p].row !in named && out.folds[q].row in named) ==> out.folds[p].id < out.folds[q].id
  {
    BisectStep(cpp, pick, k, orig, data, rowIndex);
    var hit := cpp(data, 2, Draw(pick, rowIndex));
    var named := Elems(Gather(rowIndex, hit));
    var negate := Negate(|data|, hit);
    var inv := Invert(negate);
    var left := Bisect(cpp, pick, k, orig, Select(data, negate), Select(rowIndex, negate), next);
    var right := Bisect(cpp, pick, k, orig, Select(data, inv), Select(rowIndex, inv), left.next);
    var out := Bisect(cpp, pick, k, orig, data, rowIndex, next);
    assert out.folds == left.folds + right.folds;
    forall q | |left.folds| <= q < |out.folds|
      ensures out.folds[q].row in named && left.next <= out.folds[q].id
    {
      assert out.folds[q] == right.folds[q - |left.folds|];
      assert RowsOf(right.folds)[q - |left.folds|] in Elems(RowsOf(right.folds));
    }
    forall p | 0 <= p < |left.folds|
      ensures out.folds[p].row !in named && out.folds[p].id < left.next
    {
      assert out.folds[p] == left.folds[p];
      assert RowsOf(left.folds)[p] in Elems(RowsOf(left.folds));
    }
  }

  /** The leaf count. When k = a * b with b a power of two and the subset's
      size lies between floor(N / a) and ceil(N / a), the recursion below it
      makes exactly b leaves, all of them non-empty: it uses exactly the ids
      next, ..., next + b - 1. */
  lemma {:induction false} BisectLeaves(cpp: TwinOracle, pick: Pick, k: nat, orig: seq<Row>,
                                        data: seq<Row>, rowIndex: seq<nat>, next: nat, a: nat, b: nat)
    requires TwinContract(cpp)
    requires 2 <= k && 2 * k <= |orig|
    requires InRange(rowIndex, |orig|) && StrictlyIncreasing(rowIndex)
    requires data == Gather(orig, rowIndex)
    requires a >= 1 && a * b == k && PowerOfTwo(b)
    requires |orig| / a <= |data| <= CeilDiv(|orig|, a)
    ensures var out := Bisect(cpp, pick, k, orig, data, rowIndex, next);
      && out.next == next + b
      && forall l :: next <= l < next + b ==> l in IdsOf(out.folds)
    decreases b
  {
    var N := |orig|;
    var out := Bisect(cpp, pick, k, orig, data, rowIndex, next);
    if b == 1 {
      LeafSize(N, k, a, |data|);
      assert IdsOf(out.folds)[0] == next;
    } else {
      HalvingSizes(N, k, a, b, |data|);
      BisectStep(cpp, pick, k, orig, data, rowIndex);
      var hit := cpp(data, 2, Draw(pick, rowIndex));
      var negate := Negate(|data|, hit);
      var inv := Invert(negate);
      var left := Bisect(cpp, pick, k, orig, Select(data, negate), Select(rowIndex, negate), next);
      var right := Bisect(cpp, pick, k, orig, Select(data, inv), Select(rowIndex, inv), left.next);
      BisectLeaves(cpp, pick, k, orig, Select(data, negate), Select(rowIndex, negate), next, 2 * a, b / 2);
      BisectLeaves(cpp, pick, k, orig, Select(data, inv), Select(rowIndex, inv), left.next, 2 * a, b / 2);
      assert out.folds == left.folds + right.folds;
      ConcatIds(left.folds, right.folds, next, left.next, right.next);
    }
  }

  /** A subset at the deepest level (a = k) is a single non-empty leaf. */
  lemma LeafSize(N: nat, k: nat, a: nat, n: nat)
    requires 2 <= k && 2 * k <= N
    requires a >= 1 && a * 1 == k
    requires N / a <= n
    ensures n >= 2
  {
    FloorAtLeast(N, k, 2);
  }

  /** One level of the halving: when b > 1, a subset of size between
      floor(N / a) and ceil(N / a) is too large to be a leaf, and both halves
      have sizes between floor(N / 2a) and ceil(N / 2a), with k = 2a * (b / 2)
      and b / 2 again a power of two. */
  lemma HalvingSizes(N: nat, k: nat, a: nat, b: nat, n: nat)
    requires 2 <= k && 2 * k <= N
    requires a >= 1 && a * b == k && PowerOfTwo(b) && b > 1
    requires N / a <= n <= CeilDiv(N, a)
    ensures n > CeilDiv(N, k)
    ensures N / (2 * a) <= n / 2 && n / 2 <= CeilDiv(n, 2) <= CeilDiv(N, 2 * a)
    ensures (2 * a) * (b / 2) == k && PowerOfTwo(b / 2) && b / 2 < b
  {
    var h := b / 2;
    assert b == 2 * h && PowerOfTwo(h);
    MulDouble(a, h);
    TooBigForLeaf(N, k, a, h, n);
    HalfBounds(N, a, n);
  }

  /** A subset of at least floor(N / a) rows, where k = 2ah, is larger than
      ceil(N / k): floor(N / a) >= 2 floor(N / k) >= floor(N / k) + 2. */
  lemma TooBigForLeaf(N: nat, k: nat, a: nat, h: nat, n: nat)
    requires 2 <= k && 2 * k <= N
    requires a >= 1 && h >= 1 && k == 2 * (a * h)
    requires N / a <= n
    ensures n > CeilDiv(N, k)
  {
    MulAtLeast(h, a);
    assert a <= a * h;
    DivAntitone(N, a, a * h);
    HalveFloor(N, a * h);
    FloorAtLeast(N, k, 2);
    CeilAtMostFloorPlusOne(N, k);
  }

  /** Both halves of a subset of size between floor(N / a) and ceil(N / a)
      have sizes between floor(N / 2a) and ceil(N / 2a). */
  lemma HalfBounds(N: nat, a: nat, n: nat)
    requires a >= 1
    requires N / a <= n <= CeilDiv(N, a)
    ensures N / (2 * a) <= n / 2 && n / 2 <= CeilDiv(n, 2) <= CeilDiv(N, 2 * a)
  {
    HalveFloor(N, a);
    DivMono(N / a, n, 2);
    CeilMono(n, CeilDiv(N, a), 2);
    HalveCeil(N, a);
  }

  /** Strategy 2 on the formatted dataset, for k a power of two: every
      original row receives exactly one label, and the labels are exactly the
      ids 0, ..., k - 1. */
  function Strategy2(cpp: TwinOracle, pick: Pick, k: nat, data: seq<Row>): (labels: seq<nat>)
    requires TwinContract(cpp)
    requires 2 <= k && 2 * k <= |data| && PowerOfTwo(k)
    ensures |labels| == |data|
    ensures forall j :: 0 <= j < |data| ==> labels[j] < k
    ensures forall l :: 0 <= l < k ==> l in labels
  {
    var N := |data|;
    RangeIsIncreasingPermutation(N);
    assert Gather(data, Range(N)) == data;
    var out := Bisect(cpp, pick, k, data, data, Range(N), 0);
    assert N / 1 == N && CeilDiv(N, 1) == N;
    BisectLeaves(cpp, pick, k, data, data, Range(N), 0, 1, k);
    PermutationRows(out.folds, N);
    ReconstructLabels(out.folds, N, 0, k);
    ReconstructUses(out.folds, N, 0, k);
    Reconstruct(out.folds, N)
  }
}
