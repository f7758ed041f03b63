/** Strategy 1 of `multiplet`: peel one multiplet at a time off the rows not
    yet labelled, splitting off a 1/(k - i) share at step i, until what is left
    is no larger than N / k; that remainder becomes the last multiplet. */
module Peeling {
  import opened Seqs
  import opened Arith
  import opened Dataset
  import opened Folds
  import opened Oracles
  import Native

  /** The loop of strategy 1 from step i on. `orig` is the formatted dataset
      of N rows the loop started from; `data` and `rowIndex` are its working
      copies. The requires are the loop invariant: `rowIndex` is the increasing
      list of rows not yet labelled, `data` holds exactly those rows, and there
      are at least 2(k - i) and at least (k - i) floor(N / k) of them but at
      most N(k - i)/k.
      The result labels each row of `rowIndex` once: the rows the step-i
      `twin_cpp` call names get id i, every other row a larger id, and every
      id from i to k - 1 is used (the loop only stops after step k - 2, whose
      remainder becomes multiplet k - 1). */
  function Peel(cpp: TwinOracle, pick: Pick, k: nat, orig: seq<Row>,
                data: seq<Row>, rowIndex: seq<nat>, i: nat): (folds: seq<Assignment>)
    requires TwinContract(cpp)
    requires i + 2 <= k && 2 * k <= |orig|
    requires InRange(rowIndex, |orig|) && StrictlyIncreasing(rowIndex)
    requires data == Gather(orig, rowIndex)
    requires 2 * (k - i) <= |data|
    requires |data| * k <= |orig| * (k - i)
    requires (k - i) * (|orig| / k) <= |data|
    ensures |folds| == |rowIndex|
    ensures Distinct(RowsOf(folds)) && Elems(RowsOf(folds)) == Elems(rowIndex)
    ensures LabelsIn(folds, i, k)
    ensures var named := Elems(Gather(rowIndex, cpp(data, k - i, Draw(pick, rowIndex))));
      forall p :: 0 <= p < |folds| ==> (folds[p].id == i <==> folds[p].row in named)
    ensures forall l :: i <= l < k ==> l in IdsOf(folds)
    decreases |rowIndex|
  {
    var hit := cpp(data, k - i, Draw(pick, rowIndex));
    var fold := Label(Gather(rowIndex, hit), i);
    var negate := Negate(|data|, hit);
    var data' := Select(data, negate);
    var rowIndex' := Select(rowIndex, negate);
    PeelStep(cpp, pick, k, orig, data, rowIndex, i);
    if |data'| * k <= |orig| then
      var last := Label(rowIndex', i + 1);
      assert IdsOf(last)[0] == i + 1;
      JoinFolds(fold, last, rowIndex, i, k);
      fold + last
    else
      var rest := Peel(cpp, pick, k, orig, data', rowIndex', i + 1);
      JoinFolds(fold, rest, rowIndex, i, k);
      fold + rest
  }

  /** The table of one step followed by the table of the later steps: the
      step's rows, all labelled i, and the remaining rows, labelled from
      [i + 1, k) with every such id used, together label every row of
      `rowIndex` once, and id i marks exactly the step's rows. */
  lemma JoinFolds(fold: seq<Assignment>, tail: seq<Assignment>, rowIndex: seq<nat>, i: nat, k: nat)
    requires |fold| >= 1 && Distinct(RowsOf(fold)) && Elems(RowsOf(fold)) <= Elems(rowIndex)
    requires forall p :: 0 <= p < |fold| ==> fold[p].id == i
    requires Distinct(RowsOf(tail)) && Elems(RowsOf(tail)) == Elems(rowIndex) - Elems(RowsOf(fold))
    requires i < k && LabelsIn(tail, i + 1, k)
    requires forall l :: i + 1 <= l < k ==> l in IdsOf(tail)
    ensures Distinct(RowsOf(fold + tail)) && Elems(RowsOf(fold + tail)) == Elems(rowIndex)
    ensures LabelsIn(fold + tail, i, k)
    ensures forall p :: 0 <= p < |fold + tail| ==>
      ((fold + tail)[p].id == i <==> (fold + tail)[p].row in Elems(RowsOf(fold)))
    ensures forall l :: i <= l < k ==> l in IdsOf(fold + tail)
  {
    assert IdsOf(fold)[0] == i;
    ConcatRows(fold, tail);
    ConcatLabels(fold, tail, i, i + 1, k);
    NamedFirst(fold, tail, Elems(RowsOf(fold)), i, k);
    ConcatIds(fold, tail, i, i + 1, k);
  }

  /** One pass of the loop body: the answer names at least one row, all
      distinct, the rows left are the others, still aligned with their index
      list, and there is at least one of them; the loop goes on exactly when
      i + 3 <= k, and then the invariant holds again for step i + 1. */
  lemma PeelStep(cpp: TwinOracle, pick: Pick, k: nat, orig: seq<Row>,
                 data: seq<Row>, rowIndex: seq<nat>, i: nat)
    requires TwinContract(cpp)
    requires i + 2 <= k && 2 * k <= |orig|
    requires InRange(rowIndex, |orig|) && StrictlyIncreasing(rowIndex)
    requires data == Gather(orig, rowIndex)
    requires 2 * (k - i) <= |data|
    requires |data| * k <= |orig| * (k - i)
    requires (k - i) * (|orig| / k) <= |data|
    ensures var hit := cpp(data, k - i, Draw(pick, rowIndex));
      var negate := Negate(|data|, hit);
      var rowIndex' := Select(rowIndex, negate);
      && InRange(hit, |data|) && Distinct(Gather(rowIndex, hit)) && |hit| >= 1
      && Elems(Gather(rowIndex, hit)) <= Elems(rowIndex)
      && Elems(rowIndex') == Elems(rowIndex) - Elems(Gather(rowIndex, hit))
      && |hit| + |rowIndex'| == |rowIndex| && 1 <= |rowIndex'| < |rowIndex|
      && InRange(rowIndex', |orig|) && StrictlyIncreasing(rowIndex') && Distinct(rowIndex')
      && |Select(data, negate)| == |rowIndex'|
      && (|Select(data, negate)| * k > |orig| <==> i + 3 <= k)
      && (|Select(data, negate)| * k > |orig| ==>
            && Select(data, negate) == Gather(orig, rowIndex')
            && 2 * (k - (i + 1)) <= |Select(data, negate)|
            && |Select(data, negate)| * k <= |orig| * (k - (i + 1))
            && (k - (i + 1)) * (|orig| / k) <= |Select(data, negate)|)
  {
    var hit := cpp(data, k - i, Draw(pick, rowIndex));
    assert Native.SplitAnswer(hit, |data|, k - i);
    SplitSides(orig, data, rowIndex, hit);
    PeelBounds(|orig|, k, i, |data|, |hit|);
    PeelShare(|orig|, k, i, |data|, |hit|);
    GatherWithin(rowIndex, hit);
  }

  /** The arithmetic of one peeling step: with n rows left, ratio m = k - i and
      c = ceil(n / m) rows taken, at least one row is taken and the rows left
      over are still at least twice the next ratio and at most N(m - 1)/k. */
  lemma PeelBounds(N: nat, k: nat, i: nat, n: nat, c: nat)
    requires i + 2 <= k
    requires 2 * (k - i) <= n
    requires n * k <= N * (k - i)
    requires c == CeilDiv(n, k - i)
    ensures 1 <= c <= n
    ensures 2 * (k - i - 1) <= n - c
    ensures (n - c) * k <= N * (k - i - 1)
  {
    var m := k - i;
    TakenAtMost(n, m);
    LeftShare(N, k, m, n, c);
  }

  /** The fair share of a peeling step: with q = floor(N / k), a step that
      starts from at least m q rows leaves at least (m - 1) q, and the loop
      goes on (more than N / k rows left over) exactly when the next ratio is
      still at least 2, i.e. i + 1 <= k - 2. */
  lemma PeelShare(N: nat, k: nat, i: nat, n: nat, c: nat)
    requires i + 2 <= k && 2 * k <= N
    requires 2 * (k - i) <= n
    requires n * k <= N * (k - i)
    requires (k - i) * (N / k) <= n
    requires c == CeilDiv(n, k - i)
    ensures c <= n && (k - i - 1) * (N / k) <= n - c
    ensures (n - c) * k > N <==> i + 3 <= k
  {
    var m := k - i;
    PeelBounds(N, k, i, n, c);
    KeepShare(n, m, N / k);
    if m == 2 {
      assert N * (m - 1) == N;
    } else {
      GoesOn(N, k, m - 1, n - c);
    }
  }

  /** With q = floor(N / k), taking ceil(n / m) from n >= m q rows leaves at
      least (m - 1) q: every step takes at most its fair share beyond q. */
  lemma KeepShare(n: nat, m: nat, q: nat)
    requires m >= 1 && m * q <= n
    ensures CeilDiv(n, m) + (m - 1) * q <= n
  {
    MulMono(m - 1, m, q);
    var bound := n - (m - 1) * q;
    MulSub(n, (m - 1) * q, m);
    MulSwap(m - 1, q, m);
    MulMono(m * q, n, m - 1);
    MulSub(m, 1, n);
    assert bound * m >= n;
    CeilLeast(n, m, bound);
  }

  /** At least 2 floor(N / k) rows are more than N / k when N >= 2k. */
  lemma GoesOn(N: nat, k: nat, m: nat, rest: nat)
    requires 2 <= k && 2 * k <= N && m >= 2
    requires m * (N / k) <= rest
    ensures rest * k > N
  {
    var q := N / k;
    assert q * k + N % k == N;
    FloorAtLeast(N, k, 2);
    MulMono(2, m, q);
    MulMono(2 * q, rest, k);
    MulAtLeast(q, k);
  }

  /** Taking c = ceil(n / m) from n >= 2m leaves at least 2(m - 1). */
  lemma TakenAtMost(n: nat, m: nat)
    requires m >= 1 && 2 * m <= n
    ensures CeilDiv(n, m) + 2 * (m - 1) <= n
  {
    var e := n - 2 * m;
    CeilShift(e + m, m);
    CeilShift(e, m);
    CeilAtMost(e, m);
    assert e + m + m == n;
  }

  /** If n rows are at most N m / k and c >= n / m of them are taken, what is
      left is at most N (m - 1) / k. */
  lemma LeftShare(N: nat, k: nat, m: nat, n: nat, c: nat)
    requires m >= 1 && c <= n
    requires n * k <= N * m
    requires c * m >= n
    ensures (n - c) * k <= N * (m - 1)
  {
    MulMono(c, n, k);
    MulSub(n, c, k);
    MulSub(n * k, c * k, m);
    MulSwap(c, k, m);
    MulMono(n, c * m, k);
    // ((n - c) k) m <= (n k) m - n k = (n k)(m - 1)
    MulSub(m, 1, n * k);
    MulMono(n * k, N * m, m - 1);
    MulSwap(N, m, m - 1);
    MulCancel((n - c) * k, N * (m - 1), m);
  }

  /** Strategy 1 on the formatted dataset: every original row receives
      exactly one label, the rows the first `twin_cpp` call names form
      multiplet 0, and every id 0, ..., k - 1 is some row's label. */
  function Strategy1(cpp: TwinOracle, pick: Pick, k: nat, data: seq<Row>): (labels: seq<nat>)
    requires TwinContract(cpp)
    requires 2 <= k && 2 * k <= |data|
    ensures |labels| == |data|
    ensures forall j :: 0 <= j < |data| ==> labels[j] < k
    ensures var hit := cpp(data, k, Draw(pick, Range(|data|)));
      forall j :: 0 <= j < |data| ==> (labels[j] == 0 <==> j in hit)
    ensures forall l :: 0 <= l < k ==> l in labels
  {
    var N := |data|;
    RangeIsIncreasingPermutation(N);
    assert Gather(data, Range(N)) == data;
    assert (N / k) * k + N % k == N;
    var hit := cpp(data, k, Draw(pick, Range(N)));
    assert Native.SplitAnswer(hit, N, k);
    assert Gather(Range(N), hit) == hit;
    var folds := Peel(cpp, pick, k, data, data, Range(N), 0);
    PermutationRows(folds, N);
    ReconstructLabels(folds, N, 0, k);
    ReconstructNamed(folds, N, 0, Elems(hit));
    ReconstructUses(folds, N, 0, k);
    Reconstruct(folds, N)
  }
}
