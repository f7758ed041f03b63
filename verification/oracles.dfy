/** What the Python layer relies on from the native module and from numpy's
    random generator. `twin_cpp` and `multiplet_S3_cpp` are arbitrary
    functions of their arguments that keep the contracts `Native.Twin` and
    `Native.Sequence` prove; a random start is an arbitrary function of the
    rows still in play, reduced into range. */
module Oracles {
  import opened Seqs
  import opened Dataset
  import Native

  /** `twin_cpp(data, r, u1, leaf_size)`, the leaf size being irrelevant here. */
  type TwinOracle = (seq<Row>, nat, nat) -> seq<nat>

  /** `multiplet_S3_cpp(data, k, u1, leaf_size)`. */
  type SequenceOracle = (seq<Row>, nat, nat) -> seq<nat>

  /** The source of `np.random.randint`: any value, chosen from the original
      row numbers of the subset being split. */
  type Pick = seq<nat> -> nat

  /** The contract of `Native.Twin`: for 1 <= r < n and a start in range, a
      list of ceil(n / r) distinct positions of the rows it was given. */
  ghost predicate TwinContract(cpp: TwinOracle) {
    forall d: seq<Row>, r: nat, u: nat :: 1 <= r < |d| && u < |d| ==>
      Native.SplitAnswer(cpp(d, r, u), |d|, r)
  }

  /** The contract of `Native.Sequence`: for 1 <= r <= n and a start in
      range, every position of the rows it was given, each once. */
  ghost predicate SequenceContract(seqCpp: SequenceOracle) {
    forall d: seq<Row>, r: nat, u: nat :: 1 <= r <= |d| && u < |d| ==>
      IsPermutation(seqCpp(d, r, u), |d|)
  }

  /** `np.random.randint(len(rows))`: a valid position of the subset. */
  function Draw(pick: Pick, rows: seq<nat>): (u: nat)
    requires |rows| > 0
    ensures u < |rows|
  {
    pick(rows) % |rows|
  }

  /** Splitting a working copy by an oracle answer, as strategies 1 and 2 do
      with `negate`: when `data` holds the original rows listed by the
      increasing `rowIndex`, both sides again hold the original rows listed by
      their (increasing) index lists; the `negate` side lists the rows the
      answer missed and the inverted side exactly the rows it named. */
  lemma SplitSides(orig: seq<Row>, data: seq<Row>, rowIndex: seq<nat>, hit: seq<nat>)
    requires InRange(rowIndex, |orig|) && StrictlyIncreasing(rowIndex)
    requires data == Gather(orig, rowIndex)
    requires InRange(hit, |data|) && Distinct(hit)
    ensures var negate := Negate(|data|, hit);
      && InRange(Select(rowIndex, negate), |orig|) && StrictlyIncreasing(Select(rowIndex, negate))
      && Select(data, negate) == Gather(orig, Select(rowIndex, negate))
      && |Select(rowIndex, negate)| == |data| - |hit|
      && Elems(Select(rowIndex, negate)) == Elems(rowIndex) - Elems(Gather(rowIndex, hit))
    ensures var inv := Invert(Negate(|data|, hit));
      && InRange(Select(rowIndex, inv), |orig|) && StrictlyIncreasing(Select(rowIndex, inv))
      && Select(data, inv) == Gather(orig, Select(rowIndex, inv))
      && |Select(rowIndex, inv)| == |hit|
      && Elems(Select(rowIndex, inv)) == Elems(Gather(rowIndex, hit))
    ensures Distinct(Gather(rowIndex, hit))
  {
    var negate := Negate(|data|, hit);
    var inv := Invert(negate);
    GatherDistinct(rowIndex, hit);
    NegateSizes(|data|, hit);
    SideIndex(orig, rowIndex, negate);
    SideIndex(orig, rowIndex, inv);
    MissedRows(rowIndex, hit);
    NamedRows(rowIndex, hit);
  }

  /** The `negate` side of a distinct index list lists the entries the answer
      did not name. */
  lemma MissedRows(rowIndex: seq<nat>, hit: seq<nat>)
    requires Distinct(rowIndex) && InRange(hit, |rowIndex|)
    ensures Elems(Select(rowIndex, Negate(|rowIndex|, hit))) == Elems(rowIndex) - Elems(Gather(rowIndex, hit))
  {
    MissedRowsCovered(rowIndex, hit);
    MissedRowsOnly(rowIndex, hit);
  }

  lemma MissedRowsCovered(rowIndex: seq<nat>, hit: seq<nat>)
    requires InRange(hit, |rowIndex|)
    ensures Elems(rowIndex) - Elems(Gather(rowIndex, hit)) <= Elems(Select(rowIndex, Negate(|rowIndex|, hit)))
  {
    var negate := Negate(|rowIndex|, hit);
    SelectMembers(rowIndex, negate);
    forall x | x in Elems(rowIndex) - Elems(Gather(rowIndex, hit))
      ensures x in Select(rowIndex, negate)
    {
      MissedRowKept(rowIndex, hit, x);
    }
  }

  lemma MissedRowsOnly(rowIndex: seq<nat>, hit: seq<nat>)
    requires Distinct(rowIndex) && InRange(hit, |rowIndex|)
    ensures Elems(Select(rowIndex, Negate(|rowIndex|, hit))) <= Elems(rowIndex) - Elems(Gather(rowIndex, hit))
  {
    var negate := Negate(|rowIndex|, hit);
    SelectMembers(rowIndex, negate);
    forall x | x in Select(rowIndex, negate)
      ensures x in rowIndex && x !in Elems(Gather(rowIndex, hit))
    {
      var j :| 0 <= j < |rowIndex| && negate[j] && rowIndex[j] == x;
      KeptRowMissed(rowIndex, hit, j);
    }
  }

  lemma MissedRowKept(rowIndex: seq<nat>, hit: seq<nat>, x: nat)
    requires InRange(hit, |rowIndex|)
    requires x in Elems(rowIndex) && x !in Elems(Gather(rowIndex, hit))
    ensures exists j :: 0 <= j < |rowIndex| && Negate(|rowIndex|, hit)[j] && rowIndex[j] == x
  {
    var taken := Gather(rowIndex, hit);
    var j :| 0 <= j < |rowIndex| && rowIndex[j] == x;
    forall t | 0 <= t < |hit| ensures hit[t] != j {
      assert taken[t] in Elems(taken);
    }
    assert Negate(|rowIndex|, hit)[j];
  }

  lemma KeptRowMissed(rowIndex: seq<nat>, hit: seq<nat>, j: nat)
    requires Distinct(rowIndex) && InRange(hit, |rowIndex|)
    requires j < |rowIndex| && j !in hit
    ensures rowIndex[j] !in Elems(Gather(rowIndex, hit))
  {
    var taken := Gather(rowIndex, hit);
    forall t | 0 <= t < |hit| ensures taken[t] != rowIndex[j] {
      assert hit[t] in hit;
    }
  }

  /** The inverted side lists exactly the entries the answer named. */
  lemma NamedRows(rowIndex: seq<nat>, hit: seq<nat>)
    requires InRange(hit, |rowIndex|)
    ensures Elems(Select(rowIndex, Invert(Negate(|rowIndex|, hit)))) == Elems(Gather(rowIndex, hit))
  {
    var inv := Invert(Negate(|rowIndex|, hit));
    var taken := Gather(rowIndex, hit);
    SelectMembers(rowIndex, inv);
    forall x ensures x in Elems(Select(rowIndex, inv)) <==> x in Elems(taken) {
      if x in Elems(taken) {
        var t :| 0 <= t < |hit| && taken[t] == x;
        assert inv[hit[t]];
      }
    }
  }

  /** One side of a split: its index list is the masked index list, its rows
      the masked rows, and their lengths agree with the mask's count. */
  lemma SideIndex(orig: seq<Row>, rowIndex: seq<nat>, mask: seq<bool>)
    requires InRange(rowIndex, |orig|) && StrictlyIncreasing(rowIndex)
    requires |mask| == |rowIndex|
    ensures InRange(Select(rowIndex, mask), |orig|)
    ensures StrictlyIncreasing(Select(rowIndex, mask))
    ensures Select(Gather(orig, rowIndex), mask) == Gather(orig, Select(rowIndex, mask))
    ensures |Select(rowIndex, mask)| == |Positions(mask)|
  {
    SelectGather(orig, rowIndex, mask);
    SelectIncreasing(rowIndex, mask);
    SelectLength(rowIndex, mask);
  }
}
