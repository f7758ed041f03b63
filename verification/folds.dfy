/** The `folds` table every strategy fills: one (original row, id) pair
    per labelled row, and the final `folds[np.argsort(folds[:, 0]), 1]` that
    turns it into one label per original row. */
module Folds {
  import opened Seqs

  datatype Assignment = Assignment(row: nat, id: nat)

  /** The first column of the table. */
  function RowsOf(folds: seq<Assignment>): (rows: seq<nat>)
    ensures |rows| == |folds|
    ensures forall p :: 0 <= p < |folds| ==> rows[p] == folds[p].row
  {
    seq(|folds|, p requires 0 <= p < |folds| => folds[p].row)
  }

  /** The second column of the table. */
  function IdsOf(folds: seq<Assignment>): (ids: seq<nat>)
    ensures |ids| == |folds|
    ensures forall p :: 0 <= p < |folds| ==> ids[p] == folds[p].id
  {
    seq(|folds|, p requires 0 <= p < |folds| => folds[p].id)
  }

  /** `np.hstack((rows, np.repeat(label, len(rows))))`: every row gets the same label. */
  function Label(rows: seq<nat>, id: nat): (fold: seq<Assignment>)
    ensures RowsOf(fold) == rows
    ensures forall p :: 0 <= p < |fold| ==> fold[p].id == id
  {
    seq(|rows|, p requires 0 <= p < |rows| => Assignment(rows[p], id))
  }

  /** Every label of the table lies in [lo, hi). */
  predicate LabelsIn(folds: seq<Assignment>, lo: nat, hi: nat) {
    forall p :: 0 <= p < |folds| ==> lo <= folds[p].id < hi
  }

  /** The label the table gives to row j, found by scanning for its pair. */
  function LabelOf(folds: seq<Assignment>, j: nat): (l: nat)
    requires j in RowsOf(folds)
    ensures exists p :: 0 <= p < |folds| && folds[p].row == j && folds[p].id == l
  {
    if folds[0].row == j then folds[0].id
    else
      assert RowsOf(folds) == [folds[0].row] + RowsOf(folds[1..]);
      var l := LabelOf(folds[1..], j);
      assert exists p :: 0 <= p < |folds| && folds[p].row == j && folds[p].id == l by {
        var q :| 0 <= q < |folds| - 1 && folds[1..][q].row == j && folds[1..][q].id == l;
        assert folds[q + 1].row == j;
      }
      l
  }

  /** `folds[np.argsort(folds[:, 0]), 1]`: when the first column lists every
      original row exactly once, sorting the table by row and keeping the
      second column gives, at position j, the label of row j. */
  function Reconstruct(folds: seq<Assignment>, n: nat): (labels: seq<nat>)
    requires IsPermutation(RowsOf(folds), n)
    ensures |labels| == n
    ensures forall p :: 0 <= p < |folds| ==> labels[folds[p].row] == folds[p].id
  {
    var rows := RowsOf(folds);
    PermutationCovers(rows, n);
    var labels := seq(n, j requires 0 <= j < n => assert j in Below(n); LabelOf(folds, j));
    forall p | 0 <= p < |folds| ensures labels[folds[p].row] == folds[p].id {
      var j := folds[p].row;
      assert rows[p] == j;
      var q :| 0 <= q < |folds| && folds[q].row == j && folds[q].id == labels[j];
      assert rows[q] == j;
    }
    labels
  }

  /** The labels of a reconstruction are the labels of the table: the result
      stays within any bound that every pair of the table respects. */
  lemma ReconstructLabels(folds: seq<Assignment>, n: nat, lo: nat, hi: nat)
    requires IsPermutation(RowsOf(folds), n)
    requires LabelsIn(folds, lo, hi)
    ensures forall j :: 0 <= j < n ==> lo <= Reconstruct(folds, n)[j] < hi
  {
    var rows := RowsOf(folds);
    PermutationCovers(rows, n);
    forall j | 0 <= j < n ensures lo <= Reconstruct(folds, n)[j] < hi {
      assert j in Below(n);
      var p :| 0 <= p < |rows| && rows[p] == j;
    }
  }

  /** Row j carries label l in the reconstruction exactly when the table pairs
      j with l; in particular the rows carrying label l are the rows the table
      lists with l. */
  lemma ReconstructFold(folds: seq<Assignment>, n: nat, l: nat)
    requires IsPermutation(RowsOf(folds), n)
    ensures (set j | 0 <= j < n && Reconstruct(folds, n)[j] == l)
         == (set p | 0 <= p < |folds| && folds[p].id == l :: folds[p].row)
  {
    var rows := RowsOf(folds);
    var labels := Reconstruct(folds, n);
    PermutationCovers(rows, n);
    forall j | 0 <= j < n && labels[j] == l
      ensures j in (set p | 0 <= p < |folds| && folds[p].id == l :: folds[p].row)
    {
      assert j in Below(n);
      var p :| 0 <= p < |rows| && rows[p] == j;
    }
  }

  /** Putting two tables together whose row columns are disjoint keeps the row
      column distinct and unites the row sets. */
  lemma ConcatRows(a: seq<Assignment>, b: seq<Assignment>)
    requires Distinct(RowsOf(a)) && Distinct(RowsOf(b))
    requires Elems(RowsOf(a)) !! Elems(RowsOf(b))
    ensures RowsOf(a + b) == RowsOf(a) + RowsOf(b)
    ensures Distinct(RowsOf(a + b))
    ensures Elems(RowsOf(a + b)) == Elems(RowsOf(a)) + Elems(RowsOf(b))
  {
    var ra, rb := RowsOf(a), RowsOf(b);
    assert RowsOf(a + b) == ra + rb;
    forall i, j | 0 <= i < j < |ra + rb| ensures (ra + rb)[i] != (ra + rb)[j] {
      if i < |ra| && j >= |ra| {
        assert (ra + rb)[i] in Elems(ra);
        assert (ra + rb)[j] == rb[j - |ra|] && rb[j - |ra|] in Elems(rb);
      }
    }
  }

  /** A table whose row column holds [0, n) exactly once, in some order, has
      a permutation of [0, n) as its row column. */
  lemma PermutationRows(folds: seq<Assignment>, n: nat)
    requires |folds| == n
    requires Distinct(RowsOf(folds)) && Elems(RowsOf(folds)) == Elems(Range(n))
    ensures IsPermutation(RowsOf(folds), n)
  {
    RangeMembers(n);
    var rows := RowsOf(folds);
    forall p | 0 <= p < n ensures rows[p] < n {
      assert rows[p] in Elems(rows);
      assert rows[p] in Elems(Range(n));
    }
  }

  /** Every id in [lo, hi) that the table uses is the label of some row of
      the reconstruction. */
  lemma ReconstructUses(folds: seq<Assignment>, n: nat, lo: nat, hi: nat)
    requires IsPermutation(RowsOf(folds), n)
    requires forall l :: lo <= l < hi ==> l in IdsOf(folds)
    ensures forall l :: lo <= l < hi ==> l in Reconstruct(folds, n)
  {
    var labels := Reconstruct(folds, n);
    forall l | lo <= l < hi ensures l in labels {
      assert l in IdsOf(folds);
      var p :| 0 <= p < |folds| && IdsOf(folds)[p] == l;
      assert RowsOf(folds)[p] < n;
      assert labels[folds[p].row] == l;
    }
  }

  /** Ids of two tables put one after the other: the first in [lo, mid), the second
      in [mid, hi). */
  lemma ConcatLabels(a: seq<Assignment>, b: seq<Assignment>, lo: nat, mid: nat, hi: nat)
    requires lo <= mid <= hi
    requires LabelsIn(a, lo, mid) && LabelsIn(b, mid, hi)
    ensures LabelsIn(a + b, lo, hi)
  {
    forall p | 0 <= p < |a + b| ensures lo <= (a + b)[p].id < hi {
      if p >= |a| {
        assert (a + b)[p] == b[p - |a|];
      } else {
        assert (a + b)[p] == a[p];
      }
    }
  }

  /** Ids used by two tables put one after the other: if the first uses every id
      in [lo, mid) and the second every id in [mid, hi), together they use
      every id in [lo, hi). */
  lemma ConcatIds(a: seq<Assignment>, b: seq<Assignment>, lo: nat, mid: nat, hi: nat)
    requires forall l :: lo <= l < mid ==> l in IdsOf(a)
    requires forall l :: mid <= l < hi ==> l in IdsOf(b)
    ensures forall l :: lo <= l < hi ==> l in IdsOf(a + b)
  {
    forall l | lo <= l < hi ensures l in IdsOf(a + b) {
      if l < mid {
        assert l in IdsOf(a);
        var p :| 0 <= p < |a| && IdsOf(a)[p] == l;
        assert IdsOf(a + b)[p] == l;
      } else {
        assert l in IdsOf(b);
        var p :| 0 <= p < |b| && IdsOf(b)[p] == l;
        assert IdsOf(a + b)[|a| + p] == l;
      }
    }
  }

  /** A table whose first part pairs rows of `named` with `id` and whose
      second part pairs rows outside `named` with larger ids: in the whole
      table, the pairs carrying `id` are exactly the pairs of named rows. */
  lemma NamedFirst(a: seq<Assignment>, b: seq<Assignment>, named: set<nat>, id: nat, hi: nat)
    requires Elems(RowsOf(a)) <= named && forall p :: 0 <= p < |a| ==> a[p].id == id
    requires Elems(RowsOf(b)) !! named && LabelsIn(b, id + 1, hi)
    ensures forall p :: 0 <= p < |a + b| ==> ((a + b)[p].id == id <==> (a + b)[p].row in named)
  {
    forall p | 0 <= p < |a + b| ensures (a + b)[p].id == id <==> (a + b)[p].row in named {
      if p < |a| {
        assert (a + b)[p] == a[p];
        assert RowsOf(a)[p] in Elems(RowsOf(a));
      } else {
        assert (a + b)[p] == b[p - |a|];
        assert RowsOf(b)[p - |a|] in Elems(RowsOf(b));
      }
    }
  }

  /** When the table pairs `id` with exactly the rows of `named`, the
      reconstruction labels exactly those rows with `id`. */
  lemma ReconstructNamed(folds: seq<Assignment>, n: nat, id: nat, named: set<nat>)
    requires IsPermutation(RowsOf(folds), n)
    requires forall p :: 0 <= p < |folds| ==> (folds[p].id == id <==> folds[p].row in named)
    ensures forall j :: 0 <= j < n ==> (Reconstruct(folds, n)[j] == id <==> j in named)
  {
    var rows := RowsOf(folds);
    PermutationCovers(rows, n);
    forall j | 0 <= j < n ensures Reconstruct(folds, n)[j] == id <==> j in named {
      assert j in Below(n);
      var p :| 0 <= p < |rows| && rows[p] == j;
    }
  }
}
