/** The public functions `twin` and `multiplet`: the input checks, in the
    order the Python code makes them, then the column filter, then the split.
    Raising an exception is an `Err`; `multiplet` returning `None` (an
    unknown strategy) is `Ok(None)`. */
module Api {
  import opened Seqs
  import opened Arith
  import opened Dataset
  import opened Oracles
  import Native
  import Peeling
  import Bisection
  import RoundRobin

  /** `x in range(2, math.floor(n / 2) + 1)`: at least 2 and at most n / 2. */
  predicate PartCount(x: int, n: nat) {
    2 <= x && 2 * x <= n
  }

  /** `twin(data, r, u1)`. A start index left out is drawn at random from the
      rows; the returned positions index the rows of `data` itself, because the
      column filter keeps every row in place. */
  function Twin(a: Array, r: int, u1: Option<int>, pick: Pick, cpp: TwinOracle): (res: Result<seq<nat>>)
    requires WellShaped(a) && TwinContract(cpp)
    ensures a.ndim != 2 ==> res == Err(DataNotMatrix)
    ensures a.ndim == 2 && !AllFinite(a.rows) ==> res == Err(DataNotFinite)
    ensures a.ndim == 2 && AllFinite(a.rows) && u1.None? && |a.rows| == 0 ==> res == Err(EmptyDraw)
    ensures a.ndim == 2 && AllFinite(a.rows) && u1.Some? && !(0 <= u1.value < |a.rows|) ==>
      res == Err(StartOutOfRange)
    ensures (a.ndim == 2 && AllFinite(a.rows) && (u1.None? ==> |a.rows| > 0)
      && (u1.Some? ==> 0 <= u1.value < |a.rows|) && !PartCount(r, |a.rows|)) ==> res == Err(RatioOutOfRange)
    ensures res.Ok? <==> (a.ndim == 2 && AllFinite(a.rows) && PartCount(r, |a.rows|)
      && (u1.Some? ==> 0 <= u1.value < |a.rows|))
    ensures res.Ok? ==> r >= 2 && Native.SplitAnswer(res.value, |a.rows|, r as nat)
  {
    if a.ndim != 2 then Err(DataNotMatrix)
    else if !AllFinite(a.rows) then Err(DataNotFinite)
    else
      var N := |a.rows|;
      var start: Result<nat> :=
        match u1
        case None => if N == 0 then Err(EmptyDraw) else Ok(Draw(pick, Range(N)))
        case Some(u) => if 0 <= u < N then Ok(u as nat) else Err(StartOutOfRange);
      if start.Err? then Err(start.error)
      else if !PartCount(r, N) then Err(RatioOutOfRange)
      else
        var d := DataFormat(a);
        Ok(cpp(d, r as nat, start.value))
  }

  /** The checks `multiplet` makes before it looks at the strategy. */
  predicate Accepted(a: Array, k: int) {
    a.ndim == 2 && AllFinite(a.rows) && PartCount(k, |a.rows|)
  }

  /** `multiplet(data, k, strategy)`: one multiplet id in [0, k) per row of
      `data`. Strategy 2 additionally rejects a k that is not a power of two,
      checked with `k & (k - 1) != 0`; any strategy other than 1, 2 and 3 passes
      the checks and returns `None`. Every strategy uses every id. */
  function Multiplet(a: Array, k: int, strategy: int, pick: Pick,
                     cpp: TwinOracle, seqCpp: SequenceOracle): (res: Result<Option<seq<nat>>>)
    requires WellShaped(a) && TwinContract(cpp) && SequenceContract(seqCpp)
    ensures a.ndim != 2 ==> res == Err(DataNotMatrix)
    ensures a.ndim == 2 && !AllFinite(a.rows) ==> res == Err(DataNotFinite)
    ensures a.ndim == 2 && AllFinite(a.rows) && !PartCount(k, |a.rows|) ==> res == Err(FoldCountOutOfRange)
    ensures Accepted(a, k) ==> (res.Err? <==> strategy == 2 && !PowerOfTwo(k as nat))
    ensures Accepted(a, k) && res.Err? ==> res.error == NotPowerOfTwo
    ensures res.Ok? ==> Accepted(a, k)
    ensures res.Ok? ==> (res.value.None? <==> strategy != 1 && strategy != 2 && strategy != 3)
    ensures res.Ok? && res.value.Some? ==>
      |res.value.value| == |a.rows| && forall j :: 0 <= j < |a.rows| ==> res.value.value[j] < k
    ensures res.Ok? && res.value.Some? ==>
      forall l :: 0 <= l < k ==> l in res.value.value
  {
    if a.ndim != 2 then Err(DataNotMatrix)
    else if !AllFinite(a.rows) then Err(DataNotFinite)
    else if !PartCount(k, |a.rows|) then Err(FoldCountOutOfRange)
    else
      var d := DataFormat(a);
      var k := k as nat;
      if strategy == 1 then
        Ok(Some(Peeling.Strategy1(cpp, pick, k, d)))
      else if strategy == 2 then
        BitTestIsPowerOfTwo(k);
        if BitAnd(k, k - 1) != 0 then Err(NotPowerOfTwo)
        else Ok(Some(Bisection.Strategy2(cpp, pick, k, d)))
      else if strategy == 3 then
        RoundRobin.Strategy3UsesAll(seqCpp, pick, k, d);
        Ok(Some(RoundRobin.Strategy3(seqCpp, pick, k, d)))
      else
        Ok(None)
  }
}
