/**
 * The `spmv` kernel end to end: the matrix loader fills `packSize` lanes,
 * the vector buffer access unit turns them into updates, one processing
 * engine per lane accumulates its updates into an output bank, and the
 * result drain packs the banks into vector words. The stages run as a
 * dataflow region in hardware; here each consumes the previous one's
 * complete output, which the FIFOs make equivalent.
 */
module Kernel {
  import opened Errors
  import opened Hbm
  import opened Loader
  import opened Pipeline
  import opened Drain
  import Csr

  /** `pe` on every lane, each into a fresh output bank; the first failing engine's error otherwise. */
  function Engines(updates: seq<seq<Update>>, packSize: nat, ix: BankIndex): (r: Result<seq<seq<int>>>)
    requires packSize > 0
    ensures r.Ok? <==> forall k :: 0 <= k < |updates| ==> PeFrom(updates[k], ZeroBank(), packSize, ix).Ok?
    ensures r.Ok? ==> |r.value| == |updates|
    ensures r.Ok? ==> forall k :: 0 <= k < |updates| ==> PeFrom(updates[k], ZeroBank(), packSize, ix) == Ok(r.value[k])
    decreases |updates|
  {
    if |updates| == 0 then Ok([])
    else
      assert forall k :: 0 < k < |updates| ==> updates[1..][k - 1] == updates[k];
      match PeFrom(updates[0], ZeroBank(), packSize, ix)
      case Err(e) => Err(e)
      case Ok(bank) =>
        match Engines(updates[1..], packSize, ix)
        case Err(e) => Err(e)
        case Ok(banks) => Ok([bank] + banks)
  }

  /** The stages between the loader and the drain: the output banks the engines leave. */
  function Compute(lanes: seq<seq<NonZero>>, vectorIn: seq<Bits>, init: seq<int>, numColParts: nat,
                   packSize: nat, ix: BankIndex): (r: Result<seq<seq<int>>>)
    requires packSize > 0 && |init| == VbBankSize && WordsWide(vectorIn, packSize)
    ensures r.Ok? ==> |r.value| == |lanes| && forall k :: 0 <= k < |lanes| ==> |r.value[k]| == ObBankSize
  {
    match VectorBufferAccessUnit(vectorIn, init, lanes, numColParts, packSize)
    case Err(e) => Err(e)
    case Ok(updates) => Engines(updates, packSize, ix)
  }

  /** The drain's reads stay inside the output banks. */
  predicate DrainInBounds(numElements: nat, packSize: nat)
    requires packSize > 0
  {
    2 * DrainWords(numElements, packSize) <= ObBankSize
  }

  /**
   * `spmv` as written: the engines index their banks by `row_index %
   * pack_size` and the drain writes both values of a pair to the same lane.
   * `init` is what the vector buffer holds before the first refill and
   * `blank` what a drained word holds before its lanes are set; the kernel
   * initialises neither. A drain reading past the output banks is an
   * out-of-bounds read.
   */
  function SpmvAsWritten(matrix: seq<Bits>, vectorIn: seq<Bits>, rowPid: nat, numElements: nat, numColParts: nat,
                         totalParts: nat, init: seq<int>, blank: seq<nat>, packSize: nat): (r: Result<seq<seq<nat>>>)
    requires packSize > 0 && WordsWide(matrix, packSize) && WordsWide(vectorIn, packSize)
    requires |init| == VbBankSize && |blank| == 2 * packSize
    ensures r.Ok? ==> DrainInBounds(numElements, packSize) && |r.value| == DrainWords(numElements, packSize)
  {
    match MatrixLoader(matrix, rowPid, numColParts, totalParts, packSize)
    case Err(e) => Err(e)
    case Ok(lanes) =>
      match Compute(lanes, vectorIn, init, numColParts, packSize, RowRemainder)
      case Err(e) => Err(e)
      case Ok(ob) =>
        if DrainInBounds(numElements, packSize) then
          Ok(ResultDrainAsWritten(ob, DrainWords(numElements, packSize), blank, packSize))
        else Err(OutOfBounds)
  }

  /** `spmv` with the engines indexing by `row_index / pack_size` and the drain filling both halves of a word. */
  function Spmv(matrix: seq<Bits>, vectorIn: seq<Bits>, rowPid: nat, numElements: nat, numColParts: nat,
                totalParts: nat, init: seq<int>, blank: seq<nat>, packSize: nat): (r: Result<seq<seq<nat>>>)
    requires packSize > 0 && WordsWide(matrix, packSize) && WordsWide(vectorIn, packSize)
    requires |init| == VbBankSize && |blank| == 2 * packSize
    ensures r.Ok? ==> DrainInBounds(numElements, packSize) && |r.value| == DrainWords(numElements, packSize)
  {
    match MatrixLoader(matrix, rowPid, numColParts, totalParts, packSize)
    case Err(e) => Err(e)
    case Ok(lanes) =>
      match Compute(lanes, vectorIn, init, numColParts, packSize, RowQuotient)
      case Err(e) => Err(e)
      case Ok(ob) =>
        if DrainInBounds(numElements, packSize) then
          Ok(ResultDrain(ob, DrainWords(numElements, packSize), blank, packSize))
        else Err(OutOfBounds)
  }

  // ---------------------------------------------------------------------------
  // What the corrected kernel computes
  // ---------------------------------------------------------------------------

  /** Lane `k`'s partition bodies: plain nonzeros of rows `k, k + packSize, ...` that fit an output bank. */
  predicate LaneBodies(bodies: seq<seq<NonZero>>, packSize: nat, k: nat)
    requires packSize > 0
  {
    forall j, x :: 0 <= j < |bodies| && 0 <= x < |bodies[j]| ==>
      && bodies[j][x].token == NoToken
      && bodies[j][x].rowIndex % packSize == k
      && bodies[j][x].rowIndex / packSize < ObBankSize
  }

  /** Product frames carry no exit, only lane `k`'s rows, and rows that fit an output bank. */
  lemma {:induction false} ProductFramesShape(bodies: seq<seq<NonZero>>, banks: seq<seq<int>>, packSize: nat, k: nat)
    requires packSize > 0 && BanksSized(banks) && |bodies| == |banks| && LaneBodies(bodies, packSize, k)
    ensures var us := ProductFrames(bodies, banks, packSize);
            NoExit(us) && LaneRows(us, packSize, k) && SlotsIn(us, packSize, RowQuotient, ObBankSize)
    decreases |bodies|
  {
    var n := |bodies|;
    if n > 0 {
      var front := bodies[..n - 1];
      assert LaneBodies(front, packSize, k) by {
        forall j, x | 0 <= j < |front| && 0 <= x < |front[j]|
          ensures front[j][x] == bodies[j][x]
        {
        }
      }
      ProductFramesShape(front, banks[..n - 1], packSize, k);
      var us := ProductFrames(bodies, banks, packSize);
      var a := ProductFrames(front, banks[..n - 1], packSize);
      var ps := Products(bodies[n - 1], banks[n - 1], packSize);
      assert us == a + ([StartUpd] + ps + [NextUpd]);
      forall x | 0 <= x < |us|
        ensures us[x].token != ExitToken
        ensures us[x].token == NoToken ==> us[x].rowIndex % packSize == k && us[x].rowIndex / packSize < ObBankSize
      {
        if x >= |a| + 1 && x < |a| + 1 + |ps| {
          assert us[x] == ps[x - |a| - 1];
        }
      }
    }
  }

  /** The row of lane `s` of word `i`, words being `2 * packSize` rows wide. */
  function WordRow(i: nat, s: nat, packSize: nat): nat {
    i * (2 * packSize) + s
  }

  /** A word's lane `s` and lane `s + packSize` are rows of bank `s`, in slots `2i` and `2i + 1`. */
  lemma WordRowSlots(i: nat, s: nat, packSize: nat)
    requires packSize > 0 && s < 2 * packSize
    ensures s < packSize ==> WordRow(i, s, packSize) == (2 * i) * packSize + s
    ensures s >= packSize ==> WordRow(i, s, packSize) == (2 * i + 1) * packSize + (s - packSize)
    ensures s % packSize == if s < packSize then s else s - packSize
  {
    var r := WordRow(i, s, packSize);
    assert i * (2 * packSize) == (2 * i) * packSize;
    if s < packSize {
      Csr.DivModUnique(r, packSize, 2 * i, s);
      Csr.DivModUnique(s, packSize, 0, s);
    } else {
      var j := 2 * i + 1;
      assert j * packSize == (2 * i) * packSize + packSize;
      Csr.DivModUnique(r, packSize, j, s - packSize);
      Csr.DivModUnique(s, packSize, 1, s - packSize);
    }
  }

  /** Lanes whose updates up to their exit token are `bodies[k]`, each carrying lane `k`'s rows only. */
  predicate LaneUpdates(updates: seq<seq<Update>>, bodies: seq<seq<Update>>, packSize: nat)
    requires packSize > 0
  {
    && |updates| == packSize && |bodies| == packSize
    && forall k :: 0 <= k < packSize ==>
         && |bodies[k]| < |updates[k]| && updates[k][..|bodies[k]| + 1] == bodies[k] + [ExitUpd]
         && NoExit(bodies[k]) && LaneRows(bodies[k], packSize, k)
         && SlotsIn(bodies[k], packSize, RowQuotient, ObBankSize)
  }

  /** The corrected engines leave slot `q` of bank `k` holding the total of row `q * packSize + k`. */
  lemma EnginesHoldRows(updates: seq<seq<Update>>, bodies: seq<seq<Update>>, packSize: nat)
    requires packSize > 0 && LaneUpdates(updates, bodies, packSize)
    ensures var e := Engines(updates, packSize, RowQuotient);
            && e.Ok? && |e.value| == packSize
            && (forall k :: 0 <= k < packSize ==> |e.value[k]| == ObBankSize)
            && (forall k, q :: 0 <= k < packSize && 0 <= q < ObBankSize ==>
                  e.value[k][q] == RowTotal(bodies[k], q * packSize + k))
  {
    forall k | 0 <= k < packSize
      ensures var r := Pe(updates[k], packSize);
              && r.Ok? && |r.value| == ObBankSize
              && forall q :: 0 <= q < ObBankSize ==> r.value[q] == RowTotal(bodies[k], q * packSize + k)
    {
      var n := |bodies[k]| + 1;
      assert updates[k] == bodies[k] + [ExitUpd] + updates[k][n..];
      PeHoldsRows(bodies[k], updates[k][n..], packSize, k);
    }
    var e := Engines(updates, packSize, RowQuotient);
    assert e.Ok?;
    forall k, q | 0 <= k < packSize && 0 <= q < ObBankSize
      ensures e.value[k][q] == RowTotal(bodies[k], q * packSize + k)
    {
      assert Pe(updates[k], packSize) == Ok(e.value[k]);
    }
  }

  /**
   * Banks whose slot `q` of bank `k` holds row `q * packSize + k`'s total
   * drain, corrected, to words whose lane `s` of word `i` holds row
   * `2 * packSize * i + s`'s total.
   */
  lemma DrainHoldsRows(ob: seq<seq<int>>, bodies: seq<seq<Update>>, packSize: nat, numWords: nat, blank: seq<nat>,
                       i: nat, s: nat)
    requires DrainFits(ob, numWords, blank, packSize) && |bodies| == packSize
    requires forall k, q :: 0 <= k < packSize && 0 <= q < 2 * numWords ==> ob[k][q] == RowTotal(bodies[k], q * packSize + k)
    requires i < numWords && s < 2 * packSize
    ensures ResultDrain(ob, numWords, blank, packSize)[i][s]
            == RowTotal(bodies[s % packSize], WordRow(i, s, packSize)) % Word32
  {
    DrainRows(ob, numWords, blank, packSize, i, s);
    WordRowSlots(i, s, packSize);
    var k := s % packSize;
    if s < packSize {
      assert ob[k][2 * i] == RowTotal(bodies[k], (2 * i) * packSize + k);
    } else {
      assert ob[k][2 * i + 1] == RowTotal(bodies[k], (2 * i + 1) * packSize + k);
    }
  }

  /**
   * The corrected engines and drain: given lanes whose updates up to their
   * exit token are `bodies[k]`, for rows of lane `k` only, lane `s` of
   * drained word `i` holds the total of the updates for row
   * `2 * packSize * i + s`, modulo `2^32`.
   */
  lemma EnginesDrainRows(updates: seq<seq<Update>>, bodies: seq<seq<Update>>, packSize: nat, numWords: nat,
                         blank: seq<nat>, i: nat, s: nat)
    requires packSize > 0 && LaneUpdates(updates, bodies, packSize) && |blank| == 2 * packSize
    requires 2 * numWords <= ObBankSize && i < numWords && s < 2 * packSize
    ensures var e := Engines(updates, packSize, RowQuotient);
            && e.Ok? && DrainFits(e.value, numWords, blank, packSize)
            && ResultDrain(e.value, numWords, blank, packSize)[i][s]
               == RowTotal(bodies[s % packSize], WordRow(i, s, packSize)) % Word32
  {
    EnginesHoldRows(updates, bodies, packSize);
    var ob := Engines(updates, packSize, RowQuotient).value;
    DrainHoldsRows(ob, bodies, packSize, numWords, blank, i, s);
  }

  /** Each lane's product frames against the partitions' banks. */
  function LaneFrames(bodies: seq<seq<seq<NonZero>>>, banks: seq<seq<int>>, packSize: nat): (frames: seq<seq<Update>>)
    requires packSize > 0 && BanksSized(banks) && forall k :: 0 <= k < |bodies| ==> |bodies[k]| == |banks|
    ensures |frames| == |bodies|
    ensures forall k :: 0 <= k < |bodies| ==> frames[k] == ProductFrames(bodies[k], banks, packSize)
  {
    seq(|bodies|, k requires 0 <= k < |bodies| => ProductFrames(bodies[k], banks, packSize))
  }

  /**
   * On loaded lanes whose bodies carry lane `k`'s rows, the access unit
   * hands each engine its product frames and then the exit token.
   */
  lemma AccessUnitFrames(bodies: seq<seq<seq<NonZero>>>, vectorIn: seq<Bits>, init: seq<int>, numColParts: nat,
                         packSize: nat)
    requires packSize > 0 && |init| == VbBankSize && WordsWide(vectorIn, packSize)
    requires Banks(vectorIn, init, numColParts, packSize).Ok?
    requires |bodies| == packSize
    requires forall k :: 0 <= k < packSize ==> |bodies[k]| == numColParts && LaneBodies(bodies[k], packSize, k)
    ensures var banks := Banks(vectorIn, init, numColParts, packSize).value;
            var v := VectorBufferAccessUnit(vectorIn, init, LoadedLanes(bodies), numColParts, packSize);
            v.Ok? && LaneUpdates(v.value, LaneFrames(bodies, banks, packSize), packSize)
  {
    var banks := Banks(vectorIn, init, numColParts, packSize).value;
    var lanes := LoadedLanes(bodies);
    var frames := LaneFrames(bodies, banks, packSize);
    forall k | 0 <= k < packSize
      ensures AccessLane(lanes[k], banks, packSize) == Ok(frames[k] + [ExitUpd])
      ensures NoExit(frames[k]) && LaneRows(frames[k], packSize, k)
              && SlotsIn(frames[k], packSize, RowQuotient, ObBankSize)
    {
      assert PlainBodies(bodies[k]);
      AccessLaneFrames(bodies[k], banks, packSize);
      ProductFramesShape(bodies[k], banks, packSize, k);
    }
    var v := VectorBufferAccessUnit(vectorIn, init, lanes, numColParts, packSize);
    assert v.Ok?;
    forall k | 0 <= k < packSize
      ensures |frames[k]| < |v.value[k]| && v.value[k][..|frames[k]| + 1] == frames[k] + [ExitUpd]
    {
      assert AccessLane(lanes[k], banks, packSize) == Ok(v.value[k]);
    }
  }

  /**
   * The corrected kernel on loaded lanes: when lane `k` holds one frame per
   * column partition with bodies of lane `k`'s rows, and the vector banks
   * fill, lane `s` of drained word `i` is the sum, over that row's
   * nonzeros in every partition, of each value times the vector value its
   * column selects, modulo `2^32`.
   */
  lemma ComputeRows(bodies: seq<seq<seq<NonZero>>>, vectorIn: seq<Bits>, init: seq<int>, numColParts: nat,
                    packSize: nat, numWords: nat, blank: seq<nat>, i: nat, s: nat)
    requires packSize > 0 && |init| == VbBankSize && WordsWide(vectorIn, packSize) && |blank| == 2 * packSize
    requires Banks(vectorIn, init, numColParts, packSize).Ok?
    requires |bodies| == packSize
    requires forall k :: 0 <= k < packSize ==> |bodies[k]| == numColParts && LaneBodies(bodies[k], packSize, k)
    requires 2 * numWords <= ObBankSize && i < numWords && s < 2 * packSize
    ensures var c := Compute(LoadedLanes(bodies), vectorIn, init, numColParts, packSize, RowQuotient);
            && c.Ok? && DrainFits(c.value, numWords, blank, packSize)
            && ResultDrain(c.value, numWords, blank, packSize)[i][s]
               == RowTotal(ProductFrames(bodies[s % packSize], Banks(vectorIn, init, numColParts, packSize).value,
                                         packSize),
                           WordRow(i, s, packSize)) % Word32
  {
    var banks := Banks(vectorIn, init, numColParts, packSize).value;
    var frames := LaneFrames(bodies, banks, packSize);
    AccessUnitFrames(bodies, vectorIn, init, numColParts, packSize);
    var v := VectorBufferAccessUnit(vectorIn, init, LoadedLanes(bodies), numColParts, packSize);
    EnginesDrainRows(v.value, frames, packSize, numWords, blank, i, s);
    assert frames[s % packSize] == ProductFrames(bodies[s % packSize], banks, packSize);
  }

  /**
   * The corrected `spmv`, whenever its loader yields one frame per column
   * partition with bodies of lane `k`'s rows and the vector banks fill:
   * it succeeds, and lane `s` of output word `i` is the sum, over row
   * `2 * packSize * i + s`'s nonzeros in every partition, of each value
   * times the vector value its column selects, modulo `2^32`.
   */
  lemma SpmvRows(matrix: seq<Bits>, vectorIn: seq<Bits>, rowPid: nat, numElements: nat, numColParts: nat,
                 totalParts: nat, init: seq<int>, blank: seq<nat>, packSize: nat,
                 bodies: seq<seq<seq<NonZero>>>, i: nat, s: nat)
    requires packSize > 0 && WordsWide(matrix, packSize) && WordsWide(vectorIn, packSize)
    requires |init| == VbBankSize && |blank| == 2 * packSize
    requires MatrixLoader(matrix, rowPid, numColParts, totalParts, packSize) == Ok(LoadedLanes(bodies))
    requires Banks(vectorIn, init, numColParts, packSize).Ok?
    requires |bodies| == packSize
    requires forall k :: 0 <= k < packSize ==> |bodies[k]| == numColParts && LaneBodies(bodies[k], packSize, k)
    requires DrainInBounds(numElements, packSize) && i < DrainWords(numElements, packSize) && s < 2 * packSize
    ensures var r := Spmv(matrix, vectorIn, rowPid, numElements, numColParts, totalParts, init, blank, packSize);
            && r.Ok? && |r.value| == DrainWords(numElements, packSize)
            && r.value[i][s]
               == RowTotal(ProductFrames(bodies[s % packSize], Banks(vectorIn, init, numColParts, packSize).value,
                                         packSize),
                           WordRow(i, s, packSize)) % Word32
  {
    ComputeRows(bodies, vectorIn, init, numColParts, packSize, DrainWords(numElements, packSize), blank, i, s);
  }
}
