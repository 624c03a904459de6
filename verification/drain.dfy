/**
 * The kernel's result drain. Bank `k` of `pack_size` output banks holds,
 * in slot `q`, the result for row `q * pack_size + k`; the drain packs two
 * bank slots per bank into each 512-bit vector word of `2 * pack_size`
 * 32-bit lanes and writes the words out in order. A word is modelled as its
 * lanes: `Hbm.SetVectorLanes` shows `set_vector` is an update of one lane.
 */
module Drain {
  import opened Hbm

  /**
   * What bank `k` contributes to one word: `lo[k]` and `hi[k]` are its
   * slots `2 * i` and `2 * i + 1`; `blank` is the word before any write
   * (the kernel's local word is not initialised).
   */
  predicate PairShaped(lo: seq<int>, hi: seq<int>, blank: seq<nat>, packSize: nat) {
    packSize > 0 && |blank| == 2 * packSize && |lo| == packSize && |hi| == packSize
  }

  /**
   * A vector word as `result_drain_unit` writes it, after the first `n`
   * iterations of its inner loop over banks `k`: lane `k` is set to `lo[k]`
   * and then again to `hi[k]`.
   */
  function DrainWordAsWritten(lo: seq<int>, hi: seq<int>, blank: seq<nat>, packSize: nat, n: nat): (w: seq<nat>)
    requires PairShaped(lo, hi, blank, packSize) && n <= packSize
    ensures |w| == |blank|
    decreases n
  {
    if n == 0 then blank
    else
      var k := n - 1;
      DrainWordAsWritten(lo, hi, blank, packSize, k)[k := lo[k] % Word32][k := hi[k] % Word32]
  }

  /**
   * The drained word with `hi[k]` in lane `k + packSize`, where the vector
   * layout keeps row `(2 * i + 1) * packSize + k`.
   */
  function DrainWord(lo: seq<int>, hi: seq<int>, blank: seq<nat>, packSize: nat, n: nat): (w: seq<nat>)
    requires PairShaped(lo, hi, blank, packSize) && n <= packSize
    ensures |w| == |blank|
    decreases n
  {
    if n == 0 then blank
    else
      var k := n - 1;
      DrainWord(lo, hi, blank, packSize, k)[k := lo[k] % Word32][k + packSize := hi[k] % Word32]
  }

  /**
   * As written, lane `k < n` ends up with `hi[k]`, `lo[k]` is lost, and the
   * upper lanes keep whatever the word held.
   */
  lemma {:induction false} DrainWordAsWrittenSlots(lo: seq<int>, hi: seq<int>, blank: seq<nat>, packSize: nat, n: nat)
    requires PairShaped(lo, hi, blank, packSize) && n <= packSize
    ensures forall s :: 0 <= s < 2 * packSize ==>
              DrainWordAsWritten(lo, hi, blank, packSize, n)[s]
              == if s < n then hi[s] % Word32 else blank[s]
    decreases n
  {
    if n > 0 {
      DrainWordAsWrittenSlots(lo, hi, blank, packSize, n - 1);
    }
  }

  /**
   * Corrected, lane `k < n` holds `lo[k]` and lane `k + packSize` holds
   * `hi[k]`; lanes not yet reached keep whatever the word held.
   */
  lemma {:induction false} DrainWordSlots(lo: seq<int>, hi: seq<int>, blank: seq<nat>, packSize: nat, n: nat)
    requires PairShaped(lo, hi, blank, packSize) && n <= packSize
    ensures forall s :: 0 <= s < 2 * packSize ==>
              DrainWord(lo, hi, blank, packSize, n)[s]
              == if s < n then lo[s] % Word32
                 else if packSize <= s < packSize + n then hi[s - packSize] % Word32
                 else blank[s]
    decreases n
  {
    if n > 0 {
      DrainWordSlots(lo, hi, blank, packSize, n - 1);
    }
  }

  /**
   * The first write of each lane is dead: as written, the drained word does
   * not depend on the banks' even slots at all.
   */
  lemma {:induction false} DrainAsWrittenIgnoresEven(lo: seq<int>, lo2: seq<int>, hi: seq<int>, blank: seq<nat>,
                                                     packSize: nat, n: nat)
    requires PairShaped(lo, hi, blank, packSize) && PairShaped(lo2, hi, blank, packSize) && n <= packSize
    ensures DrainWordAsWritten(lo, hi, blank, packSize, n) == DrainWordAsWritten(lo2, hi, blank, packSize, n)
    decreases n
  {
    if n > 0 {
      DrainAsWrittenIgnoresEven(lo, lo2, hi, blank, packSize, n - 1);
    }
  }

  /** Vector words the drain writes for `numElements` rows: `num_elements / pack_size / 2`. */
  function DrainWords(numElements: nat, packSize: nat): (n: nat)
    requires packSize > 0
    ensures 2 * packSize * n <= numElements < 2 * packSize * (n + 1)
  {
    WordsBound(numElements, packSize);
    numElements / packSize / 2
  }

  /** `e / p / 2` whole words of `2 * p` lanes fit in `e`, and one more would not. */
  lemma WordsBound(e: nat, p: nat)
    requires p > 0
    ensures 2 * p * (e / p / 2) <= e < 2 * p * (e / p / 2 + 1)
  {
    var q, r := e / p, e % p;
    var n, b := q / 2, q % 2;
    assert e == q * p + r && r < p;
    assert q == 2 * n + b && b <= 1;
    var w := 2 * p * n;
    assert q * p == (2 * n + b) * p == w + b * p;
    assert b * p <= p;
    assert 2 * p * (n + 1) == w + 2 * p;
  }

  /** `packSize` output banks deep enough for the `numWords` words the drain reads. */
  predicate DrainFits(ob: seq<seq<int>>, numWords: nat, blank: seq<nat>, packSize: nat) {
    && packSize > 0 && |blank| == 2 * packSize && |ob| == packSize
    && forall k :: 0 <= k < packSize ==> 2 * numWords <= |ob[k]|
  }

  /** Slot `j` of every bank. */
  function Slots(ob: seq<seq<int>>, j: nat): (vs: seq<int>)
    requires forall k :: 0 <= k < |ob| ==> j < |ob[k]|
    ensures |vs| == |ob| && forall k :: 0 <= k < |ob| ==> vs[k] == ob[k][j]
  {
    seq(|ob|, k requires 0 <= k < |ob| => ob[k][j])
  }

  /**
   * `result_drain_unit` as written: the `numWords` words it writes to
   * `vector_out`, in order.
   */
  function ResultDrainAsWritten(ob: seq<seq<int>>, numWords: nat, blank: seq<nat>, packSize: nat)
    : (out: seq<seq<nat>>)
    requires DrainFits(ob, numWords, blank, packSize)
    ensures |out| == numWords
    ensures forall i :: 0 <= i < numWords ==> |out[i]| == 2 * packSize
  {
    seq(numWords, i requires 0 <= i < numWords =>
      DrainWordAsWritten(Slots(ob, 2 * i), Slots(ob, 2 * i + 1), blank, packSize, packSize))
  }

  /** `result_drain_unit` with the second value of each pair in its own lane. */
  function ResultDrain(ob: seq<seq<int>>, numWords: nat, blank: seq<nat>, packSize: nat): (out: seq<seq<nat>>)
    requires DrainFits(ob, numWords, blank, packSize)
    ensures |out| == numWords
    ensures forall i :: 0 <= i < numWords ==> |out[i]| == 2 * packSize
  {
    seq(numWords, i requires 0 <= i < numWords =>
      DrainWord(Slots(ob, 2 * i), Slots(ob, 2 * i + 1), blank, packSize, packSize))
  }

  /**
   * As written, lane `s < packSize` of word `i` is bank `s`'s slot
   * `2 * i + 1`, and the upper lanes are whatever the word held.
   */
  lemma DrainRowsAsWritten(ob: seq<seq<int>>, numWords: nat, blank: seq<nat>, packSize: nat, i: nat, s: nat)
    requires DrainFits(ob, numWords, blank, packSize)
    requires i < numWords && s < 2 * packSize
    ensures ResultDrainAsWritten(ob, numWords, blank, packSize)[i][s]
            == if s < packSize then ob[s][2 * i + 1] % Word32 else blank[s]
  {
    DrainWordAsWrittenSlots(Slots(ob, 2 * i), Slots(ob, 2 * i + 1), blank, packSize, packSize);
  }

  /**
   * Corrected, lane `s` of word `i` holds bank `s`'s slot `2 * i` when
   * `s < packSize`, and bank `s - packSize`'s slot `2 * i + 1` otherwise:
   * vector row `2 * packSize * i + s` gets bank row `r / packSize` of bank
   * `r % packSize` (`Csr.RowOfSlot`).
   */
  lemma DrainRows(ob: seq<seq<int>>, numWords: nat, blank: seq<nat>, packSize: nat, i: nat, s: nat)
    requires DrainFits(ob, numWords, blank, packSize)
    requires i < numWords && s < 2 * packSize
    ensures ResultDrain(ob, numWords, blank, packSize)[i][s]
            == if s < packSize then ob[s][2 * i] % Word32 else ob[s - packSize][2 * i + 1] % Word32
  {
    DrainWordSlots(Slots(ob, 2 * i), Slots(ob, 2 * i + 1), blank, packSize, packSize);
  }

  /**
   * One bank with slots `[5, 7]`: as written the drain emits lane values
   * `[7, 0]` into a zero word, losing row 0; corrected it emits `[5, 7]`.
   */
  lemma DrainAsWrittenLosesRows()
    ensures ResultDrainAsWritten([[5, 7]], 1, [0, 0], 1) == [[7, 0]]
    ensures ResultDrain([[5, 7]], 1, [0, 0], 1) == [[5, 7]]
  {
    var ob := [[5, 7]];
    var asWritten := ResultDrainAsWritten(ob, 1, [0, 0], 1);
    var corrected := ResultDrain(ob, 1, [0, 0], 1);
    DrainRowsAsWritten(ob, 1, [0, 0], 1, 0, 0);
    DrainRowsAsWritten(ob, 1, [0, 0], 1, 0, 1);
    DrainRows(ob, 1, [0, 0], 1, 0, 0);
    DrainRows(ob, 1, [0, 0], 1, 0, 1);
    assert asWritten[0] == [7, 0];
    assert corrected[0] == [5, 7];
  }
}
