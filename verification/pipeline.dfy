/**
 * The kernel's compute stages after the matrix loader, each FIFO a sequence
 * read from the front: `read_unit` turns one lane's nonzeros into updates
 * for one column partition, `vector_buffer_access_unit` refills the vector
 * banks and runs it once per column partition, `pe` accumulates a lane's
 * updates into its output bank and `result_drain_unit` packs the banks into
 * vector words. Values are the raw integers of `value_t`.
 */
module Pipeline {
  import opened Errors
  import opened Hbm
  import opened Loader
  import Csr

  /** Entries per vector buffer bank and per output buffer bank. */
  const VbBankSize: nat := 1024
  const ObBankSize: nat := 1024

  /** `Update`: a product headed for a row, or a token; a token carries zeros. */
  datatype Update = Update(data: int, rowIndex: nat, token: Token)

  const StartUpd: Update := Update(0, 0, StartToken)
  const NextUpd: Update := Update(0, 0, NextToken)
  const ExitUpd: Update := Update(0, 0, ExitToken)

  /** Updates and how many stream items were read to produce them. */
  type Reading = (seq<Update>, nat)

  /** Nonzeros carrying no token. */
  predicate PlainLane(nzs: seq<NonZero>) {
    forall i :: 0 <= i < |nzs| ==> nzs[i].token == NoToken
  }

  // ---------------------------------------------------------------------------
  // read_unit
  // ---------------------------------------------------------------------------

  /** A nonzero times the vector value in bank slot `(col / packSize) mod vb_bank_size`, for the same row. */
  function Product(nz: NonZero, bank: seq<int>, packSize: nat): Update
    requires packSize > 0 && |bank| == VbBankSize
  {
    Update(nz.data * bank[(nz.colIndex / packSize) % VbBankSize], nz.rowIndex, NoToken)
  }

  function Products(nzs: seq<NonZero>, bank: seq<int>, packSize: nat): (us: seq<Update>)
    requires packSize > 0 && |bank| == VbBankSize
    ensures |us| == |nzs| && forall i :: 0 <= i < |nzs| ==> us[i] == Product(nzs[i], bank, packSize)
  {
    seq(|nzs|, i requires 0 <= i < |nzs| => Product(nzs[i], bank, packSize))
  }

  /** `u` written before what the rest of the call writes, one more item read. */
  function Emit(u: Update, r: Result<Reading>): Result<Reading> {
    match r
    case Err(e) => Err(e)
    case Ok((us, n)) => Ok(([u] + us, n + 1))
  }

  /** One more item read and dropped. */
  function Skip(r: Result<Reading>): Result<Reading> {
    match r
    case Err(e) => Err(e)
    case Ok((us, n)) => Ok((us, n + 1))
  }

  /**
   * `read_unit` from state `idle`: idle, it drops everything but a start
   * token (forwarded, and it turns active) and an exit token (forwarded,
   * and the call ends); active, a next token is forwarded and ends the
   * call, and anything else is forwarded as a product for its row. Running
   * out of input blocks forever.
   */
  function ReadFrom(nzs: seq<NonZero>, idle: bool, bank: seq<int>, packSize: nat): (r: Result<Reading>)
    requires packSize > 0 && |bank| == VbBankSize
    ensures r.Err? ==> r.error == Stalled
    ensures r.Ok? ==> 0 < r.value.1 <= |nzs| && |r.value.0| > 0
    decreases |nzs|
  {
    if |nzs| == 0 then Err(Stalled)
    else
      var nz := nzs[0];
      if idle then
        if nz.token == ExitToken then Ok(([ExitUpd], 1))
        else if nz.token == StartToken then Emit(StartUpd, ReadFrom(nzs[1..], false, bank, packSize))
        else Skip(ReadFrom(nzs[1..], true, bank, packSize))
      else if nz.token == NextToken then Ok(([NextUpd], 1))
      else Emit(Product(nz, bank, packSize), ReadFrom(nzs[1..], false, bank, packSize))
  }

  /**
   * A call ends on the item it last read: an exit token, written as the
   * exit update, or a next token, written as the next update.
   */
  lemma {:induction false} ReadFromEnds(nzs: seq<NonZero>, idle: bool, bank: seq<int>, packSize: nat)
    requires packSize > 0 && |bank| == VbBankSize && ReadFrom(nzs, idle, bank, packSize).Ok?
    ensures var (us, n) := ReadFrom(nzs, idle, bank, packSize).value;
            var last := nzs[n - 1];
            || (last.token == ExitToken && us[|us| - 1] == ExitUpd)
            || (last.token == NextToken && us[|us| - 1] == NextUpd)
    decreases |nzs|
  {
    var nz := nzs[0];
    if idle && nz.token == StartToken {
      ReadFromEnds(nzs[1..], false, bank, packSize);
    } else if idle && nz.token != ExitToken {
      ReadFromEnds(nzs[1..], true, bank, packSize);
    } else if !idle && nz.token != NextToken {
      ReadFromEnds(nzs[1..], false, bank, packSize);
    }
  }

  /** One call of `read_unit`: it starts idle. */
  function ReadUnit(nzs: seq<NonZero>, bank: seq<int>, packSize: nat): Result<Reading>
    requires packSize > 0 && |bank| == VbBankSize
  {
    ReadFrom(nzs, true, bank, packSize)
  }

  /** Active, the unit forwards a frame's body as products up to and including the next token. */
  lemma {:induction false} ReadBody(body: seq<NonZero>, rest: seq<NonZero>, bank: seq<int>, packSize: nat)
    requires packSize > 0 && |bank| == VbBankSize && PlainLane(body)
    ensures ReadFrom(body + [NextNz] + rest, false, bank, packSize)
            == Ok((Products(body, bank, packSize) + [NextUpd], |body| + 1))
    decreases |body|
  {
    if |body| == 0 {
      assert (body + [NextNz] + rest)[0] == NextNz;
      assert Products(body, bank, packSize) + [NextUpd] == [NextUpd];
    } else {
      var s := body + [NextNz] + rest;
      assert s[0] == body[0] && s[1..] == body[1..] + [NextNz] + rest;
      ReadBody(body[1..], rest, bank, packSize);
      var p := Products(body, bank, packSize);
      assert p == [p[0]] + Products(body[1..], bank, packSize);
      assert ReadFrom(s, false, bank, packSize)
             == Emit(p[0], Ok((Products(body[1..], bank, packSize) + [NextUpd], |body|)));
      assert [p[0]] + (Products(body[1..], bank, packSize) + [NextUpd]) == p + [NextUpd];
    }
  }

  /**
   * A frame as the loader writes it, start token, plain nonzeros, next
   * token, is read in one call: the start token, every nonzero's product in
   * order, the next token.
   */
  lemma ReadFrame(body: seq<NonZero>, rest: seq<NonZero>, bank: seq<int>, packSize: nat)
    requires packSize > 0 && |bank| == VbBankSize && PlainLane(body)
    ensures ReadUnit([StartNz] + body + [NextNz] + rest, bank, packSize)
            == Ok(([StartUpd] + Products(body, bank, packSize) + [NextUpd], |body| + 2))
  {
    var s := [StartNz] + body + [NextNz] + rest;
    assert s[0] == StartNz && s[1..] == body + [NextNz] + rest;
    ReadBody(body, rest, bank, packSize);
    var p := Products(body, bank, packSize);
    assert [StartUpd] + (p + [NextUpd]) == [StartUpd] + p + [NextUpd];
  }

  /** Idle, the unit reads past anything that is neither a start nor an exit token. */
  lemma {:induction false} ReadSkipsIdle(junk: seq<NonZero>, rest: seq<NonZero>, bank: seq<int>, packSize: nat)
    requires packSize > 0 && |bank| == VbBankSize
    requires forall i :: 0 <= i < |junk| ==> junk[i].token != StartToken && junk[i].token != ExitToken
    ensures ReadUnit(junk + rest, bank, packSize)
            == match ReadUnit(rest, bank, packSize)
               case Err(e) => Err(e)
               case Ok((us, n)) => Ok((us, |junk| + n))
    decreases |junk|
  {
    if |junk| > 0 {
      assert (junk + rest)[1..] == junk[1..] + rest;
      ReadSkipsIdle(junk[1..], rest, bank, packSize);
    } else {
      assert junk + rest == rest;
    }
  }

  // ---------------------------------------------------------------------------
  // wirte_unit and vector_buffer_access_unit
  // ---------------------------------------------------------------------------

  /** Position `k` of row `i` when rows are `width` long. */
  function Flat(i: nat, width: nat, k: nat): nat {
    i * width + k
  }

  /** Vector words one column partition fills: `vb_bank_size / pack_size / 2`. */
  function VectorWords(packSize: nat): nat
    requires packSize > 0
  {
    VbBankSize / packSize / 2
  }

  lemma VectorWordsFit(packSize: nat)
    requires packSize > 0
    ensures VectorWords(packSize) * packSize <= VbBankSize
  {
    var n := VectorWords(packSize);
    var q := VbBankSize / packSize;
    assert n <= q;
    assert q * packSize <= VbBankSize;
    assert n * packSize <= q * packSize;
  }

  /**
   * `wirte_unit` for column partition `colPid`: bank slot `i * packSize +
   * kk` takes vector slot `kk` of word `colPid * numWords + i`; the slots
   * from `numWords * packSize` on keep what they held. A word past the end
   * of `vector_in` is an out-of-bounds read.
   */
  function WriteUnit(vectorIn: seq<Bits>, colPid: nat, prev: seq<int>, packSize: nat): (r: Result<seq<int>>)
    requires packSize > 0 && |prev| == VbBankSize && WordsWide(vectorIn, packSize)
    ensures r.Err? <==> VectorWords(packSize) > 0 && |vectorIn| < Flat(colPid, VectorWords(packSize), VectorWords(packSize))
    ensures r.Err? ==> r.error == OutOfBounds
    ensures r.Ok? ==> |r.value| == VbBankSize
    ensures r.Ok? ==> forall j :: VectorWords(packSize) * packSize <= j < VbBankSize ==> r.value[j] == prev[j]
  {
    var n := VectorWords(packSize);
    if n > 0 && |vectorIn| < Flat(colPid, n, n) then Err(OutOfBounds)
    else
      VectorWordsFit(packSize);
      Ok(seq(VbBankSize, j requires 0 <= j < VbBankSize =>
           if j < n * packSize then RefillSlot(vectorIn, colPid, n, packSize, j) else prev[j]))
  }

  /** Slot `j` of a refilled bank: vector slot `j % packSize` of word `colPid * n + j / packSize`. */
  function RefillSlot(vectorIn: seq<Bits>, colPid: nat, n: nat, packSize: nat, j: nat): (v: nat)
    requires packSize > 0 && WordsWide(vectorIn, packSize) && j < n * packSize && Flat(colPid, n, n) <= |vectorIn|
    ensures v < Word32
  {
    SlotInWord(colPid, n, packSize, j);
    AsVector(vectorIn[Flat(colPid, n, j / packSize)], j % packSize)
  }

  /** Slot `j` below `n * packSize` lies in one of the partition's `n` words. */
  lemma SlotInWord(colPid: nat, n: nat, packSize: nat, j: nat)
    requires packSize > 0 && j < n * packSize
    ensures j / packSize < n && Flat(colPid, n, j / packSize) < Flat(colPid, n, n)
    ensures 32 * (j % packSize) + 32 <= 64 * packSize
  {
    Csr.DivBelow(j, packSize, n);
  }

  /** What `wirte_unit` leaves in the bank, slot by slot as its loops write them. */
  lemma WriteUnitSlots(vectorIn: seq<Bits>, colPid: nat, prev: seq<int>, packSize: nat, i: nat, kk: nat)
    requires packSize > 0 && |prev| == VbBankSize && WordsWide(vectorIn, packSize)
    requires WriteUnit(vectorIn, colPid, prev, packSize).Ok?
    requires i < VectorWords(packSize) && kk < packSize
    ensures Flat(colPid, VectorWords(packSize), i) < |vectorIn|
    ensures Flat(i, packSize, kk) < VbBankSize
    ensures WriteUnit(vectorIn, colPid, prev, packSize).value[Flat(i, packSize, kk)]
            == AsVector(vectorIn[Flat(colPid, VectorWords(packSize), i)], kk)
  {
    var n := VectorWords(packSize);
    var j := Flat(i, packSize, kk);
    VectorWordsFit(packSize);
    Csr.DivModUnique(j, packSize, i, kk);
    assert j < n * packSize by {
      assert j < i * packSize + packSize == (i + 1) * packSize;
      Csr.MulMonotone(i + 1, n, packSize);
    }
    assert Flat(colPid, n, i) < Flat(colPid, n, n);
  }

  /** A bank per column partition: each `wirte_unit` call refills the one the previous left. */
  function Banks(vectorIn: seq<Bits>, init: seq<int>, numColParts: nat, packSize: nat): (r: Result<seq<seq<int>>>)
    requires packSize > 0 && |init| == VbBankSize && WordsWide(vectorIn, packSize)
    ensures r.Err? ==> r.error == OutOfBounds
    ensures r.Ok? ==> |r.value| == numColParts && forall i :: 0 <= i < numColParts ==> |r.value[i]| == VbBankSize
    decreases numColParts
  {
    if numColParts == 0 then Ok([])
    else
      match Banks(vectorIn, init, numColParts - 1, packSize)
      case Err(e) => Err(e)
      case Ok(banks) =>
        var prev := if numColParts == 1 then init else banks[numColParts - 2];
        match WriteUnit(vectorIn, numColParts - 1, prev, packSize)
        case Err(e) => Err(e)
        case Ok(bank) => Ok(banks + [bank])
  }

  /** Banks of the vector buffer's width. */
  predicate BanksSized(banks: seq<seq<int>>) {
    forall i :: 0 <= i < |banks| ==> |banks[i]| == VbBankSize
  }

  /** `read_unit` called once per column partition, each call reading on where the previous stopped. */
  function ReadPartitions(nzs: seq<NonZero>, banks: seq<seq<int>>, packSize: nat): (r: Result<Reading>)
    requires packSize > 0 && BanksSized(banks)
    ensures r.Err? ==> r.error == Stalled
    ensures r.Ok? ==> r.value.1 <= |nzs|
    decreases |banks|
  {
    if |banks| == 0 then Ok(([], 0))
    else
      match ReadPartitions(nzs, banks[..|banks| - 1], packSize)
      case Err(e) => Err(e)
      case Ok((us, c)) =>
        match ReadUnit(nzs[c..], banks[|banks| - 1], packSize)
        case Err(e) => Err(e)
        case Ok((vs, d)) => Ok((us + vs, c + d))
  }

  /**
   * One lane of `vector_buffer_access_unit`: the per-partition calls, then
   * one more item read (the loader's exit token) and an exit update
   * written.
   */
  function AccessLane(nzs: seq<NonZero>, banks: seq<seq<int>>, packSize: nat): (r: Result<seq<Update>>)
    requires packSize > 0 && BanksSized(banks)
    ensures r.Err? ==> r.error == Stalled
    ensures r.Ok? ==> |r.value| > 0 && r.value[|r.value| - 1] == ExitUpd
  {
    match ReadPartitions(nzs, banks, packSize)
    case Err(e) => Err(e)
    case Ok((us, c)) => if c < |nzs| then Ok(us + [ExitUpd]) else Err(Stalled)
  }

  /** Lane updates for framed bodies: per partition, start, the body's products, next. */
  function ProductFrames(bodies: seq<seq<NonZero>>, banks: seq<seq<int>>, packSize: nat): seq<Update>
    requires packSize > 0 && BanksSized(banks) && |bodies| == |banks|
    decreases |bodies|
  {
    if |bodies| == 0 then []
    else
      var n := |bodies|;
      ProductFrames(bodies[..n - 1], banks[..n - 1], packSize)
      + ([StartUpd] + Products(bodies[n - 1], banks[n - 1], packSize) + [NextUpd])
  }

  /** Bodies without tokens. */
  predicate PlainBodies(bodies: seq<seq<NonZero>>) {
    forall j :: 0 <= j < |bodies| ==> PlainLane(bodies[j])
  }

  /** One more partition: `read_unit` reads on from where the earlier calls stopped. */
  lemma ReadPartitionsSnoc(nzs: seq<NonZero>, banks: seq<seq<int>>, packSize: nat, us: seq<Update>, c: nat,
                           vs: seq<Update>, d: nat)
    requires packSize > 0 && BanksSized(banks) && |banks| > 0
    requires ReadPartitions(nzs, banks[..|banks| - 1], packSize) == Ok((us, c))
    requires c <= |nzs| && ReadUnit(nzs[c..], banks[|banks| - 1], packSize) == Ok((vs, d))
    ensures ReadPartitions(nzs, banks, packSize) == Ok((us + vs, c + d))
  {
  }

  /** One more body: its product frame follows those of the earlier ones. */
  lemma ProductFramesSnoc(bodies: seq<seq<NonZero>>, banks: seq<seq<int>>, packSize: nat)
    requires packSize > 0 && BanksSized(banks) && |bodies| == |banks| > 0
    ensures var n := |bodies|;
            ProductFrames(bodies, banks, packSize)
            == ProductFrames(bodies[..n - 1], banks[..n - 1], packSize)
               + ([StartUpd] + Products(bodies[n - 1], banks[n - 1], packSize) + [NextUpd])
  {
  }

  /** Reading one more frame, given that the earlier frames read as their product frames. */
  lemma ReadOneMoreFrame(front: seq<seq<NonZero>>, last: seq<NonZero>, rest: seq<NonZero>,
                         init: seq<seq<int>>, bank: seq<int>, packSize: nat)
    requires packSize > 0 && BanksSized(init) && |front| == |init| && PlainLane(last) && |bank| == VbBankSize
    requires ReadPartitions(Frames(front) + ([StartNz] + last + [NextNz] + rest), init, packSize)
             == Ok((ProductFrames(front, init, packSize), |Frames(front)|))
    ensures BanksSized(init + [bank])
    ensures ReadPartitions(Frames(front + [last]) + rest, init + [bank], packSize)
            == Ok((ProductFrames(front + [last], init + [bank], packSize), |Frames(front + [last])|))
  {
    var bodies, banks := front + [last], init + [bank];
    var n := |bodies|;
    assert bodies[..n - 1] == front && banks[..n - 1] == init;
    var frame := [StartNz] + last + [NextNz];
    var f := Frames(front);
    var nzs := f + (frame + rest);
    assert Frames(bodies) + rest == nzs;
    assert nzs[|f|..] == frame + rest;
    ReadFrame(last, rest, bank, packSize);
    var us := ProductFrames(front, init, packSize);
    var vs := [StartUpd] + Products(last, bank, packSize) + [NextUpd];
    ReadPartitionsSnoc(nzs, banks, packSize, us, |f|, vs, |last| + 2);
    ProductFramesSnoc(bodies, banks, packSize);
    assert |Frames(bodies)| == |f| + (|last| + 2);
    assert ReadPartitions(Frames(bodies) + rest, banks, packSize) == Ok((us + vs, |f| + (|last| + 2)));
  }

  /** The per-partition calls read exactly the frames, one per call. */
  lemma {:induction false} ReadPartitionsFrames(bodies: seq<seq<NonZero>>, rest: seq<NonZero>, banks: seq<seq<int>>,
                                                packSize: nat)
    requires packSize > 0 && BanksSized(banks) && |bodies| == |banks| && PlainBodies(bodies)
    ensures ReadPartitions(Frames(bodies) + rest, banks, packSize)
            == Ok((ProductFrames(bodies, banks, packSize), |Frames(bodies)|))
    decreases |bodies|
  {
    var n := |bodies|;
    if n == 0 {
      assert Frames(bodies) == [];
    } else {
      var front, last := bodies[..n - 1], bodies[n - 1];
      var init, bank := banks[..n - 1], banks[n - 1];
      assert bodies == front + [last] && banks == init + [bank];
      ReadPartitionsFrames(front, [StartNz] + last + [NextNz] + rest, init, packSize);
      ReadOneMoreFrame(front, last, rest, init, bank, packSize);
    }
  }

  /**
   * A lane as the loader writes it, one frame per column partition and then
   * the exit token, leaves the access unit as one product frame per
   * partition, each body's nonzeros times the partition's bank, and the
   * exit update.
   */
  lemma AccessLaneFrames(bodies: seq<seq<NonZero>>, banks: seq<seq<int>>, packSize: nat)
    requires packSize > 0 && BanksSized(banks) && |bodies| == |banks| && PlainBodies(bodies)
    ensures AccessLane(Frames(bodies) + [ExitNz], banks, packSize)
            == Ok(ProductFrames(bodies, banks, packSize) + [ExitUpd])
  {
    ReadPartitionsFrames(bodies, [ExitNz], banks, packSize);
  }

  /**
   * `vector_buffer_access_unit`: the banks refilled per column partition,
   * then every lane through them. If any lane runs dry, the unit blocks.
   */
  function VectorBufferAccessUnit(vectorIn: seq<Bits>, init: seq<int>, lanes: seq<seq<NonZero>>,
                                  numColParts: nat, packSize: nat): (r: Result<seq<seq<Update>>>)
    requires packSize > 0 && |init| == VbBankSize && WordsWide(vectorIn, packSize)
    ensures r.Ok? ==> Banks(vectorIn, init, numColParts, packSize).Ok? && |r.value| == |lanes|
    ensures r.Ok? ==> forall k :: 0 <= k < |lanes| ==>
              AccessLane(lanes[k], Banks(vectorIn, init, numColParts, packSize).value, packSize) == Ok(r.value[k])
  {
    match Banks(vectorIn, init, numColParts, packSize)
    case Err(e) => Err(e)
    case Ok(banks) =>
      if forall k :: 0 <= k < |lanes| ==> AccessLane(lanes[k], banks, packSize).Ok? then
        Ok(seq(|lanes|, k requires 0 <= k < |lanes| => AccessLane(lanes[k], banks, packSize).value))
      else Err(Stalled)
  }

  // ---------------------------------------------------------------------------
  // pe
  // ---------------------------------------------------------------------------

  /** How a processing engine picks the output slot for a row. */
  datatype BankIndex =
    /** `row_index % pack_size`, as the kernel is written. */
    | RowRemainder
    /** `row_index / pack_size`: lane `k` holds rows `k, k + pack_size, ...` one per slot. */
    | RowQuotient

  function BankSlot(ix: BankIndex, row: nat, packSize: nat): nat
    requires packSize > 0
  {
    match ix
    case RowRemainder => row % packSize
    case RowQuotient => row / packSize
  }

  /**
   * `pe` from bank contents `bank`: start and next tokens are ignored, an
   * exit token ends the call, and every other update adds its data into its
   * row's slot. A slot past the bank is an out-of-bounds write; running out
   * of input blocks.
   */
  function PeFrom(uds: seq<Update>, bank: seq<int>, packSize: nat, ix: BankIndex): (r: Result<seq<int>>)
    requires packSize > 0
    ensures r.Ok? ==> |r.value| == |bank|
    ensures r.Err? ==> r.error == Stalled || r.error == OutOfBounds
    decreases |uds|
  {
    if |uds| == 0 then Err(Stalled)
    else
      var u := uds[0];
      if u.token == ExitToken then Ok(bank)
      else if u.token == StartToken || u.token == NextToken then PeFrom(uds[1..], bank, packSize, ix)
      else
        var s := BankSlot(ix, u.rowIndex, packSize);
        if s < |bank| then PeFrom(uds[1..], bank[s := bank[s] + u.data], packSize, ix)
        else Err(OutOfBounds)
  }

  /** The reset output bank: all `ob_bank_size` slots zero. */
  function ZeroBank(): (b: seq<int>)
    ensures |b| == ObBankSize && forall q :: 0 <= q < ObBankSize ==> b[q] == 0
  {
    seq(ObBankSize, q => 0)
  }

  /** `pe` as written: it resets its bank and indexes it by `row_index % pack_size`. */
  function PeAsWritten(uds: seq<Update>, packSize: nat): Result<seq<int>>
    requires packSize > 0
  {
    PeFrom(uds, ZeroBank(), packSize, RowRemainder)
  }

  /** `pe` with the slot `row_index / pack_size` that the lane's row layout calls for. */
  function Pe(uds: seq<Update>, packSize: nat): Result<seq<int>>
    requires packSize > 0
  {
    PeFrom(uds, ZeroBank(), packSize, RowQuotient)
  }

  /** What the data updates of `uds` add to slot `q`. */
  function Contribution(uds: seq<Update>, packSize: nat, ix: BankIndex, q: nat): int
    requires packSize > 0
    decreases |uds|
  {
    if |uds| == 0 then 0
    else
      (if uds[0].token == NoToken && BankSlot(ix, uds[0].rowIndex, packSize) == q then uds[0].data else 0)
      + Contribution(uds[1..], packSize, ix, q)
  }

  /** The sum of the data updates of `uds` for row `row`. */
  function RowTotal(uds: seq<Update>, row: nat): int
    decreases |uds|
  {
    if |uds| == 0 then 0
    else (if uds[0].token == NoToken && uds[0].rowIndex == row then uds[0].data else 0) + RowTotal(uds[1..], row)
  }

  /** Updates holding no exit token. */
  predicate NoExit(uds: seq<Update>) {
    forall i :: 0 <= i < |uds| ==> uds[i].token != ExitToken
  }

  /** Every data update's slot lies in a bank of `size` slots. */
  predicate SlotsIn(uds: seq<Update>, packSize: nat, ix: BankIndex, size: nat)
    requires packSize > 0
  {
    forall i :: 0 <= i < |uds| && uds[i].token == NoToken ==> BankSlot(ix, uds[i].rowIndex, packSize) < size
  }

  /**
   * Up to the exit token, `pe` adds to every slot exactly the data of the
   * updates whose row maps to it.
   */
  lemma {:induction false} PeAccumulates(body: seq<Update>, rest: seq<Update>, bank: seq<int>, packSize: nat,
                                         ix: BankIndex)
    requires packSize > 0 && NoExit(body) && SlotsIn(body, packSize, ix, |bank|)
    ensures PeFrom(body + [ExitUpd] + rest, bank, packSize, ix)
            == Ok(seq(|bank|, q requires 0 <= q < |bank| => bank[q] + Contribution(body, packSize, ix, q)))
    decreases |body|
  {
    var s := body + [ExitUpd] + rest;
    var want := seq(|bank|, q requires 0 <= q < |bank| => bank[q] + Contribution(body, packSize, ix, q));
    if |body| == 0 {
      assert s[0] == ExitUpd;
      assert want == bank;
    } else {
      var u := body[0];
      assert s[0] == u && s[1..] == body[1..] + [ExitUpd] + rest;
      var next := if u.token == NoToken then bank[BankSlot(ix, u.rowIndex, packSize) := bank[BankSlot(ix, u.rowIndex, packSize)] + u.data]
                  else bank;
      assert SlotsIn(body[1..], packSize, ix, |next|) by {
        forall i | 0 <= i < |body[1..]| && body[1..][i].token == NoToken
          ensures BankSlot(ix, body[1..][i].rowIndex, packSize) < |next|
        {
          assert body[1..][i] == body[i + 1];
        }
      }
      assert NoExit(body[1..]) by {
        forall i | 0 <= i < |body[1..]| ensures body[1..][i].token != ExitToken {
          assert body[1..][i] == body[i + 1];
        }
      }
      PeAccumulates(body[1..], rest, next, packSize, ix);
      assert PeFrom(s, bank, packSize, ix) == PeFrom(s[1..], next, packSize, ix);
      var got := seq(|next|, q requires 0 <= q < |next| => next[q] + Contribution(body[1..], packSize, ix, q));
      forall q | 0 <= q < |bank|
        ensures got[q] == want[q]
      {
      }
      assert got == want;
    }
  }

  /** A lane's updates up to its exit token leave every slot holding the updates that map to it. */
  lemma PeLane(body: seq<Update>, rest: seq<Update>, packSize: nat, ix: BankIndex)
    requires packSize > 0 && NoExit(body) && SlotsIn(body, packSize, ix, ObBankSize)
    ensures PeFrom(body + [ExitUpd] + rest, ZeroBank(), packSize, ix)
            == Ok(seq(ObBankSize, q requires 0 <= q < ObBankSize => Contribution(body, packSize, ix, q)))
  {
    PeAccumulates(body, rest, ZeroBank(), packSize, ix);
    var got := seq(ObBankSize, q requires 0 <= q < ObBankSize => ZeroBank()[q] + Contribution(body, packSize, ix, q));
    assert got == seq(ObBankSize, q requires 0 <= q < ObBankSize => Contribution(body, packSize, ix, q));
  }

  /** Lane `k`'s updates: every data update is for a row `k + packSize * q`. */
  predicate LaneRows(uds: seq<Update>, packSize: nat, k: nat)
    requires packSize > 0
  {
    forall i :: 0 <= i < |uds| && uds[i].token == NoToken ==> uds[i].rowIndex % packSize == k
  }

  /** The sum of every data update's data. */
  function DataTotal(uds: seq<Update>): int
    decreases |uds|
  {
    if |uds| == 0 then 0
    else (if uds[0].token == NoToken then uds[0].data else 0) + DataTotal(uds[1..])
  }

  lemma LaneRowsTail(uds: seq<Update>, packSize: nat, k: nat)
    requires packSize > 0 && |uds| > 0 && LaneRows(uds, packSize, k)
    ensures LaneRows(uds[1..], packSize, k)
  {
    forall i | 0 <= i < |uds[1..]| && uds[1..][i].token == NoToken
      ensures uds[1..][i].rowIndex % packSize == k
    {
      assert uds[1..][i] == uds[i + 1];
    }
  }

  /**
   * With slot `row / packSize`, slot `q` of lane `k` collects exactly row
   * `q * packSize + k`: one row per slot.
   */
  lemma {:induction false} QuotientSlotHoldsRow(uds: seq<Update>, packSize: nat, k: nat, q: nat)
    requires packSize > 0 && k < packSize && LaneRows(uds, packSize, k)
    ensures Contribution(uds, packSize, RowQuotient, q) == RowTotal(uds, q * packSize + k)
    decreases |uds|
  {
    if |uds| > 0 {
      LaneRowsTail(uds, packSize, k);
      QuotientSlotHoldsRow(uds[1..], packSize, k, q);
      var u := uds[0];
      if u.token == NoToken {
        var row := u.rowIndex;
        assert row % packSize == k;
        assert row == (row / packSize) * packSize + k;
        if row / packSize == q {
          assert row == q * packSize + k;
        } else if row == q * packSize + k {
          Csr.DivModUnique(row, packSize, q, k);
          assert false;
        }
      }
    }
  }

  /**
   * With slot `row % packSize`, as written, everything lane `k` computes
   * piles into slot `k` and every other slot stays zero.
   */
  lemma {:induction false} RemainderSlotsMerge(uds: seq<Update>, packSize: nat, k: nat, q: nat)
    requires packSize > 0 && k < packSize && LaneRows(uds, packSize, k)
    ensures Contribution(uds, packSize, RowRemainder, q) == if q == k then DataTotal(uds) else 0
    decreases |uds|
  {
    if |uds| > 0 {
      LaneRowsTail(uds, packSize, k);
      RemainderSlotsMerge(uds[1..], packSize, k, q);
    }
  }

  /** Two updates of lane 0, for rows 0 and 8 of a pack of 8, then the exit token. */
  function CollidingRows(): seq<Update> {
    [Update(1, 0, NoToken), Update(2, 8, NoToken), ExitUpd]
  }

  /**
   * The as-written engine adds rows 0 and 8 into the same slot, where the
   * intended one keeps them apart in slots 0 and 1.
   */
  lemma PeAsWrittenMergesRows()
    ensures PeAsWritten(CollidingRows(), 8).Ok? && Pe(CollidingRows(), 8).Ok?
    ensures PeAsWritten(CollidingRows(), 8).value[0] == 3 && PeAsWritten(CollidingRows(), 8).value[1] == 0
    ensures Pe(CollidingRows(), 8).value[0] == 1 && Pe(CollidingRows(), 8).value[1] == 2
  {
    var body := [Update(1, 0, NoToken), Update(2, 8, NoToken)];
    assert CollidingRows() == body + [ExitUpd] + [];
    assert body[1..] == [Update(2, 8, NoToken)];
    assert body[1..][1..] == [];
    PeLane(body, [], 8, RowRemainder);
    PeLane(body, [], 8, RowQuotient);
  }

  /**
   * The intended engine on lane `k`: up to the exit token, slot `q` holds
   * the total of row `q * packSize + k`.
   */
  lemma PeHoldsRows(body: seq<Update>, rest: seq<Update>, packSize: nat, k: nat)
    requires packSize > 0 && k < packSize && NoExit(body) && LaneRows(body, packSize, k)
    requires SlotsIn(body, packSize, RowQuotient, ObBankSize)
    ensures var r := Pe(body + [ExitUpd] + rest, packSize);
            && r.Ok? && |r.value| == ObBankSize
            && forall q :: 0 <= q < ObBankSize ==> r.value[q] == RowTotal(body, q * packSize + k)
  {
    PeLane(body, rest, packSize, RowQuotient);
    forall q | 0 <= q < ObBankSize
      ensures Contribution(body, packSize, RowQuotient, q) == RowTotal(body, q * packSize + k)
    {
      QuotientSlotHoldsRow(body, packSize, k, q);
    }
  }
}
