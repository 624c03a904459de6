/**
 * HBM words as the kernel sees them (`intepret_hbm_word`): a word is a bit
 * vector, least significant bit first. A channel word packs `pack_size`
 * packets of 64 bits, the column index in the low 32 bits and the value in
 * the high 32; a table word holds the start offset in bits [0, 32) and the
 * length of stream `k` where packet `k`'s index would be; a vector word holds
 * 32-bit values side by side.
 */
module Hbm {
  import opened Csr
  import opened Streams

  /** A word, bit 0 first. */
  type Bits = seq<bool>

  function Pow2(n: nat): (p: nat)
    ensures p > 0
  {
    if n == 0 then 1 else 2 * Pow2(n - 1)
  }

  /** `2^32`: the modulus of `index_t` and of every 32-bit field. */
  const Word32: nat := 0x1_0000_0000

  lemma {:induction false} Pow2Add(a: nat, b: nat)
    ensures Pow2(a + b) == Pow2(a) * Pow2(b)
    decreases b
  {
    if b > 0 {
      Pow2Add(a, b - 1);
      assert Pow2(a + b) == 2 * Pow2(a + (b - 1));
      assert Pow2(a) * Pow2(b) == Pow2(a) * (2 * Pow2(b - 1)) == 2 * (Pow2(a) * Pow2(b - 1));
    }
  }

  lemma Pow2Of32()
    ensures Pow2(32) == Word32
  {
    assert Pow2(4) == 16;
    Pow2Add(4, 4);
    Pow2Add(8, 8);
    Pow2Add(16, 16);
  }

  /** The number a bit vector spells, least significant bit first. */
  function FromBits(b: Bits): (v: nat)
    ensures v < Pow2(|b|)
    decreases |b|
  {
    if |b| == 0 then 0 else (if b[0] then 1 else 0) + 2 * FromBits(b[1..])
  }

  /** The low `n` bits of `v`, least significant first. */
  function ToBits(v: nat, n: nat): (b: Bits)
    ensures |b| == n
    decreases n
  {
    if n == 0 then [] else [v % 2 == 1] + ToBits(v / 2, n - 1)
  }

  lemma ModDouble(v: nat, p: nat)
    requires p > 0
    ensures v % (2 * p) == v % 2 + 2 * ((v / 2) % p)
  {
    var h := v / 2;
    var q := h / p;
    var r := h % p;
    assert v == 2 * h + v % 2;
    assert h == q * p + r;
    assert q * (2 * p) == 2 * (q * p);
    assert v == q * (2 * p) + (2 * r + v % 2);
    DivModUnique(v, 2 * p, q, 2 * r + v % 2);
  }

  /** Writing `n` bits and reading them back gives `v` modulo `2^n`. */
  lemma {:induction false} FromToBits(v: nat, n: nat)
    ensures FromBits(ToBits(v, n)) == v % Pow2(n)
    decreases n
  {
    if n > 0 {
      FromToBits(v / 2, n - 1);
      var b := ToBits(v, n);
      assert b[1..] == ToBits(v / 2, n - 1);
      ModDouble(v, Pow2(n - 1));
    }
  }

  /** Reducing a value already below the modulus changes nothing. */
  lemma SmallMod(v: int, d: nat)
    requires 0 <= v < d
    ensures v % d == v
  {
    DivModUnique(v, d, 0, v);
  }

  /** A value below `2^n` is read back exactly from its `n` bits. */
  lemma FromToBitsExact(v: nat, n: nat)
    requires v < Pow2(n)
    ensures FromBits(ToBits(v, n)) == v
  {
    FromToBits(v, n);
    DivModUnique(v, Pow2(n), 0, v);
  }

  /** Reading bits and writing them back at the same width gives the same bits. */
  lemma {:induction false} ToFromBits(b: Bits)
    ensures ToBits(FromBits(b), |b|) == b
    decreases |b|
  {
    if |b| > 0 {
      ToFromBits(b[1..]);
      var v := FromBits(b);
      var bit := if b[0] then 1 else 0;
      assert v == bit + 2 * FromBits(b[1..]);
      assert v % 2 == bit && v / 2 == FromBits(b[1..]);
      assert ToBits(v, |b|) == [b[0]] + b[1..];
    }
  }

  /** A 32-bit field starting at bit `lo`: `word(lo + 31, lo)`. */
  function Field(w: Bits, lo: nat): (v: nat)
    requires lo + 32 <= |w|
    ensures v < Word32
  {
    Pow2Of32();
    FromBits(w[lo..lo + 32])
  }

  /** `as_metadata_start`: bits [0, 32). */
  function AsMetadataStart(w: Bits): (v: nat)
    requires 32 <= |w|
    ensures v < Word32
  {
    Field(w, 0)
  }

  /** `as_data_index`: bits [64k, 64k + 32). */
  function AsDataIndex(w: Bits, k: nat): (v: nat)
    requires 64 * k + 32 <= |w|
    ensures v < Word32
  {
    Field(w, 64 * k)
  }

  /**
   * `as_metadata_length`: lane `k`'s length lives where a data word keeps
   * packet `k`'s index, bits [64k, 64k + 32).
   */
  function AsMetadataLength(w: Bits, k: nat): (v: nat)
    requires 64 * k + 32 <= |w|
    ensures v < Word32
  {
    AsDataIndex(w, k)
  }

  /** `as_data_value`: bits [64k + 32, 64k + 64), as a raw 32-bit pattern. */
  function AsDataValue(w: Bits, k: nat): (v: nat)
    requires 64 * k + 64 <= |w|
    ensures v < Word32
  {
    Field(w, 64 * k + 32)
  }

  /** `as_vector`: bits [32k, 32k + 32). */
  function AsVector(w: Bits, k: nat): (v: nat)
    requires 32 * k + 32 <= |w|
    ensures v < Word32
  {
    Field(w, 32 * k)
  }

  /** A field is determined by the 32 bits it covers. */
  lemma FieldOf(w: Bits, lo: nat, b: Bits)
    requires lo + 32 <= |w| && |b| == 32
    requires forall x :: 0 <= x < 32 ==> w[lo + x] == b[x]
    ensures Field(w, lo) == FromBits(b)
  {
    assert w[lo..lo + 32] == b;
  }

  /** `w` with bits [lo, lo + |bits|) replaced by `bits`. */
  function Splice(w: Bits, lo: nat, bits: Bits): (r: Bits)
    requires lo + |bits| <= |w|
    ensures |r| == |w|
    ensures forall x :: 0 <= x < |bits| ==> r[lo + x] == bits[x]
    ensures forall x :: 0 <= x < |w| && (x < lo || lo + |bits| <= x) ==> r[x] == w[x]
  {
    w[..lo] + bits + w[lo + |bits|..]
  }

  /** The field a splice wrote reads back as the spliced bits. */
  lemma SplicedField(w: Bits, lo: nat, bits: Bits)
    requires lo + 32 <= |w| && |bits| == 32
    ensures Field(Splice(w, lo, bits), lo) == FromBits(bits)
  {
    FieldOf(Splice(w, lo, bits), lo, bits);
  }

  /** A field clear of the spliced bits is untouched. */
  lemma SplicedOtherField(w: Bits, lo: nat, bits: Bits, other: nat)
    requires lo + 32 <= |w| && |bits| == 32 && other + 32 <= |w|
    requires other + 32 <= lo || lo + 32 <= other
    ensures Field(Splice(w, lo, bits), other) == Field(w, other)
  {
    FieldOf(Splice(w, lo, bits), other, w[other..other + 32]);
  }

  /**
   * `set_vector`: overwrite bits [32k, 32k + 32) with the low 32 bits of `v`
   * (its two's complement when negative). Reading slot `k` back gives `v`
   * modulo `2^32`; every other slot, and the word's width, are unchanged.
   */
  function SetVector(w: Bits, k: nat, v: int): (r: Bits)
    requires 32 * k + 32 <= |w|
    ensures |r| == |w|
    ensures AsVector(r, k) == v % Word32
    ensures forall j :: 0 <= j && 32 * j + 32 <= |w| && j != k ==> AsVector(r, j) == AsVector(w, j)
  {
    var bits := ToBits(v % Word32, 32);
    SplicedField(w, 32 * k, bits);
    Pow2Of32();
    FromToBitsExact(v % Word32, 32);
    forall j | 0 <= j && 32 * j + 32 <= |w| && j != k
      ensures Field(Splice(w, 32 * k, bits), 32 * j) == Field(w, 32 * j)
    {
      SlotsDisjoint(j, k);
      SplicedOtherField(w, 32 * k, bits, 32 * j);
    }
    Splice(w, 32 * k, bits)
  }

  /** A word read as its 32-bit lanes, lane `k` being `as_vector(w, k)`. */
  function Lanes(w: Bits): (ls: seq<nat>)
    ensures |ls| == |w| / 32
    ensures forall k :: 0 <= k < |ls| ==> ls[k] == AsVector(w, k)
  {
    seq(|w| / 32, k requires 0 <= k < |w| / 32 => AsVector(w, k))
  }

  /** `set_vector` is an update of one lane. */
  lemma SetVectorLanes(w: Bits, k: nat, v: int)
    requires 32 * k + 32 <= |w|
    ensures Lanes(SetVector(w, k, v)) == Lanes(w)[k := v % Word32]
  {
  }

  /** A second `set_vector` of the same slot leaves no trace of the first. */
  lemma SetVectorOverwrites(w: Bits, k: nat, a: int, b: int)
    requires 32 * k + 32 <= |w|
    ensures SetVector(SetVector(w, k, a), k, b) == SetVector(w, k, b)
  {
    var lo := 32 * k;
    var x := SetVector(SetVector(w, k, a), k, b);
    var y := SetVector(w, k, b);
    var bits := ToBits(b % Word32, 32);
    assert x == Splice(SetVector(w, k, a), lo, bits);
    assert y == Splice(w, lo, bits);
    forall i | 0 <= i < |w|
      ensures x[i] == y[i]
    {
      if lo <= i < lo + 32 {
        assert x[lo + (i - lo)] == bits[i - lo];
      }
    }
  }

  lemma SlotsDisjoint(j: nat, k: nat)
    requires j != k
    ensures 32 * j + 32 <= 32 * k || 32 * k + 32 <= 32 * j
  {
  }

  // ---------------------------------------------------------------------------
  // The memory image of a channel word
  // ---------------------------------------------------------------------------

  /**
   * A packet in memory: the index in the low 32 bits, the value's 32-bit
   * two's complement in the high 32.
   */
  function PacketBits(p: Packet): (b: Bits)
    ensures |b| == 64
  {
    ToBits(p.index % Word32, 32) + ToBits(p.value % Word32, 32)
  }

  /** Bit vectors laid side by side, the first lowest. */
  function Concat(parts: seq<Bits>): Bits
    decreases |parts|
  {
    if |parts| == 0 then [] else Concat(parts[..|parts| - 1]) + parts[|parts| - 1]
  }

  /** Parts of width 64 each: part `k` occupies bits [64k, 64k + 64). */
  lemma {:induction false} ConcatAt(parts: seq<Bits>, k: nat, x: nat)
    requires forall i :: 0 <= i < |parts| ==> |parts[i]| == 64
    requires k < |parts| && x < 64
    ensures |Concat(parts)| == 64 * |parts|
    ensures Concat(parts)[64 * k + x] == parts[k][x]
    decreases |parts|
  {
    var n := |parts|;
    var front := parts[..n - 1];
    if k < n - 1 {
      ConcatAt(front, k, x);
    } else {
      ConcatLength(front);
    }
  }

  lemma {:induction false} ConcatLength(parts: seq<Bits>)
    requires forall i :: 0 <= i < |parts| ==> |parts[i]| == 64
    ensures |Concat(parts)| == 64 * |parts|
    decreases |parts|
  {
    if |parts| > 0 {
      ConcatLength(parts[..|parts| - 1]);
    }
  }

  /** A channel word in memory: its packets side by side, packet 0 lowest. */
  function WordBits(ps: seq<Packet>): (b: Bits)
    ensures |b| == 64 * |ps|
  {
    var parts := seq(|ps|, k requires 0 <= k < |ps| => PacketBits(ps[k]));
    ConcatLength(parts);
    Concat(parts)
  }

  /** Bit `x` of packet `k` is bit `i == 64k + x` of the word. */
  lemma WordBitsAt(ps: seq<Packet>, k: nat, x: nat, i: nat)
    requires k < |ps| && x < 64 && i == 64 * k + x
    ensures i < |WordBits(ps)|
    ensures WordBits(ps)[i] == PacketBits(ps[k])[x]
  {
    var parts := seq(|ps|, k requires 0 <= k < |ps| => PacketBits(ps[k]));
    ConcatAt(parts, k, x);
  }

  /** Parts of width 64 each: part `k` is the slice [64k, 64k + 64). */
  lemma {:induction false} ConcatSlice(parts: seq<Bits>, k: nat)
    requires forall i :: 0 <= i < |parts| ==> |parts[i]| == 64
    requires k < |parts|
    ensures |Concat(parts)| == 64 * |parts|
    ensures Concat(parts)[64 * k..64 * k + 64] == parts[k]
    decreases |parts|
  {
    var n := |parts|;
    var front := parts[..n - 1];
    ConcatLength(front);
    var all := Concat(parts);
    assert all == Concat(front) + parts[n - 1];
    if k < n - 1 {
      ConcatSlice(front, k);
      assert all[64 * k..64 * k + 64] == Concat(front)[64 * k..64 * k + 64];
    } else {
      assert all[64 * k..64 * k + 64] == parts[n - 1];
    }
  }

  /** Packet `k`'s image occupies bits [64k, 64k + 64) of the word. */
  lemma WordBitsSlot(ps: seq<Packet>, k: nat)
    requires k < |ps|
    ensures 64 * k + 64 <= |WordBits(ps)|
    ensures WordBits(ps)[64 * k..64 * k + 64] == PacketBits(ps[k])
  {
    var parts := seq(|ps|, k requires 0 <= k < |ps| => PacketBits(ps[k]));
    ConcatSlice(parts, k);
  }

  /** A 64-bit slot spelling `x` then `y` holds `x` in its low field and `y` in its high field. */
  lemma FieldsOfSlot(w: Bits, b: nat, x: Bits, y: Bits)
    requires b + 64 <= |w| && |x| == 32 && |y| == 32 && w[b..b + 64] == x + y
    ensures Field(w, b) == FromBits(x) && Field(w, b + 32) == FromBits(y)
  {
    assert w[b..b + 32] == (x + y)[..32] == x;
    assert w[b + 32..b + 64] == (x + y)[32..] == y;
  }

  /** The low field of slot `k` holds the bits the host wrote for packet `k`'s index. */
  lemma IndexBits(ps: seq<Packet>, k: nat)
    requires k < |ps|
    ensures 64 * k + 64 <= |WordBits(ps)|
    ensures Field(WordBits(ps), 64 * k) == FromBits(ToBits(ps[k].index % Word32, 32))
  {
    WordBitsSlot(ps, k);
    FieldsOfSlot(WordBits(ps), 64 * k, ToBits(ps[k].index % Word32, 32), ToBits(ps[k].value % Word32, 32));
  }

  /** The high field of slot `k` holds the bits the host wrote for packet `k`'s value. */
  lemma ValueBits(ps: seq<Packet>, k: nat)
    requires k < |ps|
    ensures 64 * k + 64 <= |WordBits(ps)|
    ensures Field(WordBits(ps), 64 * k + 32) == FromBits(ToBits(ps[k].value % Word32, 32))
  {
    WordBitsSlot(ps, k);
    FieldsOfSlot(WordBits(ps), 64 * k, ToBits(ps[k].index % Word32, 32), ToBits(ps[k].value % Word32, 32));
  }

  /**
   * The kernel's accessors read back what the host wrote: the index and the
   * value of packet `k`, each modulo `2^32`.
   */
  lemma PacketFields(ps: seq<Packet>, k: nat)
    requires k < |ps|
    ensures 64 * k + 64 <= |WordBits(ps)|
    ensures AsDataIndex(WordBits(ps), k) == ps[k].index % Word32
    ensures AsMetadataLength(WordBits(ps), k) == ps[k].index % Word32
    ensures AsDataValue(WordBits(ps), k) == ps[k].value % Word32
  {
    IndexBits(ps, k);
    ValueBits(ps, k);
    Pow2Of32();
    FromToBitsExact(ps[k].index % Word32, 32);
    FromToBitsExact(ps[k].value % Word32, 32);
  }

  /** The start offset a table word's packet 0 carries is read back modulo `2^32`. */
  lemma StartField(ps: seq<Packet>)
    requires 0 < |ps|
    ensures 32 <= |WordBits(ps)|
    ensures AsMetadataStart(WordBits(ps)) == ps[0].index % Word32
  {
    PacketFields(ps, 0);
  }

  /** The packet the kernel sees in slot `k` of a word: index and raw value. */
  function ParsePacket(w: Bits, k: nat): (p: Packet)
    requires 64 * k + 64 <= |w|
    ensures p.index < Word32 && 0 <= p.value < Word32
  {
    Packet(AsDataIndex(w, k), AsDataValue(w, k))
  }

  /** The packets of a word as the kernel sees them. */
  function ParseWord(w: Bits, packSize: nat): (ps: seq<Packet>)
    requires 64 * packSize <= |w|
    ensures |ps| == packSize
  {
    seq(packSize, k requires 0 <= k < packSize => ParsePacket(w, k))
  }

  /** A packet both fields of which fit 32 bits unsigned survives the round trip through memory. */
  predicate Fits32(p: Packet) {
    p.index < Word32 && 0 <= p.value < Word32
  }

  /** Parsing a word the host wrote gives back its packets, when every field fits 32 bits. */
  lemma ParseWordBits(ps: seq<Packet>)
    requires forall k :: 0 <= k < |ps| ==> Fits32(ps[k])
    ensures ParseWord(WordBits(ps), |ps|) == ps
  {
    forall k | 0 <= k < |ps|
      ensures ParseWord(WordBits(ps), |ps|)[k] == ps[k]
    {
      PacketFields(ps, k);
      SmallMod(ps[k].index, Word32);
      SmallMod(ps[k].value, Word32);
    }
  }

  /** Writing back the packets the kernel parsed reproduces the word. */
  lemma WordBitsParse(w: Bits, packSize: nat)
    requires |w| == 64 * packSize
    ensures WordBits(ParseWord(w, packSize)) == w
  {
    var ps := ParseWord(w, packSize);
    var image := WordBits(ps);
    forall x | 0 <= x < |w|
      ensures image[x] == w[x]
    {
      var k := x / 64;
      var y := x % 64;
      DivModUnique(x, 64, k, y);
      WordBitsAt(ps, k, y, x);
      PacketBitsParse(w, k, y);
    }
  }

  /** The image of the packet parsed from slot `k` is the slot's 64 bits. */
  lemma ParsedPacketBits(w: Bits, k: nat)
    requires 64 * k + 64 <= |w|
    ensures PacketBits(ParsePacket(w, k)) == w[64 * k..64 * k + 64]
  {
    var low := w[64 * k..64 * k + 32];
    var high := w[64 * k + 32..64 * k + 64];
    assert ParsePacket(w, k) == Packet(FromBits(low), FromBits(high));
    PacketImage(low, high);
    SliceSplit(w, 64 * k, 32, 64);
  }

  /** The packet spelled by two 32-bit halves has those halves as its image. */
  lemma PacketImage(low: Bits, high: Bits)
    requires |low| == 32 && |high| == 32
    ensures PacketBits(Packet(FromBits(low), FromBits(high))) == low + high
  {
    SameBitsBack(low);
    SameBitsBack(high);
  }

  /** A slice is its two halves joined. */
  lemma SliceSplit(w: Bits, lo: nat, mid: nat, n: nat)
    requires mid <= n && lo + n <= |w|
    ensures w[lo..lo + n] == w[lo..lo + mid] + w[lo + mid..lo + n]
  {
  }

  /** Bit `y` of the image of the packet parsed from slot `k` is bit `64k + y` of the word. */
  lemma PacketBitsParse(w: Bits, k: nat, y: nat)
    requires 64 * k + 64 <= |w| && y < 64
    ensures PacketBits(ParsePacket(w, k))[y] == w[64 * k + y]
  {
    var b := 64 * k;
    var slot := w[b..b + 64];
    assert slot[y] == w[b + y];
    ParsedPacketBits(w, k);
  }

  /** A 32-bit field written back at width 32 reproduces its bits. */
  lemma SameBitsBack(b: Bits)
    requires |b| == 32
    ensures ToBits(FromBits(b) % Word32, 32) == b
  {
    Pow2Of32();
    SmallMod(FromBits(b), Word32);
    ToFromBits(b);
  }
}
