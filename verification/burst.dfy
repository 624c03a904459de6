/**
 * The `burst_engine` bandwidth kernel over an array of 512-bit words. In
 * write mode it stores each transfer's index into its word; in read mode it
 * sums the words into a 512-bit accumulator and stores the sum in word 0 so
 * the reads cannot be optimised away. Words are held as their raw bit
 * patterns: the signed `ap_int<512>` sum wraps exactly like the unsigned
 * one, modulo 2^512.
 */
module Burst {
  import Csr
  import opened CInt

  /** 2^512: one more than the largest 512-bit pattern. */
  const Word512: nat := 0x100000000000000000000000000000000000000000000000000000000000000000000000000000000000000000000000000000000000000000000000000000000

  /** The plain integer sum of a sequence. */
  function Sum(xs: seq<nat>): nat
    decreases |xs|
  {
    if |xs| == 0 then 0 else Sum(xs[..|xs| - 1]) + xs[|xs| - 1]
  }

  /** Whole 64-byte transfers in `size_in_bytes`; a partial word is not moved. */
  function NumTransfers(sizeInBytes: nat): (n: nat)
    ensures 64 * n <= sizeInBytes < 64 * (n + 1)
  {
    sizeInBytes / 64
  }

  /** Reducing the accumulator before each addition does not change the result modulo `m`. */
  lemma ModAdd(a: nat, b: nat, m: nat)
    requires m > 0
    ensures (a % m + b) % m == (a + b) % m
  {
    var q, c := a / m, a % m + b;
    assert a + b == (q + c / m) * m + c % m by {
      assert a == q * m + a % m;
      assert c == (c / m) * m + c % m;
      assert (q + c / m) * m == q * m + (c / m) * m;
    }
    Csr.DivModUnique(a + b, m, q + c / m, c % m);
  }

  /**
   * `burst_engine`. In read mode (`read_or_write == 1`) word 0 becomes the
   * wrapping sum of the first `num_transfers` words, 0 when there are none,
   * and nothing else changes. Otherwise word `i` becomes `i` for each
   * transfer and the words after them keep their contents.
   */
  method BurstEngine(location: seq<nat>, sizeInBytes: nat, readOrWrite: int) returns (loc: seq<nat>)
    requires sizeInBytes < Word64
    requires NumTransfers(sizeInBytes) <= |location|
    requires readOrWrite == 1 ==> |location| >= 1
    ensures |loc| == |location|
    ensures readOrWrite == 1 ==> loc == location[0 := Sum(location[..NumTransfers(sizeInBytes)]) % Word512]
    ensures readOrWrite == 1 && NumTransfers(sizeInBytes) == 0 ==> loc[0] == 0
    ensures readOrWrite != 1 ==> forall i :: 0 <= i < NumTransfers(sizeInBytes) ==> loc[i] == i
    ensures readOrWrite != 1 ==> forall i :: NumTransfers(sizeInBytes) <= i < |loc| ==> loc[i] == location[i]
  {
    var numTransfers := sizeInBytes / 64;
    loc := location;
    if readOrWrite == 1 {
      var temp := 0;
      var i := 0;
      while i < numTransfers
        invariant i <= numTransfers
        invariant temp == Sum(location[..i]) % Word512
      {
        assert location[..i + 1][..i] == location[..i];
        ModAdd(Sum(location[..i]), location[i], Word512);
        temp := (temp + location[i]) % Word512;
        i := i + 1;
      }
      loc := loc[0 := temp];
    } else {
      var i := 0;
      while i < numTransfers
        invariant i <= numTransfers && |loc| == |location|
        invariant forall j :: 0 <= j < i ==> loc[j] == j
        invariant forall j :: i <= j < |loc| ==> loc[j] == location[j]
      {
        loc := loc[i := i];
        i := i + 1;
      }
    }
  }
}
