/**
 * The `vvadd` stream kernel: two loaders push the input arrays into FIFOs,
 * an adder pops one item from each and pushes their sum, and a writer pops
 * the sums into the output array. A FIFO is a sequence whose front is read
 * first; `size` is a C `int`, so a negative size moves nothing. Reading an
 * array past its end is an `OutOfBounds` error, reading an empty FIFO is
 * `Stalled` (it blocks forever).
 */
module Vvadd {
  import opened Errors
  import opened CInt

  /** `load_input`: pushes `in[0 .. size)` onto the back of the stream, in index order. */
  method LoadInput(input: seq<int>, stream: seq<int>, size: int) returns (r: Result<seq<int>>)
    ensures r.Err? <==> Count(size) > |input|
    ensures r.Err? ==> r.error == OutOfBounds
    ensures r.Ok? ==> r.value == stream + input[..Count(size)]
  {
    var s := stream;
    var i := 0;
    while i < size
      invariant 0 <= i <= Count(size) && i <= |input|
      invariant s == stream + input[..i]
    {
      if i >= |input| {
        return Err(OutOfBounds);
      }
      assert input[..i + 1] == input[..i] + [input[i]];
      s := s + [input[i]];
      i := i + 1;
    }
    return Ok(s);
  }

  /** The three FIFOs of the kernel: the two inputs and the sums. */
  datatype Fifos = Fifos(in1: seq<int>, in2: seq<int>, sums: seq<int>)

  /**
   * `compute_add`: pops `size` items from each input FIFO and pushes their
   * pairwise sums, in order, onto the sum FIFO.
   */
  method ComputeAdd(f: Fifos, size: int) returns (r: Result<Fifos>)
    ensures r.Err? <==> Count(size) > |f.in1| || Count(size) > |f.in2|
    ensures r.Err? ==> r.error == Stalled
    ensures r.Ok? ==> r.value.in1 == f.in1[Count(size)..] && r.value.in2 == f.in2[Count(size)..]
    ensures r.Ok? ==> |r.value.sums| == |f.sums| + Count(size) && r.value.sums[..|f.sums|] == f.sums
    ensures r.Ok? ==> forall i :: 0 <= i < Count(size) ==> r.value.sums[|f.sums| + i] == f.in1[i] + f.in2[i]
  {
    var in1, in2, sums := f.in1, f.in2, f.sums;
    ghost var added: seq<int> := [];
    var i := 0;
    while i < size
      invariant 0 <= i <= Count(size) && i <= |f.in1| && i <= |f.in2|
      invariant in1 == f.in1[i..] && in2 == f.in2[i..]
      invariant sums == f.sums + added && |added| == i
      invariant forall j :: 0 <= j < i ==> added[j] == f.in1[j] + f.in2[j]
    {
      if |in1| == 0 || |in2| == 0 {
        return Err(Stalled);
      }
      var a, b := in1[0], in2[0];
      assert a == f.in1[i] && b == f.in2[i];
      in1, in2 := in1[1..], in2[1..];
      added := added + [a + b];
      sums := sums + [a + b];
      i := i + 1;
    }
    assert sums[..|f.sums|] == f.sums;
    var g := Fifos(in1, in2, sums);
    return Ok(g);
  }

  /**
   * `store_result`: pops `size` items from the FIFO into `out[0 .. size)`;
   * the rest of `out` is untouched. Each iteration reads the FIFO before it
   * writes the array.
   */
  method StoreResult(out: seq<int>, stream: seq<int>, size: int) returns (r: Result<(seq<int>, seq<int>)>)
    ensures r.Err? <==> Count(size) > |stream| || Count(size) > |out|
    ensures r.Err? ==> r.error == (if |stream| <= |out| then Stalled else OutOfBounds)
    ensures r.Ok? ==> |r.value.0| == |out| && r.value.1 == stream[Count(size)..]
    ensures r.Ok? ==> forall i :: 0 <= i < Count(size) ==> r.value.0[i] == stream[i]
    ensures r.Ok? ==> forall i :: Count(size) <= i < |out| ==> r.value.0[i] == out[i]
  {
    var o, s := out, stream;
    var i := 0;
    while i < size
      invariant 0 <= i <= Count(size) && i <= |stream| && i <= |out|
      invariant |o| == |out| && s == stream[i..]
      invariant forall j :: 0 <= j < i ==> o[j] == stream[j]
      invariant forall j :: i <= j < |out| ==> o[j] == out[j]
    {
      if |s| == 0 {
        return Err(Stalled);
      }
      if i >= |o| {
        return Err(OutOfBounds);
      }
      o := o[i := s[0]];
      s := s[1..];
      i := i + 1;
    }
    return Ok((o, s));
  }

  /** No FIFO holds anything: the kernel's static FIFOs before the first call. */
  predicate Drained(f: Fifos) {
    f.in1 == [] && f.in2 == [] && f.sums == []
  }

  /**
   * `vvadd`: both loads, the adder and the writer in program order. From
   * drained FIFOs it succeeds exactly when all three arrays hold `size`
   * items; then `out[i] == in1[i] + in2[i]` below `size`, `out` is
   * untouched above, and the FIFOs are drained again for the next call.
   */
  method Vvadd(in1: seq<int>, in2: seq<int>, out: seq<int>, size: int, f: Fifos)
    returns (r: Result<(seq<int>, Fifos)>)
    requires Drained(f)
    ensures r.Ok? <==> Count(size) <= |in1| && Count(size) <= |in2| && Count(size) <= |out|
    ensures r.Ok? ==> Drained(r.value.1) && |r.value.0| == |out|
    ensures r.Ok? ==> forall i :: 0 <= i < Count(size) ==> r.value.0[i] == in1[i] + in2[i]
    ensures r.Ok? ==> forall i :: Count(size) <= i < |out| ==> r.value.0[i] == out[i]
  {
    var n := Count(size);
    var a := LoadInput(in1, f.in1, size);
    if a.Err? {
      return Err(a.error);
    }
    var b := LoadInput(in2, f.in2, size);
    if b.Err? {
      return Err(b.error);
    }
    var added := ComputeAdd(Fifos(a.value, b.value, f.sums), size);
    assert added.Ok?;
    var g := added.value;
    var stored := StoreResult(out, g.sums, size);
    if stored.Err? {
      return Err(stored.error);
    }
    forall i | 0 <= i < n
      ensures stored.value.0[i] == in1[i] + in2[i]
    {
      assert a.value[i] == in1[i] && b.value[i] == in2[i];
    }
    return Ok((stored.value.0, Fifos(g.in1, g.in2, stored.value.1)));
  }
}
