/** Conventions of C's integer types shared by the host code and the kernels. */
module CInt {
  /** 2^64: the range of `uint64_t`. */
  const Word64: nat := 0x1_0000_0000_0000_0000

  /** Iterations of `for (int i = 0; i < n; i++)`: none for a negative `n`. */
  function Count(n: int): (c: nat)
    ensures c == 0 <==> n <= 0
    ensures n >= 0 ==> c == n
  {
    if n < 0 then 0 else n
  }
}
