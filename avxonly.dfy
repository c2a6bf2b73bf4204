/** The program that runs only the 4-lane VEX-encoded AVX kernel on one buffer of VectorSize ints. */
module AvxOnly {
  import opened Wraparound
  import opened Lanes

  /** Number of ints in the buffer; a whole number of 4-lane strides. */
  const VectorSize: Int32 := 800000000

  /** VPXOR, then VMOVDQU and VPADDD on XMM registers per stride of 4, then the sum of the 4 lanes. */
  method SumAvx(a: array<Int32>) returns (r: Int32)
    requires a.Length >= VectorSize
    ensures r == KernelSum(a[..VectorSize], 4)
    ensures r == Wrap(Sum(a[..VectorSize]))
  {
    r := Reduce(a, VectorSize, 4);
  }
}
