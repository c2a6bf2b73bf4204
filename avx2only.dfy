/** The program that runs only the 8-lane AVX2 kernel on one buffer of VectorSize ints. */
module Avx2Only {
  import opened Wraparound
  import opened Lanes

  /** Number of ints in the buffer; a whole number of 8-lane strides. */
  const VectorSize: Int32 := 800000000

  /** VPXOR, then VMOVDQU and VPADDD on YMM registers per stride of 8, then the sum of the 8 lanes. */
  method SumAvx2(a: array<Int32>) returns (r: Int32)
    requires a.Length >= VectorSize
    ensures r == KernelSum(a[..VectorSize], 8)
    ensures r == Wrap(Sum(a[..VectorSize]))
  {
    r := Reduce(a, VectorSize, 8);
  }
}
