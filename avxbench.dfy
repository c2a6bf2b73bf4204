/**
 * The benchmark program: three kernels that sum one shared buffer of
 * VectorSize ints (4-lane SSE2, 4-lane VEX-encoded AVX, 8-lane AVX2), run one
 * after another on the same contents in each of NumRuns runs.
 */
module AvxBench {
  import opened Wraparound
  import opened Lanes

  /** Number of ints in the buffer; a whole number of strides for 4 and for 8 lanes. */
  const VectorSize: Int32 := 800000000

  /** Number of benchmark runs. */
  const NumRuns: nat := 10

  /** PXOR, then MOVDQU and PADDD on XMM registers per stride of 4, then the sum of the 4 lanes. */
  method SumSse2(a: array<Int32>) returns (r: Int32)
    requires a.Length >= VectorSize
    ensures r == KernelSum(a[..VectorSize], 4)
    ensures r == Wrap(Sum(a[..VectorSize]))
  {
    r := Reduce(a, VectorSize, 4);
  }

  /** VPXOR, then VMOVDQU and VPADDD on XMM registers per stride of 4, then the sum of the 4 lanes. */
  method SumAvx(a: array<Int32>) returns (r: Int32)
    requires a.Length >= VectorSize
    ensures r == KernelSum(a[..VectorSize], 4)
    ensures r == Wrap(Sum(a[..VectorSize]))
  {
    r := Reduce(a, VectorSize, 4);
  }

  /** VPXOR, then VMOVDQU and VPADDD on YMM registers per stride of 8, then the sum of the 8 lanes. */
  method SumAvx2(a: array<Int32>) returns (r: Int32)
    requires a.Length >= VectorSize
    ensures r == KernelSum(a[..VectorSize], 8)
    ensures r == Wrap(Sum(a[..VectorSize]))
  {
    r := Reduce(a, VectorSize, 8);
  }

  /**
   * The kernels read only the first VectorSize ints: a buffer of 2^31 copies
   * of 2 (whose full sum is 2^32) is summed as its first 800,000,000 ints,
   * giving 1,600,000,000; a VectorSize buffer of copies of 2^21, whose sum
   * 390625 * 2^32 is a multiple of 2^32, wraps to 0 at either width.
   */
  lemma KernelSumWrapsToZero(a: seq<Int32>, b: seq<Int32>, w: nat)
    requires IsLaneWidth(w)
    requires |a| == 0x8000_0000 && forall i :: 0 <= i < |a| ==> a[i] == 2
    requires |b| == VectorSize as int && forall i :: 0 <= i < |b| ==> b[i] == 0x20_0000
    ensures KernelSum(a[..VectorSize], w) == 1600000000
    ensures KernelSum(b, w) == 0
  {
    ConstantSum(a[..VectorSize], 2);
    WrapUnique(Sum(a[..VectorSize]), 1600000000);
    ConstantSum(b, 0x20_0000);
    WrapUnique(Sum(b), 0);
  }

  /** The three sums one run reports. */
  datatype RunResult = RunResult(sse2: Int32, avx: Int32, avx2: Int32)

  /**
   * One run after the buffer is filled: the three kernels, in order, on the
   * same buffer, which none of them modifies. All three report the same sum.
   */
  method BenchmarkRun(c: array<Int32>) returns (result: RunResult)
    requires c.Length == VectorSize
    ensures result.sse2 == result.avx == result.avx2
    ensures result.sse2 == Wrap(Sum(c[..]))
  {
    assert c[..VectorSize] == c[..];
    var sse2 := SumSse2(c);
    var avx := SumAvx(c);
    var avx2 := SumAvx2(c);
    result := RunResult(sse2, avx, avx2);
  }

  /**
   * Fill the buffer with the values the random generator produced for this
   * run (the generator itself is not modelled; its output is a parameter).
   */
  method Generate(c: array<Int32>, values: seq<Int32>)
    requires |values| == c.Length
    modifies c
    ensures c[..] == values
  {
    forall k | 0 <= k < c.Length {
      c[k] := values[k];
    }
  }

  /**
   * The run loop: NumRuns times, refill the one buffer and run the three
   * kernels on it. Every run's three sums agree and are that run's buffer
   * summed modulo 2^32.
   */
  method RunSession(c: array<Int32>, inputs: seq<seq<Int32>>) returns (results: seq<RunResult>)
    requires c.Length == VectorSize
    requires |inputs| == NumRuns
    requires forall run :: 0 <= run < |inputs| ==> |inputs[run]| == VectorSize
    modifies c
    ensures c[..] == inputs[NumRuns - 1]
    ensures |results| == NumRuns
    ensures forall run :: 0 <= run < NumRuns ==>
      results[run].sse2 == results[run].avx == results[run].avx2 == Wrap(Sum(inputs[run]))
  {
    results := [];
    var run := 0;
    while run < NumRuns
      invariant 0 <= run <= NumRuns && |results| == run
      invariant run > 0 ==> c[..] == inputs[run - 1]
      invariant forall k :: 0 <= k < run ==>
        results[k].sse2 == results[k].avx == results[k].avx2 == Wrap(Sum(inputs[k]))
    {
      Generate(c, inputs[run]);
      var result := BenchmarkRun(c);
      results := results + [result];
      run := run + 1;
    }
  }
}
