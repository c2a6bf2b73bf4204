# Lane-wise wraparound reduction kernels, in Dafny

This project models the summation kernels of a small x86 SIMD benchmark. The
benchmark sums a buffer of 800,000,000 C++ `int`s with three kernels and
compares their run times:

- `sum_int_sse2`: 4 lanes, SSE2 encoding.
- `sum_int_avx`: 4 lanes, VEX encoding.
- `sum_int_avx2`: 8 lanes.

Two single-kernel programs repeat the AVX and the AVX2 kernel.

Every kernel works the same way:

1. It zeroes a W-lane accumulator register (PXOR/VPXOR).
2. It walks the buffer in strides of W. Each stride is an unaligned load
   (MOVDQU/VMOVDQU) added lane by lane into the accumulator with 32-bit
   wraparound (PADDD/VPADDD).
3. It spills the register to `int sum[W]` and adds the W lanes together.

The main theorem is that regrouping the elements into W interleaved lane
sums and then adding the lanes gives the plain sequential sum of the buffer,
modulo 2^32. So the 4-lane and the 8-lane kernels return the same value on
every buffer. That equality is what the benchmark relies on when it prints
the three results side by side.

Files:

- `wraparound.dfy` (module `Wraparound`): signed 32-bit values (`Int32`),
  reduction modulo 2^32 (`Wrap`), the lane add (`Add`), C++'s partial `int`
  addition (`CheckedAdd`), the exact sum `Sum` and the sequential
  wraparound sum `WrapSum`.
- `lanes.dfy` (module `Lanes`): the kernel, generic in the lane width W ∈ {4, 8}.
  The functions `Zeros`, `LaneAdd`, `Accumulate` and `KernelSum` specify it.
  The lemmas prove what it computes. The method `Reduce` performs it on an
  array, with the accumulator as an array updated in place by `Paddd` and the
  spill and scalar tail in `HorizontalSum`.
- `avxbench.dfy` (module `AvxBench`): the three kernels of the benchmark, one
  run of the three kernels on one buffer, and the loop over the runs.
- `avx2only.dfy` (module `Avx2Only`) and `avxonly.dfy` (module `AvxOnly`):
  the kernels of the two single-kernel programs.

Modelling decisions:

- A C++ `int` is an `Int32`: an `int` restricted to [-2^31, 2^31 - 1]. Every
  addition the hardware performs is `Add`: the exact sum reduced modulo 2^32
  into that range.
- The input buffer is an `array<Int32>`. Kernels take it without a
  `modifies` clause, so Dafny checks that they only read it. This is the
  `const std::vector<int>&` parameter.
- The source loops run to the constant `VECTOR_SIZE` and not to `a.size()`.
  So the kernels require `a.Length >= VectorSize` and return the sum of the
  first `VectorSize` elements. A longer buffer is summed in part. The
  generic `Reduce` walks the first `n` elements of its array, where `n` is
  an `int` and a whole number of strides (`WholeStrides`) no larger than the
  array. So every load `a[i..i + W]` is checked to stay inside the buffer,
  and the loop counter `i` is an `Int32` whose every value is checked to be
  in range.
- The accumulator persists from one stride to the next. The source
  expects this across its separate `asm` statements.
- The unrolled `sum[0] + ... + sum[W-1]` is a left-to-right loop over the
  spilled lanes. It adds in the same order.

## Model

| member | source | states |
|---|---|---|
| Wraparound.Wrap | code/avxbench.cpp:32 | the result is a signed 32-bit value with the same low 32 bits as its argument |
| Wraparound.Add | code/avxbench.cpp:32 | one 32-bit lane add drops the carry: the result agrees with x + y modulo 2^32, and equals x + y when that is in range |
| Wraparound.CheckedAdd | code/avxbench.cpp:44 | C++ `int` addition is defined exactly when x + y is in range, and then it equals both x + y and the wraparound add |
| Wraparound.WrapSum | code/avxbench.cpp:44 | adding the elements one by one with wraparound adds gives the exact sum reduced modulo 2^32 |
| Lanes.Zeros | code/avxbench.cpp:23-28 | PXOR of the accumulator with itself leaves W lanes, all zero |
| Lanes.LaneAdd | code/avxbench.cpp:32 | PADDD keeps W independent lanes: lane j of the result is the wraparound sum of lane j of both operands, and no carry crosses lanes |
| Lanes.Accumulate | code/avxbench.cpp:29-37 | the accumulator after the stride loop over a whole number of strides still has W lanes; what the lanes hold is stated by AccumulateLane, AccumulateColumn and AccumulateRegroups |
| Lanes.KernelSum | code/avxbench.cpp:21-45 | a kernel's result, the horizontal sum of the final accumulator, is the exact sum of the walked elements reduced modulo 2^32, and equals the plain sequential wraparound sum |
| Lanes.LaneTotalIsColumnSum | code/avxbench.cpp:29-37 | the lane total built stride by stride is the sum of the elements at indices j, W + j, 2W + j, ... |
| Lanes.SumLaneAdd | code/avxbench.cpp:30-36 | the lanes of a lane-wise PADDD result add up, modulo 2^32, to the sum of both operands' lanes |
| Lanes.AccumulateLane | code/avxbench.cpp:29-37 | after the strides over a prefix, lane j holds the wraparound sum of the elements a[j], a[W + j], a[2W + j], ... of that prefix |
| Lanes.AccumulateColumn | code/avxbench.cpp:29-37 | lane j of the accumulator is the wraparound sum of the elements taken by index, a[j] + a[W + j] + a[2W + j] + ... |
| Lanes.AccumulateStep | code/avx2only.cpp:26-34 | one more stride of the loop PADDDs the W elements loaded at a[i] into the accumulator |
| Lanes.AccumulateRegroups | code/avxonly.cpp:26-34 | the lanes of the accumulator together hold the sum of every element walked over, modulo 2^32 |
| Lanes.KernelWidthsAgree | code/avxonly.cpp:18-42 | on every buffer whose length is a multiple of 8, the 4-lane kernel and the 8-lane kernel return the same value |
| Lanes.KernelSumPermutation | code/avx2only.cpp:26-41 | permuting the buffer does not change the result |
| Lanes.KernelSumOfZeros | code/avxbench.cpp:22-28 | because the accumulator starts at zero, an all-zero buffer sums to 0 |
| Lanes.KernelSumExact | code/avxbench.cpp:44 | when the exact sum of the buffer fits in an `int`, the kernel returns exactly that sum |
| Lanes.KernelSumSmallBuffer | code/avx2only.cpp:18-42 | the buffer 1, 2, ..., 8 sums to 36 with 8 lanes and with 4 lanes |
| Lanes.CheckedHorizontalSum | code/avxbench.cpp:44 | the scalar tail as written with C++ `int` additions is defined exactly when every partial sum sum[0] + ... + sum[k-1] is in the range of `int`, and then it equals the exact and the wraparound sum of the lanes |
| Lanes.HorizontalSumOverflows | code/avxbench.cpp:44 | on any 4-lane buffer that starts 2^31 - 1, 1 and is zero after that (the `VECTOR_SIZE` buffer 2^31 - 1, 1, 0, 0, ... included), the tail as written overflows `int`, while the wraparound result is -2^31 |
| Lanes.Reduce | code/avxbench.cpp:21-45 | the generic kernel over the first n elements returns their KernelSum, which is their sum modulo 2^32; its loads stay in the buffer, its `int` counter never overflows, and the buffer is only read |
| Lanes.Paddd | code/avxbench.cpp:32 | PADDD replaces every accumulator lane by its wraparound sum with the loaded lane |
| Lanes.HorizontalSum | code/avxbench.cpp:38-44 | sum[0] + ... + sum[W-1] on the spilled lanes, added left to right with wraparound, is the sequential wraparound sum of the lanes |
| AvxBench.SumSse2 | code/avxbench.cpp:21-45 | the SSE2 kernel returns the 4-lane KernelSum of the first `VECTOR_SIZE` elements, which is their sum modulo 2^32 |
| AvxBench.SumAvx | code/avxbench.cpp:48-72 | the AVX 128-bit kernel returns the 4-lane KernelSum of the first `VECTOR_SIZE` elements, which is their sum modulo 2^32 |
| AvxBench.SumAvx2 | code/avxbench.cpp:75-99 | the AVX2 kernel returns the 8-lane KernelSum of the first `VECTOR_SIZE` elements, which is their sum modulo 2^32 |
| AvxBench.KernelSumWrapsToZero | code/avxbench.cpp:29-44 | the kernels read only the first `VECTOR_SIZE` ints: on 2^31 copies of 2 they return 1,600,000,000, not the wrapped full sum 0; a `VECTOR_SIZE` buffer of copies of 2^21, whose sum is 390625 * 2^32, returns 0 at either width |
| AvxBench.BenchmarkRun | code/avxbench.cpp:113-129 | the three kernels run in order on the same unmodified buffer report one and the same sum, the buffer's sum modulo 2^32 |
| AvxBench.Generate | code/avxbench.cpp:109 | after refilling, the buffer holds exactly the values produced for this run |
| AvxBench.RunSession | code/avxbench.cpp:108-139 | in every one of the 10 runs, the three reported sums agree and are that run's buffer summed modulo 2^32; afterwards the buffer holds the last run's values |
| Avx2Only.SumAvx2 | code/avx2only.cpp:18-42 | the AVX2 kernel returns the 8-lane KernelSum of the first `VECTOR_SIZE` elements, which is their sum modulo 2^32 |
| AvxOnly.SumAvx | code/avxonly.cpp:18-42 | the AVX 128-bit kernel returns the 4-lane KernelSum of the first `VECTOR_SIZE` elements, which is their sum modulo 2^32 |

## Left out

- `generate_int_vector`'s `srand`, `rand` and `time` are not modelled, because they are nondeterministic. The values they produce are a parameter of `Generate` and `RunSession`.
- The `std::chrono` timing and all `std::cout` output are not modelled, because they are a clock and I/O.
- The percentage differences and their averages are not modelled, because they are `double` arithmetic on wall-clock timings.
- The `main` functions of the two single-kernel programs are not modelled: they fill the buffer, call the kernel and return its sum as the process exit status. The kernel is modelled; the exit status is truncated by the operating system, outside the program.
- The `asm` clobber lists name `%xmm1`/`%ymm1`, which allows the compiler to reuse the accumulator register between the separate `asm` statements. The model keeps the accumulator alive for the whole loop, as the kernels are meant to.
- A buffer shorter than `VECTOR_SIZE` is not modelled. The precondition excludes it, because the source loops to `VECTOR_SIZE` whatever the buffer's length, so the loads would read past its end. A longer buffer is modelled: its first `VECTOR_SIZE` elements are summed.
- Only the lane widths 4 and 8 are modelled (`IsLaneWidth`), because those are the widths of the XMM and YMM kernels.
- The difference between the SSE2 and VEX encodings, and between 128-bit and 256-bit registers, is not modelled beyond the lane count. It affects only speed.

## Findings

| source | as written | input that shows it | evidently intended | confidence | as-written member | corrected member |
|---|---|---|---|---|---|---|
| code/avxbench.cpp:44 | the lanes are added with signed C++ `int` addition, which is undefined behaviour on overflow (the same tail is at code/avxbench.cpp:71 and 98, code/avx2only.cpp:41 and code/avxonly.cpp:41) | the `VECTOR_SIZE` buffer 2147483647, 1, 0, 0, 0, ..., 0: after all the strides the lanes are 2147483647, 1, 0, 0, and sum[0] + sum[1] overflows | wraparound addition, like the PADDD lanes before it, giving -2147483648 | high; not executed | Lanes.HorizontalSumOverflows | Lanes.HorizontalSum |
