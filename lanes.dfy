/**
 * The lane-wise wraparound reduction shared by every kernel: a W-lane
 * accumulator register is zeroed (PXOR/VPXOR), the buffer is walked in
 * strides of W, each stride is loaded unaligned (MOVDQU/VMOVDQU) and added
 * lane by lane into the accumulator (PADDD/VPADDD), and finally the
 * accumulator is spilled to an `int sum[W]` array whose lanes are added
 * together. The functions here specify that computation; Reduce performs it.
 */
module Lanes {
  import opened Wraparound

  /** Lanes of 32 bits in the accumulator: 4 in an XMM register, 8 in a YMM register. */
  predicate IsLaneWidth(w: int) {
    w == 4 || w == 8
  }

  /**
   * n elements make a whole number of strides of w lanes (n % w == 0, with
   * the divisor written out for each of the two widths).
   */
  predicate WholeStrides(n: int, w: int) {
    if w == 4 then n % 4 == 0 else n % 8 == 0
  }

  /** A register XORed with itself (PXOR/VPXOR): every lane zero. */
  function Zeros(w: nat): (v: seq<Int32>)
    ensures |v| == w
    ensures forall j :: 0 <= j < w ==> v[j] == 0
  {
    seq(w, _ => 0)
  }

  /** PADDD/VPADDD: independent 32-bit wraparound adds, one per lane. */
  function LaneAdd(x: seq<Int32>, y: seq<Int32>): (r: seq<Int32>)
    requires |x| == |y|
    ensures |r| == |x|
    ensures forall j :: 0 <= j < |r| ==> r[j] == Add(x[j], y[j])
  {
    seq(|x|, j requires 0 <= j < |x| => Add(x[j], y[j]))
  }

  /**
   * The accumulator after the kernel has walked over a, which holds a whole
   * number of strides: the register after the strides before the last one,
   * plus the last stride.
   */
  function Accumulate(a: seq<Int32>, w: nat): (acc: seq<Int32>)
    requires IsLaneWidth(w) && WholeStrides(|a|, w)
    ensures |acc| == w
    decreases |a|
  {
    if |a| == 0 then Zeros(w)
    else
      PreviousStride(|a|, w);
      LaneAdd(Accumulate(a[..|a| - w], w), a[|a| - w..])
  }

  /** The exact sum of the elements that fall in lane j: a[j] + a[w + j] + a[2w + j] + ... */
  function LaneTotal(a: seq<int>, w: nat, j: nat): int
    requires IsLaneWidth(w) && WholeStrides(|a|, w) && j < w
    decreases |a|
  {
    if |a| == 0 then 0
    else
      PreviousStride(|a|, w);
      LaneTotal(a[..|a| - w], w, j) + a[|a| - w + j]
  }

  /** The elements that fall in lane j, by index: a[j], a[w + j], a[2w + j], ... */
  function Column(a: seq<int>, w: nat, j: nat): (c: seq<int>)
    requires IsLaneWidth(w) && WholeStrides(|a|, w) && j < w
    ensures w == 4 ==> |c| == |a| / 4 && forall k :: 0 <= k < |c| ==> c[k] == a[4 * k + j]
    ensures w == 8 ==> |c| == |a| / 8 && forall k :: 0 <= k < |c| ==> c[k] == a[8 * k + j]
  {
    if w == 4 then seq(|a| / 4, k requires 0 <= k < |a| / 4 => a[4 * k + j])
    else seq(|a| / 8, k requires 0 <= k < |a| / 8 => a[8 * k + j])
  }

  /** The last stride adds one element to each lane's column. */
  lemma ColumnStep(a: seq<int>, w: nat, j: nat)
    requires IsLaneWidth(w) && WholeStrides(|a|, w) && j < w && |a| > 0
    ensures |a| >= w && WholeStrides(|a| - w, w)
    ensures Sum(Column(a, w, j)) == Sum(Column(a[..|a| - w], w, j)) + a[|a| - w + j]
  {
    PreviousStride(|a|, w);
    var a' := a[..|a| - w];
    var c, c' := Column(a, w, j), Column(a', w, j);
    if w == 4 {
      assert |c| == |c'| + 1 && 4 * |c'| == |a'|;
    } else {
      assert |c| == |c'| + 1 && 8 * |c'| == |a'|;
    }
    assert c == c' + [a[|a| - w + j]];
    assert c[..|c| - 1] == c';
  }

  /** The last stride adds one element to each lane's total. */
  lemma LaneTotalStep(a: seq<int>, w: nat, j: nat)
    requires IsLaneWidth(w) && WholeStrides(|a|, w) && j < w && |a| > 0
    ensures |a| >= w && WholeStrides(|a| - w, w)
    ensures LaneTotal(a, w, j) == LaneTotal(a[..|a| - w], w, j) + a[|a| - w + j]
  {
    PreviousStride(|a|, w);
  }

  /** LaneTotal is the sum of lane j's elements taken by index. */
  lemma {:induction false} LaneTotalIsColumnSum(a: seq<int>, w: nat, j: nat)
    requires IsLaneWidth(w) && WholeStrides(|a|, w) && j < w
    ensures LaneTotal(a, w, j) == Sum(Column(a, w, j))
    decreases |a|
  {
    if |a| != 0 {
      var a' := a[..|a| - w];
      ColumnStep(a, w, j);
      LaneTotalStep(a, w, j);
      LaneTotalIsColumnSum(a', w, j);
    }
  }

  /**
   * What a kernel of lane width w returns on a: the horizontal sum of the
   * final accumulator. By regrouping, it is the plain sequential 32-bit sum
   * of the buffer: the exact sum of all elements reduced modulo 2^32.
   */
  function KernelSum(a: seq<Int32>, w: nat): (r: Int32)
    requires IsLaneWidth(w) && WholeStrides(|a|, w)
    ensures r == Wrap(Sum(a))
    ensures r == WrapSum(a)
  {
    AccumulateRegroups(a, w);
    WrapCongruent(Sum(Accumulate(a, w)), Sum(a));
    WrapSum(Accumulate(a, w))
  }

  /** After the strides over a, lane j holds the wraparound sum of the elements in lane j. */
  lemma {:induction false} AccumulateLane(a: seq<Int32>, w: nat, j: nat)
    requires IsLaneWidth(w) && WholeStrides(|a|, w) && j < w
    ensures Accumulate(a, w)[j] == Wrap(LaneTotal(a, w, j))
    decreases |a|
  {
    if |a| == 0 {
      WrapUnique(0, 0);
    } else {
      PreviousStride(|a|, w);
      var a' := a[..|a| - w];
      var total', total := LaneTotal(a', w, j), LaneTotal(a, w, j);
      var before, after := Accumulate(a', w)[j], Accumulate(a, w)[j];
      var x := a[|a| - w + j];
      assert total == total' + x;
      assert after == Add(before, x) by {
        assert a[|a| - w..][j] == x;
      }
      assert Congruent(total', before) by {
        AccumulateLane(a', w, j);
      }
      CongruentPlus(total', before, x, x);
      CongruentTrans(total, before as int + x, after);
      WrapUnique(total, after);
    }
  }

  /** Lane j of the accumulator is the wraparound sum of a[j], a[w + j], a[2w + j], ..., taken by index. */
  lemma AccumulateColumn(a: seq<Int32>, w: nat, j: nat)
    requires IsLaneWidth(w) && WholeStrides(|a|, w) && j < w
    ensures Accumulate(a, w)[j] == Wrap(Sum(Column(a, w, j)))
  {
    AccumulateLane(a, w, j);
    LaneTotalIsColumnSum(a, w, j);
  }

  /** Summing the lanes of a lane-wise sum is summing both operands, modulo 2^32. */
  lemma {:induction false} SumLaneAdd(x: seq<Int32>, y: seq<Int32>)
    requires |x| == |y|
    ensures Congruent(Sum(LaneAdd(x, y)), Sum(x) + Sum(y))
    decreases |x|
  {
    if |x| != 0 {
      var n := |x| - 1;
      var r := LaneAdd(x, y);
      LaneAddPrefix(x, y, n);
      SumLaneAdd(x[..n], y[..n]);
      LaneStep(Sum(r[..n]), Sum(x[..n]), Sum(y[..n]), r[n], x[n], y[n]);
    }
  }

  /** Adding one more lane to both sides keeps the lane sums congruent. */
  lemma LaneStep(rest: int, xs: int, ys: int, last: Int32, xl: Int32, yl: Int32)
    requires Congruent(rest, xs + ys) && last == Add(xl, yl)
    ensures Congruent(rest + last, (xs + xl) + (ys + yl))
  {
    CongruentSym(xl as int + yl, last);
    CongruentPlus(rest, xs + ys, last, xl as int + yl);
  }

  /**
   * Regrouping: the lanes of the accumulator together hold the sum of every
   * element walked over, modulo 2^32.
   */
  lemma {:induction false} AccumulateRegroups(a: seq<Int32>, w: nat)
    requires IsLaneWidth(w) && WholeStrides(|a|, w)
    ensures Congruent(Sum(Accumulate(a, w)), Sum(a))
    decreases |a|
  {
    if |a| == 0 {
      ZerosSum(Zeros(w));
    } else {
      LastStride(a, w);
      var a', stride := a[..|a| - w], a[|a| - w..];
      var acc' := Accumulate(a', w);
      SumLaneAdd(acc', stride);
      AccumulateRegroups(a', w);
      assert a == a' + stride;
      SumAppend(a', stride);
      CongruentPlus(Sum(acc'), Sum(a'), Sum(stride), Sum(stride));
      CongruentTrans(Sum(Accumulate(a, w)), Sum(acc') + Sum(stride), Sum(a));
    }
  }

  /** The first n lanes of a lane-wise sum are the lane-wise sum of the first n lanes. */
  lemma LaneAddPrefix(x: seq<Int32>, y: seq<Int32>, n: nat)
    requires |x| == |y| && n <= |x|
    ensures LaneAdd(x, y)[..n] == LaneAdd(x[..n], y[..n])
  {
    assert forall j :: 0 <= j < n ==> LaneAdd(x, y)[..n][j] == LaneAdd(x[..n], y[..n])[j];
  }

  /** Adding a stride of zeros leaves every lane unchanged. */
  lemma LaneAddZeros(x: seq<Int32>, z: seq<Int32>)
    requires |x| == |z|
    requires forall j :: 0 <= j < |z| ==> z[j] == 0
    ensures LaneAdd(x, z) == x
  {
    assert forall j :: 0 <= j < |x| ==> LaneAdd(x, z)[j] == x[j];
  }

  /** A nonempty buffer is its strides before the last one followed by the last stride. */
  lemma LastStride(a: seq<Int32>, w: nat)
    requires IsLaneWidth(w) && WholeStrides(|a|, w) && |a| > 0
    ensures |a| >= w && WholeStrides(|a| - w, w)
    ensures Accumulate(a, w) == LaneAdd(Accumulate(a[..|a| - w], w), a[|a| - w..])
  {
    PreviousStride(|a|, w);
    if w == 4 {
      assert Accumulate(a, 4) == LaneAdd(Accumulate(a[..|a| - 4], 4), a[|a| - 4..]);
    } else {
      assert Accumulate(a, 8) == LaneAdd(Accumulate(a[..|a| - 8], 8), a[|a| - 8..]);
    }
  }

  /** A whole number of strides is w times the number of strides. */
  lemma Quotient(n: int, w: int) returns (q: int)
    requires IsLaneWidth(w) && WholeStrides(n, w)
    ensures n == w * q
  {
    q := n / w;
  }

  /** w times any count is a whole number of strides. */
  lemma Multiple(q: int, w: int)
    requires IsLaneWidth(w)
    ensures WholeStrides(w * q, w)
  {
  }

  /** A nonempty whole number of strides ends with a stride preceded by a whole number of strides. */
  lemma PreviousStride(n: int, w: int)
    requires IsLaneWidth(w) && WholeStrides(n, w) && n > 0
    ensures n >= w && WholeStrides(n - w, w)
  {
    var q := Quotient(n, w);
    Multiple(q - 1, w);
    assert n - w == w * (q - 1);
  }


  /** A stride starting at a stride boundary before n ends within n, at a stride boundary. */
  lemma NextStride(i: int, n: int, w: int)
    requires IsLaneWidth(w) && WholeStrides(n, w) && WholeStrides(i, w) && 0 <= i < n
    ensures i + w <= n && WholeStrides(i + w, w)
  {
    var qi := Quotient(i, w);
    var qn := Quotient(n, w);
    assert qi < qn;
    Multiple(qi + 1, w);
    assert i + w == w * (qi + 1);
  }


  /** A sequence of zeros sums to zero. */
  lemma {:induction false} ZerosSum(s: seq<int>)
    requires forall i :: 0 <= i < |s| ==> s[i] == 0
    ensures Sum(s) == 0
    decreases |s|
  {
    if |s| != 0 {
      ZerosSum(s[..|s| - 1]);
    }
  }

  /** The 4-lane and the 8-lane kernels agree on every buffer both can walk. */
  lemma KernelWidthsAgree(a: seq<Int32>)
    requires |a| % 8 == 0
    ensures KernelSum(a, 4) == KernelSum(a, 8)
  {
  }

  /** Permuting the buffer leaves the result unchanged. */
  lemma KernelSumPermutation(a: seq<Int32>, b: seq<Int32>, w: nat)
    requires IsLaneWidth(w) && WholeStrides(|a|, w)
    requires multiset(a) == multiset(b)
    ensures WholeStrides(|b|, w)
    ensures KernelSum(a, w) == KernelSum(b, w)
  {
    assert |a| == |multiset(a)| == |multiset(b)| == |b|;
    SumPermutation(a, b);
  }

  /** An all-zero buffer sums to zero. */
  lemma KernelSumOfZeros(a: seq<Int32>, w: nat)
    requires IsLaneWidth(w) && WholeStrides(|a|, w)
    requires forall i :: 0 <= i < |a| ==> a[i] == 0
    ensures KernelSum(a, w) == 0
  {
    ZerosSum(a);
    WrapUnique(0, 0);
  }

  /** When the exact sum fits in 32 bits, the kernel returns exactly that sum. */
  lemma KernelSumExact(a: seq<Int32>, w: nat)
    requires IsLaneWidth(w) && WholeStrides(|a|, w)
    requires MinInt32 <= Sum(a) <= MaxInt32
    ensures KernelSum(a, w) == Sum(a)
  {
    WrapUnique(Sum(a), Sum(a));
  }

  /** n copies of c sum to n * c. */
  lemma {:induction false} ConstantSum(s: seq<int>, c: int)
    requires forall i :: 0 <= i < |s| ==> s[i] == c
    ensures Sum(s) == |s| * c
    decreases |s|
  {
    if |s| != 0 {
      ConstantSum(s[..|s| - 1], c);
    }
  }

  /** The buffer 1, 2, ..., 8 sums to 36 with 8 lanes and with 4 lanes. */
  lemma KernelSumSmallBuffer()
    ensures KernelSum([1, 2, 3, 4, 5, 6, 7, 8], 8) == 36
    ensures KernelSum([1, 2, 3, 4, 5, 6, 7, 8], 4) == 36
  {
    var a: seq<Int32> := [1, 2, 3, 4, 5, 6, 7, 8];
    assert Sum(a[..1]) == 1 by { assert a[..1][..0] == []; }
    assert Sum(a[..2]) == 3 by { assert a[..2][..1] == a[..1]; }
    assert Sum(a[..3]) == 6 by { assert a[..3][..2] == a[..2]; }
    assert Sum(a[..4]) == 10 by { assert a[..4][..3] == a[..3]; }
    assert Sum(a[..5]) == 15 by { assert a[..5][..4] == a[..4]; }
    assert Sum(a[..6]) == 21 by { assert a[..6][..5] == a[..5]; }
    assert Sum(a[..7]) == 28 by { assert a[..7][..6] == a[..6]; }
    assert Sum(a) == 36 by { assert a[..7] == a[..|a| - 1]; }
    KernelSumExact(a, 8);
    KernelSumExact(a, 4);
  }

  /** A prefix of a prefix is a prefix. */
  lemma PrefixOfPrefix(s: seq<Int32>, n: nat)
    requires n <= |s|
    ensures forall k :: 0 <= k <= n ==> s[..n][..k] == s[..k]
  {
  }

  /**
   * sum[0] + sum[1] + ... + sum[W - 1] with C++ `int` additions as written:
   * defined only while every partial sum stays in range.
   */
  function CheckedHorizontalSum(lanes: seq<Int32>): (r: Option<Int32>)
    requires |lanes| > 0
    ensures r.Some? <==> forall k :: 1 <= k <= |lanes| ==> MinInt32 <= Sum(lanes[..k]) <= MaxInt32
    ensures r.Some? ==> r.value == Sum(lanes) && r.value == WrapSum(lanes)
  {
    if |lanes| == 1 then
      assert lanes[..0] == [] && lanes[..1] == lanes;
      Some(lanes[0])
    else
      var n := |lanes| - 1;
      PrefixOfPrefix(lanes, n);
      assert lanes[..|lanes|] == lanes;
      match CheckedHorizontalSum(lanes[..n])
      case None => None
      case Some(prefix) =>
        var r := CheckedAdd(prefix, lanes[n]);
        if r.Some? then WrapUnique(Sum(lanes), r.value); r else r
  }

  /** Strides of zeros after the first n elements leave the accumulator as those n elements left it. */
  lemma {:induction false} AccumulateZeroTail(a: seq<Int32>, n: nat, w: nat)
    requires IsLaneWidth(w) && WholeStrides(|a|, w) && WholeStrides(n, w) && n <= |a|
    requires forall i :: n <= i < |a| ==> a[i] == 0
    ensures Accumulate(a, w) == Accumulate(a[..n], w)
    decreases |a|
  {
    if |a| == n {
      assert a[..n] == a;
    } else {
      LastStride(a, w);
      NextStride(n, |a|, w);
      var a', stride := a[..|a| - w], a[|a| - w..];
      forall j | 0 <= j < w ensures stride[j] == 0 {
        assert stride[j] == a[|a| - w + j];
      }
      LaneAddZeros(Accumulate(a', w), stride);
      forall i | n <= i < |a'| ensures a'[i] == 0 {
        assert a'[i] == a[i];
      }
      AccumulateZeroTail(a', n, w);
      assert a'[..n] == a[..n];
    }
  }

  /** The stride 2^31 - 1, 1, 0, 0: the tail as written overflows on it, and its exact sum is 2^31. */
  lemma OverflowingStride(p: seq<Int32>)
    requires p == [MaxInt32, 1, 0, 0]
    ensures Accumulate(p, 4) == p
    ensures CheckedHorizontalSum(p) == None
    ensures Sum(p) == MaxInt32 + 1
  {
    assert Accumulate(p, 4) == p by {
      assert p[..0] == [] && p[0..] == p;
      assert Accumulate(p[..0], 4) == Zeros(4);
    }
    assert p[..2][..1] == [MaxInt32] && [MaxInt32][..0] == [];
    assert CheckedHorizontalSum(p[..2]) == None;
    assert p[..3][..2] == p[..2];
    assert p[..3] == p[..|p| - 1];
  }

  /** A buffer whose first stride is 2^31 - 1, 1, 0, 0 and whose other elements are zero. */
  lemma ZeroPadded(a: seq<Int32>, p: seq<Int32>)
    requires p == [MaxInt32, 1, 0, 0]
    requires |a| >= 4
    requires a[0] == MaxInt32 && a[1] == 1
    requires forall i :: 2 <= i < |a| ==> a[i] == 0
    ensures a[..4] == p
    ensures Sum(a) == Sum(p)
  {
    var z := a[4..];
    assert a[..4] == p by {
      assert a[2] == 0 && a[3] == 0;
    }
    assert Sum(a) == Sum(p) + Sum(z) by {
      assert a == a[..4] + z;
      SumAppend(a[..4], z);
    }
    assert Sum(z) == 0 by {
      forall i | 0 <= i < |z| ensures z[i] == 0 {
        assert z[i] == a[i + 4];
      }
      ZerosSum(z);
    }
  }

  /**
   * A 4-lane buffer on which the horizontal sum as written overflows: its
   * first stride is 2^31 - 1, 1, 0, 0 and the rest is zeros (any length,
   * the 800,000,000 ints of the benchmark included), so the lanes hold
   * 2^31 - 1 and 1 and sum[0] + sum[1] leaves the range of `int`, while the
   * wraparound sum the hardware computes is -2^31.
   */
  lemma HorizontalSumOverflows(a: seq<Int32>)
    requires |a| >= 4 && WholeStrides(|a|, 4)
    requires a[0] == MaxInt32 && a[1] == 1
    requires forall i :: 2 <= i < |a| ==> a[i] == 0
    ensures CheckedHorizontalSum(Accumulate(a, 4)) == None
    ensures KernelSum(a, 4) == MinInt32
  {
    var p: seq<Int32> := [MaxInt32, 1, 0, 0];
    ZeroPadded(a, p);
    AccumulateZeroTail(a, 4, 4);
    OverflowingStride(p);
    WrapUnique(Sum(a), MinInt32);
  }

  /** Walking one more stride adds that stride into the accumulator lane by lane. */
  lemma AccumulateStep(a: seq<Int32>, i: nat, w: nat)
    requires IsLaneWidth(w) && WholeStrides(i, w) && i + w <= |a|
    ensures WholeStrides(i + w, w)
    ensures Accumulate(a[..i + w], w) == LaneAdd(Accumulate(a[..i], w), a[i..i + w])
  {
    assert WholeStrides(i + w, w);
    var walked := a[..i + w];
    assert walked[..|walked| - w] == a[..i];
    assert walked[|walked| - w..] == a[i..i + w];
  }

  /**
   * The generic kernel: zero a w-lane accumulator, walk the first n elements
   * of a in strides of w adding each unaligned load into it lane by lane,
   * spill it to memory and add the w lanes together. The buffer is only read.
   */
  method Reduce(a: array<Int32>, n: Int32, w: nat) returns (r: Int32)
    requires IsLaneWidth(w)
    requires WholeStrides(n, w) && 0 <= n <= a.Length
    ensures r == KernelSum(a[..n], w)
    ensures r == Wrap(Sum(a[..n]))
  {
    ghost var s := a[..n];
    // PXOR/VPXOR: the accumulator register starts with every lane zero.
    var acc := new Int32[w](_ => 0);
    var i: Int32 := 0;
    assert acc[..] == Zeros(w) && s[..0] == [];
    while i < n
      invariant 0 <= i <= n && WholeStrides(i, w)
      invariant acc.Length == w
      invariant acc[..] == Accumulate(s[..i], w)
    {
      NextStride(i, n, w);
      // MOVDQU/VMOVDQU: an unaligned load of w ints starting at a[i];
      // i + w <= n <= a.Length holds here, so no load reads past the buffer.
      var load := a[i..i + w];
      Paddd(acc, load);
      AccumulateStep(s, i, w);
      assert s[i..i + w] == load;
      i := i + w;
    }
    assert s[..i] == s;
    // MOVDQU/VMOVDQU to memory: spill the accumulator into int sum[w].
    var sum := new Int32[w](_ => 0);
    forall j | 0 <= j < w {
      sum[j] := acc[j];
    }
    assert sum[..] == Accumulate(s, w);
    r := HorizontalSum(sum);
    assert a[..n] == s;
  }

  /** PADDD/VPADDD on the accumulator register: each lane gets its wraparound sum with the loaded lane. */
  method Paddd(acc: array<Int32>, load: seq<Int32>)
    requires acc.Length == |load|
    modifies acc
    ensures acc[..] == LaneAdd(old(acc[..]), load)
  {
    forall j | 0 <= j < acc.Length {
      acc[j] := Add(acc[j], load[j]);
    }
  }

  /**
   * The scalar tail of a kernel, sum[0] + sum[1] + ... + sum[W - 1] on the
   * spilled lanes, added left to right with wraparound: the sequential
   * 32-bit sum of the lanes.
   */
  method HorizontalSum(sum: array<Int32>) returns (r: Int32)
    requires sum.Length > 0
    ensures r == WrapSum(sum[..])
  {
    r := sum[0];
    assert sum[..1] == [sum[0]] && [sum[0]][..0] == [];
    for j := 1 to sum.Length
      invariant r == WrapSum(sum[..j])
    {
      assert sum[..j + 1][..j] == sum[..j];
      r := Add(r, sum[j]);
    }
    assert sum[..sum.Length] == sum[..];
  }
}
