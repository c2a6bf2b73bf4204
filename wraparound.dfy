/**
 * 32-bit two's-complement integers (the C++ `int` of an x86 target) and the
 * wraparound addition that PADDD/VPADDD perform in every lane and that the
 * hardware performs for the final scalar `int` additions: the carry out of
 * bit 31 is discarded, so results are defined only modulo 2^32.
 */
module Wraparound {

  const Modulus: int := 0x1_0000_0000
  const MinInt32: int := -0x8000_0000
  const MaxInt32: int := 0x7fff_ffff

  datatype Option<T> = None | Some(value: T)

  /** A signed 32-bit value. */
  type Int32 = x: int | MinInt32 <= x <= MaxInt32

  /** x and y have the same low 32 bits. */
  predicate Congruent(x: int, y: int) {
    (x - y) % Modulus == 0
  }

  lemma CongruentSym(x: int, y: int)
    requires Congruent(x, y)
    ensures Congruent(y, x)
  {
  }

  lemma CongruentTrans(x: int, y: int, z: int)
    requires Congruent(x, y) && Congruent(y, z)
    ensures Congruent(x, z)
  {
  }

  lemma CongruentPlus(a: int, b: int, c: int, d: int)
    requires Congruent(a, b) && Congruent(c, d)
    ensures Congruent(a + c, b + d)
  {
  }

  /** The signed 32-bit value whose bit pattern is the low 32 bits of x. */
  function Wrap(x: int): (r: Int32)
    ensures Congruent(x, r)
  {
    var m := x % Modulus;
    if m <= MaxInt32 then m else m - Modulus
  }

  /** Wrap picks the only signed 32-bit value with the low 32 bits of x. */
  lemma WrapUnique(x: int, r: Int32)
    requires Congruent(x, r)
    ensures Wrap(x) == r
  {
  }

  /** Inputs with the same low 32 bits wrap to the same value. */
  lemma WrapCongruent(x: int, y: int)
    requires Congruent(x, y)
    ensures Wrap(x) == Wrap(y)
  {
  }

  /** One 32-bit lane add (PADDD) or one `int` add as the hardware does it. */
  function Add(x: Int32, y: Int32): (r: Int32)
    ensures Congruent(x + y, r)
    ensures MinInt32 <= x + y <= MaxInt32 ==> r == x + y
  {
    WrapUnique(x + y, Wrap(x + y));
    Wrap(x + y)
  }

  /**
   * C++ `int` addition as the language defines it: the exact sum when it is
   * representable, and no defined value (signed overflow) otherwise.
   */
  function CheckedAdd(x: Int32, y: Int32): (r: Option<Int32>)
    ensures r.Some? <==> MinInt32 <= x + y <= MaxInt32
    ensures r.Some? ==> r.value == x + y && r.value == Add(x, y)
  {
    if MinInt32 <= x + y <= MaxInt32 then Some(x + y) else None
  }

  /** Exact mathematical sum, element by element from the front. */
  function Sum(s: seq<int>): int
  {
    if |s| == 0 then 0 else Sum(s[..|s| - 1]) + s[|s| - 1]
  }

  /**
   * The plain sequential 32-bit sum: the elements added one after another
   * with wraparound adds. It is the exact sum reduced modulo 2^32.
   */
  function WrapSum(s: seq<Int32>): (r: Int32)
    ensures r == Wrap(Sum(s))
  {
    if |s| == 0 then
      0
    else
      var prefix := WrapSum(s[..|s| - 1]);
      var r := Add(prefix, s[|s| - 1]);
      CongruentPlus(Sum(s[..|s| - 1]), prefix, s[|s| - 1], s[|s| - 1]);
      CongruentTrans(Sum(s), prefix + s[|s| - 1], r);
      WrapUnique(Sum(s), r);
      r
  }

  lemma {:induction false} SumAppend(s: seq<int>, t: seq<int>)
    ensures Sum(s + t) == Sum(s) + Sum(t)
    decreases |t|
  {
    if |t| == 0 {
      assert s + t == s;
    } else {
      assert (s + t)[..|s + t| - 1] == s + t[..|t| - 1];
      SumAppend(s, t[..|t| - 1]);
    }
  }

  /** The sum depends only on the multiset of elements, not on their order. */
  lemma {:induction false} SumPermutation(s: seq<int>, t: seq<int>)
    requires multiset(s) == multiset(t)
    ensures Sum(s) == Sum(t)
    decreases |s|
  {
    if |s| == 0 {
      assert |t| == |multiset(t)| == 0;
    } else {
      var x := s[|s| - 1];
      var s' := s[..|s| - 1];
      assert s == s' + [x];
      assert x in multiset(t);
      var i :| 0 <= i < |t| && t[i] == x;
      var t' := t[..i] + t[i + 1..];
      assert t == t[..i] + [x] + t[i + 1..];
      assert multiset(t') == multiset(t) - multiset{x};
      assert multiset(s') == multiset(s) - multiset{x};
      SumPermutation(s', t');
      SumAppend(t[..i] + [x], t[i + 1..]);
      SumAppend(t[..i], [x]);
      SumAppend(t[..i], t[i + 1..]);
      assert Sum([x]) == x by { assert [x][..0] == []; }
    }
  }
}
