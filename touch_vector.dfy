/** The 64-bit touch vectors of capsense_fss_algorithm.c (`uint64_t
    currentButtonStatus`, `previousButtonStatus` and the locals of
    `fss_algorithm`), represented by the set of positions of their one bits.

    Bit k stands for the k-th button sensor. The bitwise operators of the
    source become set operations: `a & b` is `a * b`, `a | b` is `a + b`,
    `a & ~b` is `a - b` and `x != 0` is `x != {}`. The two shifts are written
    out below, with the 64-bit truncation of `<<` made explicit. */
module TouchVectors {

  /** Number of bits in a touch vector (`uint64_t`). */
  const Width: nat := 64

  /** A 64-bit vector: the positions of its one bits, all below 64. */
  type TouchVector = v: set<nat> | forall i :: i in v ==> i < Width

  /** A vector with a single one bit, at position `k` (`1ull << k`). */
  function BitAt(k: nat): TouchVector
    requires k < Width
  {
    {k}
  }

  /** `v << 1` on `uint64_t`: every bit moves up one place and bit 63 is lost. */
  function Shl1(v: TouchVector): (r: TouchVector)
    ensures forall i: nat :: i in r <==> 0 < i < Width && i - 1 in v
  {
    set i | i in v && i + 1 < Width :: i + 1
  }

  /** Shifting the single bit `k` up moves it to `k + 1`, or out of the
      vector when `k` is the top bit. */
  lemma Shl1Single(k: nat)
    requires k < Width
    ensures Shl1({k}) == if k + 1 < Width then {k + 1} else {}
  {
    if k + 1 < Width {
      assert k + 1 in Shl1({k});
    }
  }

  /** `v >> 1` on `uint64_t`: every bit moves down one place, bit 0 is lost
      and a zero enters at the top. */
  function Shr1(v: TouchVector): (r: TouchVector)
    ensures forall i: nat :: i in r <==> i + 1 in v
  {
    set i | i in v && 0 < i :: i - 1
  }

  /** `v` shifted right `n` times, one place at a time. */
  function ShrN(v: TouchVector, n: nat): TouchVector
    decreases n
  {
    if n == 0 then v else ShrN(Shr1(v), n - 1)
  }

  /** Bit i of `v >> n` is bit i + n of `v`. */
  lemma {:induction false} ShrNBit(v: TouchVector, n: nat, i: nat)
    ensures i in ShrN(v, n) <==> i + n in v
    decreases n
  {
    if n > 0 {
      ShrNBit(Shr1(v), n - 1, i);
    }
  }

  /** Bit k of `v`, for k at least `n`, is bit k - n of `v >> n`. */
  lemma ShrNBitAt(v: TouchVector, n: nat, k: nat)
    requires n <= k
    ensures k in v <==> k - n in ShrN(v, n)
  {
    ShrNBit(v, n, k - n);
  }

  /** Shifting `n + 1` times is shifting `n` times and then once more. */
  lemma {:induction false} ShrNSucc(v: TouchVector, n: nat)
    ensures ShrN(v, n + 1) == Shr1(ShrN(v, n))
    decreases n
  {
    if n > 0 {
      ShrNSucc(Shr1(v), n - 1);
    }
  }

  /** Shifting `a` times and then `b` times is shifting `a + b` times. */
  lemma {:induction false} ShrNAdd(v: TouchVector, a: nat, b: nat)
    ensures ShrN(ShrN(v, a), b) == ShrN(v, a + b)
    decreases a
  {
    if a > 0 {
      ShrNAdd(Shr1(v), a - 1, b);
    }
  }

  /** The low `n` bits, `(1 << n) - 1`, built one bit at a time. */
  function LowBits(n: nat): (v: TouchVector)
    requires n <= Width
    ensures forall i: nat :: i in v <==> i < n
  {
    if n == 0 then {} else LowBits(n - 1) + {n - 1}
  }

  /** Shifting a vector that lies within the low `n` bits right `n` times
      leaves zero. */
  lemma ShrNLowBits(v: TouchVector, n: nat)
    requires n <= Width
    requires v <= LowBits(n)
    ensures ShrN(v, n) == {}
  {
    forall i: nat | i in ShrN(v, n)
      ensures false
    {
      ShrNBit(v, n, i);
    }
  }

  /** At most one bit is set: `(v & (v - 1)) == 0`. */
  predicate AtMostOne(v: TouchVector)
  {
    forall i, j :: i in v && j in v ==> i == j
  }

  /** A vector with a one bit has a lowest one bit. */
  lemma {:induction false} LowestExists(x: TouchVector, e: nat)
    requires e in x
    ensures exists m :: m in x && forall j :: j in x ==> m <= j
    decreases e
  {
    if !forall j :: j in x ==> e <= j {
      var j :| j in x && j < e;
      LowestExists(x, j);
    }
  }

  /** The lowest one bit of `x` (`x & -x`), empty when `x` is. */
  function LowestSetBit(x: TouchVector): (r: TouchVector)
    ensures r <= x
    ensures r == {} <==> x == {}
    ensures AtMostOne(r)
    ensures forall i, j :: i in r && j in x ==> i <= j
  {
    if x != {} then
      var e :| e in x;
      LowestExists(x, e);
      var m :| m in x && forall j :: j in x ==> m <= j;
      var r := set i | i in x && forall j :: j in x ==> i <= j;
      assert m in r;
      r
    else
      {}
  }

  /** The contract of LowestSetBit determines its value. */
  lemma LowestSetBitUnique(x: TouchVector, y: TouchVector)
    requires y <= x
    requires y == {} <==> x == {}
    requires AtMostOne(y)
    requires forall i, j :: i in y && j in x ==> i <= j
    ensures y == LowestSetBit(x)
  {
  }
}
