/**
 * The 64-bit `jlong`/`long` values that the native file selector and its
 * Java caller use as bit masks.  A value is represented by the set of
 * positions of its one bits (a bijection on 64-bit two's-complement
 * values): `a | b` is union, `jlong(1) << i` is `{i}`, `(m & (1 << i)) != 0`
 * is membership, `-1` is every position and `-2` every position but 0.
 */
module Masks {

  /** A 64-bit integer, as the set of positions of its one bits. */
  type Long = s: set<nat> | forall i :: i in s ==> i < 64

  /** `jlong(1) << i`: the value with only bit `i` set. */
  function Bit(i: nat): (b: Long)
    requires i < 64
  {
    {i}
  }

  /** `(m & (jlong(1) << i)) != 0`. */
  predicate IsSet(m: Long, i: nat) {
    i in m
  }

  /** `a | b`. */
  function Or(a: Long, b: Long): (r: Long) {
    a + b
  }

  /** The positions `0 .. n-1`. */
  function LowBits(n: nat): (r: Long)
    requires n <= 64
    ensures forall i: nat :: i in r <==> i < n
  {
    if n == 0 then {} else LowBits(n - 1) + {n - 1}
  }

  /** The value `-1` (all 64 bits set). */
  function MinusOne(): Long {
    LowBits(64)
  }

  /** The value `-2` (all bits but bit 0 set). */
  function MinusTwo(): Long {
    LowBits(64) - {0}
  }

  /** No single-bit value is `-1` or `-2`; in particular `1 << 63` is not. */
  lemma BitIsNotErrorCode(i: nat)
    requires i < 64
    ensures Bit(i) != MinusOne() && Bit(i) != MinusTwo()
  {
    assert 1 in MinusOne() && 2 in MinusOne();
    assert 1 in MinusTwo() && 2 in MinusTwo();
  }

  /** Number of set bits of `m` among bits `0 .. n-1`. */
  function PopcountBelow(m: Long, n: nat): (c: nat)
    requires n <= 64
    ensures c <= n
  {
    if n == 0 then 0 else PopcountBelow(m, n - 1) + (if IsSet(m, n - 1) then 1 else 0)
  }

  /** Number of set bits of `m` (`Long.bitCount`). */
  function Popcount(m: Long): nat {
    PopcountBelow(m, 64)
  }

  /** The positions of the set bits of `m` below `n`, in ascending order. */
  function SetBitsBelow(m: Long, n: nat): (bits: seq<nat>)
    requires n <= 64
    ensures |bits| == PopcountBelow(m, n)
    ensures forall k :: 0 <= k < |bits| ==> bits[k] < n && IsSet(m, bits[k])
  {
    if n == 0 then [] else SetBitsBelow(m, n - 1) + (if IsSet(m, n - 1) then [n - 1] else [])
  }

  /** The positions of all set bits of `m`, in ascending order. */
  function SetBits(m: Long): seq<nat> {
    SetBitsBelow(m, 64)
  }

  /** The population count is the number of bits in the set. */
  lemma PopcountIsCardinality(m: Long)
    ensures Popcount(m) == |m|
  {
    PopcountBelowIsCardinality(m, 64);
    assert (set k | k in m && k < 64) == m;
  }

  lemma {:induction false} PopcountBelowIsCardinality(m: Long, n: nat)
    requires n <= 64
    ensures PopcountBelow(m, n) == |set k | k in m && k < n|
  {
    if n == 0 {
      assert (set k | k in m && k < 0) == {};
    } else {
      PopcountBelowIsCardinality(m, n - 1);
      var below := set k | k in m && k < n - 1;
      if IsSet(m, n - 1) {
        assert (set k | k in m && k < n) == below + {n - 1};
      } else {
        assert (set k | k in m && k < n) == below;
      }
    }
  }

  /** The listing is strictly ascending and holds every set bit below `n`. */
  lemma {:induction false} SetBitsBelowExact(m: Long, n: nat)
    requires n <= 64
    ensures forall k, l :: 0 <= k < l < |SetBitsBelow(m, n)| ==> SetBitsBelow(m, n)[k] < SetBitsBelow(m, n)[l]
    ensures forall i :: 0 <= i < n && IsSet(m, i) ==> i in SetBitsBelow(m, n)
  {
    if n > 0 {
      SetBitsBelowExact(m, n - 1);
    }
  }

  /** `PopcountBelow` never decreases, and it grows past each set bit. */
  lemma {:induction false} PopcountBelowMonotone(m: Long, i: nat, j: nat)
    requires i <= j <= 64
    ensures PopcountBelow(m, i) <= PopcountBelow(m, j)
    ensures (exists k :: i <= k < j && IsSet(m, k)) ==> PopcountBelow(m, i) < PopcountBelow(m, j)
  {
    if i < j {
      PopcountBelowMonotone(m, i, j - 1);
    }
  }

  /** No prefix holds more set bits than the whole value. */
  lemma PopcountBelowAtMost(m: Long, i: nat)
    requires i <= 64
    ensures PopcountBelow(m, i) <= Popcount(m)
  {
    PopcountBelowMonotone(m, i, 64);
  }

  /** With no set bits in `[i, j)`, the listing below `j` equals the listing below `i`. */
  lemma {:induction false} SetBitsBelowUnchanged(m: Long, i: nat, j: nat)
    requires i <= j <= 64
    requires forall k :: i <= k < j ==> !IsSet(m, k)
    ensures SetBitsBelow(m, j) == SetBitsBelow(m, i)
  {
    if i < j {
      SetBitsBelowUnchanged(m, i, j - 1);
    }
  }

  /** Once every set bit is counted below `i`, none lies above and the listing is complete. */
  lemma {:induction false} SetBitsBelowSaturated(m: Long, i: nat)
    requires i <= 64
    requires PopcountBelow(m, i) == Popcount(m)
    ensures forall k :: i <= k < 64 ==> !IsSet(m, k)
    ensures SetBitsBelow(m, i) == SetBits(m)
  {
    PopcountBelowMonotone(m, i, 64);
    SetBitsBelowUnchanged(m, i, 64);
  }

  /** A single-bit value has exactly one set bit, and the listing is that bit. */
  lemma {:induction false} PopcountBit(i: nat)
    requires i < 64
    ensures Popcount(Bit(i)) == 1
    ensures SetBits(Bit(i)) == [i]
  {
    PopcountBelowBit(i, 64);
  }

  lemma {:induction false} PopcountBelowBit(i: nat, n: nat)
    requires i < 64 && n <= 64
    ensures PopcountBelow(Bit(i), n) == if i < n then 1 else 0
    ensures SetBitsBelow(Bit(i), n) == if i < n then [i] else []
  {
    if n > 0 {
      PopcountBelowBit(i, n - 1);
    }
  }
}
