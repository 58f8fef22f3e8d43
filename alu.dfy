/** The numeric side of the TOY machine: the two's-complement reading of a
    stored word (`decimal`), the range check every arithmetic result passes
    (`check_range`), the value a result is stored as (`long_hex_string`), and
    Python's operators `+ - & ^ << >>` on unbounded integers. */
module Alu {
  import opened Hex

  const WordSize: int := 0x1_0000
  const MinSigned: int := -0x8000
  const MaxSigned: int := 0x7FFF

  predicate IsWord(v: int) { 0 <= v < WordSize }

  /** The condition under which `check_range` does not raise. */
  predicate InRange(r: int) { MinSigned <= r <= MaxSigned }

  /** Two's-complement encoding of an in-range number: the unique word congruent
      to it modulo 2^16. The source never computes it; it is the reference that
      `decimal` is measured against. */
  function Unsigned(r: int): (v: nat)
    requires InRange(r)
    ensures IsWord(v)
  {
    if r < 0 then r + WordSize else r
  }

  /** `decimal`: the value of a stored word read as a 16-bit two's-complement number. */
  function Signed(v: nat): (r: int)
    ensures IsWord(v) ==> InRange(r)
  {
    if v > MaxSigned then v - WordSize else v
  }

  /** `Unsigned` gives the one word congruent to r modulo 2^16. */
  lemma UnsignedIsCongruent(r: int)
    requires InRange(r)
    ensures (Unsigned(r) - r) % WordSize == 0
    ensures forall v :: IsWord(v) && (v - r) % WordSize == 0 ==> v == Unsigned(r)
  {
  }

  /** `decimal` differs from the stored word by a multiple of 2^16 and, on a
      word, is undone by the two's-complement encoding. */
  lemma SignedIsTwosComplement(v: nat)
    ensures (v - Signed(v)) % WordSize == 0
    ensures IsWord(v) ==> Unsigned(Signed(v)) == v
  {
  }

  /** The number `long_hex_string(r)` writes: Python's `hex` puts the sign in
      front of the `0x` and the slice after 'x' drops it, so a negative result
      is stored as its magnitude rather than its two's complement. */
  function Normalized(r: int): (v: nat)
    ensures InRange(r) ==> IsWord(v)
  {
    Abs(r)
  }

  /** `Normalized` is the number the text of `long_hex_string` reads as, and
      `decimal` gives back the result exactly for non-negative results and for
      -32768; any other negative result comes back with its sign lost. */
  lemma NormalizedReadsBack(r: int)
    ensures Normalized(r) == HexValue(LongHexString(r))
    ensures InRange(r) ==> (Signed(Normalized(r)) == r <==> r >= 0 || r == MinSigned)
    ensures MinSigned < r < 0 ==> Signed(Normalized(r)) == -r
  {
    var s := LongHexString(r);
    assert HexValue(s) == Abs(r);
    if r >= 0 {
      assert Normalized(r) == r;
    } else if r == MinSigned {
      assert Normalized(r) == 0x8000;
    } else {
      assert Normalized(r) == -r;
    }
  }

  /** Reading back a word through `decimal` and re-encoding it gives the word. */
  lemma SignedRoundTrip(r: int)
    requires InRange(r)
    ensures Signed(Unsigned(r)) == r
  {
  }

  function Pow2(k: nat): (p: nat)
    ensures p >= 1
  {
    if k == 0 then 1 else 2 * Pow2(k - 1)
  }

  /** The sign extension of a two's-complement integer: all bits above here are 0 or all 1. */
  predicate IsSign(x: int) { x == 0 || x == -1 }

  /** Bit k of x in Python's infinite two's-complement view of integers. */
  predicate Bit(x: int, k: nat)
    decreases k
  {
    if k == 0 then x % 2 == 1 else Bit(x / 2, k - 1)
  }

  lemma HalfShrinks(x: int)
    ensures Abs(x / 2) <= Abs(x)
    ensures !IsSign(x) ==> Abs(x / 2) < Abs(x)
  {
  }

  /** Python's `a & b` on unbounded integers, one bit at a time from the bottom. */
  function BitAnd(a: int, b: int): int
    decreases Abs(a) + Abs(b)
  {
    if IsSign(a) && IsSign(b) then (if a == -1 && b == -1 then -1 else 0)
    else
      HalfShrinks(a);
      HalfShrinks(b);
      2 * BitAnd(a / 2, b / 2) + (if a % 2 == 1 && b % 2 == 1 then 1 else 0)
  }

  /** Python's `a ^ b` on unbounded integers, one bit at a time from the bottom. */
  function BitXor(a: int, b: int): int
    decreases Abs(a) + Abs(b)
  {
    if IsSign(a) && IsSign(b) then (if a == b then 0 else -1)
    else
      HalfShrinks(a);
      HalfShrinks(b);
      2 * BitXor(a / 2, b / 2) + (if a % 2 != b % 2 then 1 else 0)
  }

  lemma BitAndHalves(a: int, b: int)
    ensures BitAnd(a, b) / 2 == BitAnd(a / 2, b / 2)
    ensures BitAnd(a, b) % 2 == (if a % 2 == 1 && b % 2 == 1 then 1 else 0)
  {
  }

  lemma BitXorHalves(a: int, b: int)
    ensures BitXor(a, b) / 2 == BitXor(a / 2, b / 2)
    ensures BitXor(a, b) % 2 == (if a % 2 != b % 2 then 1 else 0)
  {
  }

  /** Every bit of `a & b` is the conjunction of the operands' bits. */
  lemma {:induction false} BitAndIsBitwise(a: int, b: int, k: nat)
    decreases k
    ensures Bit(BitAnd(a, b), k) <==> Bit(a, k) && Bit(b, k)
  {
    BitAndHalves(a, b);
    if k > 0 {
      BitAndIsBitwise(a / 2, b / 2, k - 1);
    }
  }

  /** Every bit of `a ^ b` is set exactly when the operands' bits differ. */
  lemma {:induction false} BitXorIsBitwise(a: int, b: int, k: nat)
    decreases k
    ensures Bit(BitXor(a, b), k) <==> Bit(a, k) != Bit(b, k)
  {
    BitXorHalves(a, b);
    if k > 0 {
      BitXorIsBitwise(a / 2, b / 2, k - 1);
    }
  }

  predicate InSignedBits(x: int, k: nat) { -(Pow2(k) as int) <= x < Pow2(k) }

  lemma HalfInSignedBits(x: int, k: nat)
    requires k > 0 && InSignedBits(x, k)
    ensures InSignedBits(x / 2, k - 1)
  {
  }

  /** `&` and `^` of two (k+1)-bit two's-complement numbers fit in k+1 bits. */
  lemma {:induction false} BitwiseStaysInBits(a: int, b: int, k: nat)
    requires InSignedBits(a, k) && InSignedBits(b, k)
    decreases k
    ensures InSignedBits(BitAnd(a, b), k) && InSignedBits(BitXor(a, b), k)
  {
    if k > 0 && !(IsSign(a) && IsSign(b)) {
      HalfInSignedBits(a, k);
      HalfInSignedBits(b, k);
      BitwiseStaysInBits(a / 2, b / 2, k - 1);
    }
  }

  /** `check_range` never rejects `a & b` or `a ^ b` of two results of `decimal`. */
  lemma BitwiseInRange(a: int, b: int)
    ensures InRange(a) && InRange(b) ==> InRange(BitAnd(a, b)) && InRange(BitXor(a, b))
  {
    assert Pow2(15) == 0x8000 by {
      assert Pow2(5) == 32;
      assert Pow2(10) == 1024;
    }
    if InRange(a) && InRange(b) {
      BitwiseStaysInBits(a, b, 15);
    }
  }

  /** The result of a shift: Python raises ValueError for a negative count. */
  datatype Outcome = Value(r: int) | NegativeShiftCount(count: int)

  /** `a << b`. */
  function LeftShift(a: int, b: int): (o: Outcome)
    ensures o.NegativeShiftCount? <==> b < 0
    ensures o.NegativeShiftCount? ==> o.count == b
    ensures o.Value? ==> o.r / Pow2(b) == a && o.r % Pow2(b) == 0
  {
    if b < 0 then NegativeShiftCount(b)
    else
      ExactDivision(a, Pow2(b));
      Value(a * Pow2(b))
  }

  /** `a >> b`: floor division by 2^b, also for negative a. */
  function RightShift(a: int, b: int): (o: Outcome)
    ensures o.NegativeShiftCount? <==> b < 0
    ensures o.NegativeShiftCount? ==> o.count == b
    ensures o.Value? ==> Pow2(b) * o.r <= a < Pow2(b) * (o.r + 1)
  {
    if b < 0 then NegativeShiftCount(b)
    else
      FloorDivision(a, Pow2(b));
      Value(a / Pow2(b))
  }

  lemma ExactDivision(a: int, p: int)
    requires p >= 1
    ensures (a * p) / p == a && (a * p) % p == 0
  {
    var q, r := (a * p) / p, (a * p) % p;
    assert a * p == q * p + r && 0 <= r < p;
    assert (a - q) * p == r;
    SmallMultiple(a - q, p, r);
  }

  lemma SmallMultiple(x: int, p: int, r: int)
    requires p >= 1 && 0 <= r < p && x * p == r
    ensures x == 0
  {
  }

  lemma FloorDivision(a: int, p: int)
    requires p >= 1
    ensures p * (a / p) <= a < p * (a / p + 1)
  {
  }
}
