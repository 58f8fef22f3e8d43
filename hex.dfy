/** Hexadecimal text as the interpreter stores it: every register and memory
    cell holds a string of hex digits, written by `hex_string` and
    `long_hex_string` and read back by `int(x, 16)`. This module gives those
    string functions and proves the facts that let the rest of the model keep
    the numeric value `int(x, 16)` of each cell instead of its text. */
module Hex {

  function Abs(i: int): nat { if i < 0 then -i else i }

  predicate IsHexDigit(c: char) { '0' <= c <= '9' || 'A' <= c <= 'F' }

  predicate IsHexString(s: string) { forall k :: 0 <= k < |s| ==> IsHexDigit(s[k]) }

  function Pow16(k: nat): (p: nat)
    ensures p >= 1
  {
    if k == 0 then 1 else 16 * Pow16(k - 1)
  }

  /** `int(c, 16)` for a single upper-case hex digit. */
  function DigitValue(c: char): (d: nat)
    requires IsHexDigit(c)
    ensures d < 16
  {
    if c <= '9' then c as int - '0' as int else c as int - 'A' as int + 10
  }

  /** The upper-case digit for 0..15, as `hex(...).upper()` writes it. */
  function DigitChar(d: nat): (c: char)
    requires d < 16
    ensures IsHexDigit(c) && DigitValue(c) == d
  {
    if d < 10 then ('0' as int + d) as char else ('A' as int + d - 10) as char
  }

  /** `int(s, 16)`: the digits read most significant first (0 for the empty string). */
  function HexValue(s: string): (v: nat)
    requires IsHexString(s)
    ensures v < Pow16(|s|)
  {
    if s == [] then 0 else HexValue(s[..|s| - 1]) * 16 + DigitValue(s[|s| - 1])
  }

  /** The digits of `hex(n)` after the `0x` prefix: the shortest digit string of n. */
  function Digits(n: nat): (s: string)
    ensures IsHexString(s) && |s| >= 1
    ensures HexValue(s) == n
    ensures |s| == 1 <==> n < 16
    ensures n > 0 ==> s[0] != '0'
  {
    if n < 16 then [DigitChar(n)]
    else
      var high := Digits(n / 16);
      assert (high + [DigitChar(n % 16)])[..|high|] == high;
      high + [DigitChar(n % 16)]
  }

  function Zeros(k: nat): (z: string)
    ensures |z| == k && IsHexString(z) && HexValue(z) == 0
  {
    if k == 0 then []
    else
      var z := Zeros(k - 1);
      assert (z + ['0'])[..k - 1] == z;
      z + ['0']
  }

  /** `str.zfill(width)` on a digit string: pads with leading zeros up to `width`. */
  function ZFill(s: string, width: nat): (r: string)
    requires IsHexString(s)
    ensures IsHexString(r) && |r| == if |s| >= width then |s| else width
    ensures HexValue(r) == HexValue(s)
    ensures r[|r| - |s|..] == s
  {
    if |s| >= width then s
    else
      HexValueAppend(Zeros(width - |s|), s);
      Zeros(width - |s|) + s
  }

  /** `hex_string(i)`: the digits of |i|, at least two of them. Python's `hex`
      writes a minus sign before the `0x`, and the slice after 'x' drops it. */
  function HexString(i: int): (s: string)
    ensures IsHexString(s) && |s| >= 2
    ensures HexValue(s) == Abs(i)
  {
    ZFill(Digits(Abs(i)), 2)
  }

  /** `long_hex_string(i)`: `hex_string(i)` padded to at least four digits. */
  function LongHexString(i: int): (s: string)
    ensures IsHexString(s) && |s| >= 4
    ensures HexValue(s) == Abs(i)
    ensures Abs(i) < 0x1_0000 ==> |s| == 4
  {
    assert Pow16(4) == 0x1_0000 by { assert Pow16(2) == 256 by { assert Pow16(1) == 16; } }
    DigitsWidth(Abs(i), 4);
    ZFill(HexString(i), 4)
  }

  /** `s[-2:]`: the key truncation `load_memory` and `store_memory` apply. */
  function LastTwo(s: string): (r: string)
    requires IsHexString(s) && |s| >= 2
    ensures IsHexString(r) && |r| == 2
  {
    s[|s| - 2..]
  }

  lemma {:induction false} HexValueAppend(a: string, b: string)
    requires IsHexString(a) && IsHexString(b)
    ensures IsHexString(a + b)
    ensures HexValue(a + b) == HexValue(a) * Pow16(|b|) + HexValue(b)
  {
    if b == [] {
      assert a + b == a;
    } else {
      var front := b[..|b| - 1];
      assert (a + b)[..|a + b| - 1] == a + front;
      assert b[..|b| - 1] == front;
      HexValueAppend(a, front);
      var d := DigitValue(b[|b| - 1]);
      assert HexValue(a + b) == HexValue(a + front) * 16 + d;
      assert HexValue(b) == HexValue(front) * 16 + d;
      ShiftDigit(HexValue(a), Pow16(|front|), HexValue(front), d, HexValue(a + front), HexValue(a + b), HexValue(b), Pow16(|b|));
    }
  }

  lemma ShiftDigit(x: int, p: int, f: int, d: int, xf: int, xb: int, fb: int, pb: int)
    requires xf == x * p + f && xb == xf * 16 + d && fb == f * 16 + d && pb == 16 * p
    ensures xb == x * pb + fb
  {
  }

  lemma LowByteOf(q: nat, r: nat, v: nat, p: nat)
    requires p == 256 && r < 256 && v == q * p + r
    ensures v % 256 == r
  {
  }

  /** A number below 16^k needs at most k digits. */
  lemma {:induction false} DigitsWidth(n: nat, k: nat)
    requires k >= 1
    ensures n < Pow16(k) ==> |Digits(n)| <= k
  {
    if n >= 16 && n < Pow16(k) {
      assert Pow16(1) == 16;
      assert k != 1;
      assert n / 16 < Pow16(k - 1);
      DigitsWidth(n / 16, k - 1);
    }
  }

  /** The last two digits of any digit string of at least two digits read as
      its value modulo 256: the key truncation addresses memory by the low byte. */
  lemma LastTwoIsLowByte(s: string)
    requires IsHexString(s) && |s| >= 2
    ensures HexValue(LastTwo(s)) == HexValue(s) % 256
  {
    var front, back := s[..|s| - 2], s[|s| - 2..];
    assert s == front + back;
    HexValueAppend(front, back);
    assert Pow16(2) == 256 by { assert Pow16(1) == 16; }
    LowByteOf(HexValue(front), HexValue(back), HexValue(s), Pow16(|back|));
  }

  /** The fetch in `execute` reads the cell at `hex_string(program_counter)[-2:]`:
      the low byte of |PC|. */
  lemma FetchKeyIsLowByte(pc: int)
    ensures HexValue(LastTwo(HexString(pc))) == Abs(pc) % 256
  {
    LastTwoIsLowByte(HexString(pc));
  }
}
