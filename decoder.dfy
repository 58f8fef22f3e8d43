/** Decoding of a fetched instruction word into the fields the TOY reference
    card names: `opcode`, `d`, `s`, `t` (one hex digit each) and `addr` (the
    last two digits). The source slices the four-digit text of the word. */
module Decoder {
  import opened Hex

  /** The sixteen opcodes, in the order of their hex digit. Opcode 4 computes
      exclusive-or although the source labels it binary OR. */
  datatype Opcode =
    | Halt | Add | Subtract | And | Xor | ShiftLeft | ShiftRight
    | LoadAddress | Load | Store | LoadIndirect | StoreIndirect
    | BranchZero | BranchPositive | JumpRegister | JumpAndLink
  {
    /** The hex digit that selects this opcode. */
    function Code(): (c: nat)
      ensures c < 16
    {
      match this
      case Halt => 0x0
      case Add => 0x1
      case Subtract => 0x2
      case And => 0x3
      case Xor => 0x4
      case ShiftLeft => 0x5
      case ShiftRight => 0x6
      case LoadAddress => 0x7
      case Load => 0x8
      case Store => 0x9
      case LoadIndirect => 0xA
      case StoreIndirect => 0xB
      case BranchZero => 0xC
      case BranchPositive => 0xD
      case JumpRegister => 0xE
      case JumpAndLink => 0xF
    }

    /** Opcodes 1 to 6, which compute a register from two registers. */
    predicate IsArithmetic() { Add? || Subtract? || And? || Xor? || ShiftLeft? || ShiftRight? }

    /** Opcodes 7 to B, which move words between registers, memory and the console. */
    predicate IsTransfer() { LoadAddress? || Load? || Store? || LoadIndirect? || StoreIndirect? }

    /** Opcodes C to F, which choose the next program counter. */
    predicate IsControl() { BranchZero? || BranchPositive? || JumpRegister? || JumpAndLink? }
  }

  /** The `match opcode` dispatch: every digit selects exactly one opcode. */
  function OpcodeOf(digit: nat): (op: Opcode)
    requires digit < 16
    ensures op.Code() == digit
  {
    if digit == 0x0 then Halt
    else if digit == 0x1 then Add
    else if digit == 0x2 then Subtract
    else if digit == 0x3 then And
    else if digit == 0x4 then Xor
    else if digit == 0x5 then ShiftLeft
    else if digit == 0x6 then ShiftRight
    else if digit == 0x7 then LoadAddress
    else if digit == 0x8 then Load
    else if digit == 0x9 then Store
    else if digit == 0xA then LoadIndirect
    else if digit == 0xB then StoreIndirect
    else if digit == 0xC then BranchZero
    else if digit == 0xD then BranchPositive
    else if digit == 0xE then JumpRegister
    else JumpAndLink
  }

  /** Distinct opcodes have distinct digits, so decoding a digit is the inverse of `Code`. */
  lemma OpcodeOfCode(op: Opcode)
    ensures OpcodeOf(op.Code()) == op
  {
  }

  datatype Instruction = Instruction(op: Opcode, d: nat, s: nat, t: nat, addr: nat)

  /** Splits the low four hex digits of a fetched word into its fields. */
  function Decode(w: nat): (i: Instruction)
    ensures i.d < 16 && i.s < 16 && i.t < 16 && i.addr < 0x100
  {
    var low := w % 0x1_0000;
    Instruction(OpcodeOf(low / 0x1000), low / 0x100 % 16, low / 16 % 16, low % 16, low % 0x100)
  }

  /** The fields are the positional digits of the word: `addr` is the digit
      pair s, t, and opcode, d and `addr` put back together give the word. */
  lemma DecodeIsPositional(w: nat)
    ensures var i := Decode(w);
      i.addr == 16 * i.s + i.t && i.op.Code() * 0x1000 + i.d * 0x100 + i.addr == w % 0x1_0000
  {
    var low := w % 0x1_0000;
    var i := Decode(w);
    assert i.op.Code() == low / 0x1000;
    Positional(low, low / 0x1000, low / 0x100 % 16, low / 16 % 16, low % 16, low % 0x100);
  }

  lemma Positional(low: nat, op: nat, d: nat, s: nat, t: nat, addr: nat)
    requires low < 0x1_0000
    requires op == low / 0x1000 && d == low / 0x100 % 16 && s == low / 16 % 16 && t == low % 16
    requires addr == low % 0x100
    ensures addr == 16 * s + t && op * 0x1000 + d * 0x100 + addr == low
  {
    var q1 := low / 16;
    assert low == 16 * q1 + t;
    var q2 := q1 / 16;
    assert q1 == 16 * q2 + s;
    assert q2 == low / 0x100;
    var q3 := q2 / 16;
    assert q2 == 16 * q3 + d;
    assert q3 == op;
  }

  /** On the four-digit text of a word, the fields are its digits in order and
      `addr` is its last two digits, as `instruction[0]`, `[1]`, `[2]`, `[3]`
      and `instruction[2:4]` read them. */
  lemma DecodeReadsDigits(text: string)
    requires IsHexString(text) && |text| == 4
    ensures Decode(HexValue(text)) ==
      Instruction(OpcodeOf(DigitValue(text[0])), DigitValue(text[1]),
                  DigitValue(text[2]), DigitValue(text[3]), HexValue(text[2..4]))
  {
    var d0, d1, d2, d3 := DigitValue(text[0]), DigitValue(text[1]), DigitValue(text[2]), DigitValue(text[3]);
    FourDigitValue(text);
    PositionalDigits(HexValue(text), d0, d1, d2, d3);
    assert text[2..4][..1] == [text[2]];
    assert text[2..4][..1][..0] == [];
  }

  lemma FourDigitValue(text: string)
    requires IsHexString(text) && |text| == 4
    ensures HexValue(text) ==
      ((DigitValue(text[0]) * 16 + DigitValue(text[1])) * 16 + DigitValue(text[2])) * 16 + DigitValue(text[3])
  {
    var d0, d1, d2, d3 := DigitValue(text[0]), DigitValue(text[1]), DigitValue(text[2]), DigitValue(text[3]);
    assert text[..1][..0] == [];
    assert HexValue(text[..1]) == d0;
    assert text[..2][..1] == text[..1];
    assert HexValue(text[..2]) == d0 * 16 + d1;
    assert text[..3][..2] == text[..2];
    assert HexValue(text[..3]) == (d0 * 16 + d1) * 16 + d2;
    assert text[..3] == text[..|text| - 1];
  }

  lemma PositionalDigits(w: nat, d0: nat, d1: nat, d2: nat, d3: nat)
    requires d0 < 16 && d1 < 16 && d2 < 16 && d3 < 16
    requires w == ((d0 * 16 + d1) * 16 + d2) * 16 + d3
    ensures w % 0x1_0000 == w
    ensures w / 0x1000 == d0 && w / 0x100 % 16 == d1 && w / 16 % 16 == d2 && w % 16 == d3
    ensures w % 0x100 == d2 * 16 + d3
  {
  }
}
