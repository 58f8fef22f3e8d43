/** One step of the TOY interpreter (`execute`) as a function on a machine
    state value. The `Machine` class in module ToyMachine performs the same
    step in place and is proved to agree with `Execute`. */
module Semantics {
  import opened Hex
  import opened Alu
  import opened Decoder

  const RegisterCount: nat := 16
  const MemorySize: nat := 256
  /** The memory-mapped console cell. */
  const ConsoleAddress: nat := 0xFF
  /** The program counter a run starts from. */
  const EntryPoint: int := 0x10

  /** Registers and memory hold the value `int(x, 16)` of their text; `out`
      is the sequence of words written to the console so far. */
  datatype State = State(regs: seq<nat>, mem: seq<nat>, pc: int, out: seq<nat>)
  {
    predicate Valid() { |regs| == RegisterCount && |mem| == MemorySize }
  }

  /** How a step ends. `Next` continues the run; the others end it: `Halted`
      is opcode 0, the rest are the exceptions `execute` raises. */
  datatype Status =
    | Next
    | Halted
    | RangeError(value: int)
    | ReservedRegister
    | NegativeShift(count: int)

  datatype Transition = Transition(after: State, status: Status)

  /** Registers and memory zeroed, the program counter at the entry point,
      nothing printed yet. */
  function Initial(): (st: State)
    ensures st.Valid() && st.pc == EntryPoint && st.out == []
    ensures forall r :: 0 <= r < RegisterCount ==> st.regs[r] == 0
    ensures forall a :: 0 <= a < MemorySize ==> st.mem[a] == 0
  {
    State(seq(RegisterCount, _ => 0), seq(MemorySize, _ => 0), EntryPoint, [])
  }

  /** The loader's `memory[line[0:2]] = line[4:8]` for one program line. */
  function LoadWord(st: State, address: nat, word: nat): (r: State)
    requires st.Valid() && address < MemorySize
    ensures r.Valid() && r.regs == st.regs && r.pc == st.pc && r.out == st.out
    ensures r.mem[address] == word
    ensures forall a :: 0 <= a < MemorySize && a != address ==> r.mem[a] == st.mem[a]
  {
    st.(mem := st.mem[address := word])
  }

  /** The cell `load_memory(hex_string(program_counter))` fetches: the key
      is the last two digits of the text of |PC|. */
  function FetchAddress(pc: int): (a: nat)
    ensures a < MemorySize
  {
    Abs(pc) % 256
  }

  lemma FetchAddressIsKey(pc: int)
    ensures FetchAddress(pc) == HexValue(LastTwo(HexString(pc)))
  {
    FetchKeyIsLowByte(pc);
  }

  /** The cell that `load_memory` and `store_memory` address through a stored
      value v: the text of v cut to its last two digits. */
  function CellOf(v: nat): (a: nat)
    ensures a < MemorySize
    ensures v < MemorySize ==> a == v
  {
    v % 256
  }

  lemma CellOfIsKey(v: nat)
    ensures CellOf(v) == HexValue(LastTwo(LongHexString(v)))
  {
    LastTwoIsLowByte(LongHexString(v));
  }

  /** `store_register` with the reserved-register guard the source intends:
      writing register 0 is an error that changes nothing. */
  function StoreRegister(st: State, d: nat, v: nat): (t: Transition)
    requires st.Valid() && d < RegisterCount
    ensures t.after.Valid()
    ensures t.status == ReservedRegister <==> d == 0
    ensures t.status == Next <==> d != 0
    ensures d == 0 ==> t.after == st
    ensures d != 0 ==>
      t.after.regs[d] == v && t.after.mem == st.mem && t.after.pc == st.pc && t.after.out == st.out
    ensures forall r :: 0 <= r < RegisterCount && r != d ==> t.after.regs[r] == st.regs[r]
  {
    if d == 0 then Transition(st, ReservedRegister)
    else Transition(st.(regs := st.regs[d := v]), Next)
  }

  /** `store_memory`: writes the addressed cell, and echoes the word to the
      console when that cell is the console cell. */
  function StoreMemory(st: State, address: nat, v: nat): (r: State)
    requires st.Valid()
    ensures r.Valid() && r.regs == st.regs && r.pc == st.pc
    ensures r.mem[CellOf(address)] == v
    ensures forall a :: 0 <= a < MemorySize && a != CellOf(address) ==> r.mem[a] == st.mem[a]
    ensures r.out == if CellOf(address) == ConsoleAddress then st.out + [v] else st.out
  {
    var cell := CellOf(address);
    var out := if cell == ConsoleAddress then st.out + [v] else st.out;
    st.(mem := st.mem[cell := v], out := out)
  }

  /** The fall-through `return program_counter + 1` after a step that went on. */
  function Advance(t: Transition): (r: Transition)
    ensures r.status == t.status
    ensures r.after.regs == t.after.regs && r.after.mem == t.after.mem && r.after.out == t.after.out
    ensures r.after.pc == if t.status == Next then t.after.pc + 1 else t.after.pc
  {
    if t.status == Next then Transition(t.after.(pc := t.after.pc + 1), Next) else t
  }

  /** The six arithmetic operations on the `decimal` readings of registers s and t. */
  function Compute(op: Opcode, a: int, b: int): (o: Outcome)
    requires op.IsArithmetic()
    ensures o.NegativeShiftCount? ==> (op == ShiftLeft || op == ShiftRight) && b < 0
    ensures (op == And || op == Xor) && InRange(a) && InRange(b) ==> o.Value? && InRange(o.r)
  {
    match op
    case Add => Value(a + b)
    case Subtract => Value(a - b)
    case And => BitwiseInRange(a, b); Value(BitAnd(a, b))
    case Xor => BitwiseInRange(a, b); Value(BitXor(a, b))
    case ShiftLeft => LeftShift(a, b)
    case ShiftRight => RightShift(a, b)
  }

  /** Opcodes 1 to 6: compute, `check_range`, then store the result in register d. */
  function ExecuteArithmetic(st: State, i: Instruction): (t: Transition)
    requires st.Valid() && i.op.IsArithmetic()
    requires i.d < RegisterCount && i.s < RegisterCount && i.t < RegisterCount
    ensures t.after.mem == st.mem && t.after.out == st.out
    ensures t.status != Next ==> t.after == st
  {
    match Compute(i.op, Signed(st.regs[i.s]), Signed(st.regs[i.t]))
    case NegativeShiftCount(count) => Transition(st, NegativeShift(count))
    case Value(r) =>
      if !InRange(r) then Transition(st, RangeError(r))
      else Advance(StoreRegister(st, i.d, Normalized(r)))
  }

  /** The instruction at the cell the program counter selects. */
  function Fetch(st: State): (i: Instruction)
    requires st.Valid()
  {
    Decode(st.mem[FetchAddress(st.pc)])
  }

  /** Whether this step reads the console: only opcode 8 with `addr` FF does. */
  predicate ReadsConsole(st: State)
    requires st.Valid()
  {
    Fetch(st).op == Load && Fetch(st).addr == ConsoleAddress
  }

  /** Opcodes 7, 8, 9, A and B: moves between registers, memory and the console. */
  function ExecuteTransfer(st: State, i: Instruction, inp: nat): (t: Transition)
    requires st.Valid() && i.op.IsTransfer()
    requires i.d < RegisterCount && i.t < RegisterCount && i.addr < MemorySize
    ensures t.after.Valid()
    ensures t.after.regs[0] == st.regs[0]
    ensures |st.out| <= |t.after.out| && t.after.out[..|st.out|] == st.out
    ensures t.status != Next ==> t.after.pc == st.pc && t.after.regs == st.regs
  {
    match i.op
    case LoadAddress => Advance(StoreRegister(st, i.d, i.addr))
    case Load =>
      var loaded := if i.addr == ConsoleAddress then st.(mem := st.mem[ConsoleAddress := inp]) else st;
      Advance(StoreRegister(loaded, i.d, loaded.mem[i.addr]))
    case Store => Advance(Transition(StoreMemory(st, i.addr, st.regs[i.d]), Next))
    case LoadIndirect => Advance(StoreRegister(st, i.d, st.mem[CellOf(st.regs[i.t])]))
    case StoreIndirect => Advance(Transition(StoreMemory(st, st.regs[i.t], st.regs[i.d]), Next))
  }

  /** Opcodes C, D, E and F: the next program counter. */
  function ExecuteControl(st: State, i: Instruction): (t: Transition)
    requires st.Valid() && i.op.IsControl()
    requires i.d < RegisterCount && i.addr < MemorySize
    ensures t.after.Valid()
    ensures t.after.regs[0] == st.regs[0]
    ensures t.after.mem == st.mem && t.after.out == st.out
    ensures t.status != Next ==> t.after == st
  {
    match i.op
    case BranchZero =>
      Transition(st.(pc := if Signed(st.regs[i.d]) == 0 then Signed(i.addr) else st.pc + 1), Next)
    case BranchPositive =>
      Transition(st.(pc := if st.regs[i.d] > 0 then Signed(i.addr) else st.pc + 1), Next)
    case JumpRegister => Transition(st.(pc := Signed(st.regs[i.d]) + 1), Next)
    case JumpAndLink =>
      var linked := StoreRegister(st, i.d, Normalized(st.pc));
      if linked.status == Next then Transition(linked.after.(pc := Signed(i.addr)), Next) else linked
  }

  /** `execute`: fetch, decode and run one instruction. `inp` is the word the
      console supplies if the instruction reads it. */
  function Execute(st: State, inp: nat): (t: Transition)
    requires st.Valid()
    ensures t.after.Valid()
    ensures t.after.regs[0] == st.regs[0]
    ensures |st.out| <= |t.after.out| && t.after.out[..|st.out|] == st.out
    ensures t.status != Next ==> t.after.pc == st.pc && t.after.regs == st.regs
    ensures t.status == Halted <==> Fetch(st).op == Halt
    ensures t.status == Halted ==> t.after == st
  {
    var i := Fetch(st);
    if i.op.Halt? then Transition(st, Halted)
    else if i.op.IsArithmetic() then ExecuteArithmetic(st, i)
    else if i.op.IsTransfer() then ExecuteTransfer(st, i, inp)
    else ExecuteControl(st, i)
  }

  /** How a bounded run ends: a step that did not continue, a console read
      with no input left (the source would block), or the fuel used up. */
  datatype RunEnd = Stopped(status: Status) | Blocked | OutOfFuel

  /** The run loop `while program_counter != None: execute()`, bounded by
      `fuel` steps; `inputs` are the words the console supplies in turn. */
  function Run(st: State, inputs: seq<nat>, fuel: nat): (r: (State, RunEnd))
    requires st.Valid()
    ensures r.0.Valid()
    ensures r.0.regs[0] == st.regs[0]
    ensures r.1.Stopped? ==> r.1.status != Next
    decreases fuel, 1
  {
    if fuel == 0 then (st, OutOfFuel)
    else if ReadsConsole(st) && inputs == [] then (st, Blocked)
    else Turn(st, inputs, fuel)
  }

  /** One turn of the run loop: execute the next instruction, consuming a
      console word if it reads one, and go on unless it stopped. */
  function Turn(st: State, inputs: seq<nat>, fuel: nat): (r: (State, RunEnd))
    requires st.Valid() && fuel > 0 && !(ReadsConsole(st) && inputs == [])
    ensures r.0.Valid()
    ensures r.0.regs[0] == st.regs[0]
    ensures r.1.Stopped? ==> r.1.status != Next
    decreases fuel, 0
  {
    var inp := if ReadsConsole(st) then inputs[0] else 0;
    var rest := if ReadsConsole(st) then inputs[1..] else inputs;
    var t := Execute(st, inp);
    if t.status == Next then Run(t.after, rest, fuel - 1) else (t.after, Stopped(t.status))
  }

  datatype Option<T> = None | Some(value: T)

  /** The key `store_register` writes under: `str(address)[-1:]`, a single
      character for the single hex digit `d`. */
  function RegisterKey(d: nat): (key: string)
    requires d < RegisterCount
    ensures |key| == 1 && IsHexString(key) && HexValue(key) == d
  {
    [DigitChar(d)]
  }

  /** `store_register` as the source writes it: the reserved-register guard
      compares the one-character key with the two-character "00", so it never
      raises (its message would call the undefined `convert_to_hex_string`).
      `None` would stand for the exception. */
  function StoreRegisterAsWritten(regs: seq<nat>, d: nat, v: nat): (r: Option<seq<nat>>)
    requires |regs| == RegisterCount && d < RegisterCount
    ensures r == Some(regs[d := v])
  {
    if RegisterKey(d) == "00" then None else Some(regs[d := v])
  }
}
