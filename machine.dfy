/** The interpreter's mutable state and the in-place step: the register file
    and memory as arrays that `store_register` and `store_memory` update, the
    program counter, and the console output so far. Every method that changes
    the machine, and `NextReadsConsole`, is proved to do what the corresponding
    function of module Semantics says; `LoadMemory` names the cell it reads. */
module ToyMachine {
  import opened Alu
  import opened Decoder
  import opened Semantics

  class Machine {
    var regs: array<nat>
    var mem: array<nat>
    var pc: int
    var out: seq<nat>

    ghost predicate Valid()
      reads this
    {
      regs.Length == RegisterCount && mem.Length == MemorySize && regs != mem
    }

    /** The machine's state as a value. */
    function Snapshot(): (st: State)
      reads this, regs, mem
      requires Valid()
      ensures st.Valid()
    {
      State(regs[..], mem[..], pc, out)
    }

    /** Start-up: every register and memory cell set to zero one at a time,
        the program counter at 0x10. */
    constructor ()
      ensures Valid() && fresh(regs) && fresh(mem)
      ensures Snapshot() == Initial()
    {
      var r := new nat[RegisterCount];
      for i := 0 to RegisterCount
        modifies r
        invariant forall k :: 0 <= k < i ==> r[k] == 0
      {
        r[i] := 0;
      }
      var m := new nat[MemorySize];
      for i := 0 to MemorySize
        modifies m
        invariant forall k :: 0 <= k < i ==> m[k] == 0
      {
        m[i] := 0;
      }
      assert r[..] == Initial().regs;
      assert m[..] == Initial().mem;
      regs, mem, pc, out := r, m, EntryPoint, [];
    }

    /** One line of the program listing placed in memory by the loader. */
    method LoadWord(address: nat, word: nat)
      requires Valid() && address < MemorySize
      modifies mem
      ensures Valid()
      ensures Snapshot() == Semantics.LoadWord(old(Snapshot()), address, word)
    {
      mem[address] := word;
    }

    /** `load_memory`: the cell named by the last two digits of `location`. */
    method LoadMemory(location: nat) returns (v: nat)
      requires Valid()
      ensures v == mem[CellOf(location)]
    {
      v := mem[CellOf(location)];
    }

    /** `store_memory`: writes the cell and echoes the word when it is cell FF. */
    method StoreMemory(address: nat, v: nat)
      requires Valid()
      modifies this`out, mem
      ensures Valid()
      ensures Snapshot() == Semantics.StoreMemory(old(Snapshot()), address, v)
    {
      var cell := CellOf(address);
      if cell == ConsoleAddress {
        out := out + [v];
      }
      mem[cell] := v;
    }

    /** `store_register`, refusing register 0. */
    method StoreRegister(d: nat, v: nat) returns (status: Status)
      requires Valid() && d < RegisterCount
      modifies regs
      ensures Valid()
      ensures Transition(Snapshot(), status) == Semantics.StoreRegister(old(Snapshot()), d, v)
    {
      if d == 0 {
        return ReservedRegister;
      }
      regs[d] := v;
      status := Next;
    }

    /** Opcodes 1 to 6. */
    method StepArithmetic(i: Instruction) returns (status: Status)
      requires Valid() && i.op.IsArithmetic()
      requires i.d < RegisterCount && i.s < RegisterCount && i.t < RegisterCount
      modifies this`pc, regs
      ensures Valid()
      ensures Transition(Snapshot(), status) == ExecuteArithmetic(old(Snapshot()), i)
    {
      var a := Signed(regs[i.s]);
      var b := Signed(regs[i.t]);
      var result := Compute(i.op, a, b);
      if result.NegativeShiftCount? {
        return NegativeShift(result.count);
      }
      if !InRange(result.r) {
        return RangeError(result.r);
      }
      status := StoreRegister(i.d, Normalized(result.r));
      if status == Next {
        pc := pc + 1;
      }
    }

    /** Opcodes 7, 8, 9, A and B; `inp` is what the console supplies to opcode 8 at FF. */
    method StepTransfer(i: Instruction, inp: nat) returns (status: Status)
      requires Valid() && i.op.IsTransfer()
      requires i.d < RegisterCount && i.t < RegisterCount && i.addr < MemorySize
      modifies this`pc, this`out, regs, mem
      ensures Valid()
      ensures Transition(Snapshot(), status) == ExecuteTransfer(old(Snapshot()), i, inp)
    {
      match i.op {
        case LoadAddress =>
          status := StoreRegister(i.d, i.addr);
        case Load =>
          if i.addr == ConsoleAddress {
            mem[ConsoleAddress] := inp;
          }
          status := StoreRegister(i.d, mem[i.addr]);
        case Store =>
          StoreMemory(i.addr, regs[i.d]);
          status := Next;
        case LoadIndirect =>
          var v := LoadMemory(regs[i.t]);
          status := StoreRegister(i.d, v);
        case StoreIndirect =>
          StoreMemory(regs[i.t], regs[i.d]);
          status := Next;
      }
      if status == Next {
        pc := pc + 1;
      }
    }

    /** Opcodes C, D, E and F. */
    method StepControl(i: Instruction) returns (status: Status)
      requires Valid() && i.op.IsControl()
      requires i.d < RegisterCount && i.addr < MemorySize
      modifies this`pc, regs
      ensures Valid()
      ensures Transition(Snapshot(), status) == ExecuteControl(old(Snapshot()), i)
    {
      status := Next;
      match i.op {
        case BranchZero =>
          pc := if Signed(regs[i.d]) == 0 then Signed(i.addr) else pc + 1;
        case BranchPositive =>
          pc := if regs[i.d] > 0 then Signed(i.addr) else pc + 1;
        case JumpRegister =>
          pc := Signed(regs[i.d]) + 1;
        case JumpAndLink =>
          status := StoreRegister(i.d, Normalized(pc));
          if status == Next {
            pc := Signed(i.addr);
          }
      }
    }

    /** `execute`: fetch the word the program counter selects, decode it and
        run it; `inp` is the word the console supplies if the step reads it. */
    method Step(inp: nat) returns (status: Status)
      requires Valid()
      modifies this`pc, this`out, regs, mem
      ensures Valid()
      ensures Transition(Snapshot(), status) == Execute(old(Snapshot()), inp)
    {
      var word := LoadMemory(FetchAddress(pc));
      var i := Decode(word);
      if i.op.Halt? {
        status := Halted;
      } else if i.op.IsArithmetic() {
        status := StepArithmetic(i);
      } else if i.op.IsTransfer() {
        status := StepTransfer(i, inp);
      } else {
        status := StepControl(i);
      }
    }

    /** Whether the next step reads the console. */
    method NextReadsConsole() returns (console: bool)
      requires Valid()
      ensures console == ReadsConsole(Snapshot())
    {
      var word := LoadMemory(FetchAddress(pc));
      var i := Decode(word);
      console := i.op == Load && i.addr == ConsoleAddress;
    }

    /** The run loop, for at most `fuel` steps, taking console words from `inputs`. */
    method Run(fuel: nat, inputs: seq<nat>) returns (end: RunEnd)
      requires Valid()
      modifies this`pc, this`out, regs, mem
      ensures Valid()
      ensures (Snapshot(), end) == Semantics.Run(old(Snapshot()), inputs, fuel)
    {
      var remaining, rest := fuel, inputs;
      while remaining > 0
        invariant Valid()
        invariant Semantics.Run(Snapshot(), rest, remaining) == Semantics.Run(old(Snapshot()), inputs, fuel)
        decreases remaining
      {
        var console := NextReadsConsole();
        if console && rest == [] {
          return Blocked;
        }
        var inp := if console then rest[0] else 0;
        var status := Step(inp);
        if console {
          rest := rest[1..];
        }
        remaining := remaining - 1;
        if status != Next {
          return Stopped(status);
        }
      }
      end := OutOfFuel;
    }
  }
}
