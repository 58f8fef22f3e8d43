/** What one step and a bounded run of the TOY interpreter promise, stated
    about the functions of module Semantics. */
module StepProperties {
  import opened Hex
  import opened Alu
  import opened Decoder
  import opened Semantics

  predicate AllWords(s: seq<nat>) { forall k :: 0 <= k < |s| ==> IsWord(s[k]) }

  /** At most one position of two equally long sequences differs. */
  predicate AtMostOneChange(before: seq<nat>, after: seq<nat>)
  {
    |before| == |after| &&
    forall j, k :: 0 <= j < k < |before| && before[j] != after[j] ==> before[k] == after[k]
  }

  /** Opcodes 1 to 6: an out-of-range result or a negative shift count raises
      before anything changes; register 0 as destination is rejected;
      otherwise register d receives the normalised result and nothing else
      but the program counter, which moves on by one, changes. */
  lemma ArithmeticStep(st: State, inp: nat)
    requires st.Valid() && Fetch(st).op.IsArithmetic()
    ensures
      var i := Fetch(st);
      var o := Compute(i.op, Signed(st.regs[i.s]), Signed(st.regs[i.t]));
      var t := Execute(st, inp);
      && (o.NegativeShiftCount? ==> t == Transition(st, NegativeShift(o.count)))
      && (o.Value? && !InRange(o.r) ==> t == Transition(st, RangeError(o.r)))
      && (o.Value? && InRange(o.r) && i.d == 0 ==> t == Transition(st, ReservedRegister))
      && (o.Value? && InRange(o.r) && i.d != 0 ==>
            t.status == Next && t.after.regs == st.regs[i.d := Normalized(o.r)]
            && t.after.mem == st.mem && t.after.out == st.out && t.after.pc == st.pc + 1)
  {
  }

  /** Opcodes 3 and 4 on words never trip `check_range`. */
  lemma BitwiseNeverRangeError(st: State, inp: nat)
    requires st.Valid() && (Fetch(st).op == And || Fetch(st).op == Xor)
    requires IsWord(st.regs[Fetch(st).s]) && IsWord(st.regs[Fetch(st).t])
    ensures !Execute(st, inp).status.RangeError?
    ensures !Execute(st, inp).status.NegativeShift?
  {
  }

  /** Opcode 7 loads `addr` (0 to 255) into register d and moves on. */
  lemma LoadAddressStep(st: State, inp: nat)
    requires st.Valid() && Fetch(st).op == LoadAddress && Fetch(st).d != 0
    ensures
      var i := Fetch(st);
      var t := Execute(st, inp);
      t.status == Next && t.after == st.(regs := st.regs[i.d := i.addr], pc := st.pc + 1)
      && t.after.regs[i.d] < MemorySize
  {
  }

  /** Opcode 8 at an ordinary address copies memory cell `addr` into register d and moves on. */
  lemma LoadStep(st: State, inp: nat)
    requires st.Valid() && Fetch(st).op == Load
    requires Fetch(st).addr != ConsoleAddress && Fetch(st).d != 0
    ensures
      var i := Fetch(st);
      var t := Execute(st, inp);
      t.status == Next && t.after == st.(regs := st.regs[i.d := st.mem[i.addr]], pc := st.pc + 1)
  {
  }

  /** Opcode 9 copies register d into memory cell `addr` and moves on; only at
      FF does the word also go to the console. */
  lemma StoreStep(st: State, inp: nat)
    requires st.Valid() && Fetch(st).op == Store
    ensures
      var i := Fetch(st);
      var t := Execute(st, inp);
      && t.status == Next
      && t.after.mem == st.mem[i.addr := st.regs[i.d]]
      && t.after.regs == st.regs && t.after.pc == st.pc + 1
      && t.after.out == if i.addr == ConsoleAddress then st.out + [st.regs[i.d]] else st.out
  {
  }

  /** Opcode 8 at FF reads the console word into cell FF and register d and moves on. */
  lemma ConsoleLoadStep(st: State, inp: nat)
    requires st.Valid() && ReadsConsole(st) && Fetch(st).d != 0
    ensures
      var i := Fetch(st);
      Execute(st, inp) ==
        Transition(st.(mem := st.mem[ConsoleAddress := inp], regs := st.regs[i.d := inp], pc := st.pc + 1), Next)
  {
  }

  /** Opcode A copies the cell that the low byte of register t names into
      register d and moves on; memory and output stay as they were. */
  lemma LoadIndirectStep(st: State, inp: nat)
    requires st.Valid() && Fetch(st).op == LoadIndirect && Fetch(st).d != 0
    ensures
      var i := Fetch(st);
      Execute(st, inp) ==
        Transition(st.(regs := st.regs[i.d := st.mem[CellOf(st.regs[i.t])]], pc := st.pc + 1), Next)
  {
  }

  /** Opcode B copies register d into the cell that the low byte of register t
      names and moves on; the registers stay, and only at FF does the word also
      go to the console. */
  lemma StoreIndirectStep(st: State, inp: nat)
    requires st.Valid() && Fetch(st).op == StoreIndirect
    ensures
      var i := Fetch(st);
      var cell := CellOf(st.regs[i.t]);
      var t := Execute(st, inp);
      && t.status == Next
      && t.after.mem == st.mem[cell := st.regs[i.d]]
      && t.after.regs == st.regs && t.after.pc == st.pc + 1
      && t.after.out == if cell == ConsoleAddress then st.out + [st.regs[i.d]] else st.out
  {
  }

  /** Opcode C jumps to `addr` exactly when register d reads as 0 through `decimal`. */
  lemma BranchZeroStep(st: State, inp: nat)
    requires st.Valid() && Fetch(st).op == BranchZero
    ensures
      var i := Fetch(st);
      var t := Execute(st, inp);
      t.status == Next && t.after.regs == st.regs && t.after.mem == st.mem && t.after.out == st.out
      && t.after.pc == if Signed(st.regs[i.d]) == 0 then i.addr else st.pc + 1
  {
  }

  /** Opcode D jumps to `addr` exactly when register d is nonzero as an
      unsigned number, so also when `decimal` reads it as negative. */
  lemma BranchPositiveStep(st: State, inp: nat)
    requires st.Valid() && Fetch(st).op == BranchPositive
    ensures
      var i := Fetch(st);
      var t := Execute(st, inp);
      t.status == Next && t.after.regs == st.regs && t.after.mem == st.mem && t.after.out == st.out
      && t.after.pc == (if st.regs[i.d] != 0 then i.addr else st.pc + 1)
      && (Signed(st.regs[i.d]) < 0 ==> t.after.pc == i.addr)
  {
  }

  /** Opcode E continues one past the `decimal` reading of register d. */
  lemma JumpRegisterStep(st: State, inp: nat)
    requires st.Valid() && Fetch(st).op == JumpRegister
    ensures
      var i := Fetch(st);
      var t := Execute(st, inp);
      t.status == Next && t.after.regs == st.regs && t.after.mem == st.mem && t.after.out == st.out
      && t.after.pc == Signed(st.regs[i.d]) + 1
      && (IsWord(st.regs[i.d]) ==> MinSigned + 1 <= t.after.pc <= MaxSigned + 1)
  {
  }

  /** Opcode F saves the current program counter in register d and jumps to `addr`. */
  lemma JumpAndLinkStep(st: State, inp: nat)
    requires st.Valid() && Fetch(st).op == JumpAndLink && Fetch(st).d != 0
    ensures
      var i := Fetch(st);
      var t := Execute(st, inp);
      t.status == Next && t.after.regs == st.regs[i.d := Abs(st.pc)]
      && t.after.mem == st.mem && t.after.out == st.out && t.after.pc == i.addr
  {
  }

  /** Opcode F then opcode E on the same register resumes right after the
      call site, as long as the call site lies in 0..0x7FFF: above it the saved
      address reads back negative through `decimal`, and below 0 opcode F
      saves |PC|, so the return lands at |PC| + 1. */
  lemma {:induction false} CallThenReturn(call: State, ret: State, inp: nat, inp': nat)
    requires call.Valid() && Fetch(call).op == JumpAndLink && Fetch(call).d != 0
    requires 0 <= call.pc <= MaxSigned
    requires ret.Valid() && Fetch(ret).op == JumpRegister && Fetch(ret).d == Fetch(call).d
    requires ret.regs[Fetch(ret).d] == Execute(call, inp).after.regs[Fetch(call).d]
    ensures Execute(ret, inp').after.pc == call.pc + 1
  {
    JumpAndLinkStep(call, inp);
    JumpRegisterStep(ret, inp');
  }

  /** Only a store whose cell resolves to FF writes to the console, and it
      writes the stored word; every other step leaves the output alone. */
  lemma OutputOnlyOnConsoleStore(st: State, inp: nat)
    requires st.Valid()
    ensures
      var i := Fetch(st);
      var t := Execute(st, inp);
      var toConsole := (i.op == Store && i.addr == ConsoleAddress)
        || (i.op == StoreIndirect && st.regs[i.t] % 256 == ConsoleAddress);
      && (t.after.out != st.out <==> toConsole)
      && (toConsole ==> t.after.out == st.out + [st.regs[i.d]] && t.after.mem[ConsoleAddress] == st.regs[i.d])
  {
    var i := Fetch(st);
    var t := Execute(st, inp);
    if i.op == Store || i.op == StoreIndirect {
      var cell := if i.op == Store then i.addr else CellOf(st.regs[i.t]);
      assert t.after == StoreMemory(st, cell, st.regs[i.d]).(pc := st.pc + 1);
      if cell == ConsoleAddress {
        assert |t.after.out| == |st.out| + 1;
      }
    }
  }

  /** Opcodes A and B address memory through the low byte of register t. */
  lemma IndirectAddressing(st: State, inp: nat)
    requires st.Valid() && (Fetch(st).op == LoadIndirect || Fetch(st).op == StoreIndirect)
    ensures
      var i := Fetch(st);
      var t := Execute(st, inp);
      && (i.op == LoadIndirect && i.d != 0 ==> t.after.regs[i.d] == st.mem[st.regs[i.t] % 256])
      && (i.op == StoreIndirect ==> t.after.mem[st.regs[i.t] % 256] == st.regs[i.d])
  {
  }

  /** Only opcode 8 with `addr` FF reads the console, and it leaves the word
      both in cell FF and in register d; every other step, including an
      indirect load through FF, is the same whatever the console holds. */
  lemma ConsoleReadOnlyByLoad(st: State, inp: nat, inp': nat)
    requires st.Valid()
    ensures !ReadsConsole(st) ==> Execute(st, inp) == Execute(st, inp')
    ensures ReadsConsole(st) ==>
      Execute(st, inp).after.mem[ConsoleAddress] == inp
      && (Fetch(st).d != 0 ==> Execute(st, inp).after.regs[Fetch(st).d] == inp)
  {
  }

  /** A step changes at most one register and at most one memory cell, and
      only a console read (opcode 8 at FF) changes one of each. */
  lemma StepFootprint(st: State, inp: nat)
    requires st.Valid()
    ensures
      var t := Execute(st, inp);
      && AtMostOneChange(st.regs, t.after.regs)
      && AtMostOneChange(st.mem, t.after.mem)
      && (!ReadsConsole(st) ==> t.after.regs == st.regs || t.after.mem == st.mem)
      && (ReadsConsole(st) ==> forall a :: 0 <= a < MemorySize && a != ConsoleAddress ==> t.after.mem[a] == st.mem[a])
  {
    var i := Fetch(st);
    var t := Execute(st, inp);
    if i.op.IsArithmetic() || i.op == LoadAddress || i.op == LoadIndirect || i.op == JumpAndLink {
      assert t.after.mem == st.mem;
      assert forall r :: 0 <= r < RegisterCount && r != i.d ==> t.after.regs[r] == st.regs[r];
    } else if i.op == Load {
      assert forall r :: 0 <= r < RegisterCount && r != i.d ==> t.after.regs[r] == st.regs[r];
      assert forall a :: 0 <= a < MemorySize && a != i.addr ==> t.after.mem[a] == st.mem[a];
      if i.addr != ConsoleAddress {
        assert t.after.mem == st.mem;
      }
    } else if i.op == Store || i.op == StoreIndirect {
      var cell := if i.op == Store then i.addr else CellOf(st.regs[i.t]);
      assert t.after.regs == st.regs;
      assert forall a :: 0 <= a < MemorySize && a != cell ==> t.after.mem[a] == st.mem[a];
    } else {
      assert t.after.regs == st.regs && t.after.mem == st.mem;
    }
  }

  /** Every step that would write register 0 raises instead and leaves the
      registers, the program counter and the output as they were; only a
      console read has already put the input word into cell FF. */
  lemma ReservedRegisterRejected(st: State, inp: nat)
    requires st.Valid() && Fetch(st).d == 0
    requires Fetch(st).op in {LoadAddress, Load, LoadIndirect, JumpAndLink}
    ensures
      var t := Execute(st, inp);
      t.status == ReservedRegister && t.after.regs == st.regs && t.after.pc == st.pc && t.after.out == st.out
      && t.after.mem == (if ReadsConsole(st) then st.mem[ConsoleAddress := inp] else st.mem)
  {
  }

  /** The `store_register` guard as written lets a write to register 0
      through, where the intended `StoreRegister` refuses it. */
  lemma AsWrittenGuardNeverFires(st: State, d: nat, v: nat)
    requires st.Valid() && d < RegisterCount
    ensures StoreRegisterAsWritten(st.regs, d, v).Some?
    ensures d == 0 && v != st.regs[0] ==>
      StoreRegisterAsWritten(st.regs, d, v).value[0] != st.regs[0]
      && StoreRegister(st, d, v) == Transition(st, ReservedRegister)
  {
  }

  /** Registers and memory keep holding 16-bit words as long as the console
      supplies words and |PC| is below 0x10000 (opcode F saves |PC| untruncated). */
  lemma StepKeepsWords(st: State, inp: nat)
    requires st.Valid() && AllWords(st.regs) && AllWords(st.mem) && AllWords(st.out)
    requires IsWord(inp) && Abs(st.pc) < WordSize
    ensures
      var t := Execute(st, inp);
      AllWords(t.after.regs) && AllWords(t.after.mem) && AllWords(t.after.out)
  {
    var op := Fetch(st).op;
    if op.IsArithmetic() {
      ArithmeticKeepsWords(st, inp);
    } else if op == Store || op == StoreIndirect {
      StoreKeepsWords(st, inp);
    } else if op == Load || op == LoadIndirect {
      LoadKeepsWords(st, inp);
    } else {
      OtherKeepsWords(st, inp);
    }
  }

  lemma ArithmeticKeepsWords(st: State, inp: nat)
    requires st.Valid() && AllWords(st.regs) && AllWords(st.mem) && AllWords(st.out)
    requires Fetch(st).op.IsArithmetic()
    ensures
      var t := Execute(st, inp);
      AllWords(t.after.regs) && AllWords(t.after.mem) && AllWords(t.after.out)
  {
    ArithmeticStep(st, inp);
  }

  lemma StoreKeepsWords(st: State, inp: nat)
    requires st.Valid() && AllWords(st.regs) && AllWords(st.mem) && AllWords(st.out)
    requires Fetch(st).op == Store || Fetch(st).op == StoreIndirect
    ensures
      var t := Execute(st, inp);
      AllWords(t.after.regs) && AllWords(t.after.mem) && AllWords(t.after.out)
  {
    var i := Fetch(st);
    var t := Execute(st, inp);
    OutputOnlyOnConsoleStore(st, inp);
    StepFootprint(st, inp);
    assert forall a :: 0 <= a < MemorySize ==> t.after.mem[a] == st.mem[a] || t.after.mem[a] == st.regs[i.d];
  }

  lemma LoadKeepsWords(st: State, inp: nat)
    requires st.Valid() && AllWords(st.regs) && AllWords(st.mem) && AllWords(st.out)
    requires IsWord(inp) && (Fetch(st).op == Load || Fetch(st).op == LoadIndirect)
    ensures
      var t := Execute(st, inp);
      AllWords(t.after.regs) && AllWords(t.after.mem) && AllWords(t.after.out)
  {
    var t := Execute(st, inp);
    StepFootprint(st, inp);
    assert forall r :: 0 <= r < RegisterCount ==> t.after.regs[r] == st.regs[r] || t.after.regs[r] in st.mem + [inp];
  }

  lemma OtherKeepsWords(st: State, inp: nat)
    requires st.Valid() && AllWords(st.regs) && AllWords(st.mem) && AllWords(st.out)
    requires Abs(st.pc) < WordSize
    requires var op := Fetch(st).op;
      !op.IsArithmetic() && op != Store && op != StoreIndirect && op != Load && op != LoadIndirect
    ensures
      var t := Execute(st, inp);
      AllWords(t.after.regs) && AllWords(t.after.mem) && AllWords(t.after.out)
  {
  }

  /** Output is only ever appended to over a run. */
  lemma {:induction false} RunExtendsOutput(st: State, inputs: seq<nat>, fuel: nat)
    requires st.Valid()
    ensures
      var r := Run(st, inputs, fuel);
      |st.out| <= |r.0.out| && r.0.out[..|st.out|] == st.out
    decreases fuel
  {
    if fuel > 0 {
      if !(ReadsConsole(st) && inputs == []) {
        var inp := if ReadsConsole(st) then inputs[0] else 0;
        var rest := if ReadsConsole(st) then inputs[1..] else inputs;
        var t := Execute(st, inp);
        if t.status == Next {
          RunExtendsOutput(t.after, rest, fuel - 1);
          PrefixOfPrefix(st.out, t.after.out, Run(t.after, rest, fuel - 1).0.out);
        }
      }
    }
  }

  /** One turn of the run loop, whatever the fuel: either the run stops in
      `next` with `end`, or it goes on from `next` with the console words `rest`. */
  lemma RunUnfold(st: State, inputs: seq<nat>) returns (next: State, rest: seq<nat>, continues: bool, end: RunEnd)
    requires st.Valid()
    ensures next.Valid()
    ensures forall f: nat {:trigger Run(st, inputs, f)} :: f > 0 ==>
      Run(st, inputs, f) == if continues then Run(next, rest, f - 1) else (next, end)
  {
    if ReadsConsole(st) && inputs == [] {
      next, rest, continues, end := st, inputs, false, Blocked;
    } else {
      var inp := if ReadsConsole(st) then inputs[0] else 0;
      rest := if ReadsConsole(st) then inputs[1..] else inputs;
      var t := Execute(st, inp);
      next, continues, end := t.after, t.status == Next, Stopped(t.status);
    }
  }

  lemma PrefixOfPrefix(a: seq<nat>, b: seq<nat>, c: seq<nat>)
    requires |a| <= |b| && b[..|a|] == a
    requires |b| <= |c| && c[..|b|] == b
    ensures |a| <= |c| && c[..|a|] == a
  {
    assert c[..|a|] == c[..|b|][..|a|];
  }

  /** A run that stopped within its fuel stops the same way with more fuel:
      the fuel bound only cuts runs short, it never changes their outcome. */
  lemma {:induction false} RunFuelIrrelevant(st: State, inputs: seq<nat>, fuel: nat, more: nat)
    requires st.Valid() && fuel <= more
    requires !Run(st, inputs, fuel).1.OutOfFuel?
    ensures Run(st, inputs, more) == Run(st, inputs, fuel)
    decreases fuel
  {
    assert fuel > 0;
    var next, rest, continues, end := RunUnfold(st, inputs);
    if continues {
      RunFuelIrrelevant(next, rest, fuel - 1, more - 1);
    }
  }

  /** A program whose first word is opcode 0 halts after one step with nothing changed. */
  lemma HaltAtEntry(st: State, inputs: seq<nat>, fuel: nat)
    requires st.Valid() && fuel >= 1 && Fetch(st).op == Halt
    ensures Run(st, inputs, fuel) == (st, Stopped(Halted))
  {
  }
}
