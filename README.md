# TOY machine interpreter, modelled and verified in Dafny

This project models the core of a Python interpreter for the TOY machine, a 16-bit teaching computer.
The machine has 16 registers, 256 memory words, and a program counter that starts at 0x10.
Each step fetches the word the program counter selects and splits it into the fields `opcode`, `d`, `s`, `t` and `addr`.
It then runs one of sixteen opcodes:

- arithmetic and logic on two registers, with a range check on the result;
- loads and stores, direct or through a register;
- memory-mapped console I/O at cell FF;
- branches, an indirect jump and a call.

The source keeps every register and memory cell as hexadecimal text.
The model keeps the number that text reads as, `int(x, 16)`.
Module `Hex` models the text functions (`hex_string`, `long_hex_string`, `zfill`, `int(x, 16)`, the `[-2:]` key cut).
It proves the facts that make the numeric view faithful:

- a value survives formatting and parsing;
- a two-digit key cut gives the low byte of a number;
- the four digits of an instruction's text are its decoded fields.

Files and modules:

- `hex.dfy` (`Hex`): the hex text functions and the lemmas that connect them to numbers.
- `alu.dfy` (`Alu`): `decimal`, `check_range`, the stored form of a result, and Python's `& ^ << >>` on unbounded integers. The bitwise operators are specified bit by bit.
- `decoder.dfy` (`Decoder`): the sixteen opcodes and the instruction fields.
- `semantics.dfy` (`Semantics`): one step (`Execute`) and a bounded run (`Run`) as functions on a state value.
- `properties.dfy` (`StepProperties`): what a step and a run promise, as lemmas about `Execute` and `Run`.
- `machine.dfy` (`ToyMachine`): class `Machine`, whose register and memory arrays are updated in place by `StoreRegister`, `StoreMemory`, `Step` and `Run`. Each state-changing method and `NextReadsConsole` is proved equal to the matching function of `Semantics`. `LoadMemory` has no such counterpart: its contract names the cell it reads, `CellOf(location)`.

Source behaviours the model keeps as written:

- Opcode 4 computes exclusive-or, although the source labels it binary OR.
- Opcode D tests the stored word as an unsigned number (`int(reg, 16) > 0`). It therefore branches on any nonzero register, including 0x8000 to 0xFFFF, which `decimal` reads as negative.
- A negative arithmetic result is stored as its magnitude. `hex()` writes the minus sign before `0x`, and `hex_string` drops everything up to the `x`. So -1 is stored as 0001, not FFFF. Only -32768 happens to read back correctly.
- Only opcode 8 with `addr` FF reads the console. An indirect load (opcode A) through FF just reads cell FF. Both store forms (9, and B through the low byte of register t) echo to the console when the cell is FF.
- Opcode 8 at FF writes the input word into cell FF before `store_register` runs. If `d` is 0, the step fails but cell FF has already changed. Such a step changes a register and a memory cell at once; every other step changes at most one of them.
- The program counter is an unbounded integer. Opcode E can make it negative. The fetch reads `hex_string(pc)[-2:]`, which is cell |PC| mod 256. Opcode F stores |PC| untruncated.
- Every hex digit selects an opcode, so the dispatch has no invalid-opcode case.
- A negative shift count makes Python raise `ValueError`. The model reports it as the status `NegativeShift`.

## Model

| member | source | states |
|---|---|---|
| Hex.HexValue | toy_machine.py:166 | `int(s, 16)` of an n-digit string is below 16^n |
| Hex.Digits | toy_machine.py:155-157 | the digits `hex()` writes for n parse back to n; one digit exactly when n < 16, and no leading zero when n > 0 |
| Hex.ZFill | toy_machine.py:161 | `zfill` pads to the width, keeps the string as a suffix and does not change its value |
| Hex.HexString | toy_machine.py:155-157 | `hex_string(i)` has at least two digits and reads back as abs(i) |
| Hex.LongHexString | toy_machine.py:159-161 | `long_hex_string(i)` reads back as abs(i) and has exactly four digits when abs(i) < 0x10000 |
| Hex.LastTwoIsLowByte | toy_machine.py:171-173 | the key cut `[-2:]` of any digit string reads as its value mod 256 |
| Hex.FetchKeyIsLowByte | toy_machine.py:16 | the fetch key `hex_string(pc)[-2:]` names cell abs(pc) mod 256 |
| Alu.Signed | toy_machine.py:164-168 | `decimal` of a word lies in [-32768, 32767] |
| Alu.SignedIsTwosComplement | toy_machine.py:164-168 | `decimal(v)` is congruent to v mod 2^16, and on a word it is inverted by the two's-complement encoding |
| Alu.UnsignedIsCongruent | toy_machine.py:164-168 | the reference encoding is the unique word congruent to an in-range number |
| Alu.SignedRoundTrip | toy_machine.py:164-168 | encoding an in-range number and reading it back through `decimal` returns it |
| Alu.Normalized | toy_machine.py:159-161 | the stored form of an in-range result is a word |
| Alu.NormalizedReadsBack | toy_machine.py:155-161 | the stored form is what `long_hex_string` text reads as; `decimal` returns the result iff it is non-negative or -32768, and returns -r for other negative r |
| Alu.BitAndIsBitwise | toy_machine.py:50 | every bit of `a & b` is the conjunction of the operands' bits |
| Alu.BitXorIsBitwise | toy_machine.py:56 | every bit of `a ^ b` is set iff the operands' bits differ |
| Alu.BitwiseStaysInBits | toy_machine.py:47-58 | `&` and `^` of two k+1-bit two's-complement numbers fit in k+1 bits |
| Alu.BitwiseInRange | toy_machine.py:217-218 | `check_range` never fails on `a & b` or `a ^ b` of in-range operands |
| Alu.LeftShift | toy_machine.py:62 | `a << b` fails iff b < 0; otherwise the result is a multiple of 2^b whose quotient is a |
| Alu.RightShift | toy_machine.py:68 | `a >> b` fails iff b < 0; otherwise the result r satisfies 2^b·r <= a < 2^b·(r+1) |
| Decoder.OpcodeOf | toy_machine.py:34 | every hex digit selects the opcode whose digit it is |
| Decoder.OpcodeOfCode | toy_machine.py:34 | distinct opcodes have distinct digits |
| Decoder.Decode | toy_machine.py:20-24 | d, s and t are digits and `addr` is below 0x100 |
| Decoder.DecodeIsPositional | toy_machine.py:20-24 | `addr` = 16·s + t and opcode·0x1000 + d·0x100 + `addr` is the word |
| Decoder.DecodeReadsDigits | toy_machine.py:16-24 | on four-digit text, the fields are the digits in order and `addr` is the last two |
| Semantics.Initial | toy_machine.py:246-249 | all registers and cells are zero, PC is 0x10 and nothing has been printed |
| Semantics.LoadWord | toy_machine.py:198-199 | loading a program line sets exactly one cell |
| Semantics.FetchAddress | toy_machine.py:16 | the fetched cell is a memory address |
| Semantics.FetchAddressIsKey | toy_machine.py:155-157 | the fetched cell is the one the text key `hex_string(pc)[-2:]` names |
| Semantics.CellOf | toy_machine.py:224-225 | a stored value addresses a cell; an address below 0x100 addresses itself |
| Semantics.CellOfIsKey | toy_machine.py:171-173 | the cell is the one the two-digit cut of the value's text names |
| Semantics.StoreRegister | toy_machine.py:235-241 | writing register 0 fails and changes nothing; any other write sets only register d |
| Semantics.StoreMemory | toy_machine.py:224-232 | sets only the addressed cell, and appends the word to the output iff that cell is FF |
| Semantics.Compute | toy_machine.py:35-70 | only shifts can fail, only for a negative count; `&` and `^` of in-range operands are in range |
| Semantics.ExecuteArithmetic | toy_machine.py:35-70 | opcodes 1 to 6 never touch memory or output, and a failed one changes nothing |
| Semantics.ExecuteTransfer | toy_machine.py:72-112 | opcodes 7 to B keep register 0, only extend the output, and a failed one keeps registers and PC |
| Semantics.ExecuteControl | toy_machine.py:114-149 | opcodes C to F never touch memory or output, and a failed one changes nothing |
| Semantics.Execute | toy_machine.py:15-151 | a step keeps register 0, only extends the output, and keeps registers and PC when it stops; it halts iff the opcode is 0, and a halt changes nothing |
| Semantics.Run | toy_machine.py:212-213 | a bounded run keeps register 0 and never stops on a continuing status |
| Semantics.Turn | toy_machine.py:212-213 | one pass of the loop keeps register 0 and never stops on a continuing status |
| Semantics.RegisterKey | toy_machine.py:236 | the register key is one character, reading as the register number |
| Semantics.StoreRegisterAsWritten | toy_machine.py:235-241 | the guard as written never fires: every write, including one to register 0, sets register d and nothing else |
| StepProperties.ArithmeticStep | toy_machine.py:35-70 | an out-of-range result or a negative shift count fails before any change; otherwise only register d gets the stored form and PC moves on by one |
| StepProperties.BitwiseNeverRangeError | toy_machine.py:47-58 | opcodes 3 and 4 on words never fail the range check or the shift check |
| StepProperties.LoadAddressStep | toy_machine.py:73-75 | opcode 7 sets register d to `addr` (below 0x100) and moves PC on by one, nothing else |
| StepProperties.LoadStep | toy_machine.py:76-82 | opcode 8 at an address other than FF sets register d to cell `addr` and moves PC on by one, nothing else |
| StepProperties.StoreStep | toy_machine.py:83-90 | opcode 9 sets cell `addr` to register d, keeps the registers, moves PC on by one, and echoes the word to the output exactly when `addr` is FF |
| StepProperties.BranchZeroStep | toy_machine.py:118-126 | opcode C jumps to `addr` iff `decimal` of register d is 0, otherwise moves on; no data changes |
| StepProperties.BranchPositiveStep | toy_machine.py:128-136 | opcode D jumps to `addr` iff register d is nonzero unsigned, so also when `decimal` reads it as negative |
| StepProperties.JumpRegisterStep | toy_machine.py:138-141 | opcode E sets PC to `decimal` of register d plus one, in [-32767, 32768] for a word |
| StepProperties.JumpAndLinkStep | toy_machine.py:144-149 | opcode F saves abs(PC) in register d and jumps to `addr` |
| StepProperties.CallThenReturn | toy_machine.py:138-149 | F then E on the same register resumes right after the call site, for a call site in 0..0x7FFF (opcode F saves abs(PC), so a negative call site returns elsewhere) |
| StepProperties.OutputOnlyOnConsoleStore | toy_machine.py:84-112 | the output changes iff a store (9, or B through register t) resolves to FF, and then it gains exactly the stored word, which is also in cell FF |
| StepProperties.IndirectAddressing | toy_machine.py:94-112 | opcodes A and B address memory by the low byte of register t |
| StepProperties.LoadIndirectStep | toy_machine.py:94-101 | opcode A with d != 0 sets register d to the cell the low byte of register t names and moves PC on by one; nothing else changes |
| StepProperties.StoreIndirectStep | toy_machine.py:105-112 | opcode B sets the cell the low byte of register t names to register d, keeps the registers, moves PC on by one, and echoes the word to the output exactly when that cell is FF |
| StepProperties.ConsoleReadOnlyByLoad | toy_machine.py:77-82 | only opcode 8 at FF depends on the console input, and it puts the input in cell FF and in register d |
| StepProperties.ConsoleLoadStep | toy_machine.py:77-82 | opcode 8 at FF with d != 0 puts the console word in cell FF and register d and moves PC on by one; nothing else changes |
| StepProperties.StepFootprint | toy_machine.py:15-151 | a step changes at most one register and one cell, and both only on a console read |
| StepProperties.ReservedRegisterRejected | toy_machine.py:235-241 | a write to register 0 by opcode 7, 8, A or F fails; registers, PC and output stay, and memory stays except cell FF on a console read |
| StepProperties.AsWrittenGuardNeverFires | toy_machine.py:235-241 | in any state, the as-written guard passes a write to register 0 and changes it, where the intended `StoreRegister` refuses and keeps the state |
| StepProperties.StepKeepsWords | toy_machine.py:159-161 | with word inputs and abs(PC) below 0x10000, every register, cell and output stays a word |
| StepProperties.RunExtendsOutput | toy_machine.py:228-230 | a run only appends to the output |
| StepProperties.RunFuelIrrelevant | toy_machine.py:212-213 | a run that ends within its fuel ends the same way with more fuel |
| StepProperties.HaltAtEntry | toy_machine.py:114-116 | a program starting with opcode 0 stops after one step with nothing changed |
| ToyMachine.Machine.constructor | toy_machine.py:244-249 | the loops leave all registers and cells zero and PC at 0x10 |
| ToyMachine.Machine.LoadWord | toy_machine.py:198-199 | the in-place load agrees with `Semantics.LoadWord` |
| ToyMachine.Machine.LoadMemory | toy_machine.py:171-173 | returns cell `CellOf(location)`, which `Semantics.CellOfIsKey` shows is the cell the `[-2:]` key names |
| ToyMachine.Machine.StoreMemory | toy_machine.py:224-232 | the in-place store agrees with `Semantics.StoreMemory` |
| ToyMachine.Machine.StoreRegister | toy_machine.py:235-241 | the in-place store agrees with `Semantics.StoreRegister` |
| ToyMachine.Machine.StepArithmetic | toy_machine.py:35-70 | agrees with `Semantics.ExecuteArithmetic` |
| ToyMachine.Machine.StepTransfer | toy_machine.py:72-112 | agrees with `Semantics.ExecuteTransfer` |
| ToyMachine.Machine.StepControl | toy_machine.py:114-149 | agrees with `Semantics.ExecuteControl` |
| ToyMachine.Machine.Step | toy_machine.py:15-151 | the in-place step's new state and status are those of `Semantics.Execute` |
| ToyMachine.Machine.NextReadsConsole | toy_machine.py:77-80 | tells whether the next step will read the console |
| ToyMachine.Machine.Run | toy_machine.py:212-213 | the loop's final state and end are those of `Semantics.Run` |

## Left out

- Command-line handling, opening the program file and the regular-expression line loader (`main`, toy_machine.py:176-210) are text and file plumbing. The model loads words with `LoadWord` instead.
- The run loop in `main` assigns `program_counter` without `global`, so reading it in the `while` test raises `UnboundLocalError`. `Run` models the intended loop, bounded by a fuel count.
- `debug` and the trace f-strings: they only format text, and evaluating them raises nothing.
- Console formatting and parsing. A console read is modelled as the number the typed line reads as in hex. Text that is not hex digits is not modelled. The cell keeps the raw text, but only its value is modelled. In the source, fetching raw text shorter than four digits as an instruction would fail, and lower-case digits in an opcode position would match no case and act as a no-op. A console write is modelled as appending the stored word to `out`; the `"> XXXX, n"` line is not modelled.
- The exception messages, which name the failing address, are not modelled. A failed step returns a status and leaves PC at the failing instruction.
- The string-keyed dictionaries. The initial keys (`'00'`..`'0F'`, `'0000'`..`'00FF'`) do not match the keys later reads use (`'0'`..`'F'`, `'00'`..`'FF'`). So in the source, reading a register or cell that was never written raises `KeyError`. The model indexes by number, and every register and cell starts at 0.
- Decoder.Decode: a cell holding five or more hex digits is decoded from its low four digits. The source would slice the first four characters of its text, so the two can disagree: for the text 12345 the source runs opcode 1, and the model decodes 0x2345 as opcode 2. Such a cell can arise in two ways. Opcode 8 at FF can put a console line of five or more digits straight into cell FF. Opcode F can write |PC| into a register once |PC| reaches 0x10000, and a later opcode 9 or B can store that register into a cell.
- An ASCII console mode does not exist in this source file.

## Findings

| source | as written | input that shows it | evidently intended | confidence | as-written member | corrected member |
|---|---|---|---|---|---|---|
| toy_machine.py:235-241 | `store_register` cuts the key to one character (`str(address)[-1:]`) and compares it with `'00'`, so the guard never fires. Register 0 is written like any other, and the error path calls the undefined `convert_to_hex_string`. | opcode 7 with d = 0, e.g. word 7005: register 0 becomes 0005 | any write to register 0 is refused with "Register 00 is reserved" | high (not executed) | Semantics.StoreRegisterAsWritten | Semantics.StoreRegister |
