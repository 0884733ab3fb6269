# Assembly Language Emulator — a verified model of its core

The Assembly Language Emulator (ALE) loads a small assembly language from a
text file and runs it. This project models that core in Dafny, in three parts.

**Memory** (`memory.dfy`, module `AleMemory`) models `ALEMemory`:
- a register file keyed by name, created with only `SP`, set to `INT_MAX - 3`;
- a sparse byte-addressed address space;
- 1-, 2- and 4-byte reads and writes in little-endian two's complement. Every
  byte must lie strictly between 0 and SP's initial value, and a read byte must
  have been written.

`Memory` is a class whose two fields the methods update in place. Each method
is proved against a specification function on the value `MemoryState`. The
lemmas are in `memory_lemmas.dfy`.

**Loader** (`database.dfy`, module `AleDatabase`) models `ALEDatabase`:
- the tokenizer `ParseLine`. Outside a memory access `M[...]` it splits on
  `+ - * / = , ` and keeps the operators as tokens. A `-` directly followed by
  a digit is a negative literal. Inside the brackets it keeps everything and
  collapses repeated `,`/space;
- the line validator (`CheckForInstrConstraint`, `InvalidLine`) and comment
  stripping;
- label declarations;
- the loading loop of the constructor.

The loaded program is the value `Program`: the instructions, and the label
table mapping each label to the index of the next instruction. Its
`GetLineCount` and `GetLineAt` are the sequence's length and indexing.
`Database` is the class that fills it. The lemmas are in
`database_lemmas.dfy`.

**Engine** (`engine.dfy`, module `AleMain`) models `ALEMain.cpp`:
- operand resolution and `std::stoi`;
- the ALU, with C++ truncating division;
- `Evaluate`, with register assignment, ALU expressions, stores
  `M[e] =.n src` and loads `dst =.n M[e]`;
- `CALL`, which pushes the return address below `SP`, and `RET`;
- `JUMP` and the six branches;
- the fetch/dispatch loop of `RunProgram`, with PC set to `4 * i` before each
  instruction.

Each of these is a specification function over `MemoryState`. The C++
functions that mutate the `ALEMemory` object are methods over a `Memory`,
proved equal to those functions. The lemmas are in `engine_lemmas.dfy`. They
include:
- call/return pairing;
- the bounds of every register value (a C++ `int`);
- store-then-load round trips;
- branch and jump targets;
- a worked program that calls a function returning 7.

`wrappers.dfy` holds the error type and `Result`. `constants.dfy` holds the
vocabulary of `ALEConstants.hpp` and the `std::string::find` the core relies
on.

The C++ reports errors by throwing a message string. Here they are the values
of the `Error` datatype. C++ undefined behaviour is the error
`Undefined(what)`. This covers:
- signed overflow and division by zero;
- `stoi` out of range;
- an instruction of the wrong shape;
- an access wider than the four-byte buffer.

## Model

| member | source | states |
|---|---|---|
| AleConstants.FindFrom | source-code/ALEDatabase.cpp:136-137 | `find(pat, start)`: npos exactly when `pat` occurs nowhere from `start` on, otherwise the first occurrence at or after `start` |
| AleConstants.FindChar | source-code/ALEDatabase.cpp:171-175 | a one-character `find` is npos iff the character is absent, and otherwise points at its first occurrence |
| AleMemory.Memory.constructor | source-code/ALEMemory.cpp:8-10 | a new memory has exactly the register `SP`, at `0x7ffffffc`, and no written byte |
| AleMemory.Memory.PutRegValue | source-code/ALEMemory.cpp:16-18 | sets (or creates) one register and leaves the others and the address space as they were |
| AleMemory.Memory.GetRegValue | source-code/ALEMemory.cpp:20-27 | a register's value if it exists, the "doesn't exist" error otherwise; nothing changes |
| AleMemory.Memory.ReadAddr | source-code/ALEMemory.cpp:29-47 | the result is `Read` of the current state, without changing it |
| AleMemory.Memory.CopyBytes | source-code/ALEMemory.cpp:32-44 | the loop copies the bytes in order into the buffer and stops at the first one out of range (checked first) or never written, with that error; a fifth byte that passes both checks overruns the buffer |
| AleMemory.ReadAccess | source-code/ALEMemory.cpp:32-44 | a read that yields bytes asked for at most four and yields exactly that many (none for a count <= 0) |
| AleMemory.Memory.WriteAddr | source-code/ALEMemory.cpp:49-62 | the new address space and outcome are `Write` of the old state; registers are unchanged |
| AleMemory.Decode | source-code/ALEMemory.cpp:46 | `*(int*)buf` is always a 32-bit int |
| AleMemoryFacts.DecodeEncode | source-code/ALEMemory.cpp:46-52 | decoding the four bytes written for an int gives that int back |
| AleMemoryFacts.DecodeLowBytes | source-code/ALEMemory.cpp:46-52 | the low one or two bytes of a value, zero-filled, decode to the value modulo 256 or 65536 |
| AleMemoryFacts.PutThenGet | source-code/ALEMemory.cpp:16-27 | a register reads back what was put; other registers and the address space are unaffected |
| AleMemoryFacts.ReadBytesOk | source-code/ALEMemory.cpp:32-44 | a multi-byte read succeeds iff every byte is in range and written |
| AleMemoryFacts.ReadBytesFault | source-code/ALEMemory.cpp:33-41 | the first bad byte decides the error: out of range before uninitialized |
| AleMemoryFacts.ReadNonPositive | source-code/ALEMemory.cpp:33-36 | reading at an address <= 0 fails as out of range at that address |
| AleMemoryFacts.ReadOutcome | source-code/ALEMemory.cpp:29-47 | `ReadAddr` succeeds iff the span is in range and written, and otherwise names the first bad address with the right error |
| AleMemoryFacts.InitialMemory | source-code/ALEMemory.cpp:8-10 | initially SP is `0x7ffffffc`, every other register is missing and every read fails |
| AleMemoryFacts.WriteBytesEffect | source-code/ALEMemory.cpp:54-61 | a write stores bytes up to the first out-of-range address, keeps them there, fails at that address and leaves all other bytes alone |
| AleMemoryFacts.WriteInRange | source-code/ALEMemory.cpp:49-62 | an in-range write passes, stores the low bytes of the value at address..address+n-1 and changes nothing else |
| AleMemoryFacts.WriteCrossingBound | source-code/ALEMemory.cpp:54-61 | a write that crosses SP's initial value fails there, but the bytes below it stay written |
| AleMemoryFacts.ReadBackWritten | source-code/ALEMemory.cpp:29-62 | reading the span just written returns the bytes written |
| AleMemoryFacts.ReadAfterWrite | source-code/ALEMemory.cpp:29-62 | a 4-byte write then a 4-byte read at the same address returns the value |
| AleMemoryFacts.WideRead | source-code/ALEMemory.cpp:29-47 | a read of more than four bytes never yields a value: the first bad byte among the first five decides the error, and with five readable bytes the copy of the fifth is undefined |
| AleMemoryFacts.WideWrite | source-code/ALEMemory.cpp:49-62 | a write of more than four bytes stores what a four-byte write stores and never passes: it fails at the first out-of-range address among the first five, and otherwise the copy of the fifth byte is undefined |
| AleMemoryFacts.ReadAfterWriteLow | source-code/ALEMemory.cpp:29-62 | a 1- or 2-byte write then read returns the value modulo 256 or 65536 |
| AleMemoryFacts.WordReadDeterminate | source-code/ALEMemory.cpp:30-46 | a 4-byte read does not depend on the buffer's initial content |
| AleMemoryFacts.NarrowReadSeesStaleBytes | source-code/ALEMemory.cpp:30-46 | a 1-byte read of the byte 5 gives -251 over a buffer whose upper bytes start as 0xff, and 5 over a zeroed buffer |
| AleDatabase.ParseLine | source-code/ALEDatabase.cpp:74-103 | the loop's tokens are `Tokenize(line)` (properties below) |
| AleDatabase.CheckForInstrConstraint | source-code/ALEDatabase.cpp:135-169 | the verdict is `InstrConstraint(line)`, with the operator count computed by the loop |
| AleDatabase.RemoveComment | source-code/ALEDatabase.cpp:171-175 | the result is a prefix of the line with no `;`, ending exactly where the first `;` was |
| AleDatabase.Program.GetFunctionIndex | source-code/ALEDatabase.cpp:65-72 | a declared label's index, the "no such function" error iff it is undeclared |
| AleDatabase.Database.constructor | source-code/ALEDatabase.cpp:9-39 | the store starts with no instruction and no label, before the loading loop (`LoadLines`) fills it |
| AleDatabase.Database.ProcessLine | source-code/ALEDatabase.cpp:105-123 | strips the comment, tokenizes, records a new label at the current instruction count or fails on a redeclaration, and returns the tokens to store |
| AleDatabase.Database.LoadLines | source-code/ALEDatabase.cpp:24-36 | the loop rejects the first invalid line and otherwise stores every processed line: the outcome and store are `LoadFrom` of the old store |
| AleDatabase.TokenizeSize | source-code/ALEDatabase.cpp:74-103 | the tokens' total length never exceeds the line's |
| AleDatabaseFacts.TokensNonEmpty | source-code/ALEDatabase.cpp:74-103 | no token is empty |
| AleDatabaseFacts.PlainLine | source-code/ALEDatabase.cpp:74-103 | without `M[`, the tokens concatenate to the line minus `,` and spaces, each token is a lexeme, and the lone-operator tokens are exactly the operators the validator counts |
| AleDatabaseFacts.RunEnd | source-code/ALEDatabase.cpp:79-100 | the end of the longest run of characters that are neither separators nor operators |
| AleDatabaseFacts.PlainSplit | source-code/ALEDatabase.cpp:74-103 | without `M[`, the tokens are exactly `Split`: separators dropped, each operator (but a `-` before a digit) a token of its own, and each maximal run of other characters one token |
| AleDatabaseFacts.SplitSuffix | source-code/ALEDatabase.cpp:79-100 | splitting a line from a point after a prefix is splitting the suffix alone |
| AleDatabaseFacts.PlainSplitExample | source-code/ALEDatabase.cpp:74-103 | `R1 = R2 + -10` tokenizes to `R1`, `=`, `R2`, `+`, `-10` |
| AleDatabaseFacts.PlainLineAccepted | source-code/ALEDatabase.cpp:139-168 | without `M[`, the validator accepts iff the line tokenizes to at most one lone operator |
| AleDatabaseFacts.TokenizeFromExtends | source-code/ALEDatabase.cpp:79-100 | the loop only ever appends tokens |
| AleDatabaseFacts.ScanPrefix | source-code/ALEDatabase.cpp:79-100 | before the line's first `M[`, a text ending in a separator or an operator is emitted as its maximal runs and the scan reaches the access with an empty component |
| AleDatabaseFacts.AccessClose | source-code/ALEDatabase.cpp:79-100 | wherever the access stands after the line's first `M[`, the first `]` closes it: the access becomes one token and the rest of the line splits into its maximal runs |
| AleDatabaseFacts.AccessFrom | source-code/ALEDatabase.cpp:79-100 | from the line's first `M[` to its first `]` the characters form one token, separators inside kept but not repeated, and what follows splits into its maximal runs |
| AleDatabaseFacts.AccessToken | source-code/ALEDatabase.cpp:79-100 | a line `pre M[e] rest`, where `pre` has no `M[` and no `]` and is empty or ends in a separator or an operator, and `rest` is empty or starts with one, tokenizes to the maximal runs of `pre`, then the whole access as one token with separators inside kept but not repeated, then the maximal runs of `rest` |
| AleDatabaseFacts.CollapseSingleSeparators | source-code/ALEDatabase.cpp:85-86 | inside brackets, a `,` or space that does not repeat the previous character is kept: such an access is copied unchanged |
| AleDatabaseFacts.CollapseRepeatedSeparator | source-code/ALEDatabase.cpp:85-86 | inside brackets, a `,` or space that repeats the previous one is dropped |
| AleDatabaseFacts.AccessTokenExample | source-code/ALEDatabase.cpp:74-103 | `M[R1 + 3] = R2` tokenizes to `M[R1 + 3]`, `=`, `R2` |
| AleDatabaseFacts.LoadAccessExample | source-code/ALEDatabase.cpp:74-103 | the load form `R1 = M[R2 + 4]` tokenizes to `R1`, `=`, `M[R2 + 4]` |
| AleDatabaseFacts.AluCountZero | source-code/ALEDatabase.cpp:139-145 | the operator count is zero iff there is no counted operator |
| AleDatabaseFacts.TwoOperatorsRejected | source-code/ALEDatabase.cpp:139-150 | two counted operators make the line invalid |
| AleDatabaseFacts.TwoAccessesRejected | source-code/ALEDatabase.cpp:136-137 | two `M[` make the line invalid |
| AleDatabaseFacts.SingleOperator | source-code/ALEDatabase.cpp:139-145 | exactly one counted operator gives a count of one |
| AleDatabaseFacts.OneAccessAccepted | source-code/ALEDatabase.cpp:136-168 | a line with at most one `M[` and no counted operator is accepted; a line with one `M[` and one counted operator is rejected when every operator character in it, counted or not, lies outside the brackets |
| AleDatabaseFacts.InsideAccessAccepted | source-code/ALEDatabase.cpp:136-168 | with at most one `M[` and at most one counted operator, an operator character that is the first of its kind and lies after the first `[` and before the first `]` makes the line legal, even when it is not the counted one |
| AleDatabaseFacts.FirstOccurrenceRule | source-code/ALEDatabase.cpp:147-168 | `M[R1 -4] = R2 + 1` passes although its only counted operator, `+`, is outside the brackets: the check sees the first `-`, a negative sign inside them |
| AleDatabaseFacts.SoleOperatorAccess | source-code/ALEDatabase.cpp:147-168 | with one `M[` and a single operator character in the whole line, at j, the line is accepted iff j lies after the first `[` and before the first `]` (or there is no `]`) |
| AleDatabaseFacts.OperatorAfterAccessRejected | source-code/ALEDatabase.cpp:135-169 | `R1 = M[R2] + 4` is invalid: its operator is outside the brackets |
| AleDatabaseFacts.OperatorInsideAccessAccepted | source-code/ALEDatabase.cpp:135-169 | `M[R1 + 3] = R2` passes the check: its operator is inside the brackets |
| AleDatabaseFacts.RejectsTwoOperatorsOrLeadingDigit | source-code/ALEDatabase.cpp:125-133 | `R1 = R2 + R3 * 2` and `7 R1 = 2` are invalid |
| AleDatabaseFacts.LoadWellFormed | source-code/ALEDatabase.cpp:24-36 | loading stores only non-empty instructions of non-empty tokens, and labels point within the program |
| AleDatabaseFacts.LoadRejectsInvalid | source-code/ALEDatabase.cpp:24-36 | a program that loads has no invalid line |
| AleDatabaseFacts.LoadFromConcat | source-code/ALEDatabase.cpp:24-36 | loading two texts in a row is loading the first and then the second into its result, and an error in the first stops the load |
| AleDatabaseFacts.FirstInvalidRejected | source-code/ALEDatabase.cpp:24-36 | if the lines before line k load and line k is invalid, the load fails with the compilation error naming line k |
| AleDatabaseFacts.LoadExtends | source-code/ALEDatabase.cpp:24-36 | loading only appends instructions and never changes an existing label |
| AleDatabaseFacts.Declaration | source-code/ALEDatabase.cpp:112-120 | a redeclared label aborts the load; a new label line stores no instruction, binds the label to the current instruction count, which the next stored instruction receives, and loading goes on from that program |
| AleMain.DigitPrefix | source-code/ALEMain.cpp:187-188 | the digits `stoi` consumes: the longest all-digit prefix |
| AleMain.GetContent | source-code/ALEMain.cpp:281-285 | the content taken from index 2 is never longer than the token minus `M[` |
| AleMain.ContentTokens | source-code/ALEMain.cpp:281-285 | the address expression's tokens are smaller than the access token |
| AleMain.Evaluate | source-code/ALEMain.cpp:184-256 | the value and new memory are `Eval` of the tokens and the old memory |
| AleMain.StoreInstr | source-code/ALEMain.cpp:258-269 | value and new memory are `StoreEffect`: address first, then source, then the write |
| AleMain.LoadInstr | source-code/ALEMain.cpp:271-279 | value and new memory are `LoadEffect`: address, read, then the register |
| AleMain.CallInstr | source-code/ALEMain.cpp:169-177 | value and new memory are `CallEffect`: SP lowered by 4, return address stored there, callee looked up |
| AleMain.JumpInstr | source-code/ALEMain.cpp:179-182 | value and new memory are `JumpEffect`: the remaining tokens' value divided by 4 |
| AleMain.BranchInstr | source-code/ALEMain.cpp:139-167 | value and new memory are `BranchEffect`: the target index if the comparison holds, PC / 4 + 1 otherwise |
| AleMain.ReturnInstr | source-code/ALEMain.cpp:90-108 | the loop's RET branch does what `ReturnStep` says |
| AleMain.ExecuteLine | source-code/ALEMain.cpp:82-127 | one loop iteration does what `Step` says |
| AleMain.RunAfterStep | source-code/ALEMain.cpp:82-128 | a run with fuel left is the step's action followed by the rest of the run |
| AleMain.RunProgram | source-code/ALEMain.cpp:79-129 | the status and final memory are `Run` from instruction 0 at call depth 0 |
| AleMainFacts.TruncDivIsCppDivision | source-code/ALEMain.cpp:309 | `/` truncates: the remainder is smaller than the divisor, carries the dividend's sign, and the quotient's magnitude is the magnitudes' quotient |
| AleMainFacts.TruncDivRemainder | source-code/ALEMain.cpp:309 | the remainder is the magnitudes' remainder with the dividend's sign |
| AleMainFacts.TruncDivDiffersFromEuclidean | source-code/ALEMain.cpp:309 | -7 / 2 is -3 in C++, unlike the Euclidean -4 |
| AleMainFacts.AluCommutes | source-code/ALEMain.cpp:306-308 | `+` and `*` give the same result with the operands swapped |
| AleMainFacts.AluDivides | source-code/ALEMain.cpp:309 | division by zero is an error, and otherwise the quotient is the truncating one |
| AleMainFacts.AluLeftOperandFirst | source-code/ALEMain.cpp:291-304 | the left operand is resolved first: its error is the ALU's |
| AleMainFacts.StoiDecimal | source-code/ALEMain.cpp:187-188 | `stoi` of a decimal numeral, optionally negated and followed by non-digits, is its value |
| AleMainFacts.DecimalValueOfDecimal | source-code/ALEMain.cpp:187-188 | the decimal digits of n denote n |
| AleMainFacts.ContentOfAccess | source-code/ALEMain.cpp:281-285 | the content of `M[e]` is `e` when `e` has no bracket |
| AleMainFacts.PureEvaluation | source-code/ALEMain.cpp:186-200 | a one-token or three-token expression changes no state and depends only on the registers |
| AleMainFacts.RegisterInstructionFrame | source-code/ALEMain.cpp:202-254 | an instruction without memory access changes nothing or only its destination register, to the value returned |
| AleMainFacts.WidthIgnoredInAssignment | source-code/ALEMain.cpp:231-254 | `d =.n s` assigns `s` to `d` exactly as `d = s` does |
| AleMainFacts.StoreEvaluatesAddressFirst | source-code/ALEMain.cpp:258-264 | a failing address expression decides a store's error, whatever the source |
| AleMainFacts.OperandInInt32 | source-code/ALEMain.cpp:186-191 | an operand resolves to a 32-bit int when all registers hold one |
| AleMainFacts.StoreThenLoad | source-code/ALEMain.cpp:213-229 | `M[e] = src` then `dst = M[e]` puts src's value into dst, with registers untouched by the store |
| AleMainFacts.StoreThenLoadNarrow | source-code/ALEMain.cpp:213-229 | `M[e] =.n src` then `dst =.n M[e]` (n = 1, 2) puts src's value modulo 256 or 65536 into dst |
| AleMainFacts.EvalKeepsInt32 | source-code/ALEMain.cpp:184-256 | evaluation keeps every register a 32-bit int and returns one |
| AleMainFacts.StoreKeepsInt32 | source-code/ALEMain.cpp:258-269 | a store keeps every register a 32-bit int |
| AleMainFacts.LoadKeepsInt32 | source-code/ALEMain.cpp:271-279 | a load keeps every register a 32-bit int |
| AleMainFacts.NotEvaluated | source-code/ALEMain.cpp:109-113 | a first token without `R` or `[` that is not SP or RV is not sent to the evaluator |
| AleMainFacts.MnemonicsNotEvaluated | source-code/ALEMain.cpp:109-125 | CALL, JUMP, PC and the branch mnemonics are never evaluated as expressions |
| AleMainFacts.IndexOfAddress | source-code/ALEMain.cpp:83 | the byte address 4i maps back to index i |
| AleMainFacts.CallPushesReturnAddress | source-code/ALEMain.cpp:115-118 | CALL continues iff the label is declared (else the "no such function" error), at the label's index one level deeper, with SP lowered by 4 holding (i + 1) * 4 and PC = 4i; on the error the push is already in memory |
| AleMainFacts.CallEffectPushes | source-code/ALEMain.cpp:169-177 | with room below SP, CallInstr lowers SP by 4, stores the return address there, leaves PC alone and returns the callee lookup |
| AleMainFacts.StepOfCall | source-code/ALEMain.cpp:109-118 | a line starting with `CALL` is dispatched to CallInstr, one call deeper |
| AleMainFacts.ReturnPopsReturnAddress | source-code/ALEMain.cpp:90-98 | RET inside a call resumes at the popped word / 4, one level up, with SP raised by 4 |
| AleMainFacts.CallThenReturn | source-code/ALEMain.cpp:90-118 | a RET reached with the callee's SP and stack word returns to the instruction after the CALL, at the caller's depth, with SP restored |
| AleMainFacts.ReturnAtTopLevel | source-code/ALEMain.cpp:99-108 | RET at depth 0 halts with RV if SP is back at its initial value, and reports a memory leak otherwise |
| AleMainFacts.BranchDecision | source-code/ALEMain.cpp:122-124 | a branch goes to target / 4 when its comparison holds and to the next instruction otherwise |
| AleMainFacts.JumpTo | source-code/ALEMain.cpp:119-121 | JUMP goes to target / 4 |
| AleMainFacts.PcInstructionSkipped | source-code/ALEMain.cpp:109-127 | a line starting with `PC` matches no branch and is skipped |
| AleMainFacts.ReturnKeepsInt32 | source-code/ALEMain.cpp:90-108 | RET keeps registers 32-bit and returns a 32-bit value |
| AleMainFacts.DispatchKeepsInt32 | source-code/ALEMain.cpp:90-127 | every dispatched instruction keeps registers 32-bit |
| AleMainFacts.StepKeepsInt32 | source-code/ALEMain.cpp:82-127 | every loop iteration keeps registers 32-bit |
| AleMainFacts.RunKeepsInt32 | source-code/ALEMain.cpp:79-129 | a whole run keeps registers 32-bit, and a returned value is a 32-bit int |
| AleMainFacts.ProgramReturnsInt | source-code/ALEMain.cpp:105-107 | the value a program returns is a 32-bit int |
| AleMainFacts.RunFuelSplit | source-code/ALEMain.cpp:82 | more fuel never changes a finished run, and a run out of fuel continues where it stopped |
| AleMainFacts.RunContinues | source-code/ALEMain.cpp:82-128 | a step to a next state is followed by the run from that state |
| AleMainFacts.CallAndReturnSeven | source-code/ALEMain.cpp:79-129 | `CALL <f>; RET; <f> RV = 7; RET` returns 7 in four steps |

## Left out

- The `main` function, file reading, the interactive prompt, `PrintLine`, print mode and timing are I/O. The model starts from the program text as a sequence of lines and ends with a status value.
- Exceptions are the `Error` values of a `Result`. In the original only `main` catches them, prints the message and exits. Here the run ends with the status `Failed(error)`, or `LoadLines` with the outcome `Fail(error)`.
- Undefined behaviour is not modelled beyond the point where it happens. This covers signed overflow, division by zero and a token index past the end of an instruction. An access wider than four bytes runs the checks of bytes 0 to 4 like the original and then stops at the copy of the fifth byte, past the four-byte buffer. Each is the error `Undefined(what)`.
- A literal out of the `int` range makes `stoi` throw `std::out_of_range`, which `main` does not catch (it catches only `string`), so the process aborts. The model ends the run with the error `Undefined(what)` there as well.
- AleMemory.Memory.ReadAddr: a read of 1, 2 or 3 bytes fills the rest of its buffer with zero, and a read of 0 or fewer bytes returns 0; the C++ leaves those buffer bytes indeterminate (see Findings), so only the bytes actually read are stated as the original guarantees them.
- Characters are Dafny `char`s (Unicode scalar values); the C++ `std::string` holds bytes. Every character the tokenizer and validator test for is ASCII, so a multi-byte character only changes the lengths and indices, not the tokens.
- AleMain.RunProgram: the loop runs for at most `fuel` instructions and reports `OutOfFuel` otherwise, because a Dafny method must terminate. `RunFuelSplit` shows more fuel never changes a finished run.
- The call depth is an unbounded natural number. The C++ `int` counter cannot overflow in practice, because each call also lowers SP by 4.
- The engine reads the program as a `Program` value. The C++ passes the `ALEDatabase` object but never changes it while running.
- The loop body of `RunProgram` is split into the methods `ExecuteLine` and `ReturnInstr`. The loop of `ReadAddr` is in `CopyBytes`.
- JumpInstr: erasing the first token from the loop's copy of the instruction is modelled as dropping it from the sequence.
- AleMainFacts.ContentOfAccess: it is stated for contents shorter than 2^64 characters, because `GetContent` computes the length in 64-bit `size_t`.
- AleDatabase.ParseLine: the token list is stated exactly for lines without `M[` (`PlainSplit`) and for lines `pre M[e] rest` whose access is set off by separators or operators, or by the ends of the line (`AccessToken`), which covers the store form `M[e] = s` and the load form `d = M[e]`. An access glued to the characters around it (`RM[e]`, `M[e]R`) or a `]` before the first `M[` lets the bracket flag and the plain runs interact in ways no instruction form uses; there only the general facts (`TokenizeSize`, `TokensNonEmpty`, `TokenizeFromExtends`) are proved.
- `ALEDatabase::PrintLine` and the destructors are not modelled; they only print or do nothing.

## Findings

| source | as written | input that shows it | evidently intended | confidence | as-written member | corrected member |
|---|---|---|---|---|---|---|
| source-code/ALEMemory.cpp:30-46 | a read of fewer than four bytes copies its bytes into an uninitialised 4-byte buffer and returns the whole buffer as an int | `M[R1] =.1 R2` with R2 = 5, then `R3 =.1 M[R1]`: R3 is 5 only if the stale upper bytes happen to be zero (with 0xff bytes it is -251) | the low bytes zero-extended: the value modulo 256 or 65536 | high; not executed | AleMemoryFacts.NarrowReadSeesStaleBytes | AleMemoryFacts.ReadAfterWriteLow |
