/** The execution engine (ALEMain.cpp): operand resolution, the ALU, the
    expression evaluator with typed stores and loads, CALL/RET, JUMP, the
    branches, and the fetch/dispatch loop, as specification functions over
    MemoryState and as methods over an ALEMemory object proved against them. */
module AleMain {
  import opened Wrappers
  import opened AleConstants
  import opened AleMemory
  import opened AleDatabase

  // ------------------------------------------------------------- operands

  /** A token the engine reads as an integer literal: it starts with a digit,
      or with '-' followed by a digit. */
  predicate IsLiteral(t: string) {
    IsDigit(CharAt(t, 0)) || (CharAt(t, 0) == '-' && IsDigit(CharAt(t, 1)))
  }

  predicate AllDigits(d: string) {
    forall k :: 0 <= k < |d| ==> IsDigit(d[k])
  }

  /** The longest prefix of s made of decimal digits. */
  function DigitPrefix(s: string): (d: string)
    ensures d <= s && AllDigits(d)
    ensures |d| < |s| ==> !IsDigit(s[|d|])
  {
    if s == [] || !IsDigit(s[0]) then [] else [s[0]] + DigitPrefix(s[1..])
  }

  /** The number a string of decimal digits denotes. */
  function DecimalValue(d: string): nat
    requires AllDigits(d)
  {
    if d == [] then 0 else DecimalValue(d[..|d| - 1]) * 10 + (d[|d| - 1] as int - '0' as int)
  }

  /** std::stoi on the tokens the engine hands it: an optional '-' and the
      digits that follow, ignoring the rest of the token. */
  function Stoi(t: string): int {
    if CharAt(t, 0) == '-' then 0 - DecimalValue(DigitPrefix(t[1..])) else DecimalValue(DigitPrefix(t))
  }

  /** The value of a source operand: a literal, or the register it names.  A
      literal beyond int makes std::stoi throw, which the original never
      catches. */
  function Operand(t: string, m: MemoryState): Result<int> {
    if IsLiteral(t) then
      if InInt32(Stoi(t)) then Ok(Stoi(t)) else Err(Undefined("integer literal out of range"))
    else GetReg(m, t)
  }

  function Abs(x: int): nat {
    if x < 0 then -x else x
  }

  /** C++ signed division, which truncates toward zero. */
  function TruncDiv(a: int, b: int): int
    requires b != 0
  {
    var q := Abs(a) / Abs(b);
    if (a < 0) != (b < 0) then -q else q
  }

  /** ALU: both operands are resolved left first, then '+', '-' or '*' by the
      first character of op, and anything else divides.  Overflow and division
      by zero are undefined in C++ and abort here. */
  function Alu(left: string, op: string, right: string, m: MemoryState): Result<int> {
    var l := Operand(left, m);
    if l.Err? then l
    else
      var r := Operand(right, m);
      if r.Err? then r
      else
        var a, b := l.value, r.value;
        var c := CharAt(op, 0);
        if c !in "+-*" && b == 0 then Err(Undefined("division by zero"))
        else
          var v := if c == '+' then a + b else if c == '-' then a - b else if c == '*' then a * b else TruncDiv(a, b);
          if InInt32(v) then Ok(v) else Err(Undefined("signed overflow"))
  }

  // ----------------------------------------------------------- evaluation

  /** The byte count of a width token such as ".2": its second character minus
      '0'. */
  function Width(t: string): int {
    CharAt(t, 1) as int - '0' as int
  }

  /** std::string::npos, and a position as the unsigned size_t the source
      computes with. */
  const SizeModulus: int := 0x1_0000_0000_0000_0000
  const NPos: int := SizeModulus - 1

  function AsSize(position: int): int {
    if position == -1 then NPos else position
  }

  /** GetContent: the substring from index 2 whose length is the position of
      the first ']' minus that of the first '[' minus one, computed in size_t
      (so a ']' missing or before the '[' takes the rest of the string). */
  function GetContent(component: string): (content: string)
    requires |component| >= 2
    ensures |content| <= |component| - 2
  {
    var open := AsSize(Find(component, [MemAccessOpen]));
    var close := AsSize(Find(component, [MemAccessClose]));
    var count := (close - open - 1) % SizeModulus;
    component[2..if 2 + count <= |component| then 2 + count else |component|]
  }

  /** The tokens of a memory access's address expression. */
  function ContentTokens(component: string): (tokens: seq<string>)
    requires |component| >= 2
    ensures Size(tokens) < |component|
  {
    TokenizeSize(GetContent(component));
    Tokenize(GetContent(component))
  }

  lemma AccessLength(t: string)
    requires Includes(t, MemAccessPrefix)
    ensures |t| >= 2
  {
  }

  /** Evaluate: the value of an instruction's tokens and the memory after it,
      dispatching on the token count and shape.  A failed step leaves the
      effects made before the failure in place. */
  function Eval(tokens: seq<string>, m: MemoryState): (Result<int>, MemoryState)
    decreases Size(tokens), 1
  {
    if |tokens| == 1 then (Operand(tokens[0], m), m)
    else if |tokens| == 3 && tokens[1] != "=" then (Alu(tokens[0], tokens[1], tokens[2], m), m)
    else if |tokens| == 5 then
      var v := Alu(tokens[2], tokens[3], tokens[4], m);
      if v.Err? then (v, m) else (v, PutReg(m, tokens[0], v.value))
    else if |tokens| == 0 || |tokens| == 2 then (Err(Undefined("instruction shape")), m)
    else if Includes(tokens[0], MemAccessPrefix) then
      AccessLength(tokens[0]);
      TokenInSize(tokens, 0);
      if |tokens| == 3 then StoreEffect(tokens[0], tokens[2], 4, m)
      else StoreEffect(tokens[0], tokens[3], Width(tokens[2]), m)
    else if |tokens| == 3 && Includes(tokens[2], MemAccessPrefix) then
      AccessLength(tokens[2]);
      TokenInSize(tokens, 2);
      LoadEffect(tokens[0], tokens[2], 4, m)
    else if |tokens| == 4 && Includes(tokens[3], MemAccessPrefix) then
      AccessLength(tokens[3]);
      TokenInSize(tokens, 3);
      LoadEffect(tokens[0], tokens[3], Width(tokens[2]), m)
    else if |tokens| == 4 then Assign(tokens[0], tokens[3], m)
    else Assign(tokens[0], tokens[2], m)
  }

  /** Register assignment of a single operand. */
  function Assign(dest: string, source: string, m: MemoryState): (Result<int>, MemoryState) {
    var v := Operand(source, m);
    if v.Err? then (v, m) else (v, PutReg(m, dest, v.value))
  }

  /** StoreInstr: evaluate the address, then resolve the source, then write
      byteCount bytes of it.  A count above four overruns the original's
      four-byte buffer. */
  function StoreEffect(dest: string, source: string, byteCount: int, m: MemoryState): (Result<int>, MemoryState)
    requires |dest| >= 2
    decreases |dest|, 0
  {
    var (address, m1) := Eval(ContentTokens(dest), m);
    if address.Err? then (address, m1)
    else
      var value := Operand(source, m1);
      if value.Err? then (value, m1)
      else
        var (outcome, m2) := Write(m1, value.value, address.value, byteCount);
        if outcome.Fail? then (Err(outcome.error), m2) else (value, m2)
  }

  /** LoadInstr: evaluate the address, read byteCount bytes there, and put
      the value into dest. */
  function LoadEffect(dest: string, source: string, byteCount: int, m: MemoryState): (Result<int>, MemoryState)
    requires |source| >= 2
    decreases |source|, 0
  {
    var (address, m1) := Eval(ContentTokens(source), m);
    if address.Err? then (address, m1)
    else
      var value := Read(m1, address.value, byteCount);
      if value.Err? then (value, m1) else (value, PutReg(m1, dest, value.value))
  }

  // ------------------------------------------------------ control transfer

  /** CallInstr: push the return address savedIndex * 4 below SP, then look up
      the callee's instruction index. */
  function CallEffect(lineData: seq<string>, savedIndex: int, p: Program, m: MemoryState): (Result<int>, MemoryState) {
    var sp := GetReg(m, StackPointer);
    if sp.Err? then (sp, m)
    else if !InInt32(sp.value - 4) then (Err(Undefined("signed overflow")), m)
    else
      var m1 := PutReg(m, StackPointer, sp.value - 4);
      if !InInt32(savedIndex * 4) then (Err(Undefined("signed overflow")), m1)
      else
        var (outcome, m2) := Write(m1, savedIndex * 4, sp.value - 4, 4);
        if outcome.Fail? then (Err(outcome.error), m2)
        else if |lineData| < 2 then (Err(Undefined("CALL without a target")), m2)
        else (p.GetFunctionIndex(lineData[1]), m2)
  }

  /** JumpInstr: the index of the byte address the remaining tokens evaluate to. */
  function JumpEffect(lineData: seq<string>, m: MemoryState): (Result<int>, MemoryState)
    requires |lineData| >= 1
  {
    var (dest, m1) := Eval(lineData[1..], m);
    if dest.Err? then (dest, m1) else (Ok(TruncDiv(dest.value, 4)), m1)
  }

  /** Contains: op is one of the six branch mnemonics. */
  predicate Contains(op: string) {
    op in Branches
  }

  /** The comparison each branch mnemonic performs. */
  predicate Compare(op: string, left: int, right: int) {
    if op == "BLT" then left < right
    else if op == "BLE" then left <= right
    else if op == "BEQ" then left == right
    else if op == "BNE" then left != right
    else if op == "BGT" then left > right
    else if op == "BGE" then left >= right
    else false
  }

  /** BranchInstr: evaluate the two operands and the destination in order;
      a branch taken goes to destination / 4, one not taken to PC / 4 + 1. */
  function BranchEffect(lineData: seq<string>, m: MemoryState): (Result<int>, MemoryState)
  {
    if |lineData| < 3 then (Err(Undefined("branch shape")), m)
    else
      var (left, m1) := Eval(lineData[1..2], m);
      if left.Err? then (left, m1)
      else
        var (right, m2) := Eval(lineData[2..3], m1);
        if right.Err? then (right, m2)
        else
          var (dest, m3) := Eval(lineData[3..], m2);
          if dest.Err? then (dest, m3)
          else if Compare(lineData[0], left.value, right.value) then (Ok(TruncDiv(dest.value, 4)), m3)
          else
            var pc := GetReg(m3, CurrInstrPointer);
            if pc.Err? then (pc, m3) else (Ok(TruncDiv(pc.value, 4) + 1), m3)
  }

  // -------------------------------------------------- the dispatch machine

  /** The state RunProgram's loop carries: the instruction index, the number
      of calls not yet returned from, and the memory. */
  datatype Machine = Machine(i: int, depth: nat, mem: MemoryState)

  datatype StepResult =
    | Next(machine: Machine)
    | Halt(value: int, mem: MemoryState)
    | Fault(error: Error, mem: MemoryState)

  /** The first token sends the instruction to the evaluator. */
  predicate IsEvaluated(identifier: string) {
    identifier == StackPointer || identifier == RetValue
    || Includes(identifier, RegisterPrefix) || Includes(identifier, MemAccessPrefix)
  }

  /** RET: with calls outstanding, pop the return address into the index;
      at depth 0, end the program with RV, provided SP is back at its initial
      value. */
  function ReturnStep(depth: nat, m: MemoryState): StepResult {
    var sp := GetReg(m, StackPointer);
    if sp.Err? then Fault(sp.error, m)
    else if depth != 0 then
      var word := Read(m, sp.value, 4);
      if word.Err? then Fault(word.error, m)
      else Next(Machine(TruncDiv(word.value, 4), depth - 1, PutReg(m, StackPointer, sp.value + 4)))
    else if sp.value != SPInitValue then Fault(MemoryLeak, m)
    else
      var rv := GetReg(m, RetValue);
      if rv.Err? then Fault(rv.error, m) else Halt(rv.value, m)
  }

  /** Continue at the index a handler computed, or stop at its error. */
  function Transfer(r: (Result<int>, MemoryState), depth: nat): StepResult {
    if r.0.Err? then Fault(r.0.error, r.1) else Next(Machine(r.0.value, depth, r.1))
  }

  /** The action the first token of instruction i selects, PC already set. */
  function Dispatch(p: Program, i: int, depth: nat, lineData: seq<string>, m: MemoryState): StepResult
    requires |lineData| > 0
  {
    var identifier := lineData[0];
    if identifier == Return then ReturnStep(depth, m)
    else if IsEvaluated(identifier) then
      var (r, m1) := Eval(lineData, m);
      if r.Err? then Fault(r.error, m1) else Next(Machine(i + 1, depth, m1))
    else if identifier == Call then Transfer(CallEffect(lineData, i + 1, p, m), depth + 1)
    else if identifier == Jump then Transfer(JumpEffect(lineData, m), depth)
    else if Contains(identifier) then Transfer(BranchEffect(lineData, m), depth)
    else Next(Machine(i + 1, depth, m))
  }

  /** One iteration of RunProgram's loop on instruction i. */
  function Step(p: Program, s: Machine): StepResult
    requires 0 <= s.i < |p.lines|
  {
    if !InInt32(s.i * 4) then Fault(Undefined("signed overflow"), s.mem)
    else
      var m := PutReg(s.mem, CurrInstrPointer, s.i * 4);
      if |p.lines[s.i]| == 0 then Fault(Undefined("empty instruction"), m)
      else Dispatch(p, s.i, s.depth, p.lines[s.i], m)
  }

  /** How a run ends: RET at depth 0 returned RV, control left the program,
      an error aborted it, or the fuel ran out at the given state. */
  datatype Status = Returned(value: int) | Completed | Failed(error: Error) | OutOfFuel(at: Machine)

  /** RunProgram with at most fuel steps, and the final memory. */
  function Run(p: Program, s: Machine, fuel: nat): (Status, MemoryState)
    decreases fuel, 0
  {
    if s.i >= |p.lines| then (Completed, s.mem)
    else if s.i < 0 then (Failed(Undefined("negative instruction index")), s.mem)
    else if fuel == 0 then (OutOfFuel(s), s.mem)
    else Resume(p, Step(p, s), fuel - 1)
  }

  /** The rest of a run after a step with result r, with fuel steps left. */
  function Resume(p: Program, r: StepResult, fuel: nat): (Status, MemoryState)
    decreases fuel, 1
  {
    match r
    case Next(t) => Run(p, t, fuel)
    case Halt(v, m) => (Returned(v), m)
    case Fault(e, m) => (Failed(e), m)
  }

  // ------------------------------------------------------------ the methods

  /** Evaluate. */
  method Evaluate(lineData: seq<string>, memory: Memory) returns (r: Result<int>)
    modifies memory
    ensures (r, memory.State()) == Eval(lineData, old(memory.State()))
    decreases Size(lineData), 1
  {
    if |lineData| == 1 {
      r := Operand(lineData[0], memory.State());
    } else if |lineData| == 3 && lineData[1] != "=" {
      r := Alu(lineData[0], lineData[1], lineData[2], memory.State());
    } else if |lineData| == 5 {
      r := Alu(lineData[2], lineData[3], lineData[4], memory.State());
      if r.Ok? {
        memory.PutRegValue(lineData[0], r.value);
      }
    } else if |lineData| == 0 || |lineData| == 2 {
      r := Err(Undefined("instruction shape"));
    } else if Includes(lineData[0], MemAccessPrefix) {
      AccessLength(lineData[0]);
      TokenInSize(lineData, 0);
      if |lineData| == 3 {
        r := StoreInstr(lineData[0], lineData[2], 4, memory);
      } else {
        r := StoreInstr(lineData[0], lineData[3], Width(lineData[2]), memory);
      }
    } else if |lineData| == 3 && Includes(lineData[2], MemAccessPrefix) {
      AccessLength(lineData[2]);
      TokenInSize(lineData, 2);
      r := LoadInstr(lineData[0], lineData[2], 4, memory);
    } else if |lineData| == 4 && Includes(lineData[3], MemAccessPrefix) {
      AccessLength(lineData[3]);
      TokenInSize(lineData, 3);
      r := LoadInstr(lineData[0], lineData[3], Width(lineData[2]), memory);
    } else {
      var source := if |lineData| == 4 then lineData[3] else lineData[2];
      r := Operand(source, memory.State());
      if r.Ok? {
        memory.PutRegValue(lineData[0], r.value);
      }
    }
  }

  /** StoreInstr. */
  method StoreInstr(dest: string, source: string, byteCount: int, memory: Memory) returns (r: Result<int>)
    requires |dest| >= 2
    modifies memory
    ensures (r, memory.State()) == StoreEffect(dest, source, byteCount, old(memory.State()))
    decreases |dest|, 0
  {
    var contentData := ParseLine(GetContent(dest));
    assert contentData == ContentTokens(dest);
    var address := Evaluate(contentData, memory);
    if address.Err? {
      return address;
    }
    r := Operand(source, memory.State());
    if r.Err? {
      return;
    }
    var outcome := memory.WriteAddr(r.value, address.value, byteCount);
    if outcome.Fail? {
      r := Err(outcome.error);
    }
  }

  /** LoadInstr. */
  method LoadInstr(dest: string, source: string, byteCount: int, memory: Memory) returns (r: Result<int>)
    requires |source| >= 2
    modifies memory
    ensures (r, memory.State()) == LoadEffect(dest, source, byteCount, old(memory.State()))
    decreases |source|, 0
  {
    var contentData := ParseLine(GetContent(source));
    assert contentData == ContentTokens(source);
    var address := Evaluate(contentData, memory);
    if address.Err? {
      return address;
    }
    r := memory.ReadAddr(address.value, byteCount);
    if r.Ok? {
      memory.PutRegValue(dest, r.value);
    }
  }

  /** CallInstr. */
  method CallInstr(lineData: seq<string>, savedIndex: int, p: Program, memory: Memory) returns (r: Result<int>)
    modifies memory
    ensures (r, memory.State()) == CallEffect(lineData, savedIndex, p, old(memory.State()))
  {
    r := memory.GetRegValue(StackPointer);
    if r.Err? {
      return;
    }
    var sp := r.value - 4;
    if !InInt32(sp) {
      return Err(Undefined("signed overflow"));
    }
    memory.PutRegValue(StackPointer, sp);
    if !InInt32(savedIndex * 4) {
      return Err(Undefined("signed overflow"));
    }
    var outcome := memory.WriteAddr(savedIndex * 4, sp, 4);
    if outcome.Fail? {
      return Err(outcome.error);
    }
    if |lineData| < 2 {
      return Err(Undefined("CALL without a target"));
    }
    r := p.GetFunctionIndex(lineData[1]);
  }

  /** JumpInstr. */
  method JumpInstr(lineData: seq<string>, memory: Memory) returns (r: Result<int>)
    requires |lineData| >= 1
    modifies memory
    ensures (r, memory.State()) == JumpEffect(lineData, old(memory.State()))
  {
    r := Evaluate(lineData[1..], memory);
    if r.Ok? {
      r := Ok(TruncDiv(r.value, 4));
    }
  }

  /** BranchInstr. */
  method BranchInstr(lineData: seq<string>, memory: Memory) returns (r: Result<int>)
    modifies memory
    ensures (r, memory.State()) == BranchEffect(lineData, old(memory.State()))
  {
    if |lineData| < 3 {
      return Err(Undefined("branch shape"));
    }
    var left := Evaluate(lineData[1..2], memory);
    if left.Err? {
      return left;
    }
    var right := Evaluate(lineData[2..3], memory);
    if right.Err? {
      return right;
    }
    var dest := Evaluate(lineData[3..], memory);
    if dest.Err? {
      return dest;
    }
    if Compare(lineData[0], left.value, right.value) {
      return Ok(TruncDiv(dest.value, 4));
    }
    r := memory.GetRegValue(CurrInstrPointer);
    if r.Ok? {
      r := Ok(TruncDiv(r.value, 4) + 1);
    }
  }

  /** What the loop does after one instruction: go on at an index and call
      depth, or stop with a final status. */
  datatype Action = Continue(i: int, depth: nat) | Stop(status: Status)

  /** The action and memory a step result stands for. */
  predicate Performs(action: Action, mem: MemoryState, r: StepResult) {
    match r
    case Next(t) => action == Continue(t.i, t.depth) && mem == t.mem
    case Halt(v, m) => action == Stop(Returned(v)) && mem == m
    case Fault(e, m) => action == Stop(Failed(e)) && mem == m
  }

  /** The RET branch of RunProgram's loop body. */
  method ReturnInstr(numOfCalls: nat, memory: Memory) returns (action: Action)
    modifies memory
    ensures Performs(action, memory.State(), ReturnStep(numOfCalls, old(memory.State())))
  {
    var sp := memory.GetRegValue(StackPointer);
    if sp.Err? {
      return Stop(Failed(sp.error));
    }
    if numOfCalls != 0 {
      var word := memory.ReadAddr(sp.value, 4);
      if word.Err? {
        return Stop(Failed(word.error));
      }
      var i := TruncDiv(word.value, 4);
      memory.PutRegValue(StackPointer, sp.value + 4);
      return Continue(i, numOfCalls - 1);
    }
    if sp.value != SPInitValue {
      return Stop(Failed(MemoryLeak));
    }
    var rv := memory.GetRegValue(RetValue);
    if rv.Err? {
      return Stop(Failed(rv.error));
    }
    return Stop(Returned(rv.value));
  }

  /** The body of RunProgram's loop on instruction i. */
  method ExecuteLine(p: Program, i: int, numOfCalls: nat, memory: Memory) returns (action: Action)
    requires 0 <= i < |p.lines|
    modifies memory
    ensures Performs(action, memory.State(), Step(p, Machine(i, numOfCalls, old(memory.State()))))
  {
    if !InInt32(i * 4) {
      return Stop(Failed(Undefined("signed overflow")));
    }
    memory.PutRegValue(CurrInstrPointer, i * 4);
    var lineData := p.GetLineAt(i);
    if |lineData| == 0 {
      return Stop(Failed(Undefined("empty instruction")));
    }
    var identifier := lineData[0];
    if identifier == Return {
      action := ReturnInstr(numOfCalls, memory);
      return;
    }
    var next: Result<int>;
    var depth := numOfCalls;
    if IsEvaluated(identifier) {
      next := Evaluate(lineData, memory);
      if next.Ok? {
        next := Ok(i + 1);
      }
    } else if identifier == Call {
      depth := numOfCalls + 1;
      next := CallInstr(lineData, i + 1, p, memory);
    } else if identifier == Jump {
      next := JumpInstr(lineData, memory);
    } else if Contains(identifier) {
      next := BranchInstr(lineData, memory);
    } else {
      next := Ok(i + 1);
    }
    if next.Err? {
      return Stop(Failed(next.error));
    }
    return Continue(next.value, depth);
  }

  /** Running from a state with fuel left is the step's action followed by the
      rest of the run. */
  lemma RunAfterStep(p: Program, s: Machine, fuel: nat, action: Action, mem: MemoryState)
    requires 0 <= s.i < |p.lines| && fuel > 0
    requires Performs(action, mem, Step(p, s))
    ensures action.Continue? ==> Run(p, s, fuel) == Run(p, Machine(action.i, action.depth, mem), fuel - 1)
    ensures action.Stop? ==> Run(p, s, fuel) == (action.status, mem)
  {
  }

  /** RunProgram, given fuel for at most that many instructions. */
  method RunProgram(p: Program, memory: Memory, fuel: nat) returns (status: Status)
    modifies memory
    ensures (status, memory.State()) == Run(p, Machine(0, 0, old(memory.State())), fuel)
  {
    var numOfCalls: nat := 0;
    var i := 0;
    var remaining := fuel;
    while i < p.GetLineCount()
      invariant Run(p, Machine(i, numOfCalls, memory.State()), remaining)
                == Run(p, Machine(0, 0, old(memory.State())), fuel)
      decreases remaining
    {
      if i < 0 {
        return Failed(Undefined("negative instruction index"));
      }
      if remaining == 0 {
        return OutOfFuel(Machine(i, numOfCalls, memory.State()));
      }
      ghost var before := Machine(i, numOfCalls, memory.State());
      var action := ExecuteLine(p, i, numOfCalls, memory);
      RunAfterStep(p, before, remaining, action, memory.State());
      remaining := remaining - 1;
      match action
      case Stop(s) =>
        return s;
      case Continue(next, depth) =>
        i, numOfCalls := next, depth;
    }
    return Completed;
  }
}
