/** What the execution engine guarantees: C++ division and std::stoi as the
    engine uses them, the evaluator's store/load round trip and frame, the
    CALL/RET discipline, branch decisions, the int range of every register,
    and how fuel composes. */
module AleMainFacts {
  import opened Wrappers
  import opened AleConstants
  import opened AleMemory
  import opened AleMemoryFacts
  import opened AleDatabase
  import opened AleDatabaseFacts
  import opened AleMain

  // ------------------------------------------------------------ arithmetic

  /** TruncDiv is C++ division: the quotient truncates toward zero, so the
      remainder a - q * b is smaller than b in magnitude and takes the sign
      of a. */
  lemma TruncDivIsCppDivision(a: int, b: int)
    requires b != 0
    ensures Abs(a - TruncDiv(a, b) * b) < Abs(b)
    ensures a - TruncDiv(a, b) * b == 0 || (a - TruncDiv(a, b) * b < 0 <==> a < 0)
    ensures Abs(TruncDiv(a, b)) == Abs(a) / Abs(b)
  {
    TruncDivRemainder(a, b);
    QuotientOfMagnitudes(Abs(a), Abs(b));
  }

  lemma QuotientOfMagnitudes(n: nat, d: nat)
    requires d > 0
    ensures n / d >= 0
  {
  }

  /** The remainder left by TruncDiv is the remainder of the magnitudes, with
      the sign of the dividend. */
  lemma TruncDivRemainder(a: int, b: int)
    requires b != 0
    ensures a - TruncDiv(a, b) * b == if a < 0 then -(Abs(a) % Abs(b)) else Abs(a) % Abs(b)
  {
    var n: int, d: int := Abs(a), Abs(b);
    var q0: int, r0: int := n / d, n % d;
    assert n == q0 * d + r0;
    if a >= 0 && b > 0 {
    } else if a < 0 && b > 0 {
      NegatedProduct(q0, d);
    } else if a >= 0 && b < 0 {
      NegatedProducts(q0, d);
    } else {
      NegatedProduct(d, q0);
    }
  }

  lemma NegatedProduct(x: int, y: int)
    ensures (-x) * y == -(x * y) && y * (-x) == -(x * y)
  {
  }

  lemma NegatedProducts(x: int, y: int)
    ensures (-x) * (-y) == x * y
  {
  }

  /** Where C++ and Dafny division part ways: -7 / 2 is -3 in C++ and -4 in
      Dafny. */
  lemma TruncDivDiffersFromEuclidean()
    ensures TruncDiv(-7, 2) == -3 && -7 / 2 == -4
  {
  }

  /** The ALU adds and multiplies commutatively, whatever its operand tokens
      are, as long as both resolve. */
  lemma AluCommutes(left: string, right: string, m: MemoryState)
    requires Operand(left, m).Ok? && Operand(right, m).Ok?
    ensures Alu(left, "+", right, m) == Alu(right, "+", left, m)
    ensures Alu(left, "*", right, m) == Alu(right, "*", left, m)
  {
  }

  /** Division through the ALU: any op not starting with + - * divides; a zero
      divisor fails, and otherwise the quotient truncates toward zero. */
  lemma AluDivides(left: string, op: string, right: string, m: MemoryState, x: int, y: int)
    requires Operand(left, m) == Ok(x) && Operand(right, m) == Ok(y)
    requires CharAt(op, 0) !in "+-*"
    ensures y == 0 ==> Alu(left, op, right, m) == Err(Undefined("division by zero"))
    ensures y != 0 && Alu(left, op, right, m).Ok? ==>
      var q := Alu(left, op, right, m).value;
      Abs(x - q * y) < Abs(y) && (x - q * y == 0 || (x - q * y < 0 <==> x < 0))
  {
    if y != 0 {
      TruncDivIsCppDivision(x, y);
    }
  }

  // ----------------------------------------------------------------- stoi

  /** The decimal rendering of a natural number. */
  function Decimal(n: nat): (d: string)
    ensures |d| > 0 && AllDigits(d)
  {
    if n < 10 then [('0' as int + n) as char] else Decimal(n / 10) + [('0' as int + n % 10) as char]
  }

  lemma {:induction false} DecimalValueOfDecimal(n: nat)
    ensures DecimalValue(Decimal(n)) == n
  {
    if n >= 10 {
      var d := Decimal(n);
      assert d[..|d| - 1] == Decimal(n / 10);
      DecimalValueOfDecimal(n / 10);
    }
  }

  lemma {:induction false} DigitPrefixOf(d: string, rest: string)
    requires AllDigits(d) && !IsDigit(CharAt(rest, 0))
    ensures DigitPrefix(d + rest) == d
  {
    if d != [] {
      assert (d + rest)[1..] == d[1..] + rest;
      DigitPrefixOf(d[1..], rest);
    }
  }

  /** std::stoi reads back the decimal rendering of a number, negated after a
      '-', and ignores whatever follows the digits. */
  lemma StoiDecimal(n: nat, rest: string)
    requires !IsDigit(CharAt(rest, 0))
    ensures IsLiteral(Decimal(n) + rest) && Stoi(Decimal(n) + rest) == n
    ensures IsLiteral("-" + Decimal(n) + rest) && Stoi("-" + Decimal(n) + rest) == -(n as int)
  {
    DigitPrefixOf(Decimal(n), rest);
    DecimalValueOfDecimal(n);
    assert ("-" + Decimal(n) + rest)[1..] == Decimal(n) + rest;
  }

  // ------------------------------------------------------------ evaluation

  /** The address expression of a memory access M[e] is e, when e holds no
      bracket (and is shorter than any size_t bound). */
  lemma ContentOfAccess(e: string)
    requires MemAccessOpen !in e && MemAccessClose !in e && |e| < SizeModulus
    ensures GetContent(MemAccessPrefix + e + [MemAccessClose]) == e
  {
    var component := MemAccessPrefix + e + [MemAccessClose];
    assert component[..1] == "M";
    FindCharAt(component, MemAccessOpen, 1);
    assert component[..2 + |e|] == MemAccessPrefix + e;
    FindCharAt(component, MemAccessClose, 2 + |e|);
    assert component[2..2 + |e|] == e;
  }

  /** An address expression made of one operand or one ALU operation: it
      neither assigns nor touches memory. */
  predicate PureExpression(tokens: seq<string>) {
    |tokens| == 1 || (|tokens| == 3 && tokens[1] != "=")
  }

  /** A pure expression leaves memory as it is, and its value depends on the
      registers alone. */
  lemma PureEvaluation(tokens: seq<string>, m: MemoryState, m': MemoryState)
    requires PureExpression(tokens) && m.registers == m'.registers
    ensures Eval(tokens, m).1 == m
    ensures Eval(tokens, m).0 == Eval(tokens, m').0
  {
  }

  /** An instruction that mentions no memory access changes at most its
      destination register, and only to the value it evaluates to. */
  lemma RegisterInstructionFrame(tokens: seq<string>, m: MemoryState)
    requires forall k :: 0 <= k < |tokens| ==> !Includes(tokens[k], MemAccessPrefix)
    ensures var (r, m1) := Eval(tokens, m);
      m1 == m || (|tokens| > 0 && r.Ok? && m1 == PutReg(m, tokens[0], r.value))
  {
    if |tokens| > 0 {
      assert !Includes(tokens[0], MemAccessPrefix);
    }
    if |tokens| == 3 {
      assert !Includes(tokens[2], MemAccessPrefix);
    }
    if |tokens| == 4 {
      assert !Includes(tokens[3], MemAccessPrefix);
    }
  }

  /** "d =.n s" without a memory access assigns s to d exactly as "d = s"
      does: the width token is ignored. */
  lemma WidthIgnoredInAssignment(d: string, width: string, src: string, m: MemoryState)
    requires !Includes(d, MemAccessPrefix) && !Includes(src, MemAccessPrefix)
    ensures Eval([d, "=", width, src], m) == Eval([d, "=", src], m)
    ensures Operand(src, m).Ok? ==> Eval([d, "=", src], m) == (Operand(src, m), PutReg(m, d, Operand(src, m).value))
  {
  }

  /** A store evaluates its address before it resolves its source: an
      address that fails decides the error, whatever the source. */
  lemma StoreEvaluatesAddressFirst(access: string, src: string, m: MemoryState)
    requires |access| >= 2 && Includes(access, MemAccessPrefix)
    requires Eval(ContentTokens(access), m).0.Err?
    ensures Eval([access, "=", src], m) == Eval(ContentTokens(access), m)
  {
    assert Eval([access, "=", src], m) == StoreEffect(access, src, 4, m);
  }

  /** The ALU resolves its left operand first: when both fail, the left one's
      error is reported. */
  lemma AluLeftOperandFirst(left: string, op: string, right: string, m: MemoryState)
    requires Operand(left, m).Err?
    ensures Alu(left, op, right, m) == Operand(left, m)
  {
  }

  /** Every register holds a C++ int. */
  predicate Int32Registers(m: MemoryState) {
    forall r :: r in m.registers ==> InInt32(m.registers[r])
  }

  lemma OperandInInt32(t: string, m: MemoryState)
    requires Int32Registers(m)
    ensures Operand(t, m).Ok? ==> InInt32(Operand(t, m).value)
  {
  }

  /** A word stored with "M[a] = src" is read back by "dst = M[a]" when the
      address expression is pure and the word lies in the address space: the
      store yields the value, and the load puts it into dst. */
  lemma StoreThenLoad(access: string, src: string, dst: string, m: MemoryState, a: int, v: int)
    requires |access| >= 2 && Includes(access, MemAccessPrefix) && !Includes(dst, MemAccessPrefix)
    requires PureExpression(ContentTokens(access)) && Eval(ContentTokens(access), m).0 == Ok(a)
    requires SpanInRange(a, 4)
    requires Int32Registers(m) && Operand(src, m) == Ok(v)
    ensures Eval([access, "=", src], m).0 == Ok(v)
    ensures Eval([access, "=", src], m).1.registers == m.registers
    ensures var m1 := Eval([access, "=", src], m).1;
      Eval([dst, "=", access], m1) == (Ok(v), PutReg(m1, dst, v))
  {
    OperandInInt32(src, m);
    ReadAfterWrite(m, v, a);
    var store: seq<string> := [access, "=", src];
    assert Eval(store, m) == StoreEffect(access, src, 4, m);
    PureEvaluation(ContentTokens(access), m, m);
    var m1 := Write(m, v, a, 4).1;
    PureEvaluation(ContentTokens(access), m1, m);
    var load: seq<string> := [dst, "=", access];
    assert Eval(load, m1) == LoadEffect(dst, access, 4, m1);
  }

  /** The same round trip through a one- or two-byte access ("M[a] =.2 src",
      "dst =.2 M[a]"): the load yields the low bytes of the value, unsigned. */
  lemma StoreThenLoadNarrow(access: string, width: string, src: string, dst: string, m: MemoryState, a: int, v: int)
    requires |access| >= 2 && Includes(access, MemAccessPrefix) && !Includes(dst, MemAccessPrefix)
    requires Width(width) == 1 || Width(width) == 2
    requires PureExpression(ContentTokens(access)) && Eval(ContentTokens(access), m).0 == Ok(a)
    requires SpanInRange(a, Width(width))
    requires Operand(src, m) == Ok(v)
    ensures Eval([access, "=", width, src], m).0 == Ok(v)
    ensures var m1 := Eval([access, "=", width, src], m).1;
      var low := v % (if Width(width) == 1 then 0x100 else 0x1_0000);
      Eval([dst, "=", width, access], m1) == (Ok(low), PutReg(m1, dst, low))
  {
    var n := Width(width);
    ReadAfterWriteLow(m, v, a, n);
    var store: seq<string> := [access, "=", width, src];
    assert Eval(store, m) == StoreEffect(access, src, n, m);
    PureEvaluation(ContentTokens(access), m, m);
    var m1 := Write(m, v, a, n).1;
    PureEvaluation(ContentTokens(access), m1, m);
    var load: seq<string> := [dst, "=", width, access];
    assert Eval(load, m1) == LoadEffect(dst, access, n, m1);
  }

  // ------------------------------------------------- registers stay ints

  /** Evaluation keeps every register an int, and a value it produces is
      one. */
  lemma {:induction false} EvalKeepsInt32(tokens: seq<string>, m: MemoryState)
    requires Int32Registers(m)
    ensures Int32Registers(Eval(tokens, m).1)
    ensures Eval(tokens, m).0.Ok? ==> InInt32(Eval(tokens, m).0.value)
    decreases Size(tokens), 1
  {
    if |tokens| == 1 {
      OperandInInt32(tokens[0], m);
    } else if |tokens| == 3 && tokens[1] != "=" {
    } else if |tokens| == 5 {
    } else if |tokens| == 0 || |tokens| == 2 {
    } else if Includes(tokens[0], MemAccessPrefix) {
      AccessLength(tokens[0]);
      TokenInSize(tokens, 0);
      if |tokens| == 3 {
        StoreKeepsInt32(tokens[0], tokens[2], 4, m);
      } else {
        StoreKeepsInt32(tokens[0], tokens[3], Width(tokens[2]), m);
      }
    } else if |tokens| == 3 && Includes(tokens[2], MemAccessPrefix) {
      AccessLength(tokens[2]);
      TokenInSize(tokens, 2);
      LoadKeepsInt32(tokens[0], tokens[2], 4, m);
    } else if |tokens| == 4 && Includes(tokens[3], MemAccessPrefix) {
      AccessLength(tokens[3]);
      TokenInSize(tokens, 3);
      LoadKeepsInt32(tokens[0], tokens[3], Width(tokens[2]), m);
    } else if |tokens| == 4 {
      OperandInInt32(tokens[3], m);
    } else {
      OperandInInt32(tokens[2], m);
    }
  }

  lemma {:induction false} StoreKeepsInt32(dest: string, source: string, byteCount: int, m: MemoryState)
    requires |dest| >= 2 && Int32Registers(m)
    ensures Int32Registers(StoreEffect(dest, source, byteCount, m).1)
    ensures StoreEffect(dest, source, byteCount, m).0.Ok? ==> InInt32(StoreEffect(dest, source, byteCount, m).0.value)
    decreases |dest|, 0
  {
    EvalKeepsInt32(ContentTokens(dest), m);
    OperandInInt32(source, Eval(ContentTokens(dest), m).1);
  }

  lemma {:induction false} LoadKeepsInt32(dest: string, source: string, byteCount: int, m: MemoryState)
    requires |source| >= 2 && Int32Registers(m)
    ensures Int32Registers(LoadEffect(dest, source, byteCount, m).1)
    ensures LoadEffect(dest, source, byteCount, m).0.Ok? ==> InInt32(LoadEffect(dest, source, byteCount, m).0.value)
    decreases |source|, 0
  {
    EvalKeepsInt32(ContentTokens(source), m);
  }

  // ------------------------------------------------------- control transfer

  /** A first token with neither an 'R' nor a '[' is not sent to the
      evaluator unless it is SP or RV. */
  lemma NotEvaluated(identifier: string)
    requires 'R' !in identifier && '[' !in identifier
    requires identifier != StackPointer && identifier != RetValue
    ensures !IsEvaluated(identifier)
  {
    FindCharAt(identifier, 'R', -1);
    forall j | 0 <= j
      ensures !MatchAt(identifier, MemAccessPrefix, j)
    {
      if j + 2 <= |identifier| {
        assert identifier[j..j + 2][1] == identifier[j + 1];
      }
    }
  }

  /** CALL, JUMP, the branch mnemonics and PC all bypass the evaluator. */
  lemma MnemonicsNotEvaluated()
    ensures !IsEvaluated(Call) && !IsEvaluated(Jump) && !IsEvaluated(CurrInstrPointer)
    ensures forall op :: op in Branches ==> !IsEvaluated(op)
  {
    NotEvaluated(Call);
    NotEvaluated(Jump);
    NotEvaluated(CurrInstrPointer);
    forall op | op in Branches
      ensures !IsEvaluated(op)
    {
      NotEvaluated(op);
    }
  }

  /** The memory an instruction at index i is dispatched with: PC holds the
      instruction's byte address. */
  function Fetched(s: Machine): MemoryState {
    PutReg(s.mem, CurrInstrPointer, s.i * 4)
  }

  /** The index of byte address 4 * i is i again. */
  lemma IndexOfAddress(i: nat)
    ensures TruncDiv(i * 4, 4) == i
  {
  }

  /** CALL f pushes the index of the next instruction, as a byte address, onto
      the stack below SP, and continues at f one call deeper; an undeclared f
      fails with the push already in memory. */
  lemma CallPushesReturnAddress(p: Program, s: Machine, sp: int)
    requires 0 <= s.i < |p.lines| && InInt32((s.i + 1) * 4)
    requires |p.lines[s.i]| >= 2 && p.lines[s.i][0] == Call
    requires GetReg(s.mem, StackPointer) == Ok(sp) && SpanInRange(sp - 4, 4)
    ensures var f := p.lines[s.i][1];
      (Step(p, s).Next? <==> f in p.functions)
      && (Step(p, s).Fault? ==> Step(p, s).error == NoSuchFunction(f))
    ensures Step(p, s).Next? ==>
      var t := Step(p, s).machine;
      t.i == p.functions[p.lines[s.i][1]] && t.depth == s.depth + 1
      && GetReg(t.mem, StackPointer) == Ok(sp - 4)
      && Read(t.mem, sp - 4, 4) == Ok((s.i + 1) * 4)
      && GetReg(t.mem, CurrInstrPointer) == Ok(s.i * 4)
    ensures Step(p, s).Fault? ==>
      GetReg(Step(p, s).mem, StackPointer) == Ok(sp - 4)
      && Read(Step(p, s).mem, sp - 4, 4) == Ok((s.i + 1) * 4)
  {
    StepOfCall(p, s);
    CallEffectPushes(p.lines[s.i], s.i + 1, p, Fetched(s), sp);
  }

  /** A CALL line steps to wherever CallInstr's effect sends it, one call deeper. */
  lemma StepOfCall(p: Program, s: Machine)
    requires 0 <= s.i < |p.lines| && InInt32(s.i * 4)
    requires |p.lines[s.i]| >= 1 && p.lines[s.i][0] == Call
    ensures Step(p, s) == Transfer(CallEffect(p.lines[s.i], s.i + 1, p, Fetched(s)), s.depth + 1)
  {
    MnemonicsNotEvaluated();
  }

  /** CallInstr's effect when SP leaves room for the return address: the push
      lands and the result is the callee's lookup. */
  lemma CallEffectPushes(lineData: seq<string>, savedIndex: int, p: Program, m: MemoryState, sp: int)
    requires |lineData| >= 2 && InInt32(savedIndex * 4)
    requires GetReg(m, StackPointer) == Ok(sp) && SpanInRange(sp - 4, 4)
    ensures var r := CallEffect(lineData, savedIndex, p, m);
      r.0 == p.GetFunctionIndex(lineData[1])
      && GetReg(r.1, StackPointer) == Ok(sp - 4)
      && Read(r.1, sp - 4, 4) == Ok(savedIndex * 4)
      && GetReg(r.1, CurrInstrPointer) == GetReg(m, CurrInstrPointer)
  {
    var m1 := PutReg(m, StackPointer, sp - 4);
    ReadAfterWrite(m1, savedIndex * 4, sp - 4);
    WriteInRange(m1, savedIndex * 4, sp - 4, 4);
  }

  /** RET inside a call pops the return address: it continues at the index of
      the byte address on top of the stack, one call shallower, with SP four
      bytes higher. */
  lemma ReturnPopsReturnAddress(p: Program, s: Machine, sp: int, word: int)
    requires 0 <= s.i < |p.lines| && InInt32(s.i * 4)
    requires |p.lines[s.i]| >= 1 && p.lines[s.i][0] == Return && s.depth > 0
    requires GetReg(s.mem, StackPointer) == Ok(sp) && Read(s.mem, sp, 4) == Ok(word)
    ensures Step(p, s) == Next(Machine(TruncDiv(word, 4), s.depth - 1, PutReg(Fetched(s), StackPointer, sp + 4)))
  {
  }

  /** A callee that leaves SP and the pushed word as CALL left them returns,
      by RET, to the instruction after the CALL, at the caller's depth, with
      SP restored. */
  lemma CallThenReturn(p: Program, s: Machine, t: Machine, sp: int)
    requires 0 <= s.i < |p.lines| && InInt32((s.i + 1) * 4)
    requires |p.lines[s.i]| >= 2 && p.lines[s.i][0] == Call && p.lines[s.i][1] in p.functions
    requires GetReg(s.mem, StackPointer) == Ok(sp) && SpanInRange(sp - 4, 4)
    requires 0 <= t.i < |p.lines| && InInt32(t.i * 4)
    requires |p.lines[t.i]| >= 1 && p.lines[t.i][0] == Return
    requires Step(p, s).Next? && t.depth == Step(p, s).machine.depth
    requires GetReg(t.mem, StackPointer) == GetReg(Step(p, s).machine.mem, StackPointer)
    requires Read(t.mem, sp - 4, 4) == Read(Step(p, s).machine.mem, sp - 4, 4)
    ensures Step(p, t).Next?
    ensures Step(p, t).machine.i == s.i + 1 && Step(p, t).machine.depth == s.depth
    ensures GetReg(Step(p, t).machine.mem, StackPointer) == Ok(sp)
  {
    CallPushesReturnAddress(p, s, sp);
    ReturnPopsReturnAddress(p, t, sp - 4, (s.i + 1) * 4);
    IndexOfAddress(s.i + 1);
  }

  /** RET outside any call ends the program: with SP off its initial value it
      reports a leak, and otherwise it returns RV, or fails when RV was never
      set. */
  lemma ReturnAtTopLevel(p: Program, s: Machine)
    requires 0 <= s.i < |p.lines| && InInt32(s.i * 4)
    requires |p.lines[s.i]| >= 1 && p.lines[s.i][0] == Return && s.depth == 0
    requires GetReg(s.mem, StackPointer).Ok?
    ensures GetReg(s.mem, StackPointer).value != SPInitValue ==> Step(p, s) == Fault(MemoryLeak, Fetched(s))
    ensures GetReg(s.mem, StackPointer).value == SPInitValue ==>
      Step(p, s) == match GetReg(s.mem, RetValue)
        case Ok(v) => Halt(v, Fetched(s))
        case Err(_) => Fault(NoSuchRegister(RetValue), Fetched(s))
  {
  }

  /** A branch "op a, b, d" whose operands resolve to x, y and target goes to
      instruction target / 4 exactly when op's comparison holds of x and y,
      and to the next instruction otherwise. */
  lemma BranchDecision(p: Program, s: Machine, x: int, y: int, target: int)
    requires 0 <= s.i < |p.lines| && InInt32(s.i * 4)
    requires |p.lines[s.i]| == 4 && Contains(p.lines[s.i][0])
    requires Operand(p.lines[s.i][1], Fetched(s)) == Ok(x) && Operand(p.lines[s.i][2], Fetched(s)) == Ok(y)
    requires Operand(p.lines[s.i][3], Fetched(s)) == Ok(target)
    ensures Step(p, s) == Next(Machine(if Compare(p.lines[s.i][0], x, y) then TruncDiv(target, 4) else s.i + 1, s.depth, Fetched(s)))
  {
    MnemonicsNotEvaluated();
    var line := p.lines[s.i];
    assert line[1..2] == [line[1]] && line[2..3] == [line[2]] && line[3..] == [line[3]];
    IndexOfAddress(s.i);
    assert Step(p, s) == Transfer(BranchEffect(line, Fetched(s)), s.depth);
  }

  /** JUMP d continues at instruction d / 4. */
  lemma JumpTo(p: Program, s: Machine, target: int)
    requires 0 <= s.i < |p.lines| && InInt32(s.i * 4)
    requires |p.lines[s.i]| == 2 && p.lines[s.i][0] == Jump
    requires Operand(p.lines[s.i][1], Fetched(s)) == Ok(target)
    ensures Step(p, s) == Next(Machine(TruncDiv(target, 4), s.depth, Fetched(s)))
  {
    MnemonicsNotEvaluated();
    assert p.lines[s.i][1..] == [p.lines[s.i][1]];
  }

  /** An instruction that starts with PC is not an assignment: it is skipped,
      whatever follows. */
  lemma PcInstructionSkipped(p: Program, s: Machine)
    requires 0 <= s.i < |p.lines| && InInt32(s.i * 4)
    requires |p.lines[s.i]| >= 1 && p.lines[s.i][0] == CurrInstrPointer
    ensures Step(p, s) == Next(Machine(s.i + 1, s.depth, Fetched(s)))
  {
    MnemonicsNotEvaluated();
  }

  // ------------------------------------------------------------ whole runs

  /** A step result whose registers are all ints, as is the value a halt
      returns. */
  predicate KeepsInt32(r: StepResult) {
    match r
    case Next(t) => Int32Registers(t.mem)
    case Halt(v, m) => InInt32(v) && Int32Registers(m)
    case Fault(_, m) => Int32Registers(m)
  }

  lemma ReturnKeepsInt32(depth: nat, m: MemoryState)
    requires Int32Registers(m)
    ensures KeepsInt32(ReturnStep(depth, m))
  {
    var sp := GetReg(m, StackPointer);
    if sp.Ok? && depth != 0 && Read(m, sp.value, 4).Ok? {
      ReadOutcome(m, sp.value, 4);
    }
  }

  lemma CallKeepsInt32(lineData: seq<string>, savedIndex: int, p: Program, m: MemoryState)
    requires Int32Registers(m)
    ensures Int32Registers(CallEffect(lineData, savedIndex, p, m).1)
  {
  }

  lemma BranchKeepsInt32(lineData: seq<string>, m: MemoryState)
    requires Int32Registers(m)
    ensures Int32Registers(BranchEffect(lineData, m).1)
  {
    if |lineData| >= 3 {
      EvalKeepsInt32(lineData[1..2], m);
      var m1 := Eval(lineData[1..2], m).1;
      EvalKeepsInt32(lineData[2..3], m1);
      var m2 := Eval(lineData[2..3], m1).1;
      EvalKeepsInt32(lineData[3..], m2);
    }
  }

  lemma DispatchKeepsInt32(p: Program, i: int, depth: nat, lineData: seq<string>, m: MemoryState)
    requires |lineData| > 0 && Int32Registers(m)
    ensures KeepsInt32(Dispatch(p, i, depth, lineData, m))
  {
    var identifier := lineData[0];
    if identifier == Return {
      ReturnKeepsInt32(depth, m);
    } else if IsEvaluated(identifier) {
      EvalKeepsInt32(lineData, m);
    } else if identifier == Call {
      CallKeepsInt32(lineData, i + 1, p, m);
    } else if identifier == Jump {
      EvalKeepsInt32(lineData[1..], m);
    } else if Contains(identifier) {
      BranchKeepsInt32(lineData, m);
    }
  }

  /** One step keeps every register an int, whatever it does, and a program
      that halts returns an int. */
  lemma StepKeepsInt32(p: Program, s: Machine)
    requires 0 <= s.i < |p.lines| && Int32Registers(s.mem)
    ensures match Step(p, s)
      case Next(t) => Int32Registers(t.mem)
      case Halt(v, m) => InInt32(v) && Int32Registers(m)
      case Fault(_, m) => Int32Registers(m)
  {
    if InInt32(s.i * 4) && |p.lines[s.i]| > 0 {
      assert Int32Registers(Fetched(s));
      DispatchKeepsInt32(p, s.i, s.depth, p.lines[s.i], Fetched(s));
    }
  }

  /** A run keeps every register an int, wherever it stops. */
  lemma {:induction false} RunKeepsInt32(p: Program, s: Machine, fuel: nat)
    requires Int32Registers(s.mem)
    ensures Int32Registers(Run(p, s, fuel).1)
    ensures Run(p, s, fuel).0.Returned? ==> InInt32(Run(p, s, fuel).0.value)
    ensures Run(p, s, fuel).0.OutOfFuel? ==> Int32Registers(Run(p, s, fuel).0.at.mem)
    decreases fuel
  {
    if 0 <= s.i < |p.lines| && fuel > 0 {
      StepKeepsInt32(p, s);
      if Step(p, s).Next? {
        RunKeepsInt32(p, Step(p, s).machine, fuel - 1);
      }
    }
  }

  /** What RunProgram returns from a fresh memory is an int. */
  lemma ProgramReturnsInt(p: Program, fuel: nat)
    ensures Run(p, Machine(0, 0, Initial), fuel).0.Returned? ==> InInt32(Run(p, Machine(0, 0, Initial), fuel).0.value)
  {
    RunKeepsInt32(p, Machine(0, 0, Initial), fuel);
  }

  /** Fuel composes: a run with a + b steps is a run with a steps, resumed for
      b more from where it ran out, and a run that stopped within a steps is
      unchanged by more fuel. */
  lemma {:induction false} RunFuelSplit(p: Program, s: Machine, a: nat, b: nat)
    ensures Run(p, s, a).0.OutOfFuel? ==> Run(p, s, a + b) == Run(p, Run(p, s, a).0.at, b)
    ensures !Run(p, s, a).0.OutOfFuel? ==> Run(p, s, a + b) == Run(p, s, a)
    decreases a
  {
    if s.i >= |p.lines| || s.i < 0 {
      assert !Run(p, s, a).0.OutOfFuel?;
    } else if a == 0 {
      assert Run(p, s, a).0 == OutOfFuel(s);
    } else {
      var r := Step(p, s);
      if r.Next? {
        RunFuelSplit(p, r.machine, a - 1, b);
        assert a - 1 + b == a + b - 1;
      } else {
        assert !Run(p, s, a).0.OutOfFuel?;
      }
    }
  }

  /** A step that continues at t leaves the rest of the run to t. */
  lemma RunContinues(p: Program, s: Machine, fuel: nat, t: Machine)
    requires 0 <= s.i < |p.lines| && fuel > 0 && Step(p, s) == Next(t)
    ensures Run(p, s, fuel) == Run(p, t, fuel - 1)
  {
  }

  /** The program of the example below: main calls f and returns its result;
      f sets RV to 7 and returns. */
  predicate SevenProgram(p: Program) {
    p == Program([[Call, "<f>"], [Return], ["RV", "=", "7"], [Return]], map["<f>" := 2])
  }

  lemma SevenCall(p: Program) returns (s1: Machine)
    requires SevenProgram(p)
    ensures Run(p, Machine(0, 0, Initial), 4) == Run(p, s1, 3)
    ensures s1.i == 2 && s1.depth == 1
    ensures GetReg(s1.mem, StackPointer) == Ok(SPInitValue - 4) && Read(s1.mem, SPInitValue - 4, 4) == Ok(4)
  {
    var s0 := Machine(0, 0, Initial);
    CallPushesReturnAddress(p, s0, SPInitValue);
    s1 := Step(p, s0).machine;
    RunContinues(p, s0, 4, s1);
  }

  lemma SevenAssign(p: Program, s1: Machine) returns (s2: Machine)
    requires SevenProgram(p) && s1.i == 2
    ensures Run(p, s1, 3) == Run(p, s2, 2)
    ensures s2.i == 3 && s2.depth == s1.depth && GetReg(s2.mem, RetValue) == Ok(7)
    ensures s2.mem.space == s1.mem.space && GetReg(s2.mem, StackPointer) == GetReg(s1.mem, StackPointer)
  {
    assert Includes("RV", RegisterPrefix) by { FindCharAt("RV", 'R', 0); }
    assert IsLiteral("7") && Stoi("7") == 7 by { StoiDecimal(7, ""); }
    s2 := Step(p, s1).machine;
    RunContinues(p, s1, 3, s2);
  }

  lemma SevenReturn(p: Program, s2: Machine) returns (s3: Machine)
    requires SevenProgram(p) && s2.i == 3 && s2.depth == 1
    requires GetReg(s2.mem, StackPointer) == Ok(SPInitValue - 4) && Read(s2.mem, SPInitValue - 4, 4) == Ok(4)
    requires GetReg(s2.mem, RetValue) == Ok(7)
    ensures Run(p, s2, 2) == Run(p, s3, 1)
    ensures s3.i == 1 && s3.depth == 0
    ensures GetReg(s3.mem, StackPointer) == Ok(SPInitValue) && GetReg(s3.mem, RetValue) == Ok(7)
  {
    ReturnPopsReturnAddress(p, s2, SPInitValue - 4, 4);
    IndexOfAddress(1);
    s3 := Step(p, s2).machine;
    RunContinues(p, s2, 2, s3);
  }

  lemma SevenHalt(p: Program, s3: Machine)
    requires SevenProgram(p) && s3.i == 1 && s3.depth == 0
    requires GetReg(s3.mem, StackPointer) == Ok(SPInitValue) && GetReg(s3.mem, RetValue) == Ok(7)
    ensures Run(p, s3, 1).0 == Returned(7)
  {
    ReturnAtTopLevel(p, s3);
  }

  /** Main calls a function that sets RV to 7, and the program returns 7
      after four steps, the stack balanced again. */
  lemma CallAndReturnSeven(p: Program)
    requires SevenProgram(p)
    ensures Run(p, Machine(0, 0, Initial), 4).0 == Returned(7)
  {
    var s1 := SevenCall(p);
    var s2 := SevenAssign(p, s1);
    assert Read(s2.mem, SPInitValue - 4, 4) == Read(s1.mem, SPInitValue - 4, 4);
    var s3 := SevenReturn(p, s2);
    SevenHalt(p, s3);
  }
}
