/** The program store: the line tokenizer, the load-time instruction
    validator, comment stripping and the loaded program (ALEDatabase.cpp). */
module AleDatabase {
  import opened Wrappers
  import opened AleConstants

  // ---------------------------------------------------------------- tokenizer

  /** The state of ParseLine's loop: the "inside M[...]" flag, the component
      being built and the tokens emitted so far. */
  datatype Scan = Scan(open: bool, component: string, tokens: seq<string>)

  /** Appends the pending component unless it is empty. */
  function Flush(tokens: seq<string>, component: string): seq<string> {
    if component != [] then tokens + [component] else tokens
  }

  /** The scanner never holds an empty component while inside a memory access. */
  predicate ScanOk(s: Scan) {
    s.open ==> s.component != []
  }

  /** One iteration of ParseLine's loop, on character i.  The flag is raised at
      the first "M[" of the whole line and lowered after the first ']'. */
  function Advance(line: string, i: nat, s: Scan): (t: Scan)
    requires i < |line| && ScanOk(s)
    ensures ScanOk(t)
  {
    var c := line[i];
    var open := s.open || Find(line, MemAccessPrefix) == i;
    var stillOpen := open && Find(line, [MemAccessClose]) != i;
    if c in IgnoreDelims && !open then
      Scan(false, "", Flush(s.tokens, s.component))
    else if c in IgnoreDelims then
      assert s.open by {
        if !s.open {
          FindHead(line, MemAccessPrefix);
          assert false;
        }
      }
      Scan(stillOpen,
           if s.component[|s.component| - 1] != c then s.component + [c] else s.component,
           s.tokens)
    else if c in AllDelims && !(c == '-' && IsDigit(CharAt(line, i + 1))) && !open then
      Scan(false, "", Flush(s.tokens, s.component) + [[c]])
    else if i == |line| - 1 then
      Scan(stillOpen, s.component + [c], s.tokens + [s.component + [c]])
    else
      Scan(stillOpen, s.component + [c], s.tokens)
  }

  /** The tokens ParseLine returns when its loop resumes at character i in
      state s. */
  function TokenizeFrom(line: string, i: nat, s: Scan): seq<string>
    requires i <= |line| && ScanOk(s)
    decreases |line| - i
  {
    if i == |line| then s.tokens else TokenizeFrom(line, i + 1, Advance(line, i, s))
  }

  /** The tokens of one line (ALEDatabase::ParseLine). */
  function Tokenize(line: string): seq<string> {
    TokenizeFrom(line, 0, Scan(false, "", []))
  }

  /** ALEDatabase::ParseLine. */
  method ParseLine(line: string) returns (lineData: seq<string>)
    ensures lineData == Tokenize(line)
  {
    lineData := [];
    var component := "";
    var open := false;
    for i := 0 to |line|
      invariant ScanOk(Scan(open, component, lineData))
      invariant TokenizeFrom(line, i, Scan(open, component, lineData)) == Tokenize(line)
    {
      ghost var before := Scan(open, component, lineData);
      if Find(line, MemAccessPrefix) == i {
        open := true;
      }
      var c := line[i];
      if c in IgnoreDelims && !open {
        if |component| != 0 {
          lineData := lineData + [component];
        }
        component := "";
      } else if c in IgnoreDelims {
        assert before.open by {
          if !before.open {
            FindHead(line, MemAccessPrefix);
            assert false;
          }
        }
        if component[|component| - 1] != c {
          component := component + [c];
        }
      } else if c in AllDelims && !(c == '-' && IsDigit(CharAt(line, i + 1))) && !open {
        if |component| != 0 {
          lineData := lineData + [component];
        }
        component := [c];
        lineData := lineData + [component];
        component := "";
      } else if i == |line| - 1 {
        component := component + [c];
        lineData := lineData + [component];
      } else {
        component := component + [c];
      }
      if Find(line, [MemAccessClose]) == i {
        open := false;
      }
      assert Scan(open, component, lineData) == Advance(line, i, before);
    }
  }

  // ---------------------------------------------------- the tokens' size

  /** The number of characters in a line's tokens. */
  function Size(tokens: seq<string>): nat {
    if tokens == [] then 0 else Size(tokens[..|tokens| - 1]) + |tokens[|tokens| - 1]|
  }

  lemma SizeAppend(tokens: seq<string>, t: string)
    ensures Size(tokens + [t]) == Size(tokens) + |t|
  {
    assert (tokens + [t])[..|tokens|] == tokens;
  }

  lemma SizeFlush(tokens: seq<string>, component: string)
    ensures Size(Flush(tokens, component)) == Size(tokens) + |component|
  {
    SizeAppend(tokens, component);
  }

  lemma {:induction false} TokenizeFromSize(line: string, i: nat, s: Scan)
    requires i <= |line| && ScanOk(s)
    requires Size(s.tokens) + (if i < |line| then |s.component| else 0) <= i
    ensures Size(TokenizeFrom(line, i, s)) <= |line|
    decreases |line| - i
  {
    if i < |line| {
      AdvanceSize(line, i, s);
      TokenizeFromSize(line, i + 1, Advance(line, i, s));
    }
  }

  /** One character of the line adds at most one character to the tokens and
      the pending component together. */
  lemma AdvanceSize(line: string, i: nat, s: Scan)
    requires i < |line| && ScanOk(s) && Size(s.tokens) + |s.component| <= i
    ensures var t := Advance(line, i, s);
      Size(t.tokens) + (if i + 1 < |line| then |t.component| else 0) <= i + 1
  {
    var t := Advance(line, i, s);
    var c := line[i];
    var open := s.open || Find(line, MemAccessPrefix) == i;
    if c in IgnoreDelims && !open {
      SizeFlush(s.tokens, s.component);
      assert t.tokens == Flush(s.tokens, s.component) && t.component == "";
    } else if c in IgnoreDelims {
      assert t.tokens == s.tokens && |t.component| <= |s.component| + 1;
    } else if c in AllDelims && !(c == '-' && IsDigit(CharAt(line, i + 1))) && !open {
      SizeFlush(s.tokens, s.component);
      SizeAppend(Flush(s.tokens, s.component), [c]);
      assert t.tokens == Flush(s.tokens, s.component) + [[c]] && t.component == "";
    } else if i == |line| - 1 {
      SizeAppend(s.tokens, s.component + [c]);
      assert t.tokens == s.tokens + [s.component + [c]];
    } else {
      assert t.tokens == s.tokens && t.component == s.component + [c];
    }
  }

  /** The tokens never hold more characters than the line: ParseLine only
      drops and never duplicates characters. */
  lemma TokenizeSize(line: string)
    ensures Size(Tokenize(line)) <= |line|
  {
    TokenizeFromSize(line, 0, Scan(false, "", []));
  }

  lemma {:induction false} TokenInSize(tokens: seq<string>, k: int)
    requires 0 <= k < |tokens|
    ensures |tokens[k]| <= Size(tokens)
    decreases |tokens|
  {
    if k < |tokens| - 1 {
      TokenInSize(tokens[..|tokens| - 1], k);
    }
  }

  // ---------------------------------------------------------------- validator

  /** Character i is an arithmetic operator for the validator: one of + - * /,
      except a '-' directly followed by a digit (a negative literal). */
  predicate CountedOperator(line: string, i: int)
    requires 0 <= i < |line|
  {
    line[i] in AluOperators && !(line[i] == '-' && IsDigit(CharAt(line, i + 1)))
  }

  /** The number of counted operators among the first n characters. */
  function AluCount(line: string, n: nat): nat
    requires n <= |line|
  {
    if n == 0 then 0 else AluCount(line, n - 1) + (if CountedOperator(line, n - 1) then 1 else 0)
  }

  predicate TwoMemoryAccesses(line: string) {
    Find(line, MemAccessPrefix) != -1
    && FindFrom(line, MemAccessPrefix, Find(line, MemAccessPrefix) + 1) != -1
  }

  /** The first occurrence of op lies after the first '[' and before the first
      ']'.  The source compares an int with an unsigned position, so a missing
      op never qualifies and a missing ']' lies beyond every position. */
  predicate OperatorInBrackets(line: string, op: char) {
    var left := Find(line, [MemAccessOpen]);
    var right := Find(line, [MemAccessClose]);
    var at := Find(line, [op]);
    at != -1 && left != -1 && left < at && (right == -1 || at < right)
  }

  /** CheckForInstrConstraint as a predicate: no two memory accesses, at most
      one arithmetic operator, and an operator combined with a memory access
      must sit inside its brackets. */
  predicate InstrConstraint(line: string) {
    if TwoMemoryAccesses(line) then false
    else
      var n := AluCount(line, |line|);
      if n > 1 then false
      else if n == 0 then true
      else if Includes(line, MemAccessPrefix) then
        OperatorInBrackets(line, '+') || OperatorInBrackets(line, '-')
        || OperatorInBrackets(line, '*') || OperatorInBrackets(line, '/')
      else true
  }

  /** ALEDatabase::CheckForInstrConstraint. */
  method CheckForInstrConstraint(line: string) returns (legal: bool)
    ensures legal == InstrConstraint(line)
  {
    if Find(line, MemAccessPrefix) != -1
       && FindFrom(line, MemAccessPrefix, Find(line, MemAccessPrefix) + 1) != -1 {
      return false;
    }
    var numAlus := 0;
    for i := 0 to |line|
      invariant numAlus == AluCount(line, i)
    {
      if line[i] in AluOperators && !(line[i] == '-' && IsDigit(CharAt(line, i + 1))) {
        numAlus := numAlus + 1;
      }
    }
    if numAlus > 1 {
      return false;
    } else if numAlus == 0 {
      return true;
    }
    if Find(line, MemAccessPrefix) != -1 {
      legal := OperatorInBrackets(line, '+') || OperatorInBrackets(line, '-')
               || OperatorInBrackets(line, '*') || OperatorInBrackets(line, '/');
      return;
    }
    return true;
  }

  /** ALEDatabase::InvalidLine: the constraint check on the raw line (comment
      included), then a first character that is a digit. */
  predicate InvalidLine(line: string) {
    !InstrConstraint(line) || (|line| > 0 && IsDigit(line[0]))
  }

  /** ALEDatabase::RemoveComment: everything before the first ';'. */
  function RemoveComment(line: string): (r: string)
    ensures r <= line
    ensures CommentPrefix !in r
    ensures |r| < |line| ==> line[|r|] == CommentPrefix
  {
    FindChar(line, CommentPrefix);
    var at := Find(line, [CommentPrefix]);
    if at == -1 then line else line[..at]
  }

  // ---------------------------------------------------------------- the store

  /** A token that contains both '<' and '>' declares a function label. */
  predicate IsDeclaration(token: string) {
    Includes(token, [FuncDeclOpen]) && Includes(token, [FuncDeclClose])
  }

  /** The loaded program: the instructions in order, and each declared label
      with the index of the instruction that follows its declaration. */
  datatype Program = Program(lines: seq<seq<string>>, functions: map<string, int>) {

    function GetLineCount(): int {
      |lines|
    }

    function GetLineAt(index: int): seq<string>
      requires 0 <= index < |lines|
    {
      lines[index]
    }

    /** ALEDatabase::GetFunctionIndex. */
    function GetFunctionIndex(name: string): (r: Result<int>)
      ensures r.Ok? <==> name in functions
      ensures r.Ok? ==> r.value == functions[name]
      ensures r.Err? ==> r.error == NoSuchFunction(name)
    {
      if name in functions then Ok(functions[name]) else Err(NoSuchFunction(name))
    }
  }

  const EmptyProgram := Program([], map[])

  /** ALEDatabase::ProcessLine on a program loaded so far: the new label table
      and the instruction to store, empty when the line stores nothing. */
  function ProcessedLine(p: Program, line: string): Result<(map<string, int>, seq<string>)> {
    var stripped := RemoveComment(line);
    if |stripped| == 0 then Ok((p.functions, []))
    else
      var tokens := Tokenize(stripped);
      if |tokens| == 0 then Ok((p.functions, []))
      else if IsDeclaration(tokens[0]) then
        if tokens[0] !in p.functions then Ok((p.functions[tokens[0] := |p.lines|], []))
        else Err(Redeclaration(tokens[0]))
      else Ok((p.functions, tokens))
  }

  /** One iteration of the constructor's loading loop. */
  function LoadLine(p: Program, line: string): Result<Program> {
    if InvalidLine(line) then Err(CompilationError(line))
    else match ProcessedLine(p, line)
      case Err(e) => Err(e)
      case Ok((functions, lineData)) =>
        Ok(Program(if |lineData| == 0 then p.lines else p.lines + [lineData], functions))
  }

  /** Loading the remaining lines of a program text into p. */
  function LoadFrom(p: Program, source: seq<string>): Result<Program>
    decreases |source|
  {
    if source == [] then Ok(p)
    else match LoadLine(p, source[0])
      case Err(e) => Err(e)
      case Ok(q) => LoadFrom(q, source[1..])
  }

  /** Loading a whole program text, as the ALEDatabase constructor does. */
  function Load(source: seq<string>): Result<Program> {
    LoadFrom(EmptyProgram, source)
  }

  /** ALEDatabase: the instruction storage and the label table. */
  class Database {
    var programData: seq<seq<string>>
    var declaredFunctions: map<string, int>

    function Loaded(): Program
      reads this
    {
      Program(programData, declaredFunctions)
    }

    constructor ()
      ensures Loaded() == EmptyProgram
    {
      programData := [];
      declaredFunctions := map[];
    }

    /** ALEDatabase::ProcessLine. */
    method ProcessLine(line: string) returns (lineData: Result<seq<string>>)
      modifies this
      ensures programData == old(programData)
      ensures match ProcessedLine(old(Loaded()), line)
              case Ok((functions, tokens)) => lineData == Ok(tokens) && declaredFunctions == functions
              case Err(e) => lineData == Err(e) && declaredFunctions == old(declaredFunctions)
    {
      var stripped := RemoveComment(line);
      if |stripped| == 0 {
        return Ok([]);
      }
      var tokens := ParseLine(stripped);
      if |tokens| == 0 {
        return Ok([]);
      }
      if Includes(tokens[0], [FuncDeclOpen]) && Includes(tokens[0], [FuncDeclClose]) {
        if tokens[0] !in declaredFunctions {
          declaredFunctions := declaredFunctions[tokens[0] := |programData|];
          return Ok([]);
        } else {
          return Err(Redeclaration(tokens[0]));
        }
      }
      return Ok(tokens);
    }

    /** The line-loading loop of the ALEDatabase constructor, over the lines of
        the program text. */
    method LoadLines(source: seq<string>) returns (outcome: Outcome)
      modifies this
      ensures match LoadFrom(old(Loaded()), source)
              case Ok(p) => outcome == Pass && Loaded() == p
              case Err(e) => outcome == Fail(e)
    {
      for k := 0 to |source|
        invariant LoadFrom(Loaded(), source[k..]) == LoadFrom(old(Loaded()), source)
      {
        assert source[k..][1..] == source[k + 1..];
        var line := source[k];
        var legal := CheckForInstrConstraint(line);
        if !legal || (|line| > 0 && IsDigit(line[0])) {
          return Fail(CompilationError(line));
        }
        var lineData := ProcessLine(line);
        if lineData.Err? {
          return Fail(lineData.error);
        }
        if |lineData.value| == 0 {
          continue;
        }
        programData := programData + [lineData.value];
      }
      outcome := Pass;
    }
  }
}
