/** What the tokenizer, the validator and the loader guarantee. */
module AleDatabaseFacts {
  import opened Wrappers
  import opened AleConstants
  import opened AleDatabase

  // ---------------------------------------------------------------- emptiness

  predicate NoEmptyToken(tokens: seq<string>) {
    forall k :: 0 <= k < |tokens| ==> tokens[k] != []
  }

  lemma {:induction false} TokenizeFromNonEmpty(line: string, i: nat, s: Scan)
    requires i <= |line| && ScanOk(s) && NoEmptyToken(s.tokens)
    ensures NoEmptyToken(TokenizeFrom(line, i, s))
    decreases |line| - i
  {
    if i < |line| {
      TokenizeFromNonEmpty(line, i + 1, Advance(line, i, s));
    }
  }

  /** ParseLine never returns an empty token. */
  lemma TokensNonEmpty(line: string)
    ensures NoEmptyToken(Tokenize(line))
  {
    TokenizeFromNonEmpty(line, 0, Scan(false, "", []));
  }

  // ------------------------------------------ lines without a memory access

  /** The line with every ',' and ' ' removed. */
  function Strip(s: string): string {
    if s == [] then [] else Strip(s[..|s| - 1]) + (if s[|s| - 1] in IgnoreDelims then [] else [s[|s| - 1]])
  }

  function Concat(tokens: seq<string>): string {
    if tokens == [] then [] else Concat(tokens[..|tokens| - 1]) + tokens[|tokens| - 1]
  }

  predicate IsOperatorToken(t: string) {
    t == "+" || t == "-" || t == "*" || t == "/"
  }

  /** The number of tokens that are a lone arithmetic operator. */
  function OperatorTokens(tokens: seq<string>): nat {
    if tokens == [] then 0
    else OperatorTokens(tokens[..|tokens| - 1]) + (if IsOperatorToken(tokens[|tokens| - 1]) then 1 else 0)
  }

  /** A '-' at position k of t is followed by a digit: the next character of
      t, or next when k is the last position. */
  predicate MinusBeforeDigit(t: string, k: int, next: char)
    requires 0 <= k < |t|
  {
    t[k] == '-' ==> IsDigit(if k + 1 < |t| then t[k + 1] else next)
  }

  /** A token outside a memory access: non-empty, free of ',' and ' ', and,
      unless it is a single character, free of + * / = with every '-' directly
      followed by a digit (a glued negative literal). */
  predicate Lexeme(t: string) {
    t != []
    && (forall k :: 0 <= k < |t| ==> t[k] !in IgnoreDelims)
    && (|t| > 1 ==> forall k :: 0 <= k < |t| ==> t[k] !in "+*/=" && MinusBeforeDigit(t, k, '\0'))
  }

  /** The component being built before character i: like a lexeme, except that
      a final '-' waits for a digit at i. */
  predicate Pending(line: string, i: int, component: string) {
    forall k :: 0 <= k < |component| ==>
      component[k] !in IgnoreDelims && component[k] !in "+*/="
      && MinusBeforeDigit(component, k, CharAt(line, i))
  }

  ghost predicate PlainInv(line: string, i: nat, s: Scan)
    requires i <= |line|
  {
    !s.open
    && (forall k :: 0 <= k < |s.tokens| ==> Lexeme(s.tokens[k]))
    && OperatorTokens(s.tokens) == AluCount(line, i)
    && Concat(s.tokens) + (if i < |line| then s.component else []) == Strip(line[..i])
    && (i < |line| ==> Pending(line, i, s.component))
  }

  lemma ConcatAppend(tokens: seq<string>, t: string)
    ensures Concat(tokens + [t]) == Concat(tokens) + t
    ensures OperatorTokens(tokens + [t]) == OperatorTokens(tokens) + (if IsOperatorToken(t) then 1 else 0)
  {
    assert (tokens + [t])[..|tokens|] == tokens;
  }

  /** A component is flushed only at a delimiter, so it cannot end in '-'. */
  lemma FlushedLexeme(line: string, i: nat, component: string)
    requires i < |line| && Pending(line, i, component) && !IsDigit(line[i]) && component != []
    ensures Lexeme(component) && !IsOperatorToken(component)
  {
    assert MinusBeforeDigit(component, |component| - 1, CharAt(line, i));
  }

  lemma PlainFlush(line: string, i: nat, s: Scan)
    requires i < |line| && PlainInv(line, i, s) && !IsDigit(line[i])
    ensures var f := Flush(s.tokens, s.component);
      (forall k :: 0 <= k < |f| ==> Lexeme(f[k]))
      && OperatorTokens(f) == OperatorTokens(s.tokens)
      && Concat(f) == Concat(s.tokens) + s.component
  {
    if s.component != [] {
      FlushedLexeme(line, i, s.component);
      ConcatAppend(s.tokens, s.component);
    }
  }

  /** Stripping and counting one more character. */
  lemma PlainChar(line: string, i: nat)
    requires i < |line|
    ensures Strip(line[..i + 1]) == Strip(line[..i]) + (if line[i] in IgnoreDelims then [] else [line[i]])
    ensures AluCount(line, i + 1) == AluCount(line, i) + (if CountedOperator(line, i) then 1 else 0)
  {
    assert line[..i + 1][..i] == line[..i];
  }

  lemma PlainIgnorable(line: string, i: nat, s: Scan)
    requires !Includes(line, MemAccessPrefix)
    requires i < |line| && ScanOk(s) && PlainInv(line, i, s) && line[i] in IgnoreDelims
    ensures PlainInv(line, i + 1, Advance(line, i, s))
  {
    PlainChar(line, i);
    PlainFlush(line, i, s);
    assert Advance(line, i, s) == Scan(false, "", Flush(s.tokens, s.component));
  }

  lemma PlainDelimiter(line: string, i: nat, s: Scan)
    requires !Includes(line, MemAccessPrefix)
    requires i < |line| && ScanOk(s) && PlainInv(line, i, s)
    requires line[i] !in IgnoreDelims && line[i] in AllDelims
    requires !(line[i] == '-' && IsDigit(CharAt(line, i + 1)))
    ensures PlainInv(line, i + 1, Advance(line, i, s))
  {
    var c := line[i];
    var f := Flush(s.tokens, s.component);
    PlainChar(line, i);
    PlainFlush(line, i, s);
    ConcatAppend(f, [c]);
    assert Advance(line, i, s) == Scan(false, "", f + [[c]]);
    assert Lexeme([c]);
  }

  lemma PlainLast(line: string, i: nat, s: Scan)
    requires !Includes(line, MemAccessPrefix)
    requires i == |line| - 1 && ScanOk(s) && PlainInv(line, i, s)
    requires line[i] !in AllDelims || (line[i] == '-' && IsDigit(CharAt(line, i + 1)))
    ensures PlainInv(line, i + 1, Advance(line, i, s))
  {
    var c := line[i];
    var w := s.component + [c];
    PlainChar(line, i);
    ConcatAppend(s.tokens, w);
    assert Advance(line, i, s) == Scan(false, w, s.tokens + [w]);
    assert c !in AllDelims;
    assert !CountedOperator(line, i);
    assert !IsOperatorToken(w) by {
      if |w| == 1 {
        assert w == [c];
      }
    }
    forall k | 0 <= k < |w|
      ensures w[k] !in IgnoreDelims && w[k] !in "+*/=" && MinusBeforeDigit(w, k, '\0')
    {
      if k < |s.component| {
        assert MinusBeforeDigit(s.component, k, CharAt(line, i));
      }
    }
    assert Lexeme(w);
  }

  lemma PlainInner(line: string, i: nat, s: Scan)
    requires !Includes(line, MemAccessPrefix)
    requires i < |line| - 1 && ScanOk(s) && PlainInv(line, i, s)
    requires line[i] !in AllDelims || (line[i] == '-' && IsDigit(CharAt(line, i + 1)))
    ensures PlainInv(line, i + 1, Advance(line, i, s))
  {
    var c := line[i];
    var w := s.component + [c];
    PlainChar(line, i);
    assert Advance(line, i, s) == Scan(false, w, s.tokens);
    forall k | 0 <= k < |w|
      ensures w[k] !in IgnoreDelims && w[k] !in "+*/=" && MinusBeforeDigit(w, k, CharAt(line, i + 1))
    {
      if k < |s.component| {
        assert MinusBeforeDigit(s.component, k, CharAt(line, i));
      }
    }
  }

  lemma PlainStep(line: string, i: nat, s: Scan)
    requires !Includes(line, MemAccessPrefix)
    requires i < |line| && ScanOk(s) && PlainInv(line, i, s)
    ensures PlainInv(line, i + 1, Advance(line, i, s))
  {
    var c := line[i];
    if c in IgnoreDelims {
      PlainIgnorable(line, i, s);
    } else if c in AllDelims && !(c == '-' && IsDigit(CharAt(line, i + 1))) {
      PlainDelimiter(line, i, s);
    } else if i == |line| - 1 {
      PlainLast(line, i, s);
    } else {
      PlainInner(line, i, s);
    }
  }

  lemma {:induction false} PlainFrom(line: string, i: nat, s: Scan)
    requires !Includes(line, MemAccessPrefix)
    requires i <= |line| && ScanOk(s) && PlainInv(line, i, s)
    ensures PlainInv(line, |line|, Scan(false, [], TokenizeFrom(line, i, s)))
    decreases |line| - i
  {
    if i < |line| {
      PlainStep(line, i, s);
      PlainFrom(line, i + 1, Advance(line, i, s));
    } else {
      assert line[..i] == line;
    }
  }

  /** Outside a memory access ParseLine loses only ',' and ' ': the tokens
      spell the rest of the line in order, each token is a lexeme, and there
      are exactly as many lone-operator tokens as the validator counts
      operators. */
  lemma PlainLine(line: string)
    requires !Includes(line, MemAccessPrefix)
    ensures Concat(Tokenize(line)) == Strip(line)
    ensures forall k :: 0 <= k < |Tokenize(line)| ==> Lexeme(Tokenize(line)[k])
    ensures OperatorTokens(Tokenize(line)) == AluCount(line, |line|)
  {
    assert line[..0] == [];
    PlainFrom(line, 0, Scan(false, "", []));
    assert line[..|line|] == line;
  }

  /** Without a memory access the validator accepts a line exactly when it
      holds at most one lone-operator token. */
  lemma PlainLineAccepted(line: string)
    requires !Includes(line, MemAccessPrefix)
    ensures InstrConstraint(line) <==> OperatorTokens(Tokenize(line)) <= 1
  {
    PlainLine(line);
  }

  // ------------------------------------------------- the line as maximal runs

  /** Character i separates tokens without being one. */
  predicate Separator(line: string, i: int)
    requires 0 <= i < |line|
  {
    line[i] in IgnoreDelims
  }

  /** Character i is a one-character operator token: '=' or an arithmetic
      operator, except a '-' that starts a negative literal. */
  predicate Operator(line: string, i: int)
    requires 0 <= i < |line|
  {
    line[i] !in IgnoreDelims && line[i] in AllDelims && !(line[i] == '-' && IsDigit(CharAt(line, i + 1)))
  }

  /** Character i belongs to a multi-character token. */
  predicate Glued(line: string, i: int)
    requires 0 <= i < |line|
  {
    !Separator(line, i) && !Operator(line, i)
  }

  /** The end of the longest run of glued characters that starts at i. */
  function RunEnd(line: string, i: nat): (j: nat)
    requires i <= |line|
    ensures i <= j <= |line|
    ensures forall k :: i <= k < j ==> Glued(line, k)
    ensures j == |line| || !Glued(line, j)
    decreases |line| - i
  {
    if i == |line| || !Glued(line, i) then i else RunEnd(line, i + 1)
  }

  /** The tokens of a line without a memory access, from character i on: the
      separators dropped, every operator a token of its own, and every maximal
      run of glued characters one token. */
  function Split(line: string, i: nat): seq<string>
    requires i <= |line|
    decreases |line| - i
  {
    if i == |line| then []
    else if Separator(line, i) then Split(line, i + 1)
    else if Operator(line, i) then [[line[i]]] + Split(line, i + 1)
    else [line[i..RunEnd(line, i)]] + Split(line, RunEnd(line, i))
  }

  /** A run that reaches a character that is not glued ends there. */
  lemma {:induction false} RunEndAt(line: string, k: nat, i: nat)
    requires k <= i <= |line|
    requires forall m :: k <= m < i ==> Glued(line, m)
    requires i == |line| || !Glued(line, i)
    ensures RunEnd(line, k) == i
    decreases i - k
  {
    if k < i {
      RunEndAt(line, k + 1, i);
    }
  }

  /** Away from the first "M[", one step of the scanner drops a separator,
      emits an operator, or glues the character to the component, emitting it
      at the end of the line. */
  lemma AdvancePlain(line: string, i: nat, s: Scan)
    requires i < |line| && !s.open && Find(line, MemAccessPrefix) != i
    ensures Advance(line, i, s) ==
      if Separator(line, i) then Scan(false, "", Flush(s.tokens, s.component))
      else if Operator(line, i) then Scan(false, "", Flush(s.tokens, s.component) + [[line[i]]])
      else if i == |line| - 1 then Scan(false, s.component + [line[i]], s.tokens + [s.component + [line[i]]])
      else Scan(false, s.component + [line[i]], s.tokens)
  {
  }

  /** A glued character before the last joins the component. */
  lemma ScanGlued(line: string, k: nat, i: nat, tokens: seq<string>)
    requires k <= i < |line| - 1 && Find(line, MemAccessPrefix) != i && Glued(line, i)
    ensures TokenizeFrom(line, i, Scan(false, line[k..i], tokens))
            == TokenizeFrom(line, i + 1, Scan(false, line[k..i + 1], tokens))
  {
    AdvancePlain(line, i, Scan(false, line[k..i], tokens));
    assert line[k..i] + [line[i]] == line[k..i + 1];
  }

  /** A glued last character ends the component and emits it. */
  lemma ScanGluedLast(line: string, k: nat, tokens: seq<string>)
    requires k < |line| && Find(line, MemAccessPrefix) != |line| - 1 && Glued(line, |line| - 1)
    ensures TokenizeFrom(line, |line| - 1, Scan(false, line[k..|line| - 1], tokens)) == tokens + [line[k..]]
  {
    AdvancePlain(line, |line| - 1, Scan(false, line[k..|line| - 1], tokens));
    assert line[k..|line| - 1] + [line[|line| - 1]] == line[k..];
  }

  /** A separator or an operator flushes the component, and an operator is
      emitted after it. */
  lemma ScanBreak(line: string, k: nat, i: nat, tokens: seq<string>)
    requires k <= i < |line| && Find(line, MemAccessPrefix) != i && !Glued(line, i)
    ensures TokenizeFrom(line, i, Scan(false, line[k..i], tokens))
            == TokenizeFrom(line, i + 1, Scan(false, line[i + 1..i + 1],
                 Flush(tokens, line[k..i]) + if Operator(line, i) then [[line[i]]] else []))
  {
    AdvancePlain(line, i, Scan(false, line[k..i], tokens));
    assert line[i + 1..i + 1] == "";
    assert Flush(tokens, line[k..i]) + [] == Flush(tokens, line[k..i]);
  }

  /** The split at a separator or an operator. */
  lemma SplitBreak(line: string, k: nat, i: nat)
    requires k <= i < |line| && !Glued(line, i)
    requires forall m :: k <= m < i ==> Glued(line, m)
    ensures Split(line, k) == (if k < i then [line[k..i]] else [])
            + (if Operator(line, i) then [[line[i]]] else []) + Split(line, i + 1)
  {
    if k < i {
      RunEndAt(line, k, i);
    }
  }

  /** Glued characters up to the end of the line make one last token. */
  lemma SplitGluedEnd(line: string, k: nat)
    requires k < |line|
    requires forall m :: k <= m < |line| ==> Glued(line, m)
    ensures Split(line, k) == [line[k..]]
  {
    RunEndAt(line, k, |line|);
    assert Glued(line, k);
    assert Split(line, k) == [line[k..|line|]] + Split(line, |line|);
    assert line[k..|line|] == line[k..];
  }

  /** Concatenation regrouped. */
  lemma Regroup(a: seq<string>, b: seq<string>, c: seq<string>, d: seq<string>)
    ensures a + b + c + d == a + (b + c + d)
  {
  }

  /** At a separator or an operator the scanner flushes the run before it,
      and the split from the start of that run begins with the same tokens. */
  lemma PlainBreak(line: string, k: nat, i: nat, tokens: seq<string>) returns (flushed: seq<string>)
    requires k <= i < |line| && Find(line, MemAccessPrefix) != i && !Glued(line, i)
    requires forall m :: k <= m < i ==> Glued(line, m)
    ensures TokenizeFrom(line, i, Scan(false, line[k..i], tokens))
            == TokenizeFrom(line, i + 1, Scan(false, line[i + 1..i + 1], flushed))
    ensures tokens + Split(line, k) == flushed + Split(line, i + 1)
  {
    var run := if k < i then [line[k..i]] else [];
    var emitted := if Operator(line, i) then [[line[i]]] else [];
    flushed := Flush(tokens, line[k..i]) + emitted;
    ScanBreak(line, k, i, tokens);
    SplitBreak(line, k, i);
    assert flushed == tokens + run + emitted;
    Regroup(tokens, run, emitted, Split(line, i + 1));
  }

  /** From a point where the component holds the glued characters k..i-1, and
      past the first "M[", the scanner emits exactly the maximal runs from k. */
  lemma {:induction false} ScanPlain(line: string, k: nat, i: nat, tokens: seq<string>)
    requires k <= i <= |line| && Find(line, MemAccessPrefix) < k
    requires forall m :: k <= m < i ==> Glued(line, m)
    requires i == |line| ==> k == i
    ensures TokenizeFrom(line, i, Scan(false, line[k..i], tokens)) == tokens + Split(line, k)
    decreases |line| - i, 1
  {
    if i == |line| {
      assert Split(line, k) == [];
      assert tokens + [] == tokens;
    } else if Glued(line, i) && i == |line| - 1 {
      calc {
        TokenizeFrom(line, i, Scan(false, line[k..i], tokens));
        { ScanGluedLast(line, k, tokens); }
        tokens + [line[k..]];
        { SplitGluedEnd(line, k); }
        tokens + Split(line, k);
      }
    } else if Glued(line, i) {
      calc {
        TokenizeFrom(line, i, Scan(false, line[k..i], tokens));
        { ScanGlued(line, k, i, tokens); }
        TokenizeFrom(line, i + 1, Scan(false, line[k..i + 1], tokens));
        { ScanPlain(line, k, i + 1, tokens); }
        tokens + Split(line, k);
      }
    } else {
      ScanPlainBreak(line, k, i, tokens);
    }
  }

  /** ScanPlain past a separator or an operator. */
  lemma {:induction false} ScanPlainBreak(line: string, k: nat, i: nat, tokens: seq<string>)
    requires k <= i < |line| && Find(line, MemAccessPrefix) < k && !Glued(line, i)
    requires forall m :: k <= m < i ==> Glued(line, m)
    ensures TokenizeFrom(line, i, Scan(false, line[k..i], tokens)) == tokens + Split(line, k)
    decreases |line| - i, 0
  {
    var flushed := PlainBreak(line, k, i, tokens);
    ScanPlain(line, i + 1, i + 1, flushed);
  }

  /** ParseLine on a line without "M[" is the maximal-run split. */
  lemma PlainSplit(line: string)
    requires !Includes(line, MemAccessPrefix)
    ensures Tokenize(line) == Split(line, 0)
  {
    assert line[0..0] == "";
    ScanPlain(line, 0, 0, []);
    assert [] + Split(line, 0) == Split(line, 0);
  }

  /** A character is classified alike in a line and in any suffix of it. */
  lemma ClassSuffix(prefix: string, rest: string, j: nat)
    requires j < |rest|
    ensures Separator(prefix + rest, |prefix| + j) == Separator(rest, j)
    ensures Operator(prefix + rest, |prefix| + j) == Operator(rest, j)
  {
    var line := prefix + rest;
    assert line[|prefix| + j] == rest[j];
    assert CharAt(line, |prefix| + j + 1) == CharAt(rest, j + 1);
  }

  /** Runs end at the same place in a line and in any suffix of it. */
  lemma {:induction false} RunEndSuffix(prefix: string, rest: string, j: nat)
    requires j <= |rest|
    ensures RunEnd(prefix + rest, |prefix| + j) == |prefix| + RunEnd(rest, j)
    decreases |rest| - j
  {
    if j < |rest| {
      ClassSuffix(prefix, rest, j);
      RunEndSuffix(prefix, rest, j + 1);
    }
  }

  /** A run starting at j splits alike in a line and in its suffix when what
      follows the run does. */
  lemma SplitSuffixRun(prefix: string, rest: string, j: nat)
    requires j < |rest| && Glued(rest, j)
    requires Split(prefix + rest, |prefix| + RunEnd(rest, j)) == Split(rest, RunEnd(rest, j))
    ensures Split(prefix + rest, |prefix| + j) == Split(rest, j)
  {
    var r := RunEnd(rest, j);
    ClassSuffix(prefix, rest, j);
    RunEndSuffix(prefix, rest, j);
    SliceSuffix(prefix, rest, j, r);
    SplitRuns(prefix + rest, rest, |prefix| + j, j, |prefix| + r, r);
  }

  /** A slice of the suffix is the same slice of the line, shifted. */
  lemma SliceSuffix(prefix: string, rest: string, a: nat, b: nat)
    requires a <= b <= |rest|
    ensures (prefix + rest)[|prefix| + a..|prefix| + b] == rest[a..b]
  {
  }

  /** Two runs with the same characters, followed by the same tokens, split
      alike. */
  lemma SplitRuns(line: string, rest: string, i: nat, j: nat, e: nat, r: nat)
    requires i < |line| && j < |rest| && Glued(line, i) && Glued(rest, j)
    requires RunEnd(line, i) == e && RunEnd(rest, j) == r
    requires line[i..e] == rest[j..r] && Split(line, e) == Split(rest, r)
    ensures Split(line, i) == Split(rest, j)
  {
  }

  /** A separator or an operator at j splits alike in a line and in its
      suffix when what follows it does. */
  lemma SplitSuffixBreak(prefix: string, rest: string, j: nat)
    requires j < |rest| && !Glued(rest, j)
    requires Split(prefix + rest, |prefix| + j + 1) == Split(rest, j + 1)
    ensures Split(prefix + rest, |prefix| + j) == Split(rest, j)
  {
    var line := prefix + rest;
    ClassSuffix(prefix, rest, j);
    assert line[|prefix| + j] == rest[j];
  }

  /** The split depends on nothing before the point where it starts. */
  lemma {:induction false} SplitSuffix(prefix: string, rest: string, j: nat)
    requires j <= |rest|
    ensures Split(prefix + rest, |prefix| + j) == Split(rest, j)
    decreases |rest| - j, 1
  {
    if j == |rest| {
      SplitSuffixEnd(prefix, rest);
    } else if Glued(rest, j) {
      SplitSuffixFromRun(prefix, rest, j);
    } else {
      SplitSuffixFromBreak(prefix, rest, j);
    }
  }

  /** SplitSuffix from a glued character: past its run, then the run. */
  lemma {:induction false} SplitSuffixFromRun(prefix: string, rest: string, j: nat)
    requires j < |rest| && Glued(rest, j)
    ensures Split(prefix + rest, |prefix| + j) == Split(rest, j)
    decreases |rest| - j, 0
  {
    SplitSuffix(prefix, rest, RunEnd(rest, j));
    SplitSuffixRun(prefix, rest, j);
  }

  /** SplitSuffix from a separator or an operator: past it, then it. */
  lemma {:induction false} SplitSuffixFromBreak(prefix: string, rest: string, j: nat)
    requires j < |rest| && !Glued(rest, j)
    ensures Split(prefix + rest, |prefix| + j) == Split(rest, j)
    decreases |rest| - j, 0
  {
    SplitSuffix(prefix, rest, j + 1);
    SplitSuffixBreak(prefix, rest, j);
  }

  /** At the end of the line nothing is left to split. */
  lemma SplitSuffixEnd(prefix: string, rest: string)
    ensures Split(prefix + rest, |prefix| + |rest|) == Split(rest, |rest|) == []
  {
    assert |prefix + rest| == |prefix| + |rest|;
  }

  /** The maximal runs of "R1 = R2 + -10" from its eighth character on. */
  lemma PlainExampleTail(line: string)
    requires line == "R1 = R2 + -10"
    ensures Split(line, 7) == ["+", "-10"]
  {
    assert line[10..] == "-10";
    SplitGluedEnd(line, 10);
    SplitBreak(line, 9, 9);
    SplitBreak(line, 8, 8);
    SplitBreak(line, 7, 7);
  }

  /** The maximal runs of "R1 = R2 + -10" from its fourth character on. */
  lemma PlainExampleMiddle(line: string)
    requires line == "R1 = R2 + -10"
    ensures Split(line, 3) == ["=", "R2", "+", "-10"]
  {
    PlainExampleTail(line);
    assert line[5..7] == "R2";
    SplitBreak(line, 5, 7);
    SplitBreak(line, 4, 4);
    SplitBreak(line, 3, 3);
  }

  /** The maximal runs of "R1 = R2 + -10". */
  lemma PlainExampleRuns(line: string)
    requires line == "R1 = R2 + -10"
    ensures Split(line, 0) == ["R1", "=", "R2", "+", "-10"]
  {
    PlainExampleMiddle(line);
    assert line[0..2] == "R1";
    SplitBreak(line, 2, 2);
    SplitBreak(line, 0, 2);
  }

  /** "R1 = R2 + -10": the '-' before a digit stays with its literal. */
  lemma PlainSplitExample(line: string)
    requires line == "R1 = R2 + -10"
    ensures Tokenize(line) == ["R1", "=", "R2", "+", "-10"]
  {
    PlainExampleRuns(line);
    FindFromMissing(line, MemAccessPrefix, 0);
    PlainSplit(line);
  }

  // ---------------------------------------------- lines with an access

  /** The access token built inside the brackets: each character of e is
      appended to acc, except a ',' or ' ' equal to the last one kept. */
  function Collapse(acc: string, e: string): (r: string)
    requires acc != []
    ensures acc <= r && |r| <= |acc| + |e|
    decreases |e|
  {
    if e == [] then acc
    else Collapse(if e[0] in IgnoreDelims && acc[|acc| - 1] == e[0] then acc else acc + [e[0]], e[1..])
  }

  /** ParseLine only ever appends tokens. */
  lemma {:induction false} TokenizeFromExtends(line: string, i: nat, s: Scan)
    requires i <= |line| && ScanOk(s)
    ensures s.tokens <= TokenizeFrom(line, i, s)
    decreases |line| - i
  {
    if i < |line| {
      var t := Advance(line, i, s);
      assert s.tokens <= Flush(s.tokens, s.component);
      assert s.tokens <= t.tokens;
      TokenizeFromExtends(line, i + 1, t);
    }
  }

  /** ParseLine's loop goes on from character i + 1 in the state that
      character i leads to. */
  lemma TokenizeStep(line: string, i: nat, s: Scan, t: Scan)
    requires i < |line| && ScanOk(s) && Advance(line, i, s) == t
    ensures TokenizeFrom(line, i, s) == TokenizeFrom(line, i + 1, t)
  {
  }

  /** Before the access a character is classified alike in the prefix alone
      and in the whole line, since what follows the prefix is not a digit. */
  lemma ClassPrefix(pre: string, post: string, m: nat)
    requires m < |pre| && post != [] && !IsDigit(post[0])
    ensures Separator(pre + post, m) == Separator(pre, m)
    ensures Operator(pre + post, m) == Operator(pre, m)
  {
    var line := pre + post;
    assert line[m] == pre[m];
    if m + 1 < |pre| {
      assert CharAt(line, m + 1) == CharAt(pre, m + 1);
    } else {
      assert CharAt(line, m + 1) == post[0] && CharAt(pre, m + 1) == '\0';
    }
  }

  /** Up to the first "M[", and when the text before it ends in a separator
      or an operator, the scanner emits the maximal runs of that text and
      arrives at the access with an empty component. */
  lemma {:induction false} ScanPrefix(pre: string, post: string, k: nat, i: nat, tokens: seq<string>)
    requires k <= i <= |pre| && post != [] && !IsDigit(post[0])
    requires Find(pre + post, MemAccessPrefix) >= |pre|
    requires pre == [] || !Glued(pre, |pre| - 1)
    requires forall m :: k <= m < i ==> Glued(pre, m)
    requires i == |pre| ==> k == i
    ensures TokenizeFrom(pre + post, i, Scan(false, (pre + post)[k..i], tokens))
            == TokenizeFrom(pre + post, |pre|, Scan(false, "", tokens + Split(pre, k)))
    decreases |pre| - i, 1
  {
    if i == |pre| {
      PrefixEnd(pre, k, tokens);
    } else if Glued(pre, i) {
      PrefixGlued(pre, post, k, i, tokens);
      ScanPrefix(pre, post, k, i + 1, tokens);
    } else {
      ScanPrefixBreak(pre, post, k, i, tokens);
    }
  }

  /** ScanPrefix past a separator or an operator. */
  lemma {:induction false} ScanPrefixBreak(pre: string, post: string, k: nat, i: nat, tokens: seq<string>)
    requires k <= i < |pre| && post != [] && !IsDigit(post[0])
    requires Find(pre + post, MemAccessPrefix) >= |pre|
    requires pre == [] || !Glued(pre, |pre| - 1)
    requires forall m :: k <= m < i ==> Glued(pre, m)
    requires !Glued(pre, i)
    ensures TokenizeFrom(pre + post, i, Scan(false, (pre + post)[k..i], tokens))
            == TokenizeFrom(pre + post, |pre|, Scan(false, "", tokens + Split(pre, k)))
    decreases |pre| - i, 0
  {
    var flushed := PrefixBreak(pre, post, k, i, tokens);
    ScanPrefix(pre, post, i + 1, i + 1, flushed);
  }

  /** ScanPrefix at the end of the prefix: nothing is left to split. */
  lemma PrefixEnd(pre: string, k: nat, tokens: seq<string>)
    requires k == |pre|
    ensures tokens + Split(pre, k) == tokens
  {
    assert Split(pre, k) == [];
  }

  /** One step of ScanPrefix inside a run: the character joins the run. */
  lemma PrefixGlued(pre: string, post: string, k: nat, i: nat, tokens: seq<string>)
    requires k <= i < |pre| && post != [] && !IsDigit(post[0])
    requires Find(pre + post, MemAccessPrefix) >= |pre|
    requires Glued(pre, i)
    ensures TokenizeFrom(pre + post, i, Scan(false, (pre + post)[k..i], tokens))
            == TokenizeFrom(pre + post, i + 1, Scan(false, (pre + post)[k..i + 1], tokens))
  {
    ClassPrefix(pre, post, i);
    ScanGlued(pre + post, k, i, tokens);
  }

  /** One step of ScanPrefix at a separator or an operator: the scanner
      flushes the run before it, and the split of the prefix starts with the
      same tokens. */
  lemma PrefixBreak(pre: string, post: string, k: nat, i: nat, tokens: seq<string>) returns (flushed: seq<string>)
    requires k <= i < |pre| && post != [] && !IsDigit(post[0])
    requires Find(pre + post, MemAccessPrefix) >= |pre|
    requires forall m :: k <= m < i ==> Glued(pre, m)
    requires !Glued(pre, i)
    ensures TokenizeFrom(pre + post, i, Scan(false, (pre + post)[k..i], tokens))
            == TokenizeFrom(pre + post, i + 1, Scan(false, (pre + post)[i + 1..i + 1], flushed))
    ensures tokens + Split(pre, k) == flushed + Split(pre, i + 1)
  {
    var line := pre + post;
    ClassPrefix(pre, post, i);
    flushed := Flush(tokens, line[k..i]) + if Operator(line, i) then [[line[i]]] else [];
    var run := if k < i then [pre[k..i]] else [];
    var emitted := if Operator(pre, i) then [[pre[i]]] else [];
    assert line[k..i] == pre[k..i] && line[i] == pre[i];
    assert flushed == tokens + run + emitted;
    ScanBreak(line, k, i, tokens);
    SplitBreak(pre, k, i);
    Regroup(tokens, run, emitted, Split(pre, i + 1));
  }

  /** The 'M' of the line's first "M[" raises the flag and starts the
      component. */
  lemma OpenAccessM(line: string, at: nat, tokens: seq<string>)
    requires at + 2 < |line| && line[at] == 'M'
    requires Find(line, MemAccessPrefix) == at && Find(line, [MemAccessClose]) > at + 1
    ensures Advance(line, at, Scan(false, "", tokens)) == Scan(true, "M", tokens)
  {
  }

  /** The '[' that follows joins the component. */
  lemma OpenAccessBracket(line: string, at: nat, tokens: seq<string>)
    requires at + 2 < |line| && line[at + 1] == '[' && Find(line, [MemAccessClose]) > at + 1
    ensures Advance(line, at + 1, Scan(true, "M", tokens)) == Scan(true, MemAccessPrefix, tokens)
  {
  }

  /** The line's first "M[" opens the access: its two characters start the
      component. */
  lemma AccessOpen(line: string, at: nat, tokens: seq<string>)
    requires at + 2 < |line| && line[at] == 'M' && line[at + 1] == '['
    requires Find(line, MemAccessPrefix) == at && Find(line, [MemAccessClose]) > at + 1
    ensures TokenizeFrom(line, at, Scan(false, "", tokens))
            == TokenizeFrom(line, at + 2, Scan(true, MemAccessPrefix, tokens))
  {
    OpenAccessM(line, at, tokens);
    TokenizeStep(line, at, Scan(false, "", tokens), Scan(true, "M", tokens));
    OpenAccessBracket(line, at, tokens);
    TokenizeStep(line, at + 1, Scan(true, "M", tokens), Scan(true, MemAccessPrefix, tokens));
  }

  /** Before the first ']' an open access keeps the character, unless it is
      a ',' or ' ' equal to the last one kept. */
  lemma InsideStep(line: string, i: nat, acc: string, tokens: seq<string>)
    requires i < |line| - 1 && acc != [] && Find(line, [MemAccessClose]) > i
    ensures Advance(line, i, Scan(true, acc, tokens))
            == Scan(true, if line[i] in IgnoreDelims && acc[|acc| - 1] == line[i] then acc else acc + [line[i]], tokens)
  {
  }

  /** Inside the brackets every character goes to the component, which is
      never flushed, until the first ']'. */
  lemma {:induction false} BracketFrom(line: string, at: nat, e: string, j: nat, acc: string, tokens: seq<string>)
    requires |line| > at + 2 + |e| && line[at + 2..at + 2 + |e|] == e
    requires Find(line, MemAccessPrefix) == at && Find(line, [MemAccessClose]) == at + 2 + |e|
    requires j <= |e| && acc != []
    ensures TokenizeFrom(line, at + 2 + j, Scan(true, acc, tokens))
            == TokenizeFrom(line, at + 2 + |e|, Scan(true, Collapse(acc, e[j..]), tokens))
    decreases |e| - j
  {
    if j < |e| {
      var i := at + 2 + j;
      var c := e[j];
      assert line[i] == line[at + 2..at + 2 + |e|][j] == c;
      var next := if c in IgnoreDelims && acc[|acc| - 1] == c then acc else acc + [c];
      InsideStep(line, i, acc, tokens);
      TokenizeStep(line, i, Scan(true, acc, tokens), Scan(true, next, tokens));
      BracketFrom(line, at, e, j + 1, next, tokens);
      assert e[j..][1..] == e[j + 1..];
      assert Collapse(acc, e[j..]) == Collapse(next, e[j + 1..]);
    }
  }

  /** The first ']' closes the access and ends the component with it; at the
      end of the line the component is emitted. */
  lemma CloseStep(line: string, close: nat, component: string, tokens: seq<string>)
    requires close < |line| && line[close] == MemAccessClose && component != []
    requires Find(line, [MemAccessClose]) == close
    ensures var token := component + [MemAccessClose];
      Advance(line, close, Scan(true, component, tokens))
      == Scan(false, token, if close + 1 == |line| then tokens + [token] else tokens)
  {
  }

  /** A separator or an operator right after the access emits it. */
  lemma EmitAccess(line: string, i: nat, token: string, tokens: seq<string>)
    requires i < |line| && Find(line, MemAccessPrefix) != i && !Glued(line, i) && token != []
    ensures Advance(line, i, Scan(false, token, tokens))
            == Scan(false, line[i + 1..i + 1], tokens + [token] + if Operator(line, i) then [[line[i]]] else [])
  {
    AdvancePlain(line, i, Scan(false, token, tokens));
    assert line[i + 1..i + 1] == "";
  }

  /** After the access, a separator or an operator emits it, and the rest of
      the line splits into its maximal runs. */
  lemma AfterAccess(line: string, i: nat, token: string, tokens: seq<string>)
    requires i < |line| && Find(line, MemAccessPrefix) < i && !Glued(line, i) && token != []
    ensures TokenizeFrom(line, i, Scan(false, token, tokens)) == tokens + [token] + Split(line, i)
  {
    var emitted := if Operator(line, i) then [[line[i]]] else [];
    var s := Scan(false, token, tokens);
    var t := Scan(false, line[i + 1..i + 1], tokens + [token] + emitted);
    calc {
      TokenizeFrom(line, i, s);
      { EmitAccess(line, i, token, tokens); TokenizeStep(line, i, s, t); }
      TokenizeFrom(line, i + 1, t);
      { ScanPlain(line, i + 1, i + 1, tokens + [token] + emitted); }
      tokens + [token] + emitted + Split(line, i + 1);
      { Regroup(tokens + [token], emitted, Split(line, i + 1), []);
        assert Split(line, i + 1) + [] == Split(line, i + 1); }
      tokens + [token] + (emitted + Split(line, i + 1));
      { SplitBreak(line, i, i); }
      tokens + [token] + Split(line, i);
    }
  }

  /** The first ']' closes the access; the separator or operator after it (or
      the end of the line) emits the access as a token, and the rest of the
      line splits into its maximal runs. */
  lemma AccessClose(line: string, close: nat, component: string, tokens: seq<string>)
    requires close < |line|
    requires line[close] == MemAccessClose
    requires component != []
    requires Find(line, MemAccessPrefix) < close
    requires Find(line, [MemAccessClose]) == close
    requires close + 1 < |line| ==> !Glued(line, close + 1)
    ensures TokenizeFrom(line, close, Scan(true, component, tokens))
            == tokens + [component + [MemAccessClose]] + Split(line, close + 1)
  {
    var token := component + [MemAccessClose];
    CloseStep(line, close, component, tokens);
    if close + 1 == |line| {
      TokenizeStep(line, close, Scan(true, component, tokens), Scan(false, token, tokens + [token]));
      assert Split(line, close + 1) == [];
    } else {
      TokenizeStep(line, close, Scan(true, component, tokens), Scan(false, token, tokens));
      AfterAccess(line, close + 1, token, tokens);
    }
  }

  /** The line's first "M[" at |pre|: nothing before it matches. */
  lemma FirstAccessAt(pre: string, post: string)
    requires !Includes(pre, MemAccessPrefix) && (pre == [] || pre[|pre| - 1] != 'M')
    requires MatchAt(post, MemAccessPrefix, 0)
    ensures Find(pre + post, MemAccessPrefix) == |pre|
  {
    var line := pre + post;
    assert line[|pre|..|pre| + 2] == post[0..2];
    assert MatchAt(line, MemAccessPrefix, |pre|);
    forall j | 0 <= j < |pre|
      ensures !MatchAt(line, MemAccessPrefix, j)
    {
      if j + 2 <= |pre| {
        assert line[j..j + 2] == pre[j..j + 2];
        assert !MatchAt(pre, MemAccessPrefix, j);
      } else if j + 2 <= |line| {
        assert line[j..j + 2][0] == pre[j];
      }
    }
    var r := Find(line, MemAccessPrefix);
    if r != -1 && r < |pre| {
      assert MatchAt(line, MemAccessPrefix, r);
    }
  }

  /** A memory access "M[e]" after a text without "M[" or ']' that ends in a
      separator or an operator (or is empty): the text splits into its
      maximal runs, the whole access is one token, with ',' and ' ' inside the
      brackets kept but not repeated, and what follows splits into its
      maximal runs, provided a separator or an operator (or the end of the
      line) follows the ']'. */
  lemma AccessToken(pre: string, e: string, rest: string)
    requires !Includes(pre, MemAccessPrefix) && MemAccessClose !in pre
    requires pre == [] || !Glued(pre, |pre| - 1)
    requires MemAccessClose !in e
    requires rest == [] || rest[0] in IgnoreDelims
             || (rest[0] in AllDelims && !(rest[0] == '-' && IsDigit(CharAt(rest, 1))))
    ensures Tokenize(pre + MemAccessPrefix + e + [MemAccessClose] + rest)
            == Split(pre, 0) + [Collapse(MemAccessPrefix, e) + [MemAccessClose]] + Split(rest, 0)
  {
    var post := MemAccessPrefix + e + [MemAccessClose] + rest;
    var upTo := pre + MemAccessPrefix + e + [MemAccessClose];
    AccessLayout(pre, e, rest);
    LineParts(pre, e, rest);
    AccessLine(pre + post, pre, post, e, |pre| + 2 + |e|, upTo, rest);
  }

  /** The tokens of a line made of a text before the access, the access and
      what follows it. */
  lemma AccessLine(line: string, pre: string, post: string, e: string, close: nat, upTo: string, rest: string)
    requires line == pre + post && line == upTo + rest && close == |pre| + 2 + |e| && |upTo| == close + 1
    requires post != [] && !IsDigit(post[0])
    requires pre == [] || !Glued(pre, |pre| - 1)
    requires |line| > close && line[|pre|] == 'M' && line[|pre| + 1] == '['
    requires line[|pre| + 2..close] == e && line[close] == MemAccessClose
    requires Find(line, MemAccessPrefix) == |pre| && Find(line, [MemAccessClose]) == close
    requires close + 1 < |line| ==> !Glued(line, close + 1)
    ensures Tokenize(line) == Split(pre, 0) + [Collapse(MemAccessPrefix, e) + [MemAccessClose]] + Split(rest, 0)
  {
    PrefixScanned(pre, post);
    AccessFrom(line, |pre|, e, close, Split(pre, 0));
    SplitAfter(line, upTo, rest, close + 1);
  }

  /** Splitting a line from the end of a head on is splitting its tail. */
  lemma SplitAfter(line: string, head: string, rest: string, n: nat)
    requires line == head + rest && n == |head|
    ensures Split(line, n) == Split(rest, 0)
  {
    SplitSuffix(head, rest, 0);
  }

  /** From the line's first "M[" at position at to the end: the access is one
      token, and what follows its ']' splits into its maximal runs. */
  lemma AccessFrom(line: string, at: nat, e: string, close: nat, tokens: seq<string>)
    requires close == at + 2 + |e| && |line| > close && line[at] == 'M' && line[at + 1] == '['
    requires line[at + 2..close] == e && line[close] == MemAccessClose
    requires Find(line, MemAccessPrefix) == at && Find(line, [MemAccessClose]) == close
    requires close + 1 < |line| ==> !Glued(line, close + 1)
    ensures TokenizeFrom(line, at, Scan(false, "", tokens))
            == tokens + [Collapse(MemAccessPrefix, e) + [MemAccessClose]] + Split(line, close + 1)
  {
    var component := Collapse(MemAccessPrefix, e);
    assert MemAccessPrefix <= component;
    AccessBody(line, at, e, tokens);
    AccessClose(line, close, component, tokens);
  }

  /** The scan of a whole line reaches the first "M[" with the maximal runs of
      the text before it emitted. */
  lemma PrefixScanned(pre: string, post: string)
    requires post != [] && !IsDigit(post[0])
    requires Find(pre + post, MemAccessPrefix) >= |pre|
    requires pre == [] || !Glued(pre, |pre| - 1)
    ensures Tokenize(pre + post) == TokenizeFrom(pre + post, |pre|, Scan(false, "", Split(pre, 0)))
  {
    assert (pre + post)[0..0] == "";
    ScanPrefix(pre, post, 0, 0, []);
    assert [] + Split(pre, 0) == Split(pre, 0);
  }

  /** The two ways of cutting a line "pre M[e] rest" into a head and a tail. */
  lemma LineParts(pre: string, e: string, rest: string)
    ensures pre + MemAccessPrefix + e + [MemAccessClose] + rest
            == pre + (MemAccessPrefix + e + [MemAccessClose] + rest)
  {
  }

  /** Where the parts of a line "pre M[e] rest" sit, and where the line's
      first "M[" and first ']' are. */
  lemma AccessLayout(pre: string, e: string, rest: string)
    requires !Includes(pre, MemAccessPrefix) && MemAccessClose !in pre
    requires pre == [] || !Glued(pre, |pre| - 1)
    requires MemAccessClose !in e
    requires rest == [] || rest[0] in IgnoreDelims
             || (rest[0] in AllDelims && !(rest[0] == '-' && IsDigit(CharAt(rest, 1))))
    ensures var post := MemAccessPrefix + e + [MemAccessClose] + rest;
      var line := pre + post;
      var close := |pre| + 2 + |e|;
      && post != [] && !IsDigit(post[0])
      && |line| > close && line[|pre|] == 'M' && line[|pre| + 1] == '['
      && line[|pre| + 2..close] == e && line[close] == MemAccessClose
      && Find(line, MemAccessPrefix) == |pre| && Find(line, [MemAccessClose]) == close
      && (close + 1 < |line| ==> !Glued(line, close + 1))
      && |pre + MemAccessPrefix + e + [MemAccessClose]| == close + 1
  {
    var post := MemAccessPrefix + e + [MemAccessClose] + rest;
    var upTo := pre + MemAccessPrefix + e + [MemAccessClose];
    var line := pre + post;
    var close := |pre| + 2 + |e|;
    assert post[0] == 'M' && post[1] == '[' && post[0..2] == MemAccessPrefix;
    if pre != [] {
      assert pre[|pre| - 1] != 'M';
    }
    FirstAccessAt(pre, post);
    assert line[|pre| + 2..close] == e;
    assert line[..close] == pre + MemAccessPrefix + e;
    FindCharAt(line, MemAccessClose, close);
    if rest != [] {
      LineParts(pre, e, rest);
      ClassSuffix(upTo, rest, 0);
    }
  }

  /** From the line's first "M[" to its first ']': the access's characters
      collect in one component. */
  lemma AccessBody(line: string, at: nat, e: string, tokens: seq<string>)
    requires |line| > at + 2 + |e| && line[at] == 'M' && line[at + 1] == '['
    requires line[at + 2..at + 2 + |e|] == e
    requires Find(line, MemAccessPrefix) == at && Find(line, [MemAccessClose]) == at + 2 + |e|
    ensures TokenizeFrom(line, at, Scan(false, "", tokens))
            == TokenizeFrom(line, at + 2 + |e|, Scan(true, Collapse(MemAccessPrefix, e), tokens))
  {
    AccessOpen(line, at, tokens);
    assert e[0..] == e;
    BracketFrom(line, at, e, 0, MemAccessPrefix, tokens);
  }

  /** A separator that does not repeat the character before it is kept:
      without repeated separators the access is copied unchanged. */
  lemma {:induction false} CollapseSingleSeparators(acc: string, e: string)
    requires acc != []
    requires forall k :: 0 <= k < |e| && e[k] in IgnoreDelims ==> (acc + e)[|acc| + k - 1] != e[k]
    ensures Collapse(acc, e) == acc + e
    decreases |e|
  {
    if e != [] {
      assert (acc + e)[|acc| - 1] == acc[|acc| - 1];
      var next := acc + [e[0]];
      assert next + e[1..] == acc + e;
      forall k | 0 <= k < |e[1..]| && e[1..][k] in IgnoreDelims
        ensures (next + e[1..])[|next| + k - 1] != e[1..][k]
      {
        assert e[1..][k] == e[k + 1];
      }
      CollapseSingleSeparators(next, e[1..]);
    }
  }

  /** A separator that repeats the one before it is dropped. */
  lemma CollapseRepeatedSeparator(acc: string, c: char, e: string)
    requires acc != [] && c in IgnoreDelims
    ensures Collapse(acc, [c, c] + e) == Collapse(acc, [c] + e)
  {
    var next := if acc[|acc| - 1] == c then acc else acc + [c];
    assert ([c, c] + e)[1..] == [c] + e;
    assert ([c] + e)[1..] == e;
    assert Collapse(acc, [c, c] + e) == Collapse(next, [c] + e);
    assert Collapse(acc, [c] + e) == Collapse(next, e);
  }

  /** "M[R1 + 3] = R2" keeps its access whole as the first token. */
  lemma AccessTokenExample(e: string, rest: string)
    requires e == "R1 + 3" && rest == " = R2"
    ensures Tokenize(MemAccessPrefix + e + [MemAccessClose] + rest) == ["M[R1 + 3]", "=", "R2"]
  {
    AccessToken("", e, rest);
    AccessExampleRest(rest);
    AccessExampleToken(e);
    assert "" + MemAccessPrefix == MemAccessPrefix;
  }

  /** The access of "M[R1 + 3] = R2" is kept whole. */
  lemma AccessExampleToken(e: string)
    requires e == "R1 + 3"
    ensures Collapse(MemAccessPrefix, e) + [MemAccessClose] == "M[R1 + 3]"
  {
    CollapseSingleSeparators(MemAccessPrefix, e);
    assert MemAccessPrefix + e + [MemAccessClose] == "M[R1 + 3]";
  }

  /** The maximal runs of " = R2". */
  lemma AccessExampleRest(rest: string)
    requires rest == " = R2"
    ensures Split(rest, 0) == ["=", "R2"]
  {
    assert rest[3..] == "R2";
    SplitGluedEnd(rest, 3);
    SplitBreak(rest, 2, 2);
    SplitBreak(rest, 1, 1);
    SplitBreak(rest, 0, 0);
  }

  /** The maximal runs of "R1 = ". */
  lemma LoadExamplePrefix(pre: string)
    requires pre == "R1 = "
    ensures Split(pre, 0) == ["R1", "="]
  {
    assert pre[0..2] == "R1";
    SplitBreak(pre, 4, 4);
    SplitBreak(pre, 3, 3);
    SplitBreak(pre, 2, 2);
    SplitBreak(pre, 0, 2);
  }

  /** "R1 = M[R2 + 4]", the shape of a load: the destination and '=' are
      tokens of their own and the access stays whole. */
  lemma LoadAccessExample(pre: string, e: string)
    requires pre == "R1 = " && e == "R2 + 4"
    ensures Tokenize(pre + MemAccessPrefix + e + [MemAccessClose]) == ["R1", "=", "M[R2 + 4]"]
  {
    FindFromMissing(pre, MemAccessPrefix, 0);
    AccessToken(pre, e, "");
    LoadExamplePrefix(pre);
    LoadExampleToken(e);
    assert pre + MemAccessPrefix + e + [MemAccessClose] + "" == pre + MemAccessPrefix + e + [MemAccessClose];
  }

  /** The access of "R1 = M[R2 + 4]" is kept whole. */
  lemma LoadExampleToken(e: string)
    requires e == "R2 + 4"
    ensures Collapse(MemAccessPrefix, e) + [MemAccessClose] == "M[R2 + 4]"
  {
    CollapseSingleSeparators(MemAccessPrefix, e);
    assert MemAccessPrefix + e + [MemAccessClose] == "M[R2 + 4]";
  }

  // ------------------------------------------------------------- validator

  lemma {:induction false} AluCountPositive(line: string, n: nat, j: int)
    requires n <= |line| && 0 <= j < n && CountedOperator(line, j)
    ensures AluCount(line, n) >= 1 + AluCount(line, j)
    decreases n
  {
    if j < n - 1 {
      AluCountPositive(line, n - 1, j);
      AluCountMonotone(line, j, n - 1);
    }
  }

  lemma {:induction false} AluCountMonotone(line: string, m: nat, n: nat)
    requires m <= n <= |line|
    ensures AluCount(line, m) <= AluCount(line, n)
    decreases n - m
  {
    if m < n {
      AluCountMonotone(line, m, n - 1);
    }
  }

  /** A line with two counted operators is rejected. */
  lemma TwoOperatorsRejected(line: string, j: int, k: int)
    requires 0 <= j < k < |line|
    requires CountedOperator(line, j) && CountedOperator(line, k)
    ensures !InstrConstraint(line) && InvalidLine(line)
  {
    AluCountPositive(line, |line|, k);
    AluCountPositive(line, k, j);
  }

  /** A line with two memory accesses is rejected. */
  lemma TwoAccessesRejected(line: string, j: int, k: int)
    requires j < k && MatchAt(line, MemAccessPrefix, j) && MatchAt(line, MemAccessPrefix, k)
    ensures !InstrConstraint(line) && InvalidLine(line)
  {
    assert Find(line, MemAccessPrefix) != -1;
    assert FindFrom(line, MemAccessPrefix, Find(line, MemAccessPrefix) + 1) != -1;
  }

  lemma {:induction false} AluCountZero(line: string, n: nat)
    requires n <= |line|
    ensures AluCount(line, n) == 0 <==> forall j :: 0 <= j < n ==> !CountedOperator(line, j)
    decreases n
  {
    if n > 0 {
      AluCountZero(line, n - 1);
    }
  }

  lemma {:induction false} AluCountFlat(line: string, m: nat, n: nat)
    requires m <= n <= |line|
    requires forall j :: m <= j < n ==> !CountedOperator(line, j)
    ensures AluCount(line, n) == AluCount(line, m)
    decreases n - m
  {
    if m < n {
      AluCountFlat(line, m, n - 1);
    }
  }

  /** A line whose only counted operator sits at j counts exactly one. */
  lemma SingleOperator(line: string, j: int)
    requires 0 <= j < |line| && CountedOperator(line, j)
    requires forall k :: 0 <= k < |line| && k != j ==> !CountedOperator(line, k)
    ensures AluCount(line, |line|) == 1
  {
    AluCountZero(line, j);
    AluCountFlat(line, j + 1, |line|);
  }

  /** Position k lies after the line's first '[' and before its first ']'
      (or there is no ']'). */
  predicate InsideBrackets(line: string, k: int) {
    Find(line, [MemAccessOpen]) < k
    && (Find(line, [MemAccessClose]) == -1 || k < Find(line, [MemAccessClose]))
  }

  /** A line with at most one memory access and no counted operator is
      accepted; a line with a memory access and one counted operator is
      rejected when every operator character in it lies outside the
      brackets. */
  lemma OneAccessAccepted(line: string)
    requires !TwoMemoryAccesses(line)
    ensures (forall j :: 0 <= j < |line| ==> !CountedOperator(line, j)) ==> InstrConstraint(line)
    ensures Includes(line, MemAccessPrefix) && AluCount(line, |line|) == 1
            && (forall k :: 0 <= k < |line| && line[k] in AluOperators ==> !InsideBrackets(line, k))
            ==> !InstrConstraint(line)
  {
    AluCountZero(line, |line|);
    if forall k :: 0 <= k < |line| && line[k] in AluOperators ==> !InsideBrackets(line, k) {
      OutsideNotInBrackets(line, '+');
      OutsideNotInBrackets(line, '-');
      OutsideNotInBrackets(line, '*');
      OutsideNotInBrackets(line, '/');
    }
  }

  /** An operator character none of whose occurrences lies inside the
      brackets does not satisfy the bracket test. */
  lemma OutsideNotInBrackets(line: string, o: char)
    requires o in AluOperators
    requires forall k :: 0 <= k < |line| && line[k] in AluOperators ==> !InsideBrackets(line, k)
    ensures !OperatorInBrackets(line, o)
  {
    FindChar(line, o);
    if Find(line, [o]) != -1 {
      assert !InsideBrackets(line, Find(line, [o]));
    }
  }

  /** With at most one counted operator, an operator character inside the
      brackets that is the first of its kind in the line makes the line
      legal, whether or not it is the counted one. */
  lemma InsideAccessAccepted(line: string, j: int)
    requires !TwoMemoryAccesses(line) && AluCount(line, |line|) <= 1
    requires 0 <= j < |line| && line[j] in AluOperators && line[j] !in line[..j]
    requires InsideBrackets(line, j)
    ensures InstrConstraint(line)
  {
    if Includes(line, MemAccessPrefix) && AluCount(line, |line|) == 1 {
      OpenBracketFound(line);
      FindCharAt(line, line[j], j);
      assert OperatorInBrackets(line, line[j]);
      OperatorChar(line[j]);
    }
  }

  /** A line with "M[" has a '['. */
  lemma OpenBracketFound(line: string)
    requires Includes(line, MemAccessPrefix)
    ensures Find(line, [MemAccessOpen]) != -1
  {
    var r := Find(line, MemAccessPrefix);
    assert line[r..r + 2][1] == line[r + 1];
    FindChar(line, MemAccessOpen);
  }

  /** The four arithmetic operator characters. */
  lemma OperatorChar(c: char)
    requires c in AluOperators
    ensures c == '+' || c == '-' || c == '*' || c == '/'
  {
  }

  /** The check looks only at the first occurrence of each operator
      character: in "M[R1 -4] = R2 + 1" the only counted operator, '+', is
      outside the brackets, yet the line passes because the first '-' (a
      negative sign) is inside them. */
  lemma FirstOccurrenceRule(line: string)
    requires line == "M[R1 -4] = R2 + 1"
    ensures CountedOperator(line, 14) && !InsideBrackets(line, 14)
    ensures !CountedOperator(line, 5) && InstrConstraint(line)
  {
    RuleLineBrackets(line);
    RuleLineOperators(line);
    SingleOperator(line, 14);
    InsideAccessAccepted(line, 5);
  }

  /** The example line has one access, its '[' at 1 and its ']' at 7. */
  lemma RuleLineBrackets(line: string)
    requires line == "M[R1 -4] = R2 + 1"
    ensures !TwoMemoryAccesses(line)
    ensures Find(line, [MemAccessOpen]) == 1 && Find(line, [MemAccessClose]) == 7
  {
    FindFirstAt(line, MemAccessPrefix, 0);
    FindFromMissing(line, MemAccessPrefix, 1);
    FindCharAt(line, MemAccessOpen, 1);
    FindCharAt(line, MemAccessClose, 7);
  }

  /** In the example line only the '+' at 14 is counted. */
  lemma RuleLineOperators(line: string)
    requires line == "M[R1 -4] = R2 + 1"
    ensures CountedOperator(line, 14)
    ensures forall k :: 0 <= k < |line| && k != 14 ==> !CountedOperator(line, k)
  {
  }

  /** A line with one memory access whose only operator character is the
      counted one at j: it is accepted exactly when j lies after the first '['
      and before the first ']' (or there is no ']'). */
  lemma SoleOperatorAccess(line: string, j: int)
    requires !TwoMemoryAccesses(line) && Includes(line, MemAccessPrefix)
    requires 0 <= j < |line| && CountedOperator(line, j)
    requires forall k :: 0 <= k < |line| && k != j ==> line[k] !in AluOperators
    ensures InstrConstraint(line) <==>
      Find(line, [MemAccessOpen]) < j
      && (Find(line, [MemAccessClose]) == -1 || j < Find(line, [MemAccessClose]))
  {
    SingleOperator(line, j);
    var r := Find(line, MemAccessPrefix);
    assert MatchAt(line, MemAccessPrefix, r);
    assert line[r + 1] == MemAccessOpen;
    FindChar(line, MemAccessOpen);
    forall o | o in AluOperators
      ensures Find(line, [o]) == (if o == line[j] then j else -1)
    {
      if o == line[j] {
        FindCharAt(line, o, j);
      } else {
        assert forall k :: 0 <= k < |line| ==> line[k] != o;
        FindCharAt(line, o, -1);
      }
    }
  }

  /** An operator after the closing bracket is rejected. */
  lemma OperatorAfterAccessRejected(line: string)
    requires line == "R1 = M[R2] + 4"
    ensures !InstrConstraint(line)
  {
    FindFirstAt(line, MemAccessPrefix, 5);
    FindFromMissing(line, MemAccessPrefix, 6);
    FindCharAt(line, MemAccessOpen, 6);
    FindCharAt(line, MemAccessClose, 9);
    assert !TwoMemoryAccesses(line) && Includes(line, MemAccessPrefix);
    assert CountedOperator(line, 11);
    assert forall k :: 0 <= k < |line| && k != 11 ==> line[k] !in AluOperators;
    SoleOperatorAccess(line, 11);
  }

  /** An operator inside the brackets is accepted. */
  lemma OperatorInsideAccessAccepted(line: string)
    requires line == "M[R1 + 3] = R2"
    ensures InstrConstraint(line)
  {
    FindFirstAt(line, MemAccessPrefix, 0);
    FindFromMissing(line, MemAccessPrefix, 1);
    FindCharAt(line, MemAccessOpen, 1);
    FindCharAt(line, MemAccessClose, 8);
    assert !TwoMemoryAccesses(line) && Includes(line, MemAccessPrefix);
    assert CountedOperator(line, 5);
    assert forall k :: 0 <= k < |line| && k != 5 ==> line[k] !in AluOperators;
    SoleOperatorAccess(line, 5);
  }

  /** Two operators, or a leading digit: rejected. */
  lemma RejectsTwoOperatorsOrLeadingDigit()
    ensures InvalidLine("R1 = R2 + R3 * 2")
    ensures InvalidLine("7 R1 = 2")
  {
    TwoOperatorsRejected("R1 = R2 + R3 * 2", 8, 13);
  }

  // ---------------------------------------------------------------- loading

  /** What every loaded program satisfies: instructions are non-empty lists of
      non-empty tokens, and every name points at an instruction or just past
      the last one. */
  predicate WellFormed(p: Program) {
    (forall k :: 0 <= k < |p.lines| ==> p.lines[k] != [] && NoEmptyToken(p.lines[k]))
    && (forall f :: f in p.functions ==> 0 <= p.functions[f] <= |p.lines|)
  }

  lemma LoadLineWellFormed(p: Program, line: string)
    requires WellFormed(p)
    ensures LoadLine(p, line).Ok? ==> WellFormed(LoadLine(p, line).value)
  {
    TokensNonEmpty(RemoveComment(line));
  }

  /** A program produced by a successful load is well formed. */
  lemma {:induction false} LoadWellFormed(p: Program, source: seq<string>)
    requires WellFormed(p)
    ensures LoadFrom(p, source).Ok? ==> WellFormed(LoadFrom(p, source).value)
    decreases |source|
  {
    if source != [] {
      LoadLineWellFormed(p, source[0]);
      if LoadLine(p, source[0]).Ok? {
        LoadWellFormed(LoadLine(p, source[0]).value, source[1..]);
      }
    }
  }

  /** A load succeeds only if no line is invalid (`FirstInvalidRejected` says
      which error an invalid line gives). */
  lemma {:induction false} LoadRejectsInvalid(p: Program, source: seq<string>)
    ensures LoadFrom(p, source).Ok? ==> forall k :: 0 <= k < |source| ==> !InvalidLine(source[k])
    decreases |source|
  {
    if source != [] && LoadLine(p, source[0]).Ok? {
      LoadRejectsInvalid(LoadLine(p, source[0]).value, source[1..]);
      assert forall k :: 1 <= k < |source| ==> source[k] == source[1..][k - 1];
    }
  }

  /** Loading a text in two parts is loading the first part and then the
      second into its result. */
  lemma {:induction false} LoadFromConcat(p: Program, a: seq<string>, b: seq<string>)
    ensures LoadFrom(p, a + b) ==
      match LoadFrom(p, a)
      case Err(e) => Err(e)
      case Ok(q) => LoadFrom(q, b)
    decreases |a|
  {
    if a == [] {
      assert a + b == b;
    } else {
      assert (a + b)[0] == a[0] && (a + b)[1..] == a[1..] + b;
      if LoadLine(p, a[0]).Ok? {
        LoadFromConcat(LoadLine(p, a[0]).value, a[1..], b);
      }
    }
  }

  /** When the lines before line k load, an invalid line k ends the load with
      a compilation error naming that line. */
  lemma FirstInvalidRejected(p: Program, source: seq<string>, k: int)
    requires 0 <= k < |source| && InvalidLine(source[k])
    requires LoadFrom(p, source[..k]).Ok?
    ensures LoadFrom(p, source) == Err(CompilationError(source[k]))
  {
    var q := LoadFrom(p, source[..k]).value;
    calc {
      LoadFrom(p, source);
      { assert source == source[..k] + source[k..]; }
      LoadFrom(p, source[..k] + source[k..]);
      { LoadFromConcat(p, source[..k], source[k..]); }
      LoadFrom(q, source[k..]);
      { assert source[k..][0] == source[k]; }
      Err(CompilationError(source[k]));
    }
  }

  /** Loading only appends instructions and never changes a recorded name. */
  lemma {:induction false} LoadExtends(p: Program, source: seq<string>)
    ensures LoadFrom(p, source).Ok? ==>
      p.lines <= LoadFrom(p, source).value.lines
      && forall f :: f in p.functions ==>
           f in LoadFrom(p, source).value.functions && LoadFrom(p, source).value.functions[f] == p.functions[f]
    decreases |source|
  {
    if source != [] && LoadLine(p, source[0]).Ok? {
      LoadExtends(LoadLine(p, source[0]).value, source[1..]);
    }
  }

  /** A declaration line stores no instruction: it binds its name to the
      index the next stored instruction will get, and loading goes on from
      there; declaring the name again fails with a redeclaration error. */
  lemma Declaration(p: Program, line: string, rest: seq<string>)
    requires !InvalidLine(line)
    requires Tokenize(RemoveComment(line)) != [] && IsDeclaration(Tokenize(RemoveComment(line))[0])
    ensures var name := Tokenize(RemoveComment(line))[0];
      (name in p.functions ==> LoadFrom(p, [line] + rest) == Err(Redeclaration(name)))
      && (name !in p.functions ==>
            LoadLine(p, line) == Ok(Program(p.lines, p.functions[name := |p.lines|]))
            && LoadFrom(p, [line] + rest) == LoadFrom(Program(p.lines, p.functions[name := |p.lines|]), rest))
      && (name !in p.functions && LoadFrom(p, [line] + rest).Ok? ==>
            name in LoadFrom(p, [line] + rest).value.functions
            && LoadFrom(p, [line] + rest).value.functions[name] == |p.lines|
            && p.lines <= LoadFrom(p, [line] + rest).value.lines)
  {
    assert ([line] + rest)[1..] == rest;
    var name := Tokenize(RemoveComment(line))[0];
    if name !in p.functions {
      var q := Program(p.lines, p.functions[name := |p.lines|]);
      assert LoadLine(p, line) == Ok(q);
      LoadExtends(q, rest);
    }
  }
}
