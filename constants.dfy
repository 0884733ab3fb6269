/** The fixed vocabulary of the emulator (ALEConstants.hpp) and the few
    std::string operations the core relies on. */
module AleConstants {

  const CommentPrefix: char := ';'
  const FuncDeclOpen: char := '<'
  const FuncDeclClose: char := '>'
  const RegisterPrefix: string := "R"
  const CurrInstrPointer: string := "PC"
  const StackPointer: string := "SP"
  const RetValue: string := "RV"
  const MemAccessOpen: char := '['
  const MemAccessClose: char := ']'
  const MemAccessPrefix: string := "M["
  const AluOperators: string := "+-*/"
  const Branches: seq<string> := ["BLT", "BLE", "BEQ", "BNE", "BGT", "BGE"]
  const Jump: string := "JUMP"
  const Call: string := "CALL"
  const Return: string := "RET"
  const AllDelims: string := "+-*/=, "
  const IgnoreDelims: string := ", "

  const IntMax: int := 0x7fff_ffff
  const IntMin: int := -0x8000_0000
  /** Initial value of SP, and the exclusive upper bound of valid addresses. */
  const SPInitValue: int := IntMax - 3

  predicate InInt32(x: int) {
    IntMin <= x <= IntMax
  }

  predicate IsDigit(c: char) {
    '0' <= c <= '9'
  }

  /** std::string::operator[]: position size() yields the terminating '\0'. */
  function CharAt(s: string, k: int): char {
    if 0 <= k < |s| then s[k] else '\0'
  }

  /** pat occurs in s at position j. */
  predicate MatchAt(s: string, pat: string, j: int) {
    0 <= j && j + |pat| <= |s| && s[j..j + |pat|] == pat
  }

  /** std::string::find(pat, start): the first index at or after start where pat
      occurs, or -1 (npos, which the source compares against -1). */
  function FindFrom(s: string, pat: string, start: nat): (r: int)
    decreases |s| - start
    ensures r == -1 || (start <= r && MatchAt(s, pat, r))
    ensures r == -1 ==> forall j :: start <= j ==> !MatchAt(s, pat, j)
    ensures r != -1 ==> forall j :: start <= j < r ==> !MatchAt(s, pat, j)
  {
    if start + |pat| > |s| then -1
    else if s[start..start + |pat|] == pat then start
    else FindFrom(s, pat, start + 1)
  }

  function Find(s: string, pat: string): int {
    FindFrom(s, pat, 0)
  }

  predicate Includes(s: string, pat: string) {
    Find(s, pat) != -1
  }

  /** The first character of a found pattern sits at the position found. */
  lemma FindHead(s: string, pat: string)
    requires |pat| > 0 && Find(s, pat) != -1
    ensures 0 <= Find(s, pat) < |s| && s[Find(s, pat)] == pat[0]
  {
    var r := Find(s, pat);
    assert s[r..r + |pat|][0] == pat[0];
  }

  /** Searching for one character: npos exactly when it does not occur, and
      otherwise the position of its first occurrence. */
  lemma FindChar(s: string, c: char)
    ensures Find(s, [c]) == -1 <==> c !in s
    ensures Find(s, [c]) != -1 ==> 0 <= Find(s, [c]) < |s| && s[Find(s, [c])] == c && c !in s[..Find(s, [c])]
  {
    forall j | 0 <= j < |s|
      ensures MatchAt(s, [c], j) <==> s[j] == c
    {
      assert s[j..j + 1] == [s[j]];
    }
  }

  /** Pinning down the result of a one-character search. */
  lemma FindCharAt(s: string, c: char, r: int)
    requires (r == -1 && c !in s) || (0 <= r < |s| && s[r] == c && c !in s[..r])
    ensures Find(s, [c]) == r
  {
    FindChar(s, c);
    var f := Find(s, [c]);
    if r != -1 {
      assert forall k :: 0 <= k < r ==> s[..r][k] == s[k];
      assert forall k :: 0 <= k < f ==> s[..f][k] == s[k];
    }
  }

  /** A pattern whose first character does not occur from start on is not
      found from start on. */
  lemma FindFromMissing(s: string, pat: string, start: nat)
    requires |pat| > 0 && start <= |s| && pat[0] !in s[start..]
    ensures FindFrom(s, pat, start) == -1
  {
    forall j | start <= j
      ensures !MatchAt(s, pat, j)
    {
      if j < |s| {
        assert s[start..][j - start] == s[j];
        if j + |pat| <= |s| {
          assert s[j..j + |pat|][0] == s[j];
        }
      }
    }
  }

  /** A pattern found at r whose first character does not occur before r. */
  lemma FindFirstAt(s: string, pat: string, r: int)
    requires |pat| > 0 && MatchAt(s, pat, r) && pat[0] !in s[..r]
    ensures Find(s, pat) == r
  {
    forall j | 0 <= j < r
      ensures !MatchAt(s, pat, j)
    {
      assert s[..r][j] == s[j];
      if j + |pat| <= |s| {
        assert s[j..j + |pat|][0] == s[j];
      }
    }
  }
}
