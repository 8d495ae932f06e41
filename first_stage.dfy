/** The first-stage matcher `match_pattern` (src/main.rs:13-39): a handful of fixed
    pattern shapes, each answered by one pass over the input's characters. */
module FirstStage {
  import opened CharKinds

  /** `Iterator::any` over the characters of s. */
  function Any(s: seq<char>, p: char -> bool): (b: bool)
    ensures b <==> exists i :: 0 <= i < |s| && p(s[i])
    decreases |s|
  {
    if s == [] then false
    else if p(s[0]) then true
    else
      var b := Any(s[1..], p);
      assert forall i :: 1 <= i < |s| ==> s[i] == s[1..][i - 1];
      b
  }

  /** `[...]`: at least two characters, the first `[` and the last `]`. */
  predicate IsBracket(pattern: seq<char>)
  {
    |pattern| >= 2 && pattern[0] == '[' && pattern[|pattern| - 1] == ']'
  }

  /** `match_pattern(input_line, pattern)`. The bracket contents are the characters
      strictly between the brackets; for `[^...]` they still include the `^`. */
  function MatchPattern(input: seq<char>, pattern: seq<char>): (b: bool)
    ensures |pattern| == 1 ==> (b <==> pattern[0] in input)
    ensures pattern == "\\d" ==> (b <==> exists i :: 0 <= i < |input| && IsAsciiDigit(input[i]))
    ensures pattern == "\\w" ==> (b <==> exists i :: 0 <= i < |input| && IsWordChar(input[i]))
    ensures IsBracket(pattern) && pattern[1] != '^' ==>
              (b <==> exists i :: 0 <= i < |input| && input[i] in pattern[1..|pattern| - 1])
    ensures IsBracket(pattern) && pattern[1] == '^' ==>
              (b <==> exists i :: 0 <= i < |input| && input[i] !in pattern[1..|pattern| - 1])
    ensures |pattern| != 1 && pattern != "\\d" && pattern != "\\w" && !IsBracket(pattern) ==> !b
  {
    if |pattern| == 1 then Any(input, ch => ch == pattern[0])
    else if pattern == "\\d" then Any(input, ch => IsAsciiDigit(ch))
    else if pattern == "\\w" then Any(input, ch => IsAlphanumeric(ch) || ch == '_')
    else if IsBracket(pattern) then
      var group := pattern[1..|pattern| - 1];
      if pattern[1] == '^' then Any(input, ch => ch !in group)
      else Any(input, ch => ch in group)
    else false
  }

  /** The contents of `[^...]` keep the `^`, so an input made only of `^`
      characters matches no negated class, whatever it lists. */
  lemma NegatedKeepsCaret(input: seq<char>, listed: seq<char>)
    requires forall i :: 0 <= i < |input| ==> input[i] == '^'
    ensures !MatchPattern(input, ['[', '^'] + listed + [']'])
  {
    var p := ['[', '^'] + listed + [']'];
    assert p[1..|p| - 1] == ['^'] + listed;
    assert forall i :: 0 <= i < |input| ==> input[i] in p[1..|p| - 1];
  }
}
