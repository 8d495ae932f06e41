/** The newer compiler as the source writes it (src/regex/parser.rs:39-330): a
    `Parser` object that consumes its pattern character by character, hands out group
    numbers from a counter and a stack, and builds the code in loops. Every method is
    proved to compute the pure function of the same name in module ParserSpec. */
module RegexParser {
  import opened Wrappers
  import opened CharKinds
  import opened Ir
  import opened Emit
  import opened ParserSpec

  class Parser {
    /** The unread rest of the pattern (the `Peekable<Chars>`). */
    var chars: seq<char>
    /** The code `compile` returns, built at the very end. */
    var instrs: seq<Inst>
    /** Numbers of the groups opened and not yet closed, innermost last. */
    var numStack: seq<nat>
    var nextGroupNum: nat

    function State(): PState
      reads this
    {
      PState(chars, numStack, nextGroupNum)
    }

    /** `Parser::new`. */
    constructor (pattern: seq<char>)
      ensures State() == Init(pattern) && instrs == []
    {
      chars := pattern;
      instrs := [];
      numStack := [];
      nextGroupNum := 1;
    }

    /** `next_group_num`: hands out the next number and pushes it as the innermost open group. */
    method NextGroupNum() returns (num: nat)
      modifies this
      ensures num == old(nextGroupNum) && nextGroupNum == num + 1
      ensures numStack == old(numStack) + [num]
      ensures chars == old(chars) && instrs == old(instrs)
    {
      num := nextGroupNum;
      nextGroupNum := nextGroupNum + 1;
      numStack := numStack + [num];
    }

    /** `current_group_num`: pops the innermost open group, or fails on an empty stack. */
    method CurrentGroupNum() returns (r: Result<nat, ParseError>)
      modifies this
      ensures old(numStack) == [] ==> r == Err(GroupNumMissError) && numStack == []
      ensures old(numStack) != [] ==>
                r == Ok(old(numStack)[|old(numStack)| - 1]) && numStack == old(numStack)[..|old(numStack)| - 1]
      ensures chars == old(chars) && nextGroupNum == old(nextGroupNum) && instrs == old(instrs)
    {
      if numStack != [] {
        r := Ok(numStack[|numStack| - 1]);
        numStack := numStack[..|numStack| - 1];
      } else {
        r := Err(GroupNumMissError);
      }
    }

    /** `compile`: the expression's code, appended to `instrs`, then Match. */
    method Compile() returns (r: Result<seq<Inst>, ParseError>)
      modifies this
      ensures ParserSpec.ParseExpr(old(State())).0.Err? ==> r == Err(ParserSpec.ParseExpr(old(State())).0.error)
      ensures ParserSpec.ParseExpr(old(State())).0.Ok? ==> r == Ok(old(instrs) + ParserSpec.ParseExpr(old(State())).0.value + [Match])
    {
      var e := ParseExpr();
      if e.Err? {
        return Err(e.error);
      }
      instrs := instrs + e.value;
      instrs := instrs + [Match];
      return Ok(instrs);
    }

    /** `parse_expr`: terms until the pattern is used up. */
    method ParseExpr() returns (r: Result<seq<Inst>, ParseError>)
      modifies this
      ensures r == ParserSpec.ParseExpr(old(State())).0
      ensures r.Ok? ==> State() == ParserSpec.ParseExpr(old(State())).1
      ensures instrs == old(instrs)
    {
      ghost var start := State();
      var acc: seq<Inst> := [];
      PrependNothing(ParserSpec.ParseExpr(start));
      while chars != []
        invariant Prepend(acc, ParserSpec.ParseExpr(State())) == ParserSpec.ParseExpr(start)
        invariant instrs == old(instrs)
        decreases |chars|
      {
        ghost var before := State();
        ExprStep(before);
        var t := ParseTerm();
        if t.Err? {
          return Err(t.error);
        }
        ghost var rest := ParserSpec.ParseExpr(State());
        assert ParserSpec.ParseExpr(before) == Prepend(t.value, rest);
        PrependTwice(acc, t.value, rest);
        acc := acc + t.value;
        assert Prepend(acc, rest) == ParserSpec.ParseExpr(start);
      }
      assert ParserSpec.ParseExpr(State()) == (Ok([]), State());
      assert acc + [] == acc;
      return Ok(acc);
    }

    /** `parse_term`: a group or an atom, then its quantifier. */
    method ParseTerm() returns (r: Result<seq<Inst>, ParseError>)
      modifies this
      decreases |chars|, 0
      ensures r == ParserSpec.ParseTerm(old(State())).0
      ensures r.Ok? ==> State() == ParserSpec.ParseTerm(old(State())).1
      ensures instrs == old(instrs)
    {
      var block: seq<Inst>;
      if chars != [] && chars[0] == '(' {
        chars := chars[1..];
        var num := NextGroupNum();
        assert (old(numStack) + [num])[..|old(numStack)|] == old(numStack);
        var g := ParseGroup(num);
        if g.Err? {
          return Err(g.error);
        }
        block := g.value;
      } else {
        var a := ParseAtom();
        if a.Err? {
          return Err(a.error);
        }
        block := a.value;
      }
      r := ApplyQuantifier(block);
    }

    /** The loop of `parse_term` for a group after its `(` (src/regex/parser.rs:92-134). */
    method ParseGroup(num: nat) returns (r: Result<seq<Inst>, ParseError>)
      requires |numStack| > 0 && numStack[|numStack| - 1] == num
      requires num < nextGroupNum
      modifies this
      decreases |chars|, 1
      ensures r == GroupLoop(old(State()), num, [], [], false).0
      ensures r.Ok? ==> State() == GroupLoop(old(State()), num, [], [], false).1
      ensures instrs == old(instrs)
    {
      ghost var start := State();
      var realSplit := false;
      var branch1: seq<Inst> := [];
      var branch2: seq<Inst> := [];
      while true
        invariant |numStack| > 0 && numStack[|numStack| - 1] == num && num < nextGroupNum
        invariant Block(branch1, num + 1, nextGroupNum) && Block(branch2, num + 1, nextGroupNum)
        invariant GroupLoop(State(), num, branch1, branch2, realSplit) == GroupLoop(start, num, [], [], false)
        invariant |chars| <= |start.chars|
        invariant instrs == old(instrs)
        decreases |chars|
      {
        if chars == [] {
          return Err(UnclosedGroup);
        } else if chars[0] == '|' {
          chars := chars[1..];
          realSplit := true;
        } else if chars[0] == ')' {
          r := CloseGroupCode(num, branch1, branch2, realSplit);
          return;
        } else {
          ghost var before := State();
          var res := ParseTerm();
          if res.Err? {
            return Err(res.error);
          }
          AppendTermBlock(branch1, branch2, res.value, num, before.nextGroupNum, nextGroupNum);
          if realSplit {
            branch2 := branch2 + res.value;
          } else {
            branch1 := branch1 + res.value;
          }
        }
      }
    }

    /** The `)` arm of the group loop: the branches, joined by a split after a `|`,
        between the group's markers; the closing number is the one popped off the
        stack, and an empty stack is GroupNumMissError. */
    method CloseGroupCode(num: nat, branch1: seq<Inst>, branch2: seq<Inst>, realSplit: bool) returns (r: Result<seq<Inst>, ParseError>)
      requires |numStack| > 0 && numStack[|numStack| - 1] == num && num < nextGroupNum
      requires Block(branch1, num + 1, nextGroupNum) && Block(branch2, num + 1, nextGroupNum)
      requires chars != [] && chars[0] == ')'
      modifies this
      ensures (r, State()) == GroupLoop(old(State()), num, branch1, branch2, realSplit)
      ensures instrs == old(instrs)
    {
      chars := chars[1..];
      var groupInstrs := [GroupBegin(num)];
      if realSplit {
        var jump := EmitJumpForward(branch2);
        var withJump := branch1 + [jump];
        var splitCode := EmitSplitCode(withJump, branch2);
        groupInstrs := groupInstrs + splitCode;
      } else {
        groupInstrs := groupInstrs + branch1;
      }
      var n := CurrentGroupNum();
      if n.Err? {
        assert false;
        return Err(GroupNumMissError);
      }
      groupInstrs := groupInstrs + [GroupEnd(n.value)];
      r := Ok(groupInstrs);
    }

    method ParseAtom() returns (r: Result<seq<Inst>, ParseError>)
      modifies this
      ensures r == ParserSpec.ParseAtom(old(State())).0
      ensures r.Ok? ==> State() == ParserSpec.ParseAtom(old(State())).1
      ensures instrs == old(instrs) && numStack == old(numStack) && nextGroupNum == old(nextGroupNum)
    {
      if chars == [] {
        return Err(Unimplemented);
      }
      var c := chars[0];
      chars := chars[1..];
      if c == '.' {
        r := Ok([AnyChar]);
      } else if IsLiteral(c) {
        r := Ok([Char(c)]);
      } else if c == '\\' {
        if chars == [] {
          return Err(IncompletedEscape);
        }
        var e := chars[0];
        chars := chars[1..];
        if e == 'd' {
          r := Ok([Digit]);
        } else if e == 'w' {
          r := Ok([MetaChar]);
        } else if e == '\\' {
          r := Ok([Char('\\')]);
        } else if '1' <= e <= '9' {
          r := Ok([Ref(e as int - '0' as int)]);
        } else {
          r := Err(UnknownEscape(e));
        }
      } else if c == '[' {
        r := ParseClass();
      } else if c == '^' {
        r := Ok([Start]);
      } else if c == '$' {
        if chars != [] {
          return Err(MisplacedAnchor);
        }
        r := Ok([End]);
      } else {
        r := Err(Unimplemented);
      }
    }

    /** The bracket class of `parse_atom` after its `[` (src/regex/parser.rs:270-314). */
    method ParseClass() returns (r: Result<seq<Inst>, ParseError>)
      modifies this
      ensures var negated := old(chars) != [] && old(chars)[0] == '^';
              var cl := ClassLoop(if negated then old(chars)[1..] else old(chars), {});
              && (cl.0.Err? ==> r == Err(cl.0.error))
              && (cl.0.Ok? ==> r == Ok([CharClass(negated, cl.0.value)]) && chars == cl.1)
      ensures instrs == old(instrs) && numStack == old(numStack) && nextGroupNum == old(nextGroupNum)
    {
      var members: set<char> := {};
      var negated := false;
      if chars != [] && chars[0] == '^' {
        negated := true;
        chars := chars[1..];
      }
      ghost var body := chars;
      while true
        invariant ClassLoop(chars, members) == ClassLoop(body, {})
        invariant instrs == old(instrs) && numStack == old(numStack) && nextGroupNum == old(nextGroupNum)
        decreases |chars|
      {
        if chars == [] {
          return Err(UnclosedCharClass);
        }
        var ch := chars[0];
        chars := chars[1..];
        if ch == ']' {
          return Ok([CharClass(negated, members)]);
        } else if ch == '\\' {
          if chars == [] {
            return Err(IncompletedEscape);
          }
          var e := chars[0];
          chars := chars[1..];
          if e == 'd' {
            members := members + DigitSet();
          } else if e == 'w' {
            members := members + AsciiWordSet();
          } else {
            return Err(UnknownEscape(e));
          }
        } else if IsAsciiAlnum(ch) {
          if chars == [] || chars[0] != '-' {
            members := members + {ch};
          } else {
            chars := chars[1..];
            if chars != [] && IsAsciiAlnum(chars[0]) {
              var end := chars[0];
              chars := chars[1..];
              members := members + TranslateRange(ch, end);
            } else {
              members := members + {'-'};
            }
          }
        } else {
          members := members + {ch};
        }
      }
    }

    /** The `digit_buffer` loop of `{...}`: takes the run of digits and commas. */
    method ReadDigits() returns (digitBuffer: seq<char>)
      modifies this
      ensures digitBuffer == old(chars)[..DigitSpan(old(chars))] && chars == old(chars)[DigitSpan(old(chars))..]
      ensures instrs == old(instrs) && numStack == old(numStack) && nextGroupNum == old(nextGroupNum)
    {
      var cs := chars;
      var i := 0;
      digitBuffer := [];
      while i < |cs| && DigitOrComma(cs[i])
        invariant i <= |cs| && digitBuffer == cs[..i]
        invariant DigitSpan(cs) == i + DigitSpan(cs[i..])
        invariant instrs == old(instrs) && numStack == old(numStack) && nextGroupNum == old(nextGroupNum)
        decreases |cs| - i
      {
        DigitSpanStep(cs, i);
        assert cs[..i + 1] == cs[..i] + [cs[i]];
        digitBuffer := digitBuffer + [cs[i]];
        i := i + 1;
      }
      chars := cs[i..];
    }

    /** The quantifier after a term (src/regex/parser.rs:140-233). */
    method ApplyQuantifier(block: seq<Inst>) returns (r: Result<seq<Inst>, ParseError>)
      modifies this
      ensures r == Quantify(block, old(State())).0
      ensures r.Ok? ==> State() == Quantify(block, old(State())).1
      ensures instrs == old(instrs) && numStack == old(numStack) && nextGroupNum == old(nextGroupNum)
    {
      if chars == [] {
        return Ok(block);
      }
      var c := chars[0];
      if c == '*' {
        chars := chars[1..];
        r := Ok(EmitZeroOrMore(block));
      } else if c == '+' {
        chars := chars[1..];
        r := Ok(EmitOneOrMore(block));
      } else if c == '?' {
        chars := chars[1..];
        r := Ok(EmitZeroOrOne(block));
      } else if c == '{' {
        chars := chars[1..];
        ghost var s1 := chars;
        var digitBuffer := ReadDigits();
        if chars == [] || chars[0] != '}' {
          return Err(InvalidQuantifier);
        }
        chars := chars[1..];
        assert chars == s1[|digitBuffer| + 1..];
        var bounds := Bounds(digitBuffer);
        if bounds.Err? {
          return Err(bounds.error);
        }
        var min, max := bounds.value.0, bounds.value.1;
        if min > max {
          return Err(InvalidQuantifier);
        }
        var repeatBlock := BuildRepetition(block, min, max);
        r := Ok(repeatBlock);
      } else {
        r := Ok(block);
      }
    }
  }

  /** The repetition loops of `{min,max}` (src/regex/parser.rs:210-230). */
  method BuildRepetition(block: seq<Inst>, min: nat, max: nat) returns (repeatBlock: seq<Inst>)
    requires min <= max
    ensures repeatBlock == Repetition(block, min, max)
  {
    repeatBlock := [];
    for i := 0 to min
      invariant repeatBlock == Repeat(block, i)
    {
      RepeatSnoc(block, i);
      repeatBlock := repeatBlock + block;
    }
    if max == USIZE_MAX {
      repeatBlock := repeatBlock + EmitZeroOrMore(block);
    } else if max != min {
      var atMostOnce := EmitZeroOrOne(block);
      ghost var copies: seq<Inst> := [];
      for i := 0 to max - min
        invariant copies == Repeat(atMostOnce, i)
        invariant repeatBlock == Repeat(block, min) + copies
      {
        RepeatSnoc(atMostOnce, i);
        copies := copies + atMostOnce;
        repeatBlock := repeatBlock + atMostOnce;
      }
    } else {
      assert repeatBlock == Repeat(block, min) + [];
    }
  }

  lemma DigitSpanStep(s: seq<char>, i: nat)
    requires i < |s| && DigitOrComma(s[i])
    ensures DigitSpan(s[i..]) == 1 + DigitSpan(s[i + 1..])
  {
    assert s[i..][1..] == s[i + 1..];
  }
}
