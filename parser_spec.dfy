/** The newer compiler (src/regex/parser.rs) as pure functions over the parser's
    state. The imperative `Parser` class in module RegexParser is proved to compute
    exactly these functions. */
module ParserSpec {
  import opened Wrappers
  import opened CharKinds
  import opened Ir
  import opened Emit

  /** `usize::MAX` on a 64-bit target. */
  const USIZE_MAX: nat := 0xFFFF_FFFF_FFFF_FFFF

  /** `ParseError`, without the message strings. `Unimplemented` is no variant of the
      Rust enum: it stands for the `todo!()` panics on an unsupported character and at
      the end of the pattern (src/regex/parser.rs:322-326). */
  datatype ParseError =
    | UnknownEscape(c: char)
    | IncompletedEscape
    | UnclosedCharClass
    | UnclosedGroup
    | MisplacedAnchor
    | PatchError
    | GroupNumMissError
    | InvalidQuantifier
    | Unimplemented

  /** What a parsing step reads and writes of `Parser`: the unread rest of the pattern
      (the `Peekable<Chars>`), the stack of open group numbers and the next number. */
  datatype PState = PState(chars: seq<char>, numStack: seq<nat>, nextGroupNum: nat)

  /** `Parser::new`. */
  function Init(pattern: seq<char>): (st: PState)
    ensures st.chars == pattern && st.numStack == [] && st.nextGroupNum == 1
  {
    PState(pattern, [], 1)
  }

  /** The characters `parse_atom` turns into a literal `Char`. */
  predicate IsLiteral(c: char)
  {
    IsAsciiAlnum(c) || c in {',', '<', '>', ':', ' ', '-', '_', '"', '\''}
  }

  /** The instructions an atom can be: one that consumes or tests, never a jump, a
      split, a group marker or Match, and back-references only from `\1` on. */
  predicate AtomInst(inst: Inst)
  {
    !(inst.Jump? || inst.Split? || inst.Match? || inst.GroupBegin? || inst.GroupEnd?)
    && (inst.Ref? ==> 1 <= inst.group <= 9)
  }

  predicate IsRange(s: char, e: char)
  {
    s <= e && ((IsAsciiDigit(s) && IsAsciiDigit(e)) || (IsAsciiLower(s) && IsAsciiLower(e)) || (IsAsciiUpper(s) && IsAsciiUpper(e)))
  }

  /** `translate_range(s, e)`: the range s..=e when it is a real range of digits, of
      lower-case or of upper-case letters; otherwise the three characters s, '-', e. */
  function TranslateRange(s: char, e: char): (r: set<char>)
    ensures IsRange(s, e) ==> forall c :: c in r <==> s <= c <= e
    ensures !IsRange(s, e) ==> r == {s, '-', e}
  {
    if IsRange(s, e) then CharRange(s, e) else {s, '-', e}
  }

  /** Both ends of a translated range are in it. */
  lemma TranslateRangeEnds(s: char, e: char)
    ensures s in TranslateRange(s, e) && e in TranslateRange(s, e)
  {
  }

  /** The body of a bracket class after `[` and the optional `^`
      (src/regex/parser.rs:277-313): adds to `acc` until `]`, and returns the set and
      the characters after the `]`. */
  function ClassLoop(cs: seq<char>, acc: set<char>): (r: (Result<set<char>, ParseError>, seq<char>))
    decreases |cs|
    ensures |r.1| < |cs| || (r.0.Err? && r.1 == cs == [])
    ensures r.0.Ok? ==> acc <= r.0.value
    ensures r.0.Err? ==> r.0.error.UnknownEscape? || r.0.error == IncompletedEscape || r.0.error == UnclosedCharClass
    ensures (forall i :: 0 <= i < |cs| ==> cs[i] != ']') ==> r.0.Err?
    ensures (forall i :: 0 <= i < |cs| ==> cs[i] != ']' && cs[i] != '\\') ==> r.0 == Err(UnclosedCharClass)
  {
    if cs == [] then (Err(UnclosedCharClass), cs)
    else
      var c, rest := cs[0], cs[1..];
      if c == ']' then (Ok(acc), rest)
      else if c == '\\' then
        if rest == [] then (Err(IncompletedEscape), rest)
        else if rest[0] == 'd' then ClassLoop(rest[1..], acc + DigitSet())
        else if rest[0] == 'w' then ClassLoop(rest[1..], acc + AsciiWordSet())
        else (Err(UnknownEscape(rest[0])), rest[1..])
      else if IsAsciiAlnum(c) then
        if rest == [] || rest[0] != '-' then ClassLoop(rest, acc + {c})
        else if |rest| >= 2 && IsAsciiAlnum(rest[1]) then ClassLoop(rest[2..], acc + TranslateRange(c, rest[1]))
        // `x-` before anything else keeps only the '-'
        else ClassLoop(rest[1..], acc + {'-'})
      else ClassLoop(rest, acc + {c})
  }

  /** `parse_atom`: one atom, as a one-instruction block. */
  function ParseAtom(st: PState): (r: (Result<seq<Inst>, ParseError>, PState))
    ensures r.1.numStack == st.numStack && r.1.nextGroupNum == st.nextGroupNum
    ensures r.0.Ok? ==> |r.1.chars| < |st.chars|
    ensures r.0.Ok? ==> |r.0.value| == 1 && AtomInst(r.0.value[0])
    ensures r.0.Err? ==> r.0.error in {IncompletedEscape, UnclosedCharClass, MisplacedAnchor, Unimplemented} || r.0.error.UnknownEscape?
    ensures st.chars != [] && IsLiteral(st.chars[0]) ==> r == (Ok([Char(st.chars[0])]), st.(chars := st.chars[1..]))
    ensures st.chars == [] ==> r.0 == Err(Unimplemented)
    ensures st.chars != [] && st.chars[0] == '.' ==> r == (Ok([AnyChar]), st.(chars := st.chars[1..]))
    ensures st.chars != [] && st.chars[0] == '^' ==> r == (Ok([Start]), st.(chars := st.chars[1..]))
    ensures st.chars == ['$'] ==> r == (Ok([End]), st.(chars := []))
    ensures |st.chars| >= 2 && st.chars[0] == '$' ==> r.0 == Err(MisplacedAnchor)
    ensures st.chars == ['\\'] ==> r.0 == Err(IncompletedEscape)
    ensures |st.chars| >= 2 && st.chars[0] == '\\' ==> r.1.chars == st.chars[2..]
    ensures |st.chars| >= 2 && st.chars[0] == '\\' ==>
              var e := st.chars[1];
              && (e == 'd' ==> r.0 == Ok([Digit]))
              && (e == 'w' ==> r.0 == Ok([MetaChar]))
              && (e == '\\' ==> r.0 == Ok([Char('\\')]))
              && ('1' <= e <= '9' ==> r.0 == Ok([Ref(e as int - '0' as int)]))
              && (e !in {'d', 'w', '\\'} && !('1' <= e <= '9') ==> r.0 == Err(UnknownEscape(e)))
    ensures st.chars != [] && !IsLiteral(st.chars[0]) && st.chars[0] !in {'.', '\\', '[', '^', '$'} ==> r.0 == Err(Unimplemented)
    ensures st.chars != [] && st.chars[0] == '[' ==>
              var negated := |st.chars| > 1 && st.chars[1] == '^';
              var cl := ClassLoop(st.chars[if negated then 2 else 1..], {});
              r == (if cl.0.Ok? then Ok([CharClass(negated, cl.0.value)]) else Err(cl.0.error), st.(chars := cl.1))
  {
    if st.chars == [] then (Err(Unimplemented), st)
    else
      var c := st.chars[0];
      var st1 := st.(chars := st.chars[1..]);
      if c == '.' then (Ok([AnyChar]), st1)
      else if IsLiteral(c) then (Ok([Char(c)]), st1)
      else if c == '\\' then
        if st1.chars == [] then (Err(IncompletedEscape), st1)
        else
          var e := st1.chars[0];
          var st2 := st1.(chars := st1.chars[1..]);
          if e == 'd' then (Ok([Digit]), st2)
          else if e == 'w' then (Ok([MetaChar]), st2)
          else if e == '\\' then (Ok([Char('\\')]), st2)
          else if '1' <= e <= '9' then (Ok([Ref(e as int - '0' as int)]), st2)
          else (Err(UnknownEscape(e)), st2)
      else if c == '[' then
        var negated := st1.chars != [] && st1.chars[0] == '^';
        var body := if negated then st1.chars[1..] else st1.chars;
        var cl := ClassLoop(body, {});
        match cl.0
        case Ok(chars) => (Ok([CharClass(negated, chars)]), st.(chars := cl.1))
        case Err(e) => (Err(e), st.(chars := cl.1))
      else if c == '^' then (Ok([Start]), st1)
      else if c == '$' then
        if st1.chars != [] then (Err(MisplacedAnchor), st1) else (Ok([End]), st1)
      else (Err(Unimplemented), st1)
  }

  // ---------------------------------------------------------------------------
  // Counted repetition `{...}`

  predicate DigitOrComma(c: char) { IsAsciiDigit(c) || c == ',' }

  /** Length of the run of digits and commas `{` collects into `digit_buffer`. */
  function DigitSpan(s: seq<char>): (k: nat)
    ensures k <= |s|
    ensures forall i :: 0 <= i < k ==> DigitOrComma(s[i])
    ensures k < |s| ==> !DigitOrComma(s[k])
  {
    if s != [] && DigitOrComma(s[0]) then 1 + DigitSpan(s[1..]) else 0
  }

  /** `str::split(sep)`: the pieces between separators, at least one. */
  function SplitOn(s: seq<char>, sep: char): (r: seq<seq<char>>)
    ensures |r| >= 1
    ensures forall k :: 0 <= k < |r| ==> sep !in r[k]
    ensures sep !in s ==> r == [s]
  {
    if s == [] then [[]]
    else if s[0] == sep then [[]] + SplitOn(s[1..], sep)
    else
      var t := SplitOn(s[1..], sep);
      assert s == [s[0]] + s[1..];
      [[s[0]] + t[0]] + t[1..]
  }

  /** The pieces joined back with the separator between them. */
  function Join(pieces: seq<seq<char>>, sep: char): seq<char>
    requires |pieces| >= 1
  {
    if |pieces| == 1 then pieces[0] else pieces[0] + [sep] + Join(pieces[1..], sep)
  }

  /** Splitting loses nothing: joining the pieces gives the text back. */
  lemma {:induction false} SplitJoin(s: seq<char>, sep: char)
    ensures Join(SplitOn(s, sep), sep) == s
  {
    if s != [] {
      SplitJoin(s[1..], sep);
      var t := SplitOn(s[1..], sep);
      if s[0] == sep {
        assert ([[]] + t)[1..] == t;
      } else {
        var r := [[s[0]] + t[0]] + t[1..];
        if |t| > 1 {
          assert r[1..] == t[1..];
          assert Join(t, sep) == t[0] + [sep] + Join(t[1..], sep);
        }
      }
    }
  }

  predicate AllDigits(d: seq<char>)
  {
    forall i :: 0 <= i < |d| ==> IsAsciiDigit(d[i])
  }

  /** The number a string of decimal digits denotes. */
  function DecimalValue(d: seq<char>): nat
    requires AllDigits(d)
  {
    if d == [] then 0 else 10 * DecimalValue(d[..|d| - 1]) + (d[|d| - 1] as int - '0' as int)
  }

  /** `str::parse::<usize>` on the pieces `{...}` yields, which hold no sign and no
      comma: a non-empty string of digits whose value fits in a usize. */
  function ParseUsize(d: seq<char>): (r: Option<nat>)
    ensures r.Some? <==> d != [] && AllDigits(d) && DecimalValue(d) <= USIZE_MAX
    ensures r.Some? ==> r.value == DecimalValue(d)
  {
    if d != [] && AllDigits(d) && DecimalValue(d) <= USIZE_MAX then Some(DecimalValue(d)) else None
  }

  /** The bounds read from the text between `{` and `}` (src/regex/parser.rs:165-202):
      `m` gives (m, m), `m,` gives (m, usize::MAX), `m,n` (and `m,n,...`) gives (m, n).
      `split` yields at least one piece, so the source's "no first piece" error
      cannot arise. */
  function Bounds(text: seq<char>): (r: Result<(nat, nat), ParseError>)
    ensures r.Ok? ==> r.value.0 <= USIZE_MAX && r.value.1 <= USIZE_MAX
    ensures r.Err? ==> r.error == InvalidQuantifier
    ensures r.Ok? <==> ParseUsize(SplitOn(text, ',')[0]).Some?
                       && (|SplitOn(text, ',')| == 1 || SplitOn(text, ',')[1] == [] || ParseUsize(SplitOn(text, ',')[1]).Some?)
  {
    var pieces := SplitOn(text, ',');
    match ParseUsize(pieces[0])
    case None => Err(InvalidQuantifier)
    case Some(min) =>
      if |pieces| == 1 then Ok((min, min))
      else if pieces[1] == [] then Ok((min, USIZE_MAX))
      else
        match ParseUsize(pieces[1])
        case None => Err(InvalidQuantifier)
        case Some(max) => Ok((min, max))
  }

  /** The code for `X{min,max}` (src/regex/parser.rs:210-230): min copies of X, then
      `X*` when max is usize::MAX, else max - min copies of `X?`. */
  function Repetition(block: seq<Inst>, min: nat, max: nat): seq<Inst>
    requires min <= max
  {
    Repeat(block, min)
    + if max == USIZE_MAX then EmitZeroOrMore(block)
      else if max != min then Repeat(EmitZeroOrOne(block), max - min)
      else []
  }

  /** The quantifier after a term (src/regex/parser.rs:140-233): `*`, `+`, `?` or
      `{...}` rewrites the block; anything else leaves it as it is. */
  function Quantify(block: seq<Inst>, st: PState): (r: (Result<seq<Inst>, ParseError>, PState))
    ensures r.1.numStack == st.numStack && r.1.nextGroupNum == st.nextGroupNum && |r.1.chars| <= |st.chars|
    ensures r.0.Err? ==> r.0.error == InvalidQuantifier
    ensures (st.chars == [] || st.chars[0] !in {'*', '+', '?', '{'}) ==> r == (Ok(block), st)
  {
    if st.chars == [] then (Ok(block), st)
    else
      var c := st.chars[0];
      var st1 := st.(chars := st.chars[1..]);
      if c == '*' then (Ok(EmitZeroOrMore(block)), st1)
      else if c == '+' then (Ok(EmitOneOrMore(block)), st1)
      else if c == '?' then (Ok(EmitZeroOrOne(block)), st1)
      else if c == '{' then
        var k := DigitSpan(st1.chars);
        if k == |st1.chars| || st1.chars[k] != '}' then (Err(InvalidQuantifier), st1.(chars := st1.chars[k..]))
        else
          var st2 := st1.(chars := st1.chars[k + 1..]);
          match Bounds(st1.chars[..k])
          case Err(e) => (Err(e), st2)
          case Ok(bounds) =>
            if bounds.0 > bounds.1 then (Err(InvalidQuantifier), st2)
            else (Ok(Repetition(block, bounds.0, bounds.1)), st2)
      else (Ok(block), st)
  }

  /** `X{min,max}` starts with min copies of X, and `X{n}` is exactly n copies. */
  lemma RepetitionPrefix(block: seq<Inst>, min: nat, max: nat)
    requires min <= max
    ensures var r := Repetition(block, min, max);
            |Repeat(block, min)| <= |r| && r[..|Repeat(block, min)|] == Repeat(block, min)
    ensures min == max < USIZE_MAX ==> Repetition(block, min, max) == Repeat(block, min)
  {
    assert Repeat(block, min) + [] == Repeat(block, min);
  }

  /** The size of `X{min,max}`: min copies, then either the three-part loop or one
      Split more than X per optional copy. */
  lemma RepetitionLength(block: seq<Inst>, min: nat, max: nat)
    requires min <= max
    ensures |Repetition(block, min, max)|
            == min * |block| + if max == USIZE_MAX then |block| + 2 else (max - min) * (|block| + 1)
  {
    RepeatLength(block, min);
    RepeatLength(EmitZeroOrOne(block), max - min);
  }

  lemma BlockRepetition(block: seq<Inst>, min: nat, max: nat, lo: int, hi: int)
    requires min <= max
    requires Block(block, lo, hi)
    ensures Block(Repetition(block, min, max), lo, hi)
  {
    BlockRepeat(block, min, lo, hi);
    BlockZeroOrMore(block, lo, hi);
    BlockZeroOrOne(block, lo, hi);
    BlockRepeat(EmitZeroOrOne(block), max - min, lo, hi);
    BlockConcat(Repeat(block, min), EmitZeroOrMore(block), lo, hi);
    BlockConcat(Repeat(block, min), Repeat(EmitZeroOrOne(block), max - min), lo, hi);
    assert Repeat(block, min) + [] == Repeat(block, min);
  }

  /** Every quantifier keeps a block a block. */
  lemma QuantifyBlock(block: seq<Inst>, st: PState, lo: int, hi: int)
    requires Block(block, lo, hi)
    ensures Quantify(block, st).0.Ok? ==> Block(Quantify(block, st).0.value, lo, hi)
  {
    BlockZeroOrMore(block, lo, hi);
    BlockOneOrMore(block, lo, hi);
    BlockZeroOrOne(block, lo, hi);
    if st.chars != [] && st.chars[0] == '{' {
      var s := st.chars[1..];
      var k := DigitSpan(s);
      if k < |s| && s[k] == '}' && Bounds(s[..k]).Ok? {
        var b := Bounds(s[..k]).value;
        if b.0 <= b.1 {
          BlockRepetition(block, b.0, b.1, lo, hi);
        }
      }
    }
  }

  // ---------------------------------------------------------------------------
  // Terms, groups and expressions

  /** `parse_term`: a group or an atom, then its quantifier. On success it consumes
      input, leaves the group stack as it found it, and returns a block whose group
      numbers were all handed out during the call. */
  function ParseTerm(st: PState): (r: (Result<seq<Inst>, ParseError>, PState))
    decreases |st.chars|, 0
    ensures r.0.Ok? ==> |r.1.chars| < |st.chars| && r.1.numStack == st.numStack && st.nextGroupNum <= r.1.nextGroupNum
    ensures r.0.Ok? ==> Block(r.0.value, st.nextGroupNum, r.1.nextGroupNum)
    ensures r.0.Err? ==> r.0.error != GroupNumMissError && r.0.error != PatchError
  {
    if st.chars != [] && st.chars[0] == '(' then
      // `next_group_num`: hand out the next number and push it
      var num := st.nextGroupNum;
      var st1 := PState(st.chars[1..], st.numStack + [num], num + 1);
      assert (st.numStack + [num])[..|st.numStack|] == st.numStack;
      var g := GroupLoop(st1, num, [], [], false);
      if g.0.Err? then g
      else
        QuantifyBlock(g.0.value, g.1, num, g.1.nextGroupNum);
        Quantify(g.0.value, g.1)
    else
      var a := ParseAtom(st);
      if a.0.Err? then a
      else
        assert a.0.value == [a.0.value[0]];
        BlockAtom(a.0.value[0], st.nextGroupNum, st.nextGroupNum);
        QuantifyBlock(a.0.value, a.1, st.nextGroupNum, st.nextGroupNum);
        Quantify(a.0.value, a.1)
  }

  /** What a group's loop promises on success: it consumed input, popped its own
      number off the stack, and returned a block opened by GroupBegin(num) and closed
      by GroupEnd(num) whose group numbers run from num up to the next free one. */
  predicate GroupResult(st: PState, num: nat, r: (Result<seq<Inst>, ParseError>, PState))
    requires |st.numStack| > 0
  {
    && (r.0.Ok? ==> |r.1.chars| < |st.chars| && r.1.numStack == st.numStack[..|st.numStack| - 1])
    && (r.0.Ok? ==> st.nextGroupNum <= r.1.nextGroupNum && Block(r.0.value, num, r.1.nextGroupNum))
    && (r.0.Ok? ==> |r.0.value| >= 2 && r.0.value[0] == GroupBegin(num) && r.0.value[|r.0.value| - 1] == GroupEnd(num))
    && (r.0.Err? ==> r.0.error != GroupNumMissError && r.0.error != PatchError)
  }

  /** The loop of a group `( ... )` (src/regex/parser.rs:100-132). Terms go to
      branch1 until the first `|` and to branch2 after it; `)` closes the group with
      the number `current_group_num` pops, which is the group's own `num`. */
  function GroupLoop(st: PState, num: nat, branch1: seq<Inst>, branch2: seq<Inst>, split: bool)
    : (r: (Result<seq<Inst>, ParseError>, PState))
    requires |st.numStack| > 0 && st.numStack[|st.numStack| - 1] == num
    requires num < st.nextGroupNum
    requires Block(branch1, num + 1, st.nextGroupNum) && Block(branch2, num + 1, st.nextGroupNum)
    decreases |st.chars|, 2
    ensures GroupResult(st, num, r)
  {
    if st.chars == [] then (Err(UnclosedGroup), st)
    else if st.chars[0] == '|' then GroupLoop(st.(chars := st.chars[1..]), num, branch1, branch2, true)
    else if st.chars[0] == ')' then
      // `current_group_num`: the innermost open group is this one
      var top := st.numStack[|st.numStack| - 1];
      CloseGroupBlock(num, branch1, branch2, split, st.nextGroupNum);
      (Ok(CloseGroup(num, branch1, branch2, split, top)),
       st.(chars := st.chars[1..], numStack := st.numStack[..|st.numStack| - 1]))
    else GroupTerm(st, num, branch1, branch2, split)
  }

  /** Any other character inside a group starts a term, which joins the current
      branch (src/regex/parser.rs:123-130). */
  function GroupTerm(st: PState, num: nat, branch1: seq<Inst>, branch2: seq<Inst>, split: bool)
    : (r: (Result<seq<Inst>, ParseError>, PState))
    requires |st.numStack| > 0 && st.numStack[|st.numStack| - 1] == num
    requires num < st.nextGroupNum
    requires Block(branch1, num + 1, st.nextGroupNum) && Block(branch2, num + 1, st.nextGroupNum)
    decreases |st.chars|, 1
    ensures GroupResult(st, num, r)
  {
    var t := ParseTerm(st);
    if t.0.Err? then t
    else
      AppendTermBlock(branch1, branch2, t.0.value, num, st.nextGroupNum, t.1.nextGroupNum);
      assert t.1.numStack == st.numStack && num < t.1.nextGroupNum;
      if split then GroupLoop(t.1, num, branch1, branch2 + t.0.value, true)
      else GroupLoop(t.1, num, branch1 + t.0.value, branch2, false)
  }

  /** The code `)` emits (src/regex/parser.rs:107-121): the group's markers around
      branch1, or around the alternation of both branches after a `|`. */
  function CloseGroup(num: nat, branch1: seq<Inst>, branch2: seq<Inst>, split: bool, top: nat): (r: seq<Inst>)
    ensures |r| >= 2 && r[0] == GroupBegin(num) && r[|r| - 1] == GroupEnd(top)
    ensures !split ==> r[1..|r| - 1] == branch1
    ensures split ==> r[1..|r| - 1] == EmitAlternation(branch1, branch2)
  {
    [GroupBegin(num)] + (if split then EmitAlternation(branch1, branch2) else branch1) + [GroupEnd(top)]
  }

  lemma CloseGroupBlock(num: nat, branch1: seq<Inst>, branch2: seq<Inst>, split: bool, hi: int)
    requires num < hi
    requires Block(branch1, num + 1, hi) && Block(branch2, num + 1, hi)
    ensures var g := CloseGroup(num, branch1, branch2, split, num);
            Block(g, num, hi) && |g| >= 2 && g[0] == GroupBegin(num) && g[|g| - 1] == GroupEnd(num)
  {
    BlockAlternation(branch1, branch2, num + 1, hi);
    BlockGroup(num, if split then EmitAlternation(branch1, branch2) else branch1, hi);
  }

  lemma AppendTermBlock(branch1: seq<Inst>, branch2: seq<Inst>, term: seq<Inst>, num: nat, mid: int, hi: int)
    requires num < mid <= hi
    requires Block(branch1, num + 1, mid) && Block(branch2, num + 1, mid) && Block(term, mid, hi)
    ensures Block(branch1 + term, num + 1, hi) && Block(branch2 + term, num + 1, hi)
    ensures Block(branch1, num + 1, hi) && Block(branch2, num + 1, hi)
  {
    BlockWiden(term, mid, hi, num + 1, hi);
    BlockWiden(branch1, num + 1, mid, num + 1, hi);
    BlockWiden(branch2, num + 1, mid, num + 1, hi);
    BlockConcat(branch1, term, num + 1, hi);
    BlockConcat(branch2, term, num + 1, hi);
  }

  /** `parse_expr`: terms until the pattern is used up, concatenated. */
  function ParseExpr(st: PState): (r: (Result<seq<Inst>, ParseError>, PState))
    decreases |st.chars|
    ensures r.0.Ok? ==> r.1.chars == [] && r.1.numStack == st.numStack && st.nextGroupNum <= r.1.nextGroupNum
    ensures r.0.Ok? ==> Block(r.0.value, st.nextGroupNum, r.1.nextGroupNum)
    ensures r.0.Err? ==> r.0.error != GroupNumMissError && r.0.error != PatchError
  {
    if st.chars == [] then (Ok([]), st)
    else
      var t := ParseTerm(st);
      if t.0.Err? then t
      else
        var e := ParseExpr(t.1);
        if e.0.Err? then e
        else
          BlockWiden(t.0.value, st.nextGroupNum, t.1.nextGroupNum, st.nextGroupNum, e.1.nextGroupNum);
          BlockWiden(e.0.value, t.1.nextGroupNum, e.1.nextGroupNum, st.nextGroupNum, e.1.nextGroupNum);
          BlockConcat(t.0.value, e.0.value, st.nextGroupNum, e.1.nextGroupNum);
          (Ok(t.0.value + e.0.value), e.1)
  }

  /** One step of `parse_expr`: a successful term, then the rest of the expression. */
  lemma ExprStep(st: PState)
    requires st.chars != []
    ensures ParseTerm(st).0.Err? ==> ParseExpr(st) == ParseTerm(st)
    ensures ParseTerm(st).0.Ok? ==> ParseExpr(st) == Prepend(ParseTerm(st).0.value, ParseExpr(ParseTerm(st).1))
  {
  }

  /** The code of the terms read so far in front of what the rest of the pattern parses to. */
  function Prepend(acc: seq<Inst>, rest: (Result<seq<Inst>, ParseError>, PState)): (Result<seq<Inst>, ParseError>, PState)
  {
    if rest.0.Err? then rest else (Ok(acc + rest.0.value), rest.1)
  }

  lemma PrependNothing(rest: (Result<seq<Inst>, ParseError>, PState))
    ensures Prepend([], rest) == rest
  {
    if rest.0.Ok? {
      assert [] + rest.0.value == rest.0.value;
    }
  }

  lemma PrependTwice(acc: seq<Inst>, term: seq<Inst>, rest: (Result<seq<Inst>, ParseError>, PState))
    ensures Prepend(acc, Prepend(term, rest)) == Prepend(acc + term, rest)
  {
    if rest.0.Ok? {
      assert acc + (term + rest.0.value) == acc + term + rest.0.value;
    }
  }

  /** What every compiled program satisfies: a single Match, at the end; every
      Split/Jump lands on an instruction of the program; group markers are paired and
      well nested; group markers and back-references use numbers from 1 on. */
  predicate WellFormed(prog: seq<Inst>)
  {
    && |prog| >= 1
    && prog[|prog| - 1] == Match
    && MatchFree(prog[..|prog| - 1])
    && ClosedIn(prog, 0, 0, |prog| - 1)
    && Balanced(prog)
    && (forall i :: 0 <= i < |prog| && (prog[i].GroupBegin? || prog[i].GroupEnd? || prog[i].Ref?) ==> prog[i].group >= 1)
  }

  /** A block of groups numbered from 1 on, closed by Match, is a well-formed program. */
  lemma ProgramWellFormed(b: seq<Inst>, hi: int)
    requires Block(b, 1, hi)
    ensures WellFormed(b + [Match])
  {
    var prog := b + [Match];
    assert prog[..|b|] == b;
    assert Scan(prog, []) == Some([]) by {
      ScanConcat(b, [Match], []);
      assert [Match][1..] == [];
    }
    forall i | 0 <= i < |prog| ensures TargetOk(prog[i], i, 0, |prog| - 1) {
      if i < |b| {
        assert TargetOk(b[i], i, 0, |b|);
      }
    }
  }

  /** `Parser::new(pattern).compile()`: the expression's code followed by Match. */
  function Compile(pattern: seq<char>): (r: Result<seq<Inst>, ParseError>)
    ensures r.Ok? ==> WellFormed(r.value)
    ensures r.Ok? ==> ParseExpr(Init(pattern)).0 == Ok(r.value[..|r.value| - 1])
    ensures r.Err? ==> ParseExpr(Init(pattern)).0 == Err(r.error)
    ensures r.Err? ==> r.error != GroupNumMissError && r.error != PatchError
  {
    var e := ParseExpr(Init(pattern));
    match e.0
    case Err(err) => Err(err)
    case Ok(b) =>
      ProgramWellFormed(b, e.1.nextGroupNum);
      assert (b + [Match])[..|b|] == b;
      Ok(b + [Match])
  }
}
