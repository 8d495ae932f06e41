/** Laws of the newer compiler: the quantifier desugarings agree literally, the
    counted-repetition forms reduce to the plain quantifiers, and the error cases of
    the `{...}` syntax. */
module ParserLaws {
  import opened Wrappers
  import opened CharKinds
  import opened Ir
  import opened Emit
  import opened ParserSpec

  // ---------------------------------------------------------------------------
  // Helpers about the `{...}` scanner

  /** The digit scanner stops exactly after a run of digits and commas. */
  lemma {:induction false} DigitSpanPrefix(d: seq<char>, rest: seq<char>)
    requires forall i :: 0 <= i < |d| ==> DigitOrComma(d[i])
    requires rest == [] || !DigitOrComma(rest[0])
    ensures DigitSpan(d + rest) == |d|
  {
    if d != [] {
      assert (d + rest)[0] == d[0];
      assert (d + rest)[1..] == d[1..] + rest;
      DigitSpanPrefix(d[1..], rest);
    } else {
      assert d + rest == rest;
    }
  }

  /** `a,b` splits into a and b when neither holds a comma. */
  lemma {:induction false} SplitTwo(a: seq<char>, b: seq<char>)
    requires ',' !in a && ',' !in b
    ensures SplitOn(a + [','] + b, ',') == [a, b]
  {
    if a == [] {
      assert a + [','] + b == [','] + b;
      assert ([','] + b)[1..] == b;
    } else {
      assert (a + [','] + b)[0] == a[0];
      assert (a + [','] + b)[1..] == a[1..] + [','] + b;
      SplitTwo(a[1..], b);
      assert [a[0]] + a[1..] == a;
    }
  }

  lemma DigitsHaveNoComma(d: seq<char>)
    requires AllDigits(d)
    ensures ',' !in d && forall i :: 0 <= i < |d| ==> DigitOrComma(d[i])
  {
  }

  /** What `{` followed by `body` and `}` leaves of the state, and reads as bounds. */
  lemma BraceBody(block: seq<Inst>, st: PState, body: seq<char>, rest: seq<char>)
    requires forall i :: 0 <= i < |body| ==> DigitOrComma(body[i])
    ensures var q := Quantify(block, st.(chars := ['{'] + body + ['}'] + rest));
            match Bounds(body)
            case Err(e) => q == (Err(e), st.(chars := rest))
            case Ok(b) =>
              if b.0 > b.1 then q == (Err(InvalidQuantifier), st.(chars := rest))
              else q == (Ok(Repetition(block, b.0, b.1)), st.(chars := rest))
  {
    var s := ['{'] + body + ['}'] + rest;
    assert s[0] == '{';
    assert s[1..] == body + (['}'] + rest);
    DigitSpanPrefix(body, ['}'] + rest);
    assert s[1..][|body|] == '}';
    assert s[1..][..|body|] == body;
    assert s[1..][|body| + 1..] == rest;
  }

  lemma BoundsExact(d: seq<char>)
    requires ParseUsize(d).Some?
    ensures Bounds(d) == Ok((ParseUsize(d).value, ParseUsize(d).value))
  {
    DigitsHaveNoComma(d);
  }

  lemma BoundsAtLeast(d: seq<char>)
    requires ParseUsize(d).Some?
    ensures Bounds(d + [',']) == Ok((ParseUsize(d).value, USIZE_MAX))
  {
    DigitsHaveNoComma(d);
    assert d + [','] == d + [','] + [];
    SplitTwo(d, []);
  }

  lemma BoundsRange(d1: seq<char>, d2: seq<char>)
    requires ParseUsize(d1).Some? && ParseUsize(d2).Some?
    ensures Bounds(d1 + [','] + d2) == Ok((ParseUsize(d1).value, ParseUsize(d2).value))
  {
    DigitsHaveNoComma(d1);
    DigitsHaveNoComma(d2);
    SplitTwo(d1, d2);
  }

  lemma DigitOrCommaJoin(d1: seq<char>, d2: seq<char>)
    requires AllDigits(d1) && AllDigits(d2)
    ensures forall i :: 0 <= i < |d1 + [','] + d2| ==> DigitOrComma((d1 + [','] + d2)[i])
  {
    var body := d1 + [','] + d2;
    forall i | 0 <= i < |body| ensures DigitOrComma(body[i]) {
      if i < |d1| { assert body[i] == d1[i]; }
      else if i > |d1| { assert body[i] == d2[i - |d1| - 1]; }
    }
  }

  lemma ParseZero()
    ensures ParseUsize("0") == Some(0)
  {
    assert "0"[..0] == [];
  }

  lemma ParseOne()
    ensures ParseUsize("1") == Some(1)
  {
    assert "1"[..0] == [];
  }

  // ---------------------------------------------------------------------------
  // Quantifier desugarings (src/regex/parser.rs:140-231, 377-395)

  /** `X{m}` is m copies of X, for every m below usize::MAX. */
  lemma BraceExact(block: seq<Inst>, st: PState, d: seq<char>, rest: seq<char>)
    requires ParseUsize(d).Some? && ParseUsize(d).value < USIZE_MAX
    ensures Quantify(block, st.(chars := ['{'] + d + ['}'] + rest))
            == (Ok(Repeat(block, ParseUsize(d).value)), st.(chars := rest))
  {
    DigitsHaveNoComma(d);
    BraceBody(block, st, d, rest);
    BoundsExact(d);
    assert Repeat(block, ParseUsize(d).value) + [] == Repeat(block, ParseUsize(d).value);
  }

  /** `X{m,}` is m copies of X followed by `X*`. */
  lemma BraceAtLeast(block: seq<Inst>, st: PState, d: seq<char>, rest: seq<char>)
    requires ParseUsize(d).Some?
    ensures Quantify(block, st.(chars := ['{'] + d + [','] + ['}'] + rest))
            == (Ok(Repeat(block, ParseUsize(d).value) + EmitZeroOrMore(block)), st.(chars := rest))
  {
    DigitsHaveNoComma(d);
    assert d + [','] == d + [','] + [];
    assert ['{'] + d + [','] + ['}'] + rest == ['{'] + (d + [',']) + ['}'] + rest;
    DigitOrCommaJoin(d, []);
    BraceBody(block, st, d + [','], rest);
    BoundsAtLeast(d);
  }

  /** `X{0,}` compiles to exactly the code of `X*`. */
  lemma BraceAtLeastZeroIsStar(block: seq<Inst>, st: PState, rest: seq<char>)
    ensures Quantify(block, st.(chars := "{0,}" + rest)) == Quantify(block, st.(chars := "*" + rest))
  {
    ParseZero();
    BraceAtLeast(block, st, "0", rest);
    assert ['{'] + "0" + [','] + ['}'] + rest == "{0,}" + rest;
    assert ("*" + rest)[1..] == rest;
    assert Repeat(block, 0) + EmitZeroOrMore(block) == EmitZeroOrMore(block);
  }

  /** `X{m,n}` with m <= n < usize::MAX is m copies of X followed by n - m copies of `X?`. */
  lemma BraceRange(block: seq<Inst>, st: PState, d1: seq<char>, d2: seq<char>, rest: seq<char>)
    requires ParseUsize(d1).Some? && ParseUsize(d2).Some?
    requires ParseUsize(d1).value <= ParseUsize(d2).value < USIZE_MAX
    ensures Quantify(block, st.(chars := ['{'] + d1 + [','] + d2 + ['}'] + rest))
            == (Ok(Repeat(block, ParseUsize(d1).value)
                   + Repeat(EmitZeroOrOne(block), ParseUsize(d2).value - ParseUsize(d1).value)),
                st.(chars := rest))
  {
    DigitOrCommaJoin(d1, d2);
    assert ['{'] + d1 + [','] + d2 + ['}'] + rest == ['{'] + (d1 + [','] + d2) + ['}'] + rest;
    BraceBody(block, st, d1 + [','] + d2, rest);
    BoundsRange(d1, d2);
    var m := ParseUsize(d1).value;
    if ParseUsize(d2).value == m {
      assert Repeat(EmitZeroOrOne(block), 0) == [];
      assert Repeat(block, m) + [] == Repeat(block, m);
    }
  }

  /** `X{0,1}` compiles to exactly the code of `X?`. */
  lemma BraceZeroOrOneIsQuestion(block: seq<Inst>, st: PState, rest: seq<char>)
    ensures Quantify(block, st.(chars := "{0,1}" + rest)) == Quantify(block, st.(chars := "?" + rest))
  {
    ParseZero();
    ParseOne();
    BraceRange(block, st, "0", "1", rest);
    assert ['{'] + "0" + [','] + "1" + ['}'] + rest == "{0,1}" + rest;
    assert ("?" + rest)[1..] == rest;
    var z := EmitZeroOrOne(block);
    assert Repeat(z, 1) == z + [];
    assert Repeat(block, 0) + Repeat(z, 1) == z;
  }

  /** A minimum above the maximum is rejected. */
  lemma BraceInverted(block: seq<Inst>, st: PState, d1: seq<char>, d2: seq<char>, rest: seq<char>)
    requires ParseUsize(d1).Some? && ParseUsize(d2).Some?
    requires ParseUsize(d1).value > ParseUsize(d2).value
    ensures Quantify(block, st.(chars := ['{'] + d1 + [','] + d2 + ['}'] + rest)).0 == Err(InvalidQuantifier)
  {
    DigitOrCommaJoin(d1, d2);
    assert ['{'] + d1 + [','] + d2 + ['}'] + rest == ['{'] + (d1 + [','] + d2) + ['}'] + rest;
    BraceBody(block, st, d1 + [','] + d2, rest);
    BoundsRange(d1, d2);
  }

  /** An empty minimum (`{}`, `{,n}`) is rejected. */
  lemma BraceEmptyMinimum(block: seq<Inst>, st: PState, body: seq<char>, rest: seq<char>)
    requires forall i :: 0 <= i < |body| ==> DigitOrComma(body[i])
    requires body == [] || body[0] == ','
    ensures Quantify(block, st.(chars := ['{'] + body + ['}'] + rest)).0 == Err(InvalidQuantifier)
  {
    BraceBody(block, st, body, rest);
    var pieces := SplitOn(body, ',');
    if body != [] {
      assert pieces == [[]] + SplitOn(body[1..], ',');
    }
    assert pieces[0] == [];
  }

  /** Inside `{...}`, a character other than a digit, `,` or `}`, or the end of the
      pattern, is rejected. */
  lemma BraceUnclosed(block: seq<Inst>, st: PState, body: seq<char>, rest: seq<char>)
    requires forall i :: 0 <= i < |body| ==> DigitOrComma(body[i])
    requires rest == [] || (!DigitOrComma(rest[0]) && rest[0] != '}')
    ensures Quantify(block, st.(chars := ['{'] + body + rest)).0 == Err(InvalidQuantifier)
  {
    var s := ['{'] + body + rest;
    assert s[1..] == body + rest;
    DigitSpanPrefix(body, rest);
    if rest != [] {
      assert s[1..][|body|] == rest[0];
    }
  }

  // ---------------------------------------------------------------------------
  // Atoms

  /** The characters `a` are read by `parse_atom` as the single instruction `b`,
      whatever follows them and whatever the group state. */
  ghost predicate ReadsAtom(a: seq<char>, b: Inst)
  {
    forall s: seq<char>, ns: seq<nat>, next: nat ::
      var r := ParseAtom(PState(a + s, ns, next));
      r.0 == Ok([b]) && r.1.chars == s && r.1.numStack == ns && r.1.nextGroupNum == next
  }

  lemma ReadsAtomAt(a: seq<char>, b: Inst, s: seq<char>, ns: seq<nat>, next: nat)
    requires ReadsAtom(a, b)
    ensures ParseAtom(PState(a + s, ns, next)) == (Ok([b]), PState(s, ns, next))
    ensures a != [] && a[0] !in {'(', ')', '|', '*', '+', '?', '{'} && AtomInst(b)
  {
    var r := ParseAtom(PState(a + s, ns, next));
    assert r.0 == Ok([b]) && r.1.chars == s && r.1.numStack == ns && r.1.nextGroupNum == next;
    assert r.1 == PState(s, ns, next);
    assert [b][0] == b;
  }

  /** A literal character is read as itself. */
  lemma LiteralAtom(c: char)
    requires IsLiteral(c)
    ensures ReadsAtom([c], Char(c))
  {
    forall s: seq<char>, ns: seq<nat>, next: nat
      ensures var r := ParseAtom(PState([c] + s, ns, next));
              r.0 == Ok([Char(c)]) && r.1.chars == s && r.1.numStack == ns && r.1.nextGroupNum == next
    {
      assert ([c] + s)[0] == c && ([c] + s)[1..] == s;
    }
  }

  /** `.` is read as AnyChar and `^` as Start. */
  lemma DotAndCaretAtoms()
    ensures ReadsAtom(".", AnyChar) && ReadsAtom("^", Start)
  {
    forall s: seq<char>, ns: seq<nat>, next: nat
      ensures var r := ParseAtom(PState("." + s, ns, next));
              r.0 == Ok([AnyChar]) && r.1.chars == s && r.1.numStack == ns && r.1.nextGroupNum == next
    {
      assert ("." + s)[0] == '.' && ("." + s)[1..] == s;
    }
    forall s: seq<char>, ns: seq<nat>, next: nat
      ensures var r := ParseAtom(PState("^" + s, ns, next));
              r.0 == Ok([Start]) && r.1.chars == s && r.1.numStack == ns && r.1.nextGroupNum == next
    {
      assert ("^" + s)[0] == '^' && ("^" + s)[1..] == s;
    }
  }

  /** The instruction a supported escape `\e` stands for. */
  function EscapeInst(e: char): Inst
    requires e in {'d', 'w', '\\'} || '1' <= e <= '9'
  {
    if e == 'd' then Digit
    else if e == 'w' then MetaChar
    else if e == '\\' then Char('\\')
    else Ref(e as int - '0' as int)
  }

  /** `\d`, `\w`, `\\` and `\1` to `\9` are read as Digit, MetaChar, a literal
      backslash and a back-reference to that group. */
  lemma EscapeAtom(e: char)
    requires e in {'d', 'w', '\\'} || '1' <= e <= '9'
    ensures ReadsAtom(['\\', e], EscapeInst(e))
  {
    forall s: seq<char>, ns: seq<nat>, next: nat
      ensures var r := ParseAtom(PState(['\\', e] + s, ns, next));
              r.0 == Ok([EscapeInst(e)]) && r.1.chars == s && r.1.numStack == ns && r.1.nextGroupNum == next
    {
      var t := ['\\', e] + s;
      assert t[0] == '\\' && t[1] == e && t[2..] == s;
    }
  }

  // ---------------------------------------------------------------------------
  // Bracket classes

  /** One item of a bracket class body, as the loop of src/regex/parser.rs:277-313
      reads it. */
  datatype ClassItem =
    | Single(c: char)           // a character that stands for itself
    | Escape(k: char)           // `\d` or `\w`
    | Span(lo: char, hi: char)  // `x-y` between two ASCII alphanumerics
    | Dash(lo: char)            // `x-` before a character that is not alphanumeric

  function Spell(item: ClassItem): seq<char>
  {
    match item
    case Single(c) => [c]
    case Escape(k) => ['\\', k]
    case Span(lo, hi) => [lo, '-', hi]
    case Dash(lo) => [lo, '-']
  }

  /** What an item adds to the set: itself, the `\d` or `\w` set, the translated
      range, or for `x-` before a non-alphanumeric only the '-'. */
  function ItemSet(item: ClassItem): set<char>
  {
    match item
    case Single(c) => {c}
    case Escape(k) => if k == 'd' then DigitSet() else AsciiWordSet()
    case Span(lo, hi) => TranslateRange(lo, hi)
    case Dash(_) => {'-'}
  }

  function SpellAll(items: seq<ClassItem>): seq<char>
  {
    if items == [] then [] else Spell(items[0]) + SpellAll(items[1..])
  }

  function SetOfAll(items: seq<ClassItem>): set<char>
  {
    if items == [] then {} else ItemSet(items[0]) + SetOfAll(items[1..])
  }

  /** The item is read as such when the character `f` follows it. */
  predicate Fits(item: ClassItem, f: char)
  {
    match item
    case Single(c) => c != ']' && c != '\\' && (IsAsciiAlnum(c) ==> f != '-')
    case Escape(k) => k == 'd' || k == 'w'
    case Span(lo, hi) => IsAsciiAlnum(lo) && IsAsciiAlnum(hi)
    case Dash(lo) => IsAsciiAlnum(lo) && !IsAsciiAlnum(f)
  }

  /** The character after the first item: the second item's first, or the `]`. */
  function Follower(items: seq<ClassItem>): char
    requires items != []
  {
    if |items| == 1 then ']' else Spell(items[1])[0]
  }

  /** A class body the loop reads back as exactly these items. */
  predicate WellSpelled(items: seq<ClassItem>)
  {
    items == [] || (Fits(items[0], Follower(items)) && WellSpelled(items[1..]))
  }

  /** The spelling of the items and the `]` start with the first item's spelling. */
  lemma SpellAllCons(items: seq<ClassItem>, after: seq<char>)
    requires items != []
    ensures SpellAll(items) + [']'] + after == Spell(items[0]) + (SpellAll(items[1..]) + [']'] + after)
    ensures (SpellAll(items[1..]) + [']'] + after)[0] == Follower(items)
  {
    var tail := items[1..];
    if |items| > 1 {
      assert tail[0] == items[1];
      assert SpellAll(tail) == Spell(items[1]) + SpellAll(tail[1..]);
    }
  }

  /** One item read from the front of the body adds its set. */
  lemma ItemStep(item: ClassItem, rest: seq<char>, acc: set<char>)
    requires rest != [] && Fits(item, rest[0])
    ensures ClassLoop(Spell(item) + rest, acc) == ClassLoop(rest, acc + ItemSet(item))
  {
    var cs := Spell(item) + rest;
    match item
    case Single(c) =>
      assert cs[0] == c && cs[1..] == rest;
    case Escape(k) =>
      assert cs[0] == '\\' && cs[1..][0] == k && cs[1..][1..] == rest;
    case Span(lo, hi) =>
      assert cs[0] == lo && cs[1..][0] == '-' && cs[1..][1] == hi && cs[1..][2..] == rest;
    case Dash(lo) =>
      assert cs[0] == lo && cs[1..][0] == '-' && cs[1..][1..] == rest;
      assert cs[1..][1] == rest[0];
  }

  /** A well-spelled class body closed by `]` yields the union of its items' sets and
      leaves what follows the `]`. */
  lemma {:induction false} ClassItemsYield(items: seq<ClassItem>, after: seq<char>, acc: set<char>)
    requires WellSpelled(items)
    ensures ClassLoop(SpellAll(items) + [']'] + after, acc) == (Ok(acc + SetOfAll(items)), after)
  {
    if items == [] {
      assert SpellAll(items) + [']'] + after == [']'] + after;
      assert ([']'] + after)[1..] == after;
      assert acc + SetOfAll(items) == acc;
    } else {
      var rest := SpellAll(items[1..]) + [']'] + after;
      SpellAllCons(items, after);
      ItemStep(items[0], rest, acc);
      ClassItemsYield(items[1..], after, acc + ItemSet(items[0]));
      assert acc + ItemSet(items[0]) + SetOfAll(items[1..]) == acc + SetOfAll(items);
    }
  }

  /** The first item of a body the loop accepts, and that the loop reads it as such. */
  lemma FirstItem(cs: seq<char>, acc: set<char>) returns (item: ClassItem, tail: seq<char>)
    requires cs != [] && cs[0] != ']' && ClassLoop(cs, acc).0.Ok?
    ensures cs == Spell(item) + tail && ClassLoop(cs, acc) == ClassLoop(tail, acc + ItemSet(item))
    ensures tail != [] && Fits(item, tail[0])
  {
    var c, rest := cs[0], cs[1..];
    if c == '\\' {
      item, tail := Escape(rest[0]), rest[1..];
    } else if IsAsciiAlnum(c) && rest != [] && rest[0] == '-' {
      if |rest| >= 2 && IsAsciiAlnum(rest[1]) {
        item, tail := Span(c, rest[1]), rest[2..];
      } else {
        item, tail := Dash(c), rest[1..];
      }
    } else {
      item, tail := Single(c), rest;
    }
    assert cs == Spell(item) + tail;
  }

  /** Conversely, every class body the loop accepts is a well-spelled list of items
      closed by `]`, and the set is the union of their sets. */
  lemma {:induction false} ClassBodyItems(cs: seq<char>, acc: set<char>) returns (items: seq<ClassItem>, after: seq<char>)
    requires ClassLoop(cs, acc).0.Ok?
    ensures WellSpelled(items) && cs == SpellAll(items) + [']'] + after
    ensures ClassLoop(cs, acc) == (Ok(acc + SetOfAll(items)), after)
    decreases |cs|
  {
    if cs[0] == ']' {
      items, after := [], cs[1..];
      assert cs == [']'] + after;
      assert acc + SetOfAll(items) == acc;
    } else {
      var item, tail := FirstItem(cs, acc);
      var more, a := ClassBodyItems(tail, acc + ItemSet(item));
      items, after := [item] + more, a;
      assert items[0] == item && items[1..] == more;
      SpellAllCons(items, after);
      assert acc + ItemSet(item) + SetOfAll(more) == acc + SetOfAll(items);
    }
  }

  /** The spelling of a bracket class: `[`, the optional `^`, the items, `]`. */
  function ClassSpelling(negated: bool, items: seq<ClassItem>): seq<char>
  {
    ['['] + (if negated then ['^'] else []) + SpellAll(items) + [']']
  }

  /** Where the body of a spelled class starts, and that `parse_atom` sees the `^`
      exactly when the class is negated. */
  lemma ClassSpellingParts(negated: bool, items: seq<ClassItem>, s: seq<char>)
    requires WellSpelled(items)
    requires !negated ==> items == [] || items[0] != Single('^')
    ensures var t := ClassSpelling(negated, items) + s;
            && |t| > 1 && t[0] == '['
            && ((t[1] == '^') <==> negated)
            && t[if negated then 2 else 1..] == SpellAll(items) + [']'] + s
  {
    var body := SpellAll(items) + [']'] + s;
    var t := ClassSpelling(negated, items) + s;
    if negated {
      assert t == ['[', '^'] + body;
    } else {
      assert t == ['['] + body;
      if items != [] {
        SpellAllCons(items, s);
        assert body[0] == Spell(items[0])[0];
      }
    }
  }

  lemma ClassAtomAt(negated: bool, items: seq<ClassItem>, s: seq<char>, ns: seq<nat>, next: nat)
    requires WellSpelled(items)
    requires !negated ==> items == [] || items[0] != Single('^')
    ensures ParseAtom(PState(ClassSpelling(negated, items) + s, ns, next))
            == (Ok([CharClass(negated, SetOfAll(items))]), PState(s, ns, next))
  {
    var st := PState(ClassSpelling(negated, items) + s, ns, next);
    ClassSpellingParts(negated, items, s);
    ClassItemsYield(items, s, {});
    assert {} + SetOfAll(items) == SetOfAll(items);
    var cl := ClassLoop(st.chars[if negated then 2 else 1..], {});
    assert cl == (Ok(SetOfAll(items)), s);
  }

  /** A bracket class `[items]` or `[^items]` is read as one CharClass over the
      union of the items' sets; without `^` the body must not itself start with `^`. */
  lemma ClassAtom(negated: bool, items: seq<ClassItem>)
    requires WellSpelled(items)
    requires !negated ==> items == [] || items[0] != Single('^')
    ensures ReadsAtom(ClassSpelling(negated, items), CharClass(negated, SetOfAll(items)))
  {
    forall s: seq<char>, ns: seq<nat>, next: nat
      ensures var r := ParseAtom(PState(ClassSpelling(negated, items) + s, ns, next));
              r.0 == Ok([CharClass(negated, SetOfAll(items))]) && r.1.chars == s && r.1.numStack == ns && r.1.nextGroupNum == next
    {
      ClassAtomAt(negated, items, s, ns, next);
    }
  }

  // ---------------------------------------------------------------------------
  // Terms

  /** An atom is a one-instruction term whose quantifier comes next. */
  lemma AtomTerm(a: seq<char>, b: Inst, s: seq<char>, ns: seq<nat>, next: nat)
    requires ReadsAtom(a, b)
    ensures ParseTerm(PState(a + s, ns, next)) == Quantify([b], PState(s, ns, next))
  {
    ReadsAtomAt(a, b, s, ns, next);
    var st := PState(a + s, ns, next);
    assert st.chars[0] == a[0];
  }

  lemma QuantifyStep(block: seq<Inst>, q: char, rest: seq<char>, ns: seq<nat>, next: nat)
    requires q in {'*', '+', '?'}
    ensures Quantify(block, PState([q] + rest, ns, next))
            == (Ok(if q == '*' then EmitZeroOrMore(block) else if q == '+' then EmitOneOrMore(block) else EmitZeroOrOne(block)),
                PState(rest, ns, next))
  {
    assert ([q] + rest)[0] == q && ([q] + rest)[1..] == rest;
  }

  /** An atom followed by `q` in `*`, `+` or `?` is one quantified term. */
  lemma QuantifiedAtomTerm(a: seq<char>, b: Inst, q: char, rest: seq<char>, ns: seq<nat>, next: nat)
    requires ReadsAtom(a, b) && q in {'*', '+', '?'}
    ensures ParseTerm(PState(a + [q] + rest, ns, next))
            == (Ok(if q == '*' then EmitZeroOrMore([b]) else if q == '+' then EmitOneOrMore([b]) else EmitZeroOrOne([b])),
                PState(rest, ns, next))
  {
    assert a + [q] + rest == a + ([q] + rest);
    AtomTerm(a, b, [q] + rest, ns, next);
    QuantifyStep([b], q, rest, ns, next);
  }

  /** An atom followed by something other than a quantifier is a term by itself. */
  lemma PlainAtomTerm(a: seq<char>, b: Inst, s: seq<char>, ns: seq<nat>, next: nat)
    requires ReadsAtom(a, b) && (s == [] || s[0] !in {'*', '+', '?', '{'})
    ensures ParseTerm(PState(a + s, ns, next)) == (Ok([b]), PState(s, ns, next))
  {
    AtomTerm(a, b, s, ns, next);
  }

  /** `X+` then the rest: the one-or-more code in front of the rest's code. */
  lemma AtomPlusExpr(a: seq<char>, b: Inst, rest: seq<char>, ns: seq<nat>, next: nat)
    requires ReadsAtom(a, b)
    ensures ParseExpr(PState(a + ['+'] + rest, ns, next)) == Prepend(EmitOneOrMore([b]), ParseExpr(PState(rest, ns, next)))
  {
    ReadsAtomAt(a, b, rest, ns, next);
    QuantifiedAtomTerm(a, b, '+', rest, ns, next);
    ExprStep(PState(a + ['+'] + rest, ns, next));
  }

  /** `XX*` then the rest: X, then the zero-or-more code, in front of the rest's code. */
  lemma AtomCopyStarExpr(a: seq<char>, b: Inst, rest: seq<char>, ns: seq<nat>, next: nat)
    requires ReadsAtom(a, b)
    ensures ParseExpr(PState(a + a + ['*'] + rest, ns, next))
            == Prepend([b], Prepend(EmitZeroOrMore([b]), ParseExpr(PState(rest, ns, next))))
  {
    ReadsAtomAt(a, b, rest, ns, next);
    QuantifiedAtomTerm(a, b, '*', rest, ns, next);
    ExprStep(PState(a + ['*'] + rest, ns, next));
    var s := a + ['*'] + rest;
    assert a + a + ['*'] + rest == a + s;
    assert s[0] == a[0];
    PlainAtomTerm(a, b, s, ns, next);
    ExprStep(PState(a + s, ns, next));
  }

  /** For every atom X that is not a group (a literal, `.`, `^`, an escape, a
      back-reference or a bracket class), `X+` compiles to exactly the code of `XX*`.
      A group is left out: its copy would get a new number. */
  lemma PlusIsCopyThenStar(a: seq<char>, b: Inst, rest: seq<char>, ns: seq<nat>, next: nat)
    requires ReadsAtom(a, b)
    ensures ParseExpr(PState(a + ['+'] + rest, ns, next)) == ParseExpr(PState(a + a + ['*'] + rest, ns, next))
  {
    AtomPlusExpr(a, b, rest, ns, next);
    AtomCopyStarExpr(a, b, rest, ns, next);
    PrependTwice([b], EmitZeroOrMore([b]), ParseExpr(PState(rest, ns, next)));
  }

  // ---------------------------------------------------------------------------
  // Groups

  /** After the first `|`, a further `|` changes nothing: every later term already
      goes to the second branch. */
  lemma LaterBarIgnored(st: PState, num: nat, branch1: seq<Inst>, branch2: seq<Inst>)
    requires |st.numStack| > 0 && st.numStack[|st.numStack| - 1] == num
    requires num < st.nextGroupNum
    requires Block(branch1, num + 1, st.nextGroupNum) && Block(branch2, num + 1, st.nextGroupNum)
    requires st.chars != [] && st.chars[0] == '|'
    ensures GroupLoop(st, num, branch1, branch2, true) == GroupLoop(st.(chars := st.chars[1..]), num, branch1, branch2, true)
  {
  }

  /** Inside a group, an atom is a term: neither `|` nor `)`. */
  lemma GroupAtomStart(a: seq<char>, b: Inst, s: seq<char>, ns: seq<nat>, next: nat, num: nat, branch1: seq<Inst>, branch2: seq<Inst>, split: bool)
    requires ReadsAtom(a, b)
    requires |ns| > 0 && ns[|ns| - 1] == num && num < next
    requires Block(branch1, num + 1, next) && Block(branch2, num + 1, next)
    ensures GroupLoop(PState(a + s, ns, next), num, branch1, branch2, split)
            == GroupTerm(PState(a + s, ns, next), num, branch1, branch2, split)
  {
    ReadsAtomAt(a, b, s, ns, next);
    assert (a + s)[0] == a[0];
  }

  /** Inside a group, an atom not followed by a quantifier joins the current
      branch. */
  lemma GroupAtom(a: seq<char>, b: Inst, s: seq<char>, ns: seq<nat>, next: nat, num: nat, branch1: seq<Inst>, branch2: seq<Inst>, split: bool)
    requires ReadsAtom(a, b) && (s == [] || s[0] !in {'*', '+', '?', '{'})
    requires |ns| > 0 && ns[|ns| - 1] == num && num < next
    requires Block(branch1, num + 1, next) && Block(branch2, num + 1, next)
    ensures Block(branch1 + [b], num + 1, next) && Block(branch2 + [b], num + 1, next)
    ensures GroupLoop(PState(a + s, ns, next), num, branch1, branch2, split)
            == if split then GroupLoop(PState(s, ns, next), num, branch1, branch2 + [b], true)
               else GroupLoop(PState(s, ns, next), num, branch1 + [b], branch2, false)
  {
    ReadsAtomAt(a, b, s, ns, next);
    PlainAtomTerm(a, b, s, ns, next);
    BlockAtom(b, next, next);
    assert [b] == [b][..1];
    AppendTermBlock(branch1, branch2, [b], num, next, next);
    GroupAtomStart(a, b, s, ns, next, num, branch1, branch2, split);
  }

  /** `)` closes the group with the number on top of the stack, which it pops. */
  lemma GroupCloses(s: seq<char>, ns: seq<nat>, next: nat, num: nat, branch1: seq<Inst>, branch2: seq<Inst>, split: bool)
    requires |ns| > 0 && ns[|ns| - 1] == num && num < next
    requires Block(branch1, num + 1, next) && Block(branch2, num + 1, next)
    ensures GroupLoop(PState([')'] + s, ns, next), num, branch1, branch2, split)
            == (Ok(CloseGroup(num, branch1, branch2, split, num)), PState(s, ns[..|ns| - 1], next))
  {
    assert ([')'] + s)[1..] == s;
  }

  lemma AlternationFirstBranch()
    ensures GroupLoop(PState("a|b)", [1], 2), 1, [], [], false) == GroupLoop(PState("b)", [1], 2), 1, [Char('a')], [], true)
  {
    assert "a|b)" == ['a'] + "|b)";
    LiteralAtom('a');
    GroupAtom("a", Char('a'), "|b)", [1], 2, 1, [], [], false);
    assert [] + [Char('a')] == [Char('a')];
    assert "|b)"[1..] == "b)";
  }

  /** `)` after the second branch closes the group around the alternation. */
  lemma AlternationClose()
    ensures GroupLoop(PState(")", [1], 2), 1, [Char('a')], [Char('b')], true)
            == (Ok([GroupBegin(1), Split(1, 3), Char('a'), Jump(2), Char('b'), GroupEnd(1)]), PState([], [], 2))
  {
    assert ")" == [')'] + [];
    assert [1][..0] == [];
    GroupCloses([], [1], 2, 1, [Char('a')], [Char('b')], true);
    AlternationOfLetters();
    assert [GroupBegin(1)] + [Split(1, 3), Char('a'), Jump(2), Char('b')] + [GroupEnd(1)]
           == [GroupBegin(1), Split(1, 3), Char('a'), Jump(2), Char('b'), GroupEnd(1)];
  }

  lemma AlternationOfLetters()
    ensures EmitAlternation([Char('a')], [Char('b')]) == [Split(1, 3), Char('a'), Jump(2), Char('b')]
  {
    var alt := EmitAlternation([Char('a')], [Char('b')]);
    assert alt[1..2] == [Char('a')] && alt[3..] == [Char('b')];
  }

  lemma AlternationSecondBranch()
    ensures GroupLoop(PState("b)", [1], 2), 1, [Char('a')], [], true)
            == (Ok([GroupBegin(1), Split(1, 3), Char('a'), Jump(2), Char('b'), GroupEnd(1)]), PState([], [], 2))
  {
    assert "b)" == ['b'] + ")";
    LiteralAtom('b');
    GroupAtom("b", Char('b'), ")", [1], 2, 1, [Char('a')], [], true);
    assert [] + [Char('b')] == [Char('b')];
    AlternationClose();
  }

  /** `(a|b)` compiles to a group around a split between the two letters. */
  lemma CompileAlternation()
    ensures Compile("(a|b)") == Ok([GroupBegin(1), Split(1, 3), Char('a'), Jump(2), Char('b'), GroupEnd(1), Match])
  {
    var g := [GroupBegin(1), Split(1, 3), Char('a'), Jump(2), Char('b'), GroupEnd(1)];
    AlternationGroup();
    var st := Init("(a|b)");
    ExprStep(st);
    assert ParseExpr(PState([], [], 2)) == (Ok([]), PState([], [], 2));
    assert g + [] == g;
    assert ParseExpr(st) == (Ok(g), PState([], [], 2));
    assert g + [Match] == [GroupBegin(1), Split(1, 3), Char('a'), Jump(2), Char('b'), GroupEnd(1), Match];
  }

  lemma AlternationGroup()
    ensures ParseTerm(PState("(a|b)", [], 1))
            == (Ok([GroupBegin(1), Split(1, 3), Char('a'), Jump(2), Char('b'), GroupEnd(1)]), PState([], [], 2))
  {
    AlternationFirstBranch();
    AlternationSecondBranch();
    var st := PState("(a|b)", [], 1);
    assert st.chars[1..] == "a|b)";
    assert [] + [1] == [1];
  }

  lemma BackrefGroupDot()
    ensures GroupLoop(PState(".)\\1a", [1], 2), 1, [], [], false)
            == GroupLoop(PState(")\\1a", [1], 2), 1, [AnyChar], [], false)
  {
    DotAndCaretAtoms();
    assert ".)\\1a" == "." + ")\\1a";
    GroupAtom(".", AnyChar, ")\\1a", [1], 2, 1, [], [], false);
    assert [] + [AnyChar] == [AnyChar];
  }

  lemma BackrefGroupClose()
    ensures GroupLoop(PState(")\\1a", [1], 2), 1, [AnyChar], [], false)
            == (Ok([GroupBegin(1), AnyChar, GroupEnd(1)]), PState("\\1a", [], 2))
  {
    assert ")\\1a" == [')'] + "\\1a";
    assert [1][..0] == [];
    GroupCloses("\\1a", [1], 2, 1, [AnyChar], [], false);
    assert CloseGroup(1, [AnyChar], [], false, 1) == [GroupBegin(1), AnyChar, GroupEnd(1)];
  }

  lemma BackrefGroupBody()
    ensures GroupLoop(PState(".)\\1a", [1], 2), 1, [], [], false)
            == (Ok([GroupBegin(1), AnyChar, GroupEnd(1)]), PState("\\1a", [], 2))
  {
    BackrefGroupDot();
    BackrefGroupClose();
  }

  /** The group `(.)`: AnyChar between the markers of group 1. */
  lemma BackrefGroup()
    ensures ParseTerm(PState("(.)\\1a", [], 1)) == (Ok([GroupBegin(1), AnyChar, GroupEnd(1)]), PState("\\1a", [], 2))
  {
    BackrefGroupBody();
    var st := PState("(.)\\1a", [], 1);
    assert st.chars[1..] == ".)\\1a";
    assert [] + [1] == [1];
  }

  /** After the group: the back-reference `\1`, then the letter `a`. */
  lemma BackrefTail()
    ensures ParseExpr(PState("\\1a", [], 2)) == (Ok([Ref(1), Char('a')]), PState([], [], 2))
  {
    EscapeAtom('1');
    assert EscapeInst('1') == Ref(1);
    assert "\\1a" == "\\1" + "a";
    PlainAtomTerm("\\1", Ref(1), "a", [], 2);
    ExprStep(PState("\\1a", [], 2));
    LiteralAtom('a');
    assert "a" == "a" + [];
    PlainAtomTerm("a", Char('a'), [], [], 2);
    ExprStep(PState("a", [], 2));
    assert ParseExpr(PState([], [], 2)) == (Ok([]), PState([], [], 2));
    assert [Char('a')] + [] == [Char('a')];
    assert [Ref(1)] + [Char('a')] == [Ref(1), Char('a')];
  }

  /** The whole of `(.)\1a`: the group, the back-reference, the letter. */
  lemma BackrefExpr()
    ensures ParseExpr(Init("(.)\\1a")).0 == Ok([GroupBegin(1), AnyChar, GroupEnd(1), Ref(1), Char('a')])
  {
    BackrefGroup();
    BackrefTail();
    ExprStep(Init("(.)\\1a"));
    assert [GroupBegin(1), AnyChar, GroupEnd(1)] + [Ref(1), Char('a')] == [GroupBegin(1), AnyChar, GroupEnd(1), Ref(1), Char('a')];
  }

  // ---------------------------------------------------------------------------
  // Errors

  lemma UnclosedGroupLoop()
    ensures GroupLoop(PState("a", [1], 2), 1, [], [], false).0 == Err(UnclosedGroup)
  {
    assert "a" == ['a'] + [];
    LiteralAtom('a');
    GroupAtom("a", Char('a'), [], [1], 2, 1, [], [], false);
    assert [] + [Char('a')] == [Char('a')];
  }

  /** A group that never closes is reported as such. */
  lemma CompileUnclosedGroup()
    ensures Compile("(a") == Err(UnclosedGroup)
  {
    UnclosedGroupLoop();
    var st := Init("(a");
    assert st.chars[1..] == "a";
    assert [] + [1] == [1];
    assert ParseTerm(st).0 == Err(UnclosedGroup);
    ExprStep(st);
  }

  lemma CompileMisplacedAnchor()
    ensures Compile("a$b") == Err(MisplacedAnchor)
  {
    var st := Init("a$b");
    assert "a$b" == ['a'] + "$b";
    LiteralAtom('a');
    PlainAtomTerm("a", Char('a'), "$b", [], 1);
    var s1 := st.(chars := "$b");
    assert "$b"[1..] == "b";
    assert ParseAtom(s1) == (Err(MisplacedAnchor), s1.(chars := "b"));
    assert ParseTerm(s1).0 == Err(MisplacedAnchor);
    ExprStep(st);
    ExprStep(s1);
  }

  lemma CompileUnknownEscape()
    ensures Compile("\\x") == Err(UnknownEscape('x'))
  {
    var st := Init("\\x");
    assert st.chars[1..] == "x";
    assert ParseAtom(st).0 == Err(UnknownEscape('x'));
    assert ParseTerm(st).0 == Err(UnknownEscape('x'));
    ExprStep(st);
  }
}
