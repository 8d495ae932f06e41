/** The front of the newer engine (src/regex.rs:28-60): `Regex::new` compiles a
    pattern with the parser, and `is_match` runs a fresh VM either once from the
    text start (a pattern opening with `^`) or from every character boundary in
    turn, stopping at the first success. */
module RegexMatch {
  import opened Wrappers
  import opened Utf8Text
  import opened Ir
  import opened ParserSpec
  import opened VmSpec
  import opened Vm
  import opened RegexParser

  datatype Regex = Regex(instrs: seq<Inst>)

  /** `Regex::new`: the compiled program, or the parser's error. */
  method New(pattern: seq<char>) returns (r: Result<Regex, ParseError>)
    ensures Compile(pattern).Ok? ==> r == Ok(Regex(Compile(pattern).value)) && WellFormed(r.value.instrs)
    ensures Compile(pattern).Err? ==> r == Err(Compile(pattern).error)
  {
    var parser := new Parser(pattern);
    ghost var e := ParserSpec.ParseExpr(Init(pattern)).0;
    var code := parser.Compile();
    ghost var c := Compile(pattern);
    if code.Err? {
      assert e.Err? && c.Err? && e.error == c.error;
      return Err(code.error);
    }
    assert e.Ok? && c.Ok? && e.value == c.value[..|c.value| - 1];
    assert code.value == e.value + [Match];
    assert c.value[..|c.value| - 1] + [Match] == c.value;
    return Ok(Regex(code.value));
  }

  /** The byte offset at which character k of the text starts. */
  function Offset(text: seq<char>, k: nat): nat
    requires k <= |text|
  {
    ByteLen(text[..k])
  }

  /** The verdict of a fresh VM started at pc 0 on character k. */
  function Try(prog: seq<Inst>, text: seq<char>, k: nat, fuel: nat): (v: Verdict)
    requires k <= |text|
    ensures fuel == 0 ==> v == OutOfFuel
    ensures WellFormed(prog) && RefFree(prog) ==> v != Panic
  {
    var v := Run(prog, text, 0, Offset(text, k), [], fuel).0;
    assert WellFormed(prog) && RefFree(prog) ==> v != Panic by {
      if WellFormed(prog) && RefFree(prog) {
        NoPanicWithoutRef(prog, text, 0, Offset(text, k), [], fuel);
      }
    }
    v
  }

  /** The unanchored loop of `is_match` from byte offset `cursor`: a fresh VM per
      start, the first verdict that is not a failure ends the search, and the end
      offset itself is never tried. */
  function SearchFrom(prog: seq<Inst>, text: seq<char>, cursor: nat, fuel: nat): (v: Verdict)
    decreases ByteLen(text) - cursor
    ensures IsEnd(text, cursor) ==> v == Reject
    ensures v == Accept ==> exists c :: cursor <= c && !IsEnd(text, c) && Run(prog, text, 0, c, [], fuel).0 == Accept
  {
    if IsEnd(text, cursor) then Reject
    else
      var v := Run(prog, text, 0, cursor, [], fuel).0;
      if v == Reject then SearchFrom(prog, text, NextCursor(text, cursor), fuel) else v
  }

  /** `is_match`: an empty program accepts everything; one opening with Start runs
      once from pc 1 at offset 0; any other is tried at every start. */
  function Search(prog: seq<Inst>, text: seq<char>, fuel: nat): (v: Verdict)
    ensures |prog| > 0 && prog[0] != Start && v == Accept ==>
              exists c :: !IsEnd(text, c) && Run(prog, text, 0, c, [], fuel).0 == Accept
  {
    if |prog| == 0 then Accept
    else if prog[0] == Start then Run(prog, text, 1, 0, [], fuel).0
    else SearchFrom(prog, text, 0, fuel)
  }

  /** The verdicts of a fresh VM at every character start, in order. */
  function Tries(prog: seq<Inst>, text: seq<char>, fuel: nat): (vs: seq<Verdict>)
    ensures |vs| == |text| && forall k :: 0 <= k < |text| ==> vs[k] == Try(prog, text, k, fuel)
  {
    seq(|text|, k requires 0 <= k < |text| => Try(prog, text, k, fuel))
  }

  /** The same search counted in characters: the first verdict among the starts
      k, k+1, ... that is not a failure. */
  function FirstVerdict(vs: seq<Verdict>, k: nat): Verdict
    requires k <= |vs|
    decreases |vs| - k
  {
    if k == |vs| then Reject
    else if vs[k] != Reject then vs[k]
    else FirstVerdict(vs, k + 1)
  }

  /** The byte-offset loop visits exactly the character boundaries, in order. */
  lemma {:induction false} SearchFromChars(prog: seq<Inst>, text: seq<char>, k: nat, fuel: nat)
    requires k <= |text|
    ensures SearchFrom(prog, text, Offset(text, k), fuel) == FirstVerdict(Tries(prog, text, fuel), k)
    decreases |text| - k
  {
    LocatePrefix(text, k);
    if k == |text| {
      assert text[..k] == text;
      CharAtPastEnd(text, Offset(text, k));
    } else {
      CharAtPosition(text, k);
      var next := NextCursor(text, Offset(text, k));
      ByteLenStep(text, k);
      assert next == Offset(text, k + 1);
      SearchFromChars(prog, text, k + 1, fuel);
    }
  }

  /** FirstVerdict accepts exactly when some start accepts and every earlier one fails. */
  lemma {:induction false} FirstVerdictAccepts(vs: seq<Verdict>, k: nat)
    requires k <= |vs|
    ensures FirstVerdict(vs, k) == Accept <==>
              exists j :: k <= j < |vs| && vs[j] == Accept && forall i :: k <= i < j ==> vs[i] == Reject
    decreases |vs| - k
  {
    if k < |vs| {
      FirstVerdictAccepts(vs, k + 1);
      if vs[k] == Reject && FirstVerdict(vs, k + 1) == Accept {
        var j :| k + 1 <= j < |vs| && vs[j] == Accept && forall i :: k + 1 <= i < j ==> vs[i] == Reject;
        assert forall i :: k <= i < j ==> vs[i] == Reject;
      }
    }
  }

  /** FirstVerdict fails exactly when every start fails. */
  lemma {:induction false} FirstVerdictRejects(vs: seq<Verdict>, k: nat)
    requires k <= |vs|
    ensures FirstVerdict(vs, k) == Reject <==> forall i :: k <= i < |vs| ==> vs[i] == Reject
    decreases |vs| - k
  {
    if k < |vs| {
      FirstVerdictRejects(vs, k + 1);
    }
  }

  /** An unanchored search accepts exactly when a fresh VM accepts at some character
      boundary before the end and fails at every boundary before that one. */
  lemma SearchAccepts(prog: seq<Inst>, text: seq<char>, fuel: nat)
    requires |prog| > 0 && prog[0] != Start
    ensures Search(prog, text, fuel) == Accept <==>
              exists j :: 0 <= j < |text| && Try(prog, text, j, fuel) == Accept
                          && forall i :: 0 <= i < j ==> Try(prog, text, i, fuel) == Reject
  {
    assert Offset(text, 0) == 0;
    SearchFromChars(prog, text, 0, fuel);
    FirstVerdictAccepts(Tries(prog, text, fuel), 0);
  }

  /** An unanchored search fails exactly when the VM fails at every character start. */
  lemma SearchRejects(prog: seq<Inst>, text: seq<char>, fuel: nat)
    requires |prog| > 0 && prog[0] != Start
    ensures Search(prog, text, fuel) == Reject <==> forall i :: 0 <= i < |text| ==> Try(prog, text, i, fuel) == Reject
  {
    assert Offset(text, 0) == 0;
    SearchFromChars(prog, text, 0, fuel);
    FirstVerdictRejects(Tries(prog, text, fuel), 0);
  }

  /** Because the end offset is never tried, the empty text matches no compiled
      pattern that does not open with `^`, even one such as `a*` that accepts the
      empty string. */
  lemma EmptyTextNeverMatches(pattern: seq<char>, fuel: nat)
    requires Compile(pattern).Ok? && Compile(pattern).value[0] != Start
    ensures Search(Compile(pattern).value, [], fuel) == Reject
  {
    SearchRejects(Compile(pattern).value, [], fuel);
  }

  /** A compiled pattern without back-references never makes `is_match` panic. */
  lemma SearchNoPanic(pattern: seq<char>, text: seq<char>, fuel: nat)
    requires Compile(pattern).Ok? && RefFree(Compile(pattern).value)
    ensures Search(Compile(pattern).value, text, fuel) != Panic
  {
    var prog := Compile(pattern).value;
    if prog[0] == Start {
      NoPanicWithoutRef(prog, text, 1, 0, [], fuel);
    } else {
      SearchNoPanicFrom(prog, text, 0, fuel);
    }
  }

  lemma {:induction false} SearchNoPanicFrom(prog: seq<Inst>, text: seq<char>, cursor: nat, fuel: nat)
    requires WellFormed(prog) && RefFree(prog)
    ensures SearchFrom(prog, text, cursor, fuel) != Panic
    decreases ByteLen(text) - cursor
  {
    if !IsEnd(text, cursor) {
      NoPanicWithoutRef(prog, text, 0, cursor, [], fuel);
      if Run(prog, text, 0, cursor, [], fuel).0 == Reject {
        SearchNoPanicFrom(prog, text, NextCursor(text, cursor), fuel);
      }
    }
  }

  /** `Regex::is_match`, with a fresh VM per start offset. */
  method IsMatch(re: Regex, text: seq<char>, fuel: nat) returns (v: Verdict)
    ensures v == Search(re.instrs, text, fuel)
  {
    if |re.instrs| == 0 {
      return Accept;
    }
    if re.instrs[0] == Start {
      var vm := new VM(re.instrs);
      v := vm.Run(1, text, 0, fuel);
      return;
    }
    var cursor: nat := 0;
    while !IsEnd(text, cursor)
      invariant cursor <= ByteLen(text)
      invariant SearchFrom(re.instrs, text, cursor, fuel) == Search(re.instrs, text, fuel)
      decreases ByteLen(text) - cursor
    {
      var vm := new VM(re.instrs);
      var r := vm.Run(0, text, cursor, fuel);
      if r != Reject {
        return r;
      }
      cursor := NextCursor(text, cursor);
    }
    return Reject;
  }
}
