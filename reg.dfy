/** The older engine as the source writes it (src/reg.rs:30-184): `compile` is one
    loop over the pattern that pushes instructions and backpatches each loop's
    Split through `patch_list`; `is_match` steps through the suffixes. Each method
    is proved to compute its pure counterpart in RegSpec. */
module Reg {
  import opened Wrappers
  import opened CharKinds
  import opened RegSpec

  /** `Reg`: a compiled program. */
  datatype Reg = Reg(instrs: seq<RInst>)

  /** `Reg::new`. */
  method New(pattern: seq<char>) returns (r: Result<Reg, RegError>)
    ensures RegSpec.Compile(pattern).Ok? ==> r == Ok(Reg(RegSpec.Compile(pattern).value)) && ProgramOk(r.value.instrs)
    ensures RegSpec.Compile(pattern).Err? ==> r == Err(RegSpec.Compile(pattern).error)
  {
    var code := Compile(pattern);
    if code.Err? {
      return Err(code.error);
    }
    return Ok(Reg(code.value));
  }

  /** The quantifier arm of `compile` (src/reg.rs:112-127, repeated at 144-161):
      for `+` one copy of x, then the loop at `start` with a placeholder 0 as the
      Split's second target, which the pop of `patch_list` overwrites with the index
      after the Jump. The patch list is back as it was. */
  method EmitLoop(instrs: seq<RInst>, patchList: seq<nat>, x: RInst, quantifier: char)
    returns (instrs': seq<RInst>, patchList': seq<nat>)
    ensures instrs' == Quantified(instrs, x, quantifier)
    ensures patchList' == patchList
  {
    instrs' := instrs;
    patchList' := patchList;
    if quantifier == '+' {
      instrs' := instrs' + [x];
    }
    patchList' := patchList' + [|instrs'|];
    var start := |instrs'|;
    instrs' := instrs' + [Split(start + 1, 0)];
    instrs' := instrs' + [x];
    instrs' := instrs' + [Jump(start)];
    var pcToTarget := |instrs'|;
    if patchList' != [] {
      var pcToPatch := patchList'[|patchList'| - 1];
      patchList' := patchList'[..|patchList'| - 1];
      if pcToPatch < |instrs'| && instrs'[pcToPatch].Split? {
        instrs' := instrs'[pcToPatch := Split(instrs'[pcToPatch].b1, pcToTarget)];
      }
    }
  }

  /** An atom, with the `+`/`*` the stream may hold next. */
  method PushAtom(instrs: seq<RInst>, patchList: seq<nat>, stream: seq<char>, x: RInst)
    returns (instrs': seq<RInst>, patchList': seq<nat>, stream': seq<char>)
    ensures (instrs', stream') == EmitAtom(instrs, x, stream)
    ensures patchList' == patchList
  {
    if |stream| > 0 && (stream[0] == '+' || stream[0] == '*') {
      var quantifier := stream[0];
      stream' := stream[1..];
      instrs', patchList' := EmitLoop(instrs, patchList, x, quantifier);
    } else {
      instrs' := instrs + [x];
      patchList' := patchList;
      stream' := stream;
    }
  }

  /** The bracket-class loop: characters join the set until `]`. */
  method ScanClass(stream: seq<char>) returns (r: Option<(set<char>, seq<char>)>)
    ensures r == ClassScan(stream, {})
  {
    var chars: set<char> := {};
    var s := stream;
    while true
      invariant ClassScan(s, chars) == ClassScan(stream, {})
      decreases |s|
    {
      if s == [] {
        return None;
      }
      var c := s[0];
      s := s[1..];
      if c == ']' {
        return Some((chars, s));
      }
      chars := chars + {c};
    }
  }

  /** `Reg::compile`. */
  method Compile(pattern: seq<char>) returns (r: Result<seq<RInst>, RegError>)
    ensures r == RegSpec.Compile(pattern)
  {
    var stream := pattern;
    var instrs: seq<RInst> := [];
    var patchList: seq<nat> := [];
    if |stream| > 0 && stream[0] == '^' {
      instrs := instrs + [Start];
      stream := stream[1..];
      assert instrs == [Start];
    }
    assert CompileLoop(stream, instrs) == RegSpec.Compile(pattern);
    while stream != []
      invariant Shaped(instrs)
      invariant CompileLoop(stream, instrs) == RegSpec.Compile(pattern)
      invariant patchList == []
      decreases |stream|
    {
      var ch := stream[0];
      stream := stream[1..];
      if ch == '^' {
        return Err(MisplacedAnchor);
      } else if ch == '\\' {
        if |stream| > 0 && stream[0] == 'd' {
          AppendAtom(instrs, Digit);
          instrs := instrs + [Digit];
        } else if |stream| > 0 && stream[0] == 'w' {
          AppendAtom(instrs, AlphaNumber);
          instrs := instrs + [AlphaNumber];
        } else {
          return Err(UnknownEscape);
        }
        stream := stream[1..];
      } else if ch == '.' || ch == ' ' || IsAsciiLower(ch) {
        var charInst := if ch == '.' then AnyChar else Char(ch);
        EmitAtomShaped(instrs, charInst, stream);
        instrs, patchList, stream := PushAtom(instrs, patchList, stream, charInst);
      } else if ch == '[' {
        var negated := false;
        if |stream| > 0 && stream[0] == '^' {
          negated := true;
          stream := stream[1..];
        }
        var scanned := ScanClass(stream);
        if scanned.None? {
          return Err(UnclosedCharClass);
        }
        var groupInstr := Group(negated, scanned.value.0);
        EmitAtomShaped(instrs, groupInstr, scanned.value.1);
        instrs, patchList, stream := PushAtom(instrs, patchList, scanned.value.1, groupInstr);
      } else {
        return Err(Unimplemented);
      }
    }
    instrs := instrs + [Match];
    return Ok(instrs);
  }

  /** `Reg::is_match`. */
  method IsMatch(re: Reg, text: seq<char>) returns (v: Verdict)
    requires Looped(re.instrs)
    ensures v == RegSpec.IsMatch(re.instrs, text)
  {
    if |re.instrs| == 0 {
      return Accept;
    }
    if re.instrs[0] == Start {
      return Run(re.instrs, 1, text);
    }
    var textCursor := text;
    while textCursor != []
      invariant SuffixSearch(re.instrs, textCursor) == RegSpec.IsMatch(re.instrs, text)
      decreases |textCursor|
    {
      var r := Run(re.instrs, 0, textCursor);
      if r != Reject {
        return r;
      }
      textCursor := textCursor[1..];
    }
    return Reject;
  }
}
