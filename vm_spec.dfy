/** The backtracking interpreter of the newer engine (`VM::run`,
    src/regex/vm.rs:35-99) as a pure function. The capture table the VM mutates is
    passed in and returned, so a failed first arm of a Split hands its table to the
    second arm just as the Rust object does. Recursion is cut off by fuel. */
module VmSpec {
  import opened Wrappers
  import opened Utf8Text
  import opened Ir
  import opened Emit
  import opened ParserSpec

  /** `capatured`: one (start, end) pair of byte offsets per GroupBegin executed. */
  type Captures = seq<(nat, nat)>

  /** `get_mut(i)` then a write of the end: a no-op when entry i is absent. */
  function SetEnd(caps: Captures, i: int, end: nat): (r: Captures)
    ensures |r| == |caps|
    ensures forall k :: 0 <= k < |caps| ==> r[k].0 == caps[k].0
    ensures forall k :: 0 <= k < |caps| ==> r[k].1 == if k == i then end else caps[k].1
  {
    if 0 <= i < |caps| then caps[i := (caps[i].0, end)] else caps
  }

  /** The table only grows and no start offset is ever rewritten. */
  predicate Kept(caps: Captures, after: Captures)
  {
    |caps| <= |after| && forall i :: 0 <= i < |caps| ==> after[i].0 == caps[i].0
  }

  /** Every end offset is back where it was before the run, or reset to 0 (entries
      the run added have end 0). */
  predicate RolledBack(caps: Captures, after: Captures)
  {
    forall i :: 0 <= i < |after| ==> after[i].1 == 0 || (i < |caps| && after[i].1 == caps[i].1)
  }

  /** `s.starts_with(p)`. */
  predicate IsPrefix(p: seq<char>, s: seq<char>)
  {
    |p| <= |s| && s[..|p|] == p
  }

  /** What `Inst::Ref(n)` decides before running on. */
  datatype RefOutcome = RefPanic | RefFail | RefAdvance(next: nat)

  /** `Inst::Ref(n)`: `n - 1` underflows on 0; a group not yet opened fails; slicing
      the rest of the text or the capture off a character boundary (or with start
      past end) panics; otherwise the capture must start the rest of the text, and
      the cursor moves on by the number of CHARACTERS of the capture. */
  function RefStep(text: seq<char>, cursor: nat, caps: Captures, n: nat): (r: RefOutcome)
    ensures n == 0 ==> r == RefPanic
    ensures 1 <= n && n > |caps| ==> r == RefFail
    ensures r.RefAdvance? ==>
              && 1 <= n <= |caps|
              && SliceOpt(text, caps[n - 1].0, caps[n - 1].1).Some?
              && SliceOpt(text, cursor, ByteLen(text)).Some?
              && IsPrefix(SliceOpt(text, caps[n - 1].0, caps[n - 1].1).value, SliceOpt(text, cursor, ByteLen(text)).value)
              && r.next == cursor + |SliceOpt(text, caps[n - 1].0, caps[n - 1].1).value|
    ensures 1 <= n <= |caps| ==>
              var rest := SliceOpt(text, cursor, ByteLen(text));
              var group := SliceOpt(text, caps[n - 1].0, caps[n - 1].1);
              && (rest.None? || group.None? ==> r == RefPanic)
              && (rest.Some? && group.Some? && IsPrefix(group.value, rest.value) ==> r == RefAdvance(cursor + |group.value|))
              && (rest.Some? && group.Some? && !IsPrefix(group.value, rest.value) ==> r == RefFail)
  {
    if n == 0 then RefPanic
    else if n - 1 >= |caps| then RefFail
    else
      var rest := SliceOpt(text, cursor, ByteLen(text));
      var group := SliceOpt(text, caps[n - 1].0, caps[n - 1].1);
      if rest.None? || group.None? then RefPanic
      else if IsPrefix(group.value, rest.value) then RefAdvance(cursor + |group.value|)
      else RefFail
  }

  /** What one instruction decides before the interpreter runs on: a verdict, a
      single successor (pc, cursor, table), the two arms of a Split, or the
      continuation of a GroupEnd, whose end is written before and reset after. */
  datatype Action =
    | Halt(verdict: Verdict)
    | Goto(target: int, at: nat, table: Captures)
    | Fork(first: int, second: int)
    | Close(group: nat)

  /** One instruction of `VM::run` at `pc`, without the recursive call. */
  function Step(inst: Inst, text: seq<char>, pc: int, cursor: nat, caps: Captures): (a: Action)
    ensures a.Goto? ==> a.table == caps || (inst.GroupBegin? && a.table == caps + [(cursor, 0)])
    ensures a.Goto? && !inst.Jump? && !inst.Ref? ==> a.target == pc + 1
    ensures a.Close? ==> inst.GroupEnd? && a.group == inst.group >= 1
    ensures a.Halt? ==> a.verdict != OutOfFuel
    ensures a.Halt? && a.verdict == Panic ==> inst.Ref? || (inst.GroupEnd? && inst.group == 0)
  {
    match inst
    case Start => Halt(if cursor == 0 then Accept else Reject)
    case End => Halt(if CharAt(text, cursor).None? then Accept else Reject)
    case Match => Halt(Accept)
    case Jump(o) => Goto(pc + o, cursor, caps)
    case Split(o1, o2) => Fork(pc + o1, pc + o2)
    case GroupBegin(_) => Goto(pc + 1, cursor, caps + [(cursor, 0)])
    // `group_num - 1` underflows on group 0
    case GroupEnd(n) => if n == 0 then Halt(Panic) else Close(n)
    case Ref(n) =>
      var step := RefStep(text, cursor, caps, n);
      if step.RefPanic? then Halt(Panic)
      else if step.RefFail? then Halt(Reject)
      else Goto(pc + 1, step.next, caps)
    case _ =>
      // Char, AnyChar, CharClass, Digit, MetaChar
      var ch := CharAt(text, cursor);
      if ch.Some? && IsMatch(inst, ch.value) then Goto(pc + 1, NextCursor(text, cursor), caps)
      else Halt(Reject)
  }

  /** `VM::run(pc, text, cursor)` with capture table `caps`: the verdict and the
      table afterwards. A pc outside the program (one `jump_by` drove below 0 wraps to
      a huge usize) is an index panic. */
  function Run(prog: seq<Inst>, text: seq<char>, pc: int, cursor: nat, caps: Captures, fuel: nat): (r: (Verdict, Captures))
    decreases fuel
    ensures Kept(caps, r.1)
    ensures r.0 == Reject ==> RolledBack(caps, r.1)
    ensures r.0 == Reject && fuel > 0 && 0 <= pc < |prog| && prog[pc].GroupEnd? && 1 <= prog[pc].group <= |caps| ==>
              r.1[prog[pc].group - 1].1 == 0
  {
    if fuel == 0 then (OutOfFuel, caps)
    else if pc < 0 || pc >= |prog| then (Panic, caps)
    else
      match Step(prog[pc], text, pc, cursor, caps)
      case Halt(v) => (v, caps)
      case Goto(next, at, table) => Run(prog, text, next, at, table, fuel - 1)
      case Fork(p1, p2) =>
        var first := Run(prog, text, p1, cursor, caps, fuel - 1);
        if first.0 == Reject then Run(prog, text, p2, cursor, first.1, fuel - 1) else first
      case Close(n) =>
        var cont := Run(prog, text, pc + 1, cursor, SetEnd(caps, n - 1, cursor), fuel - 1);
        if cont.0 == Reject then (Reject, SetEnd(cont.1, n - 1, 0)) else cont
  }

  /** No back-reference anywhere in the program. */
  predicate RefFree(prog: seq<Inst>)
  {
    forall i :: 0 <= i < |prog| ==> !prog[i].Ref?
  }

  /** What the no-panic argument needs of a program: jumps stay inside, the last
      instruction is Match and no other is, no group marker is numbered 0, and no
      back-reference occurs. */
  predicate PanicFree(prog: seq<Inst>)
  {
    && |prog| >= 1
    && prog[|prog| - 1] == Match
    && (forall i :: 0 <= i < |prog| - 1 ==> !prog[i].Match?)
    && ClosedIn(prog, 0, 0, |prog| - 1)
    && (forall i :: 0 <= i < |prog| && prog[i].GroupEnd? ==> prog[i].group >= 1)
    && RefFree(prog)
  }

  lemma WellFormedPanicFree(prog: seq<Inst>)
    requires WellFormed(prog) && RefFree(prog)
    ensures PanicFree(prog)
  {
    forall i | 0 <= i < |prog| - 1 ensures !prog[i].Match? {
      assert prog[..|prog| - 1][i] == prog[i];
    }
  }

  /** A compiled program without back-references never panics: every jump stays in
      the program, every instruction but the final Match has a successor, and no
      group marker carries number 0. Only slicing for `\n` can panic. */
  lemma NoPanicWithoutRef(prog: seq<Inst>, text: seq<char>, pc: int, cursor: nat, caps: Captures, fuel: nat)
    requires WellFormed(prog) && RefFree(prog) && 0 <= pc < |prog|
    ensures Run(prog, text, pc, cursor, caps, fuel).0 != Panic
  {
    WellFormedPanicFree(prog);
    NoPanic(prog, text, pc, cursor, caps, fuel);
  }

  /** In a panic-free program one instruction never panics and every successor it
      names is inside the program. */
  lemma StepSafe(prog: seq<Inst>, text: seq<char>, pc: int, cursor: nat, caps: Captures)
    requires PanicFree(prog) && 0 <= pc < |prog|
    ensures Step(prog[pc], text, pc, cursor, caps) != Halt(Panic)
    ensures Step(prog[pc], text, pc, cursor, caps).Goto? ==> 0 <= Step(prog[pc], text, pc, cursor, caps).target < |prog|
    ensures Step(prog[pc], text, pc, cursor, caps).Fork? ==>
              0 <= Step(prog[pc], text, pc, cursor, caps).first < |prog| && 0 <= Step(prog[pc], text, pc, cursor, caps).second < |prog|
    ensures Step(prog[pc], text, pc, cursor, caps).Close? ==> pc + 1 < |prog|
  {
    assert TargetOk(prog[pc], pc, 0, |prog| - 1);
    assert !prog[pc].Ref?;
    if !prog[pc].Match? {
      assert pc < |prog| - 1;
    }
  }

  lemma {:induction false} NoPanic(prog: seq<Inst>, text: seq<char>, pc: int, cursor: nat, caps: Captures, fuel: nat)
    requires PanicFree(prog) && 0 <= pc < |prog|
    ensures Run(prog, text, pc, cursor, caps, fuel).0 != Panic
    decreases fuel, 1
  {
    if fuel > 0 {
      StepSafe(prog, text, pc, cursor, caps);
      var a := Step(prog[pc], text, pc, cursor, caps);
      if a.Goto? {
        NoPanic(prog, text, a.target, a.at, a.table, fuel - 1);
      } else if a.Fork? {
        NoPanicFork(prog, text, pc, cursor, caps, fuel);
      } else if a.Close? {
        NoPanic(prog, text, pc + 1, cursor, SetEnd(caps, a.group - 1, cursor), fuel - 1);
      }
    }
  }

  lemma {:induction false} NoPanicFork(prog: seq<Inst>, text: seq<char>, pc: int, cursor: nat, caps: Captures, fuel: nat)
    requires PanicFree(prog) && 0 <= pc < |prog| && fuel > 0 && Step(prog[pc], text, pc, cursor, caps).Fork?
    ensures Run(prog, text, pc, cursor, caps, fuel).0 != Panic
    decreases fuel, 0
  {
    StepSafe(prog, text, pc, cursor, caps);
    var a := Step(prog[pc], text, pc, cursor, caps);
    NoPanic(prog, text, a.first, cursor, caps, fuel - 1);
    var first := Run(prog, text, a.first, cursor, caps, fuel - 1);
    NoPanic(prog, text, a.second, cursor, first.1, fuel - 1);
  }

  /** Fuel is only a cut-off: once a run finishes, more fuel gives the same verdict
      and the same capture table. */
  lemma {:induction false} FuelMonotone(prog: seq<Inst>, text: seq<char>, pc: int, cursor: nat, caps: Captures, fuel: nat, more: nat)
    requires fuel <= more
    requires Run(prog, text, pc, cursor, caps, fuel).0 != OutOfFuel
    ensures Run(prog, text, pc, cursor, caps, more) == Run(prog, text, pc, cursor, caps, fuel)
    decreases fuel, 1
  {
    if 0 <= pc < |prog| {
      var a := Step(prog[pc], text, pc, cursor, caps);
      if a.Goto? {
        FuelMonotone(prog, text, a.target, a.at, a.table, fuel - 1, more - 1);
      } else if a.Fork? {
        FuelFork(prog, text, pc, cursor, caps, fuel, more);
      } else if a.Close? {
        FuelClose(prog, text, pc, cursor, caps, fuel, more);
      }
    }
  }

  lemma {:induction false} FuelFork(prog: seq<Inst>, text: seq<char>, pc: int, cursor: nat, caps: Captures, fuel: nat, more: nat)
    requires fuel <= more && 0 <= pc < |prog| && Step(prog[pc], text, pc, cursor, caps).Fork?
    requires Run(prog, text, pc, cursor, caps, fuel).0 != OutOfFuel
    ensures Run(prog, text, pc, cursor, caps, more) == Run(prog, text, pc, cursor, caps, fuel)
    decreases fuel, 0
  {
    var a := Step(prog[pc], text, pc, cursor, caps);
    var first := Run(prog, text, a.first, cursor, caps, fuel - 1);
    assert Run(prog, text, pc, cursor, caps, fuel)
           == if first.0 == Reject then Run(prog, text, a.second, cursor, first.1, fuel - 1) else first;
    FuelMonotone(prog, text, a.first, cursor, caps, fuel - 1, more - 1);
    assert Run(prog, text, pc, cursor, caps, more)
           == if first.0 == Reject then Run(prog, text, a.second, cursor, first.1, more - 1) else first;
    if first.0 == Reject {
      FuelMonotone(prog, text, a.second, cursor, first.1, fuel - 1, more - 1);
    }
  }

  lemma {:induction false} FuelClose(prog: seq<Inst>, text: seq<char>, pc: int, cursor: nat, caps: Captures, fuel: nat, more: nat)
    requires fuel <= more && 0 <= pc < |prog| && Step(prog[pc], text, pc, cursor, caps).Close?
    requires Run(prog, text, pc, cursor, caps, fuel).0 != OutOfFuel
    ensures Run(prog, text, pc, cursor, caps, more) == Run(prog, text, pc, cursor, caps, fuel)
    decreases fuel, 0
  {
    var n := Step(prog[pc], text, pc, cursor, caps).group;
    var cont := Run(prog, text, pc + 1, cursor, SetEnd(caps, n - 1, cursor), fuel - 1);
    assert Run(prog, text, pc, cursor, caps, fuel) == if cont.0 == Reject then (Reject, SetEnd(cont.1, n - 1, 0)) else cont;
    FuelMonotone(prog, text, pc + 1, cursor, SetEnd(caps, n - 1, cursor), fuel - 1, more - 1);
  }

  /** A run from a table whose ends are all 0 (a fresh VM's, or one only GroupBegin
      has pushed to) that fails leaves every end 0 again. */
  lemma RejectClearsEnds(prog: seq<Inst>, text: seq<char>, pc: int, cursor: nat, caps: Captures, fuel: nat)
    requires forall i :: 0 <= i < |caps| ==> caps[i].1 == 0
    requires Run(prog, text, pc, cursor, caps, fuel).0 == Reject
    ensures forall i :: 0 <= i < |Run(prog, text, pc, cursor, caps, fuel).1| ==> Run(prog, text, pc, cursor, caps, fuel).1[i].1 == 0
  {
  }
}
