/** The VM object of the newer engine (src/regex/vm.rs:3-99): a borrowed program and
    a capture table the run pushes to and patches as it goes. `Run` is proved to
    compute the pure interpreter `VmSpec.Run`, table included. */
module Vm {
  import opened Wrappers
  import opened Utf8Text
  import opened Ir
  import opened Emit
  import opened VmSpec

  class VM {
    const instrs: seq<Inst>
    /** `capatured`: (start, end) byte offsets, one entry per group entered. */
    var captured: Captures

    /** `VM::new`: an empty capture table. */
    constructor (instrs: seq<Inst>)
      ensures this.instrs == instrs && captured == []
    {
      this.instrs := instrs;
      captured := [];
    }

    /** `save_context`: opens a capture at `cursor` with end 0. */
    method SaveContext(cursor: nat)
      modifies this
      ensures captured == old(captured) + [(cursor, 0)]
    {
      captured := captured + [(cursor, 0)];
    }

    /** `fill_back`: sets the end of capture `groupNum`, when it exists. Group 0
        would underflow `group_num - 1`. */
    method FillBack(groupNum: nat, end: nat)
      requires groupNum >= 1
      modifies this
      ensures captured == SetEnd(old(captured), groupNum - 1, end)
    {
      if groupNum - 1 < |captured| {
        captured := captured[groupNum - 1 := (captured[groupNum - 1].0, end)];
      }
    }

    /** `restore_context`: resets the end of capture `groupNum` to 0, when it exists. */
    method RestoreContext(groupNum: nat)
      requires groupNum >= 1
      modifies this
      ensures captured == SetEnd(old(captured), groupNum - 1, 0)
    {
      if groupNum - 1 < |captured| {
        captured := captured[groupNum - 1 := (captured[groupNum - 1].0, 0)];
      }
    }

    /** `jump_by`. A negative result, which the source casts to a huge `usize`, is
        left negative here; `Run` treats both as an index out of range. */
    static function JumpBy(pc: int, offset: int): (r: int)
      ensures forall target :: CalcJumpOffset(pc, target) == offset ==> r == target
    {
      pc + offset
    }

    /** `run`: whether the program accepts from `pc` at byte offset `cursor`.
        Every call spends one unit of fuel. The arms with more than one step are the
        methods below. */
    method Run(pc: int, text: seq<char>, cursor: nat, fuel: nat) returns (v: Verdict)
      modifies this
      decreases fuel, 1
      ensures (v, captured) == VmSpec.Run(instrs, text, pc, cursor, old(captured), fuel)
    {
      if fuel == 0 {
        return OutOfFuel;
      }
      if pc < 0 || pc >= |instrs| {
        return Panic;
      }
      match instrs[pc]
      case Start =>
        v := if cursor == 0 then Accept else Reject;
      case End =>
        v := if CharAt(text, cursor).None? then Accept else Reject;
      case Match =>
        v := Accept;
      case Jump(offset) =>
        v := Run(JumpBy(pc, offset), text, cursor, fuel - 1);
      case Split(_, _) =>
        v := RunSplit(pc, text, cursor, fuel);
      case GroupBegin(_) =>
        SaveContext(cursor);
        v := Run(pc + 1, text, cursor, fuel - 1);
      case GroupEnd(_) =>
        v := RunGroupEnd(pc, text, cursor, fuel);
      case Ref(_) =>
        v := RunRef(pc, text, cursor, fuel);
      case _ =>
        v := RunConsume(pc, text, cursor, fuel);
    }

    /** The `Split` arm: the first target, and the second when the first fails (on
        the table the first left behind). */
    method RunSplit(pc: int, text: seq<char>, cursor: nat, fuel: nat) returns (v: Verdict)
      requires fuel > 0 && 0 <= pc < |instrs| && instrs[pc].Split?
      modifies this
      decreases fuel, 0
      ensures (v, captured) == VmSpec.Run(instrs, text, pc, cursor, old(captured), fuel)
    {
      assert Step(instrs[pc], text, pc, cursor, captured) == Fork(JumpBy(pc, instrs[pc].offset1), JumpBy(pc, instrs[pc].offset2));
      v := Run(JumpBy(pc, instrs[pc].offset1), text, cursor, fuel - 1);
      if v == Reject {
        v := Run(JumpBy(pc, instrs[pc].offset2), text, cursor, fuel - 1);
      }
    }

    /** The `GroupEnd` arm: close the capture, run on, and reopen it on failure. */
    method RunGroupEnd(pc: int, text: seq<char>, cursor: nat, fuel: nat) returns (v: Verdict)
      requires fuel > 0 && 0 <= pc < |instrs| && instrs[pc].GroupEnd?
      modifies this
      decreases fuel, 0
      ensures (v, captured) == VmSpec.Run(instrs, text, pc, cursor, old(captured), fuel)
    {
      var n := instrs[pc].group;
      if n == 0 {
        return Panic;
      }
      FillBack(n, cursor);
      v := Run(pc + 1, text, cursor, fuel - 1);
      if v == Reject {
        RestoreContext(n);
      }
    }

    /** The `Ref` arm: `RefStep` looks the capture up and checks that it starts the
        rest of the text; the cursor then moves on by its number of characters. */
    method RunRef(pc: int, text: seq<char>, cursor: nat, fuel: nat) returns (v: Verdict)
      requires fuel > 0 && 0 <= pc < |instrs| && instrs[pc].Ref?
      modifies this
      decreases fuel, 0
      ensures (v, captured) == VmSpec.Run(instrs, text, pc, cursor, old(captured), fuel)
    {
      var step := RefStep(text, cursor, captured, instrs[pc].group);
      match step
      case RefPanic => v := Panic;
      case RefFail => v := Reject;
      case RefAdvance(next) =>
        assert Step(instrs[pc], text, pc, cursor, captured) == Goto(pc + 1, next, captured);
        v := Run(pc + 1, text, next, fuel - 1);
    }

    /** The arms that read one character: `Char`, `AnyChar`, `CharClass`, `Digit`,
        `MetaChar`. */
    method RunConsume(pc: int, text: seq<char>, cursor: nat, fuel: nat) returns (v: Verdict)
      requires fuel > 0 && 0 <= pc < |instrs|
      requires instrs[pc].Char? || instrs[pc].AnyChar? || instrs[pc].CharClass? || instrs[pc].Digit? || instrs[pc].MetaChar?
      modifies this
      decreases fuel, 0
      ensures (v, captured) == VmSpec.Run(instrs, text, pc, cursor, old(captured), fuel)
    {
      var inst := instrs[pc];
      var ok := if inst.Char? then MatchWithAt(text, cursor, inst.c)
                else CharAt(text, cursor).Some? && IsMatch(inst, CharAt(text, cursor).value);
      if ok {
        assert Step(inst, text, pc, cursor, captured) == Goto(pc + 1, NextCursor(text, cursor), captured);
        v := Run(pc + 1, text, NextCursor(text, cursor), fuel - 1);
      } else {
        v := Reject;
      }
    }
  }
}
