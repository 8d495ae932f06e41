/** Concrete runs of the VM on the program the parser emits for `(.)\1a`
    (group 1 around any character, a back-reference to it, then `a`; see
    BackrefProgCompiled). Each run is taken one instruction at a time. */
module VmExamples {
  import opened Wrappers
  import opened Utf8Text
  import opened Ir
  import opened VmSpec
  import ParserSpec
  import ParserLaws

  const BackrefProg: seq<Inst> := [GroupBegin(1), AnyChar, GroupEnd(1), Ref(1), Char('a'), Match]

  /** BackrefProg is what the parser makes of `(.)\1a`: the group, then the
      back-reference and the letter, then Match. */
  lemma BackrefProgCompiled()
    ensures ParserSpec.Compile("(.)\\1a") == Ok(BackrefProg)
  {
    ParserLaws.BackrefExpr();
    assert [GroupBegin(1), AnyChar, GroupEnd(1), Ref(1), Char('a')] + [Match] == BackrefProg;
  }

  /** GroupBegin pushes a fresh entry at the cursor. */
  lemma OpenGroup(text: seq<char>, fuel: nat)
    requires fuel > 0
    ensures Run(BackrefProg, text, 0, 0, [], fuel) == Run(BackrefProg, text, 1, 0, [(0, 0)], fuel - 1)
  {
    assert Step(GroupBegin(1), text, 0, 0, []) == Goto(1, 0, [] + [(0, 0)]);
    assert [] + [(0, 0)] == [(0, 0)];
  }

  /** GroupEnd(1) writes the cursor as the end of entry 0 and keeps the verdict of
      the rest of the run. */
  lemma CloseGroup(text: seq<char>, cursor: nat, start: nat, fuel: nat)
    requires fuel > 0
    ensures Run(BackrefProg, text, 2, cursor, [(start, 0)], fuel).0 == Run(BackrefProg, text, 3, cursor, [(start, cursor)], fuel - 1).0
  {
    assert Step(GroupEnd(1), text, 2, cursor, [(start, 0)]) == Close(1);
    assert SetEnd([(start, 0)], 0, cursor) == [(start, cursor)];
  }

  lemma AsciiFirstChar()
    ensures Run(BackrefProg, "xxa", 1, 0, [(0, 0)], 9) == Run(BackrefProg, "xxa", 2, 1, [(0, 0)], 8)
  {
    assert CharAt("xxa", 0) == Some('x') by { CharAtPosition("xxa", 0); }
    assert NextCursor("xxa", 0) == 1;
    assert Step(AnyChar, "xxa", 1, 0, [(0, 0)]) == Goto(2, 1, [(0, 0)]);
  }

  lemma AsciiRefStep()
    ensures RefStep("xxa", 1, [(0, 1)], 1) == RefAdvance(2)
  {
    var t := "xxa";
    assert ByteLen(t) == 3 by { AsciiByteLen(t); }
    assert SliceOpt(t, 0, 1) == Some("x") && SliceOpt(t, 1, 3) == Some("xa") by {
      LocateAscii(t, 0);
      LocateAscii(t, 1);
      LocateAscii(t, 3);
      assert t[0..1] == "x" && t[1..3] == "xa";
    }
    assert IsPrefix("x", "xa");
  }

  lemma AsciiRef()
    ensures Run(BackrefProg, "xxa", 3, 1, [(0, 1)], 7) == Run(BackrefProg, "xxa", 4, 2, [(0, 1)], 6)
  {
    AsciiRefStep();
    assert Step(Ref(1), "xxa", 3, 1, [(0, 1)]) == Goto(4, 2, [(0, 1)]);
  }

  lemma AsciiTail()
    ensures Run(BackrefProg, "xxa", 4, 2, [(0, 1)], 6).0 == Accept
  {
    var t := "xxa";
    assert CharAt(t, 2) == Some('a') by { CharAtPosition(t, 2); AsciiByteLen(t[..2]); }
    assert NextCursor(t, 2) == 3;
    assert Step(Char('a'), t, 4, 2, [(0, 1)]) == Goto(5, 3, [(0, 1)]);
    assert Run(BackrefProg, t, 5, 3, [(0, 1)], 5) == (Accept, [(0, 1)]);
  }

  /** On ASCII text the back-reference works: "xxa" matches `(.)\1a`. */
  lemma AsciiBackref()
    ensures Run(BackrefProg, "xxa", 0, 0, [], 10).0 == Accept
  {
    OpenGroup("xxa", 10);
    AsciiFirstChar();
    CloseGroup("xxa", 1, 0, 8);
    AsciiRef();
    AsciiTail();
  }

  lemma WideFirstChar()
    ensures Run(BackrefProg, "ééa", 1, 0, [(0, 0)], 9) == Run(BackrefProg, "ééa", 2, 2, [(0, 0)], 8)
  {
    assert CharAt("ééa", 0) == Some('é') by { CharAtPosition("ééa", 0); }
    assert NextCursor("ééa", 0) == 2;
    assert Step(AnyChar, "ééa", 1, 0, [(0, 0)]) == Goto(2, 2, [(0, 0)]);
  }

  /** The character boundaries of "ééa" are the byte offsets 0, 2, 4 and 5. */
  lemma WideBoundaries()
    ensures ByteLen("ééa") == 5
    ensures Locate("ééa", 0) == Some(0) && Locate("ééa", 2) == Some(1) && Locate("ééa", 5) == Some(3)
  {
    var t := "ééa";
    assert t[..1] == "é" && t[..3] == t;
    assert ByteLen(t) == 5;
    LocatePrefix(t, 0);
    LocatePrefix(t, 1);
    LocatePrefix(t, 3);
    assert t[..3] == t;
  }

  lemma WideSlices()
    ensures ByteLen("ééa") == 5
    ensures SliceOpt("ééa", 0, 2) == Some("é") && SliceOpt("ééa", 2, 5) == Some("éa")
  {
    WideBoundaries();
    var t := "ééa";
    assert t[0..1] == "é" && t[1..3] == "éa";
  }

  /** The capture "é" is two bytes long, but the cursor moves on by one. */
  lemma WideRef()
    ensures Run(BackrefProg, "ééa", 3, 2, [(0, 2)], 7) == Run(BackrefProg, "ééa", 4, 3, [(0, 2)], 6)
  {
    WideSlices();
    assert IsPrefix("é", "éa");
    assert RefStep("ééa", 2, [(0, 2)], 1) == RefAdvance(3);
    assert Step(Ref(1), "ééa", 3, 2, [(0, 2)]) == Goto(4, 3, [(0, 2)]);
  }

  /** Byte 3 is inside the second "é": no character can be read there. */
  lemma WideTail()
    ensures Run(BackrefProg, "ééa", 4, 3, [(0, 2)], 6).0 == Reject
  {
    var t := "ééa";
    assert CharAt(t, 3).None? by {
      CharAtIff(t, 3);
      assert ByteLen(t[..0]) == 0 && ByteLen(t[..1]) == 2 && ByteLen(t[..2]) == 4;
    }
    assert Step(Char('a'), t, 4, 3, [(0, 2)]) == Halt(Reject);
  }

  /** On "ééa" the capture "é" spans two bytes but the cursor moves on by one, into
      the middle of the second "é", where `a` cannot be read: the text does not match
      although it has the shape the pattern describes. */
  lemma WideBackref()
    ensures Run(BackrefProg, "ééa", 0, 0, [], 10).0 == Reject
  {
    OpenGroup("ééa", 10);
    WideFirstChar();
    CloseGroup("ééa", 2, 0, 8);
    WideRef();
    WideTail();
  }

  /** In `(a\1)` on "xa", started at byte 1, the reference reads group 1 while it
      is still open: its end 0 lies below its start 1, so the slice is refused and
      the VM panics. */
  lemma OpenGroupRefPanics()
    ensures RefStep("xa", 2, [(1, 0)], 1) == RefPanic
  {
    assert SliceOpt("xa", 1, 0).None?;
  }
}
