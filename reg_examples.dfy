/** Programs the older compiler emits for small patterns, and the verdicts of its
    interpreter on texts from the source's tests (src/reg.rs:192-281). */
module RegExamples {
  import opened Wrappers
  import opened RegSpec

  const StarLoop: seq<RInst> := [Split(1, 3), Char('a'), Jump(0)]
  const StarProg: seq<RInst> := [Split(1, 3), Char('a'), Jump(0), Char('a'), Char('b'), Match]

  lemma StarLoopShaped()
    ensures Shaped(StarLoop)
  {
    assert LoopOk(StarLoop, 0) && LoopOk(StarLoop, 1) && LoopOk(StarLoop, 2);
  }

  lemma StarTail()
    ensures Shaped(StarLoop + [Char('a')])
    ensures CompileLoop("b", StarLoop + [Char('a')]) == Ok(StarProg)
  {
    StarLoopShaped();
    AppendAtom(StarLoop, Char('a'));
    AppendAtom(StarLoop + [Char('a')], Char('b'));
    assert StarLoop + [Char('a')] + [Char('b')] + [Match] == StarProg;
    assert "b"[1..] == "";
  }

  /** `a*ab`: the loop at address 0, its Split patched to 3. */
  lemma CompileStar()
    ensures Compile("a*ab") == Ok(StarProg)
  {
    StarLoopShaped();
    StarTail();
    assert Quantified([], Char('a'), '*') == StarLoop;
    assert "ab"[1..] == "b" && "a*ab"[1..] == "*ab" && "*ab"[1..] == "ab";
    assert CompileLoop("ab", StarLoop) == Ok(StarProg);
  }

  lemma StarProgLooped()
    ensures Looped(StarProg)
  {
    assert LoopOk(StarProg, 0) && LoopOk(StarProg, 2);
  }

  /** Without an `a` directly followed by `b` in the text, `a*ab` fails from the
      start of the text, however the loop backtracks. */
  lemma {:induction false} StarRejects(t: seq<char>)
    requires forall i :: 0 <= i < |t| - 1 ==> !(t[i] == 'a' && t[i + 1] == 'b')
    ensures Looped(StarProg) && Run(StarProg, 0, t) == Reject
    decreases |t|
  {
    StarProgLooped();
    if |t| > 0 && t[0] == 'a' {
      StarRejects(t[1..]);
      assert Run(StarProg, 1, t) == Run(StarProg, 0, t[1..]);
      assert |t| > 1 ==> t[1..][0] != 'b';
      assert Run(StarProg, 3, t) == Run(StarProg, 4, t[1..]) == Reject;
    }
  }

  /** `a*ab` does not match "aaacb" (src/reg.rs:274-280). */
  lemma StarRejectsAaacb()
    ensures Looped(StarProg) && IsMatch(StarProg, "aaacb") == Reject
  {
    StarProgLooped();
    var t := "aaacb";
    forall k | 0 <= k < |t| ensures Run(StarProg, 0, t[k..]) == Reject {
      StarRejects(t[k..]);
    }
    SuffixSearchRejects(StarProg, t, 0);
    assert t[0..] == t;
  }
}
