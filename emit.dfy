/** The code emitters of the newer compiler (the associated functions of `Parser`
    at src/regex/parser.rs:336-408 that do not touch parser state), and the block
    invariants every emitted block keeps. Offsets are relative: an instruction at
    index i with offset o transfers control to index i + o. */
module Emit {
  import opened Wrappers
  import opened Ir

  /** `calc_jump_offset`: the offset that leads from base to target. */
  function CalcJumpOffset(base: int, target: int): (offset: int)
    ensures base + offset == target
  {
    target - base
  }

  /** `emit_jump_forward(insts)`: a Jump that, placed just before insts, lands just past them. */
  function EmitJumpForward(insts: seq<Inst>): (j: Inst)
    ensures j.Jump? && j.offset == |insts| + 1
  {
    Jump(CalcJumpOffset(0, |insts| + 1))
  }

  /** `emit_jump_backward(insts)`: a Jump that, placed just after insts, lands one
      instruction before their first one. */
  function EmitJumpBackward(insts: seq<Inst>): (j: Inst)
    ensures j.Jump? && |insts| + j.offset == -1
  {
    Jump(CalcJumpOffset(|insts|, -1))
  }

  /** `emit_split_code(b1, b2)`: a Split whose first arm enters b1 and whose
      second arm enters b2, followed by b1 and b2. */
  function EmitSplitCode(branch1: seq<Inst>, branch2: seq<Inst>): (r: seq<Inst>)
    ensures |r| == 1 + |branch1| + |branch2|
    ensures r[0].Split? && r[0].offset1 == 1 && r[0].offset2 == 1 + |branch1|
    ensures r[1..1 + |branch1|] == branch1 && r[1 + |branch1|..] == branch2
  {
    var splitIndex := 0;
    var branch2Index := splitIndex + |branch1| + 1;
    [Split(1, CalcJumpOffset(splitIndex, branch2Index))] + branch1 + branch2
  }

  /** `emit_zero_or_more_code(X)`: `Split(1, |X|+2); X; Jump(-(|X|+1))`. The closing
      Jump lands on the block's own Split, whose second arm lands just past the block. */
  function EmitZeroOrMore(block: seq<Inst>): (r: seq<Inst>)
    ensures |r| == |block| + 2
    ensures r[0].Split? && r[0].offset1 == 1 && r[0].offset2 == |r|
    ensures r[1..|block| + 1] == block
    ensures r[|block| + 1].Jump? && |block| + 1 + r[|block| + 1].offset == 0
  {
    var branch1 := block + [EmitJumpBackward(block)];
    assert branch1[..|block|] == block;
    EmitSplitCode(branch1, [])
  }

  /** `emit_one_or_more_code(X)`: one mandatory copy of X, then `X*`: a Split whose
      second arm leaves the code, the same block again, and a Jump back to the Split. */
  function EmitOneOrMore(block: seq<Inst>): seq<Inst>
  {
    block + EmitZeroOrMore(block)
  }

  /** The layout of `X+`: X, a Split that enters the second copy or leaves, the
      second copy, and a Jump back to the Split. */
  lemma OneOrMoreShape(block: seq<Inst>)
    ensures var r := EmitOneOrMore(block);
            && |r| == 2 * |block| + 2
            && r[..|block|] == block && r[|block| + 1..2 * |block| + 1] == block
            && r[|block|].Split? && r[|block|].offset1 == 1 && |block| + r[|block|].offset2 == |r|
            && r[2 * |block| + 1].Jump? && 2 * |block| + 1 + r[2 * |block| + 1].offset == |block|
  {
  }

  /** `emit_zero_or_one_code(X)`: `Split(1, |X|+1); X`; the second arm skips X. */
  function EmitZeroOrOne(block: seq<Inst>): (r: seq<Inst>)
    ensures |r| == |block| + 1
    ensures r[0].Split? && r[0].offset1 == 1 && r[0].offset2 == |r|
    ensures r[1..] == block
  {
    EmitSplitCode(block, [])
  }

  /** The alternation `A|B` inside a group (src/regex/parser.rs:110-114): a forward
      Jump closes A, then the Split puts A before B. The Jump after A lands just
      past B, and the Split's second arm lands on B. */
  function EmitAlternation(branch1: seq<Inst>, branch2: seq<Inst>): (r: seq<Inst>)
    ensures |r| == |branch1| + |branch2| + 2
    ensures r[0].Split? && r[0].offset1 == 1 && 1 + |branch1| + 1 == r[0].offset2
    ensures r[1..|branch1| + 1] == branch1 && r[|branch1| + 2..] == branch2
    ensures r[|branch1| + 1].Jump? && |branch1| + 1 + r[|branch1| + 1].offset == |r|
  {
    var b1 := branch1 + [EmitJumpForward(branch2)];
    assert b1[..|branch1|] == branch1;
    EmitSplitCode(b1, branch2)
  }

  /** `n` copies of a block, one after the other. */
  function Repeat(block: seq<Inst>, n: nat): seq<Inst>
  {
    if n == 0 then [] else block + Repeat(block, n - 1)
  }

  // ---------------------------------------------------------------------------
  // Block invariants

  /** Every target of inst, placed at absolute index `at`, lies in [lo, hi]. */
  predicate TargetOk(inst: Inst, at: int, lo: int, hi: int)
  {
    match inst
    case Jump(o) => lo <= at + o <= hi
    case Split(o1, o2) => lo <= at + o1 <= hi && lo <= at + o2 <= hi
    case _ => true
  }

  /** Placed at index `base`, every Split/Jump of b lands in [lo, hi]. */
  predicate ClosedIn(b: seq<Inst>, base: int, lo: int, hi: int)
  {
    forall i :: 0 <= i < |b| ==> TargetOk(b[i], base + i, lo, hi)
  }

  /** Every Split/Jump of b lands at a relative index in [0, |b|]: inside b or just past it. */
  predicate Closed(b: seq<Inst>)
  {
    ClosedIn(b, 0, 0, |b|)
  }

  predicate MatchFree(b: seq<Inst>)
  {
    forall i :: 0 <= i < |b| ==> !b[i].Match?
  }

  /** Group markers of b carry numbers in [lo, hi). */
  predicate GroupsIn(b: seq<Inst>, lo: int, hi: int)
  {
    forall i :: 0 <= i < |b| && (b[i].GroupBegin? || b[i].GroupEnd?) ==> lo <= b[i].group < hi
  }

  /** Reads the group markers of b as brackets against a stack of open groups:
      GroupBegin(n) opens n, GroupEnd(n) must close the innermost open group n. */
  function Scan(b: seq<Inst>, open: seq<nat>): Option<seq<nat>>
    decreases |b|
  {
    if b == [] then Some(open)
    else
      match b[0]
      case GroupBegin(n) => Scan(b[1..], open + [n])
      case GroupEnd(n) =>
        if open != [] && open[|open| - 1] == n then Scan(b[1..], open[..|open| - 1]) else None
      case _ => Scan(b[1..], open)
  }

  /** GroupBegin/GroupEnd are paired by number and well nested. */
  predicate Balanced(b: seq<Inst>)
  {
    Scan(b, []) == Some([])
  }

  /** Back-references name groups from 1 on (the parser reads `\1` to `\9`). */
  predicate RefsPositive(b: seq<Inst>)
  {
    forall i :: 0 <= i < |b| && b[i].Ref? ==> b[i].group >= 1
  }

  /** What every block emitted by the compiler satisfies, for group numbers in [lo, hi). */
  predicate Block(b: seq<Inst>, lo: int, hi: int)
  {
    Closed(b) && MatchFree(b) && GroupsIn(b, lo, hi) && Balanced(b) && RefsPositive(b)
  }

  // ---------------------------------------------------------------------------
  // Lemmas

  /** Relative offsets make a closed block position-independent: wherever it is
      placed, its jumps land inside its own span or just past it. */
  lemma PositionIndependent(pre: seq<Inst>, b: seq<Inst>, post: seq<Inst>)
    requires Closed(b)
    ensures forall i :: 0 <= i < |b| ==> (pre + b + post)[|pre| + i] == b[i] && TargetOk(b[i], |pre| + i, |pre|, |pre| + |b|)
  {
    forall i | 0 <= i < |b| ensures (pre + b + post)[|pre| + i] == b[i] && TargetOk(b[i], |pre| + i, |pre|, |pre| + |b|) {
      assert TargetOk(b[i], i, 0, |b|);
    }
  }

  lemma ClosedConcat(a: seq<Inst>, b: seq<Inst>)
    requires Closed(a) && Closed(b)
    ensures Closed(a + b)
  {
    PositionIndependent(a, b, []);
    assert a + b + [] == a + b;
    forall i | 0 <= i < |a + b| ensures TargetOk((a + b)[i], i, 0, |a + b|) {
      if i < |a| {
        assert TargetOk(a[i], i, 0, |a|);
      }
    }
  }

  lemma {:induction false} ScanConcat(a: seq<Inst>, b: seq<Inst>, open: seq<nat>)
    ensures Scan(a + b, open) == match Scan(a, open) case None => None case Some(t) => Scan(b, t)
    decreases |a|
  {
    if a == [] {
      assert a + b == b;
    } else {
      assert (a + b)[0] == a[0];
      assert (a + b)[1..] == a[1..] + b;
      match a[0]
      case GroupBegin(n) => ScanConcat(a[1..], b, open + [n]);
      case GroupEnd(n) =>
        if open != [] && open[|open| - 1] == n {
          ScanConcat(a[1..], b, open[..|open| - 1]);
        }
      case _ => ScanConcat(a[1..], b, open);
    }
  }

  /** Scan never looks below the groups it opened itself. */
  lemma {:induction false} ScanUnder(b: seq<Inst>, open: seq<nat>, below: seq<nat>)
    requires Scan(b, open).Some?
    ensures Scan(b, below + open) == Some(below + Scan(b, open).value)
    decreases |b|
  {
    if b != [] {
      match b[0]
      case GroupBegin(n) =>
        assert below + open + [n] == below + (open + [n]);
        ScanUnder(b[1..], open + [n], below);
      case GroupEnd(n) =>
        assert (below + open)[..|below + open| - 1] == below + open[..|open| - 1];
        ScanUnder(b[1..], open[..|open| - 1], below);
      case _ => ScanUnder(b[1..], open, below);
    }
  }

  lemma BalancedConcat(a: seq<Inst>, b: seq<Inst>)
    requires Balanced(a) && Balanced(b)
    ensures Balanced(a + b)
  {
    ScanConcat(a, b, []);
  }

  lemma BalancedWrap(n: nat, body: seq<Inst>)
    requires Balanced(body)
    ensures Balanced([GroupBegin(n)] + body + [GroupEnd(n)])
  {
    var w := [GroupBegin(n)] + body + [GroupEnd(n)];
    assert w[0] == GroupBegin(n) && w[1..] == body + [GroupEnd(n)];
    assert [] + [n] == [n] + [] == [n];
    assert Scan(w, []) == Scan(body + [GroupEnd(n)], [n]);
    ScanConcat(body, [GroupEnd(n)], [n]);
    ScanUnder(body, [], [n]);
    assert Scan(body, [n]) == Some([n]);
    assert [GroupEnd(n)][1..] == [];
    assert Scan([GroupEnd(n)], [n]) == Some([]);
  }

  lemma BlockWiden(b: seq<Inst>, lo: int, hi: int, lo': int, hi': int)
    requires Block(b, lo, hi) && lo' <= lo && hi <= hi'
    ensures Block(b, lo', hi')
  {
  }

  lemma BlockConcat(a: seq<Inst>, b: seq<Inst>, lo: int, hi: int)
    requires Block(a, lo, hi) && Block(b, lo, hi)
    ensures Block(a + b, lo, hi)
  {
    ClosedConcat(a, b);
    BalancedConcat(a, b);
  }

  /** A single instruction that is no jump, split, group marker or Match is a block. */
  lemma BlockAtom(inst: Inst, lo: int, hi: int)
    requires !(inst.Jump? || inst.Split? || inst.Match? || inst.GroupBegin? || inst.GroupEnd?)
    requires inst.Ref? ==> inst.group >= 1
    ensures Block([inst], lo, hi)
  {
    assert [inst][1..] == [];
  }

  /** A block holding only Split and Jump instructions and no group markers scans like nothing. */
  lemma BalancedSplit(o1: int, o2: int, b: seq<Inst>)
    ensures Scan([Split(o1, o2)] + b, []) == Scan(b, [])
  {
    assert ([Split(o1, o2)] + b)[1..] == b;
  }

  lemma BlockZeroOrMore(b: seq<Inst>, lo: int, hi: int)
    requires Block(b, lo, hi)
    ensures Block(EmitZeroOrMore(b), lo, hi)
  {
    var r := EmitZeroOrMore(b);
    assert r == [r[0]] + b + [r[|b| + 1]];
    PositionIndependent([r[0]], b, [r[|b| + 1]]);
    forall i | 0 <= i < |r| ensures TargetOk(r[i], i, 0, |r|) {
      if 1 <= i <= |b| {
        assert r[i] == b[i - 1];
      }
    }
    BalancedSplit(r[0].offset1, r[0].offset2, b + [r[|b| + 1]]);
    assert [r[0]] + b + [r[|b| + 1]] == [r[0]] + (b + [r[|b| + 1]]);
    BalancedConcat(b, [r[|b| + 1]]);
  }

  lemma BlockZeroOrOne(b: seq<Inst>, lo: int, hi: int)
    requires Block(b, lo, hi)
    ensures Block(EmitZeroOrOne(b), lo, hi)
  {
    var r := EmitZeroOrOne(b);
    assert r == [r[0]] + b;
    PositionIndependent([r[0]], b, []);
    assert [r[0]] + b + [] == r;
    forall i | 0 <= i < |r| ensures TargetOk(r[i], i, 0, |r|) {
      if 1 <= i {
        assert r[i] == b[i - 1];
      }
    }
    BalancedSplit(r[0].offset1, r[0].offset2, b);
  }

  lemma BlockOneOrMore(b: seq<Inst>, lo: int, hi: int)
    requires Block(b, lo, hi)
    ensures Block(EmitOneOrMore(b), lo, hi)
  {
    BlockZeroOrMore(b, lo, hi);
    BlockConcat(b, EmitZeroOrMore(b), lo, hi);
  }

  /** Placed inside an alternation, each branch keeps its jumps within its own span
      or just past it. */
  lemma AlternationClosed(b1: seq<Inst>, b2: seq<Inst>)
    requires Closed(b1) && Closed(b2)
    ensures Closed(EmitAlternation(b1, b2))
  {
    var r := EmitAlternation(b1, b2);
    var j := r[|b1| + 1];
    assert r == [r[0]] + b1 + ([j] + b2);
    PositionIndependent([r[0]], b1, [j] + b2);
    PositionIndependent([r[0]] + b1 + [j], b2, []);
    assert [r[0]] + b1 + [j] + b2 + [] == r;
    forall i | 0 <= i < |r| ensures TargetOk(r[i], i, 0, |r|) {
      if 1 <= i <= |b1| {
        assert r[i] == b1[i - 1];
      } else if |b1| + 2 <= i {
        assert r[i] == b2[i - |b1| - 2];
      }
    }
  }

  lemma BlockAlternation(b1: seq<Inst>, b2: seq<Inst>, lo: int, hi: int)
    requires Block(b1, lo, hi) && Block(b2, lo, hi)
    ensures Block(EmitAlternation(b1, b2), lo, hi)
  {
    AlternationClosed(b1, b2);
    var r := EmitAlternation(b1, b2);
    var j := r[|b1| + 1];
    assert r == [r[0]] + (b1 + [j] + b2);
    BalancedConcat(b1, [j]);
    BalancedConcat(b1 + [j], b2);
    BalancedSplit(r[0].offset1, r[0].offset2, b1 + [j] + b2);
    forall i | 1 <= i < |r| ensures r[i] == (b1 + [j] + b2)[i - 1] {
    }
  }

  lemma {:induction false} BlockRepeat(b: seq<Inst>, n: nat, lo: int, hi: int)
    requires Block(b, lo, hi)
    ensures Block(Repeat(b, n), lo, hi)
  {
    if n > 0 {
      BlockRepeat(b, n - 1, lo, hi);
      BlockConcat(b, Repeat(b, n - 1), lo, hi);
    }
  }

  /** n copies take n times the room of one. */
  lemma {:induction false} RepeatLength(b: seq<Inst>, n: nat)
    ensures |Repeat(b, n)| == n * |b|
  {
    if n > 0 {
      RepeatLength(b, n - 1);
      assert n * |b| == |b| + (n - 1) * |b|;
    }
  }

  /** m copies followed by n copies are m + n copies. */
  lemma {:induction false} RepeatAdd(b: seq<Inst>, m: nat, n: nat)
    ensures Repeat(b, m + n) == Repeat(b, m) + Repeat(b, n)
  {
    if m == 0 {
      assert [] + Repeat(b, n) == Repeat(b, n);
    } else {
      var front, back := Repeat(b, m - 1), Repeat(b, n);
      RepeatAdd(b, m - 1, n);
      calc {
        Repeat(b, m + n);
        b + Repeat(b, (m - 1) + n);
        b + (front + back);
        { assert b + (front + back) == (b + front) + back; }
        (b + front) + back;
        Repeat(b, m) + back;
      }
    }
  }

  /** One more copy appended at the end is one more repetition. */
  lemma {:induction false} RepeatSnoc(b: seq<Inst>, n: nat)
    ensures Repeat(b, n) + b == Repeat(b, n + 1)
  {
    if n > 0 {
      RepeatSnoc(b, n - 1);
      assert b + Repeat(b, n - 1) + b == b + (Repeat(b, n - 1) + b);
    } else {
      assert Repeat(b, 1) == b + [];
    }
  }

  /** A group `GroupBegin(n); body; GroupEnd(n)` around a block of inner groups
      numbered above n is a block for the numbers from n on. */
  lemma BlockGroup(n: nat, body: seq<Inst>, hi: int)
    requires n < hi
    requires Block(body, n + 1, hi)
    ensures Block([GroupBegin(n)] + body + [GroupEnd(n)], n, hi)
  {
    var r := [GroupBegin(n)] + body + [GroupEnd(n)];
    PositionIndependent([GroupBegin(n)], body, [GroupEnd(n)]);
    forall i | 0 <= i < |r| ensures TargetOk(r[i], i, 0, |r|) {
      if 1 <= i <= |body| {
        assert r[i] == body[i - 1];
      }
    }
    forall i | 0 <= i < |r| && (r[i].GroupBegin? || r[i].GroupEnd?) ensures n <= r[i].group < hi {
      if 1 <= i <= |body| {
        assert r[i] == body[i - 1];
      }
    }
    BalancedWrap(n, body);
  }
}
