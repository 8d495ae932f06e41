/** The instruction set of the newer engine (src/regex/ir.rs). `Jump` and `Split`
    carry offsets RELATIVE to the instruction's own index: the compiler computes
    them that way and the VM adds them to the program counter. */
module Ir {
  import opened CharKinds

  datatype Inst =
    | Char(c: char)
    | AnyChar
    | Start
    | End
    | Match
    | Jump(offset: int)
    | Split(offset1: int, offset2: int)
    | CharClass(negated: bool, chars: set<char>)
    | Digit
    | MetaChar
    | GroupBegin(group: nat)
    | GroupEnd(group: nat)
    | Ref(group: nat)

  /** The instructions `Inst::is_match` is defined on; the group markers and
      back-references reach `todo!()`. */
  predicate PerChar(inst: Inst)
  {
    !(inst.GroupBegin? || inst.GroupEnd? || inst.Ref?)
  }

  /** `Inst::is_match`: whether the instruction accepts the single character ch. */
  function IsMatch(inst: Inst, ch: char): (b: bool)
    requires PerChar(inst)
    ensures inst.Char? ==> (b <==> ch == inst.c)
    ensures inst.AnyChar? || inst.Match? ==> b
    ensures inst.Start? || inst.End? || inst.Jump? || inst.Split? ==> !b
    ensures inst.CharClass? && !inst.negated ==> (b <==> ch in inst.chars)
    ensures inst.CharClass? && inst.negated ==> (b <==> ch !in inst.chars)
    ensures inst.Digit? ==> (b <==> '0' <= ch <= '9')
    ensures inst.MetaChar? ==> (b <==> IsAlphanumeric(ch) || ch == '_')
  {
    match inst
    case Char(c) => c == ch
    case AnyChar => true
    case Start => false
    case End => false
    case Match => true
    case Jump(_) => false
    case Split(_, _) => false
    case CharClass(negated, chars) => if negated then ch !in chars else ch in chars
    case Digit => IsAsciiDigit(ch)
    case MetaChar => IsWordChar(ch)
  }

  /** Over the same set, a negated class accepts exactly what the plain class rejects. */
  lemma NegatedClassIsComplement(chars: set<char>, ch: char)
    ensures IsMatch(CharClass(true, chars), ch) <==> !IsMatch(CharClass(false, chars), ch)
  {
  }

  /** `\w` accepts every ASCII letter and digit, and the underscore. */
  lemma MetaCharAcceptsAsciiWord(ch: char)
    requires IsAsciiAlnum(ch) || ch == '_'
    ensures IsMatch(MetaChar, ch)
  {
  }
}
