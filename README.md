# grep-clone regex engines in Dafny

This project models the core of a small `grep -E` clone written in Rust. The program has three matchers.

- **First-stage matcher** `match_pattern` (src/main.rs). It recognises a handful of fixed pattern shapes: one character, `\d`, `\w`, `[...]` and `[^...]`. Module `FirstStage`.
- **Older engine** (src/reg.rs), the one the command-line program runs. It has two parts:
  - A single-loop compiler to a program with absolute jump targets. Each `X*`/`X+` loop's `Split` is backpatched through a patch list. Pure definitions are in module `RegSpec`; the compiler's loop and the search loop are in module `Reg`, proved to compute them.
  - An interpreter over the unread suffix of the text, plus a driver that tries every non-empty suffix.
- **Newer engine** (src/regex.rs and src/regex/*). It has four parts:
  - A UTF-8 text cursor that counts in bytes. Module `Utf8Text`.
  - The instruction set and its per-character test. Module `Ir`.
  - A recursive-descent compiler that emits position-independent blocks with relative jump offsets. The emitters and block invariants are in module `Emit`. The compiler as pure functions over the parser state is in module `ParserSpec`, and its laws are in module `ParserLaws`. The `Parser` object, whose methods are proved to compute those functions, is in module `RegexParser`.
  - A backtracking VM with a mutable capture table, and the start-offset driver `Regex::is_match`. The VM as a pure function is in module `VmSpec`, and the `VM` class is in module `Vm`. The driver is in module `RegexMatch`, and concrete runs are in `VmExamples`.

Shared pieces are in `Wrappers` (`Option`, `Result`, and the run verdict) and `CharKinds` (character classes).

## How the model is built

Texts and patterns are `seq<char>`. A newer-engine cursor is a byte offset, and the byte offset of character k is the sum of the UTF-8 widths of the characters before it. `HashSet<char>` becomes `set<char>`, and `usize::MAX` is 2^64 - 1.

The newer engine's `Split`/`Jump` operands are `int` relative offsets. This is what the compiler computes and what the VM adds to the program counter.

Every way the Rust code can panic other than by running out of memory, and every way it can fail to return, is an explicit result of the model:
- `todo!()`, `unimplemented!()`, a failing `unwrap` and a slice index out of range give `Verdict.Panic`, `ParseError.Unimplemented` or `RegError.Unimplemented`.
- The newer VM's recursion, which loops forever on patterns such as `(a*)*`, is cut off by a fuel parameter. That cut-off gives `Verdict.OutOfFuel`.

`VmSpec.Run` is split in two: `VmSpec.Step` decides what one instruction does, and `Run` makes the recursive calls that follow it.

The older interpreter needs no fuel. Every `Split`/`Jump` the compiler emits sits in a loop whose body reads a character, so a rank measure decreases.

Where the code's own parts disagree with each other, the model follows what the code does:
- The capture table is read as if it were indexed by group number: `fill_back`, `restore_context` and `Ref` all use entry `num - 1` (src/regex/vm.rs:21-30 and :85). It is filled in execution order instead: `GroupBegin` pushes a new entry every time it executes, and nothing ever pops one (src/regex/vm.rs:17-19 and :70-73). So after backtracking, entry n-1 is the n-th `GroupBegin` executed, which need not be group n.
- `Ref` advances the cursor by the capture's character count, not its byte count, so the run of `(.)\1a` on "ééa" from offset 0 fails (`VmExamples.WideBackref`).
- The unanchored driver never tries the end offset, so the empty text matches no unanchored pattern (`RegexMatch.EmptyTextNeverMatches`).

## Model

| member | source | states |
|---|---|---|
| Utf8Text.Width | src/regex/input.rs:33 | the UTF-8 width of a character is 1 to 4 bytes, and 1 exactly for ASCII |
| Utf8Text.ByteLen | src/regex/input.rs:30-35 | a text's byte length lies between its character count and four times it |
| Utf8Text.ByteLenAppend | src/regex/input.rs:30-35 | byte length is additive over concatenation |
| Utf8Text.AsciiByteLen | src/regex/vm.rs:89 | an ASCII text has as many bytes as characters |
| Utf8Text.Locate | src/regex/input.rs:24 | a located character index lies within the text and has exactly the given byte offset |
| Utf8Text.LocatePrefix | src/regex/input.rs:24 | every character position is found again from its own byte offset |
| Utf8Text.LocateIff | src/regex/input.rs:24 | an offset is located at index k if and only if k's byte offset is that offset |
| Utf8Text.LocateNone | src/regex/input.rs:24 | an offset is not located if and only if it is no character boundary |
| Utf8Text.CharAt | src/regex/input.rs:23-25 | `char_at` yields a character only before the end of the text |
| Utf8Text.CharAtPosition | src/regex/input.rs:23-25 | at the byte offset of character k, `char_at` yields character k |
| Utf8Text.CharAtIff | src/regex/input.rs:23-25 | `char_at` yields a character exactly at the offsets where one starts, and it is that character |
| Utf8Text.CharAtPastEnd | src/regex/input.rs:23-25 | `char_at` is None at and past the end |
| Utf8Text.IsEnd | src/regex/input.rs:26-28 | `is_end` holds exactly when `char_at` is None |
| Utf8Text.NextCursor | src/regex/input.rs:30-35 | the next cursor is the offset plus the width of the character there; it is larger, at most the length, and the boundary of the next character |
| Utf8Text.MatchWithAt | src/regex/input.rs:19-21 | `matchwith_at(i, ch)` holds exactly when `char_at(i)` is ch |
| Utf8Text.SliceOpt | src/regex/input.rs:15-17 | `get(start..end)` succeeds exactly when start <= end and both are boundaries; it then yields the characters between them, whose byte length is end - start |
| Utf8Text.Slice | src/regex/input.rs:15-17 | `slice` yields the characters between two boundaries, and the empty string when `get` refuses the range |
| CharKinds.AsciiAlnumIsAlphanumeric | src/regex/ir.rs:39 | on ASCII, `is_alphanumeric` is exactly ASCII letters and digits |
| CharKinds.IsAlphanumeric | src/regex/ir.rs:39 | every ASCII letter and digit is alphanumeric, and nothing from U+0100 up is |
| CharKinds.IsWordChar | src/reg.rs:79-81 | on ASCII, the `\w` test accepts exactly the ASCII letters, digits and `_`, the set `\w` adds inside a class |
| CharKinds.CharRange | src/regex/parser.rs:404 | `lo..=hi` holds exactly the characters from lo to hi |
| CharKinds.DigitSet | src/regex/parser.rs:287 | `\d` inside a class adds exactly the ASCII digits |
| CharKinds.AsciiWordSet | src/regex/parser.rs:288-293 | `\w` inside a class adds exactly ASCII letters, digits and `_` |
| Ir.IsMatch | src/regex/ir.rs:22-42 | per instruction kind: Char(c) accepts only c; AnyChar and Match accept everything; Start, End, Jump and Split accept nothing; a class accepts its members, or its non-members when negated; Digit accepts `0`-`9`; MetaChar accepts alphanumerics and `_`; group markers and back-references are excluded |
| Ir.NegatedClassIsComplement | src/regex/ir.rs:31-37 | over the same set, the negated class accepts exactly what the plain class rejects |
| Ir.MetaCharAcceptsAsciiWord | src/regex/ir.rs:39 | `\w` accepts every ASCII letter, digit and `_` |
| Emit.CalcJumpOffset | src/regex/parser.rs:336-343 | base plus the computed offset is the target |
| Emit.EmitJumpForward | src/regex/parser.rs:345-350 | the Jump placed before a block lands just past it |
| Emit.EmitJumpBackward | src/regex/parser.rs:352-357 | the Jump placed after a block lands one instruction before the block's first |
| Emit.EmitSplitCode | src/regex/parser.rs:359-375 | the code is `Split(1, 1+|b1|)` followed by b1 and then b2, unchanged |
| Emit.EmitZeroOrMore | src/regex/parser.rs:377-382 | `X*` is Split, X, Jump; the Jump lands on the block's own Split, and the Split's second arm lands just past the block |
| Emit.EmitOneOrMore | src/regex/parser.rs:384-389 | `emit_one_or_more_code`: X followed by `X*`; its layout is stated by `Emit.OneOrMoreShape` |
| Emit.OneOrMoreShape | src/regex/parser.rs:384-389 | `X+` is two copies of X plus two instructions: X, a Split whose first arm enters a second copy of X and whose second arm lands just past the block, that copy, and a Jump back to the Split |
| Emit.EmitZeroOrOne | src/regex/parser.rs:391-395 | `X?` is a Split whose first arm enters X and whose second arm skips it |
| Emit.EmitAlternation | src/regex/parser.rs:110-114 | `A|B` is a Split into A or B; A is closed by a Jump past B |
| Emit.PositionIndependent | src/regex/parser.rs:359-395 | a closed block, wherever it is placed, keeps its instructions and jumps only inside its own span or just past it |
| Emit.ClosedConcat | src/regex/parser.rs:82 | concatenating closed blocks gives a closed block |
| Emit.BalancedConcat | src/regex/parser.rs:82 | concatenating blocks with paired group markers keeps them paired |
| Emit.BalancedWrap | src/regex/parser.rs:92-121 | wrapping a balanced body in GroupBegin(n)/GroupEnd(n) keeps it balanced |
| Emit.BlockConcat | src/regex/parser.rs:82 | the block invariant (closed, no Match, group numbers in range, balanced, positive references) survives concatenation |
| Emit.BlockZeroOrMore | src/regex/parser.rs:377-382 | `X*` of a block is a block |
| Emit.BlockZeroOrOne | src/regex/parser.rs:391-395 | `X?` of a block is a block |
| Emit.BlockOneOrMore | src/regex/parser.rs:384-389 | `X+` of a block is a block |
| Emit.BlockAlternation | src/regex/parser.rs:110-114 | the alternation of two blocks is a block |
| Emit.AlternationClosed | src/regex/parser.rs:110-114 | placed in an alternation, each closed branch keeps its jumps inside its own span or just past it, so the alternation is closed |
| Emit.BlockRepeat | src/regex/parser.rs:216-218 | n copies of a block form a block |
| Emit.RepeatSnoc | src/regex/parser.rs:216-218 | appending one more copy gives one more repetition |
| Emit.Repeat | src/regex/parser.rs:216-218 | n copies of a block, one after another; its size and splitting are stated by `Emit.RepeatLength` and `Emit.RepeatAdd` |
| Emit.RepeatLength | src/regex/parser.rs:216-218 | n copies of a block are n times as long |
| Emit.RepeatAdd | src/regex/parser.rs:216-218 | m + n copies are m copies followed by n copies |
| Emit.BlockGroup | src/regex/parser.rs:92-121 | a group around a block of inner groups numbered above n is a block for the numbers from n on |
| ParserSpec.Init | src/regex/parser.rs:48-56 | a new parser has the whole pattern unread, no open groups, and next group number 1 |
| ParserSpec.TranslateRange | src/regex/parser.rs:397-408 | a real range of digits, lower-case or upper-case letters expands to all characters between its ends; anything else gives exactly {s, '-', e} |
| ParserSpec.TranslateRangeEnds | src/regex/parser.rs:397-408 | both ends always belong to the translated set |
| ParserSpec.ClassLoop | src/regex/parser.rs:277-313 | the class body consumes input; only escape and unclosed-class errors arise; a body without `]` always fails, and without `]` and `\` fails with UnclosedCharClass |
| ParserSpec.ParseAtom | src/regex/parser.rs:238-330 | case by case on the first character: a literal becomes `Char` of itself, `.` AnyChar and `^` Start; `$` is End at the end of the pattern and MisplacedAnchor before anything else; a lone `\` is IncompletedEscape; `\d`, `\w`, `\\` and `\1`-`\9` give Digit, MetaChar, `Char('\\')` and Ref(n), any other `\e` gives UnknownEscape(e), and an escape consumes two characters; `[` and `[^` give the class of the set the body loop yields, or its error; any other character, and the end of the pattern, is Unimplemented; the group state is never changed and a success is one instruction |
| ParserSpec.DigitSpan | src/regex/parser.rs:159-164 | the `{` scanner takes exactly the longest run of digits and commas |
| ParserSpec.SplitOn | src/regex/parser.rs:168 | `split(',')` gives at least one piece, every piece comma-free, and the whole text when there is no comma |
| ParserSpec.SplitJoin | src/regex/parser.rs:168 | joining the pieces with the separator gives the text back |
| ParserSpec.ParseUsize | src/regex/parser.rs:173-178 | `parse::<usize>` succeeds exactly on non-empty digit strings whose value fits in 64 bits, and then yields that value |
| ParserSpec.Bounds | src/regex/parser.rs:165-202 | bounds are read exactly when the minimum parses and the maximum is absent, empty or parses; failures are InvalidQuantifier |
| ParserSpec.Repetition | src/regex/parser.rs:210-230 | the code for `X{min,max}`; its prefix and size are stated by `ParserSpec.RepetitionPrefix` and `ParserSpec.RepetitionLength` |
| ParserSpec.RepetitionPrefix | src/regex/parser.rs:210-230 | `X{min,max}` starts with min copies of X, and `X{n}` for n below usize::MAX is exactly n copies |
| ParserSpec.RepetitionLength | src/regex/parser.rs:210-230 | `X{min,max}` is min copies long, plus the three-part `X*` loop when max is usize::MAX, or else plus max - min copies of `X?` |
| ParserSpec.Quantify | src/regex/parser.rs:140-233 | a quantifier leaves the group state alone and fails only with InvalidQuantifier; without a quantifier character the block is returned unchanged |
| ParserSpec.BlockRepetition | src/regex/parser.rs:210-230 | the counted repetition of a block is a block |
| ParserSpec.QuantifyBlock | src/regex/parser.rs:140-233 | every quantifier keeps a block a block |
| ParserSpec.ParseTerm | src/regex/parser.rs:87-236 | a term consumes input, leaves the group stack as it found it, and returns a block whose group numbers were all handed out during the call; GroupNumMissError and PatchError never arise |
| ParserSpec.GroupLoop | src/regex/parser.rs:100-132 | a group pops its own number, consumes input, and yields GroupBegin(num) ... GroupEnd(num) around a block of the numbers it handed out |
| ParserSpec.GroupTerm | src/regex/parser.rs:123-130 | a term inside a group joins the current branch and keeps the group's promise |
| ParserSpec.CloseGroup | src/regex/parser.rs:107-121 | the code `)` emits opens with GroupBegin(num), closes with GroupEnd of the popped number, and holds branch1 alone, or after a `|` the alternation of both branches |
| ParserSpec.CloseGroupBlock | src/regex/parser.rs:107-121 | the code `)` emits is a block opened by GroupBegin(num) and closed by GroupEnd(num) |
| ParserSpec.ParseExpr | src/regex/parser.rs:79-85 | the expression uses up the pattern, leaves the group stack as it was, and returns a block |
| ParserSpec.ExprStep | src/regex/parser.rs:79-85 | an expression is its first term followed by the rest of the expression; an error in the term ends it |
| ParserSpec.ProgramWellFormed | src/regex/parser.rs:72-77 | a block with groups numbered from 1, closed by Match, is a well-formed program |
| ParserSpec.Compile | src/regex/parser.rs:72-77 | a compiled program is the expression's code followed by one Match, with no other Match; every jump lands inside the program; groups are paired and well nested with numbers from 1; errors are the expression's errors |
| ParserLaws.BraceExact | src/regex/parser.rs:216-230 | `X{m}` compiles to m copies of X |
| ParserLaws.BraceAtLeast | src/regex/parser.rs:188-190 | `X{m,}` compiles to m copies of X followed by `X*` |
| ParserLaws.BraceAtLeastZeroIsStar | src/regex/parser.rs:140-231 | `X{0,}` compiles to exactly the code of `X*` |
| ParserLaws.BraceRange | src/regex/parser.rs:222-227 | `X{m,n}` compiles to m copies of X followed by n - m copies of `X?` |
| ParserLaws.BraceZeroOrOneIsQuestion | src/regex/parser.rs:140-231 | `X{0,1}` compiles to exactly the code of `X?` |
| ParserLaws.BraceInverted | src/regex/parser.rs:212-214 | a minimum above the maximum is InvalidQuantifier |
| ParserLaws.BraceEmptyMinimum | src/regex/parser.rs:171-178 | an empty minimum is InvalidQuantifier |
| ParserLaws.BraceUnclosed | src/regex/parser.rs:159-206 | a character other than a digit, `,` or `}` inside the braces, or the end of the pattern, is InvalidQuantifier |
| ParserLaws.ReadsAtomAt | src/regex/parser.rs:238-330 | an atom read as one instruction does not start with `(`, `)`, `|` or a quantifier, and is read the same before any rest |
| ParserLaws.LiteralAtom | src/regex/parser.rs:243-258 | every literal character is read as `Char` of itself, whatever follows and whatever the group state |
| ParserLaws.DotAndCaretAtoms | src/regex/parser.rs:241-315 | `.` is read as AnyChar and `^` as Start, whatever follows |
| ParserLaws.EscapeAtom | src/regex/parser.rs:259-266 | `\d`, `\w`, `\\` and `\1`-`\9` are read as Digit, MetaChar, `Char('\\')` and Ref(n), whatever follows |
| ParserLaws.ItemStep | src/regex/parser.rs:277-313 | one class item read off the front of the body adds its set: a character itself, `\d` the digits, `\w` the ASCII word characters, `x-y` the translated range, and `x-` before a non-alphanumeric only `-` |
| ParserLaws.ClassItemsYield | src/regex/parser.rs:277-313 | a well-spelled class body closed by `]` yields the union of its items' sets and leaves what follows the `]` |
| ParserLaws.ClassBodyItems | src/regex/parser.rs:277-313 | conversely, every body the loop accepts is a well-spelled list of items closed by `]`, and the set it yields is the union of their sets |
| ParserLaws.ClassAtomAt | src/regex/parser.rs:270-314 | `[items]` and `[^items]` are read as one CharClass over the union of the items' sets, negated exactly when `^` follows the `[` |
| ParserLaws.ClassAtom | src/regex/parser.rs:270-314 | so a bracket class is an atom, whatever follows it |
| ParserLaws.AtomTerm | src/regex/parser.rs:87-236 | a term that starts with an atom is that one instruction with the following quantifier applied |
| ParserLaws.QuantifiedAtomTerm | src/regex/parser.rs:140-233 | an atom followed by `*`, `+` or `?` is the zero-or-more, one-or-more or zero-or-one code of that instruction |
| ParserLaws.PlainAtomTerm | src/regex/parser.rs:232 | an atom followed by anything but a quantifier is a term by itself |
| ParserLaws.AtomPlusExpr | src/regex/parser.rs:79-85 | `X+` and the rest compile to the one-or-more code in front of the rest's code |
| ParserLaws.AtomCopyStarExpr | src/regex/parser.rs:79-85 | `XX*` and the rest compile to X, then the zero-or-more code, in front of the rest's code |
| ParserLaws.PlusIsCopyThenStar | src/regex/parser.rs:384-389 | for every atom that is not a group (a literal, `.`, `^`, a supported escape or back-reference, a bracket class), `X+` compiles to exactly the code of `XX*`, before any rest and in any group state |
| ParserLaws.LaterBarIgnored | src/regex/parser.rs:103-106 | after the first `|` in a group, a further `|` changes nothing |
| ParserLaws.GroupAtomStart | src/regex/parser.rs:99-126 | inside a group, an atom is neither `|` nor `)`, so it starts a term |
| ParserLaws.GroupAtom | src/regex/parser.rs:123-130 | inside a group, an atom without a quantifier joins the first branch before a `|` and the second branch after it |
| ParserLaws.GroupCloses | src/regex/parser.rs:107-121 | `)` closes the group with the number on top of the stack and pops it |
| ParserLaws.CompileAlternation | src/regex/parser.rs:100-121 | `(a|b)` compiles to GroupBegin(1), Split(1,3), Char a, Jump(2), Char b, GroupEnd(1), Match |
| ParserLaws.BackrefExpr | src/regex/parser.rs:79-134 | `(.)\1a` parses to GroupBegin(1), AnyChar, GroupEnd(1), Ref(1), Char a |
| ParserLaws.CompileUnclosedGroup | src/regex/parser.rs:102 | `(a` is UnclosedGroup |
| ParserLaws.CompileMisplacedAnchor | src/regex/parser.rs:316-320 | `a$b` is MisplacedAnchor |
| ParserLaws.CompileUnknownEscape | src/regex/parser.rs:267 | `\x` is UnknownEscape('x') |
| RegexParser.Parser.constructor | src/regex/parser.rs:48-56 | the new parser's state is the initial state, with no code |
| RegexParser.Parser.NextGroupNum | src/regex/parser.rs:58-63 | hands out the counter's number, bumps the counter, and pushes the number; nothing else changes |
| RegexParser.Parser.CurrentGroupNum | src/regex/parser.rs:64-70 | pops and returns the innermost open number, or fails with GroupNumMissError on an empty stack |
| RegexParser.Parser.Compile | src/regex/parser.rs:72-77 | returns the existing code, then the expression's code, then Match; or the expression's error |
| RegexParser.Parser.ParseExpr | src/regex/parser.rs:79-85 | computes `ParserSpec.ParseExpr` on the parser's state, result and new state |
| RegexParser.Parser.ParseTerm | src/regex/parser.rs:87-236 | computes `ParserSpec.ParseTerm`, result and new state |
| RegexParser.Parser.ParseGroup | src/regex/parser.rs:88-134 | computes the group loop from an empty pair of branches, result and new state |
| RegexParser.Parser.CloseGroupCode | src/regex/parser.rs:107-121 | computes the `)` step of the group loop, result and new state |
| RegexParser.Parser.ParseAtom | src/regex/parser.rs:238-330 | computes `ParserSpec.ParseAtom`, result and new state |
| RegexParser.Parser.ParseClass | src/regex/parser.rs:270-314 | reads the optional `^`, then computes the class body's set and unread rest |
| RegexParser.Parser.ReadDigits | src/regex/parser.rs:159-164 | takes exactly the run of digits and commas off the input |
| RegexParser.Parser.ApplyQuantifier | src/regex/parser.rs:140-233 | computes `ParserSpec.Quantify`, result and new state |
| RegexParser.BuildRepetition | src/regex/parser.rs:210-230 | the two repetition loops build min copies of X, then `X*` or max - min copies of `X?` |
| VmSpec.SetEnd | src/regex/vm.rs:21-30 | writing an end changes only that entry's end, and nothing when the entry is absent |
| VmSpec.RefStep | src/regex/vm.rs:84-96 | reference 0 underflows (panic); a group not yet opened fails; for an opened group: when either slice is refused it panics, when both exist it advances by the capture's character count exactly when the capture starts the rest of the text, and fails otherwise |
| VmSpec.Step | src/regex/vm.rs:35-99 | one instruction: only GroupBegin changes the table, by pushing (cursor, 0); every successor except a Jump's and a Ref's is pc + 1; only Ref and GroupEnd(0) panic |
| VmSpec.Run | src/regex/vm.rs:35-99 | a run only appends capture entries and never rewrites a start; after a failure every end is back where it was or reset to 0; a failed GroupEnd leaves its own entry's end at 0 |
| VmSpec.WellFormedPanicFree | src/regex/parser.rs:72-77 | a compiled program without back-references meets the no-panic conditions |
| VmSpec.NoPanic | src/regex/vm.rs:35-99 | from any in-range pc, a program whose jumps stay inside, whose only Match is last, which has no back-reference and no GroupEnd numbered 0, never panics |
| VmSpec.StepSafe | src/regex/vm.rs:35-99 | in a program meeting all four conditions of `VmSpec.NoPanic` (jumps inside, Match only last, no back-reference, no GroupEnd(0)), no single instruction panics and every successor it names lies inside the program |
| VmSpec.NoPanicFork | src/regex/vm.rs:51-54 | in a program meeting all four conditions of `VmSpec.NoPanic`, neither arm of a Split panics |
| VmSpec.NoPanicWithoutRef | src/regex/vm.rs:35-99 | a compiled program without back-references never makes the VM panic |
| VmSpec.FuelMonotone | src/regex/vm.rs:35-99 | once a run finishes, more fuel gives the same verdict and table |
| VmSpec.FuelFork | src/regex/vm.rs:51-54 | more fuel does not change a finished Split |
| VmSpec.FuelClose | src/regex/vm.rs:74-83 | more fuel does not change a finished GroupEnd |
| VmSpec.RejectClearsEnds | src/regex/vm.rs:74-83 | a failed run from a table with all ends 0 leaves all ends 0 |
| VmExamples.BackrefProgCompiled | src/regex/parser.rs:72-77 | the program the `(.)\1a` runs below use is exactly the one the compiler emits for that pattern |
| VmExamples.AsciiBackref | src/regex/vm.rs:84-96 | `(.)\1a` matches "xxa" |
| VmExamples.WideBackref | src/regex/vm.rs:89 | the run of `(.)\1a` on "ééa" from offset 0 fails: the cursor moves by characters, not bytes |
| VmExamples.WideRef | src/regex/vm.rs:84-96 | on "ééa" the back-reference to the two-byte capture "é" moves the cursor from byte 2 to byte 3 |
| VmExamples.WideTail | src/regex/input.rs:23-25 | byte 3 of "ééa" lies inside a character, so `a` cannot be read there and the run fails |
| VmExamples.OpenGroupRefPanics | src/regex/vm.rs:85-87 | a reference to a group still open, as in `(a\1)` on "xa", slices from its start to end 0 and panics |
| Vm.VM.constructor | src/regex/vm.rs:10-16 | a new VM borrows the program and has an empty capture table |
| Vm.VM.SaveContext | src/regex/vm.rs:17-19 | pushes (cursor, 0) |
| Vm.VM.FillBack | src/regex/vm.rs:21-25 | sets the end of entry n-1 when it exists |
| Vm.VM.RestoreContext | src/regex/vm.rs:26-30 | resets the end of entry n-1 to 0 when it exists |
| Vm.VM.JumpBy | src/regex/vm.rs:31-33 | adding an offset `calc_jump_offset` computed for a target lands on that target |
| Vm.VM.Run | src/regex/vm.rs:35-99 | the verdict and the final capture table are those of `VmSpec.Run` |
| Vm.VM.RunSplit | src/regex/vm.rs:51-54 | the Split arm computes `VmSpec.Run` |
| Vm.VM.RunGroupEnd | src/regex/vm.rs:74-83 | the GroupEnd arm computes `VmSpec.Run` |
| Vm.VM.RunRef | src/regex/vm.rs:84-96 | the Ref arm computes `VmSpec.Run` |
| Vm.VM.RunConsume | src/regex/vm.rs:37-69 | the character-reading arms compute `VmSpec.Run` |
| RegexMatch.New | src/regex.rs:33-36 | yields the compiled program, which is well formed, or the parser's error |
| RegexMatch.Try | src/regex.rs:50-51 | a fresh VM without fuel is cut off; on a well-formed program without back-references it never panics |
| RegexMatch.SearchFrom | src/regex.rs:48-56 | at the end offset the loop fails without trying; an acceptance comes from a character start at or after the cursor |
| RegexMatch.Search | src/regex.rs:38-60 | an unanchored acceptance comes from some character start before the end of the text |
| RegexMatch.SearchFromChars | src/regex.rs:47-57 | the byte-offset loop visits exactly the character boundaries, in order |
| RegexMatch.FirstVerdictAccepts | src/regex.rs:47-57 | the search accepts exactly when some start accepts and every earlier start fails |
| RegexMatch.FirstVerdictRejects | src/regex.rs:47-57 | the search fails exactly when every start fails |
| RegexMatch.SearchAccepts | src/regex.rs:42-59 | an unanchored search accepts exactly when a fresh VM accepts at some boundary before the end, after failing at every earlier one |
| RegexMatch.SearchRejects | src/regex.rs:42-59 | an unanchored search fails exactly when the VM fails at every character start |
| RegexMatch.EmptyTextNeverMatches | src/regex.rs:48-49 | the empty text matches no compiled pattern that does not begin with `^` |
| RegexMatch.SearchNoPanic | src/regex.rs:38-60 | `is_match` never panics on a compiled pattern without back-references |
| RegexMatch.SearchNoPanicFrom | src/regex.rs:47-57 | the unanchored loop never panics on such a program |
| RegexMatch.IsMatch | src/regex.rs:38-60 | the driver loop, with a fresh VM per start, computes the search |
| RegSpec.Run | src/reg.rs:58-83 | the interpreter needs no fuel, and accepts only where the program holds a Match |
| RegSpec.SuffixSearch | src/reg.rs:43-52 | the empty text fails; an acceptance comes from some non-empty suffix |
| RegSpec.IsMatch | src/reg.rs:39-56 | the driver needs no fuel, and a non-empty program accepts only through a Match |
| RegSpec.Quantified | src/reg.rs:112-127 | `X*` at L is `Split(L+1, L+3), X, Jump(L)`; `X+` puts one copy of X first |
| RegSpec.EmitAtom | src/reg.rs:107-131 | the code is extended by x; a `+` or `*` right after it is consumed, and without one exactly x is appended |
| RegSpec.CloseIndex | src/reg.rs:140-142 | the index found is the first `]` |
| RegSpec.ClassScan | src/reg.rs:140-174 | the class loop succeeds exactly when a `]` follows; it collects every character before the first `]` and leaves the text after it |
| RegSpec.AppendAtom | src/reg.rs:129 | appending a single consuming instruction keeps the program shape |
| RegSpec.AppendLoop | src/reg.rs:112-127 | appending a patched loop keeps the program shape |
| RegSpec.FinishProgram | src/reg.rs:182 | the closing Match turns shaped code into a valid program |
| RegSpec.EmitAtomShaped | src/reg.rs:107-131 | an atom keeps the shape, extends the code, adds no Start, consumes input and adds no AnyChar unless it is `.` |
| RegSpec.CompileLoop | src/reg.rs:99-180 | a successful compile ends with the only Match, keeps every loop shaped, keeps every target inside the program, and extends the code so far; a `^` is MisplacedAnchor, a `\` not followed by `d` or `w` is UnknownEscape, a `[` with no `]` after it is UnclosedCharClass, and any other unsupported character is Unimplemented |
| RegSpec.Compile | src/reg.rs:89-184 | a compiled program is valid; it starts with Start exactly when the pattern starts with `^`; without `.` it has no AnyChar |
| RegSpec.PlainPrefix | src/reg.rs:107-131 | a run of lower-case letters and spaces with no quantifier after it compiles to its `Char`s, and compiling goes on with the rest |
| RegSpec.LateCaret | src/reg.rs:101 | a `^` after a non-empty run of plain characters, such as `a^`, is MisplacedAnchor |
| RegSpec.LateUnknownEscape | src/reg.rs:102-106 | an escape other than `\d` and `\w` after a run of plain characters is UnknownEscape |
| RegSpec.LateUnclosedClass | src/reg.rs:140-174 | a `[` never followed by `]`, after a run of plain characters, is UnclosedCharClass |
| RegSpec.SuffixSearchAccepts | src/reg.rs:43-52 | the suffix loop accepts exactly when some suffix accepts and every earlier one fails |
| RegSpec.SuffixSearchRejects | src/reg.rs:43-52 | the suffix loop fails exactly when every suffix fails |
| RegSpec.RunNoPanic | src/reg.rs:58-83 | on a compiled program without `.`, the interpreter never panics |
| RegSpec.SuffixSearchNoPanic | src/reg.rs:43-52 | nor does the suffix loop |
| RegSpec.IsMatchNoPanic | src/reg.rs:39-56 | `is_match` never panics on a compiled pattern without `.` |
| Reg.New | src/reg.rs:35-38 | yields the compiled program, which is valid, or the compiler's error |
| Reg.EmitLoop | src/reg.rs:112-127 | push, placeholder and backpatch produce exactly the loop code, and the patch list is empty again |
| Reg.PushAtom | src/reg.rs:107-131 | an atom with an optional quantifier emits the atom's code |
| Reg.ScanClass | src/reg.rs:140-174 | the class loop computes the class scan |
| Reg.Compile | src/reg.rs:89-184 | the compiler's loop computes `RegSpec.Compile` |
| Reg.IsMatch | src/reg.rs:39-56 | the suffix loop computes `RegSpec.IsMatch` |
| RegExamples.CompileStar | src/reg.rs:274-277 | `a*ab` compiles to `Split(1,3), Char a, Jump(0), Char a, Char b, Match` |
| RegExamples.StarRejects | src/reg.rs:58-83 | without an `a` directly followed by `b`, `a*ab` fails from the start of the text |
| RegExamples.StarRejectsAaacb | src/reg.rs:274-280 | `a*ab` does not match "aaacb" |
| FirstStage.Any | src/main.rs:18 | `any` holds exactly when some character satisfies the test |
| FirstStage.MatchPattern | src/main.rs:13-39 | a one-character pattern matches iff the input contains it; `\d` and `\w` iff some character is a digit or word character; `[S]` iff some character is in S; `[^S]` iff some character is not among the contents, the `^` included; anything else never matches |
| FirstStage.NegatedKeepsCaret | src/main.rs:27-29 | an input made only of `^` matches no negated class |

## Left out

- `main()` is left out: argument parsing, reading stdin, printing and the exit code are I/O (src/main.rs:42-69).
- `src/regex/result.rs` is left out. It is an unused holder type.
- The unused `RegexError` enum (src/regex.rs:16-26) is left out.
- Memory exhaustion is left out. A counted repetition below usize::MAX, such as `a{10000000000000000000}`, is accepted by `ParserSpec.Compile`, while src/regex/parser.rs:216-218 would abort on capacity overflow or out of memory building that many copies.
- The error message strings are left out. Errors are bare constructors, and `UnknownEscape` keeps its character.
- The parser's unused `pc` method and `patch_list` field are left out.
- The `eprintln!` debug output is left out. So are the scratch tests that only print.
- `Text::new` and `Text::text` are left out. They are plain accessors: a text is the character sequence itself.
- Three tests that contradict the code are not stated as properties:
  - src/reg.rs:214-215 expects `abc` to match `abe`;
  - src/regex.rs:207 expects false where the code yields true;
  - src/regex/vm.rs:134-166 uses absolute addresses, which the relative `jump_by` does not read that way.
- Most concrete test runs are not stated as lemmas, because each concrete evaluation of a backtracking run costs many proof steps. This covers the remaining tests of src/regex.rs, src/reg.rs:219-270 and the hand-built program of src/regex/vm.rs:107-131. The model states concrete results for `(a|b)`, `a*ab`/"aaacb" and `(.)\1a` instead.
- CharKinds.IsAlphanumeric: `char::is_alphanumeric` is exact on ASCII and the Latin-1 block. Characters above U+00FF count as not alphanumeric, because the Unicode tables are not modelled.
- Ir.IsMatch: requires an instruction other than a group marker or back-reference. The source reaches `todo!()` for those, and the VM never asks.
- Utf8Text.NextCursor: requires a character at the offset. The source unwraps twice and panics otherwise; every caller checks first.
- Vm.VM.JumpBy: a negative sum stays negative instead of wrapping around as a `usize`. `Run` treats both as an index out of range (a panic).
- Vm.VM.FillBack and Vm.VM.RestoreContext: require a group number of at least 1. Number 0 underflows `group_num - 1`, and `Run` reports that as a panic before calling either.
- VmSpec.Run: recursion is bounded by fuel. A run that the source would never finish, or that would exhaust the stack, ends in OutOfFuel. `VmSpec.FuelMonotone` shows that fuel otherwise has no effect.
- VmSpec.NoPanicWithoutRef: covers programs without back-references only, because a back-reference can panic in two ways, in the source and in the model alike. A reference to a group that is still open reads its end 0, which lies below its start, so the slice is refused (`(a\1)` on "xa", src/regex/vm.rs:87, `VmExamples.OpenGroupRefPanics`). A capture over non-ASCII text can move the cursor into the middle of a character, and slicing there is refused too (src/regex/vm.rs:86).
- Reg.IsMatch and RegSpec.Run: require every `Split`/`Jump` to sit in a loop of the shape the compiler emits. Every program `Reg::new` returns has this shape (`RegSpec.Compile`). Hand-built programs with other jumps, which may run forever in the source, are not modelled.
- The newer engine's operands are declared `usize` in src/regex/ir.rs, and `mod regex` is never declared in src/main.rs, so that engine is not built as written. The model uses signed relative offsets, which is what the compiler and the VM agree on.
- `ParseError.Unimplemented` and `RegError.Unimplemented` are not Rust error values. They stand for the `todo!()`/`unimplemented!()` panics on an unsupported pattern character.
- The `Parser` methods tie only the error value to the specification on failure, not the parser's state after the error. `compile` discards that state.
