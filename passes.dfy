/** The assembler's two passes over a source file's lines: the first binds
    every label to the address of the instruction that follows it, the
    second assembles each instruction at its address with that label table. */
module AssemblerPasses {
  import opened Wrappers
  import opened PyStr
  import opened Operands
  import opened Assembler
  import opened Isa
  import opened Prefix

  // ---------------------------------------------------------------------
  // What one line contributes
  // ---------------------------------------------------------------------

  /** The line with its `#` comment removed and surrounding whitespace
      stripped. */
  function Clean(line: string): string
  {
    Strip(Before(line, '#'))
  }

  /** A cleaned line neither starts nor ends with whitespace. */
  lemma CleanTrimmed(line: string)
    ensures var r := Clean(line); r == [] || (!IsSpace(r[0]) && !IsSpace(r[|r| - 1]))
  {
  }

  /** Blank lines and assembler directives (`.text`, `.globl main`) carry
      neither a label nor an instruction. */
  predicate Skipped(l: string)
  {
    l == [] || StartsWith(l, ".")
  }

  /** The label a line defines, as the first pass reads it: the stripped
      text before the first colon. */
  function LabelOf(line: string): Option<string>
  {
    var l := Clean(line);
    if !Skipped(l) && Contains(l, ':') then Some(Strip(Before(l, ':'))) else None
  }

  /** Whether the first pass moves the address past this line: it holds an
      instruction, alone or after a label. */
  predicate Advances(line: string)
  {
    var l := Clean(line);
    !Skipped(l) && (Contains(l, ':') ==> Strip(After(l, ':')) != [])
  }

  /** The instruction text the second pass assembles from a line, if any. */
  function InstructionText(line: string): Option<string>
  {
    var l := Clean(line);
    if Skipped(l) then None
    else if Contains(l, ':') then
      var rest := Strip(After(l, ':'));
      if rest == [] then None else Some(rest)
    else Some(l)
  }

  /** The text the second pass assembles is not empty and starts with the
      mnemonic, as splitting it into mnemonic and operands needs. */
  lemma InstructionTextShape(line: string)
    ensures var r := InstructionText(line); r.Some? ==> r.value != [] && !IsSpace(r.value[0])
  {
    CleanTrimmed(line);
  }

  /** The two passes agree on which lines hold an instruction: a label
      gets the address of exactly the instruction the second pass emits
      next. */
  lemma PassesAgree(line: string)
    ensures Advances(line) <==> InstructionText(line).Some?
    ensures LabelOf(line).Some? ==> Contains(Clean(line), ':')
    ensures InstructionText(line).Some? && !Contains(Clean(line), ':') ==> InstructionText(line) == Some(Clean(line))
  {
  }

  // ---------------------------------------------------------------------
  // The first pass
  // ---------------------------------------------------------------------

  /** The number of words one line makes: one for an instruction, none
      otherwise. */
  function Weight(line: string): nat
  {
    if Advances(line) then 1 else 0
  }

  /** The number of instruction words the lines make. */
  function WordCount(lines: seq<string>): nat
  {
    SumBy(lines, Weight)
  }

  /** One line's effect on the label table, at the address the first pass
      has reached, given the label the line defines. */
  function Bind(m: map<string, int>, name: Option<string>, addr: int): map<string, int>
  {
    match name
    case None => m
    case Some(l) => m[l := addr]
  }

  /** One line of the first pass: bind its label to the current address,
      then move past its words. The pass is stated for any reading of a
      line's label and word count, and used with `LabelOf` and `Weight`. */
  function FirstStep(acc: (map<string, int>, int), line: string, labelOf: string -> Option<string>, weight: string -> nat): (map<string, int>, int)
  {
    (Bind(acc.0, labelOf(line), acc.1), acc.1 + 4 * weight(line))
  }

  /** The label table and the address after the first pass over the lines,
      starting from `init` at `base`. */
  function FirstPassState(lines: seq<string>, base: int, init: map<string, int>, labelOf: string -> Option<string>, weight: string -> nat): (map<string, int>, int)
  {
    if lines == [] then (init, base)
    else FirstStep(FirstPassState(lines[..|lines| - 1], base, init, labelOf, weight), lines[|lines| - 1], labelOf, weight)
  }

  /** The label table after the first pass: each label maps to `base` plus
      four bytes per instruction before it, and a label defined twice
      keeps its last address. */
  function DefineLabels(lines: seq<string>, base: int, init: map<string, int>): map<string, int>
  {
    FirstPassState(lines, base, init, LabelOf, Weight).0
  }

  /** One more line of the first pass. */
  lemma FirstPassStep(lines: seq<string>, i: nat, base: int, init: map<string, int>, labelOf: string -> Option<string>, weight: string -> nat)
    requires i < |lines|
    ensures FirstPassState(lines[..i + 1], base, init, labelOf, weight)
      == FirstStep(FirstPassState(lines[..i], base, init, labelOf, weight), lines[i], labelOf, weight)
  {
    var p := lines[..i + 1];
    assert p[..|p| - 1] == lines[..i];
    assert p[|p| - 1] == lines[i];
  }

  /** The first pass's address is `base` plus four bytes per word. */
  lemma {:induction false} FirstPassAddress(lines: seq<string>, base: int, init: map<string, int>, labelOf: string -> Option<string>, weight: string -> nat)
    ensures FirstPassState(lines, base, init, labelOf, weight).1 == base + 4 * SumBy(lines, weight)
    decreases |lines|
  {
    if lines != [] {
      var i := |lines| - 1;
      FirstPassAddress(lines[..i], base, init, labelOf, weight);
      FirstPassStep(lines, i, base, init, labelOf, weight);
      SumByStep(lines, i, weight);
      assert lines[..i + 1] == lines;
    }
  }

  /** The label table after the lines is the one after all but the last,
      with the last line's label bound. */
  lemma FirstPassLast(lines: seq<string>, base: int, init: map<string, int>, labelOf: string -> Option<string>, weight: string -> nat)
    requires lines != []
    ensures var n := |lines| - 1;
      var st := FirstPassState(lines[..n], base, init, labelOf, weight);
      FirstPassState(lines, base, init, labelOf, weight).0 == Bind(st.0, labelOf(lines[n]), st.1)
  {
    var n := |lines| - 1;
    FirstPassStep(lines, n, base, init, labelOf, weight);
    assert lines[..n + 1] == lines;
  }

  /** A label's address is the one its last definition gives it: `base`
      plus four bytes per word of the lines before it. */
  lemma {:induction false} LabelAddressBy(lines: seq<string>, base: int, init: map<string, int>, labelOf: string -> Option<string>, weight: string -> nat, j: nat, l: string)
    requires j < |lines| && labelOf(lines[j]) == Some(l)
    requires forall k :: j < k < |lines| ==> labelOf(lines[k]) != Some(l)
    ensures l in FirstPassState(lines, base, init, labelOf, weight).0
    ensures FirstPassState(lines, base, init, labelOf, weight).0[l] == base + 4 * SumBy(lines[..j], weight)
    decreases |lines|
  {
    var n := |lines| - 1;
    var prefix := lines[..n];
    FirstPassLast(lines, base, init, labelOf, weight);
    if j < n {
      assert forall k :: j < k < |prefix| ==> prefix[k] == lines[k];
      LabelAddressBy(prefix, base, init, labelOf, weight, j, l);
      assert prefix[..j] == lines[..j];
    } else {
      FirstPassAddress(prefix, base, init, labelOf, weight);
    }
  }

  /** A label no line defines keeps its initial binding, or stays
      unbound. */
  lemma {:induction false} LabelUntouchedBy(lines: seq<string>, base: int, init: map<string, int>, labelOf: string -> Option<string>, weight: string -> nat, l: string)
    requires forall k :: 0 <= k < |lines| ==> labelOf(lines[k]) != Some(l)
    ensures l in FirstPassState(lines, base, init, labelOf, weight).0 <==> l in init
    ensures l in init ==> FirstPassState(lines, base, init, labelOf, weight).0[l] == init[l]
    decreases |lines|
  {
    if lines != [] {
      var n := |lines| - 1;
      var prefix := lines[..n];
      FirstPassLast(lines, base, init, labelOf, weight);
      assert forall k :: 0 <= k < |prefix| ==> prefix[k] == lines[k];
      LabelUntouchedBy(prefix, base, init, labelOf, weight, l);
    }
  }

  /** In the assembler's first pass, a label maps to the address of the
      instruction after its last definition. */
  lemma LabelAddress(lines: seq<string>, base: int, init: map<string, int>, j: nat, l: string)
    requires j < |lines| && LabelOf(lines[j]) == Some(l)
    requires forall k :: j < k < |lines| ==> LabelOf(lines[k]) != Some(l)
    ensures l in DefineLabels(lines, base, init)
    ensures DefineLabels(lines, base, init)[l] == base + 4 * WordCount(lines[..j])
  {
    LabelAddressBy(lines, base, init, LabelOf, Weight, j, l);
  }

  /** A label defined in the file points into the text the file assembles
      to: no further than the end of its words, which take at most one word
      per line. */
  lemma LabelInText(lines: seq<string>, base: int, init: map<string, int>, j: nat, l: string)
    requires j < |lines| && LabelOf(lines[j]) == Some(l)
    requires forall k :: j < k < |lines| ==> LabelOf(lines[k]) != Some(l)
    ensures l in DefineLabels(lines, base, init)
    ensures base <= DefineLabels(lines, base, init)[l] <= base + 4 * WordCount(lines)
    ensures WordCount(lines) <= |lines|
  {
    LabelAddress(lines, base, init, j, l);
    SumByPrefix(lines, j, Weight);
    SumByBound(lines, Weight, 1);
  }

  /** In the assembler's first pass, a label no line defines keeps its
      initial binding, or stays unbound. */
  lemma LabelUntouched(lines: seq<string>, base: int, init: map<string, int>, l: string)
    requires forall k :: 0 <= k < |lines| ==> LabelOf(lines[k]) != Some(l)
    ensures l in DefineLabels(lines, base, init) <==> l in init
    ensures l in init ==> DefineLabels(lines, base, init)[l] == init[l]
  {
    LabelUntouchedBy(lines, base, init, LabelOf, Weight, l);
  }

  // ---------------------------------------------------------------------
  // The second pass
  // ---------------------------------------------------------------------

  /** An instruction encoder: mnemonic, operand text, address and label
      table to a word or an error. The second pass is stated for any
      encoder and used with `AssembleInstruction`. */
  type Encoder = (string, string, int, map<string, int>) -> Result<int>

  /** The encoder on an instruction text split into its mnemonic and its
      operands. */
  function AssembleLine(text: string, addr: int, labels: map<string, int>, encode: Encoder): Result<int>
  {
    var (mnemonic, operands) := SplitWord(text);
    encode(mnemonic, operands, addr, labels)
  }

  /** What the second pass makes of one line at an address: nothing for a
      line without an instruction, otherwise what the encoder gives. */
  function LineWord(line: string, addr: int, labels: map<string, int>, encode: Encoder): Option<Result<int>>
  {
    match InstructionText(line)
    case None => None
    case Some(text) => Some(AssembleLine(text, addr, labels, encode))
  }

  /** One line's effect on the second pass's words and error: nothing
      after an error, nothing for a line without an instruction, otherwise
      one more word or the error its instruction raises. */
  function SecondStep(acc: (seq<int>, Option<AsmError>), line: string, base: int, labels: map<string, int>, encode: Encoder): (seq<int>, Option<AsmError>)
  {
    if acc.1.Some? then acc
    else
      match LineWord(line, base + 4 * |acc.0|, labels, encode)
      case None => acc
      case Some(Ok(w)) => (acc.0 + [w], None)
      case Some(Err(e)) => (acc.0, Some(e))
  }

  /** The words the second pass emits for the lines with a given label
      table, and the error that stopped it, if any. Each instruction is
      assembled at `base` plus four bytes per word already emitted. */
  function Assembled(lines: seq<string>, base: int, labels: map<string, int>, encode: Encoder): (seq<int>, Option<AsmError>)
  {
    if lines == [] then ([], None)
    else SecondStep(Assembled(lines[..|lines| - 1], base, labels, encode), lines[|lines| - 1], base, labels, encode)
  }

  /** One more line of the second pass. */
  lemma SecondPassStep(lines: seq<string>, i: nat, base: int, labels: map<string, int>, encode: Encoder)
    requires i < |lines|
    ensures Assembled(lines[..i + 1], base, labels, encode)
      == SecondStep(Assembled(lines[..i], base, labels, encode), lines[i], base, labels, encode)
  {
    var p := lines[..i + 1];
    assert p[..|p| - 1] == lines[..i];
    assert p[|p| - 1] == lines[i];
  }

  /** Without an error every instruction line gives one word, so the second
      pass reaches the addresses the first pass assigned. */
  lemma {:induction false} AssembledCount(lines: seq<string>, base: int, labels: map<string, int>, encode: Encoder)
    ensures Assembled(lines, base, labels, encode).1.None? ==> |Assembled(lines, base, labels, encode).0| == WordCount(lines)
    decreases |lines|
  {
    if lines != [] {
      var n := |lines| - 1;
      AssembledCount(lines[..n], base, labels, encode);
      SecondPassStep(lines, n, base, labels, encode);
      SumByStep(lines, n, Weight);
      assert lines[..n + 1] == lines;
      PassesAgree(lines[n]);
    }
  }

  /** Once an error is raised, later lines change nothing: the words
      assembled before the failing line are what the assembler holds. */
  lemma {:induction false} AssembledStops(lines: seq<string>, more: seq<string>, base: int, labels: map<string, int>, encode: Encoder)
    requires Assembled(lines, base, labels, encode).1.Some?
    ensures Assembled(lines + more, base, labels, encode) == Assembled(lines, base, labels, encode)
    decreases |more|
  {
    if more == [] {
      assert lines + more == lines;
    } else {
      var more' := more[..|more| - 1];
      assert (lines + more)[..|lines + more| - 1] == lines + more';
      AssembledStops(lines, more', base, labels, encode);
    }
  }

  /** The pass stops at the first line that raises an error: what it has
      then is the result for the whole file. */
  lemma AssembledAfterError(lines: seq<string>, i: nat, base: int, labels: map<string, int>, encode: Encoder)
    requires i < |lines| && Assembled(lines[..i + 1], base, labels, encode).1.Some?
    ensures Assembled(lines, base, labels, encode) == Assembled(lines[..i + 1], base, labels, encode)
  {
    AssembledStops(lines[..i + 1], lines[i + 1..], base, labels, encode);
    assert lines[..i + 1] + lines[i + 1..] == lines;
  }

  /** Later lines only append: the words of a prefix of the file begin the
      words of the whole file. */
  lemma {:induction false} AssembledPrefix(lines: seq<string>, more: seq<string>, base: int, labels: map<string, int>, encode: Encoder)
    ensures var w := Assembled(lines, base, labels, encode).0;
      var w' := Assembled(lines + more, base, labels, encode).0;
      |w| <= |w'| && w'[..|w|] == w
    decreases |more|
  {
    if more == [] {
      assert lines + more == lines;
    } else {
      var more' := more[..|more| - 1];
      assert (lines + more)[..|lines + more| - 1] == lines + more';
      AssembledPrefix(lines, more', base, labels, encode);
    }
  }

  /** The instruction on line j is assembled at the address the first pass
      counted for it, and becomes word number `WordCount(lines[..j])`. When
      that line also defines a label, the label's address is the address of
      that very word. */
  lemma LineAssembledAt(lines: seq<string>, base: int, labels: map<string, int>, encode: Encoder, j: nat, addr: int)
    requires j < |lines| && InstructionText(lines[j]).Some?
    requires Assembled(lines[..j + 1], base, labels, encode).1.None?
    requires addr == base + 4 * WordCount(lines[..j])
    ensures var code := AssembleLine(InstructionText(lines[j]).value, addr, labels, encode);
      code.Ok?
      && |Assembled(lines[..j + 1], base, labels, encode).0| == WordCount(lines[..j]) + 1
      && Assembled(lines[..j + 1], base, labels, encode).0[WordCount(lines[..j])] == code.value
  {
    var acc := Assembled(lines[..j], base, labels, encode);
    SecondPassStep(lines, j, base, labels, encode);
    assert acc.1.None?;
    AssembledCount(lines[..j], base, labels, encode);
    var code := AssembleLine(InstructionText(lines[j]).value, addr, labels, encode);
    var outcome := LineWord(lines[j], addr, labels, encode);
    assert outcome == Some(code);
    SecondStepOf(acc, lines[j], base, addr, labels, encode, outcome);
  }

  /** One line of the second pass, reached without an error, in terms of
      what that line makes at the address the words so far have reached. */
  lemma SecondStepOf(acc: (seq<int>, Option<AsmError>), line: string, base: int, addr: int, labels: map<string, int>, encode: Encoder, outcome: Option<Result<int>>)
    requires acc.1.None? && addr == base + 4 * |acc.0| && outcome == LineWord(line, addr, labels, encode)
    ensures outcome.None? ==> SecondStep(acc, line, base, labels, encode) == acc
    ensures outcome.Some? && outcome.value.Ok? ==> SecondStep(acc, line, base, labels, encode) == (acc.0 + [outcome.value.value], None)
    ensures outcome.Some? && outcome.value.Err? ==> SecondStep(acc, line, base, labels, encode) == (acc.0, Some(outcome.value.error))
  {
  }

  // ---------------------------------------------------------------------
  // The assembler object
  // ---------------------------------------------------------------------

  /** `MIPSAssembler`: the label table and the words emitted so far, and
      the address the text segment starts at. */
  class MipsAssembler {
    var labels: map<string, int>
    var instructions: seq<int>
    const baseAddr: int

    constructor ()
      ensures labels == map[] && instructions == [] && baseAddr == TEXT_BASE
    {
      labels := map[];
      instructions := [];
      baseAddr := TEXT_BASE;
    }

    /** One line of `first_pass`: bind its label to the current address and
      move past its instruction. */
    method FirstPassLine(line: string, addr: int) returns (next: int)
      modifies this
      ensures labels == Bind(old(labels), LabelOf(line), addr)
      ensures next == addr + 4 * Weight(line)
      ensures instructions == old(instructions)
    {
      var name := LabelOf(line);
      if name.Some? {
        labels := labels[name.value := addr];
      }
      next := if Advances(line) then addr + 4 else addr;
    }

    /** `first_pass`: bind every label to its instruction's address. */
    method FirstPass(lines: seq<string>)
      modifies this
      ensures labels == DefineLabels(lines, baseAddr, old(labels))
      ensures instructions == old(instructions)
    {
      var addr := baseAddr;
      for i := 0 to |lines|
        invariant (labels, addr) == FirstPassState(lines[..i], baseAddr, old(labels), LabelOf, Weight)
        invariant instructions == old(instructions)
      {
        FirstPassStep(lines, i, baseAddr, old(labels), LabelOf, Weight);
        addr := FirstPassLine(lines[i], addr);
      }
      assert lines[..|lines|] == lines;
    }

    /** One line of `second_pass`, reached without an error: assemble its
      instruction, if it has one, at the current address and append the
      word; the address moves past it. */
    method SecondPassLine(line: string, addr: int, encode: Encoder) returns (next: int, error: Option<AsmError>)
      modifies this
      ensures labels == old(labels)
      ensures match LineWord(line, addr, labels, encode)
        case None => instructions == old(instructions) && next == addr && error == None
        case Some(Ok(w)) => instructions == old(instructions) + [w] && next == addr + 4 && error == None
        case Some(Err(e)) => instructions == old(instructions) && next == addr && error == Some(e)
    {
      next, error := addr, None;
      var text := InstructionText(line);
      if text.None? {
        return;
      }
      var code := AssembleLine(text.value, addr, labels, encode);
      if code.Err? {
        error := Some(code.error);
        return;
      }
      instructions := instructions + [code.value];
      next := addr + 4;
    }

    /** The loop of `second_pass`, for any instruction encoder: assemble
      each instruction at its address and append its word; the first error
      stops the pass, keeping the words before it. */
    method SecondPassWith(lines: seq<string>, encode: Encoder) returns (error: Option<AsmError>)
      modifies this
      ensures labels == old(labels)
      ensures instructions == old(instructions) + Assembled(lines, baseAddr, labels, encode).0
      ensures error == Assembled(lines, baseAddr, labels, encode).1
    {
      var addr := baseAddr;
      error := None;
      for i := 0 to |lines|
        invariant labels == old(labels)
        invariant error == None && Assembled(lines[..i], baseAddr, labels, encode).1 == None
        invariant instructions == old(instructions) + Assembled(lines[..i], baseAddr, labels, encode).0
        invariant addr == baseAddr + 4 * |Assembled(lines[..i], baseAddr, labels, encode).0|
      {
        SecondPassStep(lines, i, baseAddr, labels, encode);
        ghost var acc := Assembled(lines[..i], baseAddr, labels, encode);
        ghost var outcome := LineWord(lines[i], addr, labels, encode);
        SecondStepOf(acc, lines[i], baseAddr, addr, labels, encode, outcome);
        addr, error := SecondPassLine(lines[i], addr, encode);
        if error.Some? {
          AssembledAfterError(lines, i, baseAddr, labels, encode);
          return;
        }
      }
      assert lines[..|lines|] == lines;
    }

    /** `second_pass`, with `assemble_instruction` as the encoder. */
    method SecondPass(lines: seq<string>) returns (error: Option<AsmError>)
      modifies this
      ensures labels == old(labels)
      ensures instructions == old(instructions) + Assembled(lines, baseAddr, labels, AssembleInstruction).0
      ensures error == Assembled(lines, baseAddr, labels, AssembleInstruction).1
    {
      error := SecondPassWith(lines, AssembleInstruction);
    }

    /** `assemble`: both passes over the same lines. */
    method Assemble(lines: seq<string>) returns (error: Option<AsmError>)
      modifies this
      ensures labels == DefineLabels(lines, baseAddr, old(labels))
      ensures instructions == old(instructions) + Assembled(lines, baseAddr, labels, AssembleInstruction).0
      ensures error == Assembled(lines, baseAddr, labels, AssembleInstruction).1
    {
      FirstPass(lines);
      error := SecondPass(lines);
    }
  }
}
