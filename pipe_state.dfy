/** The pipeline's state (`Pipe_State` in code/src/pipe.h, kept in the
    `Pipeline` of code/src/pipe.cpp) as a value, and one function per stage
    giving the state that stage leaves. The `Pipeline` class in
    pipeline.dfy runs the same stages in place and is proved against
    these functions. */
module PipeState {
  import opened Bits
  import opened Isa
  import opened Wrappers
  import opened PipeOps
  import opened Alu
  import opened MemAccess

  /** Memory as the pipeline sees it (`mem_read_32`/`mem_write_32`): words
      by address. An address never written reads as 0. */
  type Memory = map<Word, Word>

  function MemRead(m: Memory, a: Word): Word
  {
    if a in m then m[a] else 0
  }

  /** The four slots hold the op at the input of decode, execute, mem and
      wb (None for an empty slot). */
  datatype State = State(
    regs: seq<Word>, hi: Word, lo: Word, pc: Word,
    decodeOp: Option<PipeOp>, executeOp: Option<PipeOp>, memOp: Option<PipeOp>, wbOp: Option<PipeOp>,
    branchRecover: bool, branchDest: Word, branchFlush: int, multiplierStall: nat)

  predicate WellFormed(s: State)
  {
    |s.regs| == 32
  }

  /** The state the constructor sets up: PC at the text segment, every
      register, HI and LO zero, empty slots, no recovery pending and no
      multiplier stall. */
  function Initial(): (s: State)
    ensures WellFormed(s) && s.pc == TEXT_BASE
    ensures forall i :: 0 <= i < 32 ==> s.regs[i] == 0
    ensures s.hi == 0 && s.lo == 0 && !s.branchRecover && s.multiplierStall == 0
    ensures s.decodeOp.None? && s.executeOp.None? && s.memOp.None? && s.wbOp.None?
  {
    State(seq(32, _ => 0), 0, 0, TEXT_BASE, None, None, None, None, false, 0, 0, 0)
  }

  // ---------------------------------------------------------------------
  // recover
  // ---------------------------------------------------------------------

  /** `recover(flush, dest)`: schedule a recovery unless one is already
      scheduled, which then wins (it came from an older instruction). */
  function RecoverStep(s: State, flush: int, dest: Word): (r: State)
    ensures r.branchRecover
    ensures s.branchRecover ==> r == s
    ensures !s.branchRecover ==> r == s.(branchRecover := true, branchFlush := flush, branchDest := dest)
  {
    if s.branchRecover then s
    else s.(branchRecover := true, branchFlush := flush, branchDest := dest)
  }

  /** Once a recovery is scheduled, later calls in the same cycle change
      nothing. */
  lemma FirstRecoveryWins(s: State, f1: int, d1: Word, f2: int, d2: Word)
    ensures RecoverStep(RecoverStep(s, f1, d1), f2, d2) == RecoverStep(s, f1, d1)
    ensures !s.branchRecover ==> RecoverStep(RecoverStep(s, f1, d1), f2, d2).branchDest == d1
  {
  }

  // ---------------------------------------------------------------------
  // wb
  // ---------------------------------------------------------------------

  /** `wb`: retire the op in the wb slot, writing its destination unless
      that is -1 or register 0, and free the slot. The retired op is
      returned alongside, for the core's syscall handling. */
  function WbStep(s: State): (r: (State, Option<PipeOp>))
    requires WellFormed(s)
    ensures WellFormed(r.0) && r.0.wbOp.None? && r.1 == s.wbOp
  {
    match s.wbOp
    case None => (s, None)
    case Some(op) =>
      var regs := if op.regDst != -1 && op.regDst != 0 then s.regs[op.regDst := op.regDstValue] else s.regs;
      (s.(regs := regs, wbOp := None), Some(op))
  }

  /** Writeback changes exactly one register, the op's destination, and
      never register 0; nothing else in the state changes but the slot. */
  lemma WbWritesOnlyDestination(s: State, i: nat)
    requires WellFormed(s) && i < 32
    ensures WbStep(s).0.regs[i] ==
      if s.wbOp.Some? && s.wbOp.value.regDst == i && i != 0 then s.wbOp.value.regDstValue else s.regs[i]
    ensures WbStep(s).0.regs[0] == s.regs[0]
    ensures WbStep(s).0 == s.(regs := WbStep(s).0.regs, wbOp := None)
  {
  }

  // ---------------------------------------------------------------------
  // mem
  // ---------------------------------------------------------------------

  /** `mem`: read the aligned word of a memory op, let a load deliver its
      byte, halfword or word, let a store merge and write back, and move
      the op to the wb slot. */
  function MemStep(s: State, m: Memory): (r: (State, Memory))
    ensures r.0.memOp.None?
    ensures r.0 == s.(memOp := None, wbOp := r.0.wbOp)
    ensures s.memOp.None? ==> r == (s, m)
  {
    match s.memOp
    case None => (s, m)
    case Some(op) =>
      var addr := WordAlign(op.memAddr);
      var val := if op.isMem then MemRead(m, addr) else 0;
      if IsLoad(op.opcode) then
        var done := op.(regDstValueReady := true, regDstValue := LoadResult(op.opcode, val, op.memAddr));
        (s.(memOp := None, wbOp := Some(done)), m)
      else if IsStore(op.opcode) then
        (s.(memOp := None, wbOp := Some(op)), m[addr := StoreResult(op.opcode, val, op.memAddr, op.memValue)])
      else
        (s.(memOp := None, wbOp := Some(op)), m)
  }

  /** A store changes only the aligned word it addresses; a load, or any
      other op, leaves memory alone. A load's destination value is the
      selected part of that word. */
  lemma MemStepMemory(s: State, m: Memory, a: Word)
    requires s.memOp.Some?
    ensures var op := s.memOp.value;
      a != WordAlign(op.memAddr) || !IsStore(op.opcode) ==> MemRead(MemStep(s, m).1, a) == MemRead(m, a)
    ensures var op := s.memOp.value;
      IsStore(op.opcode) && op.isMem ==>
        MemRead(MemStep(s, m).1, WordAlign(op.memAddr))
          == StoreResult(op.opcode, MemRead(m, WordAlign(op.memAddr)), op.memAddr, op.memValue)
    ensures var op := s.memOp.value;
      IsLoad(op.opcode) && op.isMem ==>
        MemStep(s, m).0.wbOp == Some(op.(regDstValueReady := true,
          regDstValue := LoadResult(op.opcode, MemRead(m, WordAlign(op.memAddr)), op.memAddr)))
  {
  }

  // ---------------------------------------------------------------------
  // execute
  // ---------------------------------------------------------------------

  /** The value execute reads for a source register: an op without one
      keeps its value, register 0 reads 0, the op in the wb slot forwards
      its destination value, and otherwise the register file is read.
      (The source also tries the mem slot first; execute only gets here
      with that slot empty.) */
  function ReadSource(s: State, src: RegIndex, current: Word): Word
    requires WellFormed(s)
  {
    if src == -1 then current
    else if src == 0 then 0
    else if s.wbOp.Some? && s.wbOp.value.regDst == src then s.wbOp.value.regDstValue
    else s.regs[src]
  }

  /** With an empty wb slot, a source reads register `src` itself, and
      register 0 reads 0 whatever the register file holds. */
  lemma ReadSourceValue(s: State, src: RegIndex, current: Word)
    requires WellFormed(s)
    ensures src == 0 ==> ReadSource(s, src, current) == 0
    ensures 0 < src && s.wbOp.None? ==> ReadSource(s, src, current) == s.regs[src]
    ensures 0 < src && s.wbOp.Some? && s.wbOp.value.regDst == src ==>
      ReadSource(s, src, current) == s.wbOp.value.regDstValue
  {
  }

  /** What happens to an op with its sources read: a MFHI, MTHI, MFLO or
      MTLO stays in execute while the multiplier is busy; anything else
      completes with new HI, LO and multiplier-stall values. */
  datatype Outcome = Stalled(op: PipeOp) | Executed(op: PipeOp, hi: Word, lo: Word, stall: nat)

  predicate IsHiLoMove(subop: int)
  {
    subop == SUBOP_MFHI || subop == SUBOP_MTHI || subop == SUBOP_MFLO || subop == SUBOP_MTLO
  }

  /** HI, LO and the multiplier stall after a SPECIAL op: a multiply sets
      both halves and four stall cycles, a divide both halves and 32, MTHI
      and MTLO one half. */
  function HiLoEffect(subop: int, a: Word, b: Word, hi: Word, lo: Word, stall: nat): (r: (Word, Word, nat))
    ensures subop !in {SUBOP_MULT, SUBOP_MULTU, SUBOP_DIV, SUBOP_DIVU, SUBOP_MTHI, SUBOP_MTLO} ==> r == (hi, lo, stall)
  {
    if subop == SUBOP_MULT then var p := MultHiLo(a, b); (p.hi, p.lo, 4)
    else if subop == SUBOP_MULTU then var p := MultuHiLo(a, b); (p.hi, p.lo, 4)
    else if subop == SUBOP_DIV then var p := DivHiLo(a, b); (p.hi, p.lo, 32)
    else if subop == SUBOP_DIVU then var p := DivuHiLo(a, b); (p.hi, p.lo, 32)
    else if subop == SUBOP_MTHI then (a, lo, stall)
    else if subop == SUBOP_MTLO then (hi, a, stall)
    else (hi, lo, stall)
  }

  /** A SPECIAL op after execute: its destination value is the ALU result
      (left alone for a subop without one), and JR and JALR become taken
      jumps to the first source register. */
  function SpecialOp(op: PipeOp, hi: Word, lo: Word): (r: PipeOp)
    ensures r == op.(regDstValue := r.regDstValue, branchDest := r.branchDest, branchTaken := r.branchTaken)
    ensures SpecialResult(op.subop, op.regSrc1Value, op.regSrc2Value, op.shamt, op.pc, hi, lo).None? ==>
      r.regDstValue == op.regDstValue
    ensures (op.subop == SUBOP_JR || op.subop == SUBOP_JALR) ==> r.branchTaken && r.branchDest == op.regSrc1Value
  {
    var v := SpecialResult(op.subop, op.regSrc1Value, op.regSrc2Value, op.shamt, op.pc, hi, lo);
    var o := if v.Some? then op.(regDstValue := v.value) else op;
    if op.subop == SUBOP_JR || op.subop == SUBOP_JALR then o.(branchDest := op.regSrc1Value, branchTaken := true) else o
  }

  /** The switch of `execute` on an op whose source values are read, with
      the current HI, LO and (already decremented) multiplier stall. */
  function ExecuteOp(op: PipeOp, hi: Word, lo: Word, stall: nat): Outcome
  {
    var a, b := op.regSrc1Value, op.regSrc2Value;
    if op.opcode == OP_SPECIAL then
      var o := op.(regDstValueReady := true);
      if IsHiLoMove(op.subop) && stall > 0 then Stalled(o)
      else
        var e := HiLoEffect(op.subop, a, b, hi, lo, stall);
        Executed(SpecialOp(o, hi, lo), e.0, e.1, e.2)
    else if op.opcode == OP_BRSPEC || IsBranchOpcode(op.opcode) then
      var o := if BranchCondition(op.opcode, op.subop, a, b) then op.(branchTaken := true) else op;
      Executed(o, hi, lo, stall)
    else if IsImmediateAlu(op.opcode) then
      var o := op.(regDstValueReady := true, regDstValue := ImmediateResult(op.opcode, a, op.imm16, op.seImm16).value);
      Executed(o, hi, lo, stall)
    else if IsLoad(op.opcode) then
      Executed(op.(memAddr := EffectiveAddress(a, op.seImm16)), hi, lo, stall)
    else if IsStore(op.opcode) then
      Executed(op.(memAddr := EffectiveAddress(a, op.seImm16), memValue := b), hi, lo, stall)
    else
      Executed(op, hi, lo, stall)
  }

  /** `execute`: count the multiplier down; unless the mem slot is full or
      there is nothing to execute, read the sources, run the op, and move
      it to the mem slot, scheduling a recovery to its destination when it
      is a taken branch or jump. A stalled op stays, sources read. */
  function ExecuteStep(s: State): (r: State)
    requires WellFormed(s)
    ensures WellFormed(r) && r.regs == s.regs && r.pc == s.pc && r.wbOp == s.wbOp && r.decodeOp == s.decodeOp
    ensures s.memOp.Some? ==> r.memOp == s.memOp && r.executeOp == s.executeOp
    ensures s.executeOp.Some? ==> r.executeOp.Some? || r.memOp.Some?
    ensures s.executeOp.None? ==> r.executeOp.None?
  {
    var stall := if s.multiplierStall > 0 then s.multiplierStall - 1 else 0;
    var s1 := s.(multiplierStall := stall);
    if s.memOp.Some? || s.executeOp.None? then s1
    else
      var op := s.executeOp.value;
      var read := op.(regSrc1Value := ReadSource(s, op.regSrc1, op.regSrc1Value),
                      regSrc2Value := ReadSource(s, op.regSrc2, op.regSrc2Value));
      match ExecuteOp(read, s.hi, s.lo, stall)
      case Stalled(o) => s1.(executeOp := Some(o))
      case Executed(o, hi, lo, st) =>
        var s2 := s1.(hi := hi, lo := lo, multiplierStall := st, executeOp := None, memOp := Some(o));
        if o.branchTaken then RecoverStep(s2, 3, o.branchDest) else s2
  }

  /** An op that completes execute leaves for the mem slot; if it is a
      taken branch or jump, a recovery to its destination flushing three
      stages is pending afterwards (the one already pending otherwise). */
  lemma ExecutedBranchRecovers(s: State)
    requires WellFormed(s) && s.memOp.None? && s.executeOp.Some?
    requires ExecuteStep(s).memOp.Some? && ExecuteStep(s).memOp.value.branchTaken
    ensures ExecuteStep(s).branchRecover && ExecuteStep(s).executeOp.None?
    ensures !s.branchRecover ==> ExecuteStep(s).branchFlush == 3 && ExecuteStep(s).branchDest == ExecuteStep(s).memOp.value.branchDest
  {
  }

  /** While the multiplier is busy, MFHI, MTHI, MFLO and MTLO make no
      progress: the op stays in execute and HI and LO are unchanged. */
  lemma HiLoMoveStalls(s: State)
    requires WellFormed(s) && s.memOp.None? && s.executeOp.Some?
    requires s.executeOp.value.opcode == OP_SPECIAL && IsHiLoMove(s.executeOp.value.subop)
    requires s.multiplierStall > 1
    ensures ExecuteStep(s).executeOp.Some? && ExecuteStep(s).memOp.None?
    ensures ExecuteStep(s).hi == s.hi && ExecuteStep(s).lo == s.lo
    ensures ExecuteStep(s).multiplierStall == s.multiplierStall - 1
    ensures ExecuteStep(s).executeOp.value.pc == s.executeOp.value.pc
  {
  }

  /** A multiply leaves the 64-bit product in HI and LO (signed for MULT)
      and four stall cycles; a divide leaves remainder and quotient (zero
      for a zero divisor) and 32 stall cycles. */
  lemma HiLoEffectLaws(subop: int, a: Word, b: Word, hi: Word, lo: Word, stall: nat)
    ensures var r := HiLoEffect(subop, a, b, hi, lo, stall);
      (subop == SUBOP_MULTU ==> r.0 * TWO32 + r.1 == a * b && r.2 == 4) &&
      (subop == SUBOP_MULT ==> Signed(r.0) * TWO32 + r.1 == Signed(a) * Signed(b) && r.2 == 4) &&
      (subop == SUBOP_DIVU && b != 0 ==> r.1 * b + r.0 == a && r.0 < b && r.2 == 32) &&
      (subop in {SUBOP_DIV, SUBOP_DIVU} && b == 0 ==> r == (0, 0, 32)) &&
      (subop == SUBOP_MTHI ==> r == (a, lo, stall)) &&
      (subop == SUBOP_MTLO ==> r == (hi, a, stall))
  {
  }

  /** A SPECIAL op that is not held back completes with its destination
      value ready, its source values untouched, and HI, LO and the stall
      counter as `HiLoEffect` gives them. */
  lemma SpecialOutcome(op: PipeOp, hi: Word, lo: Word, stall: nat)
    requires op.opcode == OP_SPECIAL && (!IsHiLoMove(op.subop) || stall == 0)
    ensures var r := ExecuteOp(op, hi, lo, stall);
      r.Executed? && r.op.regDstValueReady &&
      r.op.regSrc1Value == op.regSrc1Value && r.op.regSrc2Value == op.regSrc2Value &&
      (r.hi, r.lo, r.stall) == HiLoEffect(op.subop, op.regSrc1Value, op.regSrc2Value, hi, lo, stall)
  {
  }

  /** The same at the level of the execute stage: the op moves to the mem
      slot and HI, LO and the stall counter follow `HiLoEffect` on the
      source values it has read. */
  lemma ExecuteSpecialHiLo(s: State)
    requires WellFormed(s) && s.memOp.None? && s.executeOp.Some?
    requires s.executeOp.value.opcode == OP_SPECIAL
    requires !IsHiLoMove(s.executeOp.value.subop) || s.multiplierStall <= 1
    ensures var r := ExecuteStep(s);
      r.memOp.Some? && r.executeOp.None? && r.memOp.value.regDstValueReady &&
      (r.hi, r.lo, r.multiplierStall) ==
        HiLoEffect(s.executeOp.value.subop, r.memOp.value.regSrc1Value, r.memOp.value.regSrc2Value,
                   s.hi, s.lo, if s.multiplierStall > 0 then s.multiplierStall - 1 else 0)
  {
    var stall := if s.multiplierStall > 0 then s.multiplierStall - 1 else 0;
    var op := s.executeOp.value;
    var read := op.(regSrc1Value := ReadSource(s, op.regSrc1, op.regSrc1Value),
                    regSrc2Value := ReadSource(s, op.regSrc2, op.regSrc2Value));
    SpecialOutcome(read, s.hi, s.lo, stall);
  }

  // ---------------------------------------------------------------------
  // decode and fetch
  // ---------------------------------------------------------------------

  /** `decode`: unless the execute slot is full or there is nothing to
      decode, decode the op and move it to the execute slot. */
  function DecodeStep(s: State): (r: State)
    ensures s.executeOp.Some? || s.decodeOp.None? ==> r == s
    ensures s.executeOp.None? && s.decodeOp.Some? ==>
      r == s.(decodeOp := None, executeOp := Some(DecodeOp(s.decodeOp.value)))
  {
    if s.executeOp.Some? || s.decodeOp.None? then s
    else s.(decodeOp := None, executeOp := Some(DecodeOp(s.decodeOp.value)))
  }

  /** `fetch`: unless the decode slot is full, read the instruction word at
      PC into a new op for decode and advance PC by four. */
  function FetchStep(s: State, m: Memory): (r: State)
    ensures s.decodeOp.Some? ==> r == s
    ensures s.decodeOp.None? ==> r.decodeOp == Some(FetchedOp(s.pc, MemRead(m, s.pc))) && r.pc == Wrap(s.pc + 4)
    ensures r == s.(decodeOp := r.decodeOp, pc := r.pc)
  {
    if s.decodeOp.Some? then s
    else s.(decodeOp := Some(FetchedOp(s.pc, MemRead(m, s.pc))), pc := Wrap(s.pc + 4))
  }

  // ---------------------------------------------------------------------
  // Branch recovery at the end of a cycle (code/src/core.cpp)
  // ---------------------------------------------------------------------

  /** The flush levels: 2 and up empties decode, 3 execute, 4 mem, 5 wb. */
  function Flushed(slot: Option<PipeOp>, flush: int, level: int): Option<PipeOp>
  {
    if flush >= level then None else slot
  }

  /** With a recovery pending, PC takes the destination, the slots up to
      the flush level are emptied, and the recovery fields are cleared. */
  function RecoveryStep(s: State): (r: State)
    ensures !r.branchRecover && r.regs == s.regs && r.hi == s.hi && r.lo == s.lo
    ensures !s.branchRecover ==> r == s
    ensures s.branchRecover ==> r.pc == s.branchDest && r.branchDest == 0 && r.branchFlush == 0
  {
    if !s.branchRecover then s
    else s.(pc := s.branchDest,
            decodeOp := Flushed(s.decodeOp, s.branchFlush, 2),
            executeOp := Flushed(s.executeOp, s.branchFlush, 3),
            memOp := Flushed(s.memOp, s.branchFlush, 4),
            wbOp := Flushed(s.wbOp, s.branchFlush, 5),
            branchRecover := false, branchDest := 0, branchFlush := 0)
  }

  /** The stages after wb, in the core's order, followed by the recovery. */
  function Stages(s: State, m: Memory): (r: (State, Memory))
    requires WellFormed(s)
    ensures WellFormed(r.0) && r.0.regs == s.regs && !r.0.branchRecover
  {
    var (s1, m1) := MemStep(s, m);
    var s2 := ExecuteStep(s1);
    var s3 := DecodeStep(s2);
    var s4 := FetchStep(s3, m1);
    (RecoveryStep(s4), m1)
  }

  /** In a cycle, execute always finds the mem slot empty (mem has just
      moved its op on), so its downstream-stall test never fires and the
      op it holds always leaves or stalls on its own account. */
  lemma ExecuteFindsMemEmpty(s: State, m: Memory)
    ensures MemStep(s, m).0.memOp.None?
  {
  }

  /** A cycle that starts with no recovery pending and takes a branch or
      jump in execute ends with PC at its destination, the two younger ops
      squashed and the branch itself in the mem slot. */
  lemma TakenBranchSquashes(s: State, m: Memory)
    requires WellFormed(s) && !s.branchRecover
    requires var s1 := MemStep(s, m).0;
      (s1.executeOp.Some? && ExecuteStep(s1).memOp.Some? && ExecuteStep(s1).memOp.value.branchTaken)
    ensures var s1 := MemStep(s, m).0; var br := ExecuteStep(s1).memOp.value;
      var r := Stages(s, m).0;
      (r.pc == br.branchDest && r.decodeOp.None? && r.executeOp.None? && r.memOp == Some(br))
  {
    var s1 := MemStep(s, m).0;
    var s2 := ExecuteStep(s1);
    ExecutedBranchRecovers(s1);
    assert s2.branchFlush == 3;
  }

  /** Register 0 holds 0 forever: writeback never writes it and no other
      stage touches the register file. */
  lemma RegisterZeroStaysZero(s: State, m: Memory)
    requires WellFormed(s) && s.regs[0] == 0
    ensures Stages(WbStep(s).0, m).0.regs[0] == 0
  {
    WbWritesOnlyDestination(s, 0);
  }
}
