/** The pipeline object of code/src/pipe.cpp: register file, HI/LO, PC,
    the four inter-stage slots and the recovery and multiplier-stall
    bookkeeping, updated in place one stage at a time. Every stage method
    is proved to leave the state the matching function of PipeState
    gives, so what is proved there holds of the object. */
module Pipe {
  import opened Bits
  import opened Isa
  import opened Wrappers
  import opened PipeOps
  import opened Alu
  import opened MemAccess
  import opened PipeState

  class Pipeline {
    const regs: array<Word>
    var hi: Word
    var lo: Word
    var pc: Word
    var decodeOp: Option<PipeOp>
    var executeOp: Option<PipeOp>
    var memOp: Option<PipeOp>
    var wbOp: Option<PipeOp>
    var branchRecover: bool
    var branchDest: Word
    var branchFlush: int
    var multiplierStall: nat

    /** 32 general-purpose registers. */
    predicate Valid()
    {
      regs.Length == 32
    }

    /** The object's state as a PipeState value. */
    function State(): (s: PipeState.State)
      requires Valid()
      reads this, regs
      ensures WellFormed(s)
    {
      PipeState.State(regs[..], hi, lo, pc, decodeOp, executeOp, memOp, wbOp,
                      branchRecover, branchDest, branchFlush, multiplierStall)
    }

    constructor ()
      ensures Valid() && fresh(regs)
      ensures State() == Initial()
    {
      regs := new Word[32](_ => 0);
      hi, lo, pc := 0, 0, TEXT_BASE;
      decodeOp, executeOp, memOp, wbOp := None, None, None, None;
      branchRecover, branchDest, branchFlush := false, 0, 0;
      multiplierStall := 0;
      new;
      assert regs[..] == seq(32, _ => 0);
    }

    /** Schedule a recovery unless one is already scheduled. */
    method Recover(flush: int, dest: Word)
      requires Valid()
      modifies this
      ensures Valid() && State() == RecoverStep(old(State()), flush, dest)
    {
      if branchRecover {
        return;
      }
      branchRecover := true;
      branchFlush := flush;
      branchDest := dest;
    }

    /** Retire the op in the wb slot; it is returned so that the core can
        handle a syscall. */
    method Wb() returns (retired: Option<PipeOp>)
      requires Valid()
      modifies this, regs
      ensures Valid() && (State(), retired) == WbStep(old(State()))
    {
      retired := wbOp;
      if wbOp.None? {
        return;
      }
      var op := wbOp.value;
      if op.regDst != -1 && op.regDst != 0 {
        regs[op.regDst] := op.regDstValue;
      }
      wbOp := None;
    }

    /** Load or store through memory and pass the op on to wb. */
    method Mem(m: Memory) returns (m': Memory)
      requires Valid()
      modifies this
      ensures Valid() && (State(), m') == MemStep(old(State()), m)
    {
      m' := m;
      if memOp.None? {
        return;
      }
      var op := memOp.value;
      var addr := WordAlign(op.memAddr);
      var val := 0;
      if op.isMem {
        val := MemRead(m, addr);
      }
      if IsLoad(op.opcode) {
        op := op.(regDstValueReady := true, regDstValue := LoadResult(op.opcode, val, op.memAddr));
      } else if IsStore(op.opcode) {
        m' := m[addr := StoreResult(op.opcode, val, op.memAddr, op.memValue)];
      }
      wbOp := Some(op);
      memOp := None;
    }

    /** Read a source register through the bypass from the wb slot. */
    method ReadRegister(src: RegIndex, current: Word) returns (v: Word)
      requires Valid()
      ensures v == ReadSource(State(), src, current)
    {
      if src == -1 {
        v := current;
      } else if src == 0 {
        v := 0;
      } else if wbOp.Some? && wbOp.value.regDst == src {
        v := wbOp.value.regDstValue;
      } else {
        v := regs[src];
      }
    }

    /** Count the multiplier down, then read, compute and pass the op in
        the execute slot on to mem, unless mem is occupied or the op has to
        wait for the multiplier. */
    method Execute()
      requires Valid()
      modifies this
      ensures Valid() && State() == ExecuteStep(old(State()))
    {
      ghost var s0 := State();
      if multiplierStall > 0 {
        multiplierStall := multiplierStall - 1;
      }
      if memOp.Some? || executeOp.None? {
        return;
      }
      var op := executeOp.value;
      assert State() == s0.(multiplierStall := multiplierStall);
      var v1 := ReadRegister(op.regSrc1, op.regSrc1Value);
      var v2 := ReadRegister(op.regSrc2, op.regSrc2Value);
      assert v1 == ReadSource(s0, op.regSrc1, op.regSrc1Value) && v2 == ReadSource(s0, op.regSrc2, op.regSrc2Value);
      op := op.(regSrc1Value := v1, regSrc2Value := v2);
      var outcome := ExecuteOp(op, hi, lo, multiplierStall);
      if outcome.Stalled? {
        executeOp := Some(outcome.op);
        return;
      }
      hi, lo, multiplierStall := outcome.hi, outcome.lo, outcome.stall;
      if outcome.op.branchTaken {
        Recover(3, outcome.op.branchDest);
      }
      memOp := Some(outcome.op);
      executeOp := None;
    }

    /** Decode the op in the decode slot into the execute slot, if free. */
    method Decode()
      requires Valid()
      modifies this
      ensures Valid() && State() == DecodeStep(old(State()))
    {
      if executeOp.Some? || decodeOp.None? {
        return;
      }
      executeOp := Some(DecodeOp(decodeOp.value));
      decodeOp := None;
    }

    /** Fetch the word at PC into the decode slot, if free. */
    method Fetch(m: Memory)
      requires Valid()
      modifies this
      ensures Valid() && State() == FetchStep(old(State()), m)
    {
      if decodeOp.Some? {
        return;
      }
      decodeOp := Some(FetchedOp(pc, MemRead(m, pc)));
      pc := Wrap(pc + 4);
    }
  }
}
