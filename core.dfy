/** A core of code/src/core.cpp: one pipeline, an id and a running flag.
    A cycle runs the stages from wb back to fetch, handles the syscall
    that wb retires, and applies a pending branch recovery. Syscall 10
    halts the core; syscalls 1 to 3 start a halted core with that id,
    which is why a core sees its peers. */
module Cores {
  import opened Bits
  import opened Isa
  import opened Wrappers
  import opened PipeOps
  import opened PipeState
  import opened Pipe

  /** The syscall wb reports to the core. */
  predicate IsSyscall(op: PipeOp)
  {
    op.opcode == OP_SPECIAL && op.subop == SUBOP_SYSCALL
  }

  /** Whether syscall `v0` issued on core `id` starts another core: the
      target is core `v0`, which must exist, be another core and be
      halted. */
  predicate SpawnFires(v0: Word, id: int, numCores: int, targetRunning: bool)
  {
    1 <= v0 <= 3 && v0 < numCores && v0 != id && !targetRunning
  }

  /** With the default single core no spawn ever starts anything: the only
      core is core 0, and the targets are 1 to 3. */
  lemma NoSpawnOnOneCore(v0: Word, id: int, targetRunning: bool)
    ensures !SpawnFires(v0, id, 1, targetRunning)
    ensures (1 <= v0 <= 3 && v0 != id && !targetRunning) <==> SpawnFires(v0, id, 4, targetRunning)
  {
  }

  /** The issuing core's pipeline after the syscall: halting puts PC back
      on the syscall (fetch adds four before the core stops), a successful
      spawn returns 0 in $v1. */
  function ParentAfterSyscall(s: PipeState.State, op: PipeOp, spawned: bool): (r: PipeState.State)
    requires WellFormed(s)
    ensures WellFormed(r) && r.regs[0] == s.regs[0]
    ensures op.regSrc1Value == 10 ==> r == s.(pc := op.pc)
    ensures op.regSrc1Value != 10 && spawned ==> r.regs[3] == 0 && r == s.(regs := r.regs)
    ensures op.regSrc1Value != 10 && !spawned ==> r == s
  {
    if op.regSrc1Value == 10 then s.(pc := op.pc)
    else if spawned then s.(regs := s.regs[3 := 0])
    else s
  }

  /** The started core's pipeline: it resumes after the syscall with 1 in
      $v1. */
  function ChildStart(s: PipeState.State, op: PipeOp): (r: PipeState.State)
    requires WellFormed(s)
    ensures WellFormed(r) && r.pc == Wrap(op.pc + 4) && r.regs[3] == 1 && r.regs[0] == s.regs[0]
    ensures forall i :: 0 <= i < 32 && i != 3 ==> r.regs[i] == s.regs[i]
  {
    s.(pc := Wrap(op.pc + 4), regs := s.regs[3 := 1])
  }

  /** The objects a core updates: itself, its pipeline and its registers. */
  function Frame(c: Core): set<object>
  {
    {c, c.pipe, c.pipe.regs}
  }

  /** The processor's cores as a core sees them: core i has id i, and no
      two share a pipeline or a register file. */
  predicate Peers(cores: seq<Core>, numCores: int)
  {
    |cores| == numCores &&
    (forall i :: 0 <= i < |cores| ==> cores[i].id == i && cores[i].pipe.Valid()) &&
    (forall i, j :: 0 <= i < j < |cores| ==>
       cores[i] != cores[j] && cores[i].pipe != cores[j].pipe && cores[i].pipe.regs != cores[j].pipe.regs)
  }

  /** The spawn target of a syscall on `self`, when core `v0` exists. */
  function Target(cores: seq<Core>, v0: Word): set<object>
  {
    if v0 < |cores| then Frame(cores[v0]) else {}
  }

  /** A running core's cycle on its own pipeline: wb, the retired
      syscall's effect on this core (`spawned` says whether it started
      another core), then mem, execute, decode, fetch and the recovery. */
  function CoreCycle(s: PipeState.State, m: Memory, spawned: bool): (r: (PipeState.State, Memory))
    requires WellFormed(s)
    ensures WellFormed(r.0) && !r.0.branchRecover
  {
    var (s1, retired) := WbStep(s);
    var s2 := if retired.Some? && IsSyscall(retired.value) then ParentAfterSyscall(s1, retired.value, spawned) else s1;
    Stages(s2, m)
  }

  /** Register 0 reads 0 forever on a running core. */
  lemma CycleKeepsRegisterZero(s: PipeState.State, m: Memory, spawned: bool)
    requires WellFormed(s) && s.regs[0] == 0
    ensures CoreCycle(s, m, spawned).0.regs[0] == 0
  {
    WbWritesOnlyDestination(s, 0);
  }

  /** Halting puts PC back on the syscall so that fetch, which runs later
      in the same cycle, leaves it on the next instruction: PC ends at the
      syscall's address plus four whenever fetch runs and no younger
      branch recovers in that cycle. */
  lemma HaltLeavesPcAfterSyscall(s: PipeState.State, m: Memory, spawned: bool)
    requires WellFormed(s) && s.wbOp.Some? && IsSyscall(s.wbOp.value) && s.wbOp.value.regSrc1Value == 10
    requires var s2 := ParentAfterSyscall(WbStep(s).0, s.wbOp.value, spawned);
      var s3 := ExecuteStep(MemStep(s2, m).0);
      !s3.branchRecover && DecodeStep(s3).decodeOp.None?
    ensures CoreCycle(s, m, spawned).0.pc == Wrap(s.wbOp.value.pc + 4)
  {
  }

  /** The objects a cycle may update besides the core's own: the target
      of the syscall about to retire, if any. */
  function CycleTarget(cores: seq<Core>, p: Pipeline): set<object>
    reads p
  {
    if p.wbOp.Some? && IsSyscall(p.wbOp.value) then Target(cores, p.wbOp.value.regSrc1Value) else {}
  }

  class Core {
    const id: int
    var isRunning: bool
    const pipe: Pipeline

    /** Core 0 starts running; the others wait to be spawned. */
    constructor (id: int)
      ensures this.id == id && isRunning == (id == 0)
      ensures pipe.Valid() && fresh(pipe) && fresh(pipe.regs)
      ensures pipe.State() == Initial()
    {
      this.id := id;
      isRunning := id == 0;
      pipe := new Pipeline();
    }

    /** `handle_syscall`: $v0 (the syscall's first source value) selects
        halt (10), print (11, output only) or spawn (1 to 3). */
    method HandleSyscall(op: PipeOp, cores: seq<Core>, numCores: int)
      requires Peers(cores, numCores) && 0 <= id < |cores| && cores[id] == this
      modifies Frame(this), Target(cores, op.regSrc1Value)
      ensures var v0 := op.regSrc1Value;
        var spawned := v0 != 10 && SpawnFires(v0, id, numCores, v0 < |cores| && old(cores[v0].isRunning));
        pipe.State() == ParentAfterSyscall(old(pipe.State()), op, spawned) &&
        isRunning == (old(isRunning) && v0 != 10) &&
        (v0 < |cores| && v0 != id ==>
           cores[v0].isRunning == (old(cores[v0].isRunning) || spawned) &&
           cores[v0].pipe.State() == if spawned then ChildStart(old(cores[v0].pipe.State()), op)
                                     else old(cores[v0].pipe.State()))
    {
      var v0 := op.regSrc1Value;
      if v0 == 10 {
        pipe.pc := op.pc;
        isRunning := false;
      } else if v0 == 11 {
        // printing is output only
      } else if 1 <= v0 <= 3 {
        var targetId := v0;
        if targetId < numCores && targetId != id {
          var target := cores[targetId];
          if !target.isRunning {
            target.pipe.pc := Wrap(op.pc + 4);
            target.pipe.regs[3] := 1;
            target.isRunning := true;
            pipe.regs[3] := 0;
          }
        }
      }
    }

    /** `cycle`: nothing on a halted core; otherwise the stages in reverse
        order, the syscall wb retires, and the branch recovery. */
    method Cycle(m: Memory, cores: seq<Core>, numCores: int) returns (m': Memory)
      requires Peers(cores, numCores) && 0 <= id < |cores| && cores[id] == this
      modifies Frame(this), CycleTarget(cores, pipe)
      ensures !old(isRunning) ==> m' == m && !isRunning && pipe.State() == old(pipe.State())
      ensures old(isRunning) ==>
        var retired := old(pipe.wbOp);
        var sys := retired.Some? && IsSyscall(retired.value);
        var v0 := if sys then retired.value.regSrc1Value else 0;
        var spawned := sys && v0 != 10 && SpawnFires(v0, id, numCores, v0 < |cores| && old(cores[v0].isRunning));
        (pipe.State(), m') == CoreCycle(old(pipe.State()), m, spawned) &&
        isRunning == !(sys && v0 == 10) &&
        (sys && v0 < |cores| && v0 != id ==>
           cores[v0].isRunning == (old(cores[v0].isRunning) || spawned) &&
           cores[v0].pipe.State() == if spawned then ChildStart(old(cores[v0].pipe.State()), retired.value)
                                     else old(cores[v0].pipe.State()))
    {
      m' := m;
      if !isRunning {
        return;
      }
      var retired := pipe.Wb();
      if retired.Some? && IsSyscall(retired.value) {
        HandleSyscall(retired.value, cores, numCores);
      }
      m' := RunStages(m);
    }

    /** The stages after wb, in the order `cycle` runs them, and the
        recovery. */
    method RunStages(m: Memory) returns (m': Memory)
      requires pipe.Valid()
      modifies pipe
      ensures (pipe.State(), m') == Stages(old(pipe.State()), m)
    {
      m' := pipe.Mem(m);
      pipe.Execute();
      pipe.Decode();
      pipe.Fetch(m');
      ApplyRecovery();
    }

    /** The recovery at the end of a cycle: PC takes the recovery's
        destination and the slots up to its flush level are emptied. */
    method ApplyRecovery()
      requires pipe.Valid()
      modifies pipe
      ensures pipe.State() == RecoveryStep(old(pipe.State()))
    {
      if pipe.branchRecover {
        pipe.pc := pipe.branchDest;
        if pipe.branchFlush >= 2 {
          pipe.decodeOp := None;
        }
        if pipe.branchFlush >= 3 {
          pipe.executeOp := None;
        }
        if pipe.branchFlush >= 4 {
          pipe.memOp := None;
        }
        if pipe.branchFlush >= 5 {
          pipe.wbOp := None;
        }
        pipe.branchRecover := false;
        pipe.branchDest := 0;
        pipe.branchFlush := 0;
      }
    }
  }
}
