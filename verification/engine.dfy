/**
 * The execution loop: the current label, the register list and the count
 * of executed steps. Each pass records a trace entry, stops on an undefined
 * label or on `halt`, grows the register list with zeros when an `inc` or
 * `dec` names a register beyond its end, and then increments or
 * conditionally decrements.
 */
module Engine {
  import opened Syntax

  /** The state between two passes of the loop. */
  datatype Machine = Machine(at: string, regs: seq<nat>)

  /** What the loop records at the start of a pass, before any check. */
  datatype TraceEntry = TraceEntry(step: nat, at: string, regs: seq<nat>)

  /** How a run ended, with the number of passes made and the final state. */
  datatype Outcome =
    | ProperHalt(count: nat, at: string, regs: seq<nat>)
    | ErroneousHalt(count: nat, at: string, regs: seq<nat>)
    | OutOfFuel(count: nat, at: string, regs: seq<nat>)

  datatype StepResult = Continue(next: Machine) | Stopped(proper: bool, last: Machine)

  /** The value of register `k`: registers past the end of the list read as zero. */
  function Reg(regs: seq<nat>, k: nat): nat
  {
    if k < |regs| then regs[k] else 0
  }

  function Zeros(n: nat): (z: seq<nat>)
    ensures |z| == n && forall i :: 0 <= i < n ==> z[i] == 0
  {
    seq(n, _ => 0)
  }

  /** The register list made long enough to hold register `r`. */
  function Grow(regs: seq<nat>, r: nat): (g: seq<nat>)
    ensures |g| == if r < |regs| then |regs| else r + 1
    ensures g[..|regs|] == regs
    ensures forall k :: |regs| <= k < |g| ==> g[k] == 0
  {
    if r < |regs| then regs else regs + Zeros(r + 1 - |regs|)
  }

  /** Growing never changes the value of any register. */
  lemma GrowKeepsValues(regs: seq<nat>, r: nat)
    ensures forall k: nat :: Reg(Grow(regs, r), k) == Reg(regs, k)
  {
    var g := Grow(regs, r);
    forall k: nat ensures Reg(g, k) == Reg(regs, k) {
      if k < |regs| { assert g[k] == g[..|regs|][k]; }
    }
  }

  /** One pass of the loop after its trace entry. */
  function Step(prog: Program, m: Machine): (s: StepResult)
    ensures m.at !in prog ==> s == Stopped(false, m)
    ensures m.at in prog && prog[m.at].Halt? ==> s == Stopped(true, m)
    ensures s.Continue? ==> |s.next.regs| >= |m.regs|
  {
    if m.at !in prog then Stopped(false, m)
    else
      match prog[m.at]
      case Halt => Stopped(true, m)
      case Inc(r, next) =>
        var g := Grow(m.regs, r);
        Continue(Machine(next, g[r := g[r] + 1]))
      case Dec(r, nz, z) =>
        var g := Grow(m.regs, r);
        if g[r] > 0 then Continue(Machine(nz, g[r := g[r] - 1])) else Continue(Machine(z, g))
  }

  /**
   * `inc` adds one to its register and to no other, leaves the list at least
   * `r + 1` long, and goes to its target.
   */
  lemma StepInc(prog: Program, m: Machine)
    requires m.at in prog && prog[m.at].Inc?
    ensures var Inc(r, next) := prog[m.at];
            var s := Step(prog, m);
            && s.Continue? && s.next.at == next
            && |s.next.regs| == (if r < |m.regs| then |m.regs| else r + 1)
            && forall k: nat :: Reg(s.next.regs, k) == Reg(m.regs, k) + (if k == r then 1 else 0)
  {
    GrowKeepsValues(m.regs, prog[m.at].r);
  }

  /**
   * `dec` on a positive register takes one from it and goes to the first
   * target; on a zero register it changes no value and goes to the second.
   */
  lemma StepDec(prog: Program, m: Machine)
    requires m.at in prog && prog[m.at].Dec?
    ensures var Dec(r, nz, z) := prog[m.at];
            var s := Step(prog, m);
            && s.Continue?
            && |s.next.regs| == (if r < |m.regs| then |m.regs| else r + 1)
            && (Reg(m.regs, r) > 0 ==>
                  s.next.at == nz &&
                  forall k: nat :: Reg(s.next.regs, k) == Reg(m.regs, k) - (if k == r then 1 else 0))
            && (Reg(m.regs, r) == 0 ==>
                  s.next.at == z &&
                  forall k: nat :: Reg(s.next.regs, k) == Reg(m.regs, k))
  {
    GrowKeepsValues(m.regs, prog[m.at].r);
  }

  /**
   * At most `fuel` passes of the loop from `m`, the first numbered `n`: the
   * trace entries recorded and how the run ended.
   */
  function Run(prog: Program, m: Machine, fuel: nat, n: nat): (res: (seq<TraceEntry>, Outcome))
    ensures |res.0| <= fuel
    ensures res.1.count == n + |res.0|
    ensures forall k :: 0 <= k < |res.0| ==> res.0[k].step == n + k
    ensures res.1.OutOfFuel? ==> |res.0| == fuel
    decreases fuel
  {
    if fuel == 0 then ([], OutOfFuel(n, m.at, m.regs))
    else
      var entry := TraceEntry(n, m.at, m.regs);
      match Step(prog, m)
      case Stopped(proper, last) =>
        ([entry], if proper then ProperHalt(n + 1, last.at, last.regs)
                  else ErroneousHalt(n + 1, last.at, last.regs))
      case Continue(next) =>
        var (trace, outcome) := Run(prog, next, fuel - 1, n + 1);
        ([entry] + trace, outcome)
  }

  function MachineOf(e: TraceEntry): Machine
  {
    Machine(e.at, e.regs)
  }

  /**
   * The trace is a path of the step relation: it starts at the initial
   * state, each entry continues to the next, and a halted run ends on the
   * state that stopped, with label and registers as they were.
   */
  lemma {:induction false} RunTrace(prog: Program, m: Machine, fuel: nat, n: nat)
    ensures var (trace, outcome) := Run(prog, m, fuel, n);
            && (fuel > 0 ==> |trace| > 0 && MachineOf(trace[0]) == m)
            && (forall k :: 0 <= k < |trace| - 1 ==>
                  Step(prog, MachineOf(trace[k])) == Continue(MachineOf(trace[k + 1])))
            && (outcome.ProperHalt? ==>
                  |trace| > 0 && Step(prog, MachineOf(trace[|trace| - 1])) == Stopped(true, MachineOf(trace[|trace| - 1])) &&
                  outcome.at == trace[|trace| - 1].at && outcome.regs == trace[|trace| - 1].regs)
            && (outcome.ErroneousHalt? ==>
                  |trace| > 0 && trace[|trace| - 1].at !in prog &&
                  outcome.at == trace[|trace| - 1].at && outcome.regs == trace[|trace| - 1].regs)
            && (outcome.OutOfFuel? && |trace| > 0 ==>
                  Step(prog, MachineOf(trace[|trace| - 1])) == Continue(Machine(outcome.at, outcome.regs)))
            && (outcome.OutOfFuel? && |trace| == 0 ==> outcome.at == m.at && outcome.regs == m.regs)
    decreases fuel
  {
    if fuel > 0 && Step(prog, m).Continue? {
      var next := Step(prog, m).next;
      RunTrace(prog, next, fuel - 1, n + 1);
      var (rest, _) := Run(prog, next, fuel - 1, n + 1);
      var (trace, _) := Run(prog, m, fuel, n);
      assert trace == [TraceEntry(n, m.at, m.regs)] + rest;
      forall k | 0 <= k < |trace| - 1
        ensures Step(prog, MachineOf(trace[k])) == Continue(MachineOf(trace[k + 1]))
      {
        if k > 0 { assert trace[k] == rest[k - 1] && trace[k + 1] == rest[k]; }
      }
    }
  }

  /** A run that halted within its fuel ends the same way with more fuel. */
  lemma {:induction false} RunMoreFuel(prog: Program, m: Machine, fuel: nat, more: nat, n: nat)
    requires fuel <= more
    requires !Run(prog, m, fuel, n).1.OutOfFuel?
    ensures Run(prog, m, more, n) == Run(prog, m, fuel, n)
    decreases fuel
  {
    if Step(prog, m).Continue? {
      RunMoreFuel(prog, Step(prog, m).next, fuel - 1, more - 1, n + 1);
    }
  }

  /**
   * Stopping a run after `f1` passes and resuming it from where it stopped
   * for `f2` more gives the run with `f1 + f2` passes.
   */
  lemma {:induction false} RunResume(prog: Program, m: Machine, f1: nat, f2: nat, n: nat)
    ensures var (t1, o1) := Run(prog, m, f1, n);
            Run(prog, m, f1 + f2, n) ==
              if o1.OutOfFuel? then
                var (t2, o2) := Run(prog, Machine(o1.at, o1.regs), f2, o1.count);
                (t1 + t2, o2)
              else (t1, o1)
    decreases f1
  {
    if f1 == 0 {
      var (t2, o2) := Run(prog, m, f2, n);
      assert [] + t2 == t2;
    } else if Step(prog, m).Continue? {
      var next := Step(prog, m).next;
      RunResume(prog, next, f1 - 1, f2, n + 1);
      RunContinues(prog, m, next, f1, n);
      RunContinues(prog, m, next, f1 + f2, n);
      var (t1, o1) := Run(prog, next, f1 - 1, n + 1);
      if o1.OutOfFuel? {
        AppendAssoc([TraceEntry(n, m.at, m.regs)], t1, Run(prog, Machine(o1.at, o1.regs), f2, o1.count).0);
      }
    } else {
      assert f1 + f2 - 1 >= 0;
    }
  }

  lemma RunContinues(prog: Program, m: Machine, next: Machine, fuel: nat, n: nat)
    requires fuel > 0 && Step(prog, m) == Continue(next)
    ensures Run(prog, m, fuel, n) ==
            ([TraceEntry(n, m.at, m.regs)] + Run(prog, next, fuel - 1, n + 1).0, Run(prog, next, fuel - 1, n + 1).1)
  {
  }

  lemma AppendAssoc<T>(a: seq<T>, b: seq<T>, c: seq<T>)
    ensures a + (b + c) == (a + b) + c
  {
  }

  /**
   * The loop invariant of `Execute`: the run from the initial state is the
   * trace recorded so far followed by the run from the current state with
   * the fuel that is left.
   */
  ghost predicate Resumes(prog: Program, m0: Machine, fuel: nat, done: seq<TraceEntry>, m: Machine, k: nat)
    requires k <= fuel
  {
    var (rest, outcome) := Run(prog, m, fuel - k, k);
    Run(prog, m0, fuel, 0) == (done + rest, outcome)
  }

  /** One continuing pass keeps the loop invariant. */
  lemma ResumesStep(prog: Program, m0: Machine, fuel: nat, done: seq<TraceEntry>, m: Machine, next: Machine, k: nat)
    requires k < fuel && Resumes(prog, m0, fuel, done, m, k)
    requires Step(prog, m) == Continue(next)
    ensures Resumes(prog, m0, fuel, done + [TraceEntry(k, m.at, m.regs)], next, k + 1)
  {
    RunContinues(prog, m, next, fuel - k, k);
    AppendAssoc(done, [TraceEntry(k, m.at, m.regs)], Run(prog, next, fuel - (k + 1), k + 1).0);
  }

  /** The loop, run for at most `fuel` passes. */
  method Execute(prog: Program, start: string, init: seq<nat>, fuel: nat)
    returns (trace: seq<TraceEntry>, outcome: Outcome)
    ensures (trace, outcome) == Run(prog, Machine(start, init), fuel, 0)
  {
    var i, registers, execNum := start, init, 0;
    trace := [];
    assert [] + Run(prog, Machine(i, registers), fuel, 0).0 == Run(prog, Machine(i, registers), fuel, 0).0;
    while execNum < fuel
      invariant execNum <= fuel && |trace| == execNum
      invariant Resumes(prog, Machine(start, init), fuel, trace, Machine(i, registers), execNum)
      decreases fuel - execNum
    {
      ghost var before := Machine(i, registers);
      ghost var done := trace;
      trace := trace + [TraceEntry(execNum, i, registers)];
      execNum := execNum + 1;
      if i !in prog {
        return trace, ErroneousHalt(execNum, i, registers);
      }
      var inst := prog[i];
      if !inst.Halt? && inst.r >= |registers| {
        registers := Extend(registers, inst.r);
      }
      if inst.Halt? {
        return trace, ProperHalt(execNum, i, registers);
      }
      if inst.Inc? {
        registers := registers[inst.r := registers[inst.r] + 1];
        i := inst.next;
      } else if registers[inst.r] > 0 {
        registers := registers[inst.r := registers[inst.r] - 1];
        i := inst.nz;
      } else {
        i := inst.z;
      }
      assert Step(prog, before) == Continue(Machine(i, registers));
      ResumesStep(prog, Machine(start, init), fuel, done, before, Machine(i, registers), execNum - 1);
    }
    assert trace + [] == trace;
    outcome := OutOfFuel(execNum, i, registers);
  }

  /** The inner loop that appends zeros until register `r` exists. */
  method Extend(registers: seq<nat>, r: nat) returns (grown: seq<nat>)
    ensures grown == Grow(registers, r)
  {
    grown := registers;
    if r >= |registers| {
      for k := 0 to r - |registers| + 1
        invariant grown == registers + Zeros(k)
      {
        grown := grown + [0];
      }
    }
  }
}
