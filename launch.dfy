/**
 * The exit-handling loop of vmx_launch.
 *
 * Each pass binds the VCPU to the current CPU, may give the CPU away when a
 * reschedule is due, handles a pending signal, enters the guest, and then
 * dispatches on the exit reason: VMCALL and CPUID exits step the guest past
 * the instruction; a VMCALL asking to schedule and an external interrupt go
 * round again, as does CPUID once it has been emulated; everything else
 * leaves the loop. Entering the guest (vmx_run_vcpu) is opaque: its result,
 * the scheduler's and the signal queue's answers and the IRQ heuristics are
 * the inputs of each pass, one `Tick` per pass.
 */
module Launch {
  import opened Words
  import Capability
  import Binding

  const EXIT_REASON_EXCEPTION_NMI: nat := 0
  const EXIT_REASON_EXTERNAL_INTERRUPT: nat := 1
  const EXIT_REASON_CPUID: nat := 10
  const EXIT_REASON_VMCALL: nat := 18
  const EXIT_REASON_EPT_VIOLATION: nat := 48
  /** What vmx_run_vcpu returns when the VM entry itself failed. */
  const VMX_EXIT_REASONS_FAILED_VMENTRY: nat := 0x8000_0000

  const SIGKILL: nat := 9
  const ENOSYS: nat := 38
  /** `ret_code` after a SIGKILL: ENOSYS << 8. */
  const KILLED_RET_CODE: int := ENOSYS * 256

  const VCPU_REGS_RAX: nat := 0
  const VCPU_REGS_RCX: nat := 1
  const VCPU_REGS_RDX: nat := 2
  const VCPU_REGS_RBX: nat := 3

  /**
   * What one call of vmx_run_vcpu produced: whether the entry failed, the
   * exit reason, the guest registers saved on exit, GUEST_RIP and
   * VM_EXIT_INSTRUCTION_LEN.
   */
  datatype Entry = Entry(fail: bool, exitReason: nat, regs: seq<nat>, rip: nat, instrLen: nat)

  /** The four registers CPUID returns. */
  datatype CpuidOut = CpuidOut(eax: nat, ebx: nat, ecx: nat, edx: nat)

  /**
   * The rest of the system as one pass of the loop sees it: the CPU that
   * vmx_get_cpu runs on, need_resched and the CPU after cond_resched,
   * whether a signal is pending and which one dequeue_signal returns
   * (0: none), the guest entry, and the two heuristics that allow a later
   * reschedule (`hardirqs_enabled_nr == 1`, `rcu_scheduler_active`).
   */
  datatype Tick = Tick(
    cpu: nat, needResched: bool, reschedCpu: nat,
    signalPending: bool, signal: nat,
    entry: Entry, hardirqsEnabled: bool, rcuActive: bool)

  /** The VMCALL command numbers and the CPUID instruction of the processor. */
  datatype Host = Host(vmcallSched: nat, vmcallDoExit: nat, cpuid: (nat, nat) -> CpuidOut)

  /** The VCPU state the loop changes. */
  datatype Guest = Guest(regs: seq<nat>, rip: nat, launched: int, retCode: int)

  /**
   * How a pass ends: round again, or leave the loop on SIGKILL, on
   * VMCALL_DOEXIT (do_exit), on any other VMCALL command (BUG), or at
   * tmp_finish with the exit reason.
   */
  datatype Outcome = Again | Killed | DoExit | BadVmcall(cmd: nat) | Finish(ret: nat)

  /** The state after a pass: the guest, `schedule_ok`, and how the pass ended. */
  datatype After = After(guest: Guest, scheduleOk: bool, outcome: Outcome)

  /** The registers as vmx_run_vcpu saves them: all of RAX to R15. */
  predicate WellFormed(t: Tick) {
    |t.entry.regs| == Binding.NR_VCPU_REGS
  }

  function ExitReason(e: Entry): (ret: nat)
    ensures e.fail ==> ret == VMX_EXIT_REASONS_FAILED_VMENTRY
  {
    if e.fail then VMX_EXIT_REASONS_FAILED_VMENTRY else e.exitReason
  }

  /** vmx_step_instruction: GUEST_RIP advanced by the instruction length, as a 64-bit sum. */
  function StepInstruction(rip: nat, len: nat): (r: nat)
    ensures IsU64(r)
    ensures rip + len < U64_LIMIT ==> r == rip + len
    ensures IsU64(rip) && IsU64(len) && rip + len >= U64_LIMIT ==> r == rip + len - U64_LIMIT
  {
    (rip + len) % U64_LIMIT
  }

  /**
   * vmx_handle_cpuid: the leaf and subleaf are the low 32 bits of RAX and
   * RCX; the four 32-bit answers replace RAX, RBX, RCX and RDX and no other
   * register changes.
   */
  function HandleCpuid(regs: seq<nat>, cpuid: (nat, nat) -> CpuidOut): (r: seq<nat>)
    requires |regs| == Binding.NR_VCPU_REGS
    ensures |r| == |regs|
    ensures forall i :: 0 <= i < |r| ==>
              (i != VCPU_REGS_RAX && i != VCPU_REGS_RBX && i != VCPU_REGS_RCX && i != VCPU_REGS_RDX ==> r[i] == regs[i])
    ensures var out := cpuid(regs[VCPU_REGS_RAX] % U32_LIMIT, regs[VCPU_REGS_RCX] % U32_LIMIT);
              && r[VCPU_REGS_RAX] == out.eax % U32_LIMIT && r[VCPU_REGS_RBX] == out.ebx % U32_LIMIT
              && r[VCPU_REGS_RCX] == out.ecx % U32_LIMIT && r[VCPU_REGS_RDX] == out.edx % U32_LIMIT
  {
    var eax: nat := regs[VCPU_REGS_RAX] % U32_LIMIT;
    var ecx: nat := regs[VCPU_REGS_RCX] % U32_LIMIT;
    var out := cpuid(eax, ecx);
    regs[VCPU_REGS_RAX := out.eax % U32_LIMIT][VCPU_REGS_RBX := out.ebx % U32_LIMIT]
        [VCPU_REGS_RCX := out.ecx % U32_LIMIT][VCPU_REGS_RDX := out.edx % U32_LIMIT]
  }

  /** Whether a pass reaches vmx_run_vcpu: no reschedule is taken and no signal ends it first. */
  predicate Enters(scheduleOk: bool, t: Tick) {
    && !(scheduleOk && t.needResched)
    && !(t.signalPending && (t.signal == 0 || t.signal == SIGKILL))
  }

  /**
   * One pass of the loop. A pass that does not enter the guest changes
   * nothing but `ret_code` on SIGKILL. A pass that enters it leaves
   * `launched` at 1, takes the saved registers, steps RIP exactly on VMCALL
   * and CPUID exits, rewrites the CPUID registers on a CPUID exit, and goes
   * round again exactly on an external interrupt, a CPUID exit or a
   * VMCALL_SCHED; `schedule_ok` is set afterwards only by an entered pass
   * that ran with IRQs on and the RCU scheduler inactive and did not
   * schedule.
   */
  function Pass(g: Guest, scheduleOk: bool, t: Tick, h: Host): (a: After)
    requires WellFormed(t)
    ensures a.outcome.Killed? <==> !(scheduleOk && t.needResched) && t.signalPending && t.signal == SIGKILL
    ensures a.outcome.Killed? ==> a.guest == g.(retCode := KILLED_RET_CODE)
    ensures !Enters(scheduleOk, t) && !a.outcome.Killed? ==> a.guest == g && a.outcome == Again
    ensures !Enters(scheduleOk, t) ==> !a.scheduleOk
    ensures Enters(scheduleOk, t) ==>
              var e := t.entry;
              var ret := ExitReason(e);
              var cmd := e.regs[VCPU_REGS_RAX];
              && a.guest.launched == 1 && a.guest.retCode == g.retCode
              && a.guest.rip == (if ret == EXIT_REASON_VMCALL || ret == EXIT_REASON_CPUID
                                 then StepInstruction(e.rip, e.instrLen) else e.rip)
              && a.guest.regs == (if ret == EXIT_REASON_CPUID then HandleCpuid(e.regs, h.cpuid) else e.regs)
              && (a.outcome == Again <==>
                    ret == EXIT_REASON_EXTERNAL_INTERRUPT || ret == EXIT_REASON_CPUID
                    || (ret == EXIT_REASON_VMCALL && cmd == h.vmcallSched))
              && (ret == EXIT_REASON_VMCALL && cmd != h.vmcallSched ==>
                    a.outcome == if cmd == h.vmcallDoExit then DoExit else BadVmcall(cmd))
              && (ret != EXIT_REASON_VMCALL && ret != EXIT_REASON_CPUID && ret != EXIT_REASON_EXTERNAL_INTERRUPT ==>
                    a.outcome == Finish(ret))
              && (a.scheduleOk <==> t.hardirqsEnabled && !t.rcuActive
                                    && !(ret == EXIT_REASON_VMCALL && cmd == h.vmcallSched))
  {
    if scheduleOk && t.needResched then After(g, false, Again)
    else if t.signalPending && t.signal == 0 then After(g, false, Again)
    else if t.signalPending && t.signal == SIGKILL then After(g.(retCode := KILLED_RET_CODE), false, Killed)
    else
      var ret := ExitReason(t.entry);
      var sched := t.hardirqsEnabled && !t.rcuActive;
      var rip := if ret == EXIT_REASON_VMCALL || ret == EXIT_REASON_CPUID
                 then StepInstruction(t.entry.rip, t.entry.instrLen) else t.entry.rip;
      var ran := Guest(t.entry.regs, rip, 1, g.retCode);
      if ret == EXIT_REASON_VMCALL then
        var cmd := t.entry.regs[VCPU_REGS_RAX];
        if cmd == h.vmcallSched then After(ran, false, Again)
        else if cmd == h.vmcallDoExit then After(ran, sched, DoExit)
        else After(ran, sched, BadVmcall(cmd))
      else if ret == EXIT_REASON_CPUID then After(ran.(regs := HandleCpuid(ran.regs, h.cpuid)), sched, Again)
      else if ret == EXIT_REASON_EPT_VIOLATION then After(ran, sched, Finish(ret))
      else if ret == EXIT_REASON_EXCEPTION_NMI then After(ran, sched, Finish(ret))
      else if ret != EXIT_REASON_EXTERNAL_INTERRUPT then After(ran, sched, Finish(ret))
      else After(ran, sched, Again)
  }

  /** Passes over a trace of inputs until one leaves the loop or the trace runs out. */
  function Run(g: Guest, scheduleOk: bool, ticks: seq<Tick>, h: Host): (a: After)
    requires forall t <- ticks :: WellFormed(t)
    decreases |ticks|
  {
    if ticks == [] then After(g, scheduleOk, Again)
    else
      var a := Pass(g, scheduleOk, ticks[0], h);
      if a.outcome.Again? then Run(a.guest, a.scheduleOk, ticks[1..], h) else a
  }

  /** Running two traces one after the other is running the second from where the first went round again. */
  lemma {:induction false} RunAppend(g: Guest, s: bool, xs: seq<Tick>, ys: seq<Tick>, h: Host)
    requires forall t <- xs + ys :: WellFormed(t)
    ensures forall t <- xs :: WellFormed(t)
    ensures forall t <- ys :: WellFormed(t)
    ensures var a := Run(g, s, xs, h);
              Run(g, s, xs + ys, h) == if a.outcome.Again? then Run(a.guest, a.scheduleOk, ys, h) else a
    decreases |xs|
  {
    assert forall t <- xs :: t in xs + ys;
    assert forall t <- ys :: t in xs + ys;
    if xs != [] {
      assert (xs + ys)[0] == xs[0];
      assert (xs + ys)[1..] == xs[1..] + ys;
      var a := Pass(g, s, xs[0], h);
      if a.outcome.Again? {
        RunAppend(a.guest, a.scheduleOk, xs[1..], ys, h);
      }
    } else {
      assert xs + ys == ys;
    }
  }

  /** `launched` only ever becomes 1, and a trace that enters the guest at all leaves it at 1. */
  lemma {:induction false} RunLaunched(g: Guest, s: bool, ticks: seq<Tick>, h: Host)
    requires forall t <- ticks :: WellFormed(t)
    ensures var l := Run(g, s, ticks, h).guest.launched; l == g.launched || l == 1
    ensures ticks != [] && Enters(s, ticks[0]) ==> Run(g, s, ticks, h).guest.launched == 1
    decreases |ticks|
  {
    if ticks != [] {
      var a := Pass(g, s, ticks[0], h);
      if a.outcome.Again? {
        RunLaunched(a.guest, a.scheduleOk, ticks[1..], h);
      }
    }
  }

  /** `ret_code` changes only on SIGKILL, and then to ENOSYS << 8. */
  lemma {:induction false} RunRetCode(g: Guest, s: bool, ticks: seq<Tick>, h: Host)
    requires forall t <- ticks :: WellFormed(t)
    ensures var a := Run(g, s, ticks, h);
              a.guest.retCode == if a.outcome.Killed? then KILLED_RET_CODE else g.retCode
    decreases |ticks|
  {
    if ticks != [] {
      var a := Pass(g, s, ticks[0], h);
      if a.outcome.Again? {
        RunRetCode(a.guest, a.scheduleOk, ticks[1..], h);
      }
    }
  }

  /** The VCPU fields the loop changes, as a Guest. */
  function Current(vcpu: Binding.Vcpu): (g: Guest)
    reads vcpu
    ensures g.regs == vcpu.regs && g.rip == vcpu.guestRip
    ensures g.launched == vcpu.launched && g.retCode == vcpu.retCode
  {
    Guest(vcpu.regs, vcpu.guestRip, vcpu.launched, vcpu.retCode)
  }

  /** The machine side of vmx_get_cpu: the per-CPU slots, the VCPU's `cpu`, and the VMX operations issued so far. */
  datatype Binds = Binds(slots: seq<Binding.Vcpu?>, cpu: int, log: seq<Binding.HwOp>)

  /** The VCPU's VMCS, VPID and EPT pointer, which the loop never changes. */
  datatype Ids = Ids(vmcs: nat, vpid: nat, eptp: nat)

  /** Every CPU a trace names has a slot. */
  predicate OnCpus(ticks: seq<Tick>, n: nat) {
    forall t <- ticks :: t.cpu < n && t.reschedCpu < n
  }

  /** One vmx_get_cpu of `v` on cur, as Binding.Machine.GetCpu states it. */
  function BindOn(c: Capability.VmcsConfig, b: Binds, v: Binding.Vcpu, id: Ids, launched: int, cur: nat): (r: Binds)
    requires cur < |b.slots|
    ensures |r.slots| == |b.slots|
  {
    Binds(Binding.GetCpuSlots(b.slots, v, launched, cur),
          if launched != 0 then b.cpu else cur,
          b.log + Binding.GetCpuOps(c, b.slots, v, launched, b.cpu, cur, id.vmcs, id.vpid, id.eptp))
  }

  /**
   * The machine effect of one pass: vmx_get_cpu on the tick's CPU and, when
   * the reschedule is taken, again on the CPU cond_resched resumes on.
   * `launched` is the VCPU's at the start of the pass; neither call changes it.
   */
  function PassBinds(c: Capability.VmcsConfig, b: Binds, v: Binding.Vcpu, id: Ids, launched: int,
                     scheduleOk: bool, t: Tick): (r: Binds)
    requires t.cpu < |b.slots| && t.reschedCpu < |b.slots|
    ensures |r.slots| == |b.slots|
  {
    var b1 := BindOn(c, b, v, id, launched, t.cpu);
    if scheduleOk && t.needResched then BindOn(c, b1, v, id, launched, t.reschedCpu) else b1
  }

  /** The machine effect of the passes Run takes over a trace. */
  function RunBinds(c: Capability.VmcsConfig, b: Binds, v: Binding.Vcpu, id: Ids,
                    g: Guest, scheduleOk: bool, ticks: seq<Tick>, h: Host): (r: Binds)
    requires (forall t <- ticks :: WellFormed(t)) && OnCpus(ticks, |b.slots|)
    ensures |r.slots| == |b.slots|
    decreases |ticks|
  {
    if ticks == [] then b
    else
      var b1 := PassBinds(c, b, v, id, g.launched, scheduleOk, ticks[0]);
      var a := Pass(g, scheduleOk, ticks[0], h);
      if a.outcome.Again? then RunBinds(c, b1, v, id, a.guest, a.scheduleOk, ticks[1..], h) else b1
  }

  /** A pass only appends to the log; an unlaunched VCPU ends it in the slot of the CPU it was last bound on. */
  lemma PassBindsBound(c: Capability.VmcsConfig, b: Binds, v: Binding.Vcpu, id: Ids, launched: int,
                       scheduleOk: bool, t: Tick)
    requires t.cpu < |b.slots| && t.reschedCpu < |b.slots|
    ensures var r := PassBinds(c, b, v, id, launched, scheduleOk, t);
              && |b.log| <= |r.log| && r.log[..|b.log|] == b.log
              && (launched == 0 ==> r.cpu == (if scheduleOk && t.needResched then t.reschedCpu else t.cpu))
              && (launched == 0 ==> 0 <= r.cpu < |r.slots| && r.slots[r.cpu] == v)
  {
    var b1 := BindOn(c, b, v, id, launched, t.cpu);
    assert b1.log[..|b.log|] == b.log;
    if scheduleOk && t.needResched {
      var b2 := BindOn(c, b1, v, id, launched, t.reschedCpu);
      assert b2.log[..|b1.log|] == b1.log;
      assert b2.log[..|b.log|] == b1.log[..|b.log|];
    }
  }

  /** A pass of a launched VCPU moves nothing and only loads its VMCS. */
  lemma PassBindsLaunched(c: Capability.VmcsConfig, b: Binds, v: Binding.Vcpu, id: Ids, launched: int,
                          scheduleOk: bool, t: Tick)
    requires t.cpu < |b.slots| && t.reschedCpu < |b.slots| && launched != 0
    ensures var r := PassBinds(c, b, v, id, launched, scheduleOk, t);
              && r.slots == b.slots && r.cpu == b.cpu
              && r.log == b.log + [Binding.VmcsLoad(t.cpu, id.vmcs)]
                               + (if scheduleOk && t.needResched then [Binding.VmcsLoad(t.reschedCpu, id.vmcs)] else [])
  {
  }

  /** Every operation in `ops` loads the VMCS `vmcs`. */
  ghost predicate OnlyLoads(ops: seq<Binding.HwOp>, vmcs: nat) {
    forall k :: 0 <= k < |ops| ==> ops[k].VmcsLoad? && ops[k].vmcs == vmcs
  }

  /**
   * The loop only appends to the log, and a VCPU that was launched when the
   * loop started is never moved: its `cpu` and every slot stay as they were,
   * and each vmx_get_cpu only loads its VMCS.
   */
  lemma {:induction false} RunBindsBound(c: Capability.VmcsConfig, b: Binds, v: Binding.Vcpu, id: Ids,
                                         g: Guest, s: bool, ticks: seq<Tick>, h: Host)
    requires (forall t <- ticks :: WellFormed(t)) && OnCpus(ticks, |b.slots|)
    ensures var r := RunBinds(c, b, v, id, g, s, ticks, h);
              && |b.log| <= |r.log| && r.log[..|b.log|] == b.log
              && (g.launched != 0 ==> r.slots == b.slots && r.cpu == b.cpu && OnlyLoads(r.log[|b.log|..], id.vmcs))
    decreases |ticks|
  {
    if ticks != [] {
      var t := ticks[0];
      var b1 := PassBinds(c, b, v, id, g.launched, s, t);
      PassBindsBound(c, b, v, id, g.launched, s, t);
      if g.launched != 0 {
        PassBindsLaunched(c, b, v, id, g.launched, s, t);
      }
      var a := Pass(g, s, t, h);
      if a.outcome.Again? {
        assert forall u <- ticks[1..] :: u in ticks;
        RunLaunchedPass(g, s, t, h);
        RunBindsBound(c, b1, v, id, a.guest, a.scheduleOk, ticks[1..], h);
        var r := RunBinds(c, b1, v, id, a.guest, a.scheduleOk, ticks[1..], h);
        assert r.log[..|b.log|] == r.log[..|b1.log|][..|b.log|];
        if g.launched != 0 {
          LoadsConcat(r.log, |b.log|, |b1.log|, id.vmcs);
        }
      }
    }
  }

  /** Two stretches of loads make one. */
  lemma LoadsConcat(log: seq<Binding.HwOp>, i: nat, j: nat, vmcs: nat)
    requires i <= j <= |log| && OnlyLoads(log[i..j], vmcs) && OnlyLoads(log[j..], vmcs)
    ensures OnlyLoads(log[i..], vmcs)
  {
    forall k | 0 <= k < |log| - i
      ensures log[i..][k].VmcsLoad? && log[i..][k].vmcs == vmcs
    {
      if i + k < j {
        assert log[i..][k] == log[i..j][k];
      } else {
        assert log[i..][k] == log[j..][i + k - j];
      }
    }
  }

  /** One pass leaves `launched` as it was or at 1. */
  lemma RunLaunchedPass(g: Guest, s: bool, t: Tick, h: Host)
    requires WellFormed(t)
    ensures var l := Pass(g, s, t, h).guest.launched; l == g.launched || l == 1
  {
  }

  /** vmx_run_vcpu, opaque: sets `launched`, stores the entry's registers and RIP, returns the exit reason. */
  method RunVcpu(vcpu: Binding.Vcpu, e: Entry) returns (ret: nat)
    modifies vcpu`launched, vcpu`regs, vcpu`guestRip
    ensures vcpu.launched == 1 && vcpu.regs == e.regs && vcpu.guestRip == e.rip
    ensures ret == ExitReason(e)
  {
    vcpu.launched := 1;
    vcpu.regs := e.regs;
    vcpu.guestRip := e.rip;
    ret := ExitReason(e);
  }

  /**
   * The while(1) loop of vmx_launch over a finite trace, starting with
   * `schedule_ok` = 0. The VCPU ends as Run says and the loop ends with
   * Run's outcome (Again: the trace ran out); the binding invariant is kept.
   */
  method VmxLaunchLoop(m: Binding.Machine, vcpu: Binding.Vcpu, ticks: seq<Tick>, h: Host) returns (outcome: Outcome)
    requires m.Valid() && vcpu.cpu < |m.localVcpu|
    requires forall t <- ticks :: WellFormed(t) && t.cpu < |m.localVcpu| && t.reschedCpu < |m.localVcpu|
    modifies m, vcpu`cpu, vcpu`launched, vcpu`regs, vcpu`guestRip, vcpu`retCode
    ensures m.Valid()
    ensures var a := Run(old(Current(vcpu)), false, ticks, h);
              Current(vcpu) == a.guest && outcome == a.outcome
    ensures Binds(m.localVcpu, vcpu.cpu, m.log)
            == RunBinds(m.config, Binds(old(m.localVcpu), old(vcpu.cpu), old(m.log)), vcpu,
                        Ids(vcpu.vmcs, vcpu.vpid, vcpu.eptp), old(Current(vcpu)), false, ticks, h)
  {
    ghost var start := Current(vcpu);
    ghost var id := Ids(vcpu.vmcs, vcpu.vpid, vcpu.eptp);
    ghost var b0 := Binds(m.localVcpu, vcpu.cpu, m.log);
    var scheduleOk := false;
    outcome := Again;
    var i := 0;
    while i < |ticks|
      invariant i <= |ticks|
      invariant m.Valid() && vcpu.cpu < |m.localVcpu| && |m.localVcpu| == old(|m.localVcpu|)
      invariant outcome == Again
      invariant Run(Current(vcpu), scheduleOk, ticks[i..], h) == Run(start, false, ticks, h)
      invariant OnCpus(ticks[i..], |m.localVcpu|)
      invariant RunBinds(m.config, Binds(m.localVcpu, vcpu.cpu, m.log), vcpu, id, Current(vcpu), scheduleOk, ticks[i..], h)
                == RunBinds(m.config, b0, vcpu, id, start, false, ticks, h)
      decreases |ticks| - i
    {
      var t := ticks[i];
      ghost var g := Current(vcpu);
      ghost var s := scheduleOk;
      RunUnfold(g, s, ticks, i, h);
      RunBindsUnfold(m.config, Binds(m.localVcpu, vcpu.cpu, m.log), vcpu, id, g, s, ticks, i, h);
      i := i + 1;

      scheduleOk, outcome := LaunchPass(m, vcpu, scheduleOk, t, h);
      if !outcome.Again? {
        break;
      }
    }
    if i == |ticks| && outcome.Again? {
      assert ticks[i..] == [];
    }
  }

  /** RunBinds over the trace from position i first takes one pass. */
  lemma RunBindsUnfold(c: Capability.VmcsConfig, b: Binds, v: Binding.Vcpu, id: Ids,
                       g: Guest, s: bool, ticks: seq<Tick>, i: nat, h: Host)
    requires i < |ticks| && (forall t <- ticks :: WellFormed(t)) && OnCpus(ticks[i..], |b.slots|)
    ensures forall t <- ticks[i..] :: WellFormed(t)
    ensures OnCpus(ticks[i + 1..], |b.slots|) && ticks[i].cpu < |b.slots| && ticks[i].reschedCpu < |b.slots|
    ensures var b1 := PassBinds(c, b, v, id, g.launched, s, ticks[i]);
            var a := Pass(g, s, ticks[i], h);
              RunBinds(c, b, v, id, g, s, ticks[i..], h)
              == if a.outcome.Again? then RunBinds(c, b1, v, id, a.guest, a.scheduleOk, ticks[i + 1..], h) else b1
  {
    assert ticks[i..][0] == ticks[i];
    assert ticks[i..][1..] == ticks[i + 1..];
  }

  /**
   * One pass of the loop body: vmx_get_cpu on the current CPU, the
   * reschedule gate (cond_resched, then vmx_get_cpu again on whatever CPU
   * the thread resumes on), and the rest of the pass. The VCPU changes as
   * Pass says and the binding invariant is kept.
   */
  method LaunchPass(m: Binding.Machine, vcpu: Binding.Vcpu, scheduleOk: bool, t: Tick, h: Host)
    returns (scheduleOk': bool, outcome: Outcome)
    requires m.Valid() && vcpu.cpu < |m.localVcpu| && t.cpu < |m.localVcpu| && t.reschedCpu < |m.localVcpu|
    requires WellFormed(t)
    modifies m, vcpu`cpu, vcpu`launched, vcpu`regs, vcpu`guestRip, vcpu`retCode
    ensures m.Valid() && |m.localVcpu| == old(|m.localVcpu|) && vcpu.cpu < |m.localVcpu|
    ensures After(Current(vcpu), scheduleOk', outcome) == Pass(old(Current(vcpu)), scheduleOk, t, h)
    ensures Binds(m.localVcpu, vcpu.cpu, m.log)
            == PassBinds(m.config, Binds(old(m.localVcpu), old(vcpu.cpu), old(m.log)), vcpu,
                         Ids(vcpu.vmcs, vcpu.vpid, vcpu.eptp), old(vcpu.launched), scheduleOk, t)
  {
    m.GetCpu(vcpu, t.cpu);
    if scheduleOk {
      if t.needResched {
        m.GetCpu(vcpu, t.reschedCpu);
        return false, Again;
      }
    }
    scheduleOk', outcome := SignalRunDispatch(vcpu, t, h);
  }

  /**
   * The rest of a pass once no reschedule is taken: the signal check, the
   * guest entry and the dispatch on the exit reason. A `continue` of the
   * loop returns Again, a `break` or `goto tmp_finish` the reason to stop.
   */
  method SignalRunDispatch(vcpu: Binding.Vcpu, t: Tick, h: Host) returns (scheduleOk: bool, outcome: Outcome)
    requires WellFormed(t)
    modifies vcpu`launched, vcpu`regs, vcpu`guestRip, vcpu`retCode
    ensures After(Current(vcpu), scheduleOk, outcome) == Pass(old(Current(vcpu)), false, t, h)
  {
    scheduleOk := false;
    outcome := Again;
    if t.signalPending {
      var signr := t.signal;
      if signr == 0 {
        return;
      }
      if signr == SIGKILL {
        vcpu.retCode := KILLED_RET_CODE;
        outcome := Killed;
        return;
      }
    }

    var ret := RunVcpu(vcpu, t.entry);
    if t.hardirqsEnabled {
      if !t.rcuActive {
        scheduleOk := true;
      }
    }
    if ret == EXIT_REASON_VMCALL || ret == EXIT_REASON_CPUID {
      vcpu.guestRip := StepInstruction(vcpu.guestRip, t.entry.instrLen);
    }

    if ret == EXIT_REASON_VMCALL {
      var cmd := vcpu.regs[VCPU_REGS_RAX];
      if cmd == h.vmcallSched {
        scheduleOk := false;
      } else if cmd == h.vmcallDoExit {
        outcome := DoExit;
      } else {
        outcome := BadVmcall(cmd);
      }
    } else if ret == EXIT_REASON_CPUID {
      vcpu.regs := HandleCpuid(vcpu.regs, h.cpuid);
    } else if ret == EXIT_REASON_EPT_VIOLATION {
      outcome := Finish(ret);
    } else if ret == EXIT_REASON_EXCEPTION_NMI {
      outcome := Finish(ret);
    } else if ret != EXIT_REASON_EXTERNAL_INTERRUPT {
      outcome := Finish(ret);
    }
  }

  /** Run over the trace from position i first takes one pass. */
  lemma RunUnfold(g: Guest, s: bool, ticks: seq<Tick>, i: nat, h: Host)
    requires i < |ticks| && forall t <- ticks :: WellFormed(t)
    ensures forall t <- ticks[i..] :: WellFormed(t)
    ensures forall t <- ticks[i + 1..] :: WellFormed(t)
    ensures var a := Pass(g, s, ticks[i], h);
              Run(g, s, ticks[i..], h) == if a.outcome.Again? then Run(a.guest, a.scheduleOk, ticks[i + 1..], h) else a
  {
    assert ticks[i..][0] == ticks[i];
    assert ticks[i..][1..] == ticks[i + 1..];
  }
}
