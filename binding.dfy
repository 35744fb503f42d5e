/**
 * The binding of VCPUs to physical CPUs: vmx_get_cpu, its cross-CPU helper,
 * and the set-up and tear-down of a VCPU around it.
 *
 * Each CPU has a `local_vcpu` slot naming the VCPU whose VMCS it last loaded
 * through vmx_get_cpu; each VCPU records in `cpu` the CPU it was last set up
 * on (-1 before the first time). Moving an unlaunched VCPU to another CPU
 * clears its VMCS on the old CPU, flushes its VPID and EPT contexts, and
 * loads and sets up the VMCS on the new one. The VMX instructions themselves
 * are recorded as operations in a log; the cross-CPU call is a synchronous
 * update of the other CPU's slot.
 */
module Binding {
  import Capability
  import Invalidation
  import Vpid
  import Eptp

  /** The general-purpose registers saved in a VCPU, RAX to R15. */
  const NR_VCPU_REGS: nat := 16

  /** A VMX operation one CPU performs, in the order the model records them. */
  datatype HwOp =
    | VmcsClear(cpu: nat, vmcs: nat)
    | VmcsLoad(cpu: nat, vmcs: nat)
    | Invalidate(cpu: nat, events: seq<Invalidation.Event>)
    /** __vmx_setup_cpu: the per-CPU host state written into the loaded VMCS. */
    | SetupCpu(cpu: nat)
    /** vmx_free_vmcs. */
    | VmcsFree(vmcs: nat)

  /** struct vmx_vcpu, with the fields the binding and the exit loop use. */
  class Vcpu {
    var cpu: int
    var launched: int
    var vpid: nat
    var vmcs: nat
    var eptRoot: nat
    var eptp: nat
    var eptAdEnabled: bool
    var regs: seq<nat>
    /** GUEST_RIP in this VCPU's VMCS. */
    var guestRip: nat
    var retCode: int

    /** kmalloc followed by memset(vcpu, 0, sizeof(*vcpu)). */
    constructor ()
      ensures cpu == 0 && launched == 0 && vpid == 0 && vmcs == 0
      ensures eptRoot == 0 && eptp == 0 && !eptAdEnabled
      ensures regs == seq(NR_VCPU_REGS, _ => 0) && guestRip == 0 && retCode == 0
    {
      cpu := 0;
      launched := 0;
      vpid := 0;
      vmcs := 0;
      eptRoot := 0;
      eptp := 0;
      eptAdEnabled := false;
      regs := seq(NR_VCPU_REGS, _ => 0);
      guestRip := 0;
      retCode := 0;
    }
  }

  /** The slots with every occurrence of `v` cleared. */
  function Unbind(slots: seq<Vcpu?>, v: Vcpu): (r: seq<Vcpu?>)
    ensures |r| == |slots| && v !in r
    ensures forall c :: 0 <= c < |r| && slots[c] != v ==> r[c] == slots[c]
  {
    seq(|slots|, c requires 0 <= c < |slots| => if slots[c] == v then null else slots[c])
  }

  /** The per-CPU local_vcpu variables, the VPID pool and the VMX operations issued so far. */
  class Machine {
    var localVcpu: seq<Vcpu?>
    var log: seq<HwOp>
    const config: Capability.VmcsConfig
    const pool: Vpid.VpidPool

    /**
     * A CPU's slot only ever names a VCPU whose `cpu` is that CPU; so a VCPU
     * sits in at most one slot, and in none while its `cpu` is negative.
     */
    ghost predicate Bound()
      reads this, localVcpu
    {
      forall c :: 0 <= c < |localVcpu| && localVcpu[c] != null ==> localVcpu[c].cpu == c
    }

    ghost predicate Valid()
      reads this, localVcpu, pool, pool.bitmap
    {
      Bound() && pool.Valid()
    }

    /** Every CPU's slot starts empty. */
    constructor (numCpus: nat, config: Capability.VmcsConfig, pool: Vpid.VpidPool)
      requires pool.Valid()
      ensures Valid() && this.config == config && this.pool == pool
      ensures localVcpu == seq(numCpus, _ => null) && log == []
    {
      localVcpu := seq(numCpus, _ => null);
      log := [];
      this.config := config;
      this.pool := pool;
    }

    /**
     * __vmx_get_cpu_helper, run on CPU `on`, which must be the VCPU's current
     * CPU (the helper's BUG_ON): clears the VMCS there and empties the slot
     * if it names this VCPU.
     */
    method GetCpuHelper(vcpu: Vcpu, on: nat)
      requires on == vcpu.cpu && on < |localVcpu|
      modifies this
      ensures log == old(log) + [VmcsClear(on, vcpu.vmcs)]
      ensures localVcpu == if old(localVcpu[on]) == vcpu then old(localVcpu)[on := null] else old(localVcpu)
    {
      log := log + [VmcsClear(on, vcpu.vmcs)];
      if localVcpu[on] == vcpu {
        localVcpu := localVcpu[on := null];
      }
    }

    /**
     * vmx_get_cpu on CPU `cur`. A launched VCPU only gets its VMCS loaded.
     * An unlaunched one already in cur's slot is left alone. Otherwise the
     * VCPU becomes cur's local VCPU, leaves every other slot, and its `cpu`
     * becomes cur; the operations issued are BindOps.
     */
    method GetCpu(vcpu: Vcpu, cur: nat)
      requires Valid() && cur < |localVcpu| && vcpu.cpu < |localVcpu|
      modifies this, vcpu`cpu, vcpu`launched
      ensures Valid() && |localVcpu| == old(|localVcpu|)
      ensures vcpu.launched == old(vcpu.launched)
      ensures vcpu.cpu == if old(vcpu.launched) != 0 then old(vcpu.cpu) else cur
      ensures localVcpu == GetCpuSlots(old(localVcpu), vcpu, old(vcpu.launched), cur)
      ensures log == old(log) + GetCpuOps(config, old(localVcpu), vcpu, old(vcpu.launched), old(vcpu.cpu),
                                          cur, vcpu.vmcs, vcpu.vpid, vcpu.eptp)
    {
      if vcpu.launched != 0 {
        log := log + [VmcsLoad(cur, vcpu.vmcs)];
      } else if localVcpu[cur] != vcpu {
        Rebind(vcpu, cur);
      }
    }

    /**
     * The unlaunched branch of vmx_get_cpu when cur's slot names another
     * VCPU (or none). When the VCPU was set up on another CPU, that CPU runs
     * __vmx_get_cpu_helper (or cur clears the VMCS when there was none).
     */
    method Rebind(vcpu: Vcpu, cur: nat)
      requires Valid() && cur < |localVcpu| && vcpu.cpu < |localVcpu|
      requires vcpu.launched == 0 && localVcpu[cur] != vcpu
      modifies this, vcpu`cpu, vcpu`launched
      ensures Valid() && vcpu.cpu == cur && vcpu.launched == 0
      ensures localVcpu == Unbind(old(localVcpu), vcpu)[cur := vcpu]
      ensures log == old(log) + BindOps(config, old(vcpu.cpu), cur, vcpu.vmcs, vcpu.vpid, vcpu.eptp)
    {
      ghost var slots := localVcpu;
      assert forall c :: 0 <= c < |slots| && slots[c] == vcpu ==> c == vcpu.cpu;
      localVcpu := localVcpu[cur := vcpu];
      if vcpu.cpu != cur {
        if vcpu.cpu >= 0 {
          GetCpuHelper(vcpu, vcpu.cpu);
        } else {
          log := log + [VmcsClear(cur, vcpu.vmcs)];
        }
        log := log + [Invalidate(cur, Invalidation.VpidSyncContext(config, vcpu.vpid)),
                      Invalidate(cur, Invalidation.EptSyncContext(config, vcpu.eptp))];
        vcpu.launched := 0;
        log := log + [VmcsLoad(cur, vcpu.vmcs), SetupCpu(cur)];
        vcpu.cpu := cur;
      } else {
        log := log + [VmcsLoad(cur, vcpu.vmcs)];
      }
      MovedSlots(slots, localVcpu, vcpu, cur);
    }

    /**
     * vmx_destroy_vcpu on CPU `cur`, after vmx_destroy_ept: binds the VCPU
     * to cur, flushes its EPT context, clears its VMCS, empties cur's slot,
     * returns its VPID to the pool and frees the VMCS. An unlaunched VCPU is
     * then in no slot. A launched one still set up on another CPU stays in
     * that CPU's slot, because the launched branch of vmx_get_cpu does not
     * move it.
     */
    method DestroyVcpu(vcpu: Vcpu, cur: nat)
      requires Valid() && cur < |localVcpu| && vcpu.cpu < |localVcpu| && vcpu.vpid < Vpid.VMX_NR_VPIDS
      modifies this, vcpu`cpu, vcpu`launched, pool.bitmap
      ensures Valid()
      ensures old(vcpu.launched) == 0 ==> localVcpu == Unbind(old(localVcpu), vcpu)[cur := null]
      ensures old(vcpu.launched) == 0 ==> vcpu !in localVcpu
      ensures old(vcpu.launched) != 0 ==> localVcpu == old(localVcpu)[cur := null]
      ensures pool.Used() == if vcpu.vpid == 0 then old(pool.Used()) else old(pool.Used()) - {vcpu.vpid}
      ensures |log| >= |old(log)| + 3 && log[..|old(log)|] == old(log)
      ensures log[|log| - 3..] ==
                [Invalidate(cur, Invalidation.EptSyncContext(config, vcpu.eptp)), VmcsClear(cur, vcpu.vmcs), VmcsFree(vcpu.vmcs)]
      ensures log == old(log) + GetCpuOps(config, old(localVcpu), vcpu, old(vcpu.launched), old(vcpu.cpu),
                                          cur, vcpu.vmcs, vcpu.vpid, vcpu.eptp)
                            + [Invalidate(cur, Invalidation.EptSyncContext(config, vcpu.eptp)), VmcsClear(cur, vcpu.vmcs),
                               VmcsFree(vcpu.vmcs)]
    {
      GetCpu(vcpu, cur);
      ghost var mid := log;
      log := log + [Invalidate(cur, Invalidation.EptSyncContext(config, vcpu.eptp)), VmcsClear(cur, vcpu.vmcs)];
      localVcpu := localVcpu[cur := null];
      pool.FreeVpid(vcpu.vpid);
      log := log + [VmcsFree(vcpu.vmcs)];
      assert log[..|old(log)|] == mid[..|old(log)|];
    }

    /**
     * vmx_create_vcpu on CPU `cur`. The allocations are inputs: `gotMemory`
     * is kmalloc's success, `vmcsPage` the new VMCS (0 when vmx_alloc_vmcs
     * fails), `eptRoot` what vt_ept_2M_init returned (0 on failure) and
     * `eptCreateFails` the result of vmx_create_ept. On success the VCPU is
     * fresh, bound to cur, unlaunched, holds a newly reserved VPID and the
     * EPT pointer for its root. Every failure returns null and gives a
     * reserved VPID back to the pool and an allocated VMCS back to the
     * allocator; after a failure of vmx_create_ept, however, cur's slot
     * still names the discarded VCPU, which is `made`.
     */
    method CreateVcpu(cur: nat, gotMemory: bool, vmcsPage: nat, eptRoot: nat, eptCreateFails: bool)
      returns (vcpu: Vcpu?, ghost made: Vcpu?)
      requires Valid() && cur < |localVcpu|
      modifies this, pool.bitmap
      ensures Valid() && |log| >= |old(log)| && log[..|old(log)|] == old(log)
      ensures made != null ==> fresh(made)
      ensures gotMemory <==> made != null
      ensures var ok := gotMemory && vmcsPage != 0 && !old(pool.Full()) && eptRoot != 0;
                && (vcpu != null <==> ok && !eptCreateFails)
                && (vcpu == null ==> localVcpu == if ok then old(localVcpu)[cur := made] else old(localVcpu))
      ensures vcpu != null ==>
                && vcpu == made && vcpu.cpu == cur && vcpu.launched == 0
                && vcpu.vmcs == vmcsPage && vcpu.eptRoot == eptRoot
                && vcpu.eptp == Eptp.ConstructEptp(eptRoot, config)
                && (vcpu.eptAdEnabled <==> Capability.CpuHasVmxEptAdBits(config))
                && 0 < vcpu.vpid < Vpid.VMX_NR_VPIDS && vcpu.vpid !in old(pool.Used())
                && pool.Used() == old(pool.Used()) + {vcpu.vpid}
                && localVcpu == old(localVcpu)[cur := vcpu]
      ensures vcpu == null ==> pool.Used() == old(pool.Used())
      ensures vcpu == null && gotMemory && vmcsPage != 0 ==> |log| > 0 && log[|log| - 1] == VmcsFree(vmcsPage)
      ensures vcpu != null ==> log == old(log) + BindOps(config, -1, cur, vmcsPage, vcpu.vpid, vcpu.eptp)
    {
      vcpu := null;
      made := null;
      if !gotMemory {
        return;
      }
      var v := new Vcpu();
      made := v;
      v.vmcs := vmcsPage;
      if v.vmcs == 0 {
        return;
      }
      var failed, vpid := pool.AllocateVpid();
      v.vpid := vpid;
      if failed {
        log := log + [VmcsFree(v.vmcs)];
        return;
      }
      v.cpu := -1;
      v.eptRoot := eptRoot;
      if v.eptRoot == 0 {
        pool.FreeVpid(v.vpid);
        log := log + [VmcsFree(v.vmcs)];
        return;
      }
      var ok := InitVcpu(v, cur, eptCreateFails);
      if ok {
        vcpu := v;
      }
    }

    /**
     * The part of vmx_create_vcpu once the VPID is reserved and the EPT
     * root built: the EPT pointer, binding to cur, the A/D flag,
     * vmx_create_ept, and the fail_ept rollback that gives back the VPID
     * and the VMCS (but leaves cur's slot naming the VCPU).
     */
    method InitVcpu(v: Vcpu, cur: nat, eptCreateFails: bool) returns (ok: bool)
      requires Valid() && cur < |localVcpu| && v !in localVcpu
      requires v.cpu == -1 && v.launched == 0 && !v.eptAdEnabled
      requires 0 < v.vpid < Vpid.VMX_NR_VPIDS && v.vpid in pool.Used()
      modifies this, v`cpu, v`launched, v`eptp, v`eptAdEnabled, pool.bitmap
      ensures Valid() && |log| > |old(log)| && log[..|old(log)|] == old(log)
      ensures ok <==> !eptCreateFails
      ensures v.cpu == cur && v.launched == 0 && localVcpu == old(localVcpu)[cur := v]
      ensures v.eptp == Eptp.ConstructEptp(v.eptRoot, config)
      ensures v.eptAdEnabled <==> Capability.CpuHasVmxEptAdBits(config)
      ensures ok ==> pool.Used() == old(pool.Used())
      ensures !ok ==> pool.Used() == old(pool.Used()) - {v.vpid} && log[|log| - 1] == VmcsFree(v.vmcs)
      ensures log == old(log) + BindOps(config, -1, cur, v.vmcs, v.vpid, v.eptp) + (if ok then [] else [VmcsFree(v.vmcs)])
    {
      v.eptp := Eptp.ConstructEptp(v.eptRoot, config);
      ghost var before := localVcpu;
      assert before[cur] != v;
      GetCpu(v, cur);
      assert localVcpu == before[cur := v];
      if Capability.CpuHasVmxEptAdBits(config) {
        v.eptAdEnabled := true;
      }
      if eptCreateFails {
        pool.FreeVpid(v.vpid);
        log := log + [VmcsFree(v.vmcs)];
        return false;
      }
      ok := true;
    }
  }

  /**
   * The local_vcpu slots after vmx_get_cpu(v) on cur. A launched VCPU
   * leaves them alone; an unlaunched one ends up in cur's slot, leaves every
   * other slot when it was not already in cur's, and no slot but cur's and
   * the ones that named it changes.
   */
  function GetCpuSlots(slots: seq<Vcpu?>, v: Vcpu, launched: int, cur: nat): (r: seq<Vcpu?>)
    requires cur < |slots|
    ensures |r| == |slots|
    ensures launched != 0 ==> r == slots
    ensures launched == 0 ==> r[cur] == v
    ensures launched == 0 && slots[cur] != v ==> forall c :: 0 <= c < |r| && c != cur ==> r[c] != v
    ensures forall c :: 0 <= c < |r| && c != cur && slots[c] != v ==> r[c] == slots[c]
  {
    if launched != 0 || slots[cur] == v then slots else Unbind(slots, v)[cur := v]
  }

  /**
   * The VMX operations vmx_get_cpu(v) issues on cur: a VMCS load for a
   * launched VCPU, nothing for one already in cur's slot, BindOps otherwise.
   */
  function GetCpuOps(c: Capability.VmcsConfig, slots: seq<Vcpu?>, v: Vcpu, launched: int, from: int,
                     cur: nat, vmcs: nat, vpid: nat, eptp: nat): (ops: seq<HwOp>)
    requires cur < |slots|
    ensures launched != 0 ==> ops == [VmcsLoad(cur, vmcs)]
    ensures launched == 0 && slots[cur] == v ==> ops == []
    ensures launched == 0 && slots[cur] != v ==> ops == BindOps(c, from, cur, vmcs, vpid, eptp)
  {
    if launched != 0 then [VmcsLoad(cur, vmcs)]
    else if slots[cur] == v then []
    else BindOps(c, from, cur, vmcs, vpid, eptp)
  }

  /**
   * The VMX operations vmx_get_cpu issues on cur for an unlaunched VCPU
   * that was last set up on CPU `from` (negative: never). Moving to a new
   * CPU starts by clearing the VMCS where it was last loaded, flushes the
   * VPID and EPT contexts whenever the CPU can, and ends by loading and
   * setting up the VMCS on cur.
   */
  function BindOps(c: Capability.VmcsConfig, from: int, cur: nat, vmcs: nat, vpid: nat, eptp: nat): (ops: seq<HwOp>)
    ensures from == cur ==> ops == [VmcsLoad(cur, vmcs)]
    ensures from != cur ==>
              && |ops| == 5 && ops[3] == VmcsLoad(cur, vmcs) && ops[4] == SetupCpu(cur)
              && ops[0].VmcsClear? && ops[0].vmcs == vmcs && ops[0].cpu == (if from >= 0 then from else cur)
              && ops[1].Invalidate? && ops[1].cpu == cur && ops[2].Invalidate? && ops[2].cpu == cur
              && (forall e <- ops[1].events + ops[2].events :: Invalidation.Supported(c, e))
              && (vpid != 0 && (Capability.CpuHasVmxInvvpidSingle(c) || Capability.CpuHasVmxInvvpidGlobal(c)) ==>
                    exists e <- ops[1].events :: Invalidation.DropsVpidContext(e, vpid))
              && (Capability.CpuHasVmxInveptContext(c) || Capability.CpuHasVmxInveptGlobal(c) ==>
                    exists e <- ops[2].events :: Invalidation.DropsEptContext(e, eptp))
  {
    if from == cur then [VmcsLoad(cur, vmcs)]
    else
      var vs := Invalidation.VpidSyncContext(c, vpid);
      var es := Invalidation.EptSyncContext(c, eptp);
      assert vs != [] ==> vs[0] in vs;
      assert es != [] ==> es[0] in es;
      [VmcsClear(if from >= 0 then from as nat else cur, vmcs), Invalidate(cur, vs), Invalidate(cur, es),
          VmcsLoad(cur, vmcs), SetupCpu(cur)]
  }

  /**
   * The slots after an unlaunched VCPU moved to `cur`: it is in cur's slot
   * and, since before the move it could only be in the slot of its own
   * `cpu`, it is nowhere else.
   */
  lemma MovedSlots(before: seq<Vcpu?>, after: seq<Vcpu?>, v: Vcpu, cur: nat)
    requires cur < |before| && |after| == |before| && after[cur] == v
    requires forall c :: 0 <= c < |before| && c != cur && before[c] != v ==> after[c] == before[c]
    requires forall c :: 0 <= c < |before| && c != cur && before[c] == v ==> after[c] == null
    ensures after == Unbind(before, v)[cur := v]
  {
  }
}
