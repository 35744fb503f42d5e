/**
 * Choice of the INVEPT / INVVPID extent in ept_sync_* and vpid_sync_*.
 *
 * Each helper issues the narrowest invalidation the processor reports in
 * vmx_capability, falling back to a wider one, or issues nothing when no
 * suitable extent is available. An issued instruction is recorded as an
 * event; the instruction itself is outside the model.
 */
module Invalidation {
  import opened Capability

  /** The extent operand of INVEPT (individual-address 0, context 1, global 2). */
  datatype EptExtent = EptIndividualAddr | EptContext | EptGlobal
  /** The extent operand of INVVPID (single-context 1, all-context 2). */
  datatype VpidExtent = VpidSingleContext | VpidAllContext

  datatype Event =
    | Invept(eptExtent: EptExtent, eptp: nat, gpa: nat)
    | Invvpid(vpidExtent: VpidExtent, vpid: nat, gva: nat)

  /** Whether the processor reports support for the extent an event uses. */
  predicate Supported(c: VmcsConfig, e: Event) {
    match e
    case Invept(EptIndividualAddr, _, _) => CpuHasVmxInveptIndividualAddr(c)
    case Invept(EptContext, _, _) => CpuHasVmxInveptContext(c)
    case Invept(EptGlobal, _, _) => CpuHasVmxInveptGlobal(c)
    case Invvpid(VpidSingleContext, _, _) => CpuHasVmxInvvpidSingle(c)
    case Invvpid(VpidAllContext, _, _) => CpuHasVmxInvvpidGlobal(c)
  }

  /** Whether an event drops the cached EPT translations of guest address `gpa` under `eptp`. */
  predicate DropsEptTranslation(e: Event, eptp: nat, gpa: nat) {
    match e
    case Invept(EptIndividualAddr, p, g) => p == eptp && g == gpa
    case Invept(EptContext, p, _) => p == eptp
    case Invept(EptGlobal, _, _) => true
    case Invvpid(_, _, _) => false
  }

  /** Whether an event drops every cached EPT translation under `eptp`. */
  predicate DropsEptContext(e: Event, eptp: nat) {
    e.Invept? && (e.eptExtent == EptGlobal || (e.eptExtent == EptContext && e.eptp == eptp))
  }

  /** Whether an event drops every cached linear translation tagged with `vpid`. */
  predicate DropsVpidContext(e: Event, vpid: nat) {
    e.Invvpid? && (e.vpidExtent == VpidAllContext || (e.vpidExtent == VpidSingleContext && e.vpid == vpid))
  }

  /** ept_sync_global. */
  function EptSyncGlobal(c: VmcsConfig): (r: seq<Event>)
    ensures |r| <= 1 && (r == [] <==> !CpuHasVmxInveptGlobal(c))
    ensures forall e <- r :: Supported(c, e) && forall p :: DropsEptContext(e, p)
  {
    if CpuHasVmxInveptGlobal(c) then [Invept(EptGlobal, 0, 0)] else []
  }

  /** ept_sync_context: a context invalidation, else a global one. */
  function EptSyncContext(c: VmcsConfig, eptp: nat): (r: seq<Event>)
    ensures |r| <= 1
    ensures r == [] <==> !CpuHasVmxInveptContext(c) && !CpuHasVmxInveptGlobal(c)
    ensures forall e <- r :: Supported(c, e) && DropsEptContext(e, eptp)
    ensures CpuHasVmxInveptContext(c) ==> r == [Invept(EptContext, eptp, 0)]
  {
    if CpuHasVmxInveptContext(c) then [Invept(EptContext, eptp, 0)] else EptSyncGlobal(c)
  }

  /** ept_sync_individual_addr: an individual-address invalidation, else a context one. */
  function EptSyncIndividualAddr(c: VmcsConfig, eptp: nat, gpa: nat): (r: seq<Event>)
    ensures |r| <= 1
    ensures r == [] <==>
              !CpuHasVmxInveptIndividualAddr(c) && !CpuHasVmxInveptContext(c) && !CpuHasVmxInveptGlobal(c)
    ensures forall e <- r :: Supported(c, e) && DropsEptTranslation(e, eptp, gpa)
    ensures CpuHasVmxInveptIndividualAddr(c) ==> r == [Invept(EptIndividualAddr, eptp, gpa)]
  {
    if CpuHasVmxInveptIndividualAddr(c) then [Invept(EptIndividualAddr, eptp, gpa)]
    else EptSyncContext(c, eptp)
  }

  /** vpid_sync_vcpu_single: nothing for VPID 0, else a single-context invalidation if supported. */
  function VpidSyncVcpuSingle(c: VmcsConfig, vpid: nat): (r: seq<Event>)
    ensures r == [] <==> vpid == 0 || !CpuHasVmxInvvpidSingle(c)
    ensures forall e <- r :: Supported(c, e) && DropsVpidContext(e, vpid) && e.vpidExtent == VpidSingleContext
  {
    if vpid == 0 then []
    else if CpuHasVmxInvvpidSingle(c) then [Invvpid(VpidSingleContext, vpid, 0)]
    else []
  }

  /** vpid_sync_vcpu_global. */
  function VpidSyncVcpuGlobal(c: VmcsConfig): (r: seq<Event>)
    ensures r == [] <==> !CpuHasVmxInvvpidGlobal(c)
    ensures forall e <- r :: Supported(c, e) && forall v :: DropsVpidContext(e, v)
  {
    if CpuHasVmxInvvpidGlobal(c) then [Invvpid(VpidAllContext, 0, 0)] else []
  }

  /**
   * vpid_sync_context: the single-context path when it is supported, else the
   * all-context one. When single-context is supported, VPID 0 gets nothing at
   * all, even if all-context invalidation is available.
   */
  function VpidSyncContext(c: VmcsConfig, vpid: nat): (r: seq<Event>)
    ensures |r| <= 1
    ensures r == [] <==>
              (CpuHasVmxInvvpidSingle(c) && vpid == 0)
              || (!CpuHasVmxInvvpidSingle(c) && !CpuHasVmxInvvpidGlobal(c))
    ensures forall e <- r :: Supported(c, e) && DropsVpidContext(e, vpid)
  {
    if CpuHasVmxInvvpidSingle(c) then VpidSyncVcpuSingle(c, vpid) else VpidSyncVcpuGlobal(c)
  }
}
