/**
 * Capability and control-bit arithmetic of the okernel VMX driver.
 *
 * Each VMX control field is negotiated against a capability MSR whose low
 * word holds the allowed-0 settings (a 1 bit there must be 1 in the control)
 * and whose high word holds the allowed-1 settings (a 0 bit there must be 0),
 * as Appendix A.3 of the Intel 64 and IA-32 Architectures SDM, Vol. 3,
 * describes. The MSR contents are parameters of the model.
 *
 * A 32-bit control or capability word is modelled as the set of positions of
 * its 1 bits: `a & b`, `a | b` and `a & ~b` are `a * b`, `a + b` and `a - b`,
 * and a single-bit constant is its bit position, tested with `in`. VMX_BASIC, whose high word
 * holds numeric fields, is modelled as a pair of numbers.
 */
module Capability {

  /** The 1-bit positions of a 32-bit control or capability word. */
  type Bits = set<nat>

  /** An error-or-value outcome; `Eio` stands for the -EIO return. */
  datatype Outcome<T> = Ok(value: T) | Eio

  /** The allowed-0 (low) and allowed-1 (high) words of a VMX control capability MSR. */
  datatype MsrPair = MsrPair(low: Bits, high: Bits)

  // Pin-based VM-execution controls.
  const PIN_BASED_EXT_INTR_MASK: nat := 0
  const PIN_BASED_NMI_EXITING: nat := 3
  const PIN_BASED_VIRTUAL_NMIS: nat := 5

  // Primary processor-based VM-execution controls.
  const CPU_BASED_USE_TSC_OFFSETING: nat := 3
  const CPU_BASED_INVLPG_EXITING: nat := 9
  const CPU_BASED_CR3_LOAD_EXITING: nat := 15
  const CPU_BASED_CR3_STORE_EXITING: nat := 16
  const CPU_BASED_CR8_LOAD_EXITING: nat := 19
  const CPU_BASED_CR8_STORE_EXITING: nat := 20
  const CPU_BASED_TPR_SHADOW: nat := 21
  const CPU_BASED_USE_MSR_BITMAPS: nat := 28
  const CPU_BASED_ACTIVATE_SECONDARY_CONTROLS: nat := 31

  // Secondary processor-based VM-execution controls.
  const SECONDARY_EXEC_ENABLE_EPT: nat := 1
  const SECONDARY_EXEC_RDTSCP: nat := 3
  const SECONDARY_EXEC_ENABLE_VPID: nat := 5
  const SECONDARY_EXEC_WBINVD_EXITING: nat := 6
  const SECONDARY_EXEC_ENABLE_INVPCID: nat := 12

  // VM-exit and VM-entry controls.
  const VM_EXIT_HOST_ADDR_SPACE_SIZE: nat := 9
  const VM_EXIT_LOAD_IA32_EFER: nat := 21
  const VM_ENTRY_LOAD_IA32_EFER: nat := 15

  // EPT capabilities (low word of IA32_VMX_EPT_VPID_CAP).
  const VMX_EPT_AD_BIT: nat := 21
  const VMX_EPT_EXTENT_INDIVIDUAL_BIT: nat := 24
  const VMX_EPT_EXTENT_CONTEXT_BIT: nat := 25
  const VMX_EPT_EXTENT_GLOBAL_BIT: nat := 26
  // VPID capabilities (high word of IA32_VMX_EPT_VPID_CAP).
  const VMX_VPID_EXTENT_SINGLE_CONTEXT_BIT: nat := 9
  const VMX_VPID_EXTENT_GLOBAL_CONTEXT_BIT: nat := 10

  const PAGE_SIZE: nat := 4096
  /** Memory type write-back, the only one accepted for VMCS accesses. */
  const MEMORY_TYPE_WB: nat := 6

  /**
   * adjust_vmx_controls: the control word requested by `ctlMin | ctlOpt`,
   * restricted by the capability pair, or -EIO when a required bit cannot be
   * set. It fails exactly when some required bit is neither allowed to be 1
   * nor forced to 1; on success the word holds every forced bit, every
   * required bit and every requested bit that is allowed, and no bit that is
   * not allowed or that was neither requested nor forced.
   */
  function AdjustVmxControls(ctlMin: Bits, ctlOpt: Bits, msr: MsrPair): (r: Outcome<Bits>)
    ensures r.Ok? <==> ctlMin <= msr.high + msr.low
    ensures r.Ok? ==> msr.low <= r.value <= msr.high + msr.low
    ensures r.Ok? ==> ctlMin <= r.value
    ensures r.Ok? ==> (ctlMin + ctlOpt) * msr.high <= r.value <= ctlMin + ctlOpt + msr.low
  {
    var ctl := ((ctlMin + ctlOpt) * msr.high) + msr.low;
    if !(ctlMin <= ctl) then Eio else Ok(ctl)
  }

  /**
   * AdjustVmxControls' success contract determines the control word: any
   * word meeting it is the one returned.
   */
  lemma AdjustedIsUnique(ctlMin: Bits, ctlOpt: Bits, msr: MsrPair, w: Bits)
    requires AdjustVmxControls(ctlMin, ctlOpt, msr).Ok?
    requires msr.low <= w <= msr.high + msr.low
    requires (ctlMin + ctlOpt) * msr.high <= w <= ctlMin + ctlOpt + msr.low
    ensures w == AdjustVmxControls(ctlMin, ctlOpt, msr).value
  {
    var v := AdjustVmxControls(ctlMin, ctlOpt, msr).value;
    forall b | b in w ensures b in v {
    }
    forall b | b in v ensures b in w {
    }
  }

  /** allow_1_setting: whether the allowed-1 word permits some bit of `ctl`. */
  predicate Allow1Setting(msr: MsrPair, ctl: nat) {
    ctl in msr.high
  }

  /** IA32_VMX_BASIC as two 32-bit numbers. */
  datatype BasicMsr = BasicMsr(low: nat, high: nat)

  /** The capability MSRs setup_vmcs_config reads. */
  datatype VmxMsrs = VmxMsrs(
    pinBased: MsrPair, procBased: MsrPair, procBased2: MsrPair,
    exitCtls: MsrPair, entryCtls: MsrPair, basic: BasicMsr,
    eptCap: Bits, vpidCap: Bits)

  /** The negotiated configuration: the vmcs_config fields and vmx_capability. */
  datatype VmcsConfig = VmcsConfig(
    size: nat, revisionId: nat,
    pinBasedExecCtrl: Bits, cpuBasedExecCtrl: Bits, cpuBased2ndExecCtrl: Bits,
    vmexitCtrl: Bits, vmentryCtrl: Bits,
    capEpt: Bits, capVpid: Bits, hasLoadEfer: bool)

  /** Bits 12:0 of VMX_BASIC's high word: the VMCS region size. */
  function VmcsSize(high: nat): nat { high % 0x2000 }

  /** The three VMX_BASIC sanity checks on the MSR's high word. */
  predicate BasicAcceptable(high: nat) {
    && VmcsSize(high) <= PAGE_SIZE
    && (high / 0x1_0000) % 2 == 0
    && (high / 0x4_0000) % 16 == MEMORY_TYPE_WB
  }

  /** TPR shadowing makes CR8 load and store exiting unnecessary. */
  function DropCr8Exiting(cpu: Bits): (r: Bits)
    ensures (CPU_BASED_TPR_SHADOW in r) == (CPU_BASED_TPR_SHADOW in cpu)
    ensures CPU_BASED_TPR_SHADOW in r ==>
              CPU_BASED_CR8_LOAD_EXITING !in r && CPU_BASED_CR8_STORE_EXITING !in r
    ensures CPU_BASED_TPR_SHADOW !in r ==> r == cpu
    ensures cpu - {CPU_BASED_CR8_LOAD_EXITING, CPU_BASED_CR8_STORE_EXITING} <= r <= cpu
  {
    if CPU_BASED_TPR_SHADOW in cpu then
      cpu - {CPU_BASED_CR8_LOAD_EXITING} - {CPU_BASED_CR8_STORE_EXITING}
    else cpu
  }

  const CR3_AND_INVLPG_EXITING: Bits :=
    {CPU_BASED_CR3_LOAD_EXITING, CPU_BASED_CR3_STORE_EXITING, CPU_BASED_INVLPG_EXITING}

  /** With EPT, CR3 accesses and INVLPG no longer need to exit. */
  function DropCr3Exiting(cpu: Bits, cpu2: Bits): (r: Bits)
    ensures SECONDARY_EXEC_ENABLE_EPT in cpu2 ==> r * CR3_AND_INVLPG_EXITING == {}
    ensures SECONDARY_EXEC_ENABLE_EPT !in cpu2 ==> r == cpu
    ensures cpu - CR3_AND_INVLPG_EXITING <= r <= cpu
  {
    if SECONDARY_EXEC_ENABLE_EPT in cpu2 then cpu - CR3_AND_INVLPG_EXITING else cpu
  }

  const PIN_MIN: Bits := {PIN_BASED_EXT_INTR_MASK, PIN_BASED_NMI_EXITING}
  const PIN_OPT: Bits := {PIN_BASED_VIRTUAL_NMIS}
  const CPU_MIN: Bits := {CPU_BASED_USE_TSC_OFFSETING}
  const CPU_OPT: Bits :=
    {CPU_BASED_TPR_SHADOW, CPU_BASED_USE_MSR_BITMAPS, CPU_BASED_ACTIVATE_SECONDARY_CONTROLS}
  const CPU2_OPT: Bits :=
    {SECONDARY_EXEC_WBINVD_EXITING, SECONDARY_EXEC_ENABLE_VPID,
     SECONDARY_EXEC_ENABLE_EPT, SECONDARY_EXEC_RDTSCP}
  const EXIT_MIN: Bits := {VM_EXIT_HOST_ADDR_SPACE_SIZE}

  /**
   * setup_vmcs_config with the capability MSRs as a parameter. It fails with
   * -EIO when one of the five control negotiations fails or VMX_BASIC is not
   * acceptable. The secondary controls are negotiated only when the primary
   * ones activate them, and the EPT/VPID capability words are read only when
   * EPT is enabled (vmx_capability otherwise keeps its zero initial value).
   */
  function SetupVmcsConfig(m: VmxMsrs): (r: Outcome<VmcsConfig>)
    ensures r.Ok? <==>
              && AdjustVmxControls(PIN_MIN, PIN_OPT, m.pinBased).Ok?
              && AdjustVmxControls(CPU_MIN, CPU_OPT, m.procBased).Ok?
              && (CPU_BASED_ACTIVATE_SECONDARY_CONTROLS in m.procBased.high + m.procBased.low
                  ==> AdjustVmxControls({}, CPU2_OPT, m.procBased2).Ok?)
              && AdjustVmxControls(EXIT_MIN, {}, m.exitCtls).Ok?
              && AdjustVmxControls({}, {}, m.entryCtls).Ok?
              && BasicAcceptable(m.basic.high)
    ensures r.Ok? ==> r.value.size == VmcsSize(m.basic.high) <= PAGE_SIZE
    ensures r.Ok? ==> r.value.revisionId == m.basic.low
    ensures r.Ok? ==> PIN_MIN <= r.value.pinBasedExecCtrl <= m.pinBased.high + m.pinBased.low
    ensures r.Ok? ==> CPU_MIN <= r.value.cpuBasedExecCtrl <= m.procBased.high + m.procBased.low
    ensures r.Ok? && CPU_BASED_TPR_SHADOW in r.value.cpuBasedExecCtrl ==>
              CPU_BASED_CR8_LOAD_EXITING !in r.value.cpuBasedExecCtrl
              && CPU_BASED_CR8_STORE_EXITING !in r.value.cpuBasedExecCtrl
    ensures r.Ok? && SECONDARY_EXEC_ENABLE_EPT in r.value.cpuBased2ndExecCtrl ==>
              r.value.cpuBasedExecCtrl * CR3_AND_INVLPG_EXITING == {}
    ensures r.Ok? ==>
              if CPU_BASED_ACTIVATE_SECONDARY_CONTROLS in r.value.cpuBasedExecCtrl
              then r.value.cpuBased2ndExecCtrl <= CPU2_OPT * m.procBased2.high + m.procBased2.low
              else r.value.cpuBased2ndExecCtrl == {}
    ensures r.Ok? ==> EXIT_MIN <= r.value.vmexitCtrl <= m.exitCtls.high + m.exitCtls.low
    ensures r.Ok? ==> r.value.vmentryCtrl == m.entryCtls.low
    ensures r.Ok? ==>
              if SECONDARY_EXEC_ENABLE_EPT in r.value.cpuBased2ndExecCtrl
              then r.value.capEpt == m.eptCap && r.value.capVpid == m.vpidCap
              else r.value.capEpt == {} && r.value.capVpid == {}
    ensures r.Ok? ==>
              r.value.hasLoadEfer == (VM_ENTRY_LOAD_IA32_EFER in m.entryCtls.high && VM_EXIT_LOAD_IA32_EFER in m.exitCtls.high)
  {
    match AdjustVmxControls(PIN_MIN, PIN_OPT, m.pinBased)
    case Eio => Eio
    case Ok(pin) =>
      match AdjustVmxControls(CPU_MIN, CPU_OPT, m.procBased)
      case Eio => Eio
      case Ok(cpu0) =>
        var cpu1 := DropCr8Exiting(cpu0);
        var second :=
          if CPU_BASED_ACTIVATE_SECONDARY_CONTROLS in cpu1
          then AdjustVmxControls({}, CPU2_OPT, m.procBased2)
          else Ok({});
        match second
        case Eio => Eio
        case Ok(cpu2) =>
          var cpu := DropCr3Exiting(cpu1, cpu2);
          var ept := SECONDARY_EXEC_ENABLE_EPT in cpu2;
          match AdjustVmxControls(EXIT_MIN, {}, m.exitCtls)
          case Eio => Eio
          case Ok(exit) =>
            match AdjustVmxControls({}, {}, m.entryCtls)
            case Eio => Eio
            case Ok(entry) =>
              if !BasicAcceptable(m.basic.high) then Eio
              else Ok(VmcsConfig(
                VmcsSize(m.basic.high), m.basic.low, pin, cpu, cpu2, exit, entry,
                if ept then m.eptCap else {}, if ept then m.vpidCap else {},
                Allow1Setting(m.entryCtls, VM_ENTRY_LOAD_IA32_EFER)
                && Allow1Setting(m.exitCtls, VM_EXIT_LOAD_IA32_EFER)))
  }

  // The cpu_has_* queries over a negotiated configuration.
  predicate CpuHasSecondaryExecCtrls(c: VmcsConfig) { CPU_BASED_ACTIVATE_SECONDARY_CONTROLS in c.cpuBasedExecCtrl }
  predicate CpuHasVmxVpid(c: VmcsConfig) { SECONDARY_EXEC_ENABLE_VPID in c.cpuBased2ndExecCtrl }
  predicate CpuHasVmxInvpcid(c: VmcsConfig) { SECONDARY_EXEC_ENABLE_INVPCID in c.cpuBased2ndExecCtrl }
  predicate CpuHasVmxEpt(c: VmcsConfig) { SECONDARY_EXEC_ENABLE_EPT in c.cpuBased2ndExecCtrl }
  predicate CpuHasVmxInvvpidSingle(c: VmcsConfig) { VMX_VPID_EXTENT_SINGLE_CONTEXT_BIT in c.capVpid }
  predicate CpuHasVmxInvvpidGlobal(c: VmcsConfig) { VMX_VPID_EXTENT_GLOBAL_CONTEXT_BIT in c.capVpid }
  predicate CpuHasVmxInveptIndividualAddr(c: VmcsConfig) { VMX_EPT_EXTENT_INDIVIDUAL_BIT in c.capEpt }
  predicate CpuHasVmxInveptContext(c: VmcsConfig) { VMX_EPT_EXTENT_CONTEXT_BIT in c.capEpt }
  predicate CpuHasVmxInveptGlobal(c: VmcsConfig) { VMX_EPT_EXTENT_GLOBAL_BIT in c.capEpt }
  predicate CpuHasVmxEptAdBits(c: VmcsConfig) { VMX_EPT_AD_BIT in c.capEpt }

  /**
   * Without EPT the capability words are never read, so no INVEPT or
   * INVVPID extent is reported and no EPT A/D bits are enabled.
   */
  lemma NoEptNoInvalidationExtents(m: VmxMsrs)
    requires SetupVmcsConfig(m).Ok? && !CpuHasVmxEpt(SetupVmcsConfig(m).value)
    ensures var c := SetupVmcsConfig(m).value;
            && !CpuHasVmxInveptGlobal(c) && !CpuHasVmxInveptContext(c)
            && !CpuHasVmxInveptIndividualAddr(c) && !CpuHasVmxInvvpidSingle(c)
            && !CpuHasVmxInvvpidGlobal(c) && !CpuHasVmxEptAdBits(c)
  {
  }

  /** EPT is never enabled unless the primary controls activate the secondary ones. */
  lemma EptNeedsSecondaryControls(m: VmxMsrs)
    requires SetupVmcsConfig(m).Ok? && CpuHasVmxEpt(SetupVmcsConfig(m).value)
    ensures CpuHasSecondaryExecCtrls(SetupVmcsConfig(m).value)
  {
  }
}
