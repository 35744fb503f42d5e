/**
 * construct_eptp: the EPT pointer written into the VMCS, laid out as in
 * section 24.6.11 of the Intel 64 and IA-32 Architectures Software
 * Developer's Manual, Volume 3C: memory type in bits 2:0, page-walk length
 * minus one in bits 5:3, the accessed/dirty enable in bit 6, bits 11:7
 * reserved as zero, and the physical address of the PML4 table above.
 */
module Eptp {
  import opened Words
  import Capability

  const VMX_EPT_DEFAULT_MT: nat := 6
  const VMX_EPT_DEFAULT_GAW: nat := 3
  const VMX_EPT_GAW_EPTP_SHIFT: nat := 3
  /** Bit 6. */
  const VMX_EPT_AD_ENABLE_BIT: nat := 64
  const PAGE_SIZE: nat := 4096

  /**
   * The default memory type ORed with the guest address width shifted into
   * place, the A/D enable when the CPU reports EPT A/D bits, and the PML4
   * address with its low 12 bits cleared (`& PAGE_MASK`).
   */
  function ConstructEptp(rootHpa: nat, c: Capability.VmcsConfig): (eptp: nat)
  {
    var eptp := Or(VMX_EPT_DEFAULT_MT, VMX_EPT_DEFAULT_GAW * Pow2(VMX_EPT_GAW_EPTP_SHIFT));
    var eptp := if Capability.CpuHasVmxEptAdBits(c) then Or(eptp, VMX_EPT_AD_ENABLE_BIT) else eptp;
    Or(eptp, rootHpa - rootHpa % PAGE_SIZE)
  }

  // The fields of an EPT pointer.
  function MemoryType(eptp: nat): nat { eptp % 8 }
  function WalkLength(eptp: nat): nat { eptp / 8 % 8 + 1 }
  predicate AccessedDirty(eptp: nat) { eptp / 64 % 2 == 1 }
  function Reserved(eptp: nat): nat { eptp / 128 % 32 }
  function Pml4(eptp: nat): nat { eptp - eptp % PAGE_SIZE }

  /**
   * The EPT pointer asks for write-back paging structures and a 4-level
   * walk, enables A/D flags exactly when the CPU supports them, keeps the
   * reserved bits clear, points at the PML4 page that holds rootHpa, and
   * is a 64-bit value whenever rootHpa is.
   */
  lemma ConstructEptpFields(rootHpa: nat, c: Capability.VmcsConfig)
    ensures var eptp := ConstructEptp(rootHpa, c);
      && MemoryType(eptp) == Capability.MEMORY_TYPE_WB
      && WalkLength(eptp) == 4
      && (AccessedDirty(eptp) <==> Capability.CpuHasVmxEptAdBits(c))
      && Reserved(eptp) == 0
      && Pml4(eptp) == rootHpa - rootHpa % PAGE_SIZE
      && (IsU64(rootHpa) ==> IsU64(eptp))
  {
    var flags := EptpFlags(c);
    var k := rootHpa / PAGE_SIZE;
    EptpValue(rootHpa, c, k);
    AlignedFields(ConstructEptp(rootHpa, c), k, flags);
  }

  /** The flags below bit 12: 30 (WB, walk length 4), plus bit 6 when A/D is enabled. */
  function EptpFlags(c: Capability.VmcsConfig): (f: nat)
    ensures f < 128
    ensures f / 64 % 2 == 1 <==> Capability.CpuHasVmxEptAdBits(c)
  {
    if Capability.CpuHasVmxEptAdBits(c) then 94 else 30
  }

  /** The pointer is the page address of rootHpa plus the flags. */
  lemma EptpValue(rootHpa: nat, c: Capability.VmcsConfig, k: nat)
    requires k == rootHpa / PAGE_SIZE
    ensures ConstructEptp(rootHpa, c) == PAGE_SIZE * k + EptpFlags(c)
    ensures rootHpa - rootHpa % PAGE_SIZE == PAGE_SIZE * k
  {
    FlagBits();
    var base := rootHpa - rootHpa % PAGE_SIZE;
    assert base == PAGE_SIZE * k;
    Mul256(base, 16 * k);
    OrCommutes(EptpFlags(c), base);
    OrLowFlags(base, EptpFlags(c));
  }

  /** The flag part of the pointer: WB and walk length 4 make 30, and A/D adds bit 6. */
  lemma FlagBits()
    ensures Or(VMX_EPT_DEFAULT_MT, VMX_EPT_DEFAULT_GAW * Pow2(VMX_EPT_GAW_EPTP_SHIFT)) == 30
    ensures Or(30, VMX_EPT_AD_ENABLE_BIT) == 94
  {
    assert Pow2(VMX_EPT_GAW_EPTP_SHIFT) == 8;
    OrShifted(3, 6, 3);
    OrCommutes(6, 24);
    assert Pow2(6) == 64;
    OrShifted(1, 30, 6);
    OrCommutes(30, 64);
  }

  /** The fields of a page address plus flags below bit 12 are the fields of the flags. */
  lemma AlignedFields(e: nat, k: nat, f: nat)
    requires e == PAGE_SIZE * k + f && f < 128
    ensures MemoryType(e) == f % 8 && WalkLength(e) == f / 8 % 8 + 1
    ensures AccessedDirty(e) <==> f / 64 % 2 == 1
    ensures Reserved(e) == 0 && Pml4(e) == PAGE_SIZE * k
  {
    assert e / 8 == 512 * k + f / 8 && MemoryType(e) == f % 8 by { LowField8(e, 512 * k, f); }
    assert WalkLength(e) == f / 8 % 8 + 1 by { LowField8(e / 8, 64 * k, f / 8); }
    assert AccessedDirty(e) <==> f / 64 % 2 == 1 by { BitSix(e, 32 * k, f); }
    assert Reserved(e) == 0 by {
      Div128(e, 32 * k, f);
      Mul32(e / 128, k);
    }
    assert Pml4(e) == PAGE_SIZE * k by { LowField4096(e, k, f); }
  }

  lemma LowField8(e: nat, q: nat, r: nat)
    requires e == 8 * q + r
    ensures e / 8 == q + r / 8 && e % 8 == r % 8
  {
  }

  lemma BitSix(e: nat, q: nat, r: nat)
    requires e == 128 * q + r && r < 128
    ensures e / 64 % 2 == r / 64 % 2
  {
  }

  lemma LowField4096(e: nat, q: nat, r: nat)
    requires e == 4096 * q + r && r < 4096
    ensures e % 4096 == r
  {
  }

  lemma Div128(e: nat, q: nat, r: nat)
    requires e == 128 * q + r
    ensures e / 128 == q + r / 128
  {
  }

  lemma Mul256(m: nat, k: nat)
    requires m == 256 * k
    ensures m % 256 == 0
  {
  }

  lemma Mul32(m: nat, k: nat)
    requires m == 32 * k
    ensures m % 32 == 0
  {
  }

  /** Two page-aligned roots give the same EPT pointer only when they are the same root. */
  lemma ConstructEptpInjective(a: nat, b: nat, c: Capability.VmcsConfig)
    requires a % PAGE_SIZE == 0 && b % PAGE_SIZE == 0
    ensures ConstructEptp(a, c) == ConstructEptp(b, c) <==> a == b
  {
    ConstructEptpFields(a, c);
    ConstructEptpFields(b, c);
  }
}
