/**
 * The VPID pool: a bitmap of VMX_NR_VPIDS bits under vmx_vpid_lock.
 *
 * VPID 0 tags the host's own translations, so vmx_init reserves bit 0 and a
 * VCPU never receives it; 0 in a VCPU's vpid field means "no VPID".
 */
module Vpid {

  const VMX_NR_VPIDS: nat := 0x1_0000

  /** The bitmap allocator shared by all VCPUs. */
  class VpidPool {
    var bitmap: array<bool>

    ghost predicate Valid()
      reads this, bitmap
    {
      bitmap.Length == VMX_NR_VPIDS && bitmap[0]
    }

    /** The VPIDs currently marked in use, the reserved 0 included. */
    ghost function Used(): set<nat>
      reads this, bitmap
    {
      set i: nat | i < bitmap.Length && bitmap[i]
    }

    /** Every VPID is taken. */
    ghost predicate Full()
      reads this, bitmap
    {
      forall i :: 0 <= i < bitmap.Length ==> bitmap[i]
    }

    /** The zeroed static bitmap with bit 0 reserved for the host, as vmx_init leaves it. */
    constructor ()
      ensures Valid() && fresh(bitmap)
      ensures Used() == {0}
    {
      var b := new bool[VMX_NR_VPIDS](i => i == 0);
      bitmap := b;
      assert forall i: nat | i < b.Length && b[i] :: i == 0;
    }

    /**
     * find_first_zero_bit: the lowest clear bit below VMX_NR_VPIDS, or
     * VMX_NR_VPIDS when every bit is set.
     */
    method FindFirstZeroBit() returns (n: nat)
      requires Valid()
      ensures n <= VMX_NR_VPIDS
      ensures n < VMX_NR_VPIDS ==> !bitmap[n]
      ensures forall i :: 0 <= i < n ==> bitmap[i]
    {
      n := 0;
      while n < VMX_NR_VPIDS && bitmap[n]
        invariant n <= VMX_NR_VPIDS
        invariant forall i :: 0 <= i < n ==> bitmap[i]
      {
        n := n + 1;
      }
    }

    /**
     * vmx_allocate_vpid: takes the lowest free VPID and marks it, returning
     * failed = false; when the pool is full it returns failed = true with
     * vpid = 0 and the bitmap unchanged.
     */
    method AllocateVpid() returns (failed: bool, vpid: nat)
      requires Valid()
      modifies bitmap
      ensures Valid()
      ensures failed <==> old(Full())
      ensures failed ==> vpid == 0 && Used() == old(Used())
      ensures !failed ==> 0 < vpid < VMX_NR_VPIDS && vpid !in old(Used())
      ensures !failed ==> Used() == old(Used()) + {vpid}
      ensures !failed ==> forall i: nat :: i < vpid ==> i in old(Used())
    {
      vpid := 0;
      var n := FindFirstZeroBit();
      if n < VMX_NR_VPIDS {
        vpid := n;
        bitmap[n] := true;
        UsedAfterSet(old(bitmap[..]), bitmap[..], n);
      }
      failed := n >= VMX_NR_VPIDS;
      if !failed {
        assert !(n in old(Used()));
      }
    }

    /** vmx_free_vpid: clears the VCPU's bit, unless its vpid is 0. */
    method FreeVpid(vpid: nat)
      requires Valid() && vpid < VMX_NR_VPIDS
      modifies bitmap
      ensures Valid()
      ensures Used() == if vpid == 0 then old(Used()) else old(Used()) - {vpid}
    {
      if vpid != 0 {
        bitmap[vpid] := false;
        UsedAfterClear(old(bitmap[..]), bitmap[..], vpid);
      }
    }
  }

  /** The set of marked positions of a bitmap's contents. */
  ghost function Marked(s: seq<bool>): set<nat> {
    set i: nat | i < |s| && s[i]
  }

  lemma UsedAfterSet(before: seq<bool>, after: seq<bool>, n: nat)
    requires n < |before| && after == before[n := true]
    ensures Marked(after) == Marked(before) + {n}
  {
  }

  lemma UsedAfterClear(before: seq<bool>, after: seq<bool>, n: nat)
    requires n < |before| && after == before[n := false]
    ensures Marked(after) == Marked(before) - {n}
  {
  }
}
