# okernel VMX core in Dafny

This project models the sequential core of the okernel VT-x driver
(`arch/x86/okernel/vmx.c`). It proves properties of that model. There are
five parts.

- **EPT table manager.** `vt_ept_2M_init` builds a 1:1 extended page table
  over the E820 memory map, using 2-MByte leaves except for the first
  2 MBytes, which go through a 4-KByte PT. `find_pd_entry` and
  `find_pt_entry` locate entries. `split_2M_mapping` turns a 2-MByte leaf
  into 512 4-KByte leaves. `replace_ept_page` redirects one 4-KByte page to
  a fresh copy, and `clone_kstack2` does that for the four kernel-stack
  pages. `no_cache_region` picks the memory type and `construct_eptp`
  builds the EPT pointer.
  - Physical memory is a class `Ept.PhysMem` with three fields:
    - `tables`: a map from page address to 512-entry tables;
    - `ram`: a map from page address to page contents;
    - `free`: the pages the allocator still has.
  - The methods change these fields in place, loop by loop, as the C code
    does.
  - Each method is proved against a pure specification function. That is
    `SplitSpec`, `ReplaceSpec` or `CloneFrom` for the editing operations,
    and `Built` with the EPT walk of section 28.2.2 of the Intel SDM,
    Vol. 3C, for the builder. The properties are lemmas about those
    functions.
- **Capability arithmetic.**
  - `adjust_vmx_controls` and the post-processing and VMX_BASIC checks of
    `setup_vmcs_config`, with the capability MSRs as parameters.
  - The `cpu_has_*` queries.
  - The INVEPT/INVVPID extent fallback of `ept_sync_*` and `vpid_sync_*`.
  - `__vmx_disable_intercept_for_msr` on the MSR-bitmap page, laid out as
    in section 24.6.9 of the SDM, Vol. 3C.
- **VPID pool.** A class over the `vmx_vpid_bitmap` array. It has
  `vmx_allocate_vpid` and `vmx_free_vpid`, and bit 0 is reserved for the
  host.
- **VCPU binding.**
  - The classes are `Binding.Vcpu` and `Binding.Machine`. Machine holds:
    - the per-CPU `local_vcpu` slots;
    - a log of the hardware operations issued (VMCLEAR, VMPTRLD, the
      invalidation events, `__vmx_setup_cpu`, `vmx_free_vmcs`);
    - the negotiated configuration;
    - the VPID pool.
  - Its methods are `vmx_get_cpu`, `__vmx_get_cpu_helper`,
    `vmx_destroy_vcpu` and `vmx_create_vcpu` with its rollback.
  - The cross-CPU call is a synchronous update of the other CPU's slot.
- **The `vmx_launch` loop.**
  - `Launch.Pass` specifies one iteration of `while (1)`: bind, the
    reschedule and signal gates, guest entry, RIP stepping, CPUID
    emulation and exit dispatch.
  - `Launch.Run` specifies a sequence of iterations.
  - `Launch.PassBinds` and `Launch.RunBinds` specify the machine side of
    the same passes: the slots, the VCPU's `cpu` and the log after each
    `vmx_get_cpu`.
  - The methods `LaunchPass` and `VmxLaunchLoop` update the VCPU object
    and call `Binding.Machine.GetCpu`. They are proved equal to those
    functions, on the VCPU and on the machine.
  - Guest entry (`vmx_run_vcpu`), the scheduler, the signal queue and the
    IRQ heuristics are the inputs of each pass: one `Launch.Tick` per
    pass.

Files:

| file | contents |
|---|---|
| `words.dfy` | 32/64-bit ranges, powers of two, OR on naturals |
| `e820.dfy` | `e820_end_paddr` |
| `eptentry.dfy` | entry encodings and `no_cache_region` |
| `eptwalk.dfy` | the processor's EPT walk, `find_pd_entry`, `find_pt_entry`, the layout (`Shaped`) the edits keep |
| `eptbuild.dfy` | what `vt_ept_2M_init` writes, and the identity-map lemmas |
| `eptedit.dfy` | table-level lemmas about a split and a replacement |
| `eptops.dfy` | `SplitSpec`, `ReplaceSpec` and their properties |
| `eptclone.dfy` | `CloneFrom` and the `clone_kstack2` properties |
| `ept.dfy` | the `PhysMem` class and its methods |
| `eptp.dfy` | `construct_eptp` |
| `caps.dfy` | control negotiation |
| `invalidate.dfy` | invalidation extents |
| `msrbitmap.dfy` | the MSR bitmap |
| `vpid.dfy` | the VPID pool |
| `binding.dfy` | the VCPU binding |
| `launch.dfy` | the exit loop |

## Model

| member | source | states |
|---|---|---|
| E820.LastPfnIsMaximum | arch/x86/okernel/vmx.c:164-180 | The last PFN the loop settles on bounds what every region contributes and is one of those contributions (or 0). |
| E820.ReachingLimit | arch/x86/okernel/vmx.c:174-177 | One region whose end passes the limit makes the result exactly the limit, so the early `break` loses nothing. |
| E820.E820EndPaddr | arch/x86/okernel/vmx.c:158-187 | The loop returns the maximum of the clipped region ends, capped at MAXMEM >> PAGE_SHIFT and shifted back. The result is page aligned and at most min(limit_pfn, MAXMEM >> PAGE_SHIFT) << PAGE_SHIFT. |
| EptEntry.DecodeTableEntry | arch/x86/okernel/vmx.c:636 | `phys + R + W + X` reads back as present, not a leaf, with address field `phys`. |
| EptEntry.DecodePtLeaf | arch/x86/okernel/vmx.c:600-607 | A 4-KByte leaf the builder or a split writes has R, W and X set, maps its address, and has memory type WB exactly where `no_cache_region` is 0 (uncached elsewhere). |
| EptEntry.DecodePdLeaf | arch/x86/okernel/vmx.c:621-628 | A 2-MByte leaf has R, W, X and the large bit, maps its frame, and is WB exactly where `no_cache_region` is 0. |
| EptEntry.DecodeReplacedLeaf | arch/x86/okernel/vmx.c:463 | The leaf `replace_ept_page` installs has R, W and X, is WB, is not large, and maps the new page. |
| EptWalk.SourceIndices | arch/x86/okernel/vmx.c:277-327 | Below 512 GBytes the indices the source computes (`paddr >> 30`, then 9 bits per level) are the slots the processor uses. |
| EptWalk.FindPdEntry | arch/x86/okernel/vmx.c:261-292 | `find_pd_entry` reads PML4 entry 0, the PDPT entry for the GByte and the PD entry for the 2-MByte frame. It agrees with the processor's walk below 512 GBytes. |
| EptWalk.FindPtEntry | arch/x86/okernel/vmx.c:294-333 | `find_pt_entry` gives entry `(paddr >> 12) & 511` of the page the PD entry names. The `BUG_ON(*pml1 & EPT_2M_PAGE)` is a `None` result, decided by entry 0 of that page in the table arena (see Left out). |
| EptWalk.ShapedWalk | arch/x86/okernel/vmx.c:261-333 | In tables with the builder's layout, an address inside the extent walks to the layout's leaf for it, and every address outside is unmapped. |
| EptWalk.ShapedFind | arch/x86/okernel/vmx.c:261-333 | In such tables `find_pd_entry` lands on the layout's PD entry, and for a split frame `find_pt_entry` lands on its PT entry. |
| EptBuild.RoundUpGb | arch/x86/okernel/vmx.c:547 | The extent rounded up to a whole GByte: the least multiple of 2^30 that is at least the extent. |
| EptBuild.PdTargetAsWritten | arch/x86/okernel/vmx.c:622-626 | The frame address the source stores, `(i + k*n_entries) << 21` in 32 bits: below 2^32, 2-MByte aligned, and equal to the intended frame exactly when that frame is below 4 GBytes. |
| EptBuild.PdPageAsWritten | arch/x86/okernel/vmx.c:618-627 | PD page k as the source fills it: every entry a present, large RWX leaf for the wrapped target, with the memory type `no_cache_region` gives for the wrapped address. |
| EptBuild.PdPageAsWrittenBelow4G | arch/x86/okernel/vmx.c:618-627 | For the first four PD pages the page as written is the intended page `PdPage(k)`. |
| EptBuild.PdPageAsWrittenWraps | arch/x86/okernel/vmx.c:618-627 | The fifth PD page as written differs from the intended one: its entry 0 maps host address 0 instead of 4 GBytes. |
| EptBuild.PdTargetAsWrittenBelow4G | arch/x86/okernel/vmx.c:622-626 | Below 4 GBytes the 32-bit computation gives the intended frame i + 512k. |
| EptBuild.PdTargetAsWrittenWraps | arch/x86/okernel/vmx.c:622-626 | For PD page 4, entry 0, the stored leaf maps guest 4 GBytes to host address 0. |
| EptBuild.BuiltIsShaped | arch/x86/okernel/vmx.c:589-670 | The tables `vt_ept_2M_init` writes have the layout the editing functions work on. |
| EptBuild.IdentityMap | arch/x86/okernel/vmx.c:589-670 | After the build, each address below the rounded extent translates to itself, through a 4-KByte leaf below 2 MBytes and a 2-MByte leaf above. Each address above is unmapped. This is the build with the corrected PD targets. The source's tables agree while the rounded extent is at most 4 GBytes (`EptBuild.PdPageAsWrittenBelow4G`); see Findings. |
| EptBuild.IdentityLeafAttributes | arch/x86/okernel/vmx.c:600-636 | Every identity leaf has R, W and X. Every leaf except the first 2 MBytes has the 2-MByte bit. Each is WB exactly where `no_cache_region` of its frame is 0. This is for the corrected PD targets, as for `EptBuild.IdentityMap`. |
| Ept.BuiltFromParts | arch/x86/okernel/vmx.c:589-670 | The pages taken from the pool in allocation order, filled as the loops fill them, give the built tables. |
| Ept.BuiltIsIdentity | arch/x86/okernel/vmx.c:589-670 | The identity map stated for every address at once, for the corrected PD targets. The source's tables agree while the rounded extent is at most 4 GBytes. |
| Ept.PhysMem.AllocPage | arch/x86/okernel/vmx.c:189-208 | `vt_alloc_page` returns the head of the free list and removes it, or fails with nothing changed when the list is empty. |
| Ept.PhysMem.AllocTable | arch/x86/okernel/vmx.c:590-594 | Allocation plus `memset(0)` of a page that is to hold a table: a fresh zero table, or failure. |
| Ept.PhysMem.AllocData | arch/x86/okernel/vmx.c:442-447 | Allocation plus `memset(0)` of a data page: a fresh zero page, or failure. |
| Ept.PhysMem.SetEntry | arch/x86/okernel/vmx.c:603 | The store `q[i] = v` changes that entry and nothing else. |
| Ept.PhysMem.FillPt | arch/x86/okernel/vmx.c:600-607 | The PT loop leaves entry i mapping `i << 12`, with cache bits from `no_cache_region`. |
| Ept.PhysMem.FillPd | arch/x86/okernel/vmx.c:619-629 | The PD loop leaves entry i of page k mapping frame i + 512k as a large leaf. This is the corrected target (see Findings). |
| Ept.PhysMem.FillPdpt | arch/x86/okernel/vmx.c:650-656 | PDPT entry i names PD page i with R, W and X. |
| Ept.PhysMem.AllocPds | arch/x86/okernel/vmx.c:610-617 | n zeroed PD pages are the next n free pages, or the loop fails. A failure comes only when the free list runs out, so every free page has been taken and is a table page. |
| Ept.PhysMem.FillPds | arch/x86/okernel/vmx.c:619-629 | Every PD page is filled, and the pages in `keep` are untouched. |
| Ept.PhysMem.BuildLower | arch/x86/okernel/vmx.c:589-636 | The PT, the PD pages, and PD entry 0 pointed at the PT. Succeeds exactly when enough pages are free. On failure the free list is empty and every page that was free is a table page. |
| Ept.PhysMem.BuildUpper | arch/x86/okernel/vmx.c:640-670 | The PDPT linked to the PDs and the PML4 linked to the PDPT. Succeeds exactly when two pages are free. On failure the free list is empty and every page that was free is a table page. |
| Ept.PhysMem.InitEpt2M | arch/x86/okernel/vmx.c:509-677 | Returns 0, changing nothing, when the rounded extent exceeds PML4E_MAP_LIMIT GBytes. Otherwise it succeeds exactly when n + 3 pages are free. Then it has taken one PT, n PDs, one PDPT and the PML4 in that order, and the tables are the identity map with the corrected PD targets (the source's agree up to 4 GBytes; see Findings). A failure within the limit leaves the free list empty, with every page that was free now a table page: pages taken before the failure are not returned. |
| Ept.PhysMem.FillSplit | arch/x86/okernel/vmx.c:391-398 | The split's PT entry i maps base + i*4096, with cache bits from `no_cache_region` of that page. |
| Ept.PhysMem.Split2M | arch/x86/okernel/vmx.c:337-402 | `split_2M_mapping` on the arena is `SplitSpec`. |
| EptOps.SplitCodes | arch/x86/okernel/vmx.c:347-401 | Returns 1 exactly for a 2-MByte-aligned address whose frame is already split or can take a page. A page is used exactly when a split happens, and nothing changes otherwise. After a 1 the frame is split. |
| EptOps.SplitSpecShaped | arch/x86/okernel/vmx.c:337-402 | A split keeps the tables in the layout, now with that frame split. |
| EptOps.SplitSpecWalk | arch/x86/okernel/vmx.c:367-400 | A split keeps every translation and permission. Outside the frame every walk is unchanged. Inside, each 4-KByte page is mapped by a leaf at base + i*4096 whose cache bits are recomputed for that page. |
| EptEdit.SplitWalk | arch/x86/okernel/vmx.c:389-400 | The same at table level: only PD entry i and the new PT differ. |
| EptEdit.SplitRecomputesCacheBits | arch/x86/okernel/vmx.c:391-398 | The 2-MByte leaf at 0x3_FFE0_0000 is WB while the page 0x3_FFF0_0000 in its split PT is uncached, so a split can change a memory type. |
| EptEdit.ReplaceWalk | arch/x86/okernel/vmx.c:463 | Rewriting one PT entry redirects exactly that 4-KByte page, as WB, and every other address walks as before. |
| Ept.PhysMem.ReplaceLeaf | arch/x86/okernel/vmx.c:426-470 | The part after the split is `ReplaceLeafSpec`. On success the new page holds the old page's bytes. |
| Ept.PhysMem.ReplaceEptPage | arch/x86/okernel/vmx.c:406-471 | `replace_ept_page` is `ReplaceSpec`. On success the new page is a copy of the old one, and no page outside the free list changes its contents. |
| EptOps.ReplaceReturns | arch/x86/okernel/vmx.c:413-470 | A page is returned exactly when the pool holds the pages needed, `paddr` is page aligned, and the walk mapped `paddr` to itself. The page returned is the last one taken, and the frame is split afterwards. |
| EptOps.ReplaceSplitFails | arch/x86/okernel/vmx.c:417-421 | When the frame needs a split and the pool is empty, the result is NULL and nothing changes. |
| EptOps.ReplaceRedirects | arch/x86/okernel/vmx.c:463 | On success the 4-KByte page of `paddr` is mapped, WB and RWX, to the new page. |
| EptOps.ReplaceKeepsTargets | arch/x86/okernel/vmx.c:406-471 | Every other address keeps its target and permissions. |
| EptOps.ReplaceKeepsWalks | arch/x86/okernel/vmx.c:406-471 | Every address outside the 2-MByte frame of `paddr` walks exactly as before. |
| EptOps.ReplaceNullKeeps | arch/x86/okernel/vmx.c:455-458 | On a NULL return every address still goes where it went, though the frame may stay split and a page may be used. |
| EptOps.ReplaceSpecShaped | arch/x86/okernel/vmx.c:406-471 | A replacement keeps the tables in the layout. |
| EptOps.OrigMatches | arch/x86/okernel/vmx.c:451-458 | `*pml1_p & ~(PAGESIZE-1) == paddr` exactly when `paddr` is page aligned and mapped to itself. |
| Ept.PhysMem.ClonePage | arch/x86/okernel/vmx.c:491-504 | One loop iteration keeps the `Cloned` bookkeeping, or fixes the loop's failed outcome. |
| Ept.PhysMem.CloneKstack2 | arch/x86/okernel/vmx.c:474-507 | `clone_kstack2` is `CloneFrom` over the four stack pages. It returns 1 exactly when all were cloned, and the first copy as `cloned_thread_info`. On success each copy holds its stack page's contents, and no page outside the free list changes. |
| Ept.CloneNext | arch/x86/okernel/vmx.c:491-504 | One `replace_ept_page` moves the bookkeeping on by one copy, or ends the loop. |
| Ept.CloneCopiesHold | arch/x86/okernel/vmx.c:468 | After a full clone, copy k holds what stack page k held. |
| Ept.CloneRamFrame | arch/x86/okernel/vmx.c:468 | Copies taken from the pool leave every other page as it was. |
| EptClone.CloneFrom | arch/x86/okernel/vmx.c:491-506 | The loop succeeds exactly when it made one copy per page. |
| EptClone.CloneStops | arch/x86/okernel/vmx.c:495-499 | The loop stops at the first NULL with the copies made so far. |
| EptClone.CloneCopiesFromPool | arch/x86/okernel/vmx.c:491-505 | The copies are distinct pages from the part of the pool that was taken. |
| EptClone.ReplaceTakes | arch/x86/okernel/vmx.c:406-471 | `replace_ept_page` takes no more pages than the pool holds. The page it returns is the last one taken, and the only table page it can add is the first one. |
| EptClone.CloneKeeps | arch/x86/okernel/vmx.c:491-505 | Addresses outside the cloned pages, in frames already split, still walk as before. |
| EptClone.CloneRedirectsAt | arch/x86/okernel/vmx.c:491-506 | After a full clone, an address in stack page i is mapped, WB, to the same offset in copy i. |
| EptClone.CloneRedirects | arch/x86/okernel/vmx.c:491-506 | The same for every stack page and every address in it. |
| Eptp.EptpFlags | arch/x86/okernel/vmx.c:1327-1330 | The low flags are below 128, and bit 6 is set exactly when the CPU has EPT A/D bits. |
| Eptp.ConstructEptpFields | arch/x86/okernel/vmx.c:1322-1334 | The EPT pointer has memory type WB, page-walk length 4 and a zero reserved field. A/D is on exactly when supported. The PML4 field is `root_hpa & PAGE_MASK`. It is a 64-bit value when `root_hpa` is. |
| Eptp.ConstructEptpInjective | arch/x86/okernel/vmx.c:1322-1334 | Two page-aligned roots give the same pointer only when they are equal. |
| Capability.AdjustVmxControls | arch/x86/okernel/vmx.c:909-926 | Fails exactly when a `min` bit is neither allowed nor forced. On success the result holds every forced bit and every `min` bit, and no bit outside high\|low. |
| Capability.AdjustedIsUnique | arch/x86/okernel/vmx.c:909-926 | The success contract determines the word: ((min\|opt) & high) \| low. |
| Capability.DropCr8Exiting | arch/x86/okernel/vmx.c:975-977 | Under TPR shadow, CR8 load and store exiting are cleared and nothing else. Without it the word is unchanged. |
| Capability.DropCr3Exiting | arch/x86/okernel/vmx.c:1000-1005 | Under EPT, CR3 load and store and INVLPG exiting are cleared and nothing else. |
| Capability.SetupVmcsConfig | arch/x86/okernel/vmx.c:936-1059 | Fails with -EIO exactly when a negotiation fails or VMX_BASIC is unacceptable (size over 4096, bit 48, memory type not WB). Otherwise every field is as negotiated. The capability words are read only under EPT, and `has_load_efer` is the two allowed-1 bits. |
| Capability.NoEptNoInvalidationExtents | arch/x86/okernel/vmx.c:1000-1008 | Without EPT no INVEPT or INVVPID extent and no A/D support is reported. |
| Capability.EptNeedsSecondaryControls | arch/x86/okernel/vmx.c:979-998 | EPT is on only when the secondary controls are activated. |
| Invalidation.EptSyncGlobal | arch/x86/okernel/vmx.c:751-755 | A global INVEPT exactly when supported. Every event is supported and drops every context. |
| Invalidation.EptSyncContext | arch/x86/okernel/vmx.c:757-763 | A context INVEPT for the pointer, else a global one, else nothing. What is issued is supported and drops that context. |
| Invalidation.EptSyncIndividualAddr | arch/x86/okernel/vmx.c:765-772 | An individual-address INVEPT, else the context fallback. What is issued drops that translation. |
| Invalidation.VpidSyncVcpuSingle | arch/x86/okernel/vmx.c:800-807 | Nothing for VPID 0. Otherwise a single-context INVVPID exactly when supported. |
| Invalidation.VpidSyncVcpuGlobal | arch/x86/okernel/vmx.c:809-813 | An all-context INVVPID exactly when supported. |
| Invalidation.VpidSyncContext | arch/x86/okernel/vmx.c:815-824 | Nothing exactly when single-context is supported and the VPID is 0, or neither extent is supported. What is issued drops the VPID's context. |
| MsrBitmap.DisableInterceptEffect | arch/x86/okernel/vmx.c:1638-1654 | After the call, RDMSR and WRMSR of a controllable `msr` no longer exit, and whether any other MSR exits is unchanged. |
| MsrBitmap.DisableInterceptForMsr | arch/x86/okernel/vmx.c:1638-1654 | The in-place clearing on the bitmap page is `DisableIntercept` of the old contents. |
| Vpid.VpidPool.constructor | arch/x86/okernel/vmx.c:2462 | The pool starts with only VPID 0 in use. |
| Vpid.VpidPool.FindFirstZeroBit | arch/x86/okernel/vmx.c:1778 | The lowest clear bit, or VMX_NR_VPIDS when every bit is set. |
| Vpid.VpidPool.AllocateVpid | arch/x86/okernel/vmx.c:1771-1786 | Fails exactly when the pool is full, with vpid 0 and nothing changed. On success it returns the lowest free VPID, which is non-zero and below VMX_NR_VPIDS, and adds exactly that one to the in-use set. |
| Vpid.VpidPool.FreeVpid | arch/x86/okernel/vmx.c:1792-1798 | Removes exactly that VPID, or nothing for 0. |
| Binding.Machine.GetCpuHelper | arch/x86/okernel/vmx.c:1219-1227 | VMCLEAR on the VCPU's CPU, then that CPU's slot is cleared exactly when it named the VCPU. |
| Binding.Machine.GetCpu | arch/x86/okernel/vmx.c:1235-1264 | A launched VCPU only gets a VMPTRLD, leaving `cpu` and the slots alone. An unlaunched one that is not the current CPU's gets that slot. If it moves CPU, its old slot is cleared, `launched` is 0 and `cpu` is cur. The log is `GetCpuOps`. |
| Binding.Machine.Rebind | arch/x86/okernel/vmx.c:1242-1261 | The rebinding branch keeps every slot consistent with its VCPU's `cpu`. Its log is `BindOps`. |
| Binding.GetCpuSlots | arch/x86/okernel/vmx.c:1239-1263 | Launched: slots unchanged. Otherwise the current slot names the VCPU and, when it moved, no other slot does. Slots of other VCPUs are untouched. |
| Binding.BindOps | arch/x86/okernel/vmx.c:1245-1261 | On the same CPU, only VMPTRLD. When moving: a clear on the old CPU (or a local VMCLEAR when `cpu` < 0), the VPID and EPT invalidations, then VMPTRLD and `__vmx_setup_cpu`. The invalidations are supported and drop the VCPU's contexts whenever an extent exists. |
| Binding.Unbind | arch/x86/okernel/vmx.c:1225-1226 | Clears every slot naming the VCPU and no other. |
| Binding.Machine.DestroyVcpu | arch/x86/okernel/vmx.c:1886-1897 | The log grows by exactly the operations of `vmx_get_cpu` (`GetCpuOps`), then an EPT context invalidation, VMCLEAR and `vmx_free_vmcs`. The current slot is cleared. An unlaunched VCPU is in no slot afterwards. Its VPID is freed. |
| Binding.Machine.CreateVcpu | arch/x86/okernel/vmx.c:1807-1880 | A VCPU is returned exactly when memory, a VMCS, a VPID and the EPT root are obtained and `vmx_create_ept` succeeds. It is fresh, with a new non-zero VPID and `eptp` = `construct_eptp(root)`, and the log grows by exactly the binding operations from no previous CPU (`BindOps` with `from` = -1). On every failure the VPID set is as before and an allocated VMCS is freed last. |
| Binding.Machine.InitVcpu | arch/x86/okernel/vmx.c:1843-1880 | The EPT pointer, the first `vmx_get_cpu`, the A/D flag, and the `fail_ept` rollback that frees the VPID and the VMCS. The log grows by exactly `BindOps` from no previous CPU, followed by `vmx_free_vmcs` on failure. |
| Launch.ExitReason | arch/x86/okernel/vmx.c:2020-2028 | A failed entry reports VMX_EXIT_REASONS_FAILED_VMENTRY. |
| Launch.StepInstruction | arch/x86/okernel/vmx.c:2039-2043 | GUEST_RIP plus the instruction length, as a 64-bit value that wraps at 2^64. |
| Launch.HandleCpuid | arch/x86/okernel/vmx.c:2045-2056 | CPUID of the low 32 bits of RAX and RCX. Its four 32-bit results replace RAX, RBX, RCX and RDX, and no other register changes. |
| Launch.Pass | arch/x86/okernel/vmx.c:2128-2272 | SIGKILL, when no reschedule is taken, sets `ret_code` to ENOSYS << 8 and ends the loop. A pass that does not enter changes nothing. An entered pass sets `launched` to 1, steps RIP exactly on VMCALL and CPUID, and emulates CPUID. It continues exactly on EXTERNAL_INTERRUPT, CPUID or VMCALL_SCHED, exits on VMCALL_DOEXIT, reaches BUG on other commands and tmp_finish otherwise. `schedule_ok` follows the IRQ and RCU heuristics. |
| Launch.RunAppend | arch/x86/okernel/vmx.c:2128-2273 | Running two traces in a row is running the second from where the first went round. |
| Launch.RunLaunched | arch/x86/okernel/vmx.c:2020 | `launched` stays as it was or becomes 1, and is 1 once the first pass enters the guest. |
| Launch.RunRetCode | arch/x86/okernel/vmx.c:2174-2177 | When the loop ends on SIGKILL, `ret_code` is ENOSYS << 8. Otherwise it is what it was before the loop. |
| Launch.RunVcpu | arch/x86/okernel/vmx.c:2020-2028 | The opaque entry: `launched` is 1, the registers and RIP are those saved on exit. |
| Launch.SignalRunDispatch | arch/x86/okernel/vmx.c:2158-2272 | The signal gate, the entry and the dispatch on the VCPU object are `Pass` without `schedule_ok`. |
| Launch.LaunchPass | arch/x86/okernel/vmx.c:2130-2272 | One iteration changes the VCPU's guest fields as `Pass` says. Its slots, `cpu` and log become `PassBinds`: `vmx_get_cpu` on the tick's CPU, then again on the resumed CPU when the reschedule is taken. VMCS, VPID, EPT pointer and EPT root are not touched. |
| Launch.PassBindsBound | arch/x86/okernel/vmx.c:2130-2150 | A pass only appends to the log. An unlaunched VCPU ends it bound to the last CPU `vmx_get_cpu` ran on: its `cpu` is that CPU and that CPU's slot names it. |
| Launch.PassBindsLaunched | arch/x86/okernel/vmx.c:2130-2150 | For a launched VCPU a pass moves nothing and logs one VMPTRLD per `vmx_get_cpu`. |
| Launch.RunBindsBound | arch/x86/okernel/vmx.c:2128-2273 | Over the whole loop the log only grows. A VCPU launched before the loop keeps its `cpu` and every slot, and everything logged loads its VMCS. |
| Launch.VmxLaunchLoop | arch/x86/okernel/vmx.c:2120-2273 | The loop over a trace leaves the VCPU, and returns the outcome, that `Run` gives from `schedule_ok = 0`. It leaves the slots, `cpu` and log that `RunBinds` gives, and does not touch the VMCS, VPID, EPT pointer or EPT root. |

## Left out

- Hardware instructions become recorded events or parameters:
  - VMCLEAR, VMPTRLD, INVEPT and INVVPID are entries of `Binding.Machine.log`;
  - `rdmsr` values (the VMX capability MSRs) are parameters;
  - `native_cpuid` is the function parameter `Host.cpuid`;
  - the body of `vmx_run_vcpu` is a `Launch.Entry` input.
- `vmcall` command numbers: VMCALL_SCHED and VMCALL_DOEXIT are defined in a header that is not part of this model. They are parameters (`Host`).
- `__pa`/`__va`: the physical address of stack page i is the stack's physical base plus i pages (`EptClone.StackPages`). A page absent from `ram` reads as zeros.
- No leak-freedom is claimed. Pages allocated by `vt_ept_2M_init`, `split_2M_mapping` and `replace_ept_page` before a failure stay taken, and the contracts of `Ept.PhysMem.InitEpt2M`, `Ept.PhysMem.Split2M` and `Ept.PhysMem.ReplaceEptPage` say so. The `kmalloc` of the `pt_page` descriptors is not modelled: only the page allocator can fail.
- Ept.PhysMem.InitEpt2M: requires a non-zero extent from `e820_end_paddr`. The source indexes `pd[0]` unconditionally, so with an empty memory map it would write through an empty allocation.
- Ept.PhysMem.FillPd: writes the intended frame i + 512k, not the 32-bit-wrapped value. The wrapped value is modelled by `EptBuild.PdTargetAsWritten` and `EptBuild.PdPageAsWritten` (see Findings).
- EptWalk.FindPtEntry: the `BUG_ON` test reads entry 0 of the named page in the table arena `tables`, where a data page reads as 0. On an unsplit 2-MByte frame the source reads the first word of the guest's data frame instead, so there the model always returns the entry, where the source may `BUG()` or may return a pointer into guest data. Its only caller, `replace_ept_page`, always splits the frame first (vmx.c:413-426), so the difference does not reach the rest of the model.
- Table pages and data pages are two separate maps of `Ept.PhysMem`: `tables` for EPT pages and `ram` for page contents. A frame cannot be both, so a `memcpy` or clone of a page that holds an EPT table copies its `ram` contents, not the table. Aliasing between the two views is not modelled.
- Constants from the Linux x86 headers are not part of this model; their values are assumed. `EPT_R`, `EPT_W`, `EPT_X` = 1, 2, 4, `EPT_CACHE_2` = 1 << 4, `EPT_CACHE_3` = 1 << 5 (memory type 6, write-back, in bits 5:3) and `EPT_2M_PAGE` = 1 << 7 follow the EPT entry format in section 28.2.2 of the Intel SDM, Volume 3C. `BIOS_END` = 0x100000, `PAGE_SHIFT` = 12, `GIGABYTE` = 1 << 30, `MAXMEM` = 1 << 46 and `VMX_NR_VPIDS` = 65536 are the usual Linux values. `END_PHYSICAL` (vmx.c:147) and `PML4E_MAP_LIMIT` (the comment at vmx.c:516) come from the source.
- Ept.PhysMem.InitEpt2M: the identity map it promises is that of the corrected PD targets. With a rounded extent above 4 GBytes the source's PD pages 4 and up map low memory again (`EptBuild.PdPageAsWrittenWraps`).
- EptWalk.FindPdEntry: from 512 GBytes up, the source's `pml3_index = paddr >> 30` (vmx.c:277-281, and vmx.c:311-315 in `find_pt_entry`) exceeds 511, so `pml3[pml3_index]` reads past the PDPT page. The model reads such an entry as 0 (`EptWalk.Entry`), so the lookup lands on page 0. The contract ties the lookup to the processor's walk only below 512 GBytes. `Ept.PhysMem.ReplaceEptPage` does not bound `paddr`, so this case reaches it. Between the rounded extent and 512 GBytes the PDPT entry is 0, and the source goes on through `epte_page_vaddr(0)` (vmx.c:281, 287), reading physical page 0 as a PD. `split_2M_mapping` then tests bit 7 of a word of low memory and may split or replace into that page. The model reads `Entry(t, 0, _)` as 0 instead, so for a `paddr` beyond the extent the `ReplaceEptPage` contract describes the model, not the source.
- Ept.PhysMem.CloneKstack2: the returned `threadInfo` stands for the store to `vcpu->cloned_thread_info`.
- `vt_ept_unmap_pages`, `vt_ept_replace_pages`, `vt_ept_4K_init` and `vt_alloc_pages` are stubs or unused, and are not modelled.
- `vmx_create_ept` and `vmx_destroy_ept` are not part of this model. The failure of `vmx_create_ept` is the `eptCreateFails` parameter of `Binding.Machine.CreateVcpu`. The result of `vt_ept_2M_init` is its `eptRoot` parameter, and the three allocations are boolean parameters.
- Straight-line VMCS setup is not modelled: `vmx_setup_vmcs`, `vmx_setup_initial_guest_state`, `setup_msr`, `vmx_setup_constant_host_state` and `__vmx_setup_cpu` (the last is a log entry). Nor are module init and per-CPU enable, except the reservation of VPID 0.
- Concurrency: spinlocks, `smp_call_function_single` and preemption are sequential. The cross-CPU helper runs at once on the other CPU's slot. `vmx_put_cpu` and the preempt count are not modelled.
- The `vmx_launch` loop runs over a finite trace of ticks instead of `while (1)`. Its prologue (creating the VCPU and cloning the stack) is not composed with the loop. `BUG_ON(irqs_disabled())` and the IRQ enable/disable calls are not modelled. `schedule()`, `cond_resched()` and `do_exit()` are outcomes or tick inputs.
- What follows a `BUG()` (an unknown VMCALL command, `n_pages != 4`) is the outcome `BadVmcall` or a constant. Code after `tmp_finish` is not modelled.
- Behaviours the contracts state but are not reported as defects:
  - Binding.Machine.CreateVcpu: after `vmx_create_ept` fails, the current CPU's slot still names the freed VCPU.
  - Binding.Machine.DestroyVcpu: destroying a launched VCPU from another CPU leaves its old CPU's slot naming it.
  - Binding.Machine.GetCpu: the launched branch loads the VMCS without clearing it on a previous CPU.

## Findings

| source | as written | input that shows it | evidently intended | confidence | as-written member | corrected member |
|---|---|---|---|---|---|---|
| arch/x86/okernel/vmx.c:622-626 | `(i + k*n_entries) << 21` is computed in `unsigned int`, so PD leaves above 4 GBytes wrap modulo 2^32 | a rounded extent of 5 GBytes: PD page 4, entry 0 gets target 0 instead of 0x1_0000_0000 (`EptBuild.PdTargetAsWrittenWraps`) | every PD entry i of page k maps frame i + 512k, giving an identity map of the whole extent | not executed | EptBuild.PdPageAsWritten | Ept.PhysMem.FillPd |
