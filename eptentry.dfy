/**
 * EPT paging-structure entries, after section 28.2.2 of the Intel 64 and
 * IA-32 Architectures SDM, Vol. 3C, as the okernel table code builds them.
 *
 * An entry is a 64-bit value: bits 2:0 are read/write/execute, bits 5:3 the
 * memory type of a leaf, bit 7 marks a 2-MByte (PD) or 1-GByte (PDPT) leaf,
 * and bits 51:12 hold the physical address of the next table or of the frame.
 * Entries are modelled as naturals; the code builds every value below 2^52.
 */
module EptEntry {
  import opened Words

  const PAGE_SIZE: nat := 0x1000
  const PAGESIZE2M: nat := 0x20_0000
  const GIGABYTE: nat := 0x4000_0000
  const PML4_SPAN: nat := 0x80_0000_0000
  const N_ENTRIES: nat := 512
  /** Entries and addresses stay below bit 52, the top of the address field. */
  const ADDR_LIMIT: nat := 0x10_0000_0000_0000

  const EPT_R: nat := 0x1
  const EPT_W: nat := 0x2
  const EPT_X: nat := 0x4
  const EPT_RWX: nat := 0x7
  const EPT_CACHE_2: nat := 0x10
  const EPT_CACHE_3: nat := 0x20
  const EPT_2M_PAGE: nat := 0x80

  /** Start of the BIOS-to-top cacheable region, and its end. */
  const BIOS_END: nat := 0x10_0000
  const END_PHYSICAL: nat := 0x3_FFEF_FFFF
  /** The cacheable region below the EBDA. */
  const LOW_CACHEABLE_END: nat := 0x9F00

  /**
   * no_cache_region: 0 for the cacheable ranges [0, 0x9F00) and
   * [BIOS_END, END_PHYSICAL), 1 elsewhere. The size argument is unused.
   */
  function NoCacheRegion(addr: nat): (r: nat)
    ensures r <= 1
  {
    if addr < LOW_CACHEABLE_END || (BIOS_END <= addr < END_PHYSICAL) then 0 else 1
  }

  /** The memory-type bits a leaf for `addr` receives: write-back (6) when cacheable. */
  function CacheBits(addr: nat): (r: nat)
    ensures r == 0 || r == EPT_CACHE_2 + EPT_CACHE_3
  {
    if NoCacheRegion(addr) != 0 then 0 else EPT_CACHE_2 + EPT_CACHE_3
  }

  /**
   * An address ORed with low flag bits. Because the address is aligned and
   * the flags lie below its lowest set bit, the OR is an addition.
   */
  function WithFlags(addr: nat, flags: nat): (e: nat)
    ensures addr % 256 == 0 && flags < 256 ==> e == addr + flags
  {
    if addr % 256 == 0 && flags < 256 then OrLowFlags(addr, flags); Or(addr, flags)
    else Or(addr, flags)
  }

  /** A 4-KByte leaf for `addr`, as vt_ept_2M_init and split_2M_mapping write it. */
  function PtLeaf(addr: nat): nat
  {
    WithFlags(addr, EPT_RWX + CacheBits(addr))
  }

  /** A 2-MByte leaf for `addr`, as vt_ept_2M_init writes it. */
  function PdLeaf(addr: nat): nat
  {
    WithFlags(addr, EPT_RWX + EPT_2M_PAGE + CacheBits(addr))
  }

  /** The leaf replace_ept_page installs: always write-back. */
  function ReplacedLeaf(addr: nat): nat
  {
    WithFlags(addr, EPT_RWX + EPT_CACHE_2 + EPT_CACHE_3)
  }

  /** An entry referencing the next table: its address plus R + W + X. */
  function TableEntry(phys: nat): nat {
    phys + EPT_R + EPT_W + EPT_X
  }

  // Decoding, as the processor reads an entry.

  /** An entry whose bits 2:0 are all clear is not present. */
  predicate Present(e: nat) { e % 8 != 0 }
  function Permissions(e: nat): nat { e % 8 }
  predicate IsLarge(e: nat) { HasBit(e, EPT_2M_PAGE) }
  function MemoryType(e: nat): nat { (e / 8) % 8 }
  /** The address field of an entry, aligned down to the size it maps or to a table. */
  function AddrField(e: nat, size: nat): nat
    requires size == PAGE_SIZE || size == PAGESIZE2M || size == GIGABYTE
  {
    var low52 := e % ADDR_LIMIT;
    low52 - low52 % size
  }

  // Small arithmetic steps, kept apart so that each is proved in a small context.
  lemma PageQuotient(addr: nat)
    requires addr % PAGE_SIZE == 0
    ensures addr == PAGE_SIZE * (addr / PAGE_SIZE)
  {
  }

  lemma LargeQuotient(addr: nat)
    requires addr % PAGESIZE2M == 0
    ensures addr == PAGESIZE2M * (addr / PAGESIZE2M)
  {
  }

  lemma PageAligned(addr: nat)
    requires addr % PAGE_SIZE == 0
    ensures addr % 256 == 0
  {
    PageQuotient(addr);
    assert addr == 256 * (16 * (addr / PAGE_SIZE));
  }

  lemma LargeAligned(addr: nat)
    requires addr % PAGESIZE2M == 0
    ensures addr % PAGE_SIZE == 0 && addr % 256 == 0
  {
    LargeQuotient(addr);
    assert addr == PAGE_SIZE * (512 * (addr / PAGESIZE2M));
    assert addr == 256 * (8192 * (addr / PAGESIZE2M));
  }

  lemma BelowLimit(q: nat, flags: nat)
    requires PAGE_SIZE * q < ADDR_LIMIT && flags < PAGE_SIZE
    ensures (PAGE_SIZE * q + flags) % ADDR_LIMIT == PAGE_SIZE * q + flags
  {
  }

  lemma LowBits(q: nat, flags: nat)
    requires flags < PAGE_SIZE
    ensures (PAGE_SIZE * q + flags) % PAGE_SIZE == flags
  {
  }

  lemma LowThreeBits(q: nat, flags: nat)
    requires flags < PAGE_SIZE
    ensures (PAGE_SIZE * q + flags) % 8 == flags % 8
  {
  }

  lemma LowEightBits(q: nat, flags: nat)
    requires flags < PAGE_SIZE
    ensures (PAGE_SIZE * q + flags) % 256 == flags % 256
  {
  }

  lemma TypeBits(q: nat, flags: nat)
    requires flags < PAGE_SIZE
    ensures ((PAGE_SIZE * q + flags) / 8) % 8 == (flags / 8) % 8
  {
    var m := 512 * q + flags / 8;
    assert PAGE_SIZE * q + flags == 8 * m + flags % 8;
    EighthOf(m, flags % 8);
    assert m == 8 * (64 * q) + flags / 8;
    EighthRest(64 * q, flags / 8);
  }

  lemma EighthOf(m: nat, r: nat)
    requires r < 8
    ensures (8 * m + r) / 8 == m
  {
  }

  lemma EighthRest(m: nat, r: nat)
    ensures (8 * m + r) % 8 == r % 8
  {
  }

  lemma LargeLowBits(q: nat, flags: nat)
    requires flags < PAGE_SIZE
    ensures (PAGESIZE2M * q + flags) % PAGESIZE2M == flags
  {
  }

  /** What the processor reads back from an entry the code built. */
  lemma DecodeFlags(addr: nat, flags: nat)
    requires addr % PAGE_SIZE == 0 && addr < ADDR_LIMIT && flags < PAGE_SIZE
    ensures addr + flags < ADDR_LIMIT
    ensures Permissions(addr + flags) == flags % 8
    ensures MemoryType(addr + flags) == (flags / 8) % 8
    ensures IsLarge(addr + flags) <==> HasBit(flags, EPT_2M_PAGE)
    ensures AddrField(addr + flags, PAGE_SIZE) == addr
    ensures addr % PAGESIZE2M == 0 ==> AddrField(addr + flags, PAGESIZE2M) == addr
  {
    var q := addr / PAGE_SIZE;
    PageQuotient(addr);
    BelowLimit(q, flags);
    LowBits(q, flags);
    LowThreeBits(q, flags);
    LowEightBits(q, flags);
    TypeBits(q, flags);
    if addr % PAGESIZE2M == 0 {
      LargeQuotient(addr);
      LargeLowBits(addr / PAGESIZE2M, flags);
    }
  }

  /** A table reference decodes to the table's address, present, not a leaf. */
  lemma DecodeTableEntry(phys: nat)
    requires phys % PAGE_SIZE == 0 && phys < ADDR_LIMIT
    ensures TableEntry(phys) < ADDR_LIMIT
    ensures Present(TableEntry(phys)) && Permissions(TableEntry(phys)) == EPT_RWX
    ensures !IsLarge(TableEntry(phys))
    ensures AddrField(TableEntry(phys), PAGE_SIZE) == phys
  {
    DecodeFlags(phys, EPT_RWX);
  }

  /** A 4-KByte leaf is RWX, maps `addr`, and is write-back exactly when cacheable. */
  lemma DecodePtLeaf(addr: nat)
    requires addr % PAGE_SIZE == 0 && addr < ADDR_LIMIT
    ensures PtLeaf(addr) < ADDR_LIMIT
    ensures Present(PtLeaf(addr)) && Permissions(PtLeaf(addr)) == EPT_RWX
    ensures AddrField(PtLeaf(addr), PAGE_SIZE) == addr
    ensures !IsLarge(PtLeaf(addr))
    ensures MemoryType(PtLeaf(addr)) == if NoCacheRegion(addr) == 0 then 6 else 0
  {
    var flags := if NoCacheRegion(addr) == 0 then 0x37 else 0x07;
    PageAligned(addr);
    assert PtLeaf(addr) == addr + flags;
    DecodeFlags(addr, flags);
  }

  /** A 2-MByte leaf is RWX, large, maps `addr`, and is write-back exactly when cacheable. */
  lemma DecodePdLeaf(addr: nat)
    requires addr % PAGESIZE2M == 0 && addr < ADDR_LIMIT
    ensures PdLeaf(addr) < ADDR_LIMIT
    ensures Present(PdLeaf(addr)) && Permissions(PdLeaf(addr)) == EPT_RWX
    ensures AddrField(PdLeaf(addr), PAGESIZE2M) == addr
    ensures IsLarge(PdLeaf(addr))
    ensures MemoryType(PdLeaf(addr)) == if NoCacheRegion(addr) == 0 then 6 else 0
  {
    var flags := if NoCacheRegion(addr) == 0 then 0xB7 else 0x87;
    LargeAligned(addr);
    assert PdLeaf(addr) == addr + flags;
    DecodeFlags(addr, flags);
  }

  /** A replaced leaf is RWX, write-back, not large, and maps the new page. */
  lemma DecodeReplacedLeaf(addr: nat)
    requires addr % PAGE_SIZE == 0 && addr < ADDR_LIMIT
    ensures ReplacedLeaf(addr) < ADDR_LIMIT
    ensures Present(ReplacedLeaf(addr)) && Permissions(ReplacedLeaf(addr)) == EPT_RWX
    ensures AddrField(ReplacedLeaf(addr), PAGE_SIZE) == addr
    ensures !IsLarge(ReplacedLeaf(addr))
    ensures MemoryType(ReplacedLeaf(addr)) == 6
  {
    PageAligned(addr);
    assert ReplacedLeaf(addr) == addr + 0x37;
    DecodeFlags(addr, 0x37);
  }
}
