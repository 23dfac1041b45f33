/**
The 64-bit encoding of PagetableEntry (guest-verona-rt/arch/x86_64/inc/pagetable_arch.h)
and its agreement with the fields used by Paging.Entry.
*/
module PteBits {
  import opened Paging

  const PTE_PRESENT: bv64 := 0x0001
  const PTE_WRITABLE: bv64 := 0x0002
  const PTE_USER: bv64 := 0x0004
  const PTE_PAGESIZE: bv64 := 0x0080
  const PTE_GLOBAL: bv64 := 0x0100
  const PERMISSION_MASK: bv64 := 0xFFF0_0000_0000_0FFF
  const ADDRESS_MASK: bv64 := 0x000F_FFFF_FFFF_F000

  function IntermediatePermissions(kernel: bool): bv64 {
    if kernel then PTE_PRESENT | PTE_WRITABLE else PTE_PRESENT | PTE_WRITABLE | PTE_USER
  }

  function LeafPermissions(kernel: bool, perm: Permission): bv64 {
    match perm
    case NoAccess => 0
    case KernelWrite => PTE_PRESENT | (if kernel then PTE_WRITABLE else PTE_USER)
    case KernelRead => PTE_PRESENT | (if kernel then 0 else PTE_USER)
    case ForceKernelWrite => PTE_PRESENT | PTE_WRITABLE
    case CompartmentWrite => PTE_PRESENT | PTE_WRITABLE | PTE_USER
    case CompartmentRead => PTE_PRESENT | PTE_USER
  }

  function LeafPageSize(level: nat): bv64 {
    if level == 0 then 0 else PTE_PAGESIZE
  }

  function TypePermissions(persistent: bool): bv64 {
    if persistent then PTE_GLOBAL else 0
  }

  function SetNextLevel(kernel: bool, ptr: bv64, persistent: bool): bv64 {
    ptr | (TypePermissions(persistent) | IntermediatePermissions(kernel))
  }

  function LeafFlags(kernel: bool, persistent: bool, perm: Permission, level: nat): bv64 {
    TypePermissions(persistent) | LeafPermissions(kernel, perm) | LeafPageSize(level)
  }

  function SetLeaf(kernel: bool, addr: bv64, persistent: bool, perm: Permission, level: nat): bv64 {
    addr | LeafFlags(kernel, persistent, perm, level)
  }

  predicate IsPersistent(raw: bv64) {
    raw & TypePermissions(true) == TypePermissions(true)
  }

  predicate IsLargeMapping(raw: bv64) {
    raw & PTE_PAGESIZE != 0
  }

  function NextLevel(raw: bv64): bv64 {
    raw & ADDRESS_MASK
  }

  /** An address that an entry can hold: 4 KiB aligned and below 2^52. */
  predicate Encodable(addr: bv64) {
    addr & PERMISSION_MASK == 0
  }

  /** The raw value and the field view hold the same flags. */
  ghost predicate SameFlags(raw: bv64, e: Entry) {
    && (raw & PTE_PRESENT != 0 <==> e.present)
    && (raw & PTE_WRITABLE != 0 <==> e.writable)
    && (raw & PTE_USER != 0 <==> e.user)
    && (IsLargeMapping(raw) <==> e.large)
    && (IsPersistent(raw) <==> e.persistent)
  }

  /**
  Where the processor looks (tables 4-14 to 4-20 of the Intel SDM Volume 3A): present is bit 0,
  writable bit 1, user bit 2, page size bit 7 and global bit 8; bits 12 to 51 hold the address.
  */
  ghost predicate Bit(raw: bv64, i: nat)
    requires i < 64
  {
    (raw >> i) & 1 == 1
  }

  lemma PresentIsBit0(raw: bv64)
    ensures raw & PTE_PRESENT != 0 <==> Bit(raw, 0)
  {
  }

  lemma WritableIsBit1(raw: bv64)
    ensures raw & PTE_WRITABLE != 0 <==> Bit(raw, 1)
  {
  }

  lemma UserIsBit2(raw: bv64)
    ensures raw & PTE_USER != 0 <==> Bit(raw, 2)
  {
  }

  lemma LargeIsBit7(raw: bv64)
    ensures IsLargeMapping(raw) <==> Bit(raw, 7)
  {
  }

  lemma GlobalIsBit8(raw: bv64)
    ensures IsPersistent(raw) <==> Bit(raw, 8)
  {
  }

  lemma AddressIsBits12To51(raw: bv64)
    ensures NextLevel(raw) == ((raw >> 12) & 0xFF_FFFF_FFFF) << 12
  {
  }

  lemma EncodableIsAddress(raw: bv64)
    ensures Encodable(raw) <==> NextLevel(raw) == raw
  {
  }

  /** The processor reads the fields of the abstract entry. */
  lemma ProcessorReads(raw: bv64, addr: bv64, e: Entry)
    requires Encodes(raw, addr, e)
    ensures (Bit(raw, 0) <==> e.present) && (Bit(raw, 1) <==> e.writable) && (Bit(raw, 2) <==> e.user)
    ensures (Bit(raw, 7) <==> e.large) && (Bit(raw, 8) <==> e.persistent)
    ensures addr == ((raw >> 12) & 0xFF_FFFF_FFFF) << 12 && e.addr == addr as nat
  {
    PresentIsBit0(raw);
    WritableIsBit1(raw);
    UserIsBit2(raw);
    LargeIsBit7(raw);
    GlobalIsBit8(raw);
    AddressIsBits12To51(raw);
  }

  /** Flags that avoid the address bits and read as the field view. */
  ghost predicate FlagsOf(flags: bv64, e: Entry) {
    flags & ADDRESS_MASK == 0 && SameFlags(flags, e)
  }

  ghost predicate Stores(raw: bv64, addr: bv64, e: Entry, page: nat) {
    NextLevel(raw) == addr && e.addr == page && SameFlags(raw, e)
  }

  /** The raw value and the field view hold the same flags and the same address. */
  ghost predicate Encodes(raw: bv64, addr: bv64, e: Entry) {
    Stores(raw, addr, e, addr as nat)
  }

  /** A stored node pointer reads back unchanged and carries the expected flags. */
  lemma NextLevelRoundTrip(kernel: bool, ptr: bv64, persistent: bool)
    requires Encodable(ptr)
    ensures Encodes(SetNextLevel(kernel, ptr, persistent), ptr, NextLevelEntry(kernel, ptr as nat, persistent))
  {
    NextLevelStored(kernel, ptr, persistent, ptr as nat);
  }

  lemma NextLevelStored(kernel: bool, ptr: bv64, persistent: bool, node: nat)
    requires Encodable(ptr)
    ensures Stores(SetNextLevel(kernel, ptr, persistent), ptr, NextLevelEntry(kernel, node, persistent), node)
  {
    var flags := TypePermissions(persistent) | IntermediatePermissions(kernel);
    assert FlagsOf(flags, NextLevelEntry(kernel, node, persistent));
    AddressLeavesFlags(SetNextLevel(kernel, ptr, persistent), ptr, flags, NextLevelEntry(kernel, node, persistent));
  }

  /** The flags of a leaf are those its permission, type and level ask for. */
  lemma LeafFlagsView(kernel: bool, persistent: bool, perm: Permission, level: nat, page: nat)
    ensures FlagsOf(LeafFlags(kernel, persistent, perm, level), LeafEntry(kernel, page, perm, persistent, level))
  {
  }

  /** A stored leaf reads back its address and the flags of the abstract entry. */
  lemma LeafRoundTrip(kernel: bool, addr: bv64, persistent: bool, perm: Permission, level: nat)
    requires Encodable(addr)
    ensures Encodes(SetLeaf(kernel, addr, persistent, perm, level), addr,
                    LeafEntry(kernel, addr as nat, perm, persistent, level))
  {
    LeafStored(kernel, addr, persistent, perm, level, addr as nat);
  }

  lemma LeafStored(kernel: bool, addr: bv64, persistent: bool, perm: Permission, level: nat, page: nat)
    requires Encodable(addr)
    ensures Stores(SetLeaf(kernel, addr, persistent, perm, level), addr,
                   LeafEntry(kernel, page, perm, persistent, level), page)
  {
    LeafFlagsView(kernel, persistent, perm, level, page);
    AddressLeavesFlags(SetLeaf(kernel, addr, persistent, perm, level), addr, LeafFlags(kernel, persistent, perm, level),
                       LeafEntry(kernel, page, perm, persistent, level));
  }

  lemma AddressBits(addr: bv64, flags: bv64)
    requires Encodable(addr) && flags & ADDRESS_MASK == 0
    ensures NextLevel(addr | flags) == addr
  {
  }

  lemma PresentBit(addr: bv64, flags: bv64)
    requires Encodable(addr)
    ensures (addr | flags) & PTE_PRESENT != 0 <==> flags & PTE_PRESENT != 0
  {
  }

  lemma WritableBit(addr: bv64, flags: bv64)
    requires Encodable(addr)
    ensures (addr | flags) & PTE_WRITABLE != 0 <==> flags & PTE_WRITABLE != 0
  {
  }

  lemma UserBit(addr: bv64, flags: bv64)
    requires Encodable(addr)
    ensures (addr | flags) & PTE_USER != 0 <==> flags & PTE_USER != 0
  {
  }

  lemma PageSizeBit(addr: bv64, flags: bv64)
    requires Encodable(addr)
    ensures IsLargeMapping(addr | flags) <==> IsLargeMapping(flags)
  {
  }

  lemma GlobalBit(addr: bv64, flags: bv64)
    requires Encodable(addr)
    ensures IsPersistent(addr | flags) <==> IsPersistent(flags)
  {
  }

  /** Combining flags with an address changes neither. */
  lemma AddressLeavesFlags(raw: bv64, addr: bv64, flags: bv64, e: Entry)
    requires raw == addr | flags && Encodable(addr) && FlagsOf(flags, e)
    ensures Stores(raw, addr, e, e.addr)
  {
    AddressBits(addr, flags);
    PresentBit(addr, flags);
    WritableBit(addr, flags);
    UserBit(addr, flags);
    PageSizeBit(addr, flags);
    GlobalBit(addr, flags);
  }
}
