/** The second Sv39 page-table snapshot, `src/mmu/sv39_page_table.rs`:
    its own address and entry types, the page-table object, and
    `create_virtual_to_physical_mapping`, which writes into the root table
    in place. */
module Sv39PageTable {
  import opened Outcomes
  import Sv39
  import PteEncoding

  const PageSize: nat := 4096
  const PageTableNumEntries: nat := 512
  /** `usize` is eight bytes on RV64. */
  const EntryBytes: nat := 8

  const AllocationFailed := "unwrap: allocate_pages returned None"

  /** `size_of::<Sv39PageTable>()`: 512 entries of one `usize` each, which
      the source asserts at compile time to be exactly one page. */
  function SizeOfPageTable(): (n: nat)
    ensures n == PageSize
  {
    PageTableNumEntries * EntryBytes
  }

  /** The low eight flag bits of an entry. */
  datatype EntryBits = V | R | W | X | U | G | A | D {
    function Bits(): (b: bv64)
      ensures b < 0x100
    {
      match this
      case V => 1
      case R => 2
      case W => 4
      case X => 8
      case U => 0x10
      case G => 0x20
      case A => 0x40
      case D => 0x80
    }
  }

  datatype Sv39VirtualAddress = Sv39VirtualAddress(bits: bv64) {

    /** VPN[0], VPN[1], VPN[2]: the table indices of levels 0, 1, 2. */
    function GetVpns(): (vpn: seq<bv64>)
      ensures |vpn| == 3
      ensures forall k :: 0 <= k < 3 ==> vpn[k] < 0x200
    {
      var nineOnes: bv64 := 0x1ff;
      [(bits >> 12) & nineOnes, (bits >> 21) & nineOnes, (bits >> 30) & nineOnes]
    }

    /** The same slices as array indices. */
    function Indices(): (idx: seq<nat>)
      ensures |idx| == 3
      ensures forall k :: 0 <= k < 3 ==> idx[k] < PageTableNumEntries && idx[k] == GetVpns()[k] as int
    {
      var v := GetVpns();
      [v[0] as int, v[1] as int, v[2] as int]
    }
  }

  /** Both snapshots slice a virtual address the same way. */
  lemma VpnsAgreeWithSv39(bits: bv64)
    ensures Sv39VirtualAddress(bits).GetVpns() == Sv39.VirtAddr(bits).GetVpn()
    ensures Sv39VirtualAddress(bits).Indices() == Sv39.VirtAddr(bits).Slots()
  {
  }

  datatype Sv39PageTableEntry = Sv39PageTableEntry(bits: bv64) {

    /** An entry with the given flag byte in bits 0..7 and the physical page
        number of `physicalAddr` from bit 10 up. */
    static function New(protectionBits: bv8, physicalAddr: bv64): (e: Sv39PageTableEntry)
    {
      var ppn := physicalAddr >> 12;
      Sv39PageTableEntry((protectionBits as bv64) | (ppn << 10))
    }

    predicate IsValid() { bits & EntryBits.V.Bits() != 0 }
    predicate CanRead() { bits & EntryBits.R.Bits() != 0 }
    predicate CanWrite() { bits & EntryBits.W.Bits() != 0 }
    predicate CanExecute() { bits & EntryBits.X.Bits() != 0 }
  }

  /** The fields of a new entry, on plain words. */
  lemma NewEntryLayout(p: bv64, pa: bv64)
    requires p < 0x100
    ensures (p | ((pa >> 12) << 10)) & 0xff == p
    ensures (p | ((pa >> 12) << 10)) & 0x300 == 0
    ensures (p | ((pa >> 12) << 10)) >> 10 == pa >> 12
  {
  }

  /** `Sv39PageTableEntry::new` keeps the flag byte, leaves the two RSW
      bits clear and stores the page number of the address. */
  lemma NewEntryFields(protectionBits: bv8, physicalAddr: bv64)
    ensures var e := Sv39PageTableEntry.New(protectionBits, physicalAddr);
      e.bits & 0xff == protectionBits as bv64 &&
      e.bits & 0x300 == 0 &&
      e.bits >> 10 == physicalAddr >> 12
  {
    var p := protectionBits as bv64;
    FlagByteWidens(protectionBits);
    NewEntryLayout(p, physicalAddr);
  }

  lemma FlagByteWidens(b: bv8)
    ensures (b as bv64) < 0x100
  {
  }

  /** Every flag bit of a new entry is the flag bit passed in. */
  lemma NewEntryKeepsFlag(protectionBits: bv8, physicalAddr: bv64, f: EntryBits)
    ensures Sv39PageTableEntry.New(protectionBits, physicalAddr).bits & f.Bits() == (protectionBits as bv64) & f.Bits()
  {
    var b := Sv39PageTableEntry.New(protectionBits, physicalAddr).bits;
    NewEntryFields(protectionBits, physicalAddr);
    FlagWithinByte(b, f.Bits());
  }

  lemma FlagWithinByte(x: bv64, flag: bv64)
    requires flag < 0x100
    ensures x & flag == (x & 0xff) & flag
  {
  }

  /** The flag predicates of a new entry read back the flags passed in. */
  lemma NewEntryFlags(protectionBits: bv8, physicalAddr: bv64)
    ensures var e := Sv39PageTableEntry.New(protectionBits, physicalAddr);
      var p := protectionBits as bv64;
      (e.IsValid() <==> p & EntryBits.V.Bits() != 0) &&
      (e.CanRead() <==> p & EntryBits.R.Bits() != 0) &&
      (e.CanWrite() <==> p & EntryBits.W.Bits() != 0) &&
      (e.CanExecute() <==> p & EntryBits.X.Bits() != 0)
  {
    NewEntryKeepsFlag(protectionBits, physicalAddr, EntryBits.V);
    NewEntryKeepsFlag(protectionBits, physicalAddr, EntryBits.R);
    NewEntryKeepsFlag(protectionBits, physicalAddr, EntryBits.W);
    NewEntryKeepsFlag(protectionBits, physicalAddr, EntryBits.X);
  }

  /** A valid entry is a branch when read with the other snapshot's
      decoder: this snapshot's `new` builds the pointer entry that
      `Pte::new` in `sv39.rs` does not. */
  lemma NewValidEntryIsBranch(physicalAddr: bv64)
    ensures var pte := Sv39.Pte(Sv39PageTableEntry.New(EntryBits.V.Bits() as bv8, physicalAddr).bits);
      pte.IsValid() && pte.IsBranch() && pte.Meaning() == PteEncoding.NextLevel
  {
    var flags := EntryBits.V.Bits() as bv8;
    var b := Sv39PageTableEntry.New(flags, physicalAddr).bits;
    assert b & 0xff == 1 by {
      assert flags == 1;
      NewEntryFields(flags, physicalAddr);
    }
    BranchFlags(b);
  }

  /** ... and it points at exactly the address it was built from, when that
      address is page-aligned and below 2^56. */
  lemma NewEntryPointsAtPage(protectionBits: bv8, physicalAddr: bv64)
    requires physicalAddr & 0xfff == 0 && physicalAddr < 0x100_0000_0000_0000
    ensures Sv39.Pte(Sv39PageTableEntry.New(protectionBits, physicalAddr).bits).GetPhysicalAddr() == physicalAddr
  {
    var b := Sv39PageTableEntry.New(protectionBits, physicalAddr).bits;
    assert b >> 10 == physicalAddr >> 12 by { NewEntryFields(protectionBits, physicalAddr); }
    BranchAddress(b, physicalAddr);
  }

  lemma BranchFlags(b: bv64)
    requires b & 0xff == 1
    ensures var pte := Sv39.Pte(b);
      pte.IsValid() && pte.IsBranch() && pte.Meaning() == PteEncoding.NextLevel
  {
    LowFlags(b);
    assert Sv39.PteBits.Valid.Val() == 1 && Sv39.PteBits.Read.Val() == 2;
    assert Sv39.PteBits.Write.Val() == 4 && Sv39.PteBits.Execute.Val() == 8;
  }

  lemma LowFlags(b: bv64)
    requires b & 0xff == 1
    ensures b & 1 != 0 && b & 2 == 0 && b & 4 == 0 && b & 8 == 0
  {
  }

  lemma BranchAddress(b: bv64, pa: bv64)
    requires pa & 0xfff == 0 && pa < 0x100_0000_0000_0000
    requires b >> 10 == pa >> 12
    ensures Sv39.Pte(b).GetPhysicalAddr() == pa
  {
    PageNumberRoundTrip(b, pa);
  }

  lemma PageNumberRoundTrip(b: bv64, pa: bv64)
    requires pa & 0xfff == 0 && pa < 0x100_0000_0000_0000
    requires b >> 10 == pa >> 12
    ensures ((b >> 10) & 0xfff_ffff_ffff) << 12 == pa
  {
  }

  /** The page-table object: one page of entries, updated in place. */
  class Sv39PageTable {
    const entries: array<Sv39PageTableEntry>

    ghost predicate Valid()
      reads this
    {
      entries.Length == PageTableNumEntries
    }

    constructor (init: seq<Sv39PageTableEntry>)
      requires |init| == PageTableNumEntries
      ensures Valid() && entries[..] == init && fresh(entries)
    {
      entries := new Sv39PageTableEntry[PageTableNumEntries](i requires 0 <= i < |init| => init[i]);
    }
  }

  /** The root table after `create_virtual_to_physical_mapping`: for a
      level below 2 the slot VPN[2] holds a valid entry for the new table;
      for level 2 or more the table is as it was. */
  function RootAfterMapping(entries: seq<Sv39PageTableEntry>, vaddr: bv64, level: bv64, newTable: bv64): (out: seq<Sv39PageTableEntry>)
    requires |entries| == PageTableNumEntries
    ensures |out| == PageTableNumEntries
    ensures forall k :: 0 <= k < PageTableNumEntries && k != Sv39VirtualAddress(vaddr).Indices()[2] ==> out[k] == entries[k]
    ensures level < 2 ==> out[Sv39VirtualAddress(vaddr).Indices()[2]] == Sv39PageTableEntry.New(EntryBits.V.Bits() as bv8, newTable)
    ensures level >= 2 ==> out == entries
  {
    var slot := Sv39VirtualAddress(vaddr).Indices()[2];
    if level < 2 then entries[slot := Sv39PageTableEntry.New(EntryBits.V.Bits() as bv8, newTable)]
    else entries
  }

  /** `create_virtual_to_physical_mapping`.  The allocation is a parameter:
      `None` is a failed `allocate_pages(1)`, whose `unwrap` panics before
      anything is written.  Every loop iteration rewrites the same root
      slot, VPN[2], with a valid entry for the new table; `paddr` (sliced
      into an unused `ppn` array) and `protection_bits` (shadowed in the
      loop) have no effect. */
  method CreateVirtualToPhysicalMapping(root: Sv39PageTable, vaddr: bv64, paddr: bv64, protectionBits: bv8, level: bv64,
                                        newTable: Option<bv64>) returns (r: Outcome<()>)
    requires root.Valid()
    modifies root.entries
    ensures newTable.None? ==> r == Panic(AllocationFailed) && root.entries[..] == old(root.entries[..])
    ensures newTable.Some? ==>
      r == Ok(()) && root.entries[..] == RootAfterMapping(old(root.entries[..]), vaddr, level, newTable.value)
  {
    var vpn := Sv39VirtualAddress(vaddr).GetVpns();

    var nineOnes: bv64 := 0x1ff;
    var twentySixOnes: bv64 := 0x3ff_ffff;
    var ppn := [(paddr >> 12) & nineOnes, (paddr >> 21) & nineOnes, (paddr >> 30) & twentySixOnes];

    if newTable.None? {
      return Panic(AllocationFailed);
    }

    var slot := vpn[2] as int;
    assert slot == Sv39VirtualAddress(vaddr).Indices()[2];
    ghost var before := root.entries[..];
    if level < 2 {
      for i := 2 downto level as int
        invariant root.entries[..] == if i < 2 then before[slot := Sv39PageTableEntry.New(1, newTable.value)] else before
      {
        var bitsV: bv8 := EntryBits.V.Bits() as bv8;
        root.entries[slot] := Sv39PageTableEntry.New(bitsV, newTable.value);
      }
    }
    return Ok(());
  }

  /** After a mapping at a level below 2, the root slot VPN[2] is a pointer
      entry for the freshly allocated table, readable as such by the
      `sv39.rs` translation. */
  lemma MappingLinksNewTable(entries: seq<Sv39PageTableEntry>, vaddr: bv64, level: bv64, newTable: bv64)
    requires |entries| == PageTableNumEntries && level < 2
    requires newTable & 0xfff == 0 && newTable < 0x100_0000_0000_0000
    ensures var slot := RootAfterMapping(entries, vaddr, level, newTable)[Sv39VirtualAddress(vaddr).Indices()[2]];
      Sv39.Pte(slot.bits).IsValid() && Sv39.Pte(slot.bits).IsBranch() && Sv39.Pte(slot.bits).GetPhysicalAddr() == newTable
  {
    NewValidEntryIsBranch(newTable);
    NewEntryPointsAtPage(EntryBits.V.Bits() as bv8, newTable);
  }
}
