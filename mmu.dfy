/** `src/mmu.rs`: identity-mapping a range of addresses by calling the
    `sv39.rs` mapping routine once per address.

    The range bounds are `usize` values; the loop only compares and counts
    them, so here they are integers in the `usize` range and each address
    is converted to a machine word where it is handed to `map`. */
module Mmu {
  import opened Outcomes
  import opened Sv39

  /** The values of a 64-bit `usize`. */
  type Usize = x: int | 0 <= x < 0x1_0000_0000_0000_0000

  /** The root slot `map` rewrites for the address `a`: its VPN[2]. */
  function RootSlot(a: Usize): (slot: nat)
    ensures slot < PageTableNumEntries
  {
    VirtAddr(a as bv64).Slots()[2]
  }

  /** The page tables after `map(a, a, root)` for every `a` in
      `start..end`, in increasing order: each step zeroes the root slot of
      one address.  An empty range (`start >= end`) changes nothing. */
  function Cleared(tables: map<PhysAddr, Table>, root: PhysAddr, start: Usize, end: Usize): (s: map<PhysAddr, Table>)
    requires root in tables
    ensures s.Keys == tables.Keys
    ensures forall b :: b in tables && b != root ==> s[b] == tables[b]
    decreases end - start
  {
    if start >= end then tables
    else Store(Cleared(tables, root, start, end - 1), root, RootSlot(end - 1), 0)
  }

  /** One more address at the end of the range is one more `map`. */
  lemma ClearedStep(tables: map<PhysAddr, Table>, root: PhysAddr, start: Usize, addr: Usize)
    requires root in tables && start <= addr < 0xffff_ffff_ffff_ffff
    ensures Cleared(tables, root, start, addr + 1) == Store(Cleared(tables, root, start, addr), root, RootSlot(addr), 0)
  {
  }

  /** Every address of the range has its root slot zeroed. */
  lemma {:induction false} RegionSlotsZeroed(tables: map<PhysAddr, Table>, root: PhysAddr, start: Usize, end: Usize, a: Usize)
    requires root in tables && start <= a < end
    ensures TableAt(Cleared(tables, root, start, end), root)[RootSlot(a)] == 0
    decreases end - start
  {
    var last: Usize := end - 1;
    var prev := Cleared(tables, root, start, last);
    ClearedStep(tables, root, start, last);
    if a < last {
      RegionSlotsZeroed(tables, root, start, last, a);
      ZeroSurvivesStore(prev, root, RootSlot(last), RootSlot(a));
    } else {
      assert a == last;
    }
  }

  /** Zeroing a slot leaves every zero slot zero. */
  lemma ZeroSurvivesStore(tables: map<PhysAddr, Table>, root: PhysAddr, i: nat, j: nat)
    requires root in tables && i < PageTableNumEntries && j < PageTableNumEntries
    requires TableAt(tables, root)[j] == 0
    ensures TableAt(Store(tables, root, i, 0), root)[j] == 0
  {
  }

  /** A root slot that no address of the range selects keeps its entry. */
  lemma {:induction false} OtherSlotsKept(tables: map<PhysAddr, Table>, root: PhysAddr, start: Usize, end: Usize, j: nat)
    requires root in tables && j < PageTableNumEntries
    requires forall a: Usize :: start <= a < end ==> RootSlot(a) != j
    ensures TableAt(Cleared(tables, root, start, end), root)[j] == TableAt(tables, root)[j]
    decreases end - start
  {
    if start < end {
      var last: Usize := end - 1;
      ClearedStep(tables, root, start, last);
      assert RootSlot(last) != j;
      OtherSlotsKept(tables, root, start, last, j);
    }
  }

  /** After mapping the region, translating any of its addresses from the
      root fails at the root: the identity mapping `memory_map_region` is
      meant to set up is never established. */
  lemma RegionTranslationsFail(tables: map<PhysAddr, Table>, root: PhysAddr, start: Usize, end: Usize, a: Usize)
    requires root in tables && start <= a < end
    ensures var after := Cleared(tables, root, start, end);
      Translate(after, TableAt(after, root), VirtAddr(a as bv64)) == Err(HitInvalidPage)
  {
    var after := Cleared(tables, root, start, end);
    RegionSlotsZeroed(tables, root, start, end, a);
    InvalidEntryFails(after, TableAt(after, root), VirtAddr(a as bv64).Slots(), VirtAddr(a as bv64), 2);
  }

  /** `memory_map_region`: `map(addr, addr, root_table).unwrap()` for every
      `addr` in `start..end`.  The `unwrap` never fires, because `map`
      always returns `Ok`. */
  method MemoryMapRegion(start: Usize, end: Usize, rootTable: PhysAddr, m: PhysicalMemory)
    requires m.Valid() && rootTable in m.tables
    modifies m
    ensures m.Valid()
    ensures m.free == old(m.free)
    ensures m.tables == Cleared(old(m.tables), rootTable, start, end)
    ensures start >= end ==> m.tables == old(m.tables)
  {
    ghost var before := m.tables;
    if start < end {
      for addr := start to end
        invariant m.Valid() && m.free == old(m.free)
        invariant rootTable in m.tables
        invariant m.tables == Cleared(before, rootTable, start, addr)
      {
        ClearedStep(before, rootTable, start, addr);
        assert RootSlot(addr) == VirtAddr(addr as bv64).Slots()[2];
        var res := m.Map(addr as bv64, addr as bv64, rootTable);
        assert res.Ok?;
      }
    }
  }
}
