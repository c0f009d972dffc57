/** The Sv39 page-table core of `src/mmu/sv39.rs`: virtual-address
    decomposition, the bit-packed page-table entry, the three-level
    translation walk and the mapping routine.

    `usize` is the 64-bit machine word, so every address and entry is a
    `bv64` and every shift loses high bits exactly as the Rust shift does.
    Physical memory is abstracted to the page-table pages it holds, indexed
    by physical address; a branch entry is followed by looking its target
    address up there instead of casting it to a reference. */
module Sv39 {
  import opened Outcomes
  import PteEncoding

  const PageTableNumEntries: nat := 512
  const NumLevels: int := 3

  /** The low eight flag bits of an entry. */
  datatype PteBits = Valid | Read | Write | Execute | UserMode | Globe | Accessed | Dirty {
    function Val(): (b: bv64)
      ensures b < 0x100
    {
      match this
      case Valid => 1
      case Read => 2
      case Write => 4
      case Execute => 8
      case UserMode => 0x10
      case Globe => 0x20
      case Accessed => 0x40
      case Dirty => 0x80
    }
  }

  /** A physical address used as the key of a page-table page. */
  datatype PhysAddr = PhysAddr(bits: bv64)

  /** The contents of one page-table page: 512 eight-byte entries. */
  type Table = t: seq<bv64> | |t| == PageTableNumEntries witness seq(512, _ => 0)

  /** Three table indices, one per level. */
  predicate IsSlots(vpn: seq<nat>)
  {
    |vpn| == 3 && forall k :: 0 <= k < 3 ==> vpn[k] < PageTableNumEntries
  }

  /** A zero-filled page, as `zero_allocate_pages` returns it. */
  function ZeroTable(): Table
  {
    seq(PageTableNumEntries, _ => 0)
  }

  const DepthNegative := "depth reached negative before leaf found"
  const HitInvalidPage := "hit invalid page"
  const MisalignedSuperpage := "misaligned superpage"

  // Reasons for a panic (a failed assert!, or an unwrap that fails).
  const ReservedEntry := "assert_not_reserved: reserved R/W/X encoding"
  const NullTable := "unwrap: branch entry points at address 0"
  const UnmodelledTable := "branch entry points outside the modelled page-table pages"
  const AllocationFailed := "unwrap: zero_allocate_pages returned None"
  const NewEntryMismatch := "assert: new entry does not point at the new page"

  datatype VirtAddr = VirtAddr(bits: bv64) {

    /** VPN[0], VPN[1] and VPN[2], the 9-bit table indices of levels 0, 1, 2.
        Together with the page offset they make up the 39 translated bits. */
    function GetVpn(): (vpn: seq<bv64>)
      ensures |vpn| == 3
      ensures forall k :: 0 <= k < 3 ==> vpn[k] < 0x200
    {
      var nineOnes: bv64 := 0x1ff;
      [(bits >> 12) & nineOnes, (bits >> 21) & nineOnes, (bits >> 30) & nineOnes]
    }

    /** The same slices as table indices. */
    function Slots(): (vpn: seq<nat>)
      ensures IsSlots(vpn)
      ensures forall k :: 0 <= k < 3 ==> vpn[k] == GetVpn()[k] as int
    {
      var v := GetVpn();
      [v[0] as int, v[1] as int, v[2] as int]
    }

    /** Meant to be the 27-bit virtual page number; the `|` makes its low 27
        bits all ones whatever the address, and keeps the bits above 38. */
    function GetWholeVpn(): (vpn: bv64)
      ensures vpn & 0x7ff_ffff == 0x7ff_ffff
      ensures vpn >> 27 == bits >> 39
    {
      (bits >> 12) | 0x7ff_ffff
    }

    /** The offset within the 4 KiB page. */
    function GetOffset(): (offset: bv64)
      ensures offset < 0x1000
    {
      bits & 0xfff
    }
  }

  /** The three VPN slices and the page offset are the 39 translated bits
      of the address: put back in place they rebuild its low 39 bits. */
  lemma VirtAddrRecomposes(bits: bv64)
    ensures var v := VirtAddr(bits).GetVpn();
      (v[2] << 30) | (v[1] << 21) | (v[0] << 12) | VirtAddr(bits).GetOffset() == bits & 0x7f_ffff_ffff
  {
    SlicesRecompose(bits);
  }

  lemma SlicesRecompose(b: bv64)
    ensures (((b >> 30) & 0x1ff) << 30) | (((b >> 21) & 0x1ff) << 21) | (((b >> 12) & 0x1ff) << 12) | (b & 0xfff)
         == b & 0x7f_ffff_ffff
  {
  }

  datatype Pte = Pte(bits: bv64) {

    /** Combines the shifted argument with the flags by `&`: the shifted
        value has ten clear low bits and the flags fit in eight, so every
        entry built here is zero, hence invalid and never reserved, and the
        `assert_not_reserved` check cannot fire. */
    static function New(ppn: bv64, protectionBits: bv64): (pte: Pte)
      requires protectionBits < 0x100
      ensures pte.bits == 0
      ensures !pte.IsValid() && !pte.IsReserved()
    {
      var out := Pte((ppn << 10) & protectionBits);
      assert !out.IsReserved();
      out
    }

    /** PPN[0], PPN[1] (9 bits each) and PPN[2] (26 bits). */
    function GetPpn(): (ppn: seq<bv64>)
      ensures |ppn| == 3
      ensures ppn[0] < 0x200 && ppn[1] < 0x200 && ppn[2] < 0x400_0000
      ensures ppn[0] | (ppn[1] << 9) | (ppn[2] << 18) == GetWholePpn()
    {
      var nineOnes: bv64 := 0x1ff;
      var twentySixOnes: bv64 := 0x3ff_ffff;
      [(bits >> 10) & nineOnes, (bits >> 19) & nineOnes, (bits >> 28) & twentySixOnes]
    }

    /** The 44-bit physical page number held in bits 10..53. */
    function GetWholePpn(): (ppn: bv64)
      ensures ppn < 0x1000_0000_0000
    {
      (bits >> 10) & 0xfff_ffff_ffff
    }

    /** The page-aligned physical address the entry points at. */
    function GetPhysicalAddr(): (addr: bv64)
      ensures addr >> 12 == GetWholePpn()
      ensures addr & 0xfff == 0
    {
      GetWholePpn() << 12
    }

    predicate IsValid() { bits & PteBits.Valid.Val() != 0 }
    predicate IsRead() { bits & PteBits.Read.Val() != 0 }
    predicate IsWrite() { bits & PteBits.Write.Val() != 0 }
    predicate IsExecute() { bits & PteBits.Execute.Val() != 0 }

    predicate IsBranch() { !(IsRead() || IsWrite() || IsExecute()) }
    predicate IsLeaf() { !IsBranch() }
    predicate IsReserved() { IsWrite() && !IsRead() }

    /** The row of the R/W/X encoding table this entry falls in. */
    function Meaning(): PteEncoding.Meaning
    {
      PteEncoding.Decode(IsExecute(), IsWrite(), IsRead())
    }
  }

  /** The three predicates agree with the R/W/X encoding table: a branch is
      exactly the "pointer to next level" row, a reserved entry exactly one
      of the two reserved rows, and a non-reserved leaf exactly a page. */
  lemma ClassificationMatchesEncodingTable(pte: Pte)
    ensures pte.IsBranch() <==> pte.Meaning() == PteEncoding.NextLevel
    ensures pte.IsReserved() <==> pte.Meaning() == PteEncoding.ReservedEncoding
    ensures pte.IsLeaf() <==> !pte.IsBranch()
    ensures pte.IsLeaf() && !pte.IsReserved() <==> PteEncoding.IsPageMeaning(pte.Meaning())
  {
  }

  // ---------------------------------------------------------------------
  // Translation

  /** The superpage alignment check: some PPN slice below `depth` is set. */
  predicate IsMisaligned(ppn: seq<bv64>, depth: int)
    requires 0 <= depth <= |ppn|
  {
    exists i :: 0 <= i < depth && ppn[i] != 0
  }

  /** `(1 << (9 * depth)) - 1`: the page-number bits covered by a leaf at
      `depth`, written out for the three levels. */
  function VpnMask(depth: int): (mask: bv64)
    requires 0 <= depth < NumLevels
  {
    if depth == 0 then 0 else if depth == 1 then 0x1ff else 0x3ffff
  }

  /** The written-out masks are the source's `(1 << (9 * depth)) - 1`. */
  lemma VpnMaskIsLowOnes(depth: int)
    requires 0 <= depth < NumLevels
    ensures VpnMask(depth) == ((1 as bv64) << (9 * depth)) - 1
  {
  }

  /** The address a leaf at `depth` yields.  Because `GetWholeVpn` has its
      low 27 bits set, the virtual page bits below the leaf are replaced by
      ones instead of being copied from the address. */
  function LeafAddress(pte: Pte, va: VirtAddr, depth: int): (pa: bv64)
    requires 0 <= depth < NumLevels
    ensures pa == ((pte.GetWholePpn() | VpnMask(depth)) << 12) | va.GetOffset()
  {
    WholeVpnCoversMask(va, depth);
    ((pte.GetWholePpn() | (va.GetWholeVpn() & VpnMask(depth))) << 12) | va.GetOffset()
  }

  /** The low 27 bits of `GetWholeVpn` are set, so masking it with any
      level's mask gives the mask itself. */
  lemma WholeVpnCoversMask(va: VirtAddr, depth: int)
    requires 0 <= depth < NumLevels
    ensures va.GetWholeVpn() & VpnMask(depth) == VpnMask(depth)
  {
    var w := va.GetWholeVpn();
    if depth == 1 {
      assert w & 0x1ff == (w & 0x7ff_ffff) & 0x1ff;
    } else if depth == 2 {
      assert w & 0x3ffff == (w & 0x7ff_ffff) & 0x3ffff;
    }
  }

  /** A valid, non-reserved, aligned leaf ends the walk with its address. */
  lemma WalkAtLeaf(mem: map<PhysAddr, Table>, table: Table, vpn: seq<nat>, va: VirtAddr, depth: int)
    requires IsSlots(vpn) && 0 <= depth < NumLevels
    requires var pte := Pte(table[vpn[depth]]);
      pte.IsValid() && !pte.IsReserved() && pte.IsLeaf() && !IsMisaligned(pte.GetPpn(), depth)
    ensures Walk(mem, table, vpn, va, depth) == Ok(LeafAddress(Pte(table[vpn[depth]]), va, depth))
  {
  }

  /** An aligned superpage has no PPN bit under the level's mask. */
  lemma AlignedPpnClearsMask(pte: Pte, depth: int)
    requires 0 <= depth < NumLevels
    requires !IsMisaligned(pte.GetPpn(), depth)
    ensures pte.GetWholePpn() & VpnMask(depth) == 0
  {
    var b := pte.bits;
    if depth >= 1 {
      assert pte.GetPpn()[0] == 0;
      if depth == 1 {
        LowPpnSliceClear(b);
      } else {
        assert pte.GetPpn()[1] == 0;
        LowPpnSlicesClear(b);
      }
    }
  }

  lemma LowPpnSliceClear(b: bv64)
    requires (b >> 10) & 0x1ff == 0
    ensures ((b >> 10) & 0xfff_ffff_ffff) & 0x1ff == 0
  {
  }

  lemma LowPpnSlicesClear(b: bv64)
    requires (b >> 10) & 0x1ff == 0 && (b >> 19) & 0x1ff == 0
    ensures ((b >> 10) & 0xfff_ffff_ffff) & 0x3ffff == 0
  {
  }

  /** A page number shifted into place shares no bit with a page offset. */
  lemma PageNumberClearOfOffset(pageNumber: bv64, offset: bv64)
    requires offset < 0x1000
    ensures (pageNumber << 12) & offset == 0
    ensures ((pageNumber << 12) | offset) & 0xfff == offset
  {
  }

  /** The translation walk as a specification: look up slot `vpn[depth]`
      of `table`, descend through branches, and stop at the first invalid
      entry, reserved entry, unusable pointer or leaf.  The slots are a
      parameter of their own so that the walk's properties hold for any
      indices; `Translate` supplies those of the address. */
  function Walk(mem: map<PhysAddr, Table>, table: Table, vpn: seq<nat>, va: VirtAddr, depth: int): Outcome<bv64>
    requires IsSlots(vpn) && depth < NumLevels
    decreases depth + 1
  {
    if depth < 0 then Err(DepthNegative)
    else
      var pte := Pte(table[vpn[depth]]);
      if !pte.IsValid() then Err(HitInvalidPage)
      else if pte.IsReserved() then Panic(ReservedEntry)
      else if pte.IsBranch() then
        var next := pte.GetPhysicalAddr();
        if next == 0 then Panic(NullTable)
        else if PhysAddr(next) !in mem then Panic(UnmodelledTable)
        else Walk(mem, mem[PhysAddr(next)], vpn, va, depth - 1)
      else if IsMisaligned(pte.GetPpn(), depth) then Err(MisalignedSuperpage)
      else Ok(LeafAddress(pte, va, depth))
  }

  /** The walk of `va` from the root at level `NUM_LEVELS - 1`. */
  function Translate(mem: map<PhysAddr, Table>, root: Table, va: VirtAddr): Outcome<bv64>
  {
    Walk(mem, root, va.Slots(), va, NumLevels - 1)
  }

  /** The superpage alignment loop of `virt_to_phys_rec`: succeeds exactly
      when PPN[0] .. PPN[depth - 1] are all zero. */
  method SuperpageAligned(ppn: seq<bv64>, depth: int) returns (aligned: bool)
    requires 0 < depth <= |ppn|
    ensures aligned <==> !IsMisaligned(ppn, depth)
  {
    for i := 0 to depth
      invariant forall j :: 0 <= j < i ==> ppn[j] == 0
    {
      if ppn[i] != 0 {
        return false;
      }
    }
    return true;
  }

  /** `virt_to_phys_rec`: the walk as the kernel runs it, with the
      superpage check as a loop and the two internal assertions, which the
      proof shows can never fail. */
  method VirtToPhysRec(va: VirtAddr, root: Table, mem: map<PhysAddr, Table>, depth: int) returns (r: Outcome<bv64>)
    requires depth < NumLevels
    ensures r == Walk(mem, root, va.Slots(), va, depth)
    decreases depth + 1
  {
    if depth < 0 {
      return Err(DepthNegative);
    }
    var vpn := va.GetVpn();
    var currPte := Pte(root[vpn[depth] as int]);

    assert currPte == Pte(root[va.Slots()[depth]]);

    if !currPte.IsValid() {
      InvalidEntryFails(mem, root, va.Slots(), va, depth);
      return Err(HitInvalidPage);
    }
    if currPte.IsReserved() {
      ReservedEntryPanics(mem, root, va.Slots(), va, depth);
      return Panic(ReservedEntry);
    }

    if currPte.IsBranch() {
      var next := currPte.GetPhysicalAddr();
      if next == 0 {
        return Panic(NullTable);
      }
      if PhysAddr(next) !in mem {
        return Panic(UnmodelledTable);
      }
      r := VirtToPhysRec(va, mem[PhysAddr(next)], mem, depth - 1);
      return;
    }

    assert currPte.IsLeaf();

    if depth > 0 {
      var aligned := SuperpageAligned(currPte.GetPpn(), depth);
      if !aligned {
        return Err(MisalignedSuperpage);
      }
    }
    assert !IsMisaligned(currPte.GetPpn(), depth);

    var pa := LeafPageAddress(currPte, va, depth);
    r := Ok(pa);
    WalkAtLeaf(mem, root, va.Slots(), va, depth);
  }

  /** The tail of `virt_to_phys_rec` for an aligned leaf: the page number
      from the entry's PPN and the address's VPN bits below the leaf, then
      the page offset.  Both `assert!`s of the source hold. */
  method LeafPageAddress(pte: Pte, va: VirtAddr, depth: int) returns (pa: bv64)
    requires 0 <= depth < NumLevels
    requires !IsMisaligned(pte.GetPpn(), depth)
    ensures pa == LeafAddress(pte, va, depth)
  {
    var vpnMask: bv64 := (1 << (9 * depth)) - 1;
    VpnMaskIsLowOnes(depth);
    var ppnBits := pte.GetWholePpn();
    var vpnBits := va.GetWholeVpn() & vpnMask;
    WholeVpnCoversMask(va, depth);
    AlignedPpnClearsMask(pte, depth);
    assert ppnBits & vpnBits == 0;
    var pageNumber := ppnBits | vpnBits;
    var pageAddr := pageNumber << 12;
    var pageOffset := va.GetOffset();
    PageNumberClearOfOffset(pageNumber, pageOffset);
    assert pageAddr & pageOffset == 0;
    pa := pageAddr | pageOffset;
  }

  /** `virt_to_phys`. */
  method VirtToPhys(va: bv64, root: Table, mem: map<PhysAddr, Table>) returns (r: Outcome<bv64>)
    ensures r == Translate(mem, root, VirtAddr(va))
  {
    r := VirtToPhysRec(VirtAddr(va), root, mem, NumLevels - 1);
  }

  /** Every error the walk reports is one of its three messages. */
  lemma {:induction false} WalkErrors(mem: map<PhysAddr, Table>, table: Table, vpn: seq<nat>, va: VirtAddr, depth: int)
    requires IsSlots(vpn) && depth < NumLevels
    ensures Walk(mem, table, vpn, va, depth).Err? ==>
      Walk(mem, table, vpn, va, depth).msg in {DepthNegative, HitInvalidPage, MisalignedSuperpage}
    decreases depth + 1
  {
    if depth >= 0 {
      var pte := Pte(table[vpn[depth]]);
      var next := pte.GetPhysicalAddr();
      if pte.IsValid() && !pte.IsReserved() && pte.IsBranch() && next != 0 && PhysAddr(next) in mem {
        WalkErrors(mem, mem[PhysAddr(next)], vpn, va, depth - 1);
      }
    }
  }

  /** A successful walk keeps the page offset of the virtual address. */
  lemma {:induction false} WalkKeepsOffset(mem: map<PhysAddr, Table>, table: Table, vpn: seq<nat>, va: VirtAddr, depth: int)
    requires IsSlots(vpn) && depth < NumLevels
    ensures Walk(mem, table, vpn, va, depth).Ok? ==>
      Walk(mem, table, vpn, va, depth).value & 0xfff == va.GetOffset()
    decreases depth + 1
  {
    if depth >= 0 {
      var pte := Pte(table[vpn[depth]]);
      var next := pte.GetPhysicalAddr();
      if pte.IsValid() && !pte.IsReserved() {
        if pte.IsBranch() {
          if next != 0 && PhysAddr(next) in mem {
            WalkKeepsOffset(mem, mem[PhysAddr(next)], vpn, va, depth - 1);
          }
        } else if !IsMisaligned(pte.GetPpn(), depth) {
          WalkAtLeaf(mem, table, vpn, va, depth);
          PageNumberClearOfOffset(pte.GetWholePpn() | VpnMask(depth), va.GetOffset());
        }
      }
    }
  }

  /** With the table indices fixed, the result of a walk depends on the
      virtual address only through its page offset: at a superpage leaf the
      low page-number bits come from the all-ones mask, not from the
      address.  `SuperpageBasePagesAgree` drops the lower indices too. */
  lemma {:induction false} WalkIgnoresVpnBits(mem: map<PhysAddr, Table>, table: Table, vpn: seq<nat>, va1: VirtAddr, va2: VirtAddr, depth: int)
    requires IsSlots(vpn) && depth < NumLevels
    requires va1.GetOffset() == va2.GetOffset()
    ensures Walk(mem, table, vpn, va1, depth) == Walk(mem, table, vpn, va2, depth)
    decreases depth + 1
  {
    if depth >= 0 {
      var pte := Pte(table[vpn[depth]]);
      var next := pte.GetPhysicalAddr();
      if pte.IsValid() && !pte.IsReserved() && pte.IsBranch() && next != 0 && PhysAddr(next) in mem {
        WalkIgnoresVpnBits(mem, mem[PhysAddr(next)], vpn, va1, va2, depth - 1);
      } else if pte.IsValid() && !pte.IsReserved() && pte.IsLeaf() {
        SameLeafAddress(pte, va1, va2, depth);
      }
    }
  }

  /** Two base pages of one superpage translate alike: at a leaf, slots
      below the leaf's level are never read and the page-number bits they
      would select are the mask, so addresses that differ only there (and
      share their offset) give the same result. */
  lemma SuperpageBasePagesAgree(mem: map<PhysAddr, Table>, table: Table, vpn1: seq<nat>, vpn2: seq<nat>,
                                va1: VirtAddr, va2: VirtAddr, depth: int)
    requires IsSlots(vpn1) && IsSlots(vpn2) && 0 <= depth < NumLevels
    requires vpn1[depth] == vpn2[depth] && va1.GetOffset() == va2.GetOffset()
    requires var pte := Pte(table[vpn1[depth]]); pte.IsValid() && pte.IsLeaf()
    ensures Walk(mem, table, vpn1, va1, depth) == Walk(mem, table, vpn2, va2, depth)
  {
    SameLeafAddress(Pte(table[vpn1[depth]]), va1, va2, depth);
  }

  lemma SameLeafAddress(pte: Pte, va1: VirtAddr, va2: VirtAddr, depth: int)
    requires 0 <= depth < NumLevels
    requires va1.GetOffset() == va2.GetOffset()
    ensures LeafAddress(pte, va1, depth) == LeafAddress(pte, va2, depth)
  {
  }

  /** An invalid entry in the indexed slot, at any level, is "hit invalid page". */
  lemma InvalidEntryFails(mem: map<PhysAddr, Table>, table: Table, vpn: seq<nat>, va: VirtAddr, depth: int)
    requires IsSlots(vpn) && 0 <= depth < NumLevels
    requires !Pte(table[vpn[depth]]).IsValid()
    ensures Walk(mem, table, vpn, va, depth) == Err(HitInvalidPage)
  {
  }

  /** A valid entry with a reserved R/W/X encoding aborts the walk. */
  lemma ReservedEntryPanics(mem: map<PhysAddr, Table>, table: Table, vpn: seq<nat>, va: VirtAddr, depth: int)
    requires IsSlots(vpn) && 0 <= depth < NumLevels
    requires Pte(table[vpn[depth]]).IsValid() && Pte(table[vpn[depth]]).IsReserved()
    ensures Walk(mem, table, vpn, va, depth) == Panic(ReservedEntry)
  {
  }

  /** A followable branch at level 0 descends past the last level. */
  lemma BranchAtLevelZeroUnderflows(mem: map<PhysAddr, Table>, table: Table, vpn: seq<nat>, va: VirtAddr)
    requires IsSlots(vpn)
    requires var pte := Pte(table[vpn[0]]);
      pte.IsValid() && pte.IsBranch() && pte.GetPhysicalAddr() != 0 && PhysAddr(pte.GetPhysicalAddr()) in mem
    ensures Walk(mem, table, vpn, va, 0) == Err(DepthNegative)
  {
    var pte := Pte(table[vpn[0]]);
    assert Walk(mem, mem[PhysAddr(pte.GetPhysicalAddr())], vpn, va, -1) == Err(DepthNegative);
  }

  /** A leaf at level 0 yields its page with the address's offset. */
  lemma LeafAtLevelZero(mem: map<PhysAddr, Table>, table: Table, vpn: seq<nat>, va: VirtAddr)
    requires IsSlots(vpn)
    requires var pte := Pte(table[vpn[0]]);
      pte.IsValid() && pte.IsLeaf() && !pte.IsReserved()
    ensures Walk(mem, table, vpn, va, 0) == Ok(Pte(table[vpn[0]]).GetPhysicalAddr() | va.GetOffset())
  {
    var pte := Pte(table[vpn[0]]);
    WalkAtLeaf(mem, table, vpn, va, 0);
    LeafAddressAtLevelZero(pte, va);
  }

  lemma LeafAddressAtLevelZero(pte: Pte, va: VirtAddr)
    ensures LeafAddress(pte, va, 0) == pte.GetPhysicalAddr() | va.GetOffset()
  {
    NoMaskAtLevelZero(pte.GetWholePpn(), va.GetOffset());
  }

  lemma NoMaskAtLevelZero(ppn: bv64, offset: bv64)
    ensures ((ppn | VpnMask(0)) << 12) | offset == (ppn << 12) | offset
  {
  }

  /** A superpage leaf whose low PPN slices are not all zero is refused. */
  lemma MisalignedSuperpageFails(mem: map<PhysAddr, Table>, table: Table, vpn: seq<nat>, va: VirtAddr, depth: int, i: int)
    requires IsSlots(vpn) && 0 <= i < depth < NumLevels
    requires var pte := Pte(table[vpn[depth]]);
      pte.IsValid() && pte.IsLeaf() && !pte.IsReserved() && pte.GetPpn()[i] != 0
    ensures Walk(mem, table, vpn, va, depth) == Err(MisalignedSuperpage)
  {
  }

  /** An aligned superpage leaf yields `((ppn | mask) << 12) | offset`. */
  lemma AlignedSuperpageAddress(mem: map<PhysAddr, Table>, table: Table, vpn: seq<nat>, va: VirtAddr, depth: int)
    requires IsSlots(vpn) && 0 < depth < NumLevels
    requires var pte := Pte(table[vpn[depth]]);
      pte.IsValid() && pte.IsLeaf() && !pte.IsReserved() && !IsMisaligned(pte.GetPpn(), depth)
    ensures Walk(mem, table, vpn, va, depth) ==
      Ok(((Pte(table[vpn[depth]]).GetWholePpn() | VpnMask(depth)) << 12) | va.GetOffset())
  {
  }

  // ---------------------------------------------------------------------
  // Mapping

  /** Where `map_rec`'s descent from `table` at `curr` towards `target` stops. */
  datatype Descent =
    | Reached(table: PhysAddr)             // the table at the target level
    | InvalidAt(table: PhysAddr, depth: int) // an invalid entry on the way: allocation
    | BadPointer(reason: string)       // a valid entry whose target cannot be followed

  /** The read-only part of `map_rec`: follow valid entries down to the
      target level, whatever their R/W/X bits (the source does not check). */
  function Descend(tables: map<PhysAddr, Table>, table: PhysAddr, vpn: seq<nat>, curr: int, target: int): (d: Descent)
    requires table in tables && IsSlots(vpn)
    requires 0 <= target <= curr < NumLevels
    ensures d.Reached? ==> d.table in tables
    ensures d.InvalidAt? ==> d.table in tables && target < d.depth <= curr
    ensures d.BadPointer? ==> d.reason in {NullTable, UnmodelledTable}
    decreases curr
  {
    if curr == target then Reached(table)
    else
      var t: Table := tables[table];
      var pte := Pte(t[vpn[curr]]);
      if !pte.IsValid() then InvalidAt(table, curr)
      else
        var next := pte.GetPhysicalAddr();
        if next == 0 then BadPointer(NullTable)
        else if PhysAddr(next) !in tables then BadPointer(UnmodelledTable)
        else Descend(tables, PhysAddr(next), vpn, curr - 1, target)
  }

  /** The table stored at physical address `a`. */
  function TableAt(tables: map<PhysAddr, Table>, a: PhysAddr): Table
    requires a in tables
  {
    tables[a]
  }

  /** `tables` with slot `i` of the table at `a` overwritten by `e`. */
  function Store(tables: map<PhysAddr, Table>, a: PhysAddr, i: nat, e: bv64): (s: map<PhysAddr, Table>)
    requires a in tables && i < PageTableNumEntries
    ensures s.Keys == tables.Keys
    ensures TableAt(s, a)[i] == e
    ensures forall j :: 0 <= j < PageTableNumEntries && j != i ==> TableAt(s, a)[j] == TableAt(tables, a)[j]
    ensures forall b :: b in tables && b != a ==> s[b] == tables[b]
  {
    var updated: Table := TableAt(tables, a)[i := e];
    tables[a := updated]
  }

  /** A page the allocator may hand out: non-null and page-aligned. */
  predicate IsPageAddress(a: bv64)
  {
    a != 0 && a & 0xfff == 0
  }

  /** Physical memory as far as the page-table code sees it: the page-table
      pages by physical address, and the pages `zero_allocate_pages(1)`
      returns, in order. */
  datatype Memory = Memory(tables: map<PhysAddr, Table>, free: seq<bv64>)

  /** The allocator hands out distinct, non-null, page-aligned pages, none
      of which holds a table yet. */
  predicate FreshSupply(m: Memory)
  {
    (forall i :: 0 <= i < |m.free| ==> IsPageAddress(m.free[i]) && PhysAddr(m.free[i]) !in m.tables) &&
    (forall i, j :: 0 <= i < j < |m.free| ==> m.free[i] != m.free[j])
  }

  /** `map_rec` from `table` at level `curr` as a function of memory: the
      outcome and the memory afterwards.  A failed `unwrap` or `assert!`
      stops with `Panic` and the memory as it was at that moment. */
  function MapStep(m: Memory, va: VirtAddr, pa: bv64, table: PhysAddr, target: int, curr: int): (Outcome<()>, Memory)
    requires table in m.tables && 0 <= target <= curr < NumLevels
    decreases curr, 1
  {
    var idx := va.Slots()[curr];
    if curr == target then
      (Ok(()), Memory(Store(m.tables, table, idx, Pte.New(pa << 12, PteBits.Valid.Val()).bits), m.free))
    else
      var pte := Pte(TableAt(m.tables, table)[idx]);
      if pte.IsValid() then MapFollow(m, va, pa, pte, target, curr)
      else if m.free == [] then (Panic(AllocationFailed), m)
      else
        var page := m.free[0];
        var newEntry := Pte.New(page, PteBits.Valid.Val());
        var written := Memory(Store(m.tables[PhysAddr(page) := ZeroTable()], table, idx, newEntry.bits), m.free[1..]);
        if newEntry.GetPhysicalAddr() != page then (Panic(NewEntryMismatch), written)
        else MapFollow(written, va, pa, newEntry, target, curr)
  }

  /** The tail of `map_rec`: follow `pte` to the next level. */
  function MapFollow(m: Memory, va: VirtAddr, pa: bv64, pte: Pte, target: int, curr: int): (Outcome<()>, Memory)
    requires 0 <= target < curr < NumLevels
    decreases curr, 0
  {
    var next := pte.GetPhysicalAddr();
    if next == 0 then (Panic(NullTable), m)
    else if PhysAddr(next) !in m.tables then (Panic(UnmodelledTable), m)
    else MapStep(m, va, pa, PhysAddr(next), target, curr - 1)
  }

  /** What `map_rec` does, by where the descent stops: at the target table
      it clears the slot (the entry it writes is zero); at an invalid entry
      it allocates, clears that slot and panics on the pointer assertion,
      or panics at once when no page is left; at an unusable pointer it
      panics with memory untouched. */
  lemma {:induction false} MapStepFollowsDescent(m: Memory, va: VirtAddr, pa: bv64, table: PhysAddr, target: int, curr: int)
    requires FreshSupply(m) && table in m.tables && 0 <= target <= curr < NumLevels
    ensures var res := MapStep(m, va, pa, table, target, curr);
      match Descend(m.tables, table, va.Slots(), curr, target)
      case Reached(t) =>
        res == (Ok(()), Memory(Store(m.tables, t, va.Slots()[target], 0), m.free))
      case InvalidAt(t, d) =>
        if m.free == [] then res == (Panic(AllocationFailed), m)
        else res == (Panic(NewEntryMismatch), Memory(Store(m.tables[PhysAddr(m.free[0]) := ZeroTable()], t, va.Slots()[d], 0), m.free[1..]))
      case BadPointer(reason) =>
        res == (Panic(reason), m)
    decreases curr
  {
    if curr != target {
      var pte := Pte(TableAt(m.tables, table)[va.Slots()[curr]]);
      if pte.IsValid() {
        var next := pte.GetPhysicalAddr();
        if next != 0 && PhysAddr(next) in m.tables {
          MapStepFollowsDescent(m, va, pa, PhysAddr(next), target, curr - 1);
        }
      } else if m.free != [] {
        assert IsPageAddress(m.free[0]);
      }
    }
  }

  /** `map` on memory: it only clears the root slot VPN[2] and succeeds. */
  lemma MapClearsRootSlot(m: Memory, va: bv64, pa: bv64, root: PhysAddr)
    requires root in m.tables
    ensures MapStep(m, VirtAddr(va), pa, root, 2, 2) ==
      (Ok(()), Memory(Store(m.tables, root, VirtAddr(va).Slots()[2], 0), m.free))
  {
  }

  /** Physical memory as a mutable object, as `map_rec` changes it. */
  class PhysicalMemory {
    var tables: map<PhysAddr, Table>
    var free: seq<bv64>

    function State(): Memory
      reads this
    {
      Memory(tables, free)
    }

    ghost predicate Valid()
      reads this
    {
      FreshSupply(State())
    }

    constructor (m: Memory)
      requires FreshSupply(m)
      ensures Valid() && State() == m
    {
      tables := m.tables;
      free := m.free;
    }

    /** The allocation oracle: the next fresh page, zero-filled, or `None`
        when the supply is exhausted. */
    method ZeroAllocatePage() returns (page: Option<bv64>)
      requires Valid()
      modifies this
      ensures Valid()
      ensures old(free) == [] ==> page == None && tables == old(tables) && free == old(free)
      ensures old(free) != [] ==>
        page == Some(old(free)[0]) && free == old(free)[1..] &&
        tables == old(tables)[PhysAddr(old(free)[0]) := ZeroTable()]
    {
      if free == [] {
        return None;
      }
      page := Some(free[0]);
      tables := tables[PhysAddr(free[0]) := ZeroTable()];
      free := free[1..];
    }

    /** `map_rec`: descend from `table` (at level `currDepth`) to level
        `targetDepth`, writing `Pte::new(pa << 12, Valid)` into slot
        VPN[targetDepth] there, and allocating a table at every invalid
        entry on the way. */
    method MapRec(va: VirtAddr, pa: bv64, table: PhysAddr, targetDepth: int, currDepth: int) returns (r: Outcome<()>)
      requires Valid() && table in tables
      requires 0 <= targetDepth <= currDepth < NumLevels
      modifies this
      ensures Valid()
      ensures (r, State()) == MapStep(old(State()), va, pa, table, targetDepth, currDepth)
      decreases currDepth
    {
      var vpn := va.GetVpn();
      var idx := vpn[currDepth] as int;
      assert idx == va.Slots()[currDepth];

      if currDepth == targetDepth {
        var entry := Pte.New(pa << 12, PteBits.Valid.Val());
        tables := Store(tables, table, idx, entry.bits);
        return Ok(());
      }

      var pte := Pte(TableAt(tables, table)[idx]);
      if !pte.IsValid() {
        var newPage := ZeroAllocatePage();
        if newPage.None? {
          return Panic(AllocationFailed);
        }
        var newEntry := Pte.New(newPage.value, PteBits.Valid.Val());
        tables := Store(tables, table, idx, newEntry.bits);
        pte := newEntry;
        if pte.GetPhysicalAddr() != newPage.value {
          return Panic(NewEntryMismatch);
        }
      }

      var next := pte.GetPhysicalAddr();
      if next == 0 {
        return Panic(NullTable);
      }
      if PhysAddr(next) !in tables {
        return Panic(UnmodelledTable);
      }
      r := MapRec(va, pa, PhysAddr(next), targetDepth, currDepth - 1);
    }

    /** `map`: `map_rec` with target and current depth both 2, so it only
        clears the root slot VPN[2], never allocates, and always succeeds. */
    method Map(va: bv64, pa: bv64, root: PhysAddr) returns (r: Outcome<()>)
      requires Valid() && root in tables
      modifies this
      ensures Valid()
      ensures r == Ok(())
      ensures free == old(free)
      ensures tables == Store(old(tables), root, VirtAddr(va).Slots()[2], 0)
    {
      MapClearsRootSlot(State(), va, pa, root);
      r := MapRec(VirtAddr(va), pa, root, 2, 2);
    }
  }

  /** Translating an address right after `map` cleared its root slot fails:
      the mapping `map` is meant to install is never there. */
  lemma MapThenTranslateFails(tables: map<PhysAddr, Table>, root: PhysAddr, va: bv64)
    requires root in tables
    ensures var after := Store(tables, root, VirtAddr(va).Slots()[2], 0);
      Translate(after, TableAt(after, root), VirtAddr(va)) == Err(HitInvalidPage)
  {
    var slots := VirtAddr(va).Slots();
    var after := Store(tables, root, slots[2], 0);
    InvalidEntryFails(after, TableAt(after, root), slots, VirtAddr(va), 2);
  }
}
