/** The meaning of the R, W and X fields of a page-table entry, as tabulated
    in the Sv39 entry layout comment (section 4.3.1 of the RISC-V Privileged
    Architecture, "Encoding of PTE R/W/X fields").  Both snapshots of the
    entry type are compared against this table. */
module PteEncoding {

  datatype Meaning =
    | NextLevel        // X=0 W=0 R=0: pointer to the next level of page table
    | ReadOnly         // X=0 W=0 R=1
    | ReservedEncoding // X=0 W=1 R=0, and X=1 W=1 R=0
    | ReadWrite        // X=0 W=1 R=1
    | ExecuteOnly      // X=1 W=0 R=0
    | ReadExecute      // X=1 W=0 R=1
    | ReadWriteExecute // X=1 W=1 R=1

  /** One row of the table per combination of the three flags. */
  function Decode(x: bool, w: bool, r: bool): Meaning
  {
    match (x, w, r)
    case (false, false, false) => NextLevel
    case (false, false, true) => ReadOnly
    case (false, true, false) => ReservedEncoding
    case (false, true, true) => ReadWrite
    case (true, false, false) => ExecuteOnly
    case (true, false, true) => ReadExecute
    case (true, true, false) => ReservedEncoding
    case (true, true, true) => ReadWriteExecute
  }

  /** A leaf maps usable memory: any meaning other than a pointer or a reserved code. */
  predicate IsPageMeaning(m: Meaning)
  {
    m != NextLevel && m != ReservedEncoding
  }
}
