/** Result shapes shared by the page-table model.

    The kernel's functions either return a Rust `Result` or panic (a failed
    `assert!`, an `unwrap` of `None` or of a null pointer).  A panic halts the
    hart, so it is modelled as a third, terminal outcome rather than hidden
    behind a precondition. */
module Outcomes {

  datatype Option<+T> = None | Some(value: T)

  /** `Ok`/`Err` are the source's `Result`; `Panic` is an abort. */
  datatype Outcome<+T> = Ok(value: T) | Err(msg: string) | Panic(reason: string)
}
