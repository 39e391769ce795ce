/** Machine integers, nullable pointers and the Option/Result wrappers shared by every
    part of the model. Integers are unbounded in Dafny; the source's fixed widths are
    subset types and every wrap-around is written out where it happens. */
module Common {

  const U32Limit: int := 0x1_0000_0000
  const U32Max: int := 0xFFFF_FFFF
  const UsizeLimit: int := 0x1_0000_0000_0000_0000

  type u8 = x: int | 0 <= x < 0x100
  type u32 = x: int | 0 <= x < 0x1_0000_0000
  type i32 = x: int | -0x8000_0000 <= x < 0x8000_0000
  /** `usize` on the 64-bit targets the host runs on. */
  type usize = x: int | 0 <= x < 0x1_0000_0000_0000_0000

  /** A raw C pointer: null, or a non-null one. `addr` is an abstract name for the
      object pointed at, not a machine address, so `At(0)` is as non-null as any
      other `At`; only `Null` stands for the null pointer. */
  datatype Ptr = Null | At(addr: nat)

  datatype Option<+T> = None | Some(value: T)

  /** Rust's `Result`; `Unit` stands for the `()` payload. */
  datatype Result<+R, +E> = Ok(value: R) | Err(error: E)

  datatype Unit = Unit

  /** `opt.map_or(ptr::null(), |x| x.ptr)`: an absent optional argument is passed as null. */
  function PtrOrNull(o: Option<Ptr>): (p: Ptr)
    ensures o.None? ==> p == Null
    ensures o.Some? ==> p == o.value
  {
    match o
    case None => Null
    case Some(q) => q
  }
}
