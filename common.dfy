/** Types shared by the three lock components. */
module Common {

  datatype Option<T> = None | Some(value: T)

  /** The backend exceptions the lock classes let propagate to their callers. */
  datatype Fault =
    | InvalidExpireTime  // Redis rejects SET ... EX with an expiry that is not positive
    | NodeExists         // ZooKeeper refuses to create a path that is already live
    | NoNode             // ZooKeeper refuses to delete a path that is not live

  /** A Java call that either returns a value or throws one of the faults above. */
  datatype Result<T> = Ok(value: T) | Err(fault: Fault)

  /** Java's `int`. */
  type Int32 = x: int | -0x8000_0000 <= x < 0x8000_0000

  function Min(a: int, b: int): int { if a <= b then a else b }
}
