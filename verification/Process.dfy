/** Processes as both processors register them. */
module Process {
  import opened Wrappers

  /** ratt_proc_attr_t: its flags, and the lock a process that is not thread-safe runs under. */
  datatype Attr = Attr(sticky: bool, notThreadSafe: bool, procLock: nat)

  /** A null `process` is a ghost process; `udata` 0 is the null pointer. */
  datatype Proc = Proc(process: Option<nat>, attr: Option<Attr>, udata: nat)

  const ZERO_PROC := Proc(None, None, 0)
}
