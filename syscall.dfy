/** The kernel's system call table, reduced to the slots the open hooks touch
    and to the identity of the function each slot points at. */
module SysCall {
  /** `__NR_open` and `__NR_close` on x86_64. */
  const NrOpen: nat := 2
  const NrClose: nat := 3

  /** What a table slot, or a saved function pointer, designates. */
  datatype Handler =
    | NoHandler          // a NULL function pointer
    | Native(nr: nat)    // the kernel's own entry point for call `nr`
    | LxcOpenHook        // `lxc_sys_open`
    | LxcCloseHook       // `lxc_sys_close`
    | CtrlOpenHook       // `sys_open_new`

  /** The arguments of an `open` call; `filename` is the user string up to
      (not including) its terminating NUL. */
  datatype OpenCall = OpenCall(filename: string, flags: int, mode: int)

  /** The table itself: the kernel owns it and the hooks overwrite its slots
      in place. */
  class Table {
    var slots: map<nat, Handler>

    /** A real table has an `open` and a `close` slot. */
    ghost predicate Valid()
      reads this
    {
      NrOpen in slots && NrClose in slots
    }
  }
}
