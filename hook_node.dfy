/** `hook_node`: the `hookdemo` character device whose `ioctl` drives the
    hook control in `HookCtrl`. */
module HookNode {
  import opened Bytes
  import opened SysCall
  import opened HookCtrl

  /** `_IO('H', 0)`, `_IO('H', 1)` and `_IOC(_IOC_WRITE, 'H', 2, 1024)`. */
  const EnableHookCmd: nat := 0x4800
  const DisableHookCmd: nat := 0x4801
  const SetHookPathCmd: nat := 0x4400_4802

  /** `hookdemo_llseek`: seeking is not supported, whatever the arguments. */
  function Llseek(offset: int, whence: int): (r: int)
    ensures r == -EINVAL
  {
    -EINVAL
  }

  /** `hookdemo_ioctl` on the control state: the new state and the return
      value. `hasDevice` says `private_data` is set; for `SET_HOOK_PATH`,
      `allocOk` is the `kmalloc`, `copyOk` the 1024-byte `copy_from_user`
      and `userPath` the string it brings in. */
  function IoctlStep(s: CtrlState, hasDevice: bool, cmd: nat, allocOk: bool, copyOk: bool,
                     userPath: string, pteFound: bool): (CtrlState, int)
    requires Good(s)
  {
    if !hasDevice then (s, -EINVAL)
    else if cmd == EnableHookCmd then (EnableStep(s, pteFound), 0)
    else if cmd == DisableHookCmd then (DisableStep(s), 0)
    else if cmd == SetHookPathCmd then
      if allocOk && copyOk then (SetPathStep(s, userPath), 0) else (s, -1)
    else (s, -EINVAL)
  }

  /** What each command returns and changes: -EINVAL and no change without a
      device or for an unknown command; 0 for enable and disable; for the
      path command 0 with the path stored when the buffer is allocated and
      filled, and -1 with no change otherwise. */
  lemma IoctlOutcome(s: CtrlState, hasDevice: bool, cmd: nat, allocOk: bool, copyOk: bool,
                     userPath: string, pteFound: bool)
    requires Good(s)
    ensures var (t, r) := IoctlStep(s, hasDevice, cmd, allocOk, copyOk, userPath, pteFound);
      && Good(t)
      && (r == 0 || r == -1 || r == -EINVAL)
      && (r == -EINVAL <==> !hasDevice || cmd !in {EnableHookCmd, DisableHookCmd, SetHookPathCmd})
      && (r == -1 <==> hasDevice && cmd == SetHookPathCmd && !(allocOk && copyOk))
      && (r != 0 ==> t == s)
      && (r == 0 && cmd == SetHookPathCmd ==> t == s.(path := Truncate(userPath, MaxPath)))
      && (r == 0 && cmd == DisableHookCmd ==> t == s.(enabled := false))
      && (r == 0 && cmd == EnableHookCmd ==> t.enabled && t.path == s.path)
  {
    StepsKeepGood(s, pteFound, userPath, None, None);
  }

  /** From a freshly initialised control with a table whose `open` slot holds
      the kernel's handler: enabling (with the page found) and storing `p`
      makes every later `open` of `p` fail with `-EACCES`, while any name that
      differs from `p` in its first 1023 characters still reaches the kernel's
      handler, whose behaviour is `kernelOpen`. */
  lemma EnableThenSetPath(m: map<nat, Handler>, p: string, call: OpenCall, kernelOpen: OpenCall -> int)
    requires NrOpen in m && m[NrOpen] == Native(NrOpen)
    ensures var s0 := InitStep(Initial, Some(m), None).0;
      Good(s0) &&
      var s1 := IoctlStep(s0, true, EnableHookCmd, false, false, "", true).0;
      Good(s1) &&
      var s2 := IoctlStep(s1, true, SetHookPathCmd, true, true, p, true).0;
      s2.hooked && s2.table == Some(m[NrOpen := CtrlOpenHook]) && s2.original == Native(NrOpen) &&
      SysOpenNew(s2, OpenCall(p, call.flags, call.mode), true, true, true, kernelOpen) == -EACCES &&
      (Truncate(call.filename, MaxPath) != Truncate(p, MaxPath) ==>
        SysOpenNew(s2, call, true, true, true, kernelOpen) == kernelOpen(call))
  {
    var s0 := InitStep(Initial, Some(m), None).0;
    var s1 := IoctlStep(s0, true, EnableHookCmd, false, false, "", true).0;
    assert s1 == s0.(original := Native(NrOpen), table := Some(m[NrOpen := CtrlOpenHook]), hooked := true, enabled := true);
    StoredPathRefused(s1, p, call, kernelOpen);
  }

  /** `struct hookdemo_dev`; its `cdev`, `class` and `device` handles belong
      to device registration and carry no state here. */
  class HookDemoDevice {
    constructor ()
    {
    }
  }

  /** The part of `struct file` the driver uses. */
  class File {
    var privateData: HookDemoDevice?

    constructor ()
      ensures privateData == null
    {
      privateData := null;
    }

    /** `hookdemo_open`: attach the device (the global `hookdemo_devp`) and
        succeed. */
    method Open(devp: HookDemoDevice?) returns (r: int)
      modifies this
      ensures privateData == devp && r == 0
    {
      privateData := devp;
      r := 0;
    }

    /** `hookdemo_ioctl`, dispatching to the `HookCtrl` operations. */
    method Ioctl(ctrl: Ctrl, cmd: nat, allocOk: bool, copyOk: bool, userPath: string, pteFound: bool)
      returns (r: int)
      requires ctrl.Valid()
      modifies ctrl, ctrl.callTable
      ensures ctrl.Valid() && ctrl.callTable == old(ctrl.callTable)
      ensures (ctrl.State(), r) ==
        IoctlStep(old(ctrl.State()), privateData != null, cmd, allocOk, copyOk, userPath, pteFound)
    {
      r := -1;
      if privateData == null {
        return -EINVAL;
      }
      if cmd == EnableHookCmd {
        ctrl.Enable(pteFound);
        r := 0;
      } else if cmd == DisableHookCmd {
        ctrl.Disable();
        r := 0;
      } else if cmd == SetHookPathCmd {
        if allocOk {
          if copyOk {
            ctrl.SetPath(userPath);
            r := 0;
          }
        }
      } else {
        return -EINVAL;
      }
    }
  }
}
