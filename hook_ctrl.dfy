/** `hook_ctrl`: the control state behind the `hookdemo` device. Once
    registered, `sys_open_new` sits in the `open` slot of the system call
    table; while the hook is enabled it refuses the one stored path and
    forwards every other `open` to the saved original. */
module HookCtrl {
  import opened Bytes
  import opened SysCall

  /** `HOOK_PATH_SIZE`: the stored path's buffer, terminating NUL included. */
  const HookPathSize: nat := 1024
  /** The longest path that buffer holds. */
  const MaxPath: nat := HookPathSize - 1

  /** The first `n` characters of `s`, or all of `s` when it is shorter. */
  function Truncate(s: string, n: nat): (r: string)
    ensures |r| == Min(|s|, n) && r == s[..|r|]
  {
    if |s| <= n then s else s[..n]
  }

  /** The module's globals as a value: `g_hook_enable`, `g_hook_file_path`
      (the characters before its NUL), the slots of the table `g_call_table`
      points at (`None` for NULL), `g_hook_open_org_func` and
      `g_sys_open_hooked`. */
  datatype CtrlState = CtrlState(
    enabled: bool,
    path: string,
    table: Option<map<nat, Handler>>,
    original: Handler,
    hooked: bool)

  /** The stored path fits its buffer, and a table has an `open` slot. */
  predicate Good(s: CtrlState)
  {
    |s.path| <= MaxPath && (s.table.Some? ==> NrOpen in s.table.value)
  }

  /** The static initialisers: disabled, empty path, no table, no saved
      original, not hooked. */
  const Initial := CtrlState(false, "", None, NoHandler, false)

  /** `sys_open_ctrl`: -1 (refuse) exactly when the file name, cut to the
      1023 characters the buffer takes, equals the stored path. `allocOk` is
      the `kzalloc`, `lenOk` says `strnlen_user` returned a positive length
      and `copyOk` the `copy_from_user`; when any of them fails the answer is
      0 (allow). */
  function OpenCtrl(s: CtrlState, filename: string, allocOk: bool, lenOk: bool, copyOk: bool): (r: int)
    ensures r == -1 || r == 0
    ensures r == -1 <==> allocOk && lenOk && copyOk && Truncate(filename, MaxPath) == s.path
  {
    if !allocOk || !lenOk then 0
    else
      // `strnlen_user` counts the NUL, so a name of 1023 or more characters
      // is clamped to 1023 bytes and a shorter one is copied with its NUL.
      var copied := Truncate(filename, MaxPath);
      if !copyOk then 0
      else if s.path == copied then -1
      else 0
  }

  /** Which names `sys_open_ctrl` refuses, without the truncation: the stored
      path itself and, when the stored path is 1023 characters long, every
      longer name that starts with it. */
  lemma OpenCtrlRefuses(s: CtrlState, filename: string)
    requires Good(s)
    ensures OpenCtrl(s, filename, true, true, true) == -1 <==>
      filename == s.path || (|s.path| == MaxPath && s.path <= filename)
  {
    if |filename| > MaxPath && |s.path| == MaxPath && s.path <= filename {
      assert Truncate(filename, MaxPath) == s.path;
    }
  }

  /** `sys_open_new`: refuse with `-EACCES` when no original is saved;
      otherwise forward to the original (`forward` is its behaviour) while
      the hook is disabled, and while it is enabled unless `sys_open_ctrl`
      refuses the name. */
  function SysOpenNew(s: CtrlState, call: OpenCall, allocOk: bool, lenOk: bool, copyOk: bool,
                      forward: OpenCall -> int): (r: int)
    ensures s.original == NoHandler ==> r == -EACCES
    ensures s.original != NoHandler && !s.enabled ==> r == forward(call)
    ensures s.original != NoHandler && s.enabled ==>
      r == if allocOk && lenOk && copyOk && Truncate(call.filename, MaxPath) == s.path
           then -EACCES else forward(call)
  {
    if s.original != NoHandler && (!s.enabled || OpenCtrl(s, call.filename, allocOk, lenOk, copyOk) == 0)
    then forward(call)
    else -EACCES
  }

  /** `hook_register_sys_open`: with a table, not yet hooked and the page
      found, save the `open` slot as the original, put `sys_open_new` there,
      mark the slot hooked and return 0; otherwise return -1 and change
      nothing. */
  function RegisterStep(s: CtrlState, pteFound: bool): (CtrlState, int)
    requires Good(s)
  {
    if s.table.Some? && !s.hooked && pteFound then
      var m := s.table.value;
      (s.(original := m[NrOpen], table := Some(m[NrOpen := CtrlOpenHook]), hooked := true), 0)
    else
      (s, -1)
  }

  /** `hook_unregister_sys_open`: with a table, hooked and the page found,
      write the saved original back into the `open` slot and clear the hooked
      flag; otherwise change nothing. */
  function UnregisterStep(s: CtrlState, pteFound: bool): CtrlState
    requires Good(s)
  {
    if s.table.Some? && s.hooked && pteFound then
      s.(table := Some(s.table.value[NrOpen := s.original]), hooked := false)
    else
      s
  }

  /** `hook_ctrl_init`: take the table the symbol lookup found, or else the
      one passed as a parameter; -1 when both are missing. */
  function InitStep(s: CtrlState, looked: Option<map<nat, Handler>>, param: Option<map<nat, Handler>>): (CtrlState, int)
  {
    var t := if looked.Some? then looked else param;
    (s.(table := t), if t.None? then -1 else 0)
  }

  /** `hook_ctrl_enable`: when disabled, try to register (ignoring the
      result) and set the enable flag; when already enabled, nothing. */
  function EnableStep(s: CtrlState, pteFound: bool): CtrlState
    requires Good(s)
  {
    if !s.enabled then RegisterStep(s, pteFound).0.(enabled := true) else s
  }

  /** `hook_ctrl_disable`: clear the enable flag and nothing else. */
  function DisableStep(s: CtrlState): CtrlState
  {
    s.(enabled := false)
  }

  /** `hook_ctrl_set_path`: `snprintf` into the 1024-byte buffer keeps the
      first 1023 characters. */
  function SetPathStep(s: CtrlState, p: string): CtrlState
  {
    s.(path := Truncate(p, MaxPath))
  }

  /** Every operation keeps the state `Good`. */
  lemma StepsKeepGood(s: CtrlState, pte: bool, p: string, looked: Option<map<nat, Handler>>, param: Option<map<nat, Handler>>)
    requires Good(s)
    requires looked.Some? ==> NrOpen in looked.value
    requires param.Some? ==> NrOpen in param.value
    ensures Good(RegisterStep(s, pte).0) && Good(UnregisterStep(s, pte)) && Good(EnableStep(s, pte))
    ensures Good(DisableStep(s)) && Good(SetPathStep(s, p)) && Good(InitStep(s, looked, param).0)
  {
  }

  /** Registering succeeds exactly when there is a table, the slot is not
      hooked yet and the page is found; a failed registration changes
      nothing. */
  lemma RegisterResult(s: CtrlState, pte: bool)
    requires Good(s)
    ensures RegisterStep(s, pte).1 == 0 <==> s.table.Some? && !s.hooked && pte
    ensures RegisterStep(s, pte).1 != 0 ==> RegisterStep(s, pte) == (s, -1)
  {
  }

  /** Registering and then unregistering puts the original handler back:
      the table is as before and the slot is no longer hooked. */
  lemma RegisterThenUnregister(s: CtrlState)
    requires Good(s) && s.table.Some? && !s.hooked
    ensures var (t, r) := RegisterStep(s, true);
      r == 0 && t.table.value[NrOpen] == CtrlOpenHook && t.original == s.table.value[NrOpen] &&
      UnregisterStep(t, true).table == s.table && !UnregisterStep(t, true).hooked
  {
    var m := s.table.value;
    assert m[NrOpen := CtrlOpenHook][NrOpen := m[NrOpen]] == m;
  }

  /** Disabling leaves the table and the hook in place, so `sys_open_new`
      stays installed and simply forwards. */
  lemma DisableKeepsHook(s: CtrlState, call: OpenCall, a: bool, l: bool, c: bool, forward: OpenCall -> int)
    requires s.original != NoHandler
    ensures var t := DisableStep(s);
      t.table == s.table && t.hooked == s.hooked && t.original == s.original && t.path == s.path &&
      SysOpenNew(t, call, a, l, c, forward) == forward(call)
  {
  }

  /** Enabling twice is enabling once. */
  lemma EnableIdempotent(s: CtrlState, pte1: bool, pte2: bool)
    requires Good(s)
    ensures Good(EnableStep(s, pte1))
    ensures EnableStep(EnableStep(s, pte1), pte2) == EnableStep(s, pte1)
  {
  }

  /** The enable flag is set even when registration fails, and a second
      enable does not retry it: the table stays unhooked until a disable. */
  lemma EnabledWithoutHook(s: CtrlState, pte: bool)
    requires Good(s) && !s.enabled && !s.hooked && s.table.Some?
    ensures var t := EnableStep(EnableStep(s, false), pte);
      t.enabled && !t.hooked && t.table == s.table
  {
  }

  /** After `path` is stored and the hook enabled with an original saved,
      opening `path` is refused while every name that differs from it in its
      first 1023 characters is forwarded. */
  lemma StoredPathRefused(s: CtrlState, p: string, call: OpenCall, forward: OpenCall -> int)
    requires s.enabled && s.original != NoHandler
    ensures SysOpenNew(SetPathStep(s, p), OpenCall(p, call.flags, call.mode), true, true, true, forward) == -EACCES
    ensures Truncate(call.filename, MaxPath) != Truncate(p, MaxPath) ==>
      SysOpenNew(SetPathStep(s, p), call, true, true, true, forward) == forward(call)
  {
  }

  /** The module's globals. `callTable` is `g_call_table`; the table it points
      at is shared with the kernel and updated in place. */
  class Ctrl {
    var enabled: bool
    var path: string
    var callTable: Table?
    var original: Handler
    var hooked: bool

    /** The globals as a value. */
    ghost function State(): CtrlState
      reads this, callTable
    {
      CtrlState(enabled, path, if callTable == null then None else Some(callTable.slots), original, hooked)
    }

    ghost predicate Valid()
      reads this, callTable
    {
      Good(State())
    }

    /** The static initialisers. */
    constructor ()
      ensures Valid() && State() == Initial && callTable == null
    {
      enabled, path, callTable, original, hooked := false, "", null, NoHandler, false;
    }

    /** `hook_register_sys_open`. */
    method Register(pteFound: bool) returns (r: int)
      requires Valid()
      modifies this, callTable
      ensures Valid() && callTable == old(callTable)
      ensures (State(), r) == RegisterStep(old(State()), pteFound)
    {
      r := -1;
      if callTable != null && !hooked {
        if pteFound {
          original := callTable.slots[NrOpen];
          callTable.slots := callTable.slots[NrOpen := CtrlOpenHook];
          hooked := true;
          r := 0;
        }
      }
    }

    /** `hook_unregister_sys_open`. */
    method Unregister(pteFound: bool)
      requires Valid()
      modifies this, callTable
      ensures Valid() && callTable == old(callTable)
      ensures State() == UnregisterStep(old(State()), pteFound)
    {
      if callTable != null && hooked {
        if pteFound {
          callTable.slots := callTable.slots[NrOpen := original];
          hooked := false;
        }
      }
    }

    /** `hook_ctrl_init`: `looked` is what `kallsyms_lookup_name` returns and
        `param` the table address given as a module parameter. */
    method Init(looked: Table?, param: Table?) returns (r: int)
      requires Valid()
      requires looked != null ==> NrOpen in looked.slots
      requires param != null ==> NrOpen in param.slots
      modifies this
      ensures Valid()
      ensures callTable == if looked != null then looked else param
      ensures (State(), r) == InitStep(old(State()), SlotsOf(looked), SlotsOf(param))
    {
      callTable := looked;
      if callTable == null {
        callTable := param;
      }
      if callTable == null {
        return -1;
      }
      r := 0;
    }

    /** `hook_ctrl_enable`. */
    method Enable(pteFound: bool)
      requires Valid()
      modifies this, callTable
      ensures Valid() && callTable == old(callTable)
      ensures State() == EnableStep(old(State()), pteFound)
    {
      if !enabled {
        var _ := Register(pteFound);
        enabled := true;
      }
    }

    /** `hook_ctrl_disable`. */
    method Disable()
      requires Valid()
      modifies this`enabled
      ensures Valid()
      ensures State() == DisableStep(old(State()))
    {
      enabled := false;
    }

    /** `hook_ctrl_set_path`. */
    method SetPath(p: string)
      requires Valid()
      modifies this`path
      ensures Valid()
      ensures State() == SetPathStep(old(State()), p)
    {
      path := Truncate(p, MaxPath);
    }

    /** `hook_ctrl_cleanup`: unregister. */
    method Cleanup(pteFound: bool)
      requires Valid()
      modifies this, callTable
      ensures Valid() && callTable == old(callTable)
      ensures State() == UnregisterStep(old(State()), pteFound)
    {
      Unregister(pteFound);
    }
  }

  /** The slots of the table `t` points at, `None` for NULL. */
  ghost function SlotsOf(t: Table?): Option<map<nat, Handler>>
    reads t
  {
    if t == null then None else Some(t.slots)
  }
}
