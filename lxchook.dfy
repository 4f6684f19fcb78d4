/** `lxchook`: replaces the `open` and `close` entries of the system call
    table. The new `open` refuses any file whose last `.`-suffix is `.xyz`
    in any letter case and forwards every other call to the saved original;
    the new `close` only forwards. */
module LxcHook {
  import opened Bytes
  import opened SysCall

  /** The refused extension, as `lxc_sys_open` spells it. */
  const Extension := ".xyz"

  /** `tolower` on the characters that matter here: ASCII capitals become
      small letters, everything else is kept. (The kernel's table also folds
      the Latin-1 capitals, but only onto other Latin-1 letters, so the
      characters that fold onto one of `.xyz` are the same either way.) */
  function ToLower(c: char): char
  {
    if 'A' <= c <= 'Z' then (c as int + 32) as char else c
  }

  /** `strrchr(s, '.')`: the index of the last `.` in `s`, if there is one. */
  function LastDot(s: string): (r: Option<nat>)
    ensures r.Some? ==> r.value < |s| && s[r.value] == '.'
    ensures r.Some? ==> forall j :: r.value < j < |s| ==> s[j] != '.'
    ensures r.None? ==> forall j :: 0 <= j < |s| ==> s[j] != '.'
  {
    if |s| == 0 then None
    else if s[|s| - 1] == '.' then Some(|s| - 1)
    else LastDot(s[..|s| - 1])
  }

  /** `strcasecmp(a, b) == 0`: the strings have the same length and agree
      character by character once both are lower-cased. */
  function CaseEqual(a: string, b: string): (r: bool)
    ensures r <==> |a| == |b| && forall i :: 0 <= i < |a| ==> ToLower(a[i]) == ToLower(b[i])
  {
    if |a| == 0 || |b| == 0 then |a| == |b|
    else ToLower(a[0]) == ToLower(b[0]) && CaseEqual(a[1..], b[1..])
  }

  /** The decision `lxc_sys_open` takes on a name it managed to copy: the
      text from the last `.` on is `.xyz`, ignoring case. */
  predicate Refused(name: string)
  {
    match LastDot(name)
    case None => false
    case Some(i) => CaseEqual(name[i..], Extension)
  }

  /** An independent description of the refused names: the last four
      characters spell `.xyz` in some letter case. */
  predicate EndsWithExtension(name: string)
  {
    |name| >= 4 && CaseEqual(name[|name| - 4..], Extension)
  }

  /** Only the last `.` is looked at, and it refuses exactly the names that
      end in `.xyz` in any case: a `.xyz` ending leaves no later `.`, and a
      suffix equal to `.xyz` has exactly four characters. */
  lemma RefusedIffEndsWithExtension(name: string)
    ensures Refused(name) <==> EndsWithExtension(name)
  {
    var n := |name|;
    if EndsWithExtension(name) {
      var ext := name[n - 4..];
      assert ToLower(ext[0]) == ToLower(Extension[0]);
      assert name[n - 4] == '.';
      forall j | n - 4 < j < n ensures name[j] != '.' {
        assert ToLower(ext[j - (n - 4)]) == ToLower(Extension[j - (n - 4)]);
      }
      assert LastDot(name) == Some(n - 4);
    }
    if Refused(name) {
      var i := LastDot(name).value;
      assert |name[i..]| == 4;
      assert i == n - 4;
    }
  }

  /** Names the filter refuses: the last `.`-suffix is `.xyz` in some case,
      even after an earlier extension. */
  lemma RefusedExamples()
    ensures Refused("b.txt.XyZ") && Refused(".XYZ")
  {
    RefusedIffEndsWithExtension("b.txt.XyZ");
    RefusedIffEndsWithExtension(".XYZ");
    assert "b.txt.XyZ"[5..] == ".XyZ" && CaseEqual(".XyZ", Extension);
    assert CaseEqual(".XYZ", Extension);
  }

  /** Names the filter lets through: `.xyz` not last, a longer or shorter
      suffix, and `xyz` without a dot. */
  lemma AllowedExamples()
    ensures !Refused("a.xyz.txt") && !Refused("f.xyzz") && !Refused("f.xy") && !Refused("xyz")
  {
    RefusedIffEndsWithExtension("a.xyz.txt");
    RefusedIffEndsWithExtension("f.xyzz");
    RefusedIffEndsWithExtension("f.xy");
    RefusedIffEndsWithExtension("xyz");
    assert "f.xyzz"[2..] == "xyzz" && !CaseEqual("xyzz", Extension);
  }

  /** The cases the filter is meant to separate. */
  lemma FilterExamples()
    ensures Refused("b.txt.XyZ") && Refused(".XYZ")
    ensures !Refused("a.xyz.txt") && !Refused("f.xyzz") && !Refused("f.xy") && !Refused("xyz")
  {
    RefusedExamples();
    AllowedExamples();
  }

  /** `lxc_sys_open`: refuse with `-EACCES` when the name was copied
      (`allocOk`: the `kmalloc` succeeded; `copyOk`: the user string could be
      read) and ends in `.xyz`; in every other case, including a failed
      allocation or copy, call the saved original `open` on the same
      arguments and return its result unchanged. */
  function SysOpen(call: OpenCall, allocOk: bool, copyOk: bool, original: OpenCall -> int): (r: int)
    ensures allocOk && copyOk && EndsWithExtension(call.filename) ==> r == -EACCES
    ensures !(allocOk && copyOk && EndsWithExtension(call.filename)) ==> r == original(call)
  {
    RefusedIffEndsWithExtension(call.filename);
    var canOpen := !(allocOk && copyOk && Refused(call.filename));
    if !canOpen then -EACCES else original(call)
  }

  /** A refused call never reaches the original `open`: whatever the original
      would return, the result is `-EACCES`. */
  lemma RefusedNeverForwards(call: OpenCall, o1: OpenCall -> int, o2: OpenCall -> int)
    requires EndsWithExtension(call.filename)
    ensures SysOpen(call, true, true, o1) == SysOpen(call, true, true, o2) == -EACCES
  {
  }

  /** `lxc_sys_close`: call the saved original `close` on the same
      descriptor and return its result unchanged. */
  function SysClose(fd: nat, original: nat -> int): (r: int)
    ensures r == original(fd)
  {
    original(fd)
  }

  /** The module's globals: the table address found by `get_sys_call_table`
      and the saved originals `src_sys_open` and `src_sys_close`. The page
      protection calls are reduced to whether their `lookup_address`
      succeeded. */
  class Hook {
    var sysCallTable: Table?
    var srcOpen: Handler
    var srcClose: Handler

    /** The static initialisers: no table, NULL originals. */
    constructor ()
      ensures sysCallTable == null && srcOpen == NoHandler && srcClose == NoHandler
    {
      sysCallTable, srcOpen, srcClose := null, NoHandler, NoHandler;
    }

    /** `hook_init`. `found` is what looking up `sys_call_table` yields and
        `pteFound` whether `make_readwrite` finds the page. A failed lookup
        returns `-EFAULT` with nothing saved. Otherwise both originals are
        saved first; a failed `make_readwrite` then returns `-EFAULT` with the
        slots untouched, and on success the two slots are replaced by the
        hooks and 0 is returned (the result of `make_readonly` is ignored). */
    method HookInit(found: Table?, pteFound: bool) returns (r: int)
      requires found != null ==> found.Valid()
      modifies this, found
      ensures sysCallTable == found
      ensures found == null ==> r == -EFAULT && srcOpen == old(srcOpen) && srcClose == old(srcClose)
      ensures found != null ==> found.Valid()
      ensures found != null ==> srcOpen == old(found.slots[NrOpen]) && srcClose == old(found.slots[NrClose])
      ensures found != null && !pteFound ==> r == -EFAULT && found.slots == old(found.slots)
      ensures found != null && pteFound ==>
        r == 0 && found.slots == old(found.slots)[NrOpen := LxcOpenHook][NrClose := LxcCloseHook]
    {
      sysCallTable := found;
      if sysCallTable == null {
        return -EFAULT;
      }
      srcOpen := sysCallTable.slots[NrOpen];
      srcClose := sysCallTable.slots[NrClose];
      if !pteFound {
        return -EFAULT;
      }
      sysCallTable.slots := sysCallTable.slots[NrOpen := LxcOpenHook];
      sysCallTable.slots := sysCallTable.slots[NrClose := LxcCloseHook];
      r := 0;
    }

    /** `hook_uninit`: when `make_readwrite` finds the page, write the saved
        originals back into the two slots and return 0; otherwise return -1
        with the slots untouched. Without a table the lookup of address 0
        fails, which the model folds into the same -1. */
    method HookUninit(pteFound: bool) returns (r: int)
      requires sysCallTable != null ==> sysCallTable.Valid()
      modifies sysCallTable
      ensures sysCallTable != null ==> sysCallTable.Valid()
      ensures sysCallTable == null || !pteFound ==> r == -1
      ensures sysCallTable != null && !pteFound ==> sysCallTable.slots == old(sysCallTable.slots)
      ensures sysCallTable != null && pteFound ==>
        r == 0 && sysCallTable.slots == old(sysCallTable.slots)[NrOpen := srcOpen][NrClose := srcClose]
    {
      if sysCallTable == null || !pteFound {
        return -1;
      }
      sysCallTable.slots := sysCallTable.slots[NrOpen := srcOpen];
      sysCallTable.slots := sysCallTable.slots[NrClose := srcClose];
      r := 0;
    }

    /** Loading and then unloading the hook, with `hook_uninit` run only after
        a successful `hook_init`: when both succeed the table is exactly as it
        was; when `hook_init` fails it is untouched; when only `hook_uninit`
        fails the hooks stay in place. */
    method InitThenUninit(t: Table, pte1: bool, pte2: bool) returns (r1: int, r2: int)
      requires t.Valid()
      modifies this, t
      ensures t.Valid()
      ensures r1 == 0 <==> pte1
      ensures r1 == 0 ==> (r2 == 0 <==> pte2)
      ensures r1 == 0 && r2 == 0 ==> t.slots == old(t.slots)
      ensures r1 != 0 ==> t.slots == old(t.slots)
      ensures r1 == 0 && r2 != 0 ==> t.slots == old(t.slots)[NrOpen := LxcOpenHook][NrClose := LxcCloseHook]
    {
      r1 := HookInit(t, pte1);
      r2 := 0;
      if r1 == 0 {
        r2 := HookUninit(pte2);
        if r2 == 0 {
          RestoreUndoesHooks(old(t.slots), t.slots, srcOpen, srcClose);
        }
      }
    }
  }

  /** Writing back the two saved entries over the hooked table gives the
      original table back. */
  lemma RestoreUndoesHooks(m: map<nat, Handler>, after: map<nat, Handler>, o: Handler, c: Handler)
    requires NrOpen in m && NrClose in m && o == m[NrOpen] && c == m[NrClose]
    requires after == m[NrOpen := LxcOpenHook][NrClose := LxcCloseHook][NrOpen := o][NrClose := c]
    ensures after == m
  {
    assert after.Keys == m.Keys;
  }
}
