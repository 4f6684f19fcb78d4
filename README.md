# Verified model of the ZF kernel-developer exercises

This Dafny project models the driver logic of the exercises in the
repository. Each operation of a driver is one Dafny member, stated
against a specification and proved.

- **Byte devices.**
  - `ZfChar` models `zfchar`, a 256-slot circular buffer with `head`, `tail` and `size_of_message`.
  - `LxcDev` models `lxcdev`, a 4096-byte kernel FIFO with a length ioctl.
  - `GlobalMem` models `globalmem`, 1024 bytes addressed by the file position, with `llseek` and a clear ioctl.
  - `zfchar` and `lxcdev` store every byte XORed with 0x55 (`Bytes.Obfuscate`). `globalmem` as written masks only the slots below `count` (see Findings).
- **Open interception.**
  - `LxcHook` models `lxchook`. It swaps the `open` and `close` slots of the system call table and refuses any file whose last `.`-suffix is `.xyz` in any letter case.
  - `HookCtrl` models `hook_ctrl`, the enable/hooked/path state machine behind `sys_open_new`.
  - `HookNode` models `hook_node`, the `hookdemo` ioctl that drives that state machine.
  - `SysCall` holds the shared system call table: a map from slot number to the handler it designates.

**How state and outside calls are modelled**

- Statics and device structures are classes whose fields the methods update in place.
- The XOR loops and the ring-buffer copy loops are `while`/`for` loops with invariants.
- The pure decisions (the extension filter, `sys_open_ctrl`, `sys_open_new`, the ioctl dispatch) are functions.
- Every call into code outside the model becomes a boolean parameter saying whether it succeeded:
  - `copy_to_user` and `copy_from_user`, except in `globalmem_write`, where a fault is the `Option<nat>` parameter `fault` of `GlobalMem.File.Write`: `Some(k)` when the copy stops after `k` bytes;
  - `access_ok` and `down_interruptible`;
  - `kmalloc` and `kzalloc`;
  - `strnlen_user` (in `hook_ctrl`);
  - `lookup_address`.
- `lxc_sys_open` has no separate `strlen_user` parameter. A faulting `strlen_user` returns 0, so the copy that follows reads an empty name and the call is forwarded; `LxcHook.SysOpen` gives that same outcome through `copyOk == false`.
- `kallsyms_lookup_name` becomes a parameter holding the table it finds, or none.
- The behaviour of the original `open`/`close` handler becomes a function parameter, so "forwards the call" is stated as "returns that function's result on the same arguments".

## Model

| member | source | states |
|---|---|---|
| Bytes.ObfuscateAt | exercises/1/GuoWei/cdev/zfchar.c:119 | byte `i` of the stored form is input byte `i` XOR 0x55 |
| Bytes.ObfuscateInvolution | exercises/1/LiXianCheng/cdev_ko/app/app.cpp:90-94 | a reader that XORs again with 0x55 gets back exactly the bytes that were written |
| Bytes.ObfuscateQueue | exercises/1/LiXianCheng/cdev_ko/app/app.cpp:90-94 | unmasking behaves like a FIFO: after a write of `u` the unmasked contents are the old ones plus `u`, and unmasking a prefix gives the prefix of the unmasked contents |
| ZfChar.WrapIsMod | exercises/1/GuoWei/cdev/zfchar.c:102-103 | the wrap used for cursors is `% BUFFER_LENGTH` on every sum of a cursor and a count |
| ZfChar.RingDrop | exercises/1/GuoWei/cdev/zfchar.c:102-104 | advancing `tail` by `d` and shrinking the size by `d` leaves the old unread bytes minus their first `d` |
| ZfChar.RingStamp | exercises/1/GuoWei/cdev/zfchar.c:118-131 | writing `w` at `head == tail + size` extends the unread bytes by exactly `w`, whatever the slots held before |
| ZfChar.ReadSplit | exercises/1/GuoWei/cdev/zfchar.c:92-104 | the two `copy_to_user` segments (`message[tail..]`, then `message[..rdlen2]`) are the oldest `rdlen` unread bytes in order, and the new `head`/`tail` relation still holds |
| ZfChar.WriteLoops | exercises/1/GuoWei/cdev/zfchar.c:114-126 | the two loops (up to the end of the array, then from slot 0) place input byte `j` XOR 0x55 in slot `(head + j) % 256`, and every other slot keeps its byte |
| ZfChar.Device.constructor | exercises/1/GuoWei/cdev/zfchar.c:18-22 | the statics start as an all-zero buffer with zero cursors, size and open count, holding no bytes |
| ZfChar.Device.Open | exercises/1/GuoWei/cdev/zfchar.c:84-88 | `numberOpens` grows by one and 0 is returned |
| ZfChar.Device.Read | exercises/1/GuoWei/cdev/zfchar.c:90-108 | returns `min(len, size_of_message)`. When both `copy_to_user` calls succeed, the caller receives the oldest that many bytes, still masked. Either way those bytes leave the buffer and it holds exactly the rest, since the copy results are ignored. `0 <= size <= 256` and `head == (tail + size) % 256` are kept. Reading an empty buffer returns 0 and changes nothing. |
| ZfChar.Device.Write | exercises/1/GuoWei/cdev/zfchar.c:110-134 | accepts and returns `min(len, 256 - size_of_message)` bytes. The array becomes the old one with those bytes XOR 0x55 stamped from `head` on, and the unread bytes become the old ones followed by them. The invariant is kept, and a full buffer accepts 0 and changes nothing. |
| ZfChar.Device.CopyIn | exercises/1/GuoWei/cdev/zfchar.c:114-126 | the two loops of `dev_write` leave the array as the old one with the masked bytes stamped from `head` on |
| LxcDev.Device.constructor | exercises/1/LiXianCheng/cdev_ko/ko/lxcdev.c:263-273 | the device starts with an empty FIFO of capacity 4096 |
| LxcDev.Device.GetFifoLen | exercises/1/LiXianCheng/cdev_ko/ko/lxcdev.c:35-64 | reads the FIFO without changing it. A refused pointer (checked before the semaphore) gives `-EFAULT`, an interrupted wait gives `-ERESTARTSYS`, and a failed copy gives `-EFAULT`. Otherwise it returns 0 and writes `len + spill * 2^32` into the caller's 8-byte word: the length in the low half and the 4 stack bytes after `fifo_len` in the high half. |
| LxcDev.FifoLenReplyStatus | exercises/1/LiXianCheng/cdev_ko/ko/lxcdev.c:42-63 | `get_fifo_len` succeeds exactly when the pointer check, the wait and the copy all succeed; only then is a value written, and its low 32 bits are the FIFO length |
| LxcDev.FifoLenSpill | exercises/1/LiXianCheng/cdev_ko/ko/lxcdev.c:38-55 | the 8-byte copy out of the 4-byte `fifo_len` gives the caller exactly the length only when the 4 stack bytes after it are zero |
| LxcDev.FifoLenIntendedStatus | exercises/1/LiXianCheng/cdev_ko/ko/lxcdev.c:42-63 | the corrected query has the same status in every case and copies out exactly the length; its whole reply equals the original's except on a successful copy with nonzero stack bytes after `fifo_len` |
| LxcDev.Device.UnlockedIoctl | exercises/1/LiXianCheng/cdev_ko/ko/lxcdev.c:67-82 | returns 0 for every command; only `LXC_IOCTL_GET_FIFO_LEN` runs `get_fifo_len`, whose status is dropped |
| LxcDev.Device.CompatIoctl | exercises/1/LiXianCheng/cdev_ko/ko/lxcdev.c:85-99 | the same dispatch as `lxc_unlocked_ioctl`, with the same always-0 return |
| LxcDev.IoctlHidesErrors | exercises/1/LiXianCheng/cdev_ko/ko/lxcdev.c:67-99 | as written no ioctl reports a failure: an unknown command and a failed length query both return 0 |
| LxcDev.IoctlIntendedReports | exercises/1/LiXianCheng/cdev_ko/ko/lxcdev.c:69-79 | the ioctl returning its `result` is 0 exactly for a successful length query, `-ENOTTY` for an unknown command, and passes every failure through; its reply equals the original's exactly on a successful length query |
| LxcDev.IoctlCounterexample | exercises/1/LiXianCheng/cdev_ko/ko/lxcdev.c:81 | command 0 and a refused pointer return 0 as written, where `-ENOTTY` and `-EFAULT` are meant |
| LxcDev.Device.Read | exercises/1/LiXianCheng/cdev_ko/ko/lxcdev.c:107-158 | `count == 0` gives 0, an interrupted wait gives `-ERESTARTSYS` and an empty FIFO gives 0, each with no change. Otherwise the oldest `min(count, len)` bytes leave the FIFO, still masked; they are returned with their count, or `-EFAULT` when the copy faults (the bytes are then lost). |
| LxcDev.Device.Write | exercises/1/LiXianCheng/cdev_ko/ko/lxcdev.c:160-231 | `count == 0` and a full FIFO give 0, an interrupted wait gives `-ERESTARTSYS`, and a copy fault gives `-EFAULT`; in each of these the FIFO is unchanged. Otherwise `min(count, 4096 - len)` bytes, each XOR 0x55, are appended at the back and their count is returned. The FIFO never exceeds 4096 bytes. |
| LxcDev.MaskedPrefix | exercises/1/LiXianCheng/cdev_ko/ko/lxcdev.c:201-214 | after `memset`, the copy and the XOR loop, `dev_buff` holds the masked input followed by zeros |
| GlobalMem.SpanBounds | exercises/1/GuTao/globalmem/globalmem_kernel/globalmem_main.c:60-63 | from position `p >= 1024` nothing is transferred; otherwise `count` is cut to `1024 - p` and never grows |
| GlobalMem.StoreLoad | exercises/1/GuTao/globalmem/globalmem_kernel/globalmem_main.c:99-108 | the intended store masks every written byte: reading the span back and XORing again gives the data, and bytes outside `[p, p+count)` are unchanged |
| GlobalMem.StoreAsWrittenAgrees | exercises/1/GuTao/globalmem/globalmem_kernel/globalmem_main.c:105-108 | the loop `for (i = p; i < count; ++i)` masks every written byte exactly when `p == 0` or nothing is written |
| GlobalMem.StoreAsWrittenCounterexample | exercises/1/GuTao/globalmem/globalmem_kernel/globalmem_main.c:105-108 | a one-byte write of 0x00 at offset 1 is stored as 0x00, where the intended store gives 0x55 |
| GlobalMem.XorLoopStores | exercises/1/GuTao/globalmem/globalmem_kernel/globalmem_main.c:99-108 | the copy followed by the XOR loop leaves memory equal to the store as written: only input bytes whose slot is below `count` are masked |
| GlobalMem.TransferIntendedAdvances | exercises/1/GuTao/globalmem/globalmem_kernel/globalmem_main.c:65-74 | returning the computed `ret`, a non-negative result is the distance the position moved, at most `count`, and `-EFAULT` comes exactly from a faulting copy with the position unmoved; every other call gives the same outcome as the read and the write as written |
| GlobalMem.TransferAsWrittenHidesFault | exercises/1/GuTao/globalmem/globalmem_kernel/globalmem_main.c:65-77 | as written, read and write differ from the intended outcome only on a faulting copy; there they return the clamped count with the position unmoved |
| GlobalMem.TransferCounterexample | exercises/1/GuTao/globalmem/globalmem_kernel/globalmem_main.c:77 | a faulting 4-byte read at offset 0 returns 4 as written, where `-EFAULT` is meant |
| GlobalMem.SeekStaysInside | exercises/1/GuTao/globalmem/globalmem_kernel/globalmem_main.c:117-157 | the intended seek accepts only a new position in `[0, 1024]`, returns it and moves there; every refusal is `-EINVAL` with the position unchanged; on offsets in `[0, 2^32)` it is the seek as written |
| GlobalMem.SeekAsWrittenAgrees | exercises/1/GuTao/globalmem/globalmem_kernel/globalmem_main.c:129-148 | the seek as written equals the intended one for offsets in `[0, 2^32)`. A `SEEK_CUR` with a negative offset that passes the range checks lands at `pos + offset + 2^32`, outside the memory. |
| GlobalMem.SeekCounterexample | exercises/1/GuTao/globalmem/globalmem_kernel/globalmem_main.c:129-148 | seeking back 5 from 10 lands at 4294967301 and `SEEK_SET` to `2^32 + 5` lands at 5; the intended seek gives 5 and `-EINVAL` |
| GlobalMem.Device.constructor | exercises/1/GuTao/globalmem/globalmem_kernel/globalmem_main.c:226 | the device memory starts all zero |
| GlobalMem.File.Open | exercises/1/GuTao/globalmem/globalmem_kernel/globalmem_main.c:37-41 | `private_data` becomes the device and 0 is returned |
| GlobalMem.File.Read | exercises/1/GuTao/globalmem/globalmem_kernel/globalmem_main.c:48-78 | no device gives `-EINVAL`; at `p >= 1024` it returns 0. Otherwise the memory span `[p, p+n)` with `n = min(count, 1024 - p)` is handed out and `n` is returned even if the copy faults; the position advances by `n` only when the copy succeeds. |
| GlobalMem.File.Write | exercises/1/GuTao/globalmem/globalmem_kernel/globalmem_main.c:80-115 | same return and position rules as the read. On success the memory becomes the store as written: the span is overwritten and only slots below `count` are XORed. On a fault after `k` bytes the span holds those bytes and then zeros. Bytes outside the span never change, and a write from `f_pos >= 1024` returns 0 with the whole memory unchanged. |
| GlobalMem.File.Llseek | exercises/1/GuTao/globalmem/globalmem_kernel/globalmem_main.c:117-157 | the 32-bit `(unsigned int)` conversion is applied in both branches. `SEEK_SET` range-checks the converted offset. `SEEK_CUR` range-checks `f_pos + offset` but adds the converted offset. Anything else is `-EINVAL` with no move. |
| GlobalMem.File.Ioctl | exercises/1/GuTao/globalmem/globalmem_kernel/globalmem_main.c:159-179 | no device gives `-EINVAL`; `GLOBALMEM_CLEAR` zeroes all 1024 bytes and returns 0; any other command is `-EINVAL` with memory unchanged |
| LxcHook.LastDot | exercises/2/LiXianCheng/lxchook.c:134 | `strrchr(path, '.')`: the index of a `.` with no `.` after it, or none when the path has no `.` |
| LxcHook.CaseEqual | exercises/2/LiXianCheng/lxchook.c:135 | `strcasecmp(..) == 0` holds exactly for strings of equal length that agree character by character once lower-cased |
| LxcHook.RefusedIffEndsWithExtension | exercises/2/LiXianCheng/lxchook.c:134-137 | the last-dot test refuses exactly the names whose last four characters are `.xyz` in some letter case |
| LxcHook.RefusedExamples | exercises/2/LiXianCheng/lxchook.c:134-137 | `b.txt.XyZ` and `.XYZ` are refused |
| LxcHook.AllowedExamples | exercises/2/LiXianCheng/lxchook.c:134-137 | `a.xyz.txt`, `f.xyzz`, `f.xy` and `xyz` are not refused |
| LxcHook.FilterExamples | exercises/2/LiXianCheng/lxchook.c:134-137 | `b.txt.XyZ` and `.XYZ` are refused; `a.xyz.txt`, `f.xyzz`, `f.xy` and `xyz` are not |
| LxcHook.SysOpen | exercises/2/LiXianCheng/lxchook.c:118-152 | a copied name ending in `.xyz` (any case) gives `-EACCES`. Every other call returns the original `open`'s result on the same arguments, including a failed allocation or copy (fail-open). |
| LxcHook.RefusedNeverForwards | exercises/2/LiXianCheng/lxchook.c:144-151 | a refused call's result does not depend on the original handler at all |
| LxcHook.SysClose | exercises/2/LiXianCheng/lxchook.c:154-159 | `close` returns the original `close`'s result for the same descriptor |
| LxcHook.Hook.constructor | exercises/2/LiXianCheng/lxchook.c:18-25 | no table is known and both saved originals are NULL |
| LxcHook.Hook.HookInit | exercises/2/LiXianCheng/lxchook.c:73-99 | a failed table lookup returns `-EFAULT` with nothing saved. Otherwise both slots are saved first; a failed `make_readwrite` then returns `-EFAULT` with the slots untouched, and success puts `lxc_sys_open`/`lxc_sys_close` in the two slots and returns 0. |
| LxcHook.Hook.HookUninit | exercises/2/LiXianCheng/lxchook.c:101-116 | a failed `make_readwrite` returns -1 with the slots untouched; success writes the saved originals back into the two slots and returns 0 |
| LxcHook.Hook.InitThenUninit | exercises/2/LiXianCheng/lxchook.c:84-112 | a successful init followed by a successful uninit leaves the table exactly as it was; a failed init leaves it untouched; a failed uninit leaves the hooks in place |
| LxcHook.RestoreUndoesHooks | exercises/2/LiXianCheng/lxchook.c:84-112 | writing the saved entries back over the hooked table gives the original table |
| HookCtrl.Truncate | exercises/2/GuTao/hook_demo/kernel/hook_ctrl.c:203 | the kept text is the prefix of length `min(\|s\|, n)` |
| HookCtrl.OpenCtrl | exercises/2/GuTao/hook_demo/kernel/hook_ctrl.c:74-105 | returns -1 exactly when allocation, length query and copy all succeed and the name cut to 1023 characters equals the stored path; otherwise 0 (allow) |
| HookCtrl.OpenCtrlRefuses | exercises/2/GuTao/hook_demo/kernel/hook_ctrl.c:83-97 | the refused names are the stored path itself and, when the stored path is 1023 characters long, every longer name that starts with it |
| HookCtrl.SysOpenNew | exercises/2/GuTao/hook_demo/kernel/hook_ctrl.c:107-120 | with no saved original it returns `-EACCES`. Disabled, it returns the original's result. Enabled, it returns `-EACCES` exactly for a copied name matching the stored path, and every other name reaches the original. |
| HookCtrl.StepsKeepGood | exercises/2/GuTao/hook_demo/kernel/hook_ctrl.c:122-205 | every control operation keeps the stored path within 1023 characters and the table's `open` slot present |
| HookCtrl.RegisterResult | exercises/2/GuTao/hook_demo/kernel/hook_ctrl.c:127-145 | registration returns 0 exactly when there is a table, the slot is not hooked and the page is found; otherwise -1 with nothing changed |
| HookCtrl.RegisterThenUnregister | exercises/2/GuTao/hook_demo/kernel/hook_ctrl.c:122-166 | registering saves the original `open` slot and installs `sys_open_new`; unregistering afterwards restores the table exactly and clears the hooked flag |
| HookCtrl.DisableKeepsHook | exercises/2/GuTao/hook_demo/kernel/hook_ctrl.c:195-198 | disable changes only the enable flag: the slot stays hooked and `sys_open_new` forwards every call |
| HookCtrl.EnableIdempotent | exercises/2/GuTao/hook_demo/kernel/hook_ctrl.c:186-193 | a second enable changes nothing |
| HookCtrl.EnabledWithoutHook | exercises/2/GuTao/hook_demo/kernel/hook_ctrl.c:186-193 | enable sets the flag even when registration fails, and a later enable does not retry, so the table stays unhooked |
| HookCtrl.StoredPathRefused | exercises/2/GuTao/hook_demo/kernel/hook_ctrl.c:107-120 | once a path is stored and the hook is enabled with an original saved, opening that path is refused and every name differing from it in its first 1023 characters is forwarded |
| HookCtrl.Ctrl.constructor | exercises/2/GuTao/hook_demo/kernel/hook_ctrl.c:18-25 | disabled, empty path, no table, no saved original, not hooked |
| HookCtrl.Ctrl.Register | exercises/2/GuTao/hook_demo/kernel/hook_ctrl.c:122-146 | with a table, not hooked and the page found, saves the `open` slot as the original, installs `sys_open_new`, sets hooked and returns 0; otherwise returns -1 with nothing changed |
| HookCtrl.Ctrl.Unregister | exercises/2/GuTao/hook_demo/kernel/hook_ctrl.c:148-166 | with a table, hooked and the page found, the saved original goes back into the slot and hooked is cleared; otherwise nothing changes |
| HookCtrl.Ctrl.Init | exercises/2/GuTao/hook_demo/kernel/hook_ctrl.c:168-184 | uses the looked-up table, or else the parameter table, and returns -1 only when both are missing |
| HookCtrl.Ctrl.Enable | exercises/2/GuTao/hook_demo/kernel/hook_ctrl.c:186-193 | when disabled, registers (ignoring the result) and sets the flag; when enabled, changes nothing |
| HookCtrl.Ctrl.Disable | exercises/2/GuTao/hook_demo/kernel/hook_ctrl.c:195-198 | clears the enable flag and nothing else |
| HookCtrl.Ctrl.SetPath | exercises/2/GuTao/hook_demo/kernel/hook_ctrl.c:200-205 | stores the first at most 1023 characters of the argument and nothing else |
| HookCtrl.Ctrl.Cleanup | exercises/2/GuTao/hook_demo/kernel/hook_ctrl.c:207-210 | the same change as unregistering |
| HookNode.Llseek | exercises/2/GuTao/hook_demo/kernel/hook_node.c:53-56 | every seek fails with `-EINVAL` |
| HookNode.IoctlOutcome | exercises/2/GuTao/hook_demo/kernel/hook_node.c:58-95 | no device or an unknown command gives `-EINVAL`, and enable or disable gives 0. `SET_HOOK_PATH` gives 0 with the path stored when allocation and copy succeed, and -1 otherwise. Every non-zero result leaves the state unchanged. |
| HookNode.EnableThenSetPath | exercises/2/GuTao/hook_demo/kernel/hook_node.c:70-89 | starting from a fresh control with the kernel's `open` in its slot, enable then `SET_HOOK_PATH p` installs `sys_open_new`; after that `p` is refused and other names reach the kernel's `open` |
| HookNode.File.Open | exercises/2/GuTao/hook_demo/kernel/hook_node.c:42-46 | `private_data` becomes the device and 0 is returned |
| HookNode.File.Ioctl | exercises/2/GuTao/hook_demo/kernel/hook_node.c:58-95 | the control state and the result are what `IoctlStep` gives for `private_data` being set and the command |

## Left out

- Module init/exit, device registration and the `goto` unwind chains are not modelled. Each device starts as its constructor describes.
- Locking (semaphores, mutexes, the spinlock, `atomic_t`) is not modelled. Each file operation is modelled as running alone; a failed `down_interruptible` is the `acquired` parameter.
- `ZfChar`: `dev_open`, `dev_read` and `dev_write` take no lock at all (the only unlock, in `dev_release`, is commented out). Two concurrent calls can race on `head`, `tail` and `size_of_message`. The model runs each call alone, so that race is not captured.
- `ZfChar.Device.Write` takes `buffer` as a readable sequence. `dev_write` reads the user pointer directly (`buffer[j]`, without `copy_from_user`), so the fault on a bad user pointer is not modelled.
- Partial copies are not modelled, with one exception. The `globalmem_write` fault is modelled: the span becomes `k` copied bytes, then zeros. Elsewhere a faulting copy is all-or-nothing, and after a faulting `lxc_write` copy `dev_buff` is taken to be all zero.
- Page-table manipulation and table discovery are reduced to booleans: `make_readwrite`, `make_readonly`, `disable_page_protect`, `restore_page_protect` (each "`lookup_address` found the page") and `kallsyms_lookup_name`. The page's RW bit itself is not tracked.
- `LxcHook.Hook.HookUninit` folds the case of no known table (a lookup of address 0) into the failing lookup. The source performs that lookup rather than testing for NULL.
- `LxcHook.ToLower` folds only ASCII capitals. The kernel's `tolower` also folds Latin-1 capitals, but only onto other Latin-1 letters, so the `.xyz` decision is the same.
- `HookNode.File.Ioctl` takes the string in the 1024-byte `SET_HOOK_PATH` buffer as given. A buffer without a NUL is not modelled.
- ZfChar.Device.Read: FIFO order is stated call by call. Each read hands out the front of the unread bytes, and each write appends its masked bytes. There is no ghost history of every byte ever written and read.
- `ZfChar.Device.Open` does not model `numberOpens` overflowing `int`. `ZfChar`'s `short` cursors never leave `[0, 256]`, so their width does not matter.
- The 64-bit `loff_t` overflow of `f_pos + offset` in `globalmem_llseek` is not modelled: the sum is unbounded.
- In `lxc_write`, the `fifo_len < BUFF_LEN` else-branch (exercises/1/LiXianCheng/cdev_ko/ko/lxcdev.c:220-224) is unreachable after the full-FIFO test, so it is not a branch of the model.
- `dev_release`, `hookdemo_release`, `globalmem_release`, exercise 1's `lxc_release` and `lxc_open` do nothing and are not modelled.
- The file operations of exercises/2/LiXianCheng/lxcdev.c are stubs and are not modelled. Its `lxcdev_init` calls `hook_init` after registering the device, and its `lxcdev_uninit` calls `hook_uninit`. That module glue falls under the init/exit line above.
- `lxcdev_uninit` ignores the result of `hook_uninit` and frees the module anyway. When `make_readwrite` fails there, `LxcHook.Hook.InitThenUninit` shows the table keeps `lxc_sys_open` and `lxc_sys_close` in its slots, and they stay there after the module is gone. The unload itself, and what a later call through those slots does, is not modelled.
- The user-space clients are not part of this model. The one fact taken from them is that the reader XORs again with 0x55 (`Bytes.ObfuscateInvolution`).
- The command code `0x80044c01` that `app.cpp` passes is not modelled. It matches the driver's `_IOR('L', 1, unsigned long)` only where `unsigned long` has 4 bytes. An 8-byte `unsigned long` (x86_64) is used throughout, so that call falls into the unknown-command case.
- `printk` logging is not modelled.
- `LxcDev.Device.GetFifoLen` stands for the 4 bytes the 8-byte copy reads past `fifo_len` by a parameter (`spill`), not by real stack contents.

## Findings

| source | as written | input that shows it | evidently intended | confidence | as-written member | corrected member |
|---|---|---|---|---|---|---|
| exercises/1/GuTao/globalmem/globalmem_kernel/globalmem_main.c:105 | the XOR loop runs `i` from `p` to `count`, an absolute index against a length | a one-byte write of 0x00 at position 1 stores 0x00 | mask every written byte, `i < p + count` | not executed | GlobalMem.StoreAsWrittenCounterexample | GlobalMem.StoreLoad |
| exercises/1/GuTao/globalmem/globalmem_kernel/globalmem_main.c:77 | read returns `count`, not `ret`, so a faulting `copy_to_user` looks like success (write likewise at line 114) | a 4-byte read at position 0 whose copy faults returns 4 | return `-EFAULT` | not executed | GlobalMem.TransferCounterexample | GlobalMem.TransferIntendedAdvances |
| exercises/1/GuTao/globalmem/globalmem_kernel/globalmem_main.c:148 | `SEEK_CUR` checks `f_pos + offset` but adds `(unsigned int)offset` | `SEEK_CUR` by -5 from position 10 lands at 4294967301 | land at `f_pos + offset` | not executed | GlobalMem.SeekCounterexample | GlobalMem.SeekStaysInside |
| exercises/1/GuTao/globalmem/globalmem_kernel/globalmem_main.c:129 | `SEEK_SET` range-checks the 32-bit truncation of the offset | `SEEK_SET` to `2^32 + 5` is accepted and lands at 5 | refuse offsets above 1024 | not executed | GlobalMem.SeekCounterexample | GlobalMem.SeekStaysInside |
| exercises/1/LiXianCheng/cdev_ko/ko/lxcdev.c:81 | both ioctls return 0 and drop `result` (line 98 likewise) | command 0 returns 0, and a refused pointer returns 0 | return `result` (`-ENOTTY`, `-EFAULT`, `-ERESTARTSYS`) | not executed | LxcDev.IoctlCounterexample | LxcDev.IoctlIntendedReports |
| exercises/1/LiXianCheng/cdev_ko/ko/lxcdev.c:55 | copies `sizeof(unsigned long)` bytes from the 4-byte `fifo_len` | FIFO length 3 with nonzero stack bytes after `fifo_len` gives the caller a value other than 3 | copy the length in full, as an `unsigned long` | not executed | LxcDev.FifoLenSpill | LxcDev.FifoLenIntendedStatus |
