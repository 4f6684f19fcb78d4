/** The `lxc` character device: a 4096-byte kernel FIFO that `lxc_write`
    fills with the caller's bytes XORed with 0x55 and `lxc_read` drains, plus
    an ioctl that reports how many bytes the FIFO holds. */
module LxcDev {
  import opened Bytes

  /** Capacity of the FIFO and size of the scratch buffer `dev_buff`. */
  const BuffLen := 4096

  /** `_IOR('L', 1, unsigned long)` with an 8-byte `unsigned long`. */
  const GetFifoLenCmd := 0x8008_4C01

  /** One more than the largest 32-bit `unsigned int`. */
  const Word := 0x1_0000_0000

  /** What an ioctl returns, and the value it leaves in the caller's
      `unsigned long`, if it writes one. */
  datatype Reply = Reply(status: int, copied: Option<int>)

  /** `get_fifo_len` as written: `access_ok` is checked before the semaphore
      is taken; a fault after that still releases it. The copy takes
      `sizeof(unsigned long)` (8) bytes from the 4-byte `fifo_len`, so the
      caller's upper 32 bits receive `spill`, the 4 bytes that follow
      `fifo_len` on the kernel stack. */
  function FifoLenReply(len: nat, accessOk: bool, acquired: bool, copyOk: bool, spill: nat): Reply
    requires len < Word && spill < Word
  {
    if !accessOk then Reply(-EFAULT, None)
    else if !acquired then Reply(-ERESTARTSYS, None)
    else if !copyOk then Reply(-EFAULT, None)
    else Reply(0, Some(len + spill * Word))
  }

  /** `get_fifo_len` as its callers expect it: the FIFO length, in full. */
  function FifoLenReplyIntended(len: nat, accessOk: bool, acquired: bool, copyOk: bool): Reply
  {
    if !accessOk then Reply(-EFAULT, None)
    else if !acquired then Reply(-ERESTARTSYS, None)
    else if !copyOk then Reply(-EFAULT, None)
    else Reply(0, Some(len))
  }

  /** `lxc_unlocked_ioctl` and `lxc_compat_ioctl` as written: the status of
      `get_fifo_len`, and `-ENOTTY` for an unknown command, are stored in
      `result` and then dropped; the call always returns 0. */
  function IoctlReply(cmd: int, inner: Reply): Reply
  {
    if cmd == GetFifoLenCmd then Reply(0, inner.copied) else Reply(0, None)
  }

  /** The ioctl returning the `result` it computes. */
  function IoctlReplyIntended(cmd: int, inner: Reply): Reply
  {
    if cmd == GetFifoLenCmd then inner else Reply(-ENOTTY, None)
  }

  /** `get_fifo_len` succeeds exactly when the pointer check, the semaphore
      and the copy all succeed; only then is the caller's value written, and
      its lower 32 bits are then the FIFO length. */
  lemma FifoLenReplyStatus(len: nat, accessOk: bool, acquired: bool, copyOk: bool, spill: nat)
    requires len < Word && spill < Word
    ensures var r := FifoLenReply(len, accessOk, acquired, copyOk, spill);
      && (r.status == 0 <==> accessOk && acquired && copyOk)
      && (r.copied.Some? <==> r.status == 0)
      && (r.status != 0 ==> r.status == -EFAULT || r.status == -ERESTARTSYS)
      && (!accessOk || (acquired && !copyOk) ==> r.status == -EFAULT)
      && (r.copied.Some? ==> r.copied.value % Word == len && r.copied.value / Word == spill)
  {
    var r := FifoLenReply(len, accessOk, acquired, copyOk, spill);
    if r.copied.Some? {
      assert r.copied.value == len + spill * Word;
      DivModWord(len, spill);
    }
  }

  /** Splitting `lo + hi * 2^32` back into its two 32-bit words. */
  lemma DivModWord(lo: nat, hi: nat)
    requires lo < Word
    ensures (lo + hi * Word) % Word == lo && (lo + hi * Word) / Word == hi
  {
    var x := lo + hi * Word;
    assert x == hi * Word + lo;
  }

  /** The caller receives exactly the FIFO length only when the 4 stack
      bytes after `fifo_len` happen to be zero. */
  lemma FifoLenSpill(len: nat, spill: nat)
    requires len < Word && spill < Word
    ensures FifoLenReply(len, true, true, true, spill) == FifoLenReplyIntended(len, true, true, true)
        <==> spill == 0
  {
    if spill != 0 {
      assert len + spill * Word >= Word > len;
    }
  }

  /** The corrected `get_fifo_len` differs from the original only in the
      value it copies out: the same status for every outcome of the checks,
      and the very same reply except on a successful copy with nonzero
      stack bytes after `fifo_len`. */
  lemma FifoLenIntendedStatus(len: nat, accessOk: bool, acquired: bool, copyOk: bool, spill: nat)
    requires len < Word && spill < Word
    ensures FifoLenReplyIntended(len, accessOk, acquired, copyOk).status
         == FifoLenReply(len, accessOk, acquired, copyOk, spill).status
    ensures FifoLenReplyIntended(len, accessOk, acquired, copyOk).copied.Some?
        <==> accessOk && acquired && copyOk
    ensures accessOk && acquired && copyOk ==>
      FifoLenReplyIntended(len, accessOk, acquired, copyOk).copied == Some(len)
    ensures FifoLenReplyIntended(len, accessOk, acquired, copyOk) == FifoLenReply(len, accessOk, acquired, copyOk, spill)
        <==> !(accessOk && acquired && copyOk) || spill == 0
  {
    if accessOk && acquired && copyOk {
      FifoLenSpill(len, spill);
    }
  }

  /** The ioctl as written never reports a failure: an unknown command and a
      failed `get_fifo_len` both return 0, and a failed copy leaves the
      caller's value unwritten with nothing to say so. */
  lemma IoctlHidesErrors(cmd: int, inner: Reply)
    ensures IoctlReply(cmd, inner).status == 0
    ensures cmd != GetFifoLenCmd ==> IoctlReply(cmd, inner).copied == None
    ensures cmd == GetFifoLenCmd ==> IoctlReply(cmd, inner).copied == inner.copied
  {
  }

  /** The ioctl returning `result` reports `-ENOTTY` for an unknown command
      and passes every status of `get_fifo_len` through; it gives the same
      reply as the original exactly on a successful length query. */
  lemma IoctlIntendedReports(cmd: int, inner: Reply)
    ensures IoctlReplyIntended(cmd, inner).status == 0 <==> cmd == GetFifoLenCmd && inner.status == 0
    ensures cmd != GetFifoLenCmd ==> IoctlReplyIntended(cmd, inner).status == -ENOTTY
    ensures IoctlReplyIntended(cmd, inner).copied == IoctlReply(cmd, inner).copied
    ensures IoctlReplyIntended(cmd, inner) == IoctlReply(cmd, inner) <==> cmd == GetFifoLenCmd && inner.status == 0
  {
  }

  /** An unknown command, and a refused pointer, both return 0 as written;
      the intended ioctl returns `-ENOTTY` and `-EFAULT`. */
  lemma IoctlCounterexample()
    ensures IoctlReply(0, Reply(0, None)).status == 0
    ensures IoctlReplyIntended(0, Reply(0, None)).status == -ENOTTY
    ensures IoctlReply(GetFifoLenCmd, FifoLenReply(3, false, true, true, 0)).status == 0
    ensures IoctlReplyIntended(GetFifoLenCmd, FifoLenReplyIntended(3, false, true, true)).status == -EFAULT
  {
  }

  /** The device: the FIFO `dev_fifo` (its contents, oldest first) and the
      scratch buffer `dev_buff`. */
  class Device {
    var fifo: seq<byte>
    var devBuff: array<byte>

    /** The FIFO never holds more than its capacity. */
    ghost predicate Valid()
      reads this
    {
      devBuff.Length == BuffLen && |fifo| <= BuffLen
    }

    /** Module initialisation: an empty FIFO of 4096 bytes. */
    constructor ()
      ensures Valid() && fifo == [] && fresh(devBuff)
    {
      fifo := [];
      devBuff := new byte[BuffLen](_ => 0);
    }

    /** `get_fifo_len`, called from both ioctls; it reads the FIFO and
        changes nothing. */
    method GetFifoLen(accessOk: bool, acquired: bool, copyOk: bool, spill: nat) returns (r: Reply)
      requires Valid() && spill < Word
      ensures r == FifoLenReply(|fifo|, accessOk, acquired, copyOk, spill)
    {
      if !accessOk {
        return Reply(-EFAULT, None);
      }
      if !acquired {
        return Reply(-ERESTARTSYS, None);
      }
      var fifoLen := |fifo|;
      if !copyOk {
        r := Reply(-EFAULT, None);
      } else {
        r := Reply(0, Some(fifoLen + spill * Word));
      }
    }

    /** `lxc_unlocked_ioctl`. */
    method UnlockedIoctl(cmd: int, accessOk: bool, acquired: bool, copyOk: bool, spill: nat) returns (r: Reply)
      requires Valid() && spill < Word
      ensures r == IoctlReply(cmd, FifoLenReply(|fifo|, accessOk, acquired, copyOk, spill))
    {
      var result := Reply(0, None);
      if cmd == GetFifoLenCmd {
        result := GetFifoLen(accessOk, acquired, copyOk, spill);
      } else {
        result := Reply(-ENOTTY, None);
      }
      r := Reply(0, result.copied);
    }

    /** `lxc_compat_ioctl`: the same dispatch as `lxc_unlocked_ioctl`. */
    method CompatIoctl(cmd: int, accessOk: bool, acquired: bool, copyOk: bool, spill: nat) returns (r: Reply)
      requires Valid() && spill < Word
      ensures r == IoctlReply(cmd, FifoLenReply(|fifo|, accessOk, acquired, copyOk, spill))
    {
      var result := Reply(0, None);
      if cmd == GetFifoLenCmd {
        result := GetFifoLen(accessOk, acquired, copyOk, spill);
      } else {
        result := Reply(-ENOTTY, None);
      }
      r := Reply(0, result.copied);
    }

    /** `lxc_read`: take up to `count` of the oldest bytes out of the FIFO
        into `dev_buff` and copy them to the caller. The bytes leave the FIFO
        before the copy, so a faulting copy loses them. `data` is what the
        caller receives. */
    method Read(count: nat, acquired: bool, copyOk: bool) returns (result: int, data: seq<byte>)
      requires Valid()
      modifies this`fifo, devBuff
      ensures Valid()
      ensures var n := Min(count, |old(fifo)|);
        if count == 0 || !acquired || old(fifo) == [] then
          && result == (if count != 0 && !acquired then -ERESTARTSYS else 0)
          && data == [] && fifo == old(fifo) && devBuff[..] == old(devBuff[..])
        else
          && fifo == old(fifo)[n..]
          && devBuff[..] == old(fifo)[..n] + Fill(BuffLen - n, 0)
          && (if copyOk then result == n && data == old(fifo)[..n]
              else result == -EFAULT && data == [])
    {
      if count == 0 {
        return 0, [];
      }
      if !acquired {
        return -ERESTARTSYS, [];
      }
      if |fifo| == 0 {
        return 0, [];
      }
      var readLen := if |fifo| >= count then count else |fifo|;
      var out := fifo[..readLen];
      forall k | 0 <= k < BuffLen {
        devBuff[k] := if k < readLen then out[k] else 0;
      }
      fifo := fifo[readLen..];
      assert devBuff[..] == out + Fill(BuffLen - readLen, 0);
      if !copyOk {
        return -EFAULT, [];
      }
      result, data := readLen, devBuff[..readLen];
    }

    /** `lxc_write`: copy as many of the caller's bytes as the FIFO has room
        for into `dev_buff`, XOR each with 0x55 in place, and push them into
        the FIFO. `buff` holds the caller's `count` bytes. */
    method Write(buff: seq<byte>, acquired: bool, copyOk: bool) returns (result: int)
      requires Valid()
      modifies this`fifo, devBuff
      ensures Valid()
      ensures var n := Min(|buff|, BuffLen - |old(fifo)|);
        if |buff| == 0 || !acquired || |old(fifo)| == BuffLen then
          && result == (if |buff| != 0 && !acquired then -ERESTARTSYS else 0)
          && fifo == old(fifo) && devBuff[..] == old(devBuff[..])
        else if !copyOk then
          result == -EFAULT && fifo == old(fifo) && devBuff[..] == Fill(BuffLen, 0)
        else
          && result == n
          && fifo == old(fifo) + Obfuscate(buff[..n])
          && devBuff[..] == Obfuscate(buff[..n]) + Fill(BuffLen - n, 0)
    {
      if |buff| == 0 {
        return 0;
      }
      if !acquired {
        return -ERESTARTSYS;
      }
      if |fifo| == BuffLen {
        return 0;
      }
      // The FIFO is not full here, so the source's `fifo_len < BUFF_LEN` test always holds.
      var fifoLen := |fifo|;
      var remainLen := BuffLen - fifoLen;
      var writenLen := if |buff| >= remainLen then remainLen else |buff|;
      if !copyOk {
        forall k | 0 <= k < BuffLen {
          devBuff[k] := 0;
        }
        assert devBuff[..] == Fill(BuffLen, 0);
        result := -EFAULT;
      } else {
        forall k | 0 <= k < BuffLen {
          devBuff[k] := if k < writenLen then buff[k] else 0;
        }
        ghost var plain := buff[..writenLen];
        var index := 0;
        while index < writenLen
          invariant 0 <= index <= writenLen && fifo == old(fifo)
          invariant forall k :: 0 <= k < BuffLen ==>
            devBuff[k] == if k < index then plain[k] ^ Mask else if k < writenLen then plain[k] else 0
        {
          devBuff[index] := devBuff[index] ^ Mask;
          index := index + 1;
        }
        MaskedPrefix(devBuff[..], plain);
        assert devBuff[..writenLen] == Obfuscate(plain);
        fifo := fifo + devBuff[..writenLen];
        result := writenLen;
      }
    }
  }

  /** After the XOR loop, the scratch buffer holds the copied bytes, masked,
      followed by the zeros `memset` left. */
  lemma MaskedPrefix(b: seq<byte>, plain: seq<byte>)
    requires |b| == BuffLen && |plain| <= BuffLen
    requires forall k :: 0 <= k < BuffLen ==> b[k] == if k < |plain| then plain[k] ^ Mask else 0
    ensures b == Obfuscate(plain) + Fill(BuffLen - |plain|, 0)
  {
    var o, z := Obfuscate(plain), Fill(BuffLen - |plain|, 0);
    var w := o + z;
    forall k | 0 <= k < BuffLen ensures b[k] == w[k] {
      if k < |plain| {
        ObfuscateAt(plain, k);
        assert w[k] == o[k];
      } else {
        assert w[k] == z[k - |plain|];
      }
    }

  }
}
