/** The `globalmem` character device: 1024 bytes of kernel memory that
    `read` and `write` access at the file position, which `llseek` moves and
    the `GLOBALMEM_CLEAR` ioctl zeroes. `write` XORs stored bytes with 0x55. */
module GlobalMem {
  import opened Bytes

  const MemSize := 1024

  /** `_IO('g', 0)`. */
  const ClearCmd := 0x6700

  const SeekSet := 0
  const SeekCur := 1

  /** One more than the largest 32-bit `unsigned int`. */
  const UIntRange := 0x1_0000_0000

  /** What a call returns and the file position it leaves. */
  datatype Outcome = Outcome(ret: int, pos: int)

  /** The bytes a transfer at `pos` covers: `count` cut at the end of the
      memory, nothing from the end on. */
  function Span(pos: nat, count: nat): (n: nat)
  {
    if pos >= MemSize then 0 else Min(count, MemSize - pos)
  }

  lemma SpanBounds(pos: nat, count: nat)
    ensures Span(pos, count) <= count
    ensures pos + Span(pos, count) <= MemSize || Span(pos, count) == 0
    ensures pos < MemSize ==> (Span(pos, count) == count <==> pos + count <= MemSize)
  {
  }

  /** `m` with `w` laid over the bytes from `p` on. */
  function Place(m: seq<byte>, p: nat, w: seq<byte>): (r: seq<byte>)
    requires p + |w| <= |m|
    ensures |r| == |m|
  {
    m[..p] + w + m[p + |w|..]
  }

  lemma {:induction false} PlaceAt(m: seq<byte>, p: nat, w: seq<byte>, k: nat)
    requires p + |w| <= |m| && k < |m|
    ensures Place(m, p, w)[k] == if p <= k < p + |w| then w[k - p] else m[k]
  {
    var a := m[..p] + w;
    assert Place(m, p, w) == a + m[p + |w|..];
    if k < p {
      assert a[k] == m[k];
    } else if k < p + |w| {
      assert a[k] == w[k - p];
    }
  }

  /** How many of the `count` bytes written at `p` the loop
      `for (i = p; i < count; ++i)` masks: those whose slot is below `count`. */
  function Masked(p: nat, count: nat): (x: nat)
  {
    if count > p then count - p else 0
  }

  /** `globalmem_write` as written: the bytes are copied in at `p`, then only
      the first `Masked(p, |d|)` of them are XORed with 0x55. */
  function StoreAsWritten(m: seq<byte>, p: nat, d: seq<byte>): (r: seq<byte>)
    requires p + |d| <= |m|
    ensures |r| == |m|
  {
    var x := Masked(p, |d|);
    Place(m, p, Obfuscate(d[..x]) + d[x..])
  }

  /** The store the driver intends: every written byte XORed with 0x55. */
  function Store(m: seq<byte>, p: nat, d: seq<byte>): (r: seq<byte>)
    requires p + |d| <= |m|
    ensures |r| == |m|
  {
    Place(m, p, Obfuscate(d))
  }

  /** A faulting `copy_from_user` leaves the first `k` bytes copied and the
      rest of the destination zero-filled. */
  function StoreFaulted(m: seq<byte>, p: nat, d: seq<byte>, k: nat): (r: seq<byte>)
    requires p + |d| <= |m| && k <= |d|
    ensures |r| == |m|
  {
    Place(m, p, d[..k] + Fill(|d| - k, 0))
  }

  /** Round trip of the intended store: reading the written bytes back and
      XORing them once more gives the data, and no other byte changes. */
  lemma StoreLoad(m: seq<byte>, p: nat, d: seq<byte>)
    requires p + |d| <= |m|
    ensures Obfuscate(Store(m, p, d)[p..p + |d|]) == d
    ensures forall k :: 0 <= k < |m| && !(p <= k < p + |d|) ==> Store(m, p, d)[k] == m[k]
  {
    var s := Store(m, p, d);
    assert s[p..p + |d|] == Obfuscate(d);
    ObfuscateInvolution(d);
    forall k | 0 <= k < |m| && !(p <= k < p + |d|) ensures s[k] == m[k] {
      PlaceAt(m, p, Obfuscate(d), k);
    }
  }

  /** The write as written agrees with the intended store exactly when it
      starts at offset 0 or writes nothing: from any later offset, its last
      byte is stored unmasked. */
  lemma StoreAsWrittenAgrees(m: seq<byte>, p: nat, d: seq<byte>)
    requires p + |d| <= |m|
    ensures StoreAsWritten(m, p, d) == Store(m, p, d) <==> p == 0 || d == []
  {
    var x := Masked(p, |d|);
    if p == 0 || d == [] {
      assert d[..x] == d && d[x..] == [];
    } else {
      var last := |d| - 1;
      var a, b := Obfuscate(d[..x]) + d[x..], Obfuscate(d);
      PlaceAt(m, p, a, p + last);
      PlaceAt(m, p, b, p + last);
      assert a[last] == d[last];
      ObfuscateAt(d, last);
      XorMaskChanges(d[last]);
      assert StoreAsWritten(m, p, d)[p + last] != Store(m, p, d)[p + last];
    }
  }

  /** XOR with 0x55 changes every byte. */
  lemma XorMaskChanges(b: byte)
    ensures b ^ Mask != b
  {
    assert (b ^ Mask) ^ b == Mask;
  }

  /** The user program writes one byte at a time. Its second byte, written at
      offset 1, is stored as is, where the intended store masks it. */
  lemma StoreAsWrittenCounterexample(m: seq<byte>)
    requires |m| == MemSize
    ensures StoreAsWritten(m, 1, [0x00])[1] == 0x00
    ensures Store(m, 1, [0x00])[1] == 0x55
  {
    PlaceAt(m, 1, Obfuscate([0x00][..0]) + [0x00][0..], 1);
    PlaceAt(m, 1, Obfuscate([0x00]), 1);
  }

  /** `globalmem_read`'s return value and new position, as written: the
      count is returned even when `copy_to_user` faults and the position
      stays put. */
  function ReadOutcome(pos: nat, count: nat, attached: bool, copyOk: bool): Outcome
  {
    var n := Span(pos, count);
    if !attached then Outcome(-EINVAL, pos)
    else if pos >= MemSize then Outcome(0, pos)
    else if copyOk then Outcome(n, pos + n)
    else Outcome(n, pos)
  }

  /** `globalmem_write`'s return value and new position, as written; the
      same shape as the read. */
  function WriteOutcome(pos: nat, count: nat, attached: bool, copyOk: bool): Outcome
  {
    ReadOutcome(pos, count, attached, copyOk)
  }

  /** A read or write that returns the `ret` it computes: `-EFAULT` when the
      copy faults. */
  function TransferOutcomeIntended(pos: nat, count: nat, attached: bool, copyOk: bool): Outcome
  {
    var n := Span(pos, count);
    if !attached then Outcome(-EINVAL, pos)
    else if pos >= MemSize then Outcome(0, pos)
    else if copyOk then Outcome(n, pos + n)
    else Outcome(-EFAULT, pos)
  }

  /** With the intended return value, a non-negative result is always the
      distance the position moved, and an error leaves it in place. It
      agrees with the read and the write as written on every call whose copy
      succeeds or does not happen. */
  lemma TransferIntendedAdvances(pos: nat, count: nat, attached: bool, copyOk: bool)
    ensures var o := TransferOutcomeIntended(pos, count, attached, copyOk);
      && (o.ret >= 0 ==> o.pos == pos + o.ret && o.ret <= count)
      && (o.ret < 0 ==> o.pos == pos && (o.ret == -EINVAL || o.ret == -EFAULT))
      && (o.ret == -EFAULT <==> attached && pos < MemSize && !copyOk)
      && (o.ret != -EFAULT ==> o == ReadOutcome(pos, count, attached, copyOk) == WriteOutcome(pos, count, attached, copyOk))
  {
  }

  /** As written, a transfer whose copy faults reports every byte as moved
      although the position did not move; this is the only case where the
      original and the intended outcome differ. */
  lemma TransferAsWrittenHidesFault(pos: nat, count: nat, attached: bool, copyOk: bool)
    ensures (ReadOutcome(pos, count, attached, copyOk) == TransferOutcomeIntended(pos, count, attached, copyOk))
        <==> (!attached || pos >= MemSize || copyOk)
    ensures attached && pos < MemSize && !copyOk ==>
      ReadOutcome(pos, count, attached, copyOk) == Outcome(Span(pos, count), pos)
  {
  }

  /** A read of 4 bytes at offset 0 whose copy faults returns 4 as written. */
  lemma TransferCounterexample()
    ensures ReadOutcome(0, 4, true, false) == Outcome(4, 0)
    ensures TransferOutcomeIntended(0, 4, true, false) == Outcome(-EFAULT, 0)
  {
  }

  /** `globalmem_llseek` as written. Both branches convert `offset` to a
      32-bit `unsigned int` (`offset % 2^32`): `SEEK_SET` range-checks only
      the converted value, and `SEEK_CUR` checks `f_pos + offset` but then
      adds the converted value. */
  function SeekAsWritten(pos: int, offset: int, whence: int): Outcome
  {
    if whence == SeekSet then
      if offset < 0 then Outcome(-EINVAL, pos)
      else if offset % UIntRange > MemSize then Outcome(-EINVAL, pos)
      else Outcome(offset % UIntRange, offset % UIntRange)
    else if whence == SeekCur then
      if pos + offset > MemSize then Outcome(-EINVAL, pos)
      else if pos + offset < 0 then Outcome(-EINVAL, pos)
      else Outcome(pos + offset % UIntRange, pos + offset % UIntRange)
    else Outcome(-EINVAL, pos)
  }

  /** The seek the range checks describe: a new position between 0 and
      `GLOBALMEM_SIZE`, or `-EINVAL` and no move. */
  function Seek(pos: int, offset: int, whence: int): Outcome
  {
    if whence == SeekSet then
      if 0 <= offset <= MemSize then Outcome(offset, offset) else Outcome(-EINVAL, pos)
    else if whence == SeekCur then
      if 0 <= pos + offset <= MemSize then Outcome(pos + offset, pos + offset) else Outcome(-EINVAL, pos)
    else Outcome(-EINVAL, pos)
  }

  /** The intended seek keeps the position inside the memory and returns it;
      every refusal is `-EINVAL` with the position unchanged. On offsets that
      fit an `unsigned int` it is the seek as written. */
  lemma SeekStaysInside(pos: int, offset: int, whence: int)
    ensures var o := Seek(pos, offset, whence);
      && (o.ret >= 0 ==> o.ret == o.pos && 0 <= o.pos <= MemSize)
      && (o.ret < 0 ==> o.ret == -EINVAL && o.pos == pos)
      && (whence == SeekCur && o.ret >= 0 ==> o.pos == pos + offset)
      && (whence == SeekSet && o.ret >= 0 ==> o.pos == offset)
      && (0 <= pos && 0 <= offset < UIntRange ==> o == SeekAsWritten(pos, offset, whence))
  {
    if 0 <= pos {
      SeekAsWrittenAgrees(pos, offset, whence);
    }
  }

  /** The seek as written agrees with the intended one except for the
      offsets the 32-bit conversion changes: a `SEEK_CUR` with a negative
      offset, and a `SEEK_SET` beyond `2^32`. */
  lemma SeekAsWrittenAgrees(pos: int, offset: int, whence: int)
    requires 0 <= pos
    ensures 0 <= offset < UIntRange ==> SeekAsWritten(pos, offset, whence) == Seek(pos, offset, whence)
    ensures whence == SeekCur && -UIntRange <= offset < 0 && 0 <= pos + offset <= MemSize ==>
      SeekAsWritten(pos, offset, whence) == Outcome(pos + offset + UIntRange, pos + offset + UIntRange)
    ensures whence == SeekCur && -UIntRange <= offset < 0 && 0 <= pos + offset <= MemSize ==>
      SeekAsWritten(pos, offset, whence).pos > MemSize
  {
    if 0 <= offset < UIntRange {
      assert offset % UIntRange == offset;
    }
    if offset < 0 && offset >= -UIntRange {
      assert offset % UIntRange == offset + UIntRange;
    }
  }

  /** Moving 5 back from position 10 lands at 4294967301; seeking to
      `2^32 + 5` from the start lands at 5. */
  lemma SeekCounterexample()
    ensures SeekAsWritten(10, -5, SeekCur) == Outcome(4294967301, 4294967301)
    ensures Seek(10, -5, SeekCur) == Outcome(5, 5)
    ensures SeekAsWritten(0, UIntRange + 5, SeekSet) == Outcome(5, 5)
    ensures Seek(0, UIntRange + 5, SeekSet) == Outcome(-EINVAL, 0)
  {
    assert (-5) % UIntRange == UIntRange - 5;
    assert (UIntRange + 5) % UIntRange == 5;
  }

  /** The device: its 1024 bytes of memory. */
  class Device {
    var mem: array<byte>

    ghost predicate Valid()
      reads this
    {
      mem.Length == MemSize
    }

    /** Module initialisation: memory from `kzalloc`, all zero. */
    constructor ()
      ensures Valid() && fresh(mem) && mem[..] == Fill(MemSize, 0)
    {
      mem := new byte[MemSize](_ => 0);
    }
  }

  /** An open file on the device: its position `f_pos` and `private_data`,
      which `globalmem_open` points at the device. */
  class File {
    var fPos: int
    var privateData: Device?

    ghost predicate Valid()
      reads this, privateData
    {
      fPos >= 0 && (privateData != null ==> privateData.Valid())
    }

    /** A file whose `private_data` is not yet set. */
    constructor ()
      ensures Valid() && fPos == 0 && privateData == null
    {
      fPos, privateData := 0, null;
    }

    /** `globalmem_open`. */
    method Open(d: Device) returns (r: int)
      requires Valid() && d.Valid()
      modifies this`privateData
      ensures Valid() && privateData == d && r == 0
    {
      privateData := d;
      r := 0;
    }

    /** `globalmem_read`: `data` is what is handed to `copy_to_user`. */
    method Read(count: nat, copyOk: bool) returns (ret: int, data: seq<byte>)
      requires Valid()
      modifies this`fPos
      ensures Valid()
      ensures Outcome(ret, fPos) == ReadOutcome(old(fPos), count, privateData != null, copyOk)
      ensures data == if privateData != null && old(fPos) < MemSize
        then privateData.mem[old(fPos)..old(fPos) + Span(old(fPos), count)] else []
    {
      var p := fPos;
      var devp := privateData;
      if devp == null {
        return -EINVAL, [];
      }
      if p >= MemSize {
        return 0, [];
      }
      var n := count;
      if n > MemSize - p {
        n := MemSize - p;
      }
      data := devp.mem[p..p + n];
      if copyOk {
        fPos := fPos + n;
      }
      ret := n;
    }

    /** `globalmem_write`: `buf` holds the caller's `count` bytes; `fault`
        is `Some(k)` when `copy_from_user` faults after copying `k` bytes. */
    method Write(buf: seq<byte>, fault: Option<nat>) returns (ret: int)
      requires Valid()
      modifies this`fPos, if privateData != null then {privateData.mem} else {}
      ensures Valid()
      ensures var n := Span(old(fPos), |buf|);
        var copyOk := !(fault.Some? && fault.value < n);
        && Outcome(ret, fPos) == WriteOutcome(old(fPos), |buf|, privateData != null, copyOk)
        && (privateData != null && old(fPos) < MemSize ==>
              privateData.mem[..] == if copyOk then StoreAsWritten(old(privateData.mem[..]), old(fPos), buf[..n])
                                     else StoreFaulted(old(privateData.mem[..]), old(fPos), buf[..n], fault.value))
        && (privateData != null && old(fPos) >= MemSize ==> privateData.mem[..] == old(privateData.mem[..]))
    {
      var p := fPos;
      var devp := privateData;
      if devp == null {
        return -EINVAL;
      }
      if p >= MemSize {
        return 0;
      }
      var count := |buf|;
      if count > MemSize - p {
        count := MemSize - p;
      }
      var d := buf[..count];
      ghost var before := devp.mem[..];
      if fault.Some? && fault.value < count {
        var k := fault.value;
        var w := d[..k] + Fill(count - k, 0);
        forall i | p <= i < p + count {
          devp.mem[i] := w[i - p];
        }
        PlacedBytes(before, devp.mem[..], p, w);
        ret := count;
      } else {
        forall i | p <= i < p + count {
          devp.mem[i] := d[i - p];
        }
        var i := p;
        while i < count
          invariant i == p || p <= i <= count
          invariant fPos == old(fPos)
          invariant forall k :: 0 <= k < MemSize ==>
            devp.mem[k] == if p <= k < p + count then (if k < i then d[k - p] ^ Mask else d[k - p]) else before[k]
        {
          devp.mem[i] := devp.mem[i] ^ Mask;
          i := i + 1;
        }
        XorLoopStores(before, devp.mem[..], p, d, i);
        fPos := fPos + count;
        ret := count;
      }
    }

    /** `globalmem_llseek`: `offset % UIntRange` is the source's
        `(unsigned int)offset`. */
    method Llseek(offset: int, whence: int) returns (ret: int)
      requires Valid()
      modifies this`fPos
      ensures Valid()
      ensures Outcome(ret, fPos) == SeekAsWritten(old(fPos), offset, whence)
    {
      if whence == SeekSet {
        if offset < 0 {
          return -EINVAL;
        }
        if offset % UIntRange > MemSize {
          return -EINVAL;
        }
        fPos := offset % UIntRange;
        ret := fPos;
      } else if whence == SeekCur {
        if fPos + offset > MemSize {
          return -EINVAL;
        }
        if fPos + offset < 0 {
          return -EINVAL;
        }
        fPos := fPos + offset % UIntRange;
        ret := fPos;
      } else {
        ret := -EINVAL;
      }
    }

    /** `globalmem_ioctl`: `GLOBALMEM_CLEAR` zeroes the memory. */
    method Ioctl(cmd: int) returns (r: int)
      requires Valid()
      modifies if privateData != null then {privateData.mem} else {}
      ensures Valid()
      ensures privateData == null ==> r == -EINVAL
      ensures privateData != null ==>
        if cmd == ClearCmd then r == 0 && privateData.mem[..] == Fill(MemSize, 0)
        else r == -EINVAL && privateData.mem[..] == old(privateData.mem[..])
    {
      var devp := privateData;
      if devp == null {
        return -EINVAL;
      }
      if cmd == ClearCmd {
        forall i | 0 <= i < MemSize {
          devp.mem[i] := 0;
        }
        assert devp.mem[..] == Fill(MemSize, 0);
        r := 0;
      } else {
        r := -EINVAL;
      }
    }
  }

  /** After the copy, the memory is the old one with `w` laid over it at `p`. */
  lemma PlacedBytes(before: seq<byte>, after: seq<byte>, p: nat, w: seq<byte>)
    requires |before| == |after| && p + |w| <= |before|
    requires forall k :: 0 <= k < |after| ==> after[k] == if p <= k < p + |w| then w[k - p] else before[k]
    ensures after == Place(before, p, w)
  {
    forall k | 0 <= k < |after| ensures after[k] == Place(before, p, w)[k] {
      PlaceAt(before, p, w, k);
    }
  }

  /** After the copy and the loop `for (i = p; i < count; ++i)`, the memory
      is the store as written. */
  lemma XorLoopStores(before: seq<byte>, after: seq<byte>, p: nat, d: seq<byte>, i: int)
    requires |before| == |after| == MemSize && p + |d| <= MemSize
    requires i == if |d| > p then |d| else p
    requires forall k :: 0 <= k < MemSize ==>
      after[k] == if p <= k < p + |d| then (if k < i then d[k - p] ^ Mask else d[k - p]) else before[k]
    ensures after == StoreAsWritten(before, p, d)
  {
    var x := Masked(p, |d|);
    var w := Obfuscate(d[..x]) + d[x..];
    forall k | 0 <= k < MemSize ensures after[k] == Place(before, p, w)[k] {
      PlaceAt(before, p, w, k);
      if p <= k < p + |d| {
        var j := k - p;
        if j < x {
          ObfuscateAt(d[..x], j);
          assert w[j] == Obfuscate(d[..x])[j];
          assert k < i;
        } else {
          assert w[j] == d[x..][j - x];
          assert k >= i;
        }
      }
    }
  }
}
