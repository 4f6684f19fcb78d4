/** The `zfchar` character device: a hand-written 256-slot circular buffer.
    `dev_write` stores each byte XORed with 0x55 at `head` onward, `dev_read`
    hands out bytes from `tail` onward, both wrapping at the end of the array. */
module ZfChar {
  import opened Bytes

  const BufferLength := 256

  /** The slot `x` lands on once it wraps past the end of the buffer: `x % 256`
      for the sums of a cursor and a count that the driver forms. */
  function Wrap(x: nat): (r: nat)
    requires x < 2 * BufferLength
    ensures r < BufferLength
  {
    if x < BufferLength then x else x - BufferLength
  }

  /** `Wrap` is the source's `x %= BUFFER_LENGTH` on the values it is used on. */
  lemma WrapIsMod(x: nat)
    requires x < 2 * BufferLength
    ensures Wrap(x) == x % BufferLength
  {
  }

  /** How many slots slot `k` lies after slot `h`, going round the ring:
      `(k - h) % 256`. */
  function Ahead(k: nat, h: nat): (r: nat)
    requires k < BufferLength && h < BufferLength
    ensures r < BufferLength
  {
    if h <= k then k - h else k + BufferLength - h
  }

  /** The `n` slots of the ring `s` that start at `t`, wrapping at the end. */
  function Ring(s: seq<byte>, t: nat, n: nat): (r: seq<byte>)
    requires |s| == BufferLength && t < BufferLength && n <= BufferLength
    ensures |r| == n
  {
    seq(n, i requires 0 <= i < n => s[Wrap(t + i)])
  }

  /** Dropping the first `d` bytes of a ring window is the window that starts
      `d` slots later. */
  lemma RingDrop(s: seq<byte>, t: nat, n: nat, d: nat)
    requires |s| == BufferLength && t < BufferLength && n <= BufferLength && d <= n
    ensures Ring(s, Wrap(t + d), n - d) == Ring(s, t, n)[d..]
  {
    var a, b := Ring(s, Wrap(t + d), n - d), Ring(s, t, n)[d..];
    forall i | 0 <= i < n - d ensures a[i] == b[i] {
      assert Wrap(Wrap(t + d) + i) == Wrap(t + (d + i));
    }
  }

  /** The buffer `s` with `w` stamped into the `|w|` slots from `h` on,
      wrapping at the end; every other slot keeps its byte. */
  function Stamp(s: seq<byte>, h: nat, w: seq<byte>): (r: seq<byte>)
    requires |s| == BufferLength && h < BufferLength && |w| <= BufferLength
    ensures |r| == BufferLength
  {
    seq(BufferLength, k requires 0 <= k < BufferLength => if Ahead(k, h) < |w| then w[Ahead(k, h)] else s[k])
  }

  /** Stamping `w` right after the window that starts at `t` extends the
      window by `w`, whatever lay in those slots before. */
  lemma RingStamp(s: seq<byte>, t: nat, n: nat, w: seq<byte>)
    requires |s| == BufferLength && t < BufferLength && n + |w| <= BufferLength
    ensures Ring(Stamp(s, Wrap(t + n), w), t, n + |w|) == Ring(s, t, n) + w
  {
    var h := Wrap(t + n);
    var a, b := Ring(Stamp(s, h, w), t, n + |w|), Ring(s, t, n) + w;
    forall i | 0 <= i < n + |w| ensures a[i] == b[i] {
      var k := Wrap(t + i);
      if i < n {
        assert Ahead(k, h) == BufferLength + i - n;
      } else {
        assert Ahead(k, h) == i - n;
      }
    }
  }

  /** The state of the driver: the statics `message`, `head`, `tail`,
      `size_of_message` and `numberOpens`. */
  class Device {
    var message: array<byte>
    var sizeOfMessage: int
    var head: int
    var tail: int
    var numberOpens: int

    /** The cursors stay in range and `head` is `size_of_message` slots after `tail`. */
    ghost predicate Valid()
      reads this
    {
      && message.Length == BufferLength
      && 0 <= sizeOfMessage <= BufferLength
      && 0 <= tail < BufferLength
      && head == Wrap(tail + sizeOfMessage)
    }

    /** The unread bytes, oldest first, still masked. */
    ghost function Contents(): (r: seq<byte>)
      reads this, message
      requires Valid()
      ensures |r| == sizeOfMessage
    {
      Ring(message[..], tail, sizeOfMessage)
    }

    /** The module's static initialisers: an all-zero buffer, nothing stored. */
    constructor ()
      ensures Valid() && fresh(message)
      ensures message[..] == Fill(BufferLength, 0)
      ensures head == 0 && tail == 0 && sizeOfMessage == 0 && numberOpens == 0
      ensures Contents() == []
    {
      message := new byte[BufferLength](_ => 0);
      sizeOfMessage, head, tail, numberOpens := 0, 0, 0, 0;
    }

    /** `dev_open`: count one more open; always succeeds. */
    method Open() returns (r: int)
      modifies this`numberOpens
      ensures numberOpens == old(numberOpens) + 1
      ensures r == 0
    {
      numberOpens := numberOpens + 1;
      r := 0;
    }

    /** `dev_read`: hand out up to `len` of the oldest bytes, still masked.
        `copyOk` says both `copy_to_user` calls succeed; `data` is what
        reaches the caller. The source ignores both results, so the returned
        count and the new state are the same either way: a faulting copy
        still consumes the bytes and reports them as read. */
    method Read(len: nat, copyOk: bool) returns (n: int, data: seq<byte>)
      requires Valid()
      modifies this`tail, this`sizeOfMessage
      ensures Valid()
      ensures n == Min(len, old(sizeOfMessage))
      ensures data == if copyOk then old(Contents())[..n] else []
      ensures Contents() == old(Contents())[n..]
      ensures tail == Wrap(old(tail) + n) && sizeOfMessage == old(sizeOfMessage) - n
    {
      var rdlen := if len <= sizeOfMessage then len else sizeOfMessage;
      var rdlen1 := if tail + rdlen < BufferLength then rdlen else BufferLength - tail;
      var rdlen2 := rdlen - rdlen1;
      var sent := message[tail..tail + rdlen1] + message[..rdlen2];
      ghost var m := message[..];
      assert sent == m[tail..tail + rdlen1] + m[..rdlen2];
      ReadSplit(m, tail, sizeOfMessage, rdlen, sent);
      if copyOk {
        data := sent;
      } else {
        data := [];
      }

      tail, sizeOfMessage := Wrap(tail + rdlen), sizeOfMessage - rdlen;
      assert message[..] == m;
      n := rdlen;
    }

    /** `dev_write`: store as many of `buffer`'s bytes as fit, each XORed with
        0x55, in the slots from `head` on (wrapping to slot 0); no other slot
        changes. */
    method Write(buffer: seq<byte>) returns (n: int)
      requires Valid()
      modifies this`head, this`sizeOfMessage, message
      ensures Valid()
      ensures n == Min(|buffer|, BufferLength - old(sizeOfMessage))
      ensures message[..] == Stamp(old(message[..]), old(head), Obfuscate(buffer[..n]))
      ensures Contents() == old(Contents()) + Obfuscate(buffer[..n])
      ensures head == Wrap(old(head) + n) && sizeOfMessage == old(sizeOfMessage) + n
    {
      var wtlen := if |buffer| <= BufferLength - sizeOfMessage then |buffer| else BufferLength - sizeOfMessage;
      var wtlen1 := if BufferLength - head <= wtlen then BufferLength - head else wtlen;
      var wtlen2 := wtlen - wtlen1;
      ghost var before := message[..];
      CopyIn(buffer, wtlen1, wtlen2);
      RingStamp(before, tail, sizeOfMessage, Obfuscate(buffer[..wtlen]));
      assert Wrap(head + wtlen) == Wrap(tail + (sizeOfMessage + wtlen));
      head, sizeOfMessage := Wrap(head + wtlen), sizeOfMessage + wtlen;
      n := wtlen;
    }

    /** The two copy loops of `dev_write`: `w1` masked bytes into the slots
        from `head` to the end of the array, then `w2` more from slot 0. */
    method CopyIn(buffer: seq<byte>, w1: nat, w2: nat)
      requires Valid() && head + w1 <= BufferLength && w1 + w2 <= |buffer| && w1 + w2 <= BufferLength
      requires w2 > 0 ==> head + w1 == BufferLength && w2 <= head
      modifies message
      ensures message[..] == Stamp(old(message[..]), head, Obfuscate(buffer[..w1 + w2]))
    {
      ghost var before := message[..];
      var h := head;
      var j := 0;
      for i := h to h + w1
        invariant j == i - h
        invariant forall k :: 0 <= k < BufferLength ==>
          message[k] == if h <= k < i then buffer[k - h] ^ Mask else before[k]
      {
        message[i] := buffer[j] ^ Mask;
        j := j + 1;
      }

      for i := 0 to w2
        invariant j == w1 + i
        invariant forall k :: 0 <= k < BufferLength ==>
          message[k] == if h <= k < h + w1 then buffer[k - h] ^ Mask
                        else if k < i then buffer[w1 + k] ^ Mask
                        else before[k]
      {
        message[i] := buffer[j] ^ Mask;
        j := j + 1;
      }
      WriteLoops(before, message[..], h, buffer, w1, w2);
    }
  }

  /** The two loops of `dev_write` (slots `h ..` up to the end of the array,
      then slots `0 ..`) stamp the masked bytes of `u` from slot `h` on. */
  lemma WriteLoops(before: seq<byte>, after: seq<byte>, h: nat, u: seq<byte>, w1: nat, w2: nat)
    requires |before| == |after| == BufferLength && h < BufferLength && h + w1 <= BufferLength
    requires w1 + w2 <= |u| && w1 + w2 <= BufferLength
    requires w2 > 0 ==> h + w1 == BufferLength && w2 <= h
    requires forall k :: 0 <= k < BufferLength ==>
      after[k] == if h <= k < h + w1 then u[k - h] ^ Mask
                  else if k < w2 then u[w1 + k] ^ Mask
                  else before[k]
    ensures after == Stamp(before, h, Obfuscate(u[..w1 + w2]))
  {
    var v := u[..w1 + w2];
    var w := Obfuscate(v);
    var st := Stamp(before, h, w);
    forall k | 0 <= k < BufferLength ensures after[k] == st[k] {
      var a := Ahead(k, h);
      assert st[k] == if a < |v| then w[a] else before[k];
      if h <= k < h + w1 {
        assert a == k - h;
        ObfuscateAt(v, a);
        assert after[k] == v[a] ^ Mask;
      } else if k < w2 {
        assert a == w1 + k;
        ObfuscateAt(v, a);
        assert after[k] == v[a] ^ Mask;
      } else {
        assert a >= |v|;
        assert after[k] == before[k];
      }
    }
  }

  /** What `dev_read` hands out, the two segments `message[tail..]` and
      `message[..rdlen2]`, is the front of the window, and what stays is the
      window that starts `rdlen` slots later. */
  lemma ReadSplit(m: seq<byte>, t: nat, sz: nat, rdlen: nat, data: seq<byte>)
    requires |m| == BufferLength && t < BufferLength && rdlen <= sz <= BufferLength
    requires var rdlen1 := if t + rdlen < BufferLength then rdlen else BufferLength - t;
      data == m[t..t + rdlen1] + m[..rdlen - rdlen1]
    ensures data == Ring(m, t, sz)[..rdlen]
    ensures Ring(m, Wrap(t + rdlen), sz - rdlen) == Ring(m, t, sz)[rdlen..]
    ensures Wrap(Wrap(t + rdlen) + (sz - rdlen)) == Wrap(t + sz)
  {
    var rdlen1 := if t + rdlen < BufferLength then rdlen else BufferLength - t;
    var unread := Ring(m, t, sz);
    forall i | 0 <= i < rdlen ensures data[i] == unread[i] {
      if i < rdlen1 {
        assert data[i] == m[t + i] && Wrap(t + i) == t + i;
      } else {
        assert data[i] == m[i - rdlen1] && Wrap(t + i) == i - rdlen1;
      }
    }
    RingDrop(m, t, sz, rdlen);
  }
}
