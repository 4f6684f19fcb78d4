/** Bytes and the XOR-0x55 obfuscation shared by the three character devices. */
module Bytes {
  type byte = bv8

  /** Every device XORs stored bytes with this constant. */
  const Mask: byte := 0x55

  /** The Linux error numbers the drivers return, negated. */
  const EFAULT := 14
  const EACCES := 13
  const EINVAL := 22
  const ENOTTY := 25
  const ERESTARTSYS := 512

  datatype Option<T> = None | Some(value: T)

  function Min(a: int, b: int): (m: int)
    ensures m <= a && m <= b
    ensures m == a || m == b
  {
    if a <= b then a else b
  }

  /** Each byte of `s` XORed with `Mask`, in order. */
  function Obfuscate(s: seq<byte>): (r: seq<byte>)
    ensures |r| == |s|
  {
    if s == [] then [] else [s[0] ^ Mask] + Obfuscate(s[1..])
  }

  lemma {:induction false} ObfuscateAt(s: seq<byte>, i: nat)
    requires i < |s|
    ensures Obfuscate(s)[i] == s[i] ^ Mask
  {
    if i > 0 {
      ObfuscateAt(s[1..], i - 1);
    }
  }

  lemma {:induction false} ObfuscateAppend(a: seq<byte>, b: seq<byte>)
    ensures Obfuscate(a + b) == Obfuscate(a) + Obfuscate(b)
  {
    if a != [] {
      assert (a + b)[0] == a[0] && (a + b)[1..] == a[1..] + b;
      ObfuscateAppend(a[1..], b);
    } else {
      assert a + b == b;
    }
  }

  /** Applying the mask twice gives the original bytes back: a reader that
      XORs again with 0x55 recovers what the writer sent. */
  lemma {:induction false} ObfuscateInvolution(s: seq<byte>)
    ensures Obfuscate(Obfuscate(s)) == s
  {
    if s != [] {
      var t := Obfuscate(s);
      assert t[1..] == Obfuscate(s[1..]);
      ObfuscateInvolution(s[1..]);
    }
  }

  /** Obfuscation commutes with taking a prefix. */
  lemma {:induction false} ObfuscatePrefix(s: seq<byte>, n: nat)
    requires n <= |s|
    ensures Obfuscate(s)[..n] == Obfuscate(s[..n])
  {
    if n > 0 {
      assert s[..n][1..] == s[1..][..n - 1];
      ObfuscatePrefix(s[1..], n - 1);
    }
  }

  /** A run of `n` copies of the byte `b`. */
  function Fill(n: nat, b: byte): (r: seq<byte>)
    ensures |r| == n
    ensures forall i :: 0 <= i < n ==> r[i] == b
  {
    if n == 0 then [] else [b] + Fill(n - 1, b)
  }

  /** What a reader recovers by XORing a device's bytes once more behaves
      as a FIFO queue: after a write of `u` it is what it was, followed by `u`,
      and a read of `n` bytes recovers its first `n` bytes. */
  lemma {:induction false} ObfuscateQueue(c: seq<byte>, u: seq<byte>, n: nat)
    requires n <= |c|
    ensures Obfuscate(c + Obfuscate(u)) == Obfuscate(c) + u
    ensures Obfuscate(c[..n]) == Obfuscate(c)[..n]
  {
    ObfuscateAppend(c, Obfuscate(u));
    ObfuscateInvolution(u);
    ObfuscatePrefix(c, n);
  }
}
