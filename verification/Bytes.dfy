/** Bytes, writing a block of them into memory, and words in little-endian order. */
module Bytes {
  type Byte = x: int | 0 <= x < 256 witness 0

  /** Memory with `bytes` written at `at`. */
  function Written(mem: seq<Byte>, at: nat, bytes: seq<Byte>): (r: seq<Byte>)
    requires at + |bytes| <= |mem|
    ensures |r| == |mem|
  {
    seq(|mem|, (i: nat) requires i < |mem| => if at <= i < at + |bytes| then bytes[i - at] else mem[i])
  }

  method CopyBytes(mem: array<Byte>, at: nat, bytes: seq<Byte>)
    requires at + |bytes| <= mem.Length
    modifies mem
    ensures mem[..] == Written(old(mem[..]), at, bytes)
  {
    forall i | 0 <= i < |bytes| {
      mem[at + i] := bytes[i];
    }
    assert mem[..] == Written(old(mem[..]), at, bytes);
  }

  lemma WrittenTwice(mem: seq<Byte>, at: nat, a: seq<Byte>, b: seq<Byte>)
    requires at + |a| + |b| <= |mem|
    ensures Written(Written(mem, at, a), at + |a|, b) == Written(mem, at, a + b)
  {
  }

  lemma WrittenBelow(mem: seq<Byte>, at: nat, a: seq<Byte>, b: seq<Byte>)
    requires at + |a| + |b| <= |mem|
    ensures Written(Written(mem, at + |a|, b), at, a) == Written(mem, at, a + b)
  {
  }

  lemma WrittenNothing(mem: seq<Byte>, at: nat)
    requires at <= |mem|
    ensures Written(mem, at, []) == mem
  {
  }

  lemma WrittenAt(mem: seq<Byte>, at: nat, bytes: seq<Byte>)
    requires at + |bytes| <= |mem|
    ensures Written(mem, at, bytes)[at..at + |bytes|] == bytes
  {
  }

  /** A block apart from what is written stays as it is. */
  lemma WrittenElsewhere(mem: seq<Byte>, at: nat, bytes: seq<Byte>, low: nat, high: nat)
    requires at + |bytes| <= |mem| && low <= high <= |mem| && (high <= at || at + |bytes| <= low)
    ensures Written(mem, at, bytes)[low..high] == mem[low..high]
  {
  }

  function Decode(bytes: seq<Byte>): nat {
    if bytes == [] then 0 else bytes[0] + 256 * Decode(bytes[1..])
  }

  function Encode(value: nat, n: nat): (bytes: seq<Byte>)
    ensures |bytes| == n
  {
    if n == 0 then [] else [value % 256] + Encode(value / 256, n - 1)
  }

  /** A word that was read and is written back is the same bytes. */
  lemma {:induction false} EncodeDecode(bytes: seq<Byte>)
    ensures Encode(Decode(bytes), |bytes|) == bytes
  {
    if bytes != [] {
      EncodeDecode(bytes[1..]);
      LowByte(bytes[0], Decode(bytes[1..]));
      assert Encode(Decode(bytes), |bytes|) == [bytes[0]] + bytes[1..];
    }
  }

  lemma LowByte(b: Byte, n: nat)
    ensures (b + 256 * n) % 256 == b && (b + 256 * n) / 256 == n
  {
  }

  /** How many values n bytes hold. */
  function Range(n: nat): nat {
    if n == 0 then 1 else 256 * Range(n - 1)
  }

  /** A value that fits reads back as itself. */
  lemma {:induction false} DecodeEncode(value: nat, n: nat)
    requires value < Range(n)
    ensures Decode(Encode(value, n)) == value
    decreases n
  {
    if n > 0 {
      DecodeEncode(value / 256, n - 1);
      assert Encode(value, n)[1..] == Encode(value / 256, n - 1);
    }
  }

  lemma {:induction false} DecodeZeros(bytes: seq<Byte>)
    requires forall k :: 0 <= k < |bytes| ==> bytes[k] == 0
    ensures Decode(bytes) == 0
  {
    if bytes != [] {
      DecodeZeros(bytes[1..]);
    }
  }

  /** The bytes of a value above those it needs are 0. */
  lemma {:induction false} EncodeBeyond(value: nat, n: nat, k: nat, j: nat)
    requires value < Range(k) && k <= j < n
    ensures Encode(value, n)[j] == 0
    decreases n
  {
    if k == 0 {
      if j > 0 {
        EncodeBeyond(value / 256, n - 1, 0, j - 1);
      }
    } else {
      EncodeBeyond(value / 256, n - 1, k - 1, j - 1);
    }
  }
}
