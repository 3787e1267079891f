// Bytes and the byte orders the library uses.

/** Bytes are 8-bit vectors; these functions relate them to numbers. */
module Bytes {
  type Byte = bv8

  /** The byte of a number below 256. */
  function ToByte(x: int): (b: Byte)
    requires 0 <= x < 256
    ensures b as int == x
  {
    x as bv8
  }

  /** The number a byte stands for; the inverse of ToByte. */
  function Value(b: Byte): (x: int)
    ensures 0 <= x < 256
    ensures ToByte(x) == b
  {
    b as int
  }

  /** A 16-bit value, most significant byte first. */
  function Put16(v: int): (s: seq<Byte>)
    requires 0 <= v < 0x10000
    ensures |s| == 2 && Get16(s) == v
  {
    [ToByte(v / 256), ToByte(v % 256)]
  }

  /** The 16-bit value at the start of s, most significant byte first. */
  function Get16(s: seq<Byte>): (v: int)
    requires |s| >= 2
    ensures 0 <= v < 0x10000
  {
    Value(s[0]) * 256 + Value(s[1])
  }

  /** Post is pre with bytes stored at position at, and nothing else changed. */
  ghost predicate Stored(pre: seq<Byte>, post: seq<Byte>, at: nat, bytes: seq<Byte>)
  {
    && at + |bytes| <= |pre| == |post|
    && post[..at] == pre[..at]
    && post[at..at + |bytes|] == bytes
    && post[at + |bytes|..] == pre[at + |bytes|..]
  }

  // What a store leaves in front of and behind a part of the bytes stored.
  lemma StoredPrefix(pre: seq<Byte>, post: seq<Byte>, at: nat, bytes: seq<Byte>, part: seq<Byte>)
    requires Stored(pre, post, at, bytes) && part <= bytes
    ensures post[..at + |part|] == pre[..at] + part
  {
    assert post[..at + |part|] == post[..at] + post[at..at + |bytes|][..|part|];
  }

  lemma StoredSuffix(pre: seq<Byte>, post: seq<Byte>, at: nat, bytes: seq<Byte>, end: nat)
    requires Stored(pre, post, at, bytes) && at + |bytes| <= end <= |pre|
    ensures |post| == |pre| && post[end..] == pre[end..]
  {
    var k := end - at - |bytes|;
    assert post[end..] == post[at + |bytes|..][k..];
    assert pre[end..] == pre[at + |bytes|..][k..];
  }

  // A store, byte by byte.
  lemma StoredAt(pre: seq<Byte>, post: seq<Byte>, at: nat, bytes: seq<Byte>)
    requires Stored(pre, post, at, bytes)
    ensures |post| == |pre|
    ensures forall j | 0 <= j < |pre| ::
              post[j] == if at <= j < at + |bytes| then bytes[j - at] else pre[j]
  {
    forall j | 0 <= j < |pre|
      ensures post[j] == if at <= j < at + |bytes| then bytes[j - at] else pre[j]
    {
      if j < at {
        assert post[j] == post[..at][j] == pre[..at][j];
      } else if j < at + |bytes| {
        assert post[j] == post[at..at + |bytes|][j - at];
      } else {
        var k := j - at - |bytes|;
        assert post[j] == post[at + |bytes|..][k] == pre[at + |bytes|..][k];
      }
    }
  }

  // Stores one after the other, in front of or behind each other, are one store.
  lemma StoredBehind(a: seq<Byte>, b: seq<Byte>, c: seq<Byte>, at: nat, x: seq<Byte>,
                     y: seq<Byte>)
    requires Stored(a, b, at, x) && Stored(b, c, at + |x|, y)
    ensures Stored(a, c, at, x + y)
  {
    assert c[at..at + |x + y|] == x + y by {
      assert c[at..at + |x|] == c[..at + |x|][at..] == b[..at + |x|][at..] == x;
      assert c[at..at + |x + y|] == c[at..at + |x|] + c[at + |x|..at + |x| + |y|];
    }
    assert c[..at] == c[..at + |x|][..at] == b[..at + |x|][..at] == a[..at];
    StoredSuffix(a, b, at, x, at + |x + y|);
  }

  lemma StoredInFront(a: seq<Byte>, b: seq<Byte>, c: seq<Byte>, at: nat, x: seq<Byte>,
                      y: seq<Byte>)
    requires Stored(a, b, at + |x|, y) && Stored(b, c, at, x)
    ensures Stored(a, c, at, x + y)
  {
    assert c[at..at + |x + y|] == x + y by {
      assert c[at + |x|..at + |x| + |y|] == c[at + |x|..][..|y|] == b[at + |x|..][..|y|] == y;
      assert c[at..at + |x + y|] == c[at..at + |x|] + c[at + |x|..at + |x| + |y|];
    }
    assert c[..at] == b[..at] == b[..at + |x|][..at] == a[..at];
    StoredSuffix(b, c, at, x, at + |x + y|);
  }

  // A store that covers what was stored before.
  lemma StoredOver(a: seq<Byte>, b: seq<Byte>, c: seq<Byte>, at: nat, x: seq<Byte>, k: nat,
                   y: seq<Byte>)
    requires Stored(a, b, at + k, x) && Stored(b, c, at, y) && k + |x| <= |y|
    ensures Stored(a, c, at, y)
  {
    assert c[..at] == b[..at] == b[..at + k][..at] == a[..at];
    StoredSuffix(a, b, at + k, x, at + |y|);
  }

  /** A memory copy: stores bytes in dst at position at. */
  method Store(dst: array<Byte>, at: nat, bytes: seq<Byte>)
    requires at + |bytes| <= dst.Length
    modifies dst
    ensures Stored(old(dst[..]), dst[..], at, bytes)
  {
    forall i | at <= i < at + |bytes| {
      dst[i] := bytes[i - at];
    }
  }
}
