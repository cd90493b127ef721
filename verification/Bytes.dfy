/** Byte strings, the little-endian UInt32 encoding and the status codes used by the
    connection and the secure channel. */
module Bytes {
  type byte = x: int | 0 <= x < 256
  type uint32 = x: int | 0 <= x < TWO32

  const TWO32: int := 0x1_0000_0000

  datatype Status =
    | Good
    | BadTcpMessageTypeInvalid
    | BadTcpMessageTooLarge
    | BadSecurityChecksFailed
    | BadSecureChannelTokenUnknown
    | BadSecureChannelIdInvalid
    | BadSecurityPolicyRejected
    | BadCertificateInvalid
    | BadDecodingError
    | BadInternalError
    | BadResponseTooLarge
    | ApplicationError(code: int)
    /** C leaves the outcome open here: a read outside the chunk, a write behind the buffer or
        a wrapped length. */
    | Undefined

  function EncodeU32(x: uint32): (r: seq<byte>)
    ensures |r| == 4
  {
    [x % 256, x / 0x100 % 256, x / 0x1_0000 % 256, x / 0x100_0000]
  }

  function DecodeU32(s: seq<byte>, at: nat): (r: uint32)
    requires at + 4 <= |s|
  {
    s[at] as int + 0x100 * (s[at + 1] as int) + 0x1_0000 * (s[at + 2] as int) + 0x100_0000 * (s[at + 3] as int)
  }

  lemma U32RoundTrip(pre: seq<byte>, x: uint32, post: seq<byte>)
    ensures DecodeU32(pre + EncodeU32(x) + post, |pre|) == x
  {
    var s := pre + EncodeU32(x) + post;
    assert s[|pre|] == x % 256;
    assert s[|pre| + 1] == x / 0x100 % 256;
    assert s[|pre| + 2] == x / 0x1_0000 % 256;
    assert s[|pre| + 3] == x / 0x100_0000;
    Digits(x);
  }

  lemma Digits(x: uint32)
    ensures x == x % 256 + 0x100 * (x / 0x100 % 256) + 0x1_0000 * (x / 0x1_0000 % 256) + 0x100_0000 * (x / 0x100_0000)
  {
    var y, z := x / 0x100, x / 0x1_0000;
    assert y / 0x100 == z && z / 0x100 == x / 0x100_0000;
    assert x == 0x100 * y + x % 256 && y == 0x100 * z + y % 256 && z == 0x100 * (z / 0x100) + z % 256;
  }

  function Flatten(ss: seq<seq<byte>>): (r: seq<byte>) {
    if ss == [] then [] else ss[0] + Flatten(ss[1..])
  }

  lemma {:induction false} FlattenAppend(a: seq<seq<byte>>, b: seq<seq<byte>>)
    ensures Flatten(a + b) == Flatten(a) + Flatten(b)
  {
    if a == [] {
      assert a + b == b;
    } else {
      FlattenAppend(a[1..], b);
      FlattenFirst(a + b, a[0], a[1..] + b);
      Associative(a[0], Flatten(a[1..]), Flatten(b));
    }
  }

  lemma FlattenFirst(ss: seq<seq<byte>>, first: seq<byte>, rest: seq<seq<byte>>)
    requires ss != [] && ss[0] == first && ss[1..] == rest
    ensures Flatten(ss) == first + Flatten(rest)
  {
  }

  lemma Associative(x: seq<byte>, y: seq<byte>, z: seq<byte>)
    ensures x + (y + z) == (x + y) + z
  {
  }

  function Repeat(b: byte, n: nat): (r: seq<byte>)
    ensures |r| == n && forall i :: 0 <= i < n ==> r[i] == b
  {
    seq(n, _ => b)
  }
}
