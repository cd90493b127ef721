/** Key derivation with P_hash (section 5 of RFC 5246), as both security policies
    implement it, and the layout of the derived keys in a secure channel. */
module KeyDerivation {
  import opened Bytes

  type Hmac = (seq<byte>, seq<byte>) -> seq<byte>

  ghost predicate HashLength(h: Hmac, n: nat) {
    n > 0 && forall k, m :: |h(k, m)| == n
  }

  /** A keyed hash together with its output length. */
  datatype HashModule = HashModule(mac: Hmac, length: nat)

  type Hash = x: HashModule | HashLength(x.mac, x.length)
    ghost witness HashModule((k, m) => [0], 1)

  /** A(0) = seed, A(i) = HMAC(secret, A(i - 1)) */
  function A(h: Hmac, secret: seq<byte>, seed: seq<byte>, i: nat): seq<byte> {
    if i == 0 then seed else h(secret, A(h, secret, seed, i - 1))
  }

  /** The first n blocks HMAC(secret, A(i) + seed), i = 1, 2, ... */
  function PHash(h: Hmac, secret: seq<byte>, seed: seq<byte>, n: nat): seq<byte> {
    if n == 0 then [] else PHash(h, secret, seed, n - 1) + h(secret, A(h, secret, seed, n) + seed)
  }

  /** The first two blocks, written out. */
  lemma FirstBlocks(h: Hmac, secret: seq<byte>, seed: seq<byte>)
    ensures var a1 := h(secret, seed);
            var a2 := h(secret, a1);
      PHash(h, secret, seed, 2) == h(secret, a1 + seed) + h(secret, a2 + seed)
  {
    assert A(h, secret, seed, 1) == h(secret, seed);
    assert PHash(h, secret, seed, 1) == [] + h(secret, h(secret, seed) + seed) == h(secret, h(secret, seed) + seed);
  }

  lemma {:induction false} PHashLength(h: Hmac, hashLen: nat, secret: seq<byte>, seed: seq<byte>, n: nat)
    requires HashLength(h, hashLen)
    ensures |PHash(h, secret, seed, n)| == n * hashLen
  {
    if n > 0 {
      PHashLength(h, hashLen, secret, seed, n - 1);
      assert (n - 1) * hashLen + hashLen == n * hashLen;
    }
  }

  /** More blocks only add bytes at the end. */
  lemma {:induction false} PHashPrefix(h: Hmac, secret: seq<byte>, seed: seq<byte>, m: nat, n: nat)
    requires m <= n
    ensures PHash(h, secret, seed, m) <= PHash(h, secret, seed, n)
    decreases n
  {
    if m < n {
      PHashPrefix(h, secret, seed, m, n - 1);
    }
  }

  /** s is the first len bytes of the unbounded P_hash stream. */
  ghost predicate IsPHash(s: seq<byte>, h: Hmac, secret: seq<byte>, seed: seq<byte>) {
    exists n: nat :: s <= PHash(h, secret, seed, n)
  }

  lemma PHashDeterminesBytes(s: seq<byte>, t: seq<byte>, h: Hmac, secret: seq<byte>, seed: seq<byte>)
    requires IsPHash(s, h, secret, seed) && IsPHash(t, h, secret, seed) && |s| == |t|
    ensures s == t
  {
    var m: nat :| s <= PHash(h, secret, seed, m);
    var n: nat :| t <= PHash(h, secret, seed, n);
    if m <= n {
      PHashPrefix(h, secret, seed, m, n);
    } else {
      PHashPrefix(h, secret, seed, n, m);
    }
    assert forall i :: 0 <= i < |s| ==> s[i] == t[i];
  }

  /** The first n bytes of P_hash. */
  function KeyBytes(h: Hmac, hashLen: nat, secret: seq<byte>, seed: seq<byte>, n: nat): (r: seq<byte>)
    requires HashLength(h, hashLen)
    ensures |r| == n && IsPHash(r, h, secret, seed)
  {
    PHashLength(h, hashLen, secret, seed, n);
    assert n * hashLen >= n;
    var r := PHash(h, secret, seed, n)[..n];
    assert r <= PHash(h, secret, seed, n);
    r
  }

  /** md_hmac with its result written into a buffer. */
  method HmacInto(h: Hmac, hashLen: nat, secret: seq<byte>, input: seq<byte>, dst: array<byte>, offset: nat)
    requires HashLength(h, hashLen) && offset + hashLen <= dst.Length
    modifies dst
    ensures dst[..offset] == old(dst[..offset])
    ensures dst[offset..offset + hashLen] == h(secret, input)
    ensures dst[offset + hashLen..] == old(dst[offset + hashLen..])
  {
    var mac := h(secret, input);
    forall i | 0 <= i < hashLen {
      dst[offset + i] := mac[i];
    }
  }

  method CopyInto(src: seq<byte>, dst: array<byte>, offset: nat)
    requires offset + |src| <= dst.Length
    modifies dst
    ensures dst[..offset] == old(dst[..offset])
    ensures dst[offset..offset + |src|] == src
    ensures dst[offset + |src|..] == old(dst[offset + |src|..])
  {
    forall i | 0 <= i < |src| {
      dst[offset + i] := src[i];
    }
  }

  /** One output block at offset; a block that does not fit is computed in a buffer of its
      own and only its first bytes are copied. */
  method WriteBlock(h: Hmac, hashLen: nat, secret: seq<byte>, input: seq<byte>, out: array<byte>, offset: nat)
    requires HashLength(h, hashLen) && offset < out.Length
    modifies out
    ensures if offset + hashLen <= out.Length
            then out[..offset + hashLen] == old(out[..offset]) + h(secret, input)
            else out[..] == old(out[..offset]) + h(secret, input)[..out.Length - offset]
  {
    if offset + hashLen > out.Length {
      var outSegment := new byte[hashLen](_ => 0);
      HmacInto(h, hashLen, secret, input, outSegment, 0);
      assert outSegment[..] == outSegment[0..hashLen];
      CopyInto(outSegment[..out.Length - offset], out, offset);
      assert out[..] == out[..offset] + out[offset..];
    } else {
      HmacInto(h, hashLen, secret, input, out, offset);
      assert out[..offset + hashLen] == out[..offset] + out[offset..offset + hashLen];
    }
  }

  /** The buffer holds A(i) followed by the seed. */
  ghost predicate Holds(buf: array<byte>, h: Hmac, hashLen: nat, secret: seq<byte>, seed: seq<byte>, i: nat)
    reads buf
  {
    buf.Length == hashLen + |seed| && buf[..] == A(h, secret, seed, i) + seed && |A(h, secret, seed, i)| == hashLen
  }

  /** A buffer for A followed by a copy of the seed. */
  method SeedBuffer(hashLen: nat, seed: seq<byte>) returns (buf: array<byte>)
    ensures fresh(buf) && buf.Length == hashLen + |seed| && buf[hashLen..] == seed
  {
    buf := new byte[hashLen + |seed|](_ => 0);
    CopyInto(seed, buf, hashLen);
    assert buf[hashLen..] == buf[hashLen..hashLen + |seed|];
  }

  /** md_hmac over an input, written to the head of a buffer that ends in the seed. */
  method NextA(h: Hmac, hashLen: nat, secret: seq<byte>, seed: seq<byte>, input: seq<byte>, dst: array<byte>, ghost i: nat)
    requires HashLength(h, hashLen) && dst.Length == hashLen + |seed| && dst[hashLen..] == seed
    requires input == A(h, secret, seed, i)
    modifies dst
    ensures Holds(dst, h, hashLen, secret, seed, i + 1)
  {
    HmacInto(h, hashLen, secret, input, dst, 0);
    assert dst[..] == dst[0..hashLen] + dst[hashLen..];
  }

  /** The generateKey loop of both policies: two buffers that hold A(i) followed by the seed
      and change places in every round, with views A and ANext on their heads. */
  method GenerateKey(h: Hmac, hashLen: nat, secret: seq<byte>, seed: seq<byte>, out: array<byte>)
    requires HashLength(h, hashLen)
    modifies out
    ensures IsPHash(out[..], h, secret, seed)
    ensures out[..] == KeyBytes(h, hashLen, secret, seed, out.Length)
  {
    var aAndSeed := SeedBuffer(hashLen, seed);
    var aNextAndSeed := SeedBuffer(hashLen, seed);
    var a, aNext := aAndSeed, aNextAndSeed;
    NextA(h, hashLen, secret, seed, seed, a, 0);
    ghost var round := 1;
    var offset := 0;
    while offset < out.Length
      invariant a == aAndSeed && aNext == aNextAndSeed
      invariant a != aNext && a != out && aNext != out && fresh(a) && fresh(aNext)
      invariant Holds(a, h, hashLen, secret, seed, round)
      invariant aNext.Length == hashLen + |seed| && aNext[hashLen..] == seed
      invariant round >= 1
      invariant offset <= out.Length ==> out[..offset] == PHash(h, secret, seed, round - 1)
      invariant offset > out.Length ==> out[..] <= PHash(h, secret, seed, round - 1)
      decreases out.Length - offset
    {
      WriteBlock(h, hashLen, secret, aAndSeed[..], out, offset);
      NextA(h, hashLen, secret, seed, a[..hashLen], aNext, round);
      assert a[hashLen..] == seed;
      aNextAndSeed, aAndSeed := aAndSeed, aNextAndSeed;
      aNext, a := a, aNext;
      offset := offset + hashLen;
      round := round + 1;
    }
    assert out[..] <= PHash(h, secret, seed, round - 1) by {
      if offset == out.Length {
        assert out[..] == out[..offset];
      }
    }
    PHashDeterminesBytes(out[..], KeyBytes(h, hashLen, secret, seed, out.Length), h, secret, seed);
  }
}
