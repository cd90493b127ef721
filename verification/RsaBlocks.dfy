/** Block-wise RSA encryption and decryption in the two security policies. */
module RsaBlocks {
  import opened Bytes
  import opened ChunkSecurity
  import opened KeyDerivation
  import opened NumberTheory

  /** An RSA key pair with its padding scheme. Encryption is randomized: the number selects
      the random bytes. */
  datatype RsaModule = RsaModule(
    plainSize: nat,
    cipherSize: nat,
    encrypt: (nat, seq<byte>) -> seq<byte>,
    decrypt: seq<byte> -> Opened)

  /** Eleven bytes are the least that either padding scheme takes. */
  ghost predicate SoundRsa(k: RsaModule) {
    && 1 <= k.plainSize && k.plainSize + 11 <= k.cipherSize <= 8191
    && (forall r, x :: |k.encrypt(r, x)| == k.cipherSize)
    && (forall y :: k.decrypt(y).Failed? ==> k.decrypt(y).status == BadSecurityChecksFailed)
    && (forall y :: k.decrypt(y).Plain? ==> |k.decrypt(y).bytes| <= k.cipherSize)
    && (forall r, x :: |x| == k.plainSize ==> k.decrypt(k.encrypt(r, x)) == Plain(x))
  }

  type Rsa = k: RsaModule | SoundRsa(k)
    ghost witness RsaModule(1, 12, (r, x) => seq(12, i => if 0 <= i < |x| then x[i] else 0), y => Plain(if |y| == 0 then [] else [y[0]]))

  // ---------------------------------------------------------- specification

  /** Blocks from number r on, each with its own random bytes. */
  function EncryptBlocks(k: Rsa, r: nat, data: seq<byte>): (c: seq<byte>)
    decreases |data|
  {
    if |data| < k.plainSize then []
    else k.encrypt(r, data[..k.plainSize]) + EncryptBlocks(k, r + 1, data[k.plainSize..])
  }

  function DecryptBlocks(k: Rsa, data: seq<byte>): (o: Opened)
    decreases |data|
  {
    if |data| < k.cipherSize then Plain([])
    else
      var first := k.decrypt(data[..k.cipherSize]);
      if first.Failed? then first
      else
        var rest := DecryptBlocks(k, data[k.cipherSize..]);
        if rest.Failed? then rest else Plain(first.bytes + rest.bytes)
  }

  /** asym_decrypt: only whole blocks are accepted. */
  function AsymDecrypt(k: Rsa, data: seq<byte>): (o: Opened) {
    if |data| % k.cipherSize != 0 then Failed(BadInternalError) else DecryptBlocks(k, data)
  }

  /** UA_SecurityPolicy_getRemoteAsymEncryptionBufferLengthOverhead */
  function Overhead(k: Rsa, length: nat): nat {
    length / k.plainSize * (k.cipherSize - k.plainSize)
  }

  lemma WholeBlocks(k: Rsa, length: nat)
    requires length % k.plainSize == 0
    ensures length + Overhead(k, length) == length / k.plainSize * k.cipherSize
  {
    var n := length / k.plainSize;
    assert length == n * k.plainSize;
    assert n * k.plainSize + n * (k.cipherSize - k.plainSize) == n * k.cipherSize;
  }

  lemma OneBlockLess(length: nat, b: nat)
    requires b > 0 && length >= b
    ensures (length - b) / b == length / b - 1 && (length - b) % b == length % b
  {
    DivModUnique(length - b, b, length / b - 1, length % b);
  }

  lemma {:induction false} EncryptedLength(k: Rsa, r: nat, data: seq<byte>)
    ensures |EncryptBlocks(k, r, data)| == |data| / k.plainSize * k.cipherSize
    decreases |data|
  {
    if |data| < k.plainSize {
      DivModUnique(|data|, k.plainSize, 0, |data|);
    } else {
      EncryptedLength(k, r + 1, data[k.plainSize..]);
      OneBlockLess(|data|, k.plainSize);
      var n := |data| / k.plainSize;
      assert k.cipherSize + (n - 1) * k.cipherSize == n * k.cipherSize;
    }
  }

  /** Decryption undoes encryption on whole blocks, whatever the random bytes. */
  lemma {:induction false} BlocksRoundTrip(k: Rsa, r: nat, data: seq<byte>)
    requires |data| % k.plainSize == 0
    ensures DecryptBlocks(k, EncryptBlocks(k, r, data)) == Plain(data)
    decreases |data|
  {
    if |data| < k.plainSize {
      DivModUnique(|data|, k.plainSize, 0, |data|);
      assert data == [];
    } else {
      var b := data[..k.plainSize];
      var rest := data[k.plainSize..];
      OneBlockLess(|data|, k.plainSize);
      BlocksRoundTrip(k, r + 1, rest);
      var c := EncryptBlocks(k, r, data);
      assert c[..k.cipherSize] == k.encrypt(r, b);
      assert c[k.cipherSize..] == EncryptBlocks(k, r + 1, rest);
      assert b + rest == data;
    }
  }

  lemma SliceBehind(s: seq<byte>, b: nat, i: nat, j: nat)
    requires b <= i <= j <= |s|
    ensures s[i..j] == s[b..][i - b..j - b]
  {
  }

  /** Block j of the cipher text is the encryption of block j of the data. */
  lemma {:induction false} BlockAt(k: Rsa, r: nat, data: seq<byte>, j: nat, at: nat, out: nat)
    requires at == j * k.plainSize && out == j * k.cipherSize && at + k.plainSize <= |data|
    ensures out + k.cipherSize <= |EncryptBlocks(k, r, data)|
    ensures EncryptBlocks(k, r, data)[out..out + k.cipherSize] == k.encrypt(r + j, data[at..at + k.plainSize])
    decreases j
  {
    var c := EncryptBlocks(k, r, data);
    var first, more := k.encrypt(r, data[..k.plainSize]), EncryptBlocks(k, r + 1, data[k.plainSize..]);
    assert c == first + more;
    if j == 0 {
      assert c[..k.cipherSize] == first;
    } else {
      BlockBounds(j - 1, j, k.plainSize);
      BlockBounds(j - 1, j, k.cipherSize);
      BlockAt(k, r + 1, data[k.plainSize..], j - 1, at - k.plainSize, out - k.cipherSize);
      BlockBehind(first, more, c, out, k.cipherSize);
      SliceBehind(data, k.plainSize, at, at + k.plainSize);
    }
  }

  lemma BlockBehind(first: seq<byte>, more: seq<byte>, c: seq<byte>, out: nat, b: nat)
    requires c == first + more && |first| == b <= out && out - b + b <= |more|
    ensures out + b <= |c| && c[out..out + b] == more[out - b..out]
  {
  }

  /** The encrypted length is what the overhead function predicts, and asym_decrypt takes it. */
  lemma AsymRoundTrip(k: Rsa, r: nat, data: seq<byte>)
    requires |data| % k.plainSize == 0
    ensures |EncryptBlocks(k, r, data)| == |data| + Overhead(k, |data|)
    ensures AsymDecrypt(k, EncryptBlocks(k, r, data)) == Plain(data)
  {
    EncryptedLength(k, r, data);
    WholeBlocks(k, |data|);
    BlocksRoundTrip(k, r, data);
    DivModUnique(|EncryptBlocks(k, r, data)|, k.cipherSize, |data| / k.plainSize, 0);
  }

  lemma {:induction false} DecryptedShorter(k: Rsa, data: seq<byte>)
    ensures DecryptBlocks(k, data).Plain? ==> |DecryptBlocks(k, data).bytes| <= |data|
    decreases |data|
  {
    if |data| >= k.cipherSize {
      DecryptedShorter(k, data[k.cipherSize..]);
    }
  }

  // -------------------------------------------------------------- the loops

  lemma {:induction false} EncryptSnoc(k: Rsa, r: nat, data: seq<byte>, block: seq<byte>)
    requires |data| % k.plainSize == 0 && |block| == k.plainSize
    ensures EncryptBlocks(k, r, data + block)
         == EncryptBlocks(k, r, data) + k.encrypt(r + |data| / k.plainSize, block)
    decreases |data|
  {
    var both := data + block;
    if |data| < k.plainSize {
      DivModUnique(|data|, k.plainSize, 0, |data|);
      assert both == block && both[..k.plainSize] == block && both[k.plainSize..] == [];
      assert EncryptBlocks(k, r + 1, []) == [];
    } else {
      OneBlockLess(|data|, k.plainSize);
      EncryptSnoc(k, r + 1, data[k.plainSize..], block);
      assert both[..k.plainSize] == data[..k.plainSize];
      assert both[k.plainSize..] == data[k.plainSize..] + block;
    }
  }

  lemma BlockBounds(j: nat, n: nat, b: nat)
    requires j < n
    ensures 0 <= j * b && (j + 1) * b == j * b + b && (j + 1) * b <= n * b
  {
    assert (n - j - 1) * b >= 0;
    assert n * b == (j + 1) * b + (n - j - 1) * b;
  }

  lemma BlockCount(j: nat, b: nat)
    requires b > 0
    ensures (j * b) / b == j && (j * b) % b == 0
  {
    DivModUnique(j * b, b, j, 0);
  }

  lemma EncryptStep(k: Rsa, r: nat, data: seq<byte>, at: nat, j: nat)
    requires at == j * k.plainSize && at + k.plainSize <= |data|
    ensures EncryptBlocks(k, r, data[..at + k.plainSize])
         == EncryptBlocks(k, r, data[..at]) + k.encrypt(r + j, data[at..at + k.plainSize])
  {
    BlockCount(j, k.plainSize);
    EncryptSnoc(k, r, data[..at], data[at..at + k.plainSize]);
    assert data[..at] + data[at..at + k.plainSize] == data[..at + k.plainSize];
  }

  /** Copying a block behind what has been written extends it by the block. */
  method Append(block: seq<byte>, a: array<byte>, at: nat)
    requires at + |block| <= a.Length
    modifies a
    ensures a[..at + |block|] == old(a[..at]) + block
  {
    CopyInto(block, a, at);
    assert a[..at + |block|] == a[..at] + a[at..at + |block|];
  }

  /** The first half of asym_encrypt: the cipher text in a separate buffer. */
  method EncryptToBuffer(k: Rsa, r: nat, data: seq<byte>, ghost n: nat) returns (encrypted: array<byte>)
    requires |data| == n * k.plainSize
    ensures fresh(encrypted) && encrypted[..] == EncryptBlocks(k, r, data)
  {
    BlockCount(n, k.plainSize);
    WholeBlocks(k, |data|);
    encrypted := new byte[|data| + Overhead(k, |data|)](_ => 0);
    EncryptLoop(k, r, data, n, encrypted);
  }

  /** The loop of asym_encrypt. */
  method EncryptLoop(k: Rsa, r: nat, data: seq<byte>, ghost n: nat, encrypted: array<byte>)
    requires |data| == n * k.plainSize && encrypted.Length == n * k.cipherSize
    modifies encrypted
    ensures encrypted[..] == EncryptBlocks(k, r, data)
  {
    var remaining: nat, inOffset: nat, offset: nat, i := |data|, 0, 0, r;
    ghost var j := 0;
    assert data[..0] == [];
    while remaining >= k.plainSize
      invariant AtBlock(k, n, j, inOffset, offset) && i == r + j && inOffset + remaining == |data|
      invariant offset <= encrypted.Length && encrypted[..offset] == EncryptBlocks(k, r, data[..inOffset])
    {
      NextBlock(k, n, j, inOffset, offset);
      var block := k.encrypt(i, data[inOffset..inOffset + k.plainSize]);
      EncryptStep(k, r, data, inOffset, j);
      Append(block, encrypted, offset);
      inOffset, offset := inOffset + k.plainSize, offset + k.cipherSize;
      remaining, i, j := remaining - k.plainSize, i + 1, j + 1;
    }
    LastBlock(k, n, j, inOffset, offset);
    assert data[..inOffset] == data && encrypted[..offset] == encrypted[..];
  }

  /** Both offsets stand at block j of n. */
  ghost predicate AtBlock(k: Rsa, n: nat, j: nat, inOffset: nat, offset: nat) {
    j <= n && inOffset == j * k.plainSize && offset == j * k.cipherSize
  }

  lemma NextBlock(k: Rsa, n: nat, j: nat, inOffset: nat, offset: nat)
    requires AtBlock(k, n, j, inOffset, offset) && inOffset + k.plainSize <= n * k.plainSize
    ensures inOffset == j * k.plainSize && offset + k.cipherSize <= n * k.cipherSize
    ensures AtBlock(k, n, j + 1, inOffset + k.plainSize, offset + k.cipherSize)
  {
    assert j < n;
    BlockBounds(j, n, k.plainSize);
    BlockBounds(j, n, k.cipherSize);
  }

  lemma LastBlock(k: Rsa, n: nat, j: nat, inOffset: nat, offset: nat)
    requires AtBlock(k, n, j, inOffset, offset) && inOffset + k.plainSize > n * k.plainSize
    ensures inOffset == n * k.plainSize && offset == n * k.cipherSize
  {
    if j < n {
      BlockBounds(j, n, k.plainSize);
    }
  }

  /** Bytes copied over a part of a buffer leave the rest alone. */
  method Overwrite(bytes: seq<byte>, buf: array<byte>, start: nat)
    requires start + |bytes| <= buf.Length
    modifies buf
    ensures buf[..] == old(buf[..start]) + bytes + old(buf[start + |bytes|..])
  {
    CopyInto(bytes, buf, start);
    assert buf[..] == buf[..start] + buf[start..start + |bytes|] + buf[start + |bytes|..];
  }

  /** asym_encrypt: a window of the message buffer is replaced by its longer cipher text. */
  method EncryptInPlace(k: Rsa, r: nat, buf: array<byte>, start: nat, length: nat) returns (status: Status)
    requires start + length + Overhead(k, length) <= buf.Length
    modifies buf
    ensures status == if length % k.plainSize != 0 then BadInternalError else Good
    ensures status != Good ==> buf[..] == old(buf[..])
    ensures status == Good ==>
      var c := EncryptBlocks(k, r, old(buf[start..start + length]));
      && |c| == length + Overhead(k, length)
      && buf[..] == old(buf[..start]) + c + old(buf[start + |c|..])
  {
    if length % k.plainSize != 0 {
      return BadInternalError;
    }
    AsymRoundTrip(k, r, buf[start..start + length]);
    ghost var n := MultipleOf(length, k.plainSize);
    var encrypted := EncryptToBuffer(k, r, buf[start..start + length], n);
    Overwrite(encrypted[..], buf, start);
    return Good;
  }

  lemma {:induction false} DecryptSplit(k: Rsa, a: seq<byte>, b: seq<byte>, n: nat)
    requires |a| == n * k.cipherSize
    ensures var x, y := DecryptBlocks(k, a), DecryptBlocks(k, b);
      DecryptBlocks(k, a + b) == if x.Failed? then x else if y.Failed? then y else Plain(x.bytes + y.bytes)
    decreases n
  {
    if n == 0 {
      assert a + b == b;
    } else {
      BlockBounds(n - 1, n, k.cipherSize);
      DecryptSplit(k, a[k.cipherSize..], b, n - 1);
      assert (a + b)[..k.cipherSize] == a[..k.cipherSize];
      assert (a + b)[k.cipherSize..] == a[k.cipherSize..] + b;
    }
  }

  /** asym_decrypt: block by block into a separate buffer, which is copied back; the rest of
      the window keeps its cipher text and the new length is returned. */
  method DecryptInPlace(k: Rsa, buf: array<byte>, start: nat, length: nat) returns (status: Status, newLength: nat)
    requires start + length <= buf.Length
    modifies buf
    ensures var o := AsymDecrypt(k, old(buf[start..start + length]));
      if o.Failed? then status == o.status && buf[..] == old(buf[..])
      else status == Good && newLength == |o.bytes| <= length
           && buf[..] == old(buf[..start]) + o.bytes + old(buf[start + newLength..])
  {
    newLength := length;
    if length % k.cipherSize != 0 {
      return BadInternalError, length;
    }
    ghost var n := MultipleOf(length, k.cipherSize);
    var data := buf[start..start + length];
    var o := DecryptLoop(k, data, n);
    if o.Failed? {
      return o.status, length;
    }
    DecryptedShorter(k, data);
    Overwrite(o.bytes, buf, start);
    return Good, |o.bytes|;
  }

  /** The loop of asym_decrypt, which ends at the first block that cannot be decrypted. */
  method DecryptLoop(k: Rsa, data: seq<byte>, ghost n: nat) returns (o: Opened)
    requires |data| == n * k.cipherSize
    ensures o == DecryptBlocks(k, data)
  {
    var remaining, inOffset, decrypted := |data|, 0, [];
    ghost var j := 0;
    while remaining >= k.cipherSize
      invariant j <= n && inOffset == j * k.cipherSize && inOffset + remaining == |data|
      invariant DecryptBlocks(k, data[..inOffset]) == Plain(decrypted)
    {
      assert j == n ==> remaining == 0;
      BlockBounds(j, n, k.cipherSize);
      o := k.decrypt(data[inOffset..inOffset + k.cipherSize]);
      DecryptStep(k, data, inOffset, j);
      if o.Failed? {
        return;
      }
      decrypted := decrypted + o.bytes;
      inOffset, remaining, j := inOffset + k.cipherSize, remaining - k.cipherSize, j + 1;
    }
    assert j == n by {
      if j < n {
        BlockBounds(j, n, k.cipherSize);
      }
    }
    assert data[..inOffset] == data;
    return Plain(decrypted);
  }

  lemma DecryptStep(k: Rsa, data: seq<byte>, at: nat, j: nat)
    requires at == j * k.cipherSize && at + k.cipherSize <= |data| && DecryptBlocks(k, data[..at]).Plain?
    ensures var o := k.decrypt(data[at..at + k.cipherSize]);
      if o.Failed? then DecryptBlocks(k, data) == o
      else DecryptBlocks(k, data[..at + k.cipherSize]) == Plain(DecryptBlocks(k, data[..at]).bytes + o.bytes)
  {
    var block, end := data[at..at + k.cipherSize], at + k.cipherSize;
    OneBlockDecrypt(k, block);
    DecryptSplit(k, data[..at], block, j);
    assert data[..at] + block == data[..end];
    BlockBounds(j, j + 1, k.cipherSize);
    DecryptSplit(k, data[..end], data[end..], j + 1);
    assert data[..end] + data[end..] == data;
  }

  lemma OneBlockDecrypt(k: Rsa, block: seq<byte>)
    requires |block| == k.cipherSize
    ensures DecryptBlocks(k, block) == k.decrypt(block)
  {
    assert block[..k.cipherSize] == block && block[k.cipherSize..] == [];
    assert DecryptBlocks(k, []) == Plain([]);
    var o := k.decrypt(block);
    if o.Plain? {
      assert o.bytes + [] == o.bytes;
    }
  }
}
