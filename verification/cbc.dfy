/** Cipher-block chaining (section 6.2 of NIST SP 800-38A) as a fold over 16-byte blocks.

    The Go code keeps one `cipher.BlockMode` per direction and feeds it every block of the field
    stream in order; its only state is the chaining value, which after each block is that block's
    ciphertext in both directions. Here the chaining value is threaded explicitly: every function
    returns the bytes it produced together with the chaining value the session is left at. */
module Cbc {
  import opened Bytes
  import opened Primitives

  /** Output bytes of a run of the session and the chaining value it ends at. */
  datatype Chained = Chained(bytes: seq<bv8>, iv: Bytes16)

  function EncryptBlock(c: BlockCipher, key: seq<bv8>, iv: Bytes16, pt: Bytes16): Bytes16
  {
    c.encrypt(key, Xor(pt, iv))
  }

  function DecryptBlock(c: BlockCipher, key: seq<bv8>, iv: Bytes16, ct: Bytes16): Bytes16
  {
    Xor(c.decrypt(key, ct), iv)
  }

  /** `CryptBlocks` of a CBC encrypter over a whole number of blocks. */
  function Encrypt(c: BlockCipher, key: seq<bv8>, iv: Bytes16, pt: seq<bv8>): (r: Chained)
    requires |pt| % 16 == 0
    ensures |r.bytes| == |pt|
    decreases |pt|
  {
    if |pt| == 0 then Chained([], iv)
    else
      var b := EncryptBlock(c, key, iv, pt[..16]);
      var tail := Encrypt(c, key, b, pt[16..]);
      Chained(b + tail.bytes, tail.iv)
  }

  /** `CryptBlocks` of a CBC decrypter over a whole number of blocks. */
  function Decrypt(c: BlockCipher, key: seq<bv8>, iv: Bytes16, ct: seq<bv8>): (r: Chained)
    requires |ct| % 16 == 0
    ensures |r.bytes| == |ct|
    decreases |ct|
  {
    if |ct| == 0 then Chained([], iv)
    else
      var tail := Decrypt(c, key, ct[..16], ct[16..]);
      Chained(DecryptBlock(c, key, iv, ct[..16]) + tail.bytes, tail.iv)
  }

  /** A single block encrypts to one ciphertext block, which is also the next chaining value. */
  lemma EncryptOneBlock(c: BlockCipher, key: seq<bv8>, iv: Bytes16, pt: Bytes16)
    ensures var b := EncryptBlock(c, key, iv, pt);
            Encrypt(c, key, iv, pt) == Chained(b, b)
  {
    assert pt[..16] == pt && pt[16..] == [];
  }

  lemma DecryptBlockInverts(c: BlockCipher, key: seq<bv8>, iv: Bytes16, pt: Bytes16)
    requires Inverts(c)
    ensures DecryptBlock(c, key, iv, EncryptBlock(c, key, iv, pt)) == pt
  {
    XorCancel(pt, iv);
  }

  /** Decrypting from the same chaining value recovers the plaintext and leaves the decrypter at
      the chaining value the encrypter reached. */
  lemma {:induction false} DecryptEncrypt(c: BlockCipher, key: seq<bv8>, iv: Bytes16, pt: seq<bv8>)
    requires Inverts(c)
    requires |pt| % 16 == 0
    ensures Decrypt(c, key, iv, Encrypt(c, key, iv, pt).bytes) == Chained(pt, Encrypt(c, key, iv, pt).iv)
    decreases |pt|
  {
    if |pt| > 0 {
      var e := Encrypt(c, key, iv, pt);
      var b := EncryptBlock(c, key, iv, pt[..16]);
      assert e.bytes[..16] == b;
      assert e.bytes[16..] == Encrypt(c, key, b, pt[16..]).bytes;
      DecryptEncrypt(c, key, b, pt[16..]);
      DecryptBlockInverts(c, key, iv, pt[..16]);
      assert pt == pt[..16] + pt[16..];
    }
  }

  /** Encrypting a concatenation is encrypting the first part, then the second from the
      chaining value the first left: chaining runs on across field boundaries. */
  lemma {:induction false} EncryptAppend(c: BlockCipher, key: seq<bv8>, iv: Bytes16, a: seq<bv8>, b: seq<bv8>)
    requires |a| % 16 == 0 && |b| % 16 == 0
    ensures var ea := Encrypt(c, key, iv, a);
            var eb := Encrypt(c, key, ea.iv, b);
            Encrypt(c, key, iv, a + b) == Chained(ea.bytes + eb.bytes, eb.iv)
    decreases |a|
  {
    if |a| > 0 {
      var blk := EncryptBlock(c, key, iv, a[..16]);
      assert (a + b)[..16] == a[..16];
      assert (a + b)[16..] == a[16..] + b;
      EncryptAppend(c, key, blk, a[16..], b);
    } else {
      assert a + b == b;
    }
  }

  lemma {:induction false} DecryptAppend(c: BlockCipher, key: seq<bv8>, iv: Bytes16, a: seq<bv8>, b: seq<bv8>)
    requires |a| % 16 == 0 && |b| % 16 == 0
    ensures var da := Decrypt(c, key, iv, a);
            var db := Decrypt(c, key, da.iv, b);
            Decrypt(c, key, iv, a + b) == Chained(da.bytes + db.bytes, db.iv)
    decreases |a|
  {
    if |a| > 0 {
      assert (a + b)[..16] == a[..16];
      assert (a + b)[16..] == a[16..] + b;
      DecryptAppend(c, key, a[..16], a[16..], b);
    } else {
      assert a + b == b;
    }
  }

  /** In both directions the session ends at the last ciphertext block it saw, and an empty run
      leaves it where it was. */
  lemma {:induction false} ChainingValueIsLastCiphertext(c: BlockCipher, key: seq<bv8>, iv: Bytes16, s: seq<bv8>)
    requires |s| % 16 == 0
    ensures |s| == 0 ==> Encrypt(c, key, iv, s).iv == iv && Decrypt(c, key, iv, s).iv == iv
    ensures |s| > 0 ==> Encrypt(c, key, iv, s).iv == Encrypt(c, key, iv, s).bytes[|s| - 16..]
    ensures |s| > 0 ==> Decrypt(c, key, iv, s).iv == s[|s| - 16..]
    decreases |s|
  {
    if |s| > 0 {
      var e := Encrypt(c, key, iv, s);
      var b := EncryptBlock(c, key, iv, s[..16]);
      ChainingValueIsLastCiphertext(c, key, b, s[16..]);
      ChainingValueIsLastCiphertext(c, key, s[..16], s[16..]);
      if |s| == 16 {
        assert e.bytes == b;
      } else {
        assert e.bytes[|s| - 16..] == Encrypt(c, key, b, s[16..]).bytes[|s| - 32..];
        assert s[|s| - 16..] == s[16..][|s| - 32..];
      }
    }
  }
  /** The `k`-th 16-byte block of `s`. */
  function BlockAt(s: seq<bv8>, k: nat): Bytes16
    requires 16 * k + 16 <= |s|
  {
    s[16 * k..16 * k + 16]
  }

  /** The chaining value block `k` is combined with: the IV for the first block, the previous
      ciphertext block otherwise. */
  function ChainIn(iv: Bytes16, ct: seq<bv8>, k: nat): Bytes16
    requires 16 * k <= |ct|
  {
    if k == 0 then iv else BlockAt(ct, k - 1)
  }

  lemma BlockShift(x: seq<bv8>, y: seq<bv8>, k: nat)
    requires |x| == 16 && k >= 1 && 16 * k + 16 <= |x + y|
    ensures BlockAt(x + y, k) == BlockAt(y, k - 1)
  {
  }

  /** Section 6.2 of NIST SP 800-38A, block by block: ciphertext block `k` is the cipher applied
      to plaintext block `k` XOR the previous ciphertext block (the IV for the first). */
  lemma {:induction false} EncryptIsCbc(c: BlockCipher, key: seq<bv8>, iv: Bytes16, pt: seq<bv8>)
    requires |pt| % 16 == 0
    ensures var ct := Encrypt(c, key, iv, pt).bytes;
            forall k: nat :: k < |pt| / 16 ==>
              BlockAt(ct, k) == c.encrypt(key, Xor(BlockAt(pt, k), ChainIn(iv, ct, k)))
    decreases |pt|
  {
    if |pt| > 0 {
      var ct := Encrypt(c, key, iv, pt).bytes;
      var b := EncryptBlock(c, key, iv, pt[..16]);
      var tail := Encrypt(c, key, b, pt[16..]).bytes;
      assert ct == b + tail;
      EncryptIsCbc(c, key, b, pt[16..]);
      forall k: nat | k < |pt| / 16
        ensures BlockAt(ct, k) == c.encrypt(key, Xor(BlockAt(pt, k), ChainIn(iv, ct, k)))
      {
        if k == 0 {
          assert BlockAt(ct, 0) == b && BlockAt(pt, 0) == pt[..16];
        } else {
          BlockShift(b, tail, k);
          BlockShift(pt[..16], pt[16..], k);
          assert pt[..16] + pt[16..] == pt;
          if k >= 2 {
            BlockShift(b, tail, k - 1);
          } else {
            assert BlockAt(ct, 0) == b;
          }
          assert BlockAt(tail, k - 1) == c.encrypt(key, Xor(BlockAt(pt[16..], k - 1), ChainIn(b, tail, k - 1)));
        }
      }
    }
  }

  /** Section 6.2 of NIST SP 800-38A, block by block: plaintext block `k` is the inverse cipher
      of ciphertext block `k`, XOR the previous ciphertext block (the IV for the first). */
  lemma {:induction false} DecryptIsCbc(c: BlockCipher, key: seq<bv8>, iv: Bytes16, ct: seq<bv8>)
    requires |ct| % 16 == 0
    ensures var pt := Decrypt(c, key, iv, ct).bytes;
            forall k: nat :: k < |ct| / 16 ==>
              BlockAt(pt, k) == Xor(c.decrypt(key, BlockAt(ct, k)), ChainIn(iv, ct, k))
    decreases |ct|
  {
    if |ct| > 0 {
      var pt := Decrypt(c, key, iv, ct).bytes;
      var b := DecryptBlock(c, key, iv, ct[..16]);
      var tail := Decrypt(c, key, ct[..16], ct[16..]).bytes;
      assert pt == b + tail;
      DecryptIsCbc(c, key, ct[..16], ct[16..]);
      forall k: nat | k < |ct| / 16
        ensures BlockAt(pt, k) == Xor(c.decrypt(key, BlockAt(ct, k)), ChainIn(iv, ct, k))
      {
        if k == 0 {
          assert BlockAt(pt, 0) == b && BlockAt(ct, 0) == ct[..16];
        } else {
          BlockShift(b, tail, k);
          BlockShift(ct[..16], ct[16..], k);
          assert ct[..16] + ct[16..] == ct;
          if k >= 2 {
            BlockShift(ct[..16], ct[16..], k - 1);
          } else {
            assert BlockAt(ct, 0) == ct[..16];
          }
          assert BlockAt(tail, k - 1) == Xor(c.decrypt(key, BlockAt(ct[16..], k - 1)), ChainIn(ct[..16], ct[16..], k - 1));
        }
      }
    }
  }
}
