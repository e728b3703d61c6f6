/** Single bytes as numbers: the conversions between `bv8` and the integers below 256. */
module Octets {
  /** One more in the byte's own arithmetic is one more as a number, short of the top value. */
  lemma Increment(y: bv8)
    requires y as nat < 255
    ensures (y + 1) as nat == y as nat + 1
  {
  }

  /** The byte whose value is `k`: Go's `byte(k)` for `k` below 256, built by counting up so
      that no wide conversion is needed. */
  function ByteOf(k: nat): (x: bv8)
    requires k < 256
    ensures x as nat == k
  {
    if k == 0 then 0 else Increment(ByteOf(k - 1)); ByteOf(k - 1) + 1
  }

  /** Distinct bytes have distinct values. */
  lemma ValueInjective(x: bv8, y: bv8)
    requires x as nat == y as nat
    ensures x == y
  {
  }

  /** A byte is the byte of its own value. */
  lemma ByteOfNat(x: bv8)
    ensures ByteOf(x as nat) == x
  {
    ValueInjective(ByteOf(x as nat), x);
  }

  lemma DivMod256(lo: nat, hi: nat)
    requires lo < 256
    ensures (lo + 256 * hi) % 256 == lo && (lo + 256 * hi) / 256 == hi
  {
  }
}

/** Byte strings, fixed-width arrays and the little-endian integer codec of `encoding/binary`. */
module Bytes {
  import opened Octets

  /** A `[16]byte`: one cipher block, an IV, a UUID. */
  type Bytes16 = s: seq<bv8> | |s| == 16 witness seq(16, _ => 0)

  /** A `[32]byte`: a salt, a SHA-256 digest. */
  type Bytes32 = s: seq<bv8> | |s| == 32 witness seq(32, _ => 0)

  const TwoTo32: nat := 0x1_0000_0000
  const TwoTo64: nat := 0x1_0000_0000_0000_0000

  function Zeros(n: nat): (z: seq<bv8>)
    ensures |z| == n
    ensures forall i :: 0 <= i < n ==> z[i] == 0
  {
    seq(n, _ => 0)
  }

  /** Go's built-in `copy(dst, src)`: the first min(len(dst), len(src)) bytes of `dst` are
      replaced by those of `src`, the rest of `dst` is kept. */
  function CopyInto(dst: seq<bv8>, src: seq<bv8>): (r: seq<bv8>)
    ensures |r| == |dst|
  {
    if |src| < |dst| then src + dst[|src|..] else src[..|dst|]
  }

  lemma CopyIntoPrefix(dst: seq<bv8>, src: seq<bv8>)
    ensures |src| <= |dst| ==> CopyInto(dst, src)[..|src|] == src
    ensures |src| >= |dst| ==> CopyInto(dst, src) == src[..|dst|]
    ensures forall i :: |src| <= i < |dst| ==> CopyInto(dst, src)[i] == dst[i]
  {
  }

  /** Concatenation regrouped, as a fact the callers can cite without reproving it. */
  lemma AppendAssoc(a: seq<bv8>, b: seq<bv8>, c: seq<bv8>)
    ensures a + b + c == a + (b + c)
  {
  }

  lemma AppendEmpty(a: seq<bv8>)
    ensures [] + a == a && a + [] == a
  {
  }

  /** Where each part of a four-part concatenation sits. */
  lemma Parts4(a: seq<bv8>, b: seq<bv8>, c: seq<bv8>, d: seq<bv8>)
    ensures var x := a + b + c + d;
            && |x| == |a| + |b| + |c| + |d|
            && x[..|a|] == a
            && x[|a|..|a| + |b|] == b
            && x[|a| + |b|..|a| + |b| + |c|] == c
            && x[|x| - |d|..] == d
  {
    var x := a + b + c + d;
    assert x[..|a|] == a;
    assert x[|a|..|a| + |b|] == b;
    assert x[|a| + |b|..|a| + |b| + |c|] == c;
    assert x[|x| - |d|..] == d;
  }

  function Xor(a: Bytes16, b: Bytes16): (r: Bytes16)
  {
    seq(16, i requires 0 <= i < 16 => a[i] ^ b[i])
  }

  /** XOR with the same block twice is the identity: what makes CBC decryption undo encryption. */
  lemma XorCancel(a: Bytes16, b: Bytes16)
    ensures Xor(Xor(a, b), b) == a
  {
    var x := Xor(Xor(a, b), b);
    forall i | 0 <= i < 16
      ensures x[i] == a[i]
    {
      assert x[i] == (a[i] ^ b[i]) ^ b[i];
    }
  }

  function Pow256(w: nat): (p: nat)
    ensures p >= 1
  {
    if w == 0 then 1 else 256 * Pow256(w - 1)
  }

  lemma Pow256Widths()
    ensures Pow256(4) == TwoTo32
    ensures Pow256(8) == TwoTo64
  {
    assert Pow256(1) == 256;
    assert Pow256(2) == 65536;
    assert Pow256(3) == 16777216;
    assert Pow256(4) == 4294967296;
    assert Pow256(5) == 1099511627776;
    assert Pow256(6) == 281474976710656;
    assert Pow256(7) == 72057594037927936;
  }

  /** The unsigned integer a little-endian byte string encodes (`binary.LittleEndian`). */
  function LeValue(b: seq<bv8>): nat
  {
    if |b| == 0 then 0 else b[0] as nat + 256 * LeValue(b[1..])
  }

  /** The `w`-byte little-endian encoding of `n`, keeping its low `w` bytes as Go's
      fixed-width conversions do. */
  function LeBytes(n: nat, w: nat): (b: seq<bv8>)
    ensures |b| == w
  {
    if w == 0 then [] else [ByteOf(n % 256)] + LeBytes(n / 256, w - 1)
  }

  lemma {:induction false} LeValueBound(b: seq<bv8>)
    ensures LeValue(b) < Pow256(|b|)
  {
    if |b| > 0 {
      LeValueBound(b[1..]);
      assert LeValue(b[1..]) + 1 <= Pow256(|b| - 1);
      assert 256 * (LeValue(b[1..]) + 1) <= 256 * Pow256(|b| - 1);
    }
  }

  lemma LeValueCons(x: bv8, t: seq<bv8>)
    ensures LeValue([x] + t) == x as nat + 256 * LeValue(t)
  {
    assert ([x] + t)[1..] == t;
  }


  /** Decoding an encoding gives the number back whenever it fits in the width. */
  lemma {:induction false} LeValueOfBytes(n: nat, w: nat)
    requires n < Pow256(w)
    ensures LeValue(LeBytes(n, w)) == n
  {
    if w > 0 {
      var q := n / 256;
      assert q < Pow256(w - 1);
      LeValueOfBytes(q, w - 1);
      LeValueCons(ByteOf(n % 256), LeBytes(q, w - 1));
    }
  }

  /** Reducing modulo a width never makes a length larger. */
  lemma ModBelow(n: nat, m: nat)
    requires m > 0
    ensures n % m <= n
  {
  }



  /** One more byte of encoding: the low byte, then the rest of the value. */
  lemma LeBytesCons(x: bv8, n: nat, w: nat)
    ensures LeBytes(x as nat + 256 * n, w + 1) == [x] + LeBytes(n, w)
  {
    DivMod256(x as nat, n);
    ByteOfNat(x);
  }

  lemma ConsSplit(b: seq<bv8>)
    requires |b| > 0
    ensures [b[0]] + b[1..] == b
  {
  }

  /** Encoding a decoded value at the same width gives the bytes back. */
  lemma {:induction false} LeBytesOfValue(b: seq<bv8>)
    ensures LeBytes(LeValue(b), |b|) == b
  {
    if |b| > 0 {
      var v, rest := LeValue(b), LeValue(b[1..]);
      assert v == b[0] as nat + 256 * rest;
      LeBytesCons(b[0], rest, |b| - 1);
      assert LeBytes(v, |b|) == [b[0]] + LeBytes(rest, |b| - 1);
      LeBytesOfValue(b[1..]);
      ConsSplit(b);
    }
  }

}
