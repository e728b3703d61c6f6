/** Field framing of the encrypted field stream: `readField` (src/pwsafe/parse.go), the framing
    half of `ReadField` (src/pwsafe/reader.go) and `writeField` (output.go).

    A field starts with one 16-byte block whose cleartext is a little-endian 32-bit length, a
    type byte and 11 inline data bytes. A longer field continues in as many further blocks as
    its remaining bytes need; the filler after the last data byte is never inspected. The stream
    ends with a 16-byte ASCII sentinel that is never encrypted. */
module Framer {
  import opened Wrappers
  import opened Bytes
  import opened Primitives
  import opened Cbc

  /** The end-of-stream marker, ASCII "PWS3-EOFPWS3-EOF". */
  const Sentinel: seq<bv8> := [0x50, 0x57, 0x53, 0x33, 0x2D, 0x45, 0x4F, 0x46, 0x50, 0x57, 0x53, 0x33, 0x2D, 0x45, 0x4F, 0x46]

  /** Type code closing the header group and every record group. */
  const EndOfEntry: bv8 := 0xFF

  /** Data bytes carried in the first block of a field. */
  const InlineCapacity: nat := 11

  datatype Field = Field(ftype: bv8, data: seq<bv8>)

  /** Why no field could be read, as the error of the `binary.Read` of a field's first block:
      - `NoData`: the stream is exhausted at a block boundary (`io.EOF`);
      - `ShortBlock`: between 1 and 15 bytes remain (`io.ErrUnexpectedEOF`). */
  datatype FieldError = NoData | ShortBlock

  /** What one call of `readField` leaves: a field, the sentinel, or the `io.EOF` of the
      continuation `Read` of a long field of which only the first block is left. The first block
      is consumed and decrypted in that case, so the stream and the decrypter still move on. Each
      outcome carries the rest of the stream and the decrypter's chaining value. */
  datatype Frame =
    | FieldFrame(field: Field, rest: seq<bv8>, iv: Bytes16)
    | EndFrame(rest: seq<bv8>, iv: Bytes16)
    | Exhausted(rest: seq<bv8>, iv: Bytes16)

  /** Number of continuation blocks for `n` bytes beyond the inline ones: ceil(n / 16). */
  function BlockCount(n: nat): (k: nat)
    ensures n <= 16 * k < n + 16
    ensures k == 0 <==> n == 0
  {
    n / 16 + (if n % 16 != 0 then 1 else 0)
  }

  /** Bytes of continuation blocks for `n` bytes beyond the inline ones, computed without
      overflow (the corrected form of the `uint32` product in the source). */
  function ExtraSpan(n: nat): (r: nat)
    ensures r % 16 == 0
    ensures n <= r < n + 16
  {
    16 * BlockCount(n)
  }

  /** The continuation-buffer size as the source computes it: `numBlocks * 16` in `uint32`. */
  function ExtraSpanU32(n: nat): nat
    requires n < TwoTo32
  {
    (16 * BlockCount(n)) % TwoTo32
  }

  /** The 32-bit buffer size falls short of the bytes it must hold exactly when the remaining
      length exceeds 2^32 - 16, that is when the declared length is 2^32 - 4 or more. */
  lemma ExtraSpanU32Wraps(n: nat)
    requires n < TwoTo32
    ensures ExtraSpanU32(n) < n <==> n > TwoTo32 - 16
    ensures n <= TwoTo32 - 16 ==> ExtraSpanU32(n) == ExtraSpan(n)
  {
    if n > TwoTo32 - 16 {
      assert BlockCount(n) == TwoTo32 / 16;
    }
  }

  /** A declared length of 0xFFFFFFFF gets an empty continuation buffer. */
  lemma ExtraSpanU32MaxLength()
    ensures ExtraSpanU32(0xFFFF_FFFF - InlineCapacity) == 0
  {
    assert BlockCount(0xFFFF_FFFF - InlineCapacity) == 0x1000_0000;
  }

  /** Bytes of continuation blocks a field of declared length `length` occupies. */
  function FieldSpan(length: nat): (r: nat)
    ensures r % 16 == 0
    ensures length <= InlineCapacity + r
    ensures r == 0 <==> length <= InlineCapacity
  {
    if length <= InlineCapacity then 0 else ExtraSpan(length - InlineCapacity)
  }

  /** The length the first block of `input` announces, decrypted at chaining value `iv`. */
  function HeadLength(c: BlockCipher, key: seq<bv8>, iv: Bytes16, input: seq<bv8>): nat
    requires |input| >= 16
  {
    LeValue(DecryptBlock(c, key, iv, input[..16])[..4])
  }

  /** `f` is the field at the head of `input`: the first block, decrypted at `iv`, gives the
      length and type; the data is the 11 inline bytes followed by the decrypted continuation
      blocks, cut to the declared length; `rest` follows the last block read, and `ivOut`, the
      chaining value the decrypter is left at, is that last ciphertext block. */
  predicate Decoded(c: BlockCipher, key: seq<bv8>, iv: Bytes16, input: seq<bv8>, f: Field, rest: seq<bv8>, ivOut: Bytes16)
    requires |input| >= 16
  {
    var pt := DecryptBlock(c, key, iv, input[..16]);
    var length := HeadLength(c, key, iv, input);
    var span := FieldSpan(length);
    && |input| == 16 + span + |rest|
    && rest == input[16 + span..]
    && ivOut == input[span..16 + span]
    && f.ftype == pt[4]
    && f.data == (pt[5..] + Decrypt(c, key, input[..16], input[16..16 + span]).bytes)[..length]
  }

  /** `f` is the field at the head of `input` when the stream ends inside its continuation
      blocks. The continuation `Read` then returns the bytes that are left and no error, so the
      buffer keeps the zeros `make` put past them. The whole buffer is decrypted and the data is
      cut from it; the stream is then empty and the decrypter is left at the buffer's last block. */
  predicate DecodedShortRead(c: BlockCipher, key: seq<bv8>, iv: Bytes16, input: seq<bv8>, f: Field, rest: seq<bv8>, ivOut: Bytes16)
    requires |input| >= 16
  {
    var pt := DecryptBlock(c, key, iv, input[..16]);
    var length := HeadLength(c, key, iv, input);
    var span := FieldSpan(length);
    && 16 < |input| < 16 + span
    && (var buf := input[16..] + Zeros(16 + span - |input|);
        && rest == []
        && ivOut == buf[span - 16..]
        && f.ftype == pt[4]
        && f.data == (pt[5..] + Decrypt(c, key, input[..16], buf).bytes)[..length])
  }

  /** `f`, `rest` and `ivOut` are what `readField` returns and leaves for the field at the head
      of `input`: decoded from whole continuation blocks when the stream holds them all, and from
      a zero-filled buffer when it ends sooner. */
  predicate Framed(c: BlockCipher, key: seq<bv8>, iv: Bytes16, input: seq<bv8>, f: Field, rest: seq<bv8>, ivOut: Bytes16)
    requires |input| >= 16
  {
    if |input| >= 16 + FieldSpan(HeadLength(c, key, iv, input)) then Decoded(c, key, iv, input, f, rest, ivOut)
    else DecodedShortRead(c, key, iv, input, f, rest, ivOut)
  }

  /** Reads one field at the head of `input` with the decrypter at chaining value `iv`. */
  function ReadField(c: BlockCipher, key: seq<bv8>, iv: Bytes16, input: seq<bv8>): (r: Result<Frame, FieldError>)
    ensures r == Failure(NoData) <==> |input| == 0
    ensures r == Failure(ShortBlock) <==> 0 < |input| < 16
    ensures r.Success? && r.value.EndFrame? <==> |input| >= 16 && input[..16] == Sentinel
    ensures r.Success? && r.value.EndFrame? ==> r.value.rest == input[16..] && r.value.iv == iv
    ensures r.Success? && r.value.Exhausted? <==>
              |input| == 16 && input[..16] != Sentinel && HeadLength(c, key, iv, input) > InlineCapacity
    ensures r.Success? && r.value.Exhausted? ==> r.value.rest == [] && r.value.iv == input[..16]
    ensures r.Success? && r.value.FieldFrame? ==>
              && |input| >= 16
              && |r.value.field.data| == HeadLength(c, key, iv, input)
              && |r.value.rest| + 16 <= |input|
              && Framed(c, key, iv, input, r.value.field, r.value.rest, r.value.iv)
  {
    if |input| == 0 then Failure(NoData)
    else if |input| < 16 then Failure(ShortBlock)
    else if input[..16] == Sentinel then Success(EndFrame(input[16..], iv))
    else if HeadLength(c, key, iv, input) <= InlineCapacity then Success(ReadShortField(c, key, iv, input))
    else Success(ReadLongField(c, key, iv, input))
  }

  /** A field whose data fits in its first block. */
  function ReadShortField(c: BlockCipher, key: seq<bv8>, iv: Bytes16, input: seq<bv8>): (fr: Frame)
    requires |input| >= 16 && HeadLength(c, key, iv, input) <= InlineCapacity
    ensures fr.FieldFrame? && Decoded(c, key, iv, input, fr.field, fr.rest, fr.iv)
    ensures fr.FieldFrame? && |fr.field.data| == HeadLength(c, key, iv, input) && fr.rest == input[16..]
  {
    var pt := DecryptBlock(c, key, iv, input[..16]);
    var length := HeadLength(c, key, iv, input);
    assert input[16..16] == [];
    assert (pt[5..] + [])[..length] == pt[5..5 + length];
    FieldFrame(Field(pt[4], pt[5..5 + length]), input[16..], input[..16])
  }

  /** A field continued in further blocks. Its first block alone gives `io.EOF`; a stream ending
      inside the continuation gives the field decoded from the zero-filled buffer. */
  function ReadLongField(c: BlockCipher, key: seq<bv8>, iv: Bytes16, input: seq<bv8>): (fr: Frame)
    requires |input| >= 16 && HeadLength(c, key, iv, input) > InlineCapacity
    ensures fr.FieldFrame? || fr.Exhausted?
    ensures fr.Exhausted? <==> |input| == 16
    ensures fr.Exhausted? ==> fr.rest == [] && fr.iv == input[..16]
    ensures fr.FieldFrame? ==>
              && |fr.field.data| == HeadLength(c, key, iv, input)
              && |fr.rest| + 16 <= |input|
              && Framed(c, key, iv, input, fr.field, fr.rest, fr.iv)
  {
    if |input| == 16 then Exhausted([], input[..16])
    else if |input| < 16 + FieldSpan(HeadLength(c, key, iv, input)) then ReadPaddedField(c, key, iv, input)
    else ReadWholeField(c, key, iv, input)
  }

  /** The continuation `Read` came up short: the field is cut from the zero-filled buffer. */
  function ReadPaddedField(c: BlockCipher, key: seq<bv8>, iv: Bytes16, input: seq<bv8>): (fr: Frame)
    requires |input| >= 16 && HeadLength(c, key, iv, input) > InlineCapacity
    requires 16 < |input| < 16 + FieldSpan(HeadLength(c, key, iv, input))
    ensures fr.FieldFrame? && |fr.field.data| == HeadLength(c, key, iv, input)
    ensures fr.FieldFrame? && DecodedShortRead(c, key, iv, input, fr.field, fr.rest, fr.iv)
  {
    var pt := DecryptBlock(c, key, iv, input[..16]);
    var length := HeadLength(c, key, iv, input);
    var span := FieldSpan(length);
    var buf := input[16..] + Zeros(16 + span - |input|);
    var extra := Decrypt(c, key, input[..16], buf);
    ChainingValueIsLastCiphertext(c, key, input[..16], buf);
    assert (pt[5..] + extra.bytes)[..length] == pt[5..] + extra.bytes[..length - InlineCapacity];
    FieldFrame(Field(pt[4], pt[5..] + extra.bytes[..length - InlineCapacity]), [], extra.iv)
  }

  /** Every continuation block is there: the field is cut from them and the stream goes on
      after the last. */
  function ReadWholeField(c: BlockCipher, key: seq<bv8>, iv: Bytes16, input: seq<bv8>): (fr: Frame)
    requires |input| >= 16 && HeadLength(c, key, iv, input) > InlineCapacity
    requires |input| >= 16 + FieldSpan(HeadLength(c, key, iv, input))
    ensures fr.FieldFrame? && |fr.field.data| == HeadLength(c, key, iv, input)
    ensures fr.FieldFrame? && Decoded(c, key, iv, input, fr.field, fr.rest, fr.iv)
  {
    var pt := DecryptBlock(c, key, iv, input[..16]);
    var length := HeadLength(c, key, iv, input);
    var span := FieldSpan(length);
    var more := input[16..16 + span];
    var extra := Decrypt(c, key, input[..16], more);
    ChainingValueIsLastCiphertext(c, key, input[..16], more);
    assert more[span - 16..] == input[span..16 + span];
    assert (pt[5..] + extra.bytes)[..length] == pt[5..] + extra.bytes[..length - InlineCapacity];
    FieldFrame(Field(pt[4], pt[5..] + extra.bytes[..length - InlineCapacity]), input[16 + span..], extra.iv)
  }

  /** The first cleartext block of a field: the 32-bit length, the type and up to 11 bytes of
      data, zero-filled. */
  function HeadBlock(length: nat, ftype: bv8, data: seq<bv8>): (b: Bytes16)
  {
    LeBytes(length, 4) + [ftype] + CopyInto(Zeros(InlineCapacity), data)
  }

  lemma HeadBlockLayout(length: nat, ftype: bv8, data: seq<bv8>)
    ensures var b := HeadBlock(length, ftype, data);
            && b[..4] == LeBytes(length, 4)
            && b[4] == ftype
            && b[5..] == CopyInto(Zeros(InlineCapacity), data)
  {
  }

  /** The continuation blocks of a field announcing `length` bytes: the bytes past the inline
      ones, zero-padded to whole blocks; none when the data fits the first block. */
  function TailBlocks(length: nat, data: seq<bv8>): (t: seq<bv8>)
    requires length <= |data|
    ensures |t| == FieldSpan(length)
  {
    if length > InlineCapacity then CopyInto(Zeros(FieldSpan(length)), data[InlineCapacity..]) else []
  }

  /** Cleartext blocks `writeField` lays out for a field: the head block, then the continuation
      blocks. The length written is `uint32(len(fdata))`. */
  function FrameBlocks(f: Field): (p: seq<bv8>)
    ensures |p| == 16 + FieldSpan(|f.data| % TwoTo32)
    ensures |p| % 16 == 0
  {
    var length := |f.data| % TwoTo32;
    ModBelow(|f.data|, TwoTo32);
    var h, t := HeadBlock(length, f.ftype, f.data), TailBlocks(length, f.data);
    AlignedLength(h, t);
    h + t
  }

  lemma AlignedLength(h: Bytes16, t: seq<bv8>)
    requires |t| % 16 == 0
    ensures |h + t| == 16 + |t| && |h + t| % 16 == 0
  {
  }

  /** Ciphertext written, chaining value reached and bytes fed to the HMAC. */
  datatype Written = Written(out: seq<bv8>, iv: Bytes16, hashed: seq<bv8>)

  /** `writeField`: an empty field writes and hashes nothing; any other is framed, encrypted
      block by block from the current chaining value, and its data is hashed. */
  function WriteField(c: BlockCipher, key: seq<bv8>, iv: Bytes16, ftype: bv8, fdata: seq<bv8>): (w: Written)
    ensures |fdata| == 0 ==> w == Written([], iv, [])
    ensures |fdata| > 0 ==> w.hashed == fdata
    ensures |w.out| % 16 == 0
    ensures 0 < |fdata| < TwoTo32 ==> |w.out| == 16 + FieldSpan(|fdata|)
  {
    if |fdata| < 1 then Written([], iv, [])
    else
      var e := Encrypt(c, key, iv, FrameBlocks(Field(ftype, fdata)));
      Written(e.bytes, e.iv, fdata)
  }

  /** Concatenation of two consecutive writes, the second starting where the first ended. */
  function Then(w1: Written, w2: Written): (w: Written)
    ensures |w.out| == |w1.out| + |w2.out|
    ensures |w1.out| % 16 == 0 && |w2.out| % 16 == 0 ==> |w.out| % 16 == 0
  {
    assert |w1.out| % 16 == 0 && |w2.out| % 16 == 0 ==>
             |w1.out| + |w2.out| == 16 * (|w1.out| / 16 + |w2.out| / 16);
    Written(w1.out + w2.out, w2.iv, w1.hashed + w2.hashed)
  }

  /** No block of a block-aligned ciphertext is the sentinel. The format cannot tell a
      ciphertext block equal to the sentinel from the end of the stream, so every decoding
      round trip holds only for streams without one. */
  predicate NoSentinelBlock(s: seq<bv8>)
    decreases |s|
  {
    |s| < 16 || (s[..16] != Sentinel && NoSentinelBlock(s[16..]))
  }

  lemma {:induction false} NoSentinelBlockAppend(a: seq<bv8>, b: seq<bv8>)
    requires |a| % 16 == 0
    ensures NoSentinelBlock(a + b) <==> NoSentinelBlock(a) && NoSentinelBlock(b)
    decreases |a|
  {
    if |a| == 0 {
      assert a + b == b;
    } else {
      assert (a + b)[..16] == a[..16];
      assert (a + b)[16..] == a[16..] + b;
      NoSentinelBlockAppend(a[16..], b);
    }
  }

  /** Layout of the cleartext of a field whose length fits in 32 bits. */
  lemma FrameBlocksLayout(f: Field)
    requires |f.data| < TwoTo32
    ensures var p := FrameBlocks(f);
            && p[..4] == LeBytes(|f.data|, 4)
            && p[4] == f.ftype
            && (|f.data| <= InlineCapacity ==> |p| == 16 && p[5..5 + |f.data|] == f.data)
            && (|f.data| > InlineCapacity ==>
                  && |p| == 16 + ExtraSpan(|f.data| - InlineCapacity)
                  && p[5..16] == f.data[..InlineCapacity]
                  && p[16..][..|f.data| - InlineCapacity] == f.data[InlineCapacity..])
            && (forall i :: 5 + |f.data| <= i < |p| ==> p[i] == 0)
  {
    var d := f.data;
    assert |d| % TwoTo32 == |d|;
    var h := HeadBlock(|d|, f.ftype, d);
    var t := TailBlocks(|d|, d);
    FrameBlocksSplit(FrameBlocks(f), h, t);
    HeadBlockLayout(|d|, f.ftype, d);
    CopyIntoPrefix(Zeros(InlineCapacity), d);
    if |d| > InlineCapacity {
      CopyIntoPrefix(Zeros(FieldSpan(|d|)), d[InlineCapacity..]);
    }
  }

  lemma FrameBlocksSplit(p: seq<bv8>, h: Bytes16, t: seq<bv8>)
    requires p == h + t
    ensures p[..4] == h[..4] && p[4] == h[4] && p[5..16] == h[5..] && p[16..] == t
  {
  }

  /** The first ciphertext block of an encrypted field decrypts to the field's first cleartext
      block, which announces the field's length and type. */
  lemma FirstBlockDecrypts(c: BlockCipher, key: seq<bv8>, iv: Bytes16, f: Field)
    requires Inverts(c)
    requires |f.data| < TwoTo32
    ensures var p := FrameBlocks(f);
            var e := Encrypt(c, key, iv, p);
            var pt := DecryptBlock(c, key, iv, e.bytes[..16]);
            && pt == p[..16]
            && LeValue(pt[..4]) == |f.data|
            && e.bytes[16..] == Encrypt(c, key, e.bytes[..16], p[16..]).bytes
            && e.iv == Encrypt(c, key, e.bytes[..16], p[16..]).iv
  {
    var p := FrameBlocks(f);
    var b := EncryptBlock(c, key, iv, p[..16]);
    assert Encrypt(c, key, iv, p).bytes[..16] == b;
    DecryptBlockInverts(c, key, iv, p[..16]);
    FrameBlocksLayout(f);
    Pow256Widths();
    LeValueOfBytes(|f.data|, 4);
    assert p[..16][..4] == p[..4];
  }

  /** Reading back the encryption of a field's blocks, from the chaining value they were
      encrypted at, yields that field and the chaining value the encrypter reached, whatever
      follows in the stream, provided the first ciphertext block is not the sentinel. */
  lemma ReadFrame(c: BlockCipher, key: seq<bv8>, iv: Bytes16, f: Field, after: seq<bv8>)
    requires Inverts(c)
    requires |f.data| < TwoTo32
    requires Encrypt(c, key, iv, FrameBlocks(f)).bytes[..16] != Sentinel
    ensures var e := Encrypt(c, key, iv, FrameBlocks(f));
            ReadField(c, key, iv, e.bytes + after) == Success(FieldFrame(f, after, e.iv))
  {
    var e := Encrypt(c, key, iv, FrameBlocks(f));
    var input := e.bytes + after;
    FrameDecodes(c, key, iv, f, after);
    assert input[..16] == e.bytes[..16];
    var r := ReadField(c, key, iv, input);
    DecodedUnique(c, key, iv, input, r.value.field, r.value.rest, r.value.iv, f, after, e.iv);
  }

  /** The decoding of the head of a stream is unique. */
  lemma DecodedUnique(c: BlockCipher, key: seq<bv8>, iv: Bytes16, input: seq<bv8>,
                      f1: Field, rest1: seq<bv8>, iv1: Bytes16, f2: Field, rest2: seq<bv8>, iv2: Bytes16)
    requires |input| >= 16
    requires Decoded(c, key, iv, input, f1, rest1, iv1) && Decoded(c, key, iv, input, f2, rest2, iv2)
    ensures f1 == f2 && rest1 == rest2 && iv1 == iv2
  {
  }

  /** The encryption of a field's blocks, followed by anything, decodes as that field. */
  lemma FrameDecodes(c: BlockCipher, key: seq<bv8>, iv: Bytes16, f: Field, after: seq<bv8>)
    requires Inverts(c)
    requires |f.data| < TwoTo32
    ensures var e := Encrypt(c, key, iv, FrameBlocks(f));
            && |e.bytes + after| == 16 + FieldSpan(|f.data|) + |after|
            && HeadLength(c, key, iv, e.bytes + after) == |f.data|
            && Decoded(c, key, iv, e.bytes + after, f, after, e.iv)
  {
    var e := Encrypt(c, key, iv, FrameBlocks(f));
    FirstBlockDecrypts(c, key, iv, f);
    FrameBlocksLayout(f);
    assert (e.bytes + after)[..16] == e.bytes[..16];
    if |f.data| <= InlineCapacity {
      ShortFrameDecodes(c, key, iv, f, after);
    } else {
      LongFrameDecodes(c, key, iv, f, after);
    }
  }

  lemma ShortFrameDecodes(c: BlockCipher, key: seq<bv8>, iv: Bytes16, f: Field, after: seq<bv8>)
    requires Inverts(c)
    requires |f.data| <= InlineCapacity
    ensures var e := Encrypt(c, key, iv, FrameBlocks(f));
            Decoded(c, key, iv, e.bytes + after, f, after, e.iv)
  {
    var d := f.data;
    var p := FrameBlocks(f);
    var e := Encrypt(c, key, iv, p);
    var input := e.bytes + after;
    FirstBlockDecrypts(c, key, iv, f);
    FrameBlocksLayout(f);
    var head := e.bytes[..16];
    assert input[..16] == head;
    var pt := DecryptBlock(c, key, iv, head);
    assert input[16..16] == [] && input[16..] == after;
    assert input[0..16] == head == e.iv;
    assert pt[5..5 + |d|] == p[5..5 + |d|] == d;
    assert (pt[5..] + [])[..|d|] == pt[5..5 + |d|];
  }

  lemma LongFrameDecodes(c: BlockCipher, key: seq<bv8>, iv: Bytes16, f: Field, after: seq<bv8>)
    requires Inverts(c)
    requires InlineCapacity < |f.data| < TwoTo32
    ensures var e := Encrypt(c, key, iv, FrameBlocks(f));
            Decoded(c, key, iv, e.bytes + after, f, after, e.iv)
  {
    var d := f.data;
    var p := FrameBlocks(f);
    var e := Encrypt(c, key, iv, p);
    var head := e.bytes[..16];
    var tail := Encrypt(c, key, head, p[16..]);
    var mid := tail.bytes;
    var pt := DecryptBlock(c, key, iv, head);
    assert e.bytes == head + mid && e.iv == tail.iv && pt == p[..16] && LeValue(pt[..4]) == |d| by {
      FirstBlockDecrypts(c, key, iv, f);
    }
    assert pt[4] == f.ftype && |p| == 16 + FieldSpan(|d|) && d == p[5..16] + p[16..][..|d| - InlineCapacity] by {
      FrameBlocksLayout(f);
      assert d == d[..InlineCapacity] + d[InlineCapacity..];
    }
    assert Decrypt(c, key, head, mid).bytes == p[16..] by {
      DecryptEncrypt(c, key, head, p[16..]);
    }
    assert e.iv == (head + mid)[|mid|..] by {
      ChainingValueIsLastCiphertext(c, key, head, p[16..]);
      assert (head + mid)[|mid|..] == mid[|mid| - 16..];
    }
    assert d == (pt[5..] + p[16..])[..|d|];
    DecodedIntro(c, key, iv, head, mid, after, f, e.iv);
  }

  /** `Decoded` from its parts: a head block announcing the field, the continuation blocks the
      length calls for, and whatever follows. */
  lemma DecodedIntro(c: BlockCipher, key: seq<bv8>, iv: Bytes16, head: Bytes16, mid: seq<bv8>, after: seq<bv8>,
                     f: Field, ivOut: Bytes16)
    requires |mid| % 16 == 0
    requires LeValue(DecryptBlock(c, key, iv, head)[..4]) == |f.data|
    requires |mid| == FieldSpan(|f.data|)
    requires DecryptBlock(c, key, iv, head)[4] == f.ftype
    requires f.data == (DecryptBlock(c, key, iv, head)[5..] + Decrypt(c, key, head, mid).bytes)[..|f.data|]
    requires ivOut == (head + mid)[|mid|..]
    ensures Decoded(c, key, iv, head + mid + after, f, after, ivOut)
  {
    var input := head + mid + after;
    assert input[..16] == head;
    assert input[16..16 + |mid|] == mid;
    assert input[16 + |mid|..] == after;
    assert input[|mid|..16 + |mid|] == (head + mid)[|mid|..];
  }

  /** `readField` after `writeField`, from the same chaining value, returns the field written and
      leaves the decrypter at the chaining value the encrypter reached. */
  lemma WriteThenReadField(c: BlockCipher, key: seq<bv8>, iv: Bytes16, ftype: bv8, fdata: seq<bv8>, tail: seq<bv8>)
    requires Inverts(c)
    requires 1 <= |fdata| < TwoTo32
    requires WriteField(c, key, iv, ftype, fdata).out[..16] != Sentinel
    ensures var w := WriteField(c, key, iv, ftype, fdata);
            ReadField(c, key, iv, w.out + tail) == Success(FieldFrame(Field(ftype, fdata), tail, w.iv))
  {
    ReadFrame(c, key, iv, Field(ftype, fdata), tail);
  }
}
