/** The 152-byte prologue `psv3Header` and the key handling around it: the checks and key
    unwrap of `NewReader` (src/pwsafe/reader.go) and `ParseFile` (src/pwsafe/parse.go), and the
    prologue `OutputFile` writes (output.go). */
module Prologue {
  import opened Wrappers
  import opened Bytes
  import opened Primitives
  import opened Stretch

  /** ASCII "PWS3". */
  const Tag: seq<bv8> := [0x50, 0x57, 0x53, 0x33]

  const PrologueSize: nat := 152

  /** Iteration count every written file uses. */
  const WriteIterations: nat := 2048

  /** Fields in file order: tag, salt, iteration count, hash of the stretched key, the data key
      wrapped as two blocks, the HMAC key wrapped as two blocks, the CBC IV. */
  datatype Psv3Header = Psv3Header(
    tag: seq<bv8>, salt: Bytes32, iter: nat, hashPPrime: Bytes32,
    b1: Bytes16, b2: Bytes16, b3: Bytes16, b4: Bytes16, iv: Bytes16)
  {
    ghost predicate WellFormed()
    {
      |tag| == 4 && iter < TwoTo32
    }
  }

  function Serialize(h: Psv3Header): (b: seq<bv8>)
    requires h.WellFormed()
    ensures |b| == PrologueSize
  {
    h.tag + h.salt + LeBytes(h.iter, 4) + h.hashPPrime + h.b1 + h.b2 + h.b3 + h.b4 + h.iv
  }

  /** `binary.Read` of the header: nothing unless all 152 bytes are there. */
  function ParseHeader(input: seq<bv8>): (r: Option<Psv3Header>)
    ensures r.Some? <==> |input| >= PrologueSize
    ensures r.Some? ==> r.value.WellFormed()
  {
    if |input| < PrologueSize then None
    else
      LeValueBound(input[36..40]);
      Pow256Widths();
      Some(Psv3Header(input[..4], input[4..36], LeValue(input[36..40]), input[40..72],
                      input[72..88], input[88..104], input[104..120], input[120..136], input[136..152]))
  }

  lemma SerializedFront(h: Psv3Header, tail: seq<bv8>)
    requires h.WellFormed()
    ensures var b := Serialize(h) + tail;
            b[..4] == h.tag && b[4..36] == h.salt && b[36..40] == LeBytes(h.iter, 4) && b[40..72] == h.hashPPrime
  {
    var b := Serialize(h) + tail;
    assert b[..4] == h.tag;
    assert b[4..36] == h.salt;
    assert b[36..40] == LeBytes(h.iter, 4);
    assert b[40..72] == h.hashPPrime;
  }

  lemma SerializedKeys(h: Psv3Header, tail: seq<bv8>)
    requires h.WellFormed()
    ensures var b := Serialize(h) + tail;
            b[72..88] == h.b1 && b[88..104] == h.b2 && b[104..120] == h.b3 && b[120..136] == h.b4
  {
    var b := Serialize(h) + tail;
    assert b[72..88] == h.b1;
    assert b[88..104] == h.b2;
    assert b[104..120] == h.b3;
    assert b[120..136] == h.b4;
  }

  lemma ParseSerialize(h: Psv3Header, tail: seq<bv8>)
    requires h.WellFormed()
    ensures ParseHeader(Serialize(h) + tail) == Some(h)
  {
    var b := Serialize(h) + tail;
    Pow256Widths();
    LeValueOfBytes(h.iter, 4);
    SerializedFront(h, tail);
    SerializedKeys(h, tail);
    assert b[136..152] == h.iv;
  }

  lemma SerializeParse(input: seq<bv8>)
    requires |input| >= PrologueSize
    ensures Serialize(ParseHeader(input).value) == input[..PrologueSize]
  {
    LeBytesOfValue(input[36..40]);
    var h := ParseHeader(input).value;
    assert Serialize(h) == input[..4] + input[4..36] + input[36..40] + input[40..72] + input[72..88]
                           + input[88..104] + input[104..120] + input[120..136] + input[136..152];
  }

  datatype OpenError = BadFileType | InvalidPassword

  /** The working keys of a file and the IV its field stream starts from. */
  datatype Keys = Keys(dataKey: seq<bv8>, macKey: seq<bv8>, iv: Bytes16)

  function StretchedKey(s: Suite, h: Psv3Header, password: seq<bv8>): Bytes32
  {
    Stretched(s.hash, h.salt, password, h.iter)
  }

  /** Checks the tag, then the passphrase, then unwraps the two working keys, each half by an
      independent single-block decryption under the stretched key. The field stream begins at
      byte 152. */
  function Open(s: Suite, input: seq<bv8>, password: seq<bv8>): (r: Result<Keys, OpenError>)
    ensures r == Failure(BadFileType) <==> |input| < PrologueSize || input[..4] != Tag
    ensures r == Failure(InvalidPassword) <==>
              && |input| >= PrologueSize && input[..4] == Tag
              && s.hash(Stretched(s.hash, input[4..36], password, LeValue(input[36..40]))) != input[40..72]
    ensures r.Success? ==>
              && |input| >= PrologueSize
              && var sk := Stretched(s.hash, input[4..36], password, LeValue(input[36..40]));
                 r.value == Keys(s.cipher.decrypt(sk, input[72..88]) + s.cipher.decrypt(sk, input[88..104]),
                                 s.cipher.decrypt(sk, input[104..120]) + s.cipher.decrypt(sk, input[120..136]),
                                 input[136..152])
  {
    match ParseHeader(input)
    case None => Failure(BadFileType)
    case Some(h) =>
      if h.tag != Tag then Failure(BadFileType)
      else
        var sk := StretchedKey(s, h, password);
        if s.hash(sk) != h.hashPPrime then Failure(InvalidPassword)
        else
          Success(Keys(s.cipher.decrypt(sk, h.b1) + s.cipher.decrypt(sk, h.b2),
                       s.cipher.decrypt(sk, h.b3) + s.cipher.decrypt(sk, h.b4),
                       h.iv))
  }

  /** The prologue `OutputFile` writes for fresh salt, IV, data key `k` and HMAC key `l`: the
      verifier is the hash of the key stretched 2048 times, and each 16-byte half of `k` and `l`
      is encrypted on its own under the stretched key. */
  function Seal(s: Suite, password: seq<bv8>, salt: Bytes32, iv: Bytes16, k: Bytes32, l: Bytes32): (b: seq<bv8>)
    ensures |b| == PrologueSize
    ensures b[..4] == Tag
    ensures b[136..152] == iv
    ensures var sk := Stretched(s.hash, salt, password, WriteIterations);
            ParseHeader(b) == Some(Psv3Header(Tag, salt, WriteIterations, s.hash(sk),
                                              s.cipher.encrypt(sk, k[..16]), s.cipher.encrypt(sk, k[16..]),
                                              s.cipher.encrypt(sk, l[..16]), s.cipher.encrypt(sk, l[16..]), iv))
  {
    var sk := Stretched(s.hash, salt, password, WriteIterations);
    var h := Psv3Header(Tag, salt, WriteIterations, s.hash(sk),
                        s.cipher.encrypt(sk, k[..16]), s.cipher.encrypt(sk, k[16..]),
                        s.cipher.encrypt(sk, l[..16]), s.cipher.encrypt(sk, l[16..]), iv);
    ParseSerialize(h, []);
    assert Serialize(h) + [] == Serialize(h);
    Serialize(h)
  }

  /** Opening a sealed prologue with the same passphrase recovers the data key, the HMAC key and
      the IV it was sealed with. */
  lemma SealThenOpen(s: Suite, password: seq<bv8>, salt: Bytes32, iv: Bytes16, k: Bytes32, l: Bytes32, tail: seq<bv8>)
    requires Valid(s)
    ensures Open(s, Seal(s, password, salt, iv, k, l) + tail, password) == Success(Keys(k, l, iv))
  {
    var sk := Stretched(s.hash, salt, password, WriteIterations);
    var h := Psv3Header(Tag, salt, WriteIterations, s.hash(sk),
                        s.cipher.encrypt(sk, k[..16]), s.cipher.encrypt(sk, k[16..]),
                        s.cipher.encrypt(sk, l[..16]), s.cipher.encrypt(sk, l[16..]), iv);
    ParseSerialize(h, tail);
    assert k == k[..16] + k[16..];
    assert l == l[..16] + l[16..];
  }

  /** A different passphrase is rejected as a wrong password, never as a bad file, exactly when
      its stretched key hashes differently from the one the file was sealed with. */
  lemma OpenWithOtherPassword(s: Suite, pw1: seq<bv8>, pw2: seq<bv8>, salt: Bytes32, iv: Bytes16,
                              k: Bytes32, l: Bytes32, tail: seq<bv8>)
    ensures var r := Open(s, Seal(s, pw1, salt, iv, k, l) + tail, pw2);
            && r != Failure(BadFileType)
            && (r == Failure(InvalidPassword) <==>
                  s.hash(Stretched(s.hash, salt, pw2, WriteIterations)) != s.hash(Stretched(s.hash, salt, pw1, WriteIterations)))
  {
    var sk := Stretched(s.hash, salt, pw1, WriteIterations);
    var h := Psv3Header(Tag, salt, WriteIterations, s.hash(sk),
                        s.cipher.encrypt(sk, k[..16]), s.cipher.encrypt(sk, k[16..]),
                        s.cipher.encrypt(sk, l[..16]), s.cipher.encrypt(sk, l[16..]), iv);
    ParseSerialize(h, tail);
  }
}
