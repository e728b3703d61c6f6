/** `OutputFile` (output.go): stamps the headers, writes the prologue, then every field of the
    header group and of each record group through one CBC session and one HMAC, each group
    closed by an encrypted end-of-entry block, then the plaintext sentinel and the digest.

    The environment the function consults — the clock, the current user, the host name, the
    random source and the UUID generator — is a parameter. */
module Output {
  import opened Wrappers
  import opened Bytes
  import opened Primitives
  import opened Cbc
  import opened Framer
  import opened Types
  import opened Prologue
  import opened Integrity

  /** ASCII "pwsafe 0.1". */
  const ProgramName: seq<bv8> := [0x70, 0x77, 0x73, 0x61, 0x66, 0x65, 0x20, 0x30, 0x2E, 0x31]

  /** Bytes drawn from `crypto/rand`: salt, IV, data key and HMAC key. */
  const RandomSize: nat := 112

  type RandomBytes = s: seq<bv8> | |s| == RandomSize witness seq(112, _ => 0)

  /** What `OutputFile` learns from outside: `time.Now()` in seconds, `user.Current()` and
      `os.Hostname()` (`None` when they fail), `rand.Read` (`None` when it fails) and the UUID
      `uuid.NewV1()` returns for the record at each position. */
  datatype Environment = Environment(
    now: int,
    user: Option<seq<bv8>>,
    host: Option<seq<bv8>>,
    random: Option<RandomBytes>,
    newId: nat -> Bytes16)

  /** The header values `OutputFile` overwrites before writing; a user name is taken only when
      it could be found and is not empty, a host name whenever it could be found. */
  function StampHeaders(h: Headers, env: Environment): (r: Headers)
    ensures r.lastSave == env.now && r.programSave == ProgramName
    ensures r.user == (if env.user.Some? && env.user.value != [] then env.user.value else h.user)
    ensures r.host == (if env.host.Some? then env.host.value else h.host)
    ensures r.versionMajor == h.versionMajor && r.versionMinor == h.versionMinor
  {
    var withUser := if env.user.Some? && env.user.value != [] then h.(user := env.user.value) else h;
    var withHost := if env.host.Some? then withUser.(host := env.host.value) else withUser;
    withHost.(lastSave := env.now, programSave := ProgramName)
  }

  /** `binary.Write` of `uint32(t.Unix())`: the low 32 bits, little-endian. */
  function TimeBytes(t: int): (b: seq<bv8>)
    ensures |b| == 4
  {
    LeBytes(t % TwoTo32, 4)
  }

  /** The header group in the order written: version as `[Minor, Major]`, last-save time,
      program, user, host. */
  function HeaderFields(h: Headers): (fs: seq<Field>)
    ensures |fs| == 5
    ensures forall i :: 0 <= i < |fs| ==> fs[i].ftype != EndOfEntry
    ensures forall i, j :: 0 <= i < j < |fs| ==> fs[i].ftype != fs[j].ftype
    ensures fs[0] == Field(HdrVersion, [h.versionMinor, h.versionMajor])
  {
    [ Field(HdrVersion, [h.versionMinor, h.versionMajor]),
      Field(HdrLastSaveTime, TimeBytes(h.lastSave)),
      Field(HdrLastSaveProgram, h.programSave),
      Field(HdrLastSaveUser, h.user),
      Field(HdrLastSaveHost, h.host) ]
  }

  /** A record group in the order written; the UUID is a fresh one, not the record's own. */
  function RecordFields(r: Record, id: Bytes16): (fs: seq<Field>)
    ensures |fs| == 9
    ensures forall i :: 0 <= i < |fs| ==> fs[i].ftype != EndOfEntry
    ensures forall i, j :: 0 <= i < j < |fs| ==> fs[i].ftype != fs[j].ftype
    ensures fs[0] == Field(RecUuid, id)
  {
    [ Field(RecUuid, id),
      Field(RecGroup, r.group),
      Field(RecTitle, r.title),
      Field(RecUsername, r.username),
      Field(RecNotes, r.notes),
      Field(RecPassword, r.password),
      Field(RecCreationTime, TimeBytes(r.creationTime)),
      Field(RecUrl, r.url),
      Field(RecEmail, r.email) ]
  }

  /** The fields that reach the stream: `writeField` drops the empty ones. */
  function NonEmpty(fs: seq<Field>): (r: seq<Field>)
    ensures |r| <= |fs|
  {
    if |fs| == 0 then []
    else (if fs[0].data == [] then [] else [fs[0]]) + NonEmpty(fs[1..])
  }

  /** Consecutive `writeField` calls sharing the CBC session and the HMAC. */
  function WriteFields(c: BlockCipher, key: seq<bv8>, iv: Bytes16, fs: seq<Field>): (w: Written)
    ensures |w.out| % 16 == 0
    ensures w.hashed == HashedByReader(fs)
    decreases |fs|
  {
    if |fs| == 0 then Written([], iv, [])
    else
      var first := WriteField(c, key, iv, fs[0].ftype, fs[0].data);
      Then(first, WriteFields(c, key, first.iv, fs[1..]))
  }

  /** The cleartext of the block closing a group: length 0, type 0xFF, zero filler. */
  function EndSection(): (b: Bytes16)
    ensures b[4] == EndOfEntry
    ensures forall i :: 0 <= i < 16 && i != 4 ==> b[i] == 0
  {
    Zeros(16)[4 := EndOfEntry]
  }

  /** The closing block of a group: encrypted in the session but, unlike a field, written even
      though its data is empty, and not hashed. */
  function WriteEnd(c: BlockCipher, key: seq<bv8>, iv: Bytes16): (w: Written)
    ensures |w.out| == 16 && w.hashed == []
    ensures Encrypt(c, key, iv, FrameBlocks(Field(EndOfEntry, []))) == Chained(w.out, w.iv)
  {
    var b := EncryptBlock(c, key, iv, EndSection());
    assert Encrypt(c, key, iv, FrameBlocks(Field(EndOfEntry, []))) == Chained(b, b) by {
      EndSectionIsEmptyField();
      EncryptOneBlock(c, key, iv, EndSection());
    }
    Written(b, b, [])
  }

  /** The closing block is exactly the frame `writeField` would give an empty end-of-entry
      field, had it not skipped empty fields. */
  lemma EndSectionIsEmptyField()
    ensures EndSection() == FrameBlocks(Field(EndOfEntry, []))
  {
    var p := FrameBlocks(Field(EndOfEntry, []));
    assert LeBytes(0, 4) == [0, 0, 0, 0];
    assert TailBlocks(0, []) == [];
    assert p == HeadBlock(0, EndOfEntry, []);
    assert p == LeBytes(0, 4) + [EndOfEntry] + Zeros(InlineCapacity);
  }

  /** A group: its fields, then the closing block. */
  function WriteGroup(c: BlockCipher, key: seq<bv8>, iv: Bytes16, fs: seq<Field>): (w: Written)
    ensures |w.out| % 16 == 0 && |w.out| >= 16
    ensures w.hashed == HashedByReader(fs)
  {
    var fields := WriteFields(c, key, iv, fs);
    Then(fields, WriteEnd(c, key, fields.iv))
  }

  /** The field lists of the record groups, the record at position `i` getting the UUID
      `newId(i)`. */
  function RecordGroups(records: seq<Record>, newId: nat -> Bytes16): (gs: seq<seq<Field>>)
    ensures |gs| == |records|
  {
    seq(|records|, i requires 0 <= i < |records| => RecordFields(records[i], newId(i)))
  }

  /** Consecutive groups sharing the CBC session and the HMAC. */
  function WriteGroups(c: BlockCipher, key: seq<bv8>, iv: Bytes16, groups: seq<seq<Field>>): (w: Written)
    ensures |w.out| % 16 == 0
    ensures |w.out| >= 16 * |groups|
    decreases |groups|
  {
    if |groups| == 0 then Written([], iv, [])
    else
      var first := WriteGroup(c, key, iv, groups[0]);
      var more := WriteGroups(c, key, first.iv, groups[1..]);
      Then(first, more)
  }

  /** Every group of the file in order: the header group, then one group per record. */
  function FileGroups(h: Headers, records: seq<Record>, newId: nat -> Bytes16): (gs: seq<seq<Field>>)
    ensures |gs| == 1 + |records|
  {
    [HeaderFields(h)] + RecordGroups(records, newId)
  }

  /** The keys and IV `OutputFile` cuts from its random bytes. */
  function SaltOf(rnd: RandomBytes): Bytes32 { rnd[..32] }
  function IvOf(rnd: RandomBytes): Bytes16 { rnd[32..48] }
  function DataKeyOf(rnd: RandomBytes): Bytes32 { rnd[48..80] }
  function MacKeyOf(rnd: RandomBytes): Bytes32 { rnd[80..] }

  /** The encrypted field stream between the prologue and the sentinel, and what was hashed. */
  function Body(s: Suite, safe: Safe, env: Environment): (w: Written)
    requires env.random.Some?
    ensures |w.out| % 16 == 0
    ensures |w.out| >= 16 * (1 + |safe.records|)
  {
    var rnd := env.random.value;
    WriteGroups(s.cipher, DataKeyOf(rnd), IvOf(rnd), FileGroups(StampHeaders(safe.headers, env), safe.records, env.newId))
  }

  /** Why `OutputFile` gives up: `rand.Read` failed after the tag was already written. */
  datatype OutputError = RandomFailed(written: seq<bv8>)

  /** The bytes `OutputFile` writes to the file: prologue, field stream, sentinel, digest. */
  function OutputFile(s: Suite, password: seq<bv8>, safe: Safe, env: Environment): (r: Result<seq<bv8>, OutputError>)
    ensures r.Failure? <==> env.random.None?
    ensures r.Failure? ==> r.error.written == Tag
    ensures r.Success? ==>
              var rnd := env.random.value;
              var body := Body(s, safe, env);
              && |r.value| == PrologueSize + |body.out| + 16 + 32
              && r.value[..PrologueSize] == Seal(s, password, SaltOf(rnd), IvOf(rnd), DataKeyOf(rnd), MacKeyOf(rnd))
              && r.value[PrologueSize..PrologueSize + |body.out|] == body.out
              && r.value[PrologueSize + |body.out|..PrologueSize + |body.out| + 16] == Sentinel
              && r.value[|r.value| - 32..] == s.mac(MacKeyOf(rnd), body.hashed)
  {
    match env.random
    case None => Failure(RandomFailed(Tag))
    case Some(rnd) =>
      var body := Body(s, safe, env);
      var prologue := Seal(s, password, SaltOf(rnd), IvOf(rnd), DataKeyOf(rnd), MacKeyOf(rnd));
      var out := prologue + body.out + Sentinel + s.mac(MacKeyOf(rnd), body.hashed);
      Parts4(prologue, body.out, Sentinel, s.mac(MacKeyOf(rnd), body.hashed));
      Success(out)
  }
}
