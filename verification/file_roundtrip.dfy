/** A file `OutputFile` (output.go) writes opens with `ParseFile` (src/pwsafe/parse.go) under the
    same passphrase and yields the database that was saved, as far as the format keeps it: the
    stamped headers, every record with the UUID it was written with, and both kinds of time cut
    to their low 32 bits. */
module FileRoundTrip {
  import opened Wrappers
  import opened Bytes
  import opened Primitives
  import opened Framer
  import opened Types
  import opened Prologue
  import opened Integrity
  import opened Parse
  import opened Output
  import opened ParseRoundTrip

  /** Every header byte string fits the 32-bit length of a field. */
  predicate FitsHeaders(h: Headers)
  {
    |h.programSave| < TwoTo32 && |h.user| < TwoTo32 && |h.host| < TwoTo32
  }

  /** Every record byte string fits the 32-bit length of a field. */
  predicate FitsRecord(r: Record)
  {
    && |r.group| < TwoTo32 && |r.title| < TwoTo32 && |r.username| < TwoTo32
    && |r.notes| < TwoTo32 && |r.password| < TwoTo32 && |r.url| < TwoTo32 && |r.email| < TwoTo32
  }

  predicate FitsRecords(records: seq<Record>)
  {
    forall i :: 0 <= i < |records| ==> FitsRecord(records[i])
  }

  /** A record as it is read back: the UUID it was written with and its creation time reduced to
      32 bits. */
  function StoredRecord(r: Record, id: Bytes16): Record
  {
    r.(uuid := id, creationTime := r.creationTime % TwoTo32)
  }

  function StoredRecords(records: seq<Record>, newId: nat -> Bytes16): (rs: seq<Record>)
    ensures |rs| == |records|
  {
    seq(|records|, i requires 0 <= i < |records| => StoredRecord(records[i], newId(i)))
  }

  /** The database a file written in environment `env` holds: the headers `OutputFile` stamped,
      with the save time reduced to 32 bits, and the stored records. */
  function Stored(safe: Safe, env: Environment): Safe
  {
    var h := StampHeaders(safe.headers, env);
    Safe(h.(lastSave := h.lastSave % TwoTo32), StoredRecords(safe.records, env.newId))
  }

  /** What the round trip needs of a save: the random source worked, every field fits its length
      and no ciphertext block of the field stream happens to equal the sentinel. */
  ghost predicate Writable(s: Suite, safe: Safe, env: Environment)
  {
    && env.random.Some?
    && FitsHeaders(StampHeaders(safe.headers, env))
    && FitsRecords(safe.records)
    && NoSentinelBlock(Body(s, safe, env).out)
  }

  lemma HeaderFieldsStorable(h: Headers)
    requires FitsHeaders(h)
    ensures Storable(HeaderFields(h))
  {
  }

  lemma RecordGroupsStorable(records: seq<Record>, newId: nat -> Bytes16)
    requires FitsRecords(records)
    ensures AllStorable(RecordGroups(records, newId))
  {
    var gs := RecordGroups(records, newId);
    forall i | 0 <= i < |gs|
      ensures Storable(gs[i])
    {
      assert gs[i] == RecordFields(records[i], newId(i));
    }
  }

  /** The record groups read back as the stored records. */
  lemma RereadRecordGroups(records: seq<Record>, newId: nat -> Bytes16, now: int)
    ensures RereadGroups(RecordGroups(records, newId), now) == StoredRecords(records, newId)
  {
    var gs := RecordGroups(records, newId);
    var rs := RereadGroups(gs, now);
    forall i | 0 <= i < |records|
      ensures rs[i] == StoredRecords(records, newId)[i]
    {
      RereadRecordFields(records[i], newId(i), now);
    }
  }

  /** The field stream of a save, followed by the sentinel and the digest, reads back as the
      stamped headers and the stored records, leaving exactly the digest unread and the HMAC
      input equal to what the writer hashed. */
  lemma ReadFileGroups(c: BlockCipher, key: seq<bv8>, iv: Bytes16, h: Headers, records: seq<Record>,
                       newId: nat -> Bytes16, mac: seq<bv8>, now: int)
    requires Inverts(c)
    requires FitsHeaders(h) && FitsRecords(records)
    requires NoSentinelBlock(WriteGroups(c, key, iv, FileGroups(h, records, newId)).out)
    ensures var w := WriteGroups(c, key, iv, FileGroups(h, records, newId));
            var hr := ReadHeaders(c, key, Stream(w.out + Sentinel + mac, iv, []), ZeroHeaders, now);
            && hr.Success?
            && hr.value.value == h.(lastSave := h.lastSave % TwoTo32)
            && ReadRecords(c, key, hr.value.st, now) == Success(Parsed(StoredRecords(records, newId), Stream(mac, w.iv, w.hashed)))
  {
    var gs := FileGroups(h, records, newId);
    var g := WriteGroup(c, key, iv, gs[0]);
    var more := WriteGroups(c, key, g.iv, gs[1..]);
    assert gs[0] == HeaderFields(h) && gs[1..] == RecordGroups(records, newId);
    assert WriteGroups(c, key, iv, gs) == Then(g, more);
    NoSentinelThen(g, more);
    HeaderFieldsStorable(h);
    RereadHeaderFields(h, now);
    AppendAssoc(g.out, more.out, Sentinel);
    AppendAssoc(g.out, more.out + Sentinel, mac);
    ReadHeaderGroup(c, key, iv, gs[0], more.out + Sentinel + mac, [], ZeroHeaders, now);
    AppendEmpty(g.hashed);
    RecordGroupsStorable(records, newId);
    ReadWrittenRecords(c, key, g.iv, gs[1..], mac, g.hashed, now);
    RereadRecordGroups(records, newId, now);
  }

  /** The bytes of a save split at the end of the prologue. */
  lemma OutputLayout(s: Suite, password: seq<bv8>, safe: Safe, env: Environment)
    requires env.random.Some?
    ensures var rnd := env.random.value;
            var body := Body(s, safe, env);
            OutputFile(s, password, safe, env)
            == Success(Seal(s, password, SaltOf(rnd), IvOf(rnd), DataKeyOf(rnd), MacKeyOf(rnd))
                       + (body.out + Sentinel + s.mac(MacKeyOf(rnd), body.hashed)))
  {
    var rnd := env.random.value;
    var body := Body(s, safe, env);
    var prologue := Seal(s, password, SaltOf(rnd), IvOf(rnd), DataKeyOf(rnd), MacKeyOf(rnd));
    var mac := s.mac(MacKeyOf(rnd), body.hashed);
    AppendAssoc(prologue, body.out, Sentinel);
    AppendAssoc(prologue, body.out + Sentinel, mac);
  }

  /** Saving and then opening with the same passphrase gives back the stored database, whatever
      clock the reader has. */
  lemma OutputThenParse(s: Suite, password: seq<bv8>, safe: Safe, env: Environment, now: int)
    requires Valid(s)
    requires Writable(s, safe, env)
    ensures OutputFile(s, password, safe, env).Success?
    ensures ParseFile(s, OutputFile(s, password, safe, env).value, password, now) == Success(Stored(safe, env))
  {
    var rnd := env.random.value;
    var body := Body(s, safe, env);
    var mac := s.mac(MacKeyOf(rnd), body.hashed);
    var tail := body.out + Sentinel + mac;
    var prologue := Seal(s, password, SaltOf(rnd), IvOf(rnd), DataKeyOf(rnd), MacKeyOf(rnd));
    OutputLayout(s, password, safe, env);
    SealThenOpen(s, password, SaltOf(rnd), IvOf(rnd), DataKeyOf(rnd), MacKeyOf(rnd), tail);
    assert (prologue + tail)[PrologueSize..] == tail;
    ReadFileGroups(s.cipher, DataKeyOf(rnd), IvOf(rnd), StampHeaders(safe.headers, env), safe.records, env.newId, mac, now);
    AppendEmpty(mac);
    StoredDigestOfTrailer(mac, []);
  }
}
