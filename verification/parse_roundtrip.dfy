/** `ParseFile` (src/pwsafe/parse.go) reads back what `OutputFile` (output.go) writes: the stamped
    headers with the save time cut to 32 bits, and every record with its fresh UUID and its
    creation time cut to 32 bits. */
module ParseRoundTrip {
  import opened Wrappers
  import opened Bytes
  import opened Primitives
  import opened Cbc
  import opened Framer
  import opened Types
  import opened Prologue
  import opened Integrity
  import opened Parse
  import opened Output

  /** Fields `writeField` can frame faithfully and that do not close their group. */
  ghost predicate Storable(fs: seq<Field>)
  {
    forall i :: 0 <= i < |fs| ==> fs[i].ftype != EndOfEntry && |fs[i].data| < TwoTo32
  }

  lemma StorableTail(fs: seq<Field>)
    requires Storable(fs) && |fs| > 0
    ensures Storable(fs[1..])
  {
    forall i | 0 <= i < |fs| - 1
      ensures fs[1..][i].ftype != EndOfEntry && |fs[1..][i].data| < TwoTo32
    {
      assert fs[1..][i] == fs[i + 1];
    }
  }

  /** The headers a reader builds from the fields of a group, empty fields never reaching it. */
  function RereadHeaders(h: Headers, fs: seq<Field>, now: int): Result<Headers, ParseError>
    decreases |fs|
  {
    if |fs| == 0 then Success(h)
    else if fs[0].data == [] then RereadHeaders(h, fs[1..], now)
    else
      var h' :- ApplyHeaderField(h, fs[0], now);
      RereadHeaders(h', fs[1..], now)
  }

  /** The record a reader builds from the fields of a group, empty fields never reaching it. */
  function RereadRecord(rec: Record, fs: seq<Field>, now: int): Record
    decreases |fs|
  {
    if |fs| == 0 then rec
    else if fs[0].data == [] then RereadRecord(rec, fs[1..], now)
    else RereadRecord(ApplyRecordField(rec, fs[0], now), fs[1..], now)
  }

  /** A written field is read back from where it was written, unless its first block is the
      sentinel; an empty field was never written. */
  lemma ReadWrittenField(c: BlockCipher, key: seq<bv8>, iv: Bytes16, f: Field, after: seq<bv8>)
    requires Inverts(c)
    requires 1 <= |f.data| < TwoTo32
    requires NoSentinelBlock(WriteField(c, key, iv, f.ftype, f.data).out)
    ensures var w := WriteField(c, key, iv, f.ftype, f.data);
            Framer.ReadField(c, key, iv, w.out + after) == Success(FieldFrame(f, after, w.iv))
  {
    var w := WriteField(c, key, iv, f.ftype, f.data);
    assert |w.out| >= 16;
    WriteThenReadField(c, key, iv, f.ftype, f.data, after);
  }

  /** An empty field adds nothing to the stream. */
  lemma WriteFieldsSkip(c: BlockCipher, key: seq<bv8>, iv: Bytes16, fs: seq<Field>)
    requires |fs| > 0 && fs[0].data == []
    ensures WriteFields(c, key, iv, fs) == WriteFields(c, key, iv, fs[1..])
  {
    var w2 := WriteFields(c, key, iv, fs[1..]);
    AppendEmpty(w2.out);
    AppendEmpty(w2.hashed);
    assert Then(Written([], iv, []), w2) == w2;
  }

  /** Splits the sentinel-freedom of a concatenated write into its parts. */
  lemma NoSentinelThen(w1: Written, w2: Written)
    requires |w1.out| % 16 == 0
    requires NoSentinelBlock(Then(w1, w2).out)
    ensures NoSentinelBlock(w1.out) && NoSentinelBlock(w2.out)
  {
    NoSentinelBlockAppend(w1.out, w2.out);
  }

  /** `readHeaders` over the fields of a header group consumes exactly their ciphertext, hashes
      exactly what the writer hashed and applies every non-empty field in order. */
  lemma {:induction false} ReadHeaderFields(c: BlockCipher, key: seq<bv8>, iv: Bytes16, fs: seq<Field>, after: seq<bv8>,
                                            hashed: seq<bv8>, h: Headers, now: int)
    requires Inverts(c)
    requires Storable(fs)
    requires NoSentinelBlock(WriteFields(c, key, iv, fs).out)
    requires RereadHeaders(h, fs, now).Success?
    ensures var w := WriteFields(c, key, iv, fs);
            ReadHeaders(c, key, Stream(w.out + after, iv, hashed), h, now)
            == ReadHeaders(c, key, Stream(after, w.iv, hashed + w.hashed), RereadHeaders(h, fs, now).value, now)
    decreases |fs|, 1
  {
    if |fs| == 0 {
      assert WriteFields(c, key, iv, fs) == Written([], iv, []);
      AppendEmpty(after);
      AppendEmpty(hashed);
    } else if fs[0].data == [] {
      ReadHeaderFieldsSkip(c, key, iv, fs, after, hashed, h, now);
    } else {
      ReadHeaderFieldsApply(c, key, iv, fs, after, hashed, h, now);
    }
  }

  lemma {:induction false} ReadHeaderFieldsSkip(c: BlockCipher, key: seq<bv8>, iv: Bytes16, fs: seq<Field>, after: seq<bv8>,
                                                hashed: seq<bv8>, h: Headers, now: int)
    requires Inverts(c)
    requires Storable(fs)
    requires |fs| > 0 && fs[0].data == []
    requires NoSentinelBlock(WriteFields(c, key, iv, fs).out)
    requires RereadHeaders(h, fs, now).Success?
    ensures var w := WriteFields(c, key, iv, fs);
            ReadHeaders(c, key, Stream(w.out + after, iv, hashed), h, now)
            == ReadHeaders(c, key, Stream(after, w.iv, hashed + w.hashed), RereadHeaders(h, fs, now).value, now)
    decreases |fs|, 0
  {
    WriteFieldsSkip(c, key, iv, fs);
    StorableTail(fs);
    ReadHeaderFields(c, key, iv, fs[1..], after, hashed, h, now);
  }

  lemma {:induction false} ReadHeaderFieldsApply(c: BlockCipher, key: seq<bv8>, iv: Bytes16, fs: seq<Field>, after: seq<bv8>,
                                                 hashed: seq<bv8>, h: Headers, now: int)
    requires Inverts(c)
    requires Storable(fs)
    requires |fs| > 0 && fs[0].data != []
    requires NoSentinelBlock(WriteFields(c, key, iv, fs).out)
    requires RereadHeaders(h, fs, now).Success?
    ensures var w := WriteFields(c, key, iv, fs);
            ReadHeaders(c, key, Stream(w.out + after, iv, hashed), h, now)
            == ReadHeaders(c, key, Stream(after, w.iv, hashed + w.hashed), RereadHeaders(h, fs, now).value, now)
    decreases |fs|, 0
  {
    var f := fs[0];
    var w1 := WriteField(c, key, iv, f.ftype, f.data);
    var w2 := WriteFields(c, key, w1.iv, fs[1..]);
    var h1 := ApplyHeaderField(h, f, now).value;
    NoSentinelThen(w1, w2);
    StorableTail(fs);
    AppendAssoc(w1.out, w2.out, after);
    AppendAssoc(hashed, f.data, w2.hashed);
    ReadWrittenField(c, key, iv, f, w2.out + after);
    ReadHeaderFields(c, key, w1.iv, fs[1..], after, hashed + f.data, h1, now);
  }

  /** The closing block of a group reads back as an empty end-of-entry field. */
  lemma ReadWrittenEnd(c: BlockCipher, key: seq<bv8>, iv: Bytes16, after: seq<bv8>)
    requires Inverts(c)
    requires NoSentinelBlock(WriteEnd(c, key, iv).out)
    ensures var w := WriteEnd(c, key, iv);
            Framer.ReadField(c, key, iv, w.out + after) == Success(FieldFrame(Field(EndOfEntry, []), after, w.iv))
  {
    var w := WriteEnd(c, key, iv);
    assert w.out[..16] == w.out;
    ReadFrame(c, key, iv, Field(EndOfEntry, []), after);
  }

  /** A whole header group reads back as the headers its fields describe. */
  lemma ReadHeaderGroup(c: BlockCipher, key: seq<bv8>, iv: Bytes16, fs: seq<Field>, after: seq<bv8>,
                        hashed: seq<bv8>, h: Headers, now: int)
    requires Inverts(c)
    requires Storable(fs)
    requires NoSentinelBlock(WriteGroup(c, key, iv, fs).out)
    requires RereadHeaders(h, fs, now).Success?
    ensures var g := WriteGroup(c, key, iv, fs);
            ReadHeaders(c, key, Stream(g.out + after, iv, hashed), h, now)
            == Success(Parsed(RereadHeaders(h, fs, now).value, Stream(after, g.iv, hashed + g.hashed)))
  {
    var wf := WriteFields(c, key, iv, fs);
    var we := WriteEnd(c, key, wf.iv);
    NoSentinelThen(wf, we);
    AppendAssoc(wf.out, we.out, after);
    ReadHeaderFields(c, key, iv, fs, we.out + after, hashed, h, now);
    ReadWrittenEnd(c, key, wf.iv, after);
  }

  /** `readRecord` over the fields of a record group consumes exactly their ciphertext, hashes
      exactly what the writer hashed and applies every non-empty field in order. */
  lemma {:induction false} ReadRecordFields(c: BlockCipher, key: seq<bv8>, iv: Bytes16, fs: seq<Field>, after: seq<bv8>,
                                            hashed: seq<bv8>, rec: Record, now: int)
    requires Inverts(c)
    requires Storable(fs)
    requires NoSentinelBlock(WriteFields(c, key, iv, fs).out)
    ensures var w := WriteFields(c, key, iv, fs);
            ReadRecord(c, key, Stream(w.out + after, iv, hashed), rec, now)
            == ReadRecord(c, key, Stream(after, w.iv, hashed + w.hashed), RereadRecord(rec, fs, now), now)
    decreases |fs|, 1
  {
    if |fs| == 0 {
      assert WriteFields(c, key, iv, fs) == Written([], iv, []);
      AppendEmpty(after);
      AppendEmpty(hashed);
    } else if fs[0].data == [] {
      ReadRecordFieldsSkip(c, key, iv, fs, after, hashed, rec, now);
    } else {
      ReadRecordFieldsApply(c, key, iv, fs, after, hashed, rec, now);
    }
  }

  lemma {:induction false} ReadRecordFieldsSkip(c: BlockCipher, key: seq<bv8>, iv: Bytes16, fs: seq<Field>, after: seq<bv8>,
                                                hashed: seq<bv8>, rec: Record, now: int)
    requires Inverts(c)
    requires Storable(fs)
    requires |fs| > 0 && fs[0].data == []
    requires NoSentinelBlock(WriteFields(c, key, iv, fs).out)
    ensures var w := WriteFields(c, key, iv, fs);
            ReadRecord(c, key, Stream(w.out + after, iv, hashed), rec, now)
            == ReadRecord(c, key, Stream(after, w.iv, hashed + w.hashed), RereadRecord(rec, fs, now), now)
    decreases |fs|, 0
  {
    WriteFieldsSkip(c, key, iv, fs);
    StorableTail(fs);
    ReadRecordFields(c, key, iv, fs[1..], after, hashed, rec, now);
  }

  lemma {:induction false} ReadRecordFieldsApply(c: BlockCipher, key: seq<bv8>, iv: Bytes16, fs: seq<Field>, after: seq<bv8>,
                                                 hashed: seq<bv8>, rec: Record, now: int)
    requires Inverts(c)
    requires Storable(fs)
    requires |fs| > 0 && fs[0].data != []
    requires NoSentinelBlock(WriteFields(c, key, iv, fs).out)
    ensures var w := WriteFields(c, key, iv, fs);
            ReadRecord(c, key, Stream(w.out + after, iv, hashed), rec, now)
            == ReadRecord(c, key, Stream(after, w.iv, hashed + w.hashed), RereadRecord(rec, fs, now), now)
    decreases |fs|, 0
  {
    var f := fs[0];
    var w1 := WriteField(c, key, iv, f.ftype, f.data);
    var w2 := WriteFields(c, key, w1.iv, fs[1..]);
    var r1 := ApplyRecordField(rec, f, now);
    NoSentinelThen(w1, w2);
    StorableTail(fs);
    AppendAssoc(w1.out, w2.out, after);
    AppendAssoc(hashed, f.data, w2.hashed);
    ReadWrittenField(c, key, iv, f, w2.out + after);
    ReadRecordFields(c, key, w1.iv, fs[1..], after, hashed + f.data, r1, now);
  }

  /** A whole record group reads back as a completed record. */
  lemma ReadRecordGroup(c: BlockCipher, key: seq<bv8>, iv: Bytes16, fs: seq<Field>, after: seq<bv8>,
                        hashed: seq<bv8>, rec: Record, now: int)
    requires Inverts(c)
    requires Storable(fs)
    requires NoSentinelBlock(WriteGroup(c, key, iv, fs).out)
    ensures var g := WriteGroup(c, key, iv, fs);
            ReadRecord(c, key, Stream(g.out + after, iv, hashed), rec, now)
            == Success(Parsed(Completed(RereadRecord(rec, fs, now)), Stream(after, g.iv, hashed + g.hashed)))
  {
    var wf := WriteFields(c, key, iv, fs);
    var we := WriteEnd(c, key, wf.iv);
    NoSentinelThen(wf, we);
    AppendAssoc(wf.out, we.out, after);
    ReadRecordFields(c, key, iv, fs, we.out + after, hashed, rec, now);
    ReadWrittenEnd(c, key, wf.iv, after);
  }

  /** The records read back from consecutive record groups. */
  function RereadGroups(groups: seq<seq<Field>>, now: int): (rs: seq<Record>)
    ensures |rs| == |groups|
    ensures forall i :: 0 <= i < |groups| ==> rs[i] == RereadRecord(ZeroRecord, groups[i], now)
  {
    if |groups| == 0 then []
    else [RereadRecord(ZeroRecord, groups[0], now)] + RereadGroups(groups[1..], now)
  }

  ghost predicate AllStorable(groups: seq<seq<Field>>)
  {
    forall i :: 0 <= i < |groups| ==> Storable(groups[i])
  }

  lemma AllStorableTail(groups: seq<seq<Field>>)
    requires AllStorable(groups) && |groups| > 0
    ensures AllStorable(groups[1..])
  {
    forall i | 0 <= i < |groups| - 1
      ensures Storable(groups[1..][i])
    {
      assert groups[1..][i] == groups[i + 1];
    }
  }

  /** At the sentinel the record loop stops without decrypting or hashing anything. */
  lemma SentinelEndsRecords(c: BlockCipher, key: seq<bv8>, iv: Bytes16, after: seq<bv8>, hashed: seq<bv8>, now: int)
    ensures ReadRecords(c, key, Stream(Sentinel + after, iv, hashed), now) == Success(Parsed([], Stream(after, iv, hashed)))
  {
    var input := Sentinel + after;
    assert |Sentinel| == 16;
    assert input[..16] == Sentinel && input[16..] == after;
    assert Framer.ReadField(c, key, iv, input) == Success(EndFrame(after, iv));
    assert ReadRecord(c, key, Stream(input, iv, hashed), ZeroRecord, now) == Success(Parsed(StreamEnded, Stream(after, iv, hashed)));
  }

  /** The loop over `readRecord` reads one record per written group and stops at the sentinel,
      with the HMAC input extended by exactly what the writer hashed. */
  lemma {:induction false} ReadWrittenRecords(c: BlockCipher, key: seq<bv8>, iv: Bytes16, groups: seq<seq<Field>>,
                                              after: seq<bv8>, hashed: seq<bv8>, now: int)
    requires Inverts(c)
    requires AllStorable(groups)
    requires NoSentinelBlock(WriteGroups(c, key, iv, groups).out)
    ensures var w := WriteGroups(c, key, iv, groups);
            ReadRecords(c, key, Stream(w.out + Sentinel + after, iv, hashed), now)
            == Success(Parsed(RereadGroups(groups, now), Stream(after, w.iv, hashed + w.hashed)))
    decreases |groups|
  {
    var w := WriteGroups(c, key, iv, groups);
    if |groups| == 0 {
      assert w == Written([], iv, []);
      AppendEmpty(Sentinel + after);
      AppendEmpty(hashed);
      SentinelEndsRecords(c, key, iv, after, hashed, now);
    } else {
      var g1 := WriteGroup(c, key, iv, groups[0]);
      var more := WriteGroups(c, key, g1.iv, groups[1..]);
      assert w == Then(g1, more);
      NoSentinelThen(g1, more);
      AllStorableTail(groups);
      AppendAssoc(g1.out, more.out, Sentinel);
      AppendAssoc(g1.out, more.out + Sentinel, after);
      ReadRecordGroup(c, key, iv, groups[0], more.out + Sentinel + after, hashed, ZeroRecord, now);
      ReadWrittenRecords(c, key, g1.iv, groups[1..], after, hashed + g1.hashed, now);
      AppendAssoc(hashed, g1.hashed, more.hashed);
    }
  }

  /** What the header fields `OutputFile` writes read back as: the same headers, with the save
      time reduced to its low 32 bits. */
  lemma RereadHeaderFields(h: Headers, now: int)
    ensures RereadHeaders(ZeroHeaders, HeaderFields(h), now) == Success(h.(lastSave := h.lastSave % TwoTo32))
  {
    var fs := HeaderFields(h);
    ParseTimeTOfWritten(h.lastSave);
    var h1 := ZeroHeaders.(versionMajor := h.versionMajor, versionMinor := h.versionMinor);
    var h2 := h1.(lastSave := h.lastSave % TwoTo32);
    var h3 := h2.(programSave := h.programSave);
    var h4 := h3.(user := h.user);
    assert fs[1..][1..] == fs[2..];
    assert fs[2..][1..] == fs[3..];
    assert fs[3..][1..] == fs[4..];
    assert fs[4..][1..] == [];
    assert RereadHeaders(h4, fs[4..], now) == Success(h.(lastSave := h.lastSave % TwoTo32));
    assert RereadHeaders(h3, fs[3..], now) == RereadHeaders(h4, fs[4..], now);
    assert RereadHeaders(h2, fs[2..], now) == RereadHeaders(h3, fs[3..], now);
    assert RereadHeaders(h1, fs[1..], now) == RereadHeaders(h2, fs[2..], now);
  }

  /** What the fields `OutputFile` writes for a record read back as: the same record with the
      UUID it was written with and its creation time reduced to its low 32 bits. */
  lemma RereadRecordFields(r: Record, id: Bytes16, now: int)
    ensures RereadRecord(ZeroRecord, RecordFields(r, id), now) == r.(uuid := id, creationTime := r.creationTime % TwoTo32)
  {
    var f0, f1, f2 := Field(RecUuid, id), Field(RecGroup, r.group), Field(RecTitle, r.title);
    var f3, f4, f5 := Field(RecUsername, r.username), Field(RecNotes, r.notes), Field(RecPassword, r.password);
    var f6, f7, f8 := Field(RecCreationTime, TimeBytes(r.creationTime)), Field(RecUrl, r.url), Field(RecEmail, r.email);
    var tail := [f6, f7, f8];
    var middle := [f3, f4, f5] + tail;
    assert RecordFields(r, id) == [f0, f1, f2] + middle;
    RereadNaming(r, id, middle, now);
    RereadCredentials(r, id, tail, now);
    RereadTrailer(r, id, now);
  }

  /** The first three fields of a record group: UUID, group and title. */
  lemma RereadNaming(r: Record, id: Bytes16, rest: seq<Field>, now: int)
    ensures RereadRecord(ZeroRecord, [Field(RecUuid, id), Field(RecGroup, r.group), Field(RecTitle, r.title)] + rest, now)
            == RereadRecord(Record(id, r.group, r.title, [], [], [], ZeroTime, [], []), rest, now)
  {
    var r1 := Record(id, [], [], [], [], [], ZeroTime, [], []);
    var r2 := Record(id, r.group, [], [], [], [], ZeroTime, [], []);
    var r3 := Record(id, r.group, r.title, [], [], [], ZeroTime, [], []);
    var t2 := [Field(RecTitle, r.title)] + rest;
    var t1 := [Field(RecGroup, r.group)] + t2;
    assert [Field(RecUuid, id), Field(RecGroup, r.group), Field(RecTitle, r.title)] + rest == [Field(RecUuid, id)] + t1;
    CopyIntoPrefix(Zeros(16), id);
    assert id[..16] == id;
    RereadCons(ZeroRecord, Field(RecUuid, id), t1, now, r1);
    RereadCons(r1, Field(RecGroup, r.group), t2, now, r2);
    RereadCons(r2, Field(RecTitle, r.title), rest, now, r3);
  }

  /** The next three fields: user name, notes and password. */
  lemma RereadCredentials(r: Record, id: Bytes16, rest: seq<Field>, now: int)
    ensures RereadRecord(Record(id, r.group, r.title, [], [], [], ZeroTime, [], []),
                         [Field(RecUsername, r.username), Field(RecNotes, r.notes), Field(RecPassword, r.password)] + rest, now)
            == RereadRecord(Record(id, r.group, r.title, r.username, r.notes, r.password, ZeroTime, [], []), rest, now)
  {
    var r3 := Record(id, r.group, r.title, [], [], [], ZeroTime, [], []);
    var r4 := Record(id, r.group, r.title, r.username, [], [], ZeroTime, [], []);
    var r5 := Record(id, r.group, r.title, r.username, r.notes, [], ZeroTime, [], []);
    var r6 := Record(id, r.group, r.title, r.username, r.notes, r.password, ZeroTime, [], []);
    var t2 := [Field(RecPassword, r.password)] + rest;
    var t1 := [Field(RecNotes, r.notes)] + t2;
    assert [Field(RecUsername, r.username), Field(RecNotes, r.notes), Field(RecPassword, r.password)] + rest
           == [Field(RecUsername, r.username)] + t1;
    RereadCons(r3, Field(RecUsername, r.username), t1, now, r4);
    RereadCons(r4, Field(RecNotes, r.notes), t2, now, r5);
    RereadCons(r5, Field(RecPassword, r.password), rest, now, r6);
  }

  /** The last three fields: creation time, URL and email. */
  lemma RereadTrailer(r: Record, id: Bytes16, now: int)
    ensures RereadRecord(Record(id, r.group, r.title, r.username, r.notes, r.password, ZeroTime, [], []),
                         [Field(RecCreationTime, TimeBytes(r.creationTime)), Field(RecUrl, r.url), Field(RecEmail, r.email)], now)
            == r.(uuid := id, creationTime := r.creationTime % TwoTo32)
  {
    var t := r.creationTime % TwoTo32;
    var r6 := Record(id, r.group, r.title, r.username, r.notes, r.password, ZeroTime, [], []);
    var r7 := Record(id, r.group, r.title, r.username, r.notes, r.password, t, [], []);
    var r8 := Record(id, r.group, r.title, r.username, r.notes, r.password, t, r.url, []);
    var r9 := Record(id, r.group, r.title, r.username, r.notes, r.password, t, r.url, r.email);
    var t2 := [Field(RecEmail, r.email)];
    var t1 := [Field(RecUrl, r.url)] + t2;
    assert [Field(RecCreationTime, TimeBytes(r.creationTime)), Field(RecUrl, r.url), Field(RecEmail, r.email)]
           == [Field(RecCreationTime, TimeBytes(r.creationTime))] + t1;
    ParseTimeTOfWritten(r.creationTime);
    RereadCons(r6, Field(RecCreationTime, TimeBytes(r.creationTime)), t1, now, r7);
    RereadCons(r7, Field(RecUrl, r.url), t2, now, r8);
    RereadCons(r8, Field(RecEmail, r.email), [], now, r9);
    assert t2 == [Field(RecEmail, r.email)] + [];
  }

  /** Rereading a list led by `f` applies `f`, unless it is empty, then rereads the rest. */
  lemma RereadCons(rec: Record, f: Field, rest: seq<Field>, now: int, next: Record)
    requires next == if f.data == [] then rec else ApplyRecordField(rec, f, now)
    ensures RereadRecord(rec, [f] + rest, now) == RereadRecord(next, rest, now)
  {
    assert ([f] + rest)[1..] == rest;
  }
}
