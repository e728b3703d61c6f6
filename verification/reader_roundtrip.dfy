/** The streaming `Reader` (src/pwsafe/reader.go) over a file `OutputFile` (output.go) wrote: the
    fields come back in the order written, empty ones missing and every group closed by an empty
    end-of-entry field, and `Verify` accepts the digest. The HMAC input of this reader, of
    `ParseFile` and of the writer are one and the same byte string. */
module ReaderRoundTrip {
  import opened Wrappers
  import opened Bytes
  import opened Primitives
  import opened Framer
  import opened Types
  import opened Prologue
  import opened Integrity
  import opened Reader
  import opened Parse
  import opened Output
  import opened ParseRoundTrip
  import opened FileRoundTrip

  /** The outcome of draining a stream that starts with the fields `fs`. */
  function Prefixed(fs: seq<Field>, r: Result<Drained, ReaderError>): Result<Drained, ReaderError>
  {
    if r.Success? then Success(Drained(fs + r.value.fields, r.value.session)) else r
  }

  lemma PrefixedEmpty(r: Result<Drained, ReaderError>)
    ensures Prefixed([], r) == r
  {
    if r.Success? {
      assert [] + r.value.fields == r.value.fields;
    }
  }

  lemma PrefixedTwice(a: seq<Field>, b: seq<Field>, r: Result<Drained, ReaderError>)
    ensures Prefixed(a, Prefixed(b, r)) == Prefixed(a + b, r)
  {
    if r.Success? {
      assert a + (b + r.value.fields) == a + b + r.value.fields;
    }
  }

  lemma NonEmptyCons(fs: seq<Field>)
    requires |fs| > 0
    ensures fs[0].data == [] ==> NonEmpty(fs) == NonEmpty(fs[1..])
    ensures fs[0].data != [] ==> NonEmpty(fs) == [fs[0]] + NonEmpty(fs[1..])
  {
    assert [] + NonEmpty(fs[1..]) == NonEmpty(fs[1..]);
  }

  /** The fields the reader returns for consecutive groups: the non-empty fields of each, then
      the empty end-of-entry field closing it. */
  function GroupsFields(groups: seq<seq<Field>>): seq<Field>
    decreases |groups|
  {
    if |groups| == 0 then []
    else NonEmpty(groups[0]) + [Field(EndOfEntry, [])] + GroupsFields(groups[1..])
  }

  /** One non-empty written field is returned as it was written, and its data hashed. */
  lemma DrainWrittenField(c: BlockCipher, key: seq<bv8>, iv: Bytes16, f: Field, rest: seq<bv8>,
                          macKey: seq<bv8>, hashed: seq<bv8>)
    requires Inverts(c)
    requires 1 <= |f.data| < TwoTo32
    requires NoSentinelBlock(WriteField(c, key, iv, f.ftype, f.data).out)
    ensures var w := WriteField(c, key, iv, f.ftype, f.data);
            ReadAll(c, Session(w.out + rest, key, iv, macKey, hashed))
            == Prefixed([f], ReadAll(c, Session(rest, key, w.iv, macKey, hashed + f.data)))
  {
    ReadWrittenField(c, key, iv, f, rest);
  }

  /** The fields of one group come back without the empty ones, the HMAC input growing by what
      the writer hashed. */
  lemma {:induction false} DrainFields(c: BlockCipher, key: seq<bv8>, iv: Bytes16, fs: seq<Field>, rest: seq<bv8>,
                                       macKey: seq<bv8>, hashed: seq<bv8>)
    requires Inverts(c)
    requires Storable(fs)
    requires NoSentinelBlock(WriteFields(c, key, iv, fs).out)
    ensures var w := WriteFields(c, key, iv, fs);
            ReadAll(c, Session(w.out + rest, key, iv, macKey, hashed))
            == Prefixed(NonEmpty(fs), ReadAll(c, Session(rest, key, w.iv, macKey, hashed + w.hashed)))
    decreases |fs|
  {
    if |fs| == 0 {
      assert WriteFields(c, key, iv, fs) == Written([], iv, []);
      AppendEmpty(rest);
      AppendEmpty(hashed);
      PrefixedEmpty(ReadAll(c, Session(rest, key, iv, macKey, hashed)));
    } else if fs[0].data == [] {
      WriteFieldsSkip(c, key, iv, fs);
      StorableTail(fs);
      NonEmptyCons(fs);
      DrainFields(c, key, iv, fs[1..], rest, macKey, hashed);
    } else {
      var f := fs[0];
      var w1 := WriteField(c, key, iv, f.ftype, f.data);
      var w2 := WriteFields(c, key, w1.iv, fs[1..]);
      NoSentinelThen(w1, w2);
      StorableTail(fs);
      NonEmptyCons(fs);
      AppendAssoc(w1.out, w2.out, rest);
      AppendAssoc(hashed, f.data, w2.hashed);
      DrainWrittenField(c, key, iv, f, w2.out + rest, macKey, hashed);
      DrainFields(c, key, w1.iv, fs[1..], rest, macKey, hashed + f.data);
      PrefixedTwice([f], NonEmpty(fs[1..]), ReadAll(c, Session(rest, key, w2.iv, macKey, hashed + f.data + w2.hashed)));
    }
  }

  /** The closing block of a group comes back as an empty end-of-entry field. */
  lemma DrainEnd(c: BlockCipher, key: seq<bv8>, iv: Bytes16, rest: seq<bv8>, macKey: seq<bv8>, hashed: seq<bv8>)
    requires Inverts(c)
    requires NoSentinelBlock(WriteEnd(c, key, iv).out)
    ensures var w := WriteEnd(c, key, iv);
            ReadAll(c, Session(w.out + rest, key, iv, macKey, hashed))
            == Prefixed([Field(EndOfEntry, [])], ReadAll(c, Session(rest, key, w.iv, macKey, hashed)))
  {
    ReadWrittenEnd(c, key, iv, rest);
    AppendEmpty(hashed);
  }

  lemma DrainGroup(c: BlockCipher, key: seq<bv8>, iv: Bytes16, fs: seq<Field>, rest: seq<bv8>,
                   macKey: seq<bv8>, hashed: seq<bv8>)
    requires Inverts(c)
    requires Storable(fs)
    requires NoSentinelBlock(WriteGroup(c, key, iv, fs).out)
    ensures var g := WriteGroup(c, key, iv, fs);
            ReadAll(c, Session(g.out + rest, key, iv, macKey, hashed))
            == Prefixed(NonEmpty(fs) + [Field(EndOfEntry, [])], ReadAll(c, Session(rest, key, g.iv, macKey, hashed + g.hashed)))
  {
    var wf := WriteFields(c, key, iv, fs);
    var we := WriteEnd(c, key, wf.iv);
    NoSentinelThen(wf, we);
    AppendAssoc(wf.out, we.out, rest);
    AppendEmpty(wf.hashed);
    DrainFields(c, key, iv, fs, we.out + rest, macKey, hashed);
    DrainEnd(c, key, wf.iv, rest, macKey, hashed + wf.hashed);
    PrefixedTwice(NonEmpty(fs), [Field(EndOfEntry, [])], ReadAll(c, Session(rest, key, we.iv, macKey, hashed + wf.hashed)));
  }

  /** Consecutive groups come back as their fields, each group closed by an end-of-entry field. */
  lemma {:induction false} DrainGroups(c: BlockCipher, key: seq<bv8>, iv: Bytes16, groups: seq<seq<Field>>, rest: seq<bv8>,
                                       macKey: seq<bv8>, hashed: seq<bv8>)
    requires Inverts(c)
    requires AllStorable(groups)
    requires NoSentinelBlock(WriteGroups(c, key, iv, groups).out)
    ensures var w := WriteGroups(c, key, iv, groups);
            ReadAll(c, Session(w.out + rest, key, iv, macKey, hashed))
            == Prefixed(GroupsFields(groups), ReadAll(c, Session(rest, key, w.iv, macKey, hashed + w.hashed)))
    decreases |groups|
  {
    var w := WriteGroups(c, key, iv, groups);
    if |groups| == 0 {
      assert w == Written([], iv, []);
      AppendEmpty(rest);
      AppendEmpty(hashed);
      PrefixedEmpty(ReadAll(c, Session(rest, key, iv, macKey, hashed)));
    } else {
      var g1 := WriteGroup(c, key, iv, groups[0]);
      var more := WriteGroups(c, key, g1.iv, groups[1..]);
      assert w == Then(g1, more);
      NoSentinelThen(g1, more);
      AllStorableTail(groups);
      AppendAssoc(g1.out, more.out, rest);
      AppendAssoc(hashed, g1.hashed, more.hashed);
      DrainGroup(c, key, iv, groups[0], more.out + rest, macKey, hashed);
      DrainGroups(c, key, g1.iv, groups[1..], rest, macKey, hashed + g1.hashed);
      PrefixedTwice(NonEmpty(groups[0]) + [Field(EndOfEntry, [])], GroupsFields(groups[1..]),
                    ReadAll(c, Session(rest, key, more.iv, macKey, hashed + g1.hashed + more.hashed)));
    }
  }

  /** At the sentinel the reader stops, having decrypted and hashed nothing more. */
  lemma DrainSentinel(c: BlockCipher, r: Session)
    requires |r.input| >= 16 && r.input[..16] == Sentinel
    ensures ReadAll(c, r) == Success(Drained([], r.(input := r.input[16..])))
  {
  }

  lemma FileGroupsStorable(h: Headers, records: seq<Record>, newId: nat -> Bytes16)
    requires FitsHeaders(h) && FitsRecords(records)
    ensures AllStorable(FileGroups(h, records, newId))
  {
    var gs := FileGroups(h, records, newId);
    HeaderFieldsStorable(h);
    RecordGroupsStorable(records, newId);
    assert gs[0] == HeaderFields(h);
    forall i | 1 <= i < |gs|
      ensures Storable(gs[i])
    {
      assert gs[i] == RecordGroups(records, newId)[i - 1];
    }
  }

  /** Opening a saved file with `NewReader` and calling `ReadField` until `EOF` returns the fields
      of every group in the order written and hashes exactly what the writer hashed, so that
      `Verify` accepts the stored digest. */
  lemma OutputThenReader(s: Suite, password: seq<bv8>, safe: Safe, env: Environment)
    requires Valid(s)
    requires Writable(s, safe, env)
    ensures OutputFile(s, password, safe, env).Success?
    ensures var r := NewReader(s, OutputFile(s, password, safe, env).value, password);
            && r.Success?
            && var all := ReadAll(s.cipher, r.value);
               && all.Success?
               && all.value.fields == GroupsFields(FileGroups(StampHeaders(safe.headers, env), safe.records, env.newId))
               && all.value.session.hashed == Body(s, safe, env).hashed
               && Verify(s, all.value.session) == Pass
  {
    var rnd := env.random.value;
    var body := Body(s, safe, env);
    var mac := s.mac(MacKeyOf(rnd), body.hashed);
    var tail := body.out + Sentinel + mac;
    var prologue := Seal(s, password, SaltOf(rnd), IvOf(rnd), DataKeyOf(rnd), MacKeyOf(rnd));
    var gs := FileGroups(StampHeaders(safe.headers, env), safe.records, env.newId);
    OutputLayout(s, password, safe, env);
    SealThenOpen(s, password, SaltOf(rnd), IvOf(rnd), DataKeyOf(rnd), MacKeyOf(rnd), tail);
    assert (prologue + tail)[PrologueSize..] == tail;
    AppendAssoc(body.out, Sentinel, mac);
    FileGroupsStorable(StampHeaders(safe.headers, env), safe.records, env.newId);
    DrainGroups(s.cipher, DataKeyOf(rnd), IvOf(rnd), gs, Sentinel + mac, MacKeyOf(rnd), []);
    AppendEmpty(body.hashed);
    var last := Session(Sentinel + mac, DataKeyOf(rnd), body.iv, MacKeyOf(rnd), body.hashed);
    assert (Sentinel + mac)[..16] == Sentinel && (Sentinel + mac)[16..] == mac;
    DrainSentinel(s.cipher, last);
    assert GroupsFields(gs) + [] == GroupsFields(gs);
    AppendEmpty(mac);
    StoredDigestOfTrailer(mac, []);
  }

  lemma {:induction false} NonEmptyTerminators(fs: seq<Field>)
    requires Storable(fs)
    ensures EmptyTerminators(NonEmpty(fs))
    decreases |fs|
  {
    if |fs| > 0 {
      StorableTail(fs);
      NonEmptyTerminators(fs[1..]);
      NonEmptyCons(fs);
    }
  }

  lemma EmptyTerminatorsAppend(a: seq<Field>, b: seq<Field>)
    requires EmptyTerminators(a) && EmptyTerminators(b)
    ensures EmptyTerminators(a + b)
  {
    forall i | 0 <= i < |a + b| && (a + b)[i].ftype == EndOfEntry
      ensures (a + b)[i].data == []
    {
      if i >= |a| {
        assert (a + b)[i] == b[i - |a|];
      }
    }
  }

  /** The closing fields the writer produces are all empty. */
  lemma {:induction false} GroupsFieldsTerminators(groups: seq<seq<Field>>)
    requires AllStorable(groups)
    ensures EmptyTerminators(GroupsFields(groups))
    decreases |groups|
  {
    if |groups| > 0 {
      AllStorableTail(groups);
      GroupsFieldsTerminators(groups[1..]);
      NonEmptyTerminators(groups[0]);
      EmptyTerminatorsAppend(NonEmpty(groups[0]), [Field(EndOfEntry, [])]);
      EmptyTerminatorsAppend(NonEmpty(groups[0]) + [Field(EndOfEntry, [])], GroupsFields(groups[1..]));
    }
  }

  /** The writer, the streaming reader and `ParseFile` feed the HMAC the same bytes for a saved
      file: `reader.go` hashes every field it returns, `parse.go` all but the end-of-entry ones,
      and the end-of-entry fields `OutputFile` writes are empty. The header and record groups
      `ParseFile` reads from the saved bytes leave its HMAC input equal to the writer's. */
  lemma WriterAndReadersHashAlike(s: Suite, password: seq<bv8>, safe: Safe, env: Environment, now: int)
    requires Valid(s)
    requires Writable(s, safe, env)
    ensures var fs := GroupsFields(FileGroups(StampHeaders(safe.headers, env), safe.records, env.newId));
            && HashedByReader(fs) == Body(s, safe, env).hashed
            && HashedByParse(fs) == Body(s, safe, env).hashed
    ensures OutputFile(s, password, safe, env).Success?
    ensures var rnd := env.random.value;
            var st := Stream(OutputFile(s, password, safe, env).value[PrologueSize..], IvOf(rnd), []);
            var hr := ReadHeaders(s.cipher, DataKeyOf(rnd), st, ZeroHeaders, now);
            && hr.Success?
            && var rr := ReadRecords(s.cipher, DataKeyOf(rnd), hr.value.st, now);
               && rr.Success?
               && rr.value.st.hashed == Body(s, safe, env).hashed
  {
    var rnd := env.random.value;
    var body := Body(s, safe, env);
    var mac := s.mac(MacKeyOf(rnd), body.hashed);
    var prologue := Seal(s, password, SaltOf(rnd), IvOf(rnd), DataKeyOf(rnd), MacKeyOf(rnd));
    OutputLayout(s, password, safe, env);
    assert (prologue + (body.out + Sentinel + mac))[PrologueSize..] == body.out + Sentinel + mac;
    ReadFileGroups(s.cipher, DataKeyOf(rnd), IvOf(rnd), StampHeaders(safe.headers, env), safe.records, env.newId, mac, now);
    var gs := FileGroups(StampHeaders(safe.headers, env), safe.records, env.newId);
    var fs := GroupsFields(gs);
    OutputThenReader(s, password, safe, env);
    AppendEmpty(HashedByReader(fs));
    FileGroupsStorable(StampHeaders(safe.headers, env), safe.records, env.newId);
    GroupsFieldsTerminators(gs);
    EmptyTerminatorsSameInput(fs);
  }
}
