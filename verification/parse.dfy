/** `ParseFile` and its helpers (src/pwsafe/parse.go): the prologue checks, the header group, the
    record groups, `parseTimeT` and the final HMAC comparison.

    The Go code aborts the process (`log.Fatalln`) or panics on most failures; each such exit is
    an error value here, distinct from the one error `ParseFile` returns (a bad tag). */
module Parse {
  import opened Wrappers
  import opened Bytes
  import opened Primitives
  import opened Cbc
  import opened Framer
  import opened Types
  import opened Prologue
  import opened Integrity

  /** How a parse ends when it does not produce a Safe:
      - `InvalidMagic`: the error `ParseFile` returns (short prologue or wrong tag);
      - `InvalidKeyPassword`: abort on a verifier mismatch;
      - `FieldReadFailed`: abort on a field that cannot be read;
      - `EndInHeaders`: abort on the sentinel inside the header group;
      - `VersionTooShort`: the index panic of a version field under 2 bytes;
      - `HmacFailed`: abort when the stored digest differs from the computed one. */
  datatype ParseError =
    | InvalidMagic
    | InvalidKeyPassword
    | FieldReadFailed(cause: FieldError)
    | EndInHeaders
    | VersionTooShort
    | HmacFailed
  {
    predicate InStream()
    {
      FieldReadFailed? || EndInHeaders? || VersionTooShort?
    }
  }

  datatype TimeError = UnparsableTime

  const MinInt64: int := -0x8000_0000_0000_0000
  const MaxInt64: int := 0x7FFF_FFFF_FFFF_FFFF

  /** `int64(x)` of a `uint64` value: two's-complement reinterpretation. */
  function Signed64(v: nat): int
    requires v < TwoTo64
  {
    if v >= TwoTo64 / 2 then v - TwoTo64 else v
  }

  /** `parseTimeT`: a 4-byte or 8-byte little-endian count of seconds; any other length fails. */
  function ParseTimeT(data: seq<bv8>): (r: Result<int, TimeError>)
    ensures r.Success? <==> |data| == 4 || |data| == 8
    ensures |data| == 4 ==> 0 <= r.value < TwoTo32
    ensures |data| == 8 ==> MinInt64 <= r.value <= MaxInt64
  {
    LeValueBound(data);
    Pow256Widths();
    if |data| == 4 then Success(LeValue(data))
    else if |data| == 8 then Success(Signed64(LeValue(data)))
    else Failure(UnparsableTime)
  }

  /** The 4-byte time `OutputFile` writes, `uint32(t)`, reads back as `t` truncated to 32 bits. */
  lemma ParseTimeTOfWritten(t: int)
    ensures ParseTimeT(LeBytes(t % TwoTo32, 4)) == Success(t % TwoTo32)
  {
    Pow256Widths();
    LeValueOfBytes(t % TwoTo32, 4);
  }

  /** Every signed 64-bit time survives an 8-byte encoding. */
  lemma ParseTimeT64(t: int)
    requires MinInt64 <= t <= MaxInt64
    ensures ParseTimeT(LeBytes(t % TwoTo64, 8)) == Success(t)
  {
    var u := t % TwoTo64;
    Pow256Widths();
    LeValueOfBytes(u, 8);
    Signed64OfUnsigned(t);
    assert ParseTimeT(LeBytes(u, 8)) == Success(Signed64(u));
  }

  /** `int64(uint64(t))` is `t` for every signed 64-bit `t`. */
  lemma Signed64OfUnsigned(t: int)
    requires MinInt64 <= t <= MaxInt64
    ensures Signed64(t % TwoTo64) == t
  {
    if t >= 0 {
      assert t % TwoTo64 == t;
    } else {
      assert t % TwoTo64 == t + TwoTo64;
    }
  }

  /** The callers discard the error and keep the value, which is the current time on failure. */
  function TimeOr(r: Result<int, TimeError>, now: int): int
  {
    if r.Success? then r.value else now
  }

  /** The undecoded rest of the file, the decrypter's chaining value and the bytes fed to the
      HMAC so far. */
  datatype Stream = Stream(input: seq<bv8>, iv: Bytes16, hashed: seq<bv8>)

  /** A decoded value and the stream after it. */
  datatype Parsed<+T> = Parsed(value: T, st: Stream)

  predicate KnownHeaderType(t: bv8)
  {
    t == HdrVersion || t == HdrLastSaveTime || t == HdrLastSaveProgram || t == HdrLastSaveUser || t == HdrLastSaveHost
  }

  predicate KnownRecordType(t: bv8)
  {
    || t == RecUuid || t == RecGroup || t == RecTitle || t == RecUsername || t == RecNotes
    || t == RecPassword || t == RecCreationTime || t == RecUrl || t == RecEmail
  }

  /** One header field applied to the headers read so far (the `switch` of `readHeaders`). */
  function ApplyHeaderField(h: Headers, f: Field, now: int): (r: Result<Headers, ParseError>)
    ensures r.Failure? <==> f.ftype == HdrVersion && |f.data| < 2
    ensures r.Failure? ==> r.error == VersionTooShort
    ensures !KnownHeaderType(f.ftype) ==> r == Success(h)
  {
    if f.ftype == HdrVersion then
      if |f.data| < 2 then Failure(VersionTooShort)
      else Success(h.(versionMajor := f.data[1], versionMinor := f.data[0]))
    else if f.ftype == HdrLastSaveTime then Success(h.(lastSave := TimeOr(ParseTimeT(f.data), now)))
    else if f.ftype == HdrLastSaveProgram then Success(h.(programSave := f.data))
    else if f.ftype == HdrLastSaveUser then Success(h.(user := f.data))
    else if f.ftype == HdrLastSaveHost then Success(h.(host := f.data))
    else Success(h)
  }

  /** `readHeaders`: fields up to the end-of-entry field, whose data is not hashed; every other
      field's data is hashed. Any read failure, including the sentinel and the `io.EOF` of a
      missing continuation, is fatal here. */
  function ReadHeaders(c: BlockCipher, key: seq<bv8>, st: Stream, h: Headers, now: int)
    : (r: Result<Parsed<Headers>, ParseError>)
    ensures r.Success? ==> |r.value.st.input| + 16 <= |st.input|
    ensures r.Success? ==> st.hashed <= r.value.st.hashed
    ensures r.Failure? ==> r.error.InStream()
    ensures |st.input| >= 16 && st.input[..16] == Sentinel ==> r == Failure(EndInHeaders)
    ensures |st.input| == 0 ==> r == Failure(FieldReadFailed(NoData))
    decreases |st.input|
  {
    match ReadField(c, key, st.iv, st.input)
    case Failure(e) => Failure(FieldReadFailed(e))
    case Success(EndFrame(_, _)) => Failure(EndInHeaders)
    case Success(Exhausted(_, _)) => Failure(FieldReadFailed(NoData))
    case Success(FieldFrame(f, rest, iv)) =>
      if f.ftype == EndOfEntry then Success(Parsed(h, Stream(rest, iv, st.hashed)))
      else
        var h' :- ApplyHeaderField(h, f, now);
        ReadHeaders(c, key, Stream(rest, iv, st.hashed + f.data), h', now)
  }

  /** One record field applied to the record being built (the `switch` of `readRecord`). */
  function ApplyRecordField(rec: Record, f: Field, now: int): (r: Record)
    ensures !KnownRecordType(f.ftype) ==> r == rec
    ensures f.ftype == RecUuid ==> r.uuid == CopyInto(rec.uuid, f.data)
  {
    if f.ftype == RecUuid then rec.(uuid := CopyInto(rec.uuid, f.data))
    else if f.ftype == RecGroup then rec.(group := f.data)
    else if f.ftype == RecTitle then rec.(title := f.data)
    else if f.ftype == RecUsername then rec.(username := f.data)
    else if f.ftype == RecNotes then rec.(notes := f.data)
    else if f.ftype == RecPassword then rec.(password := f.data)
    else if f.ftype == RecCreationTime then rec.(creationTime := TimeOr(ParseTimeT(f.data), now))
    else if f.ftype == RecUrl then rec.(url := f.data)
    else if f.ftype == RecEmail then rec.(email := f.data)
    else rec
  }

  /** How `readRecord` returns: a completed record (`eof == false`), or the end of the field
      stream (`eof == true`) with the record being built dropped. */
  datatype RecordEnd = Completed(record: Record) | StreamEnded

  /** `readRecord`: the end-of-entry field completes the record unhashed; the sentinel, a
      stream exhausted at a block boundary, and a long field's first block with nothing after it
      (all three `io.EOF`) end the stream; a partial block is fatal. */
  function ReadRecord(c: BlockCipher, key: seq<bv8>, st: Stream, rec: Record, now: int)
    : (r: Result<Parsed<RecordEnd>, ParseError>)
    ensures r.Success? ==> |r.value.st.input| <= |st.input|
    ensures r.Success? && r.value.value.Completed? ==> |r.value.st.input| + 16 <= |st.input|
    ensures r.Success? ==> st.hashed <= r.value.st.hashed
    ensures r.Failure? ==> r.error == FieldReadFailed(ShortBlock)
    ensures |st.input| >= 16 && st.input[..16] == Sentinel ==>
              r == Success(Parsed(StreamEnded, Stream(st.input[16..], st.iv, st.hashed)))
    ensures |st.input| == 0 ==> r == Success(Parsed(StreamEnded, st))
    decreases |st.input|
  {
    match ReadField(c, key, st.iv, st.input)
    case Failure(NoData) => Success(Parsed(StreamEnded, st))
    case Failure(e) => Failure(FieldReadFailed(e))
    case Success(EndFrame(rest, iv)) => Success(Parsed(StreamEnded, Stream(rest, iv, st.hashed)))
    case Success(Exhausted(rest, iv)) => Success(Parsed(StreamEnded, Stream(rest, iv, st.hashed)))
    case Success(FieldFrame(f, rest, iv)) =>
      if f.ftype == EndOfEntry then Success(Parsed(Completed(rec), Stream(rest, iv, st.hashed)))
      else ReadRecord(c, key, Stream(rest, iv, st.hashed + f.data), ApplyRecordField(rec, f, now), now)
  }

  /** The loop of `ParseFile` calling `readRecord` until it reports the end of the stream; each
      record starts from the zero record. */
  function ReadRecords(c: BlockCipher, key: seq<bv8>, st: Stream, now: int)
    : (r: Result<Parsed<seq<Record>>, ParseError>)
    ensures r.Success? ==> |r.value.st.input| <= |st.input|
    ensures r.Success? ==> st.hashed <= r.value.st.hashed
    ensures r.Failure? ==> r.error == FieldReadFailed(ShortBlock)
    decreases |st.input|
  {
    match ReadRecord(c, key, st, ZeroRecord, now)
    case Failure(e) => Failure(e)
    case Success(step) =>
      match step.value
      case StreamEnded => Success(Parsed([], step.st))
      case Completed(rec) =>
        match ReadRecords(c, key, step.st, now)
        case Failure(e) => Failure(e)
        case Success(more) => Success(Parsed([rec] + more.value, more.st))
  }

  /** `ParseFile` on the bytes of a file: prologue checks, then the header group, then records
      until the stream ends, and only then the HMAC comparison. */
  function ParseFile(s: Suite, input: seq<bv8>, password: seq<bv8>, now: int): (r: Result<Safe, ParseError>)
    ensures r == Failure(InvalidMagic) <==> |input| < PrologueSize || input[..4] != Tag
    ensures r == Failure(InvalidKeyPassword) <==> Open(s, input, password) == Failure(InvalidPassword)
    ensures Open(s, input, password).Success? ==>
              var keys := Open(s, input, password).value;
              var hr := ReadHeaders(s.cipher, keys.dataKey, Stream(input[PrologueSize..], keys.iv, []), ZeroHeaders, now);
              && (hr.Failure? ==> r == Failure(hr.error))
              && (hr.Success? ==>
                    var rr := ReadRecords(s.cipher, keys.dataKey, hr.value.st, now);
                    && (rr.Failure? ==> r == Failure(rr.error))
                    && (rr.Success? ==>
                          && (r == Failure(HmacFailed) <==>
                                StoredDigest(rr.value.st.input) != s.mac(keys.macKey, rr.value.st.hashed))
                          && (r.Success? ==> r.value == Safe(hr.value.value, rr.value.value))))
  {
    match Open(s, input, password)
    case Failure(BadFileType) => Failure(InvalidMagic)
    case Failure(InvalidPassword) => Failure(InvalidKeyPassword)
    case Success(keys) =>
      var st := Stream(input[PrologueSize..], keys.iv, []);
      var hr :- ReadHeaders(s.cipher, keys.dataKey, st, ZeroHeaders, now);
      var rr :- ReadRecords(s.cipher, keys.dataKey, hr.st, now);
      if StoredDigest(rr.st.input) != s.mac(keys.macKey, rr.st.hashed) then Failure(HmacFailed)
      else Success(Safe(hr.value, rr.value))
  }
}
