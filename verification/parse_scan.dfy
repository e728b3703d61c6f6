/** `readHeaders` and `readRecord` (src/pwsafe/parse.go) described as two independent steps: a
    scan that reads the fields of one group off the stream up to the first end-of-entry field or
    to whatever stops the reading, and a fold of the group's `switch` over the fields scanned.
    The HMAC input grows by `HashedByParse` of the scanned fields, which ties that function to the
    parser itself. */
module GroupScan {
  import opened Wrappers
  import opened Bytes
  import opened Primitives
  import opened Framer
  import opened Types
  import opened Integrity
  import opened Parse

  /** Why a scan stopped: an end-of-entry field, the sentinel, `io.EOF` (no bytes left, or a long
      field's first block with nothing after it) or a partial block. */
  datatype Stop = Closed | AtSentinel | AtEof | Unreadable

  /** The fields scanned (the closing end-of-entry field included), why the scan stopped, and the
      rest of the stream and the chaining value after it. */
  datatype Run = Run(fields: seq<Field>, stop: Stop, rest: seq<bv8>, iv: Bytes16)

  /** Reads fields from `input` until an end-of-entry field has been read or no field can be. */
  function Scan(c: BlockCipher, key: seq<bv8>, iv: Bytes16, input: seq<bv8>): (run: Run)
    ensures |run.rest| + 16 * |run.fields| <= |input|
    ensures run.stop == Closed ==> |run.fields| > 0 && run.fields[|run.fields| - 1].ftype == EndOfEntry
    ensures forall i :: 0 <= i < |run.fields| && run.fields[i].ftype == EndOfEntry ==>
              run.stop == Closed && i == |run.fields| - 1
    ensures run.stop == Unreadable ==> 0 < |run.rest| < 16
    ensures run.stop == AtEof ==> run.rest == []
    decreases |input|
  {
    match ReadField(c, key, iv, input)
    case Failure(NoData) => Run([], AtEof, input, iv)
    case Failure(ShortBlock) => Run([], Unreadable, input, iv)
    case Success(EndFrame(rest, iv')) => Run([], AtSentinel, rest, iv')
    case Success(Exhausted(rest, iv')) => Run([], AtEof, rest, iv')
    case Success(FieldFrame(f, rest, iv')) =>
      if f.ftype == EndOfEntry then Run([f], Closed, rest, iv')
      else
        var more := Scan(c, key, iv', rest);
        Run([f] + more.fields, more.stop, more.rest, more.iv)
  }

  /** The header `switch` applied to each field in turn. */
  function FoldHeaders(h: Headers, fs: seq<Field>, now: int): Result<Headers, ParseError>
    decreases |fs|
  {
    if |fs| == 0 then Success(h)
    else
      var h' :- ApplyHeaderField(h, fs[0], now);
      FoldHeaders(h', fs[1..], now)
  }

  /** The record `switch` applied to each field in turn. */
  function FoldRecord(rec: Record, fs: seq<Field>, now: int): Record
    decreases |fs|
  {
    if |fs| == 0 then rec else FoldRecord(ApplyRecordField(rec, fs[0], now), fs[1..], now)
  }

  /** What `readHeaders` makes of a scanned group: a short version field panics first; otherwise
      only a closed group is a header group, and every other stop is fatal. */
  function HeadersOf(run: Run, hashed: seq<bv8>, h: Headers, now: int): Result<Parsed<Headers>, ParseError>
  {
    match FoldHeaders(h, run.fields, now)
    case Failure(e) => Failure(e)
    case Success(applied) =>
      match run.stop
      case Closed => Success(Parsed(applied, Stream(run.rest, run.iv, hashed + HashedByParse(run.fields))))
      case AtSentinel => Failure(EndInHeaders)
      case AtEof => Failure(FieldReadFailed(NoData))
      case Unreadable => Failure(FieldReadFailed(ShortBlock))
  }

  /** What `readRecord` makes of a scanned group: a closed group is a record; the sentinel and
      `io.EOF` end the stream, dropping the fields read but not their hashing; a partial block
      is fatal. */
  function RecordOf(run: Run, hashed: seq<bv8>, rec: Record, now: int): Result<Parsed<RecordEnd>, ParseError>
  {
    var st := Stream(run.rest, run.iv, hashed + HashedByParse(run.fields));
    match run.stop
    case Closed => Success(Parsed(Completed(FoldRecord(rec, run.fields, now)), st))
    case AtSentinel => Success(Parsed(StreamEnded, st))
    case AtEof => Success(Parsed(StreamEnded, st))
    case Unreadable => Failure(FieldReadFailed(ShortBlock))
  }

  lemma HashedByParseCons(f: Field, fs: seq<Field>)
    ensures HashedByParse([f] + fs) == (if f.ftype == EndOfEntry then [] else f.data) + HashedByParse(fs)
  {
    assert ([f] + fs)[1..] == fs;
  }

  lemma FoldHeadersCons(h: Headers, f: Field, fs: seq<Field>, now: int)
    ensures ApplyHeaderField(h, f, now).Failure? ==>
              FoldHeaders(h, [f] + fs, now) == Failure(ApplyHeaderField(h, f, now).error)
    ensures ApplyHeaderField(h, f, now).Success? ==>
              FoldHeaders(h, [f] + fs, now) == FoldHeaders(ApplyHeaderField(h, f, now).value, fs, now)
  {
    assert ([f] + fs)[0] == f && ([f] + fs)[1..] == fs;
  }

  lemma FoldRecordCons(rec: Record, f: Field, fs: seq<Field>, now: int)
    ensures FoldRecord(rec, [f] + fs, now) == FoldRecord(ApplyRecordField(rec, f, now), fs, now)
  {
    assert ([f] + fs)[0] == f && ([f] + fs)[1..] == fs;
  }

  /** `readHeaders` is the fold of the header `switch` over the scanned group, and it hashes the
      data of every field but the closing one. */
  lemma {:induction false} ReadHeadersByScan(c: BlockCipher, key: seq<bv8>, st: Stream, h: Headers, now: int)
    ensures ReadHeaders(c, key, st, h, now) == HeadersOf(Scan(c, key, st.iv, st.input), st.hashed, h, now)
    decreases |st.input|
  {
    match ReadField(c, key, st.iv, st.input)
    case Failure(_) =>
    case Success(EndFrame(_, _)) =>
    case Success(Exhausted(_, _)) =>
    case Success(FieldFrame(f, rest, iv')) =>
      if f.ftype == EndOfEntry {
        FoldHeadersCons(h, f, [], now);
        HashedByParseCons(f, []);
        assert [f] + [] == [f];
        AppendEmpty(st.hashed);
      } else {
        var more := Scan(c, key, iv', rest);
        FoldHeadersCons(h, f, more.fields, now);
        HashedByParseCons(f, more.fields);
        match ApplyHeaderField(h, f, now)
        case Failure(_) =>
        case Success(applied) =>
          ReadHeadersByScan(c, key, Stream(rest, iv', st.hashed + f.data), applied, now);
          AppendAssoc(st.hashed, f.data, HashedByParse(more.fields));
      }
  }

  /** `readRecord` is the fold of the record `switch` over the scanned group when the group is
      closed; when the stream ends first the record is dropped, its fields still hashed. */
  lemma {:induction false} ReadRecordByScan(c: BlockCipher, key: seq<bv8>, st: Stream, rec: Record, now: int)
    ensures ReadRecord(c, key, st, rec, now) == RecordOf(Scan(c, key, st.iv, st.input), st.hashed, rec, now)
    decreases |st.input|
  {
    match ReadField(c, key, st.iv, st.input)
    case Failure(_) =>
      AppendEmpty(st.hashed);
    case Success(EndFrame(_, _)) =>
      AppendEmpty(st.hashed);
    case Success(Exhausted(_, _)) =>
      AppendEmpty(st.hashed);
    case Success(FieldFrame(f, rest, iv')) =>
      if f.ftype == EndOfEntry {
        FoldRecordCons(rec, f, [], now);
        HashedByParseCons(f, []);
        assert [f] + [] == [f];
        AppendEmpty(st.hashed);
      } else {
        var more := Scan(c, key, iv', rest);
        FoldRecordCons(rec, f, more.fields, now);
        HashedByParseCons(f, more.fields);
        ReadRecordByScan(c, key, Stream(rest, iv', st.hashed + f.data), ApplyRecordField(rec, f, now), now);
        AppendAssoc(st.hashed, f.data, HashedByParse(more.fields));
      }
  }
}
