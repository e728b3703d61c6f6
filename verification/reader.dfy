/** The streaming `Reader` of src/pwsafe/reader.go: `NewReader` checks the prologue and unwraps the
    keys, `ReadField` returns one decrypted field at a time and feeds its data to the HMAC, and
    `Verify` compares the stored digest after the sentinel with the HMAC of everything read.

    Unlike `ParseFile`, this reader has no notion of groups: end-of-entry fields are returned like
    any other field, and their data is hashed too. */
module Reader {
  import opened Wrappers
  import opened Bytes
  import opened Primitives
  import opened Framer
  import opened Prologue
  import opened Integrity

  /** `ErrBadFileType`, `ErrInvalidPassword`, `ErrHMACFailed`, or the error of an underlying read. */
  datatype ReaderError = ErrBadFileType | ErrInvalidPassword | ErrHMACFailed | ReadFailed(cause: FieldError)

  /** The state a `*Reader` holds: the unread rest of the file, the data key and the CBC
      decrypter's chaining value, the HMAC key and the bytes written to the HMAC so far. */
  datatype Session = Session(input: seq<bv8>, dataKey: seq<bv8>, iv: Bytes16, macKey: seq<bv8>, hashed: seq<bv8>)

  /** `NewReader`: the tag is checked first, then the password verifier; on success one CBC
      session starts at the prologue IV with the unwrapped data key, and nothing is hashed yet. */
  function NewReader(s: Suite, input: seq<bv8>, password: seq<bv8>): (r: Result<Session, ReaderError>)
    ensures r == Failure(ErrBadFileType) <==> |input| < PrologueSize || input[..4] != Tag
    ensures r == Failure(ErrInvalidPassword) <==> Open(s, input, password) == Failure(InvalidPassword)
    ensures r.Success? <==> Open(s, input, password).Success?
    ensures r.Success? ==>
              && Open(s, input, password).value == Keys(r.value.dataKey, r.value.macKey, r.value.iv)
              && r.value.input == input[PrologueSize..]
              && r.value.hashed == []
  {
    match Open(s, input, password)
    case Failure(BadFileType) => Failure(ErrBadFileType)
    case Failure(InvalidPassword) => Failure(ErrInvalidPassword)
    case Success(keys) => Success(Session(input[PrologueSize..], keys.dataKey, keys.iv, keys.macKey, []))
  }

  /** What one call of `ReadField` returns: a field, or the package's `EOF` for the sentinel. */
  datatype Item = Got(field: Field) | Eof

  datatype Step = Step(item: Item, session: Session)

  /** `(*Reader).ReadField`: the sentinel gives `EOF` without decrypting or hashing; any other
      field is framed as by `readField` and its data, whatever its type, is fed to the HMAC. An
      empty stream, and a long field's first block with nothing after it, give `io.EOF` itself,
      which is not the package's `EOF`. */
  function ReadField(c: BlockCipher, r: Session): (res: Result<Step, ReaderError>)
    ensures res.Failure? ==> res.error.ReadFailed?
    ensures res == Failure(ReadFailed(NoData)) <==>
              || |r.input| == 0
              || (&& |r.input| == 16 && r.input[..16] != Sentinel
                  && HeadLength(c, r.dataKey, r.iv, r.input) > InlineCapacity)
    ensures res == Failure(ReadFailed(ShortBlock)) <==> 0 < |r.input| < 16
    ensures res.Success? && res.value.item.Eof? <==> |r.input| >= 16 && r.input[..16] == Sentinel
    ensures res.Success? && res.value.item.Eof? ==> res.value.session == r.(input := r.input[16..])
    ensures res.Success? && res.value.item.Got? ==>
              && res.value.session.hashed == r.hashed + res.value.item.field.data
              && |res.value.session.input| + 16 <= |r.input|
              && res.value.session.dataKey == r.dataKey
              && res.value.session.macKey == r.macKey
    ensures res.Success? && res.value.item.Got? ==>
              && |r.input| >= 16
              && |res.value.item.field.data| == HeadLength(c, r.dataKey, r.iv, r.input)
              && Framed(c, r.dataKey, r.iv, r.input, res.value.item.field, res.value.session.input, res.value.session.iv)
  {
    match Framer.ReadField(c, r.dataKey, r.iv, r.input)
    case Failure(e) => Failure(ReadFailed(e))
    case Success(EndFrame(rest, _)) => Success(Step(Eof, r.(input := rest)))
    case Success(Exhausted(_, _)) => Failure(ReadFailed(NoData))
    case Success(FieldFrame(f, rest, iv)) =>
      Success(Step(Got(f), r.(input := rest, iv := iv, hashed := r.hashed + f.data)))
  }

  /** Every field a caller gets from repeated `ReadField` calls up to `EOF`, and the session then. */
  datatype Drained = Drained(fields: seq<Field>, session: Session)

  /** The documented use of the reader: call `ReadField` until it returns `EOF`. */
  function ReadAll(c: BlockCipher, r: Session): (res: Result<Drained, ReaderError>)
    ensures res.Success? ==> res.value.session.hashed == r.hashed + HashedByReader(res.value.fields)
    ensures res.Success? ==> |res.value.session.input| + 16 * (|res.value.fields| + 1) <= |r.input|
    ensures res.Success? ==> res.value.session.dataKey == r.dataKey && res.value.session.macKey == r.macKey
    ensures res.Failure? ==> res.error.ReadFailed?
    decreases |r.input|
  {
    var step :- ReadField(c, r);
    if step.item.Eof? then
      AppendEmpty(r.hashed);
      Success(Drained([], step.session))
    else
      var d :- ReadAll(c, step.session);
      HashedByReaderCons(step.item.field, d.fields);
      AppendAssoc(r.hashed, step.item.field.data, HashedByReader(d.fields));
      Success(Drained([step.item.field] + d.fields, d.session))
  }

  /** `Verify`: the 32 bytes after the sentinel, read without a length check, against the HMAC
      of everything `ReadField` hashed. */
  function Verify(s: Suite, r: Session): (o: Outcome<ReaderError>)
    ensures o == Pass <==> StoredDigest(r.input) == s.mac(r.macKey, r.hashed)
    ensures o.Fail? ==> o.error == ErrHMACFailed
  {
    if StoredDigest(r.input) == s.mac(r.macKey, r.hashed) then Pass else Fail(ErrHMACFailed)
  }
}
