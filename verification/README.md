# pwsafe V3 container codec in Dafny

A model of the container codec in `heatxsink/pwsafe`, a Go reader and writer for Password Safe
version 3 files, with proofs about it. The model covers:

- the 152-byte prologue ("PWS3" tag, salt, iteration count, stretched-key verifier, four
  wrapped key blocks, IV);
- passphrase stretching;
- one CBC session that runs across the whole field stream;
- the short/long field framing with its 32-bit little-endian length;
- the plaintext sentinel `PWS3-EOFPWS3-EOF` and the HMAC-SHA256 trailer;
- the header and record groups that `ParseFile`, the streaming `Reader` and `OutputFile` read and
  write;
- the record-list helpers of the command-line browser.

Twofish, SHA-256 and HMAC-SHA256 are uninterpreted function parameters bundled in a `Suite`. The
one fact assumed of the cipher is `Primitives.Inverts`: decryption undoes encryption under the
same key. Every lemma that needs it states it as a precondition.

Module layout, one file each:

- `Wrappers`: `Option`, `Result` and `Outcome`.
- `Octets` and `Bytes`: byte values, little-endian integers, zero padding and XOR.
- `Primitives`: the cipher and hash parameters.
- `Cbc`: CBC over a block cipher, keeping the chaining value.
- `Stretch`: `computeStretchKey`.
- `Prologue`: `psv3Header`. It covers the tag and password checks, key unwrapping and the
  prologue `OutputFile` writes.
- `Framer`: `readField`, the framing half of `ReadField`, and `writeField`.
- `Integrity`: what each reader feeds the HMAC, and the stored digest.
- `Types`: `Headers`, `Record`, `Safe` and the field type codes.
- `Parse`: `parseTimeT`, `readHeaders`, `readRecord` and `ParseFile`.
- `GroupScan`: `readHeaders` and `readRecord` restated as a scan of one group's fields followed
  by a fold of the group's `switch`, with the HMAC input each feeds.
- `Reader`: `NewReader`, `(*Reader).ReadField` and `Verify`.
- `Output`: `OutputFile`.
- `ParseRoundTrip`, `FileRoundTrip` and `ReaderRoundTrip`: the proofs that both readers read back
  what the writer writes.
- `Ordering`: `ByGroupTitle` and `getRecordList`.

The source makes these promises, and the model proves them:

- `ParseFile(OutputFile(safe))` returns the database that was saved.
  - The headers come back as stamped, with the save time cut to 32 bits.
  - Each record comes back with the UUID it was written with and its creation time cut to
    32 bits.
- `NewReader` plus `ReadField` up to `EOF` returns exactly the fields written, and `Verify`
  accepts.
- Both readers hash what the writer hashed.
- The prologue round-trips.
- A wrong passphrase is told apart from a bad file.
- The stretch follows its recurrence.
- The sort order is a strict order, `Swap` only permutes, and each list line names its index.

Two assumptions underlie the round trips:

- No ciphertext block of the field stream equals the sentinel (`Framer.NoSentinelBlock`). The
  format cannot tell such a block from the end of the stream.
- Every field fits a 32-bit length. The framer and the round trips use the corrected
  continuation span `Framer.ExtraSpan` of the "## Findings" row. With the source's 32-bit
  `numBlocks*16`, a field of 2^32 - 4 bytes or more loses its continuation when written, and
  the readers slice past their empty buffer.

## Model

| member | source | states |
|---|---|---|
| Stretch.ComputeStretchKey | src/pwsafe/crypto.go:6-19 | the loop returns the passphrase-then-salt hash re-hashed `iterations` times; zero iterations give the single hash |
| Stretch.StretchedRecurrence | src/pwsafe/crypto.go:7-17 | the stretched key with no iterations is `H(password ++ salt)`, and iteration n+1 hashes the result of iteration n |
| Cbc.Encrypt | output.go:152 | the CBC encrypter turns a whole number of blocks into as many ciphertext bytes |
| Cbc.Decrypt | src/pwsafe/parse.go:167 | the CBC decrypter turns a whole number of blocks into as many plaintext bytes |
| Cbc.EncryptIsCbc | output.go:152 | ciphertext block k is the cipher of plaintext block k XOR the previous ciphertext block, the IV for the first (section 6.2 of NIST SP 800-38A) |
| Cbc.DecryptIsCbc | src/pwsafe/parse.go:167-195 | plaintext block k is the inverse cipher of ciphertext block k XOR the previous ciphertext block, the IV for the first |
| Cbc.DecryptEncrypt | output.go:75-76 | CBC decryption from the same IV undoes CBC encryption, block by block (given `Inverts`) |
| Cbc.EncryptAppend | output.go:152 | encrypting two block-aligned runs in sequence, continuing from the first run's chaining value, equals encrypting their concatenation |
| Cbc.DecryptAppend | src/pwsafe/parse.go:167-195 | the decrypter's chaining state carries across calls: decrypting a concatenation equals decrypting the parts in sequence |
| Cbc.ChainingValueIsLastCiphertext | src/pwsafe/reader.go:129-160 | after a non-empty run, the chaining value is the last ciphertext block |
| Prologue.ParseHeader | src/pwsafe/parse.go:19-25 | `binary.Read` of the 152-byte header succeeds exactly when 152 bytes are there, with every field of its declared width |
| Prologue.ParseSerialize | src/pwsafe/parse.go:19-25 | parsing a serialised header, whatever follows it, gives the header back |
| Prologue.SerializeParse | src/pwsafe/parse.go:19-25 | serialising a parsed header reproduces the first 152 input bytes |
| Prologue.Open | src/pwsafe/parse.go:35-53 | a bad-file-type error exactly when the input is short or the tag is not "PWS3"; an invalid-password error exactly when the tag is right and the hash of the stretched key differs from the stored verifier; on success the data key is the decryption of B1 then B2 and the HMAC key that of B3 then B4, each block decrypted on its own under the stretched key, and the IV is bytes 136-151 |
| Prologue.Serialize | output.go:54-73 | a header is written as exactly 152 bytes; `Prologue.ParseSerialize` is its inverse |
| Prologue.Seal | output.go:43-73 | the prologue written is 152 bytes, starts with "PWS3", ends with the IV, and parses back as the header with the tag, the salt, 2048 iterations, the hash of the stretched key and each 16-byte half of both keys encrypted under the stretched key |
| Prologue.SealThenOpen | output.go:43-73 | opening a written prologue with the same passphrase recovers the data key, the HMAC key and the IV it was written with |
| Prologue.OpenWithOtherPassword | src/pwsafe/reader.go:88-97 | another passphrase is never reported as a bad file; it is rejected as invalid exactly when its stretched key hashes differently |
| Framer.ReadField | src/pwsafe/parse.go:156-197 | the result classes and what each means: `NoData` (`io.EOF`) on an empty input, `ShortBlock` on 1 to 15 bytes, the end frame exactly on the sentinel (stream advanced 16 bytes, IV untouched), `Exhausted` (`io.EOF` of the continuation read) exactly when a non-sentinel head block announcing more than 11 bytes is all that is left, otherwise a field of the announced length decoded from whole blocks or, when the stream ends inside them, from the zero-filled buffer |
| Framer.ReadShortField | src/pwsafe/parse.go:180-182 | a field of at most 11 bytes is cut from its first block, and the stream goes on right after that block |
| Framer.ReadLongField | src/pwsafe/parse.go:185-196 | a field longer than 11 bytes gives `io.EOF` exactly when only its first block is left, and otherwise a field of the announced length |
| Framer.ReadPaddedField | src/pwsafe/parse.go:190-196 | when fewer continuation bytes remain than the buffer holds, the field is decrypted from those bytes followed by zeros, the stream is left empty and the decrypter at the buffer's last block |
| Framer.ReadWholeField | src/pwsafe/parse.go:185-196 | with every continuation block present, the field is the inline bytes plus the decrypted continuation cut to the announced length, and the stream goes on after the last block |
| Framer.WriteField | output.go:120-158 | an empty field writes and hashes nothing; any other field hashes its data and writes a block-aligned ciphertext of 16 bytes plus its continuation span |
| Framer.FrameBlocks | output.go:126-147 | the cleartext of a field is the head block followed by the continuation span, a multiple of 16 bytes |
| Framer.FrameBlocksLayout | output.go:126-147 | the cleartext carries the 32-bit little-endian length, the type byte, the inline data and the continuation data at their offsets, and every byte after the data is zero |
| Framer.ReadFrame | src/pwsafe/parse.go:156-197 | the encryption of a field's cleartext, followed by anything, reads back as that field, with the rest and the chaining value after it |
| Framer.DecodedUnique | src/pwsafe/parse.go:156-197 | the field, rest and chaining value decoded from a stream are unique |
| Framer.WriteThenReadField | output.go:120-158 | `readField` after `writeField`, from the same chaining value, returns the field, the bytes after it and the chaining value the writer reached |
| Framer.ExtraSpan | src/pwsafe/parse.go:185-190 | the continuation buffer is a multiple of 16 holding the remaining bytes with less than one block of filler |
| Framer.FieldSpan | src/pwsafe/reader.go:142-155 | the continuation bytes of a declared length are zero exactly when the field fits its 11 inline bytes |
| Framer.ExtraSpanU32Wraps | output.go:140-144 | the `uint32` product is too small exactly when the remaining length exceeds 2^32 - 16, and agrees with the exact span otherwise |
| Framer.ExtraSpanU32MaxLength | src/pwsafe/reader.go:151-155 | a declared length of 0xFFFFFFFF gets an empty continuation buffer |
| Framer.NoSentinelBlockAppend | src/pwsafe/parse.go:163-165 | a concatenation at a block boundary has no sentinel block exactly when neither part has one |
| Integrity.ReadersAgree | src/pwsafe/parse.go:95-98 | the HMAC input of `parse.go` equals that of `reader.go` exactly when every end-of-entry field is empty |
| Integrity.HashedLengths | src/pwsafe/reader.go:145 | the two HMAC inputs differ in length by exactly the data of the end-of-entry fields |
| Integrity.NoTerminatorBytes | src/pwsafe/parse.go:147-152 | end-of-entry fields carry no data exactly when every one is empty |
| Integrity.HashedByReaderAppend | src/pwsafe/reader.go:164 | the streaming reader's HMAC input over two runs of fields is the concatenation of their inputs |
| Integrity.StoredDigest | src/pwsafe/parse.go:67-68 | the digest read after the sentinel is the first 32 bytes left, or the bytes left followed by zeros when fewer remain |
| Integrity.StoredDigestOfTrailer | src/pwsafe/parse.go:67-68 | the unchecked read of the trailer returns the 32-byte digest that follows the sentinel |
| Parse.ParseTimeT | src/pwsafe/parse.go:102-115 | succeeds exactly on 4 or 8 bytes; a 4-byte time is an unsigned 32-bit value and an 8-byte time a signed 64-bit one |
| Parse.ParseTimeTOfWritten | output.go:85 | the 4-byte time `OutputFile` writes reads back as the time reduced modulo 2^32 |
| Parse.ParseTimeT64 | src/pwsafe/parse.go:109-112 | every signed 64-bit time survives its 8-byte little-endian encoding |
| Parse.ApplyHeaderField | src/pwsafe/parse.go:83-94 | a header field fails exactly when it is a version field shorter than two bytes; unknown types leave the headers unchanged |
| Parse.ApplyRecordField | src/pwsafe/parse.go:128-146 | unknown types leave the record unchanged; a UUID field is copied into the zero UUID as `copy` does |
| Parse.ReadHeaders | src/pwsafe/parse.go:76-100 | a successful header read consumes at least the closing block and only extends the HMAC input; every failure is a stream failure; the sentinel is fatal and so is an empty stream |
| Parse.ReadRecord | src/pwsafe/parse.go:117-154 | a completed record consumes at least one block; the HMAC input only grows; the only failure is a partial block; the sentinel and an empty stream end the stream with nothing more hashed |
| Parse.ReadRecords | src/pwsafe/parse.go:59-65 | the record loop never extends the input, only extends the HMAC input and fails only on a partial block |
| GroupScan.Scan | src/pwsafe/parse.go:119-150 | a scan reads whole blocks, at least one per field; it is closed exactly by its last field, the only end-of-entry field; it stops unreadable only on 1 to 15 bytes, and at `io.EOF` only with nothing left |
| GroupScan.ReadHeadersByScan | src/pwsafe/parse.go:76-100 | `readHeaders` is the header `switch` folded over the scanned group; a short version field fails first; a closed group succeeds having hashed the data of every field but the closing one, unknown types included; the sentinel, `io.EOF` and a partial block are fatal |
| GroupScan.ReadRecordByScan | src/pwsafe/parse.go:117-154 | `readRecord` is the record `switch` folded over a closed group, which it hashes but for the closing field; at the sentinel or `io.EOF` the partial record is dropped while its fields stay hashed; a partial block is fatal |
| Parse.ParseFile | src/pwsafe/parse.go:27-74 | an invalid-magic error exactly on a short prologue or a wrong tag; an invalid-password error exactly when the verifier differs; after the keys are unwrapped, a failure of the header or record reads is the parse's failure; once both succeed, `HmacFailed` exactly when the stored digest differs from the HMAC of what was hashed, and otherwise the headers and records read |
| Reader.NewReader | src/pwsafe/reader.go:83-111 | `ErrBadFileType` exactly on a short prologue or a wrong tag, `ErrInvalidPassword` exactly on a verifier mismatch, otherwise a session at the prologue IV with the unwrapped keys and nothing hashed |
| Reader.ReadField | src/pwsafe/reader.go:117-167 | `EOF` exactly on the sentinel, consuming 16 bytes and nothing else; `io.EOF` exactly on an empty stream or a lone long head block; `ErrUnexpectedEOF` exactly on 1 to 15 bytes; any other field is the one `readField` frames, of the announced length, has its data appended to the HMAC input whatever its type, and the keys are kept |
| Reader.ReadAll | src/pwsafe/reader.go:117-167 | reading to `EOF` extends the HMAC input by the data of every field returned, consuming at least one block per field plus the sentinel |
| Reader.Verify | src/pwsafe/reader.go:170-178 | passes exactly when the stored digest equals the HMAC of everything hashed, and otherwise fails with `ErrHMACFailed` |
| Output.HeaderFields | output.go:84-90 | five header fields of distinct types, none of them end-of-entry, the first the version as minor then major |
| Output.RecordFields | output.go:95-108 | nine record fields of distinct types, none of them end-of-entry, the first the fresh UUID |
| Output.StampHeaders | output.go:31-41 | the save time and program are always replaced; the user only when one is found and non-empty; the host whenever one is found; the version is kept |
| Output.WriteFields | output.go:84-108 | consecutive field writes produce block-aligned output and hash exactly the data of every field |
| Output.WriteEnd | output.go:91-92 | the closing block is 16 bytes, is not hashed, and is the CBC encryption of an empty end-of-entry frame |
| Output.EndSectionIsEmptyField | output.go:80-81 | the closing cleartext `endSection` is exactly the frame of an empty end-of-entry field |
| Output.WriteGroup | output.go:94-111 | a group is block-aligned, at least one block long, and hashes its fields' data |
| Output.WriteGroups | output.go:94-112 | the groups are written one after the other, block-aligned, with at least one block per group |
| Output.OutputFile | output.go:24-118 | fails exactly when the random source fails, having written only "PWS3"; otherwise the output is the prologue, the field stream, the sentinel and the HMAC of what was hashed, at those offsets |
| ParseRoundTrip.ReadWrittenField | src/pwsafe/parse.go:156-197 | a written non-empty field reads back from where it was written |
| ParseRoundTrip.ReadHeaderGroup | src/pwsafe/parse.go:76-100 | `readHeaders` over a written header group returns the headers its fields describe, consuming exactly its ciphertext and hashing its data |
| ParseRoundTrip.ReadRecordGroup | src/pwsafe/parse.go:117-154 | `readRecord` over a written record group returns the completed record, consuming exactly its ciphertext |
| ParseRoundTrip.ReadWrittenRecords | src/pwsafe/parse.go:59-65 | the record loop over written groups reads one record per group and stops at the sentinel, leaving the digest unread |
| ParseRoundTrip.SentinelEndsRecords | src/pwsafe/parse.go:121-126 | at the sentinel the record loop ends with no record, decrypting and hashing nothing |
| ParseRoundTrip.RereadHeaderFields | output.go:84-90 | the header fields written read back as the same headers, with the save time reduced to 32 bits |
| ParseRoundTrip.RereadRecordFields | output.go:95-108 | the record fields written read back as the same record, with the new UUID and the creation time reduced to 32 bits |
| FileRoundTrip.ReadFileGroups | src/pwsafe/parse.go:59-65 | the field stream of a save reads back as the stamped headers and the stored records, leaving exactly the digest and the writer's HMAC input |
| FileRoundTrip.OutputThenParse | output.go:24-118 | `ParseFile` with the same passphrase, whatever the reader's clock, returns the stored database of a save |
| ReaderRoundTrip.OutputThenReader | src/pwsafe/reader.go:83-178 | `NewReader` on a saved file, then `ReadField` to `EOF`, returns every written field in order, hashes what the writer hashed, and `Verify` passes |
| ReaderRoundTrip.WriterAndReadersHashAlike | src/pwsafe/parse.go:59-72 | for a saved file, the writer, the streaming reader and `ParseFile` all feed the HMAC the same bytes: the header and record groups `ParseFile` reads from the saved bytes leave exactly the writer's HMAC input |
| Ordering.BytesLessTotal | cmd/pwsafe/main.go:28 | Go's string `<` is total: exactly one of less, equal and greater holds |
| Ordering.BytesLessTransitive | cmd/pwsafe/main.go:30 | Go's string `<` is transitive |
| Ordering.Less | cmd/pwsafe/main.go:26-31 | `Less` is the lexicographic order on (group, title) |
| Ordering.LessGroupFirst | cmd/pwsafe/main.go:26-31 | `Less` compares groups when they differ and titles when they are equal |
| Ordering.LessStrictOrder | cmd/pwsafe/main.go:26-31 | `Less` is irreflexive and transitive |
| Ordering.LessIncomparable | cmd/pwsafe/main.go:26-31 | two records are unordered exactly when they agree on group and title |
| Ordering.Swap | cmd/pwsafe/main.go:25 | the records at i and j trade places and nothing else changes |
| Ordering.SwapPermutes | cmd/pwsafe/main.go:25 | a swap is a permutation, and swapping twice restores the slice |
| Ordering.DecimalValue | cmd/pwsafe/main.go:255 | the `%d` digits of n read back as n |
| Ordering.Pad2 | cmd/pwsafe/main.go:255 | `%02d` gives at least two digits, exactly two below 100, denoting n |
| Ordering.GetRecordList | cmd/pwsafe/main.go:252-259 | one line per record, in order, formatted from that record and its position, then the add-record line |
| Ordering.EntryIndex | cmd/pwsafe/main.go:255 | each line's digits after the bracket read back as its position, and no record line is the add-record line |
| Ordering.EntriesDistinct | cmd/pwsafe/main.go:255 | the lines of two different positions differ |
| Bytes.LeValueOfBytes | src/pwsafe/parse.go:171-178 | the little-endian value of the `w`-byte encoding of n < 256^w is n |
| Bytes.LeBytesOfValue | output.go:131-136 | encoding a byte string's little-endian value at its own width gives the byte string back |

## Left out

- File handling: `os.Open`, `os.Create` and the file paths are out. A file is the byte sequence
  it holds and a save is the byte sequence it writes.
- `log.Fatal` and `log.Fatalln`: they end the process in the source. Here they become error
  values (`Parse.ParseError`), because a process exit cannot be modelled.
- Time: a `time.Time` is an integer count of seconds. `time.Now()` is a parameter (`now`, or
  `Output.Environment.now`).
- Outside inputs of `OutputFile`: `user.Current`, `os.Hostname`, `crypto/rand` and
  `uuid.NewV1` are fields of `Output.Environment`, because they are I/O.
- Primitives: Twofish, SHA-256 and HMAC-SHA256 are uninterpreted functions. They are foreign
  code, and the model needs only that decryption inverts encryption.
- Files outside the codec: the root `main.go`, the root `types.go` and the terminal UI of
  `cmd/pwsafe/main.go` (menus, prompts, clipboard) are outside the codec. They only consume the
  decoded database.
- ByGroupTitle.Len is not modelled: it is `len(b)` and has nothing to prove.
- Ordering.Less: compares two records rather than the records at two indices of a slice. The
  index lookup adds nothing.
- Framer.ReadLongField: the continuation `Read` is taken to return every byte left, up to the
  buffer's size, as a `Read` of a regular file does. A reader that returns fewer bytes while more
  remain is not modelled.
- FileRoundTrip.OutputThenParse: assumes no ciphertext block of the field stream equals the
  sentinel (`Framer.NoSentinelBlock`), because the format itself cannot read such a file back.
- ReaderRoundTrip.OutputThenReader: makes the same sentinel assumption.
- Integrity.StoredDigest: the trailer `Read` in both readers ignores short reads. It is modelled
  as the first 32 bytes after the sentinel, zero-filled when fewer remain.
- The duplicate `computeStretchKey` in `src/pwsafe/parse.go` (lines 199-212) is the same
  algorithm as `src/pwsafe/crypto.go`. Both are `Stretch.ComputeStretchKey`.
- Parse.ParseTimeT: on a bad length the callers keep the value returned alongside the error,
  which is `time.Now()`. The model uses the `now` parameter for it.
- Go's zero `time.Time` is not a Unix time. The model gives it the value -62135596800.

Where the code and the design description disagree, the model follows the code:

- `parse.go` does not hash the data of end-of-entry fields, but `reader.go` hashes every field.
  `Integrity.ReadersAgree` states when the two agree.
- `readRecord` also ends the record loop on `io.EOF`, not only at the sentinel: at a block
  boundary, or when a long field's first block is the last block of the file.
- `OutputFile` does not keep a record's own UUID: each record is written with a fresh one.
- The closing block of a group is encrypted directly, never through `writeField`, and is not
  hashed.

## Findings

| source | as written | input that shows it | evidently intended | confidence | as-written member | corrected member |
|---|---|---|---|---|---|---|
| output.go:140-144, src/pwsafe/parse.go:186-190, src/pwsafe/reader.go:151-155 | the continuation buffer is `numBlocks*16` computed in `uint32`, which wraps to a smaller size when the remaining length exceeds 2^32 - 16 | a field whose declared length is 0xFFFFFFFF: its 0xFFFFFFF4 remaining bytes need 0x10000000 blocks, and 0x10000000 * 16 wraps to 0, so the writer drops every continuation byte and the readers allocate an empty buffer | a buffer of `ceil(n/16)*16` bytes that holds all n remaining bytes | medium; not executed | Framer.ExtraSpanU32 (shown by Framer.ExtraSpanU32Wraps and Framer.ExtraSpanU32MaxLength) | Framer.ExtraSpan |
