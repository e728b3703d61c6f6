/** The decoded database (src/pwsafe/types.go). Strings are byte strings, times whole seconds
    since the Unix epoch. */
module Types {
  import opened Bytes

  /** `time.Time{}.Unix()`: Go's zero time is January 1 of year 1, UTC. */
  const ZeroTime: int := -62135596800

  datatype Headers = Headers(
    versionMajor: bv8,
    versionMinor: bv8,
    lastSave: int,
    programSave: seq<bv8>,
    user: seq<bv8>,
    host: seq<bv8>)

  datatype Record = Record(
    uuid: Bytes16,
    group: seq<bv8>,
    title: seq<bv8>,
    username: seq<bv8>,
    notes: seq<bv8>,
    password: seq<bv8>,
    creationTime: int,
    url: seq<bv8>,
    email: seq<bv8>)

  datatype Safe = Safe(headers: Headers, records: seq<Record>)

  // Header field types (src/pwsafe/reader.go).
  const HdrVersion: bv8 := 0x00
  const HdrLastSaveTime: bv8 := 0x04
  const HdrLastSaveProgram: bv8 := 0x06
  const HdrLastSaveUser: bv8 := 0x07
  const HdrLastSaveHost: bv8 := 0x08

  // Record field types.
  const RecUuid: bv8 := 0x01
  const RecGroup: bv8 := 0x02
  const RecTitle: bv8 := 0x03
  const RecUsername: bv8 := 0x04
  const RecNotes: bv8 := 0x05
  const RecPassword: bv8 := 0x06
  const RecCreationTime: bv8 := 0x07
  const RecUrl: bv8 := 0x0d
  const RecEmail: bv8 := 0x14

  /** The Go zero values a decoder starts from. */
  const ZeroHeaders := Headers(0, 0, ZeroTime, [], [], [])
  const ZeroRecord := Record(Zeros(16), [], [], [], [], [], ZeroTime, [], [])
}
