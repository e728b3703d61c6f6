/** The HMAC input of the two readers and the stored digest they compare it with.

    HMAC-SHA256 (RFC 2104 section 2) is an uninterpreted function of the key and the whole message,
    so an incremental `hmacEngine.Write` sequence is modelled by the concatenation of everything
    written. `readHeaders`/`readRecord` (src/pwsafe/parse.go) skip the data of end-of-entry fields,
    while `ReadField` (src/pwsafe/reader.go) hashes the data of every field it returns. */
module Integrity {
  import opened Bytes
  import opened Framer

  /** What `reader.go` feeds to the HMAC for a run of fields: every field's data. */
  function HashedByReader(fs: seq<Field>): seq<bv8>
  {
    if |fs| == 0 then [] else fs[0].data + HashedByReader(fs[1..])
  }

  /** What `parse.go` feeds to the HMAC for the same run: end-of-entry data is left out. */
  function HashedByParse(fs: seq<Field>): seq<bv8>
  {
    if |fs| == 0 then []
    else (if fs[0].ftype == EndOfEntry then [] else fs[0].data) + HashedByParse(fs[1..])
  }

  /** Total data length carried by end-of-entry fields. */
  function TerminatorBytes(fs: seq<Field>): nat
  {
    if |fs| == 0 then 0
    else (if fs[0].ftype == EndOfEntry then |fs[0].data| else 0) + TerminatorBytes(fs[1..])
  }

  ghost predicate EmptyTerminators(fs: seq<Field>)
  {
    forall i :: 0 <= i < |fs| && fs[i].ftype == EndOfEntry ==> fs[i].data == []
  }

  lemma {:induction false} HashedLengths(fs: seq<Field>)
    ensures |HashedByReader(fs)| == |HashedByParse(fs)| + TerminatorBytes(fs)
  {
    if |fs| > 0 {
      HashedLengths(fs[1..]);
    }
  }

  lemma {:induction false} NoTerminatorBytes(fs: seq<Field>)
    ensures TerminatorBytes(fs) == 0 <==> EmptyTerminators(fs)
  {
    if |fs| > 0 {
      NoTerminatorBytes(fs[1..]);
      assert forall i :: 1 <= i < |fs| ==> fs[1..][i - 1] == fs[i];
      if EmptyTerminators(fs) {
        assert EmptyTerminators(fs[1..]) by {
          forall i | 0 <= i < |fs[1..]| && fs[1..][i].ftype == EndOfEntry
            ensures fs[1..][i].data == []
          {
            assert fs[1..][i] == fs[i + 1];
          }
        }
      }
    }
  }

  lemma {:induction false} EmptyTerminatorsSameInput(fs: seq<Field>)
    requires EmptyTerminators(fs)
    ensures HashedByParse(fs) == HashedByReader(fs)
  {
    if |fs| > 0 {
      assert EmptyTerminators(fs[1..]) by {
        forall i | 0 <= i < |fs[1..]| && fs[1..][i].ftype == EndOfEntry
          ensures fs[1..][i].data == []
        {
          assert fs[1..][i] == fs[i + 1];
        }
      }
      EmptyTerminatorsSameInput(fs[1..]);
    }
  }

  /** The two readers feed the HMAC the same bytes exactly when every end-of-entry field is
      empty, which is what `OutputFile` writes. */
  lemma ReadersAgree(fs: seq<Field>)
    ensures HashedByParse(fs) == HashedByReader(fs) <==> EmptyTerminators(fs)
  {
    HashedLengths(fs);
    NoTerminatorBytes(fs);
    if EmptyTerminators(fs) {
      EmptyTerminatorsSameInput(fs);
    }
  }

  lemma {:induction false} HashedByReaderAppend(a: seq<Field>, b: seq<Field>)
    ensures HashedByReader(a + b) == HashedByReader(a) + HashedByReader(b)
  {
    if |a| > 0 {
      assert (a + b)[1..] == a[1..] + b;
      HashedByReaderAppend(a[1..], b);
    } else {
      assert a + b == b;
    }
  }

  lemma HashedByReaderCons(f: Field, fs: seq<Field>)
    ensures HashedByReader([f] + fs) == f.data + HashedByReader(fs)
  {
    assert ([f] + fs)[1..] == fs;
  }

  /** The unchecked `Read` of the 32-byte trailer after the sentinel: whatever bytes are there,
      zero-filled. */
  function StoredDigest(rest: seq<bv8>): (d: Bytes32)
    ensures |rest| >= 32 ==> d == rest[..32]
    ensures |rest| < 32 ==> d[..|rest|] == rest
    ensures forall i :: |rest| <= i < 32 ==> d[i] == 0
  {
    CopyIntoPrefix(Zeros(32), rest);
    CopyInto(Zeros(32), rest)
  }

  lemma StoredDigestOfTrailer(d: Bytes32, tail: seq<bv8>)
    ensures StoredDigest(d + tail) == d
  {
  }
}
