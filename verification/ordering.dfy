/** The record list of the command-line browser (cmd/pwsafe/main.go): the `ByGroupTitle` sort
    order and the lines `getRecordList` shows. Go compares strings byte by byte; the model's
    strings are byte strings. */
module Ordering {
  import opened Octets
  import opened Types

  /** Go's `<` on strings: lexicographic on bytes, a proper prefix sorting first. */
  predicate BytesLess(a: seq<bv8>, b: seq<bv8>)
    decreases |a|
  {
    |b| > 0 && (|a| == 0 || a[0] < b[0] || (a[0] == b[0] && BytesLess(a[1..], b[1..])))
  }

  lemma {:induction false} BytesLessIrreflexive(a: seq<bv8>)
    ensures !BytesLess(a, a)
    decreases |a|
  {
    if |a| > 0 {
      BytesLessIrreflexive(a[1..]);
    }
  }

  lemma {:induction false} BytesLessTransitive(a: seq<bv8>, b: seq<bv8>, c: seq<bv8>)
    requires BytesLess(a, b) && BytesLess(b, c)
    ensures BytesLess(a, c)
    decreases |a|
  {
    if |a| > 0 && a[0] == b[0] && b[0] == c[0] {
      BytesLessTransitive(a[1..], b[1..], c[1..]);
    }
  }

  /** Exactly one of `a < b`, `a == b`, `b < a` holds. */
  lemma {:induction false} BytesLessTotal(a: seq<bv8>, b: seq<bv8>)
    ensures a == b <==> !BytesLess(a, b) && !BytesLess(b, a)
    ensures !(BytesLess(a, b) && BytesLess(b, a))
    decreases |a|
  {
    if a == b {
      BytesLessIrreflexive(a);
    } else if |a| > 0 && |b| > 0 {
      BytesLessTotal(a[1..], b[1..]);
      if a[0] == b[0] {
        assert a == [a[0]] + a[1..] && b == [b[0]] + b[1..];
      }
    }
  }

  /** `ByGroupTitle.Less` on the records at the two positions: by group, and by title within
      a group. */
  predicate Less(x: Record, y: Record): (b: bool)
    ensures b <==> BytesLess(x.group, y.group) || (x.group == y.group && BytesLess(x.title, y.title))
  {
    BytesLessIrreflexive(x.group);
    if x.group == y.group then BytesLess(x.title, y.title) else BytesLess(x.group, y.group)
  }

  /** The group decides unless the groups are equal. */
  lemma LessGroupFirst(x: Record, y: Record)
    ensures x.group != y.group ==> (Less(x, y) <==> BytesLess(x.group, y.group))
    ensures x.group == y.group ==> (Less(x, y) <==> BytesLess(x.title, y.title))
    ensures BytesLess(x.group, y.group) ==> Less(x, y)
  {
    if BytesLess(x.group, y.group) {
      BytesLessTotal(x.group, y.group);
    }
  }

  /** `Less` is a strict order: irreflexive and transitive. */
  lemma LessStrictOrder(x: Record, y: Record, z: Record)
    ensures !Less(x, x)
    ensures Less(x, y) && Less(y, z) ==> Less(x, z)
  {
    BytesLessIrreflexive(x.title);
    if Less(x, y) && Less(y, z) {
      if x.group == y.group && y.group == z.group {
        BytesLessTransitive(x.title, y.title, z.title);
      } else if x.group == y.group {
        assert BytesLess(y.group, z.group);
      } else if y.group == z.group {
        assert BytesLess(x.group, y.group);
      } else {
        BytesLessTransitive(x.group, y.group, z.group);
        BytesLessTotal(x.group, z.group);
      }
    }
  }

  /** Two records are unordered exactly when they agree on group and title; the sort leaves
      such records in no particular order. */
  lemma LessIncomparable(x: Record, y: Record)
    ensures !Less(x, y) && !Less(y, x) <==> x.group == y.group && x.title == y.title
  {
    BytesLessTotal(x.group, y.group);
    BytesLessTotal(x.title, y.title);
  }

  /** `ByGroupTitle.Swap`: the records at `i` and `j` trade places. */
  function Swap(b: seq<Record>, i: nat, j: nat): (r: seq<Record>)
    requires i < |b| && j < |b|
    ensures |r| == |b|
    ensures r[i] == b[j] && r[j] == b[i]
    ensures forall k :: 0 <= k < |b| && k != i && k != j ==> r[k] == b[k]
  {
    b[i := b[j]][j := b[i]]
  }

  lemma UpdateMultiset(s: seq<Record>, i: nat, v: Record)
    requires i < |s|
    ensures multiset(s[i := v]) == multiset(s) - multiset{s[i]} + multiset{v}
  {
  }

  /** Swapping only permutes, and swapping back restores the slice. */
  lemma SwapPermutes(b: seq<Record>, i: nat, j: nat)
    requires i < |b| && j < |b|
    ensures multiset(Swap(b, i, j)) == multiset(b)
    ensures Swap(Swap(b, i, j), i, j) == b
  {
    SwapMultiset(b, i, j);
    SwapTwice(b, i, j);
  }

  lemma SwapMultiset(b: seq<Record>, i: nat, j: nat)
    requires i < |b| && j < |b|
    ensures multiset(b[i := b[j]][j := b[i]]) == multiset(b)
  {
    var m := b[i := b[j]];
    UpdateMultiset(b, i, b[j]);
    UpdateMultiset(m, j, b[i]);
    if i != j {
      assert m[j] == b[j];
    }
  }

  lemma SwapTwice(b: seq<Record>, i: nat, j: nat)
    requires i < |b| && j < |b|
    ensures Swap(Swap(b, i, j), i, j) == b
  {
    var s := Swap(Swap(b, i, j), i, j);
    forall k | 0 <= k < |b|
      ensures s[k] == b[k]
    {
    }
  }

  /** The byte of a decimal digit. */
  function Digit(k: nat): bv8
    requires k < 10
  {
    ByteOf(0x30 + k)
  }

  predicate IsDigit(c: bv8)
  {
    0x30 <= c <= 0x39
  }

  predicate AllDigits(d: seq<bv8>)
  {
    forall i :: 0 <= i < |d| ==> IsDigit(d[i])
  }

  /** `%d` of a non-negative integer: its decimal digits without leading zeros. */
  function Decimal(n: nat): (d: seq<bv8>)
    ensures 1 <= |d|
    ensures AllDigits(d)
    ensures |d| == 1 <==> n < 10
    decreases n
  {
    if n < 10 then [Digit(n)] else Decimal(n / 10) + [Digit(n % 10)]
  }

  /** The number a string of decimal digits denotes. */
  function DigitsValue(d: seq<bv8>): nat
    requires AllDigits(d)
  {
    if |d| == 0 then 0 else 10 * DigitsValue(d[..|d| - 1]) + (d[|d| - 1] as nat - 0x30)
  }

  lemma DigitValue(k: nat)
    requires k < 10
    ensures Digit(k) as nat == 0x30 + k
  {
  }

  lemma {:induction false} DecimalValue(n: nat)
    ensures DigitsValue(Decimal(n)) == n
    decreases n
  {
    var d := Decimal(n);
    if n < 10 {
      DigitValue(n);
      assert d[..0] == [];
    } else {
      var q, k := n / 10, n % 10;
      DecimalValue(q);
      DigitValue(k);
      assert d[..|d| - 1] == Decimal(q);
      assert DigitsValue(d) == 10 * q + k;
    }
  }

  /** A leading zero does not change the value. */
  lemma {:induction false} LeadingZero(d: seq<bv8>)
    requires AllDigits(d)
    ensures AllDigits([0x30] + d)
    ensures DigitsValue([0x30] + d) == DigitsValue(d)
    decreases |d|
  {
    var z := [0x30] + d;
    if |d| > 0 {
      assert z[..|z| - 1] == [0x30] + d[..|d| - 1];
      LeadingZero(d[..|d| - 1]);
    }
  }

  /** `%02d`: at least two digits, zero-padded, denoting `n`. */
  function Pad2(n: nat): (d: seq<bv8>)
    ensures AllDigits(d)
    ensures DigitsValue(d) == n
    ensures |d| >= 2 && (|d| == 2 <==> n < 100)
  {
    DecimalValue(n);
    if n < 10 then
      LeadingZero(Decimal(n));
      [0x30] + Decimal(n)
    else
      assert n < 100 <==> n / 10 < 10;
      Decimal(n)
  }

  /** The line for the record at position `idx`: `[%02d#] group/title`. */
  function Entry(idx: nat, r: Record): seq<bv8>
  {
    [0x5B] + Pad2(idx) + [0x23, 0x5D, 0x20] + r.group + [0x2F] + r.title
  }

  /** ASCII "[a] Add Record". */
  const AddRecord: seq<bv8> := [0x5B, 0x61, 0x5D, 0x20, 0x41, 0x64, 0x64, 0x20, 0x52, 0x65, 0x63, 0x6F, 0x72, 0x64]

  /** `getRecordList`: one line per record in order, then the line for adding a record. */
  method GetRecordList(records: seq<Record>) returns (list: seq<seq<bv8>>)
    ensures |list| == |records| + 1
    ensures forall i :: 0 <= i < |records| ==> list[i] == Entry(i, records[i])
    ensures list[|records|] == AddRecord
  {
    list := [];
    var idx := 0;
    while idx < |records|
      invariant 0 <= idx <= |records|
      invariant |list| == idx
      invariant forall i :: 0 <= i < idx ==> list[i] == Entry(i, records[i])
    {
      list := list + [Entry(idx, records[idx])];
      idx := idx + 1;
    }
    list := list + [AddRecord];
  }

  /** Each line names the position of its record: the digits after the bracket read back as the
      index, and no record line is the add line. */
  lemma EntryIndex(idx: nat, r: Record)
    ensures var e := Entry(idx, r);
            var d := Pad2(idx);
            && e[1..1 + |d|] == d
            && DigitsValue(e[1..1 + |d|]) == idx
            && e[1 + |d|] == 0x23
            && e != AddRecord
  {
    var e := Entry(idx, r);
    var d := Pad2(idx);
    assert e[1..1 + |d|] == d;
    assert IsDigit(e[1]);
  }

  /** Lines of different positions differ: the digit run after the bracket, ended by `#`, is
      the position's own. */
  lemma EntriesDistinct(i: nat, j: nat, a: Record, b: Record)
    requires i != j
    ensures Entry(i, a) != Entry(j, b)
  {
    var ei, ej := Entry(i, a), Entry(j, b);
    var di, dj := Pad2(i), Pad2(j);
    EntryIndex(i, a);
    EntryIndex(j, b);
    if |di| < |dj| {
      assert ej[1 + |di|] == dj[|di|];
      assert IsDigit(dj[|di|]);
      assert ei[1 + |di|] != ej[1 + |di|];
    } else if |dj| < |di| {
      assert ei[1 + |dj|] == di[|dj|];
      assert IsDigit(di[|dj|]);
      assert ei[1 + |dj|] != ej[1 + |dj|];
    } else {
      assert ei[1..1 + |di|] != ej[1..1 + |dj|];
    }
  }
}
