// LevelDB's internal keys (db/dbformat.cc, db/dbformat.h): a user key followed by eight bytes that
// hold the sequence number and the entry type, and the order in which such keys are kept.

module DbFormat {
  import opened Basics

  type Comparator = (Bytes, Bytes) -> int

  const MAX_SEQUENCE_NUMBER: nat := 0x100_0000_0000_0000 - 1   // kMaxSequenceNumber

  datatype ValueType = Deletion | Value
  datatype ParsedInternalKey = ParsedInternalKey(userKey: Bytes, sequence: nat, kind: ValueType)

  /** What LevelDB demands of a user comparator. */
  ghost predicate TotalOrder(cmp: Comparator) {
    && (forall a, b :: cmp(a, b) == 0 <==> a == b)
    && (forall a, b :: cmp(a, b) < 0 <==> cmp(b, a) > 0)
    && (forall a, b, c :: cmp(a, b) <= 0 && cmp(b, c) <= 0 ==> cmp(a, c) <= 0)
  }

  function TypeCode(t: ValueType): nat {
    match t
    case Deletion => 0
    case Value => 1
  }

  /** `PackSequenceAndType`; the shifted sequence number leaves the low eight bits free. */
  function Pack(sequence: nat, t: ValueType): nat {
    sequence * 256 + TypeCode(t)
  }

  function EncodeKey(k: ParsedInternalKey): (r: Bytes)
    ensures |r| == |k.userKey| + 8
  {
    k.userKey + Fixed(Pack(k.sequence, k.kind), 8)
  }

  function ExtractUserKey(key: Bytes): Bytes
    requires |key| >= 8
  {
    key[..|key| - 8]
  }

  function Trailer(key: Bytes): nat
    requires |key| >= 8
  {
    DecodeFixed(key[|key| - 8..])
  }

  /** `ParseInternalKey`; None for a corrupted key. */
  function Parse(key: Bytes): Option<ParsedInternalKey> {
    if |key| < 8 then None
    else
      var num := Trailer(key);
      var c := num % 256;
      if c > 1 then None
      else Some(ParsedInternalKey(ExtractUserKey(key), num / 256, if c == 0 then Deletion else Value))
  }

  /** `InternalKeyComparator::Compare`. */
  function Compare(cmp: Comparator, a: Bytes, b: Bytes): int
    requires |a| >= 8 && |b| >= 8
  {
    var r := cmp(ExtractUserKey(a), ExtractUserKey(b));
    if r == 0 then
      var anum, bnum := Trailer(a), Trailer(b);
      if anum > bnum then -1 else if anum < bnum then 1 else r
    else r
  }

  /** A key that fits the format is read back as it was written. */
  lemma KeyRoundTrip(k: ParsedInternalKey)
    requires k.sequence < 0x100_0000_0000_0000
    ensures Parse(EncodeKey(k)) == Some(k)
    ensures Trailer(EncodeKey(k)) == Pack(k.sequence, k.kind)
  {
    hide Fixed, DecodeFixed, Power256;
    var e, v := EncodeKey(k), Pack(k.sequence, k.kind);
    Powers();
    FixedRoundTrip(v, 8);
    assert e[|e| - 8..] == Fixed(v, 8);
    assert ExtractUserKey(e) == k.userKey;
  }

  /** The bytes of a key: the user key, 1 for a value and 0 for a deletion, and the sequence number in seven bytes,
      the least significant one first. */
  lemma KeyBytes(k: ParsedInternalKey, j: nat)
    requires j < 7
    ensures var e, n := EncodeKey(k), |k.userKey|;
      && e[..n] == k.userKey && |e| == n + 8 && e[n] == (if k.kind == Value then 1 else 0)
      && e[n + 1 + j] == k.sequence / Power256(j) % 256
  {
    var v := Pack(k.sequence, k.kind);
    assert v / 256 == k.sequence && v % 256 == TypeCode(k.kind);
    hide Fixed, Power256;
    FixedByte(k.sequence, 7, j);
    FixedHead(v, 8);
    assert EncodeKey(k)[|k.userKey| + 1 + j] == Fixed(v, 8)[1 + j];
  }

  lemma FixedHead(v: nat, width: nat)
    requires width > 0
    ensures Fixed(v, width) == [v % 256] + Fixed(v / 256, width - 1)
  {
  }

  /** A key parses exactly if it has eight bytes and its type byte is 0 or 1, and then it is the encoding of what it
      parses to. */
  lemma ParsesIff(key: Bytes)
    ensures Parse(key).Some? <==> |key| >= 8 && key[|key| - 8] <= 1
    ensures Parse(key).Some? ==> EncodeKey(Parse(key).value) == key
  {
    if |key| >= 8 {
      var b := key[|key| - 8..];
      FixedOf(b);
      assert Trailer(key) % 256 == b[0] as int;
      if Parse(key).Some? {
        var k := Parse(key).value;
        assert Pack(k.sequence, k.kind) == Trailer(key);
        assert key == ExtractUserKey(key) + b;
      }
    }
  }

  /** `(a.sequence, a.kind)` comes later in time than `(b.sequence, b.kind)`. */
  predicate Newer(a: ParsedInternalKey, b: ParsedInternalKey) {
    a.sequence > b.sequence || (a.sequence == b.sequence && a.kind == Value && b.kind == Deletion)
  }

  /** Packed trailers compare as (sequence, type): the order of internal keys is user key
      ascending, then newest first. */
  lemma CompareIsNewestFirst(cmp: Comparator, a: Bytes, b: Bytes)
    requires TotalOrder(cmp)
    requires Parse(a).Some? && Parse(b).Some?
    ensures var p, q := Parse(a).value, Parse(b).value;
      Compare(cmp, a, b) < 0 <==>
        cmp(p.userKey, q.userKey) < 0 || (p.userKey == q.userKey && Newer(p, q))
    ensures Compare(cmp, a, b) == 0 <==> Parse(a) == Parse(b)
  {
    var m, n := Trailer(a), Trailer(b);
    assert m == (m / 256) * 256 + m % 256 && n == (n / 256) * 256 + n % 256;
  }
}
