/**
  The binary snapshot layout. A snapshot is a little-endian u32 record count
  followed by the records; each record is a tag byte, the key as a string and
  a payload:
    - scalar: one string;
    - hash:   a u32 field count, then that many (field, value) string pairs;
    - list:   a u32 item count, then that many strings.
  A string is a u32 length followed by its raw bytes, with no terminator.

  Writers are pure functions from values to bytes; readers take the bytes
  not yet read (the stream from its cursor on) and return the value read
  with the bytes after it, or None on a short read.
 */
module SnapshotFormat {
  import opened Wrappers
  import opened StorageEngine

  newtype byte = b: int | 0 <= b < 256

  /** Tag bytes of the three record kinds, `MAP`, `HMAP` and `LIST` in the C++ code. */
  const TAG_SCALAR: byte := 0
  const TAG_HASH: byte := 1
  const TAG_LIST: byte := 2

  /** Numbers written by write_uint32 are taken modulo 2^32. */
  const U32_LIMIT: nat := 0x1_0000_0000

  // ---------------------------------------------------------------------------
  // Fixed-width numbers
  // ---------------------------------------------------------------------------

  /** write_uint32: the number truncated to 32 bits, least significant byte first. */
  function U32Bytes(n: nat): (b: seq<byte>)
    ensures |b| == 4
  {
    var x := n % U32_LIMIT;
    [(x % 256) as byte, (x / 256 % 256) as byte, (x / 65536 % 256) as byte, (x / 16777216) as byte]
  }

  /** The number that four bytes stand for, least significant first. */
  function U32Value(b: seq<byte>): (n: nat)
    requires |b| == 4
    ensures n < U32_LIMIT
  {
    b[0] as nat + 256 * (b[1] as nat + 256 * (b[2] as nat + 256 * b[3] as nat))
  }

  /** Reading back four written bytes gives the number modulo 2^32. */
  lemma U32RoundTrip(n: nat)
    ensures U32Value(U32Bytes(n)) == n % U32_LIMIT
  {
    var x := n % U32_LIMIT;
    var q1 := x / 256;
    var q2 := q1 / 256;
    assert x / 65536 == q2;
    assert x / 16777216 == q2 / 256;
  }

  /** Every four bytes are the encoding of exactly one 32-bit number. */
  lemma U32Canonical(b: seq<byte>)
    requires |b| == 4
    ensures U32Bytes(U32Value(b)) == b
  {
    var n := U32Value(b);
    var b0, b1, b2, b3 := b[0] as int, b[1] as int, b[2] as int, b[3] as int;
    var t2 := b2 + 256 * b3;
    var t1 := b1 + 256 * t2;
    assert n == b0 + 256 * t1;
    DigitSplit(b0, t1, 256);
    DigitSplit(b1, t2, 256);
    DigitSplit(b2, b3, 256);
    assert n == (b0 + 256 * b1) + 65536 * t2;
    DigitSplit(b0 + 256 * b1, t2, 65536);
    assert n == (b0 + 256 * b1 + 65536 * b2) + 16777216 * b3;
    DigitSplit(b0 + 256 * b1 + 65536 * b2, b3, 16777216);
  }

  /** Splitting a number into its lowest digit and the rest, in any base. */
  lemma DigitSplit(low: int, high: nat, base: int)
    requires base > 0 && 0 <= low < base
    ensures (low + base * high) % base == low && (low + base * high) / base == high
  {
    var x := low + base * high;
    var q := x / base;
    assert base * (high - q) == x % base - low;
    if high > q {
      MulAtLeast(base, high - q);
    } else if high < q {
      MulAtLeast(base, q - high);
    }
  }

  lemma MulAtLeast(base: int, k: int)
    requires base > 0 && k > 0
    ensures base * k >= base
  {
  }

  // ---------------------------------------------------------------------------
  // Strings: a C++ std::string holds bytes; here a string holds chars, and a
  // char below 256 is written as that byte
  // ---------------------------------------------------------------------------

  predicate IsByteString(s: string)
  {
    forall i :: 0 <= i < |s| ==> s[i] as int < 256
  }

  /** A string the format can carry: byte chars only and a length that fits a u32. */
  predicate Fits(s: string)
  {
    IsByteString(s) && |s| < U32_LIMIT
  }

  function CharBytes(s: string): (b: seq<byte>)
    ensures |b| == |s|
  {
    seq(|s|, i requires 0 <= i < |s| => (s[i] as int % 256) as byte)
  }

  function BytesChars(b: seq<byte>): (s: string)
    ensures |s| == |b| && IsByteString(s)
  {
    seq(|b|, i requires 0 <= i < |b| => (b[i] as int) as char)
  }

  lemma CharsRoundTrip(s: string)
    requires IsByteString(s)
    ensures BytesChars(CharBytes(s)) == s
  {
  }

  /** write_string: a four-byte length, then the raw bytes, with no terminator. */
  function StringBytes(s: string): (b: seq<byte>)
    ensures |b| == 4 + |s|
  {
    U32Bytes(|s|) + CharBytes(s)
  }

  // ---------------------------------------------------------------------------
  // Records as they are laid out in the file
  // ---------------------------------------------------------------------------

  /** A payload as written: a hash's fields appear in the order they were visited. */
  datatype Payload =
    | ScalarPayload(text: string)
    | HashPayload(fields: seq<(string, string)>)
    | ListPayload(items: seq<string>)

  datatype Record = Record(key: string, payload: Payload)

  function Tag(p: Payload): byte
  {
    match p
    case ScalarPayload(_) => TAG_SCALAR
    case HashPayload(_) => TAG_HASH
    case ListPayload(_) => TAG_LIST
  }

  function ItemsBytes(items: seq<string>): seq<byte>
    decreases |items|
  {
    if items == [] then [] else StringBytes(items[0]) + ItemsBytes(items[1..])
  }

  function FieldsBytes(fields: seq<(string, string)>): seq<byte>
    decreases |fields|
  {
    if fields == [] then []
    else StringBytes(fields[0].0) + StringBytes(fields[0].1) + FieldsBytes(fields[1..])
  }

  function PayloadBytes(p: Payload): seq<byte>
  {
    match p
    case ScalarPayload(s) => StringBytes(s)
    case HashPayload(fields) => U32Bytes(|fields|) + FieldsBytes(fields)
    case ListPayload(items) => U32Bytes(|items|) + ItemsBytes(items)
  }

  function RecordBytes(r: Record): (b: seq<byte>)
    ensures |b| >= 5 && b[0] == Tag(r.payload)
  {
    [Tag(r.payload)] + StringBytes(r.key) + PayloadBytes(r.payload)
  }

  function RecordsBytes(rs: seq<Record>): seq<byte>
    decreases |rs|
  {
    if rs == [] then [] else RecordBytes(rs[0]) + RecordsBytes(rs[1..])
  }

  /** The whole file written by save: the record count, then the records. */
  function SnapshotBytes(rs: seq<Record>): (b: seq<byte>)
    ensures |b| >= 4
  {
    U32Bytes(|rs|) + RecordsBytes(rs)
  }

  lemma {:induction false} ItemsBytesAppend(items: seq<string>, s: string)
    ensures ItemsBytes(items + [s]) == ItemsBytes(items) + StringBytes(s)
    decreases |items|
  {
    if items != [] {
      assert (items + [s])[0] == items[0];
      assert (items + [s])[1..] == items[1..] + [s];
      ItemsBytesAppend(items[1..], s);
      Assoc(StringBytes(items[0]), ItemsBytes(items[1..]), StringBytes(s));
    } else {
      assert [s][1..] == [];
    }
  }

  lemma {:induction false} FieldsBytesAppend(fields: seq<(string, string)>, f: (string, string))
    ensures FieldsBytes(fields + [f]) == FieldsBytes(fields) + StringBytes(f.0) + StringBytes(f.1)
    decreases |fields|
  {
    if fields != [] {
      assert (fields + [f])[0] == fields[0];
      assert (fields + [f])[1..] == fields[1..] + [f];
      FieldsBytesAppend(fields[1..], f);
      var head := StringBytes(fields[0].0) + StringBytes(fields[0].1);
      Assoc(head, FieldsBytes(fields[1..]) + StringBytes(f.0), StringBytes(f.1));
      Assoc(head, FieldsBytes(fields[1..]), StringBytes(f.0));
    } else {
      assert [f][1..] == [];
    }
  }

  lemma {:induction false} RecordsBytesAppend(rs: seq<Record>, r: Record)
    ensures RecordsBytes(rs + [r]) == RecordsBytes(rs) + RecordBytes(r)
    decreases |rs|
  {
    if rs != [] {
      assert (rs + [r])[0] == rs[0];
      assert (rs + [r])[1..] == rs[1..] + [r];
      RecordsBytesAppend(rs[1..], r);
      Assoc(RecordBytes(rs[0]), RecordsBytes(rs[1..]), RecordBytes(r));
    } else {
      assert [r][1..] == [];
    }
  }

  // ---------------------------------------------------------------------------
  // Readers: each takes the bytes not yet read (the stream from its current
  // position on) and returns what it read with the bytes still unread, or None
  // on a short read
  // ---------------------------------------------------------------------------

  /** read_uint8: one byte, or nothing when the stream is exhausted. */
  function ReadU8(data: seq<byte>): (r: Option<(byte, seq<byte>)>)
    ensures r.Some? <==> |data| >= 1
    ensures r.Some? ==> r.value.1 == data[1..]
  {
    if |data| >= 1 then Some((data[0], data[1..])) else None
  }

  /** read_uint32: four bytes, or nothing when fewer remain. */
  function ReadU32(data: seq<byte>): (r: Option<(nat, seq<byte>)>)
    ensures r.Some? <==> |data| >= 4
    ensures r.Some? ==> r.value.0 < U32_LIMIT && r.value.1 == data[4..]
  {
    if |data| >= 4 then Some((U32Value(data[..4]), data[4..])) else None
  }

  /** read_string: a length, then that many bytes. */
  function ReadString(data: seq<byte>): (r: Option<(string, seq<byte>)>)
    ensures r.Some? ==> |r.value.1| == |data| - 4 - |r.value.0|
  {
    match ReadU32(data)
    case None => None
    case Some((len, rest)) =>
      if len <= |rest| then Some((BytesChars(rest[..len]), rest[len..])) else None
  }

  /** read_string succeeds exactly when the four-byte length reads and at least that many bytes
      follow it; the string read has the declared length, and reading resumes right after it. */
  lemma ReadStringSpec(data: seq<byte>)
    ensures ReadString(data).Some? <==> |data| >= 4 && U32Value(data[..4]) <= |data| - 4
    ensures ReadString(data).Some? ==>
      |ReadString(data).value.0| == U32Value(data[..4]) && ReadString(data).value.1 == data[4 + U32Value(data[..4])..]
  {
  }

  /** A reader's result with `xs` put in front of what it read. */
  function Prepend<T>(xs: seq<T>, r: Option<(seq<T>, seq<byte>)>): Option<(seq<T>, seq<byte>)>
  {
    match r
    case None => None
    case Some((ys, rest)) => Some((xs + ys, rest))
  }

  lemma PrependNil<T>(r: Option<(seq<T>, seq<byte>)>)
    ensures Prepend([], r) == r
  {
    match r
    case None =>
    case Some((ys, rest)) =>
      assert [] + ys == ys;
  }

  lemma PrependPrepend<T>(xs: seq<T>, ys: seq<T>, r: Option<(seq<T>, seq<byte>)>)
    ensures Prepend(xs, Prepend(ys, r)) == Prepend(xs + ys, r)
  {
    match r
    case None =>
    case Some((zs, rest)) =>
      assert xs + (ys + zs) == (xs + ys) + zs;
  }

  function ReadItems(data: seq<byte>, n: nat): Option<(seq<string>, seq<byte>)>
    decreases n
  {
    if n == 0 then Some(([], data))
    else
      match ReadString(data)
      case None => None
      case Some((s, rest)) => Prepend([s], ReadItems(rest, n - 1))
  }

  /** `n` hash entries, each a field string followed by a value string. */
  function ReadFields(data: seq<byte>, n: nat): Option<(seq<(string, string)>, seq<byte>)>
    decreases n, 1
  {
    if n == 0 then Some(([], data))
    else
      match ReadString(data)
      case None => None
      case Some((f, rest)) => ReadValueThenFields(f, rest, n)
  }

  /** The value string of the current entry (whose field `f` has been read), then the remaining entries. */
  function ReadValueThenFields(f: string, data: seq<byte>, n: nat): Option<(seq<(string, string)>, seq<byte>)>
    requires n > 0
    decreases n, 0
  {
    match ReadString(data)
    case None => None
    case Some((v, rest)) => Prepend([(f, v)], ReadFields(rest, n - 1))
  }

  /** The payload that follows a key, as announced by the tag; an unknown tag fails. */
  function ReadPayload(tag: byte, data: seq<byte>): Option<(Payload, seq<byte>)>
  {
    if tag == TAG_SCALAR then
      match ReadString(data)
      case None => None
      case Some((s, rest)) => Some((ScalarPayload(s), rest))
    else if tag == TAG_HASH then
      match ReadU32(data)
      case None => None
      case Some((n, rest)) =>
        match ReadFields(rest, n)
        case None => None
        case Some((fields, rest')) => Some((HashPayload(fields), rest'))
    else if tag == TAG_LIST then
      match ReadU32(data)
      case None => None
      case Some((n, rest)) =>
        match ReadItems(rest, n)
        case None => None
        case Some((items, rest')) => Some((ListPayload(items), rest'))
    else None
  }

  /** One record: the tag, the key, then the payload. */
  function ReadRecord(data: seq<byte>): Option<(Record, seq<byte>)>
  {
    match ReadU8(data)
    case None => None
    case Some((tag, rest)) =>
      match ReadString(rest)
      case None => None
      case Some((key, rest')) =>
        match ReadPayload(tag, rest')
        case None => None
        case Some((payload, rest'')) => Some((Record(key, payload), rest''))
  }

  function ReadRecords(data: seq<byte>, n: nat): Option<(seq<Record>, seq<byte>)>
    decreases n
  {
    if n == 0 then Some(([], data))
    else
      match ReadRecord(data)
      case None => None
      case Some((r, rest)) => Prepend([r], ReadRecords(rest, n - 1))
  }

  /** One more record read: if `all` is what remains to be read with `rs` in front, and the next
      record reads, then `all` is also the rest with `rs` and that record in front. */
  lemma ReadRecordsNext(all: Option<(seq<Record>, seq<byte>)>, rs: seq<Record>, data: seq<byte>, n: nat, r: Record,
                        next: seq<Record>, rest: seq<byte>, m: nat)
    requires ReadRecord(data) == Some((r, rest)) && next == rs + [r] && n > 0 && m == n - 1
    requires all == Prepend(rs, ReadRecords(data, n))
    ensures all == Prepend(next, ReadRecords(rest, m))
  {
    assert ReadRecords(data, n) == Prepend([r], ReadRecords(rest, m));
    PrependPrepend(rs, [r], ReadRecords(rest, m));
  }

  /** One more hash entry read: if `all` is what remains to be read with `fs` in front, and the next
      field and value read, then `all` is also the rest with `fs` and that entry in front. */
  lemma ReadFieldsNext(all: Option<(seq<(string, string)>, seq<byte>)>, fs: seq<(string, string)>, data: seq<byte>, n: nat,
                       f: string, mid: seq<byte>, v: string, next: seq<(string, string)>, rest: seq<byte>, m: nat)
    requires ReadString(data) == Some((f, mid)) && ReadString(mid) == Some((v, rest))
    requires next == fs + [(f, v)] && n > 0 && m == n - 1
    requires all == Prepend(fs, ReadFields(data, n))
    ensures all == Prepend(next, ReadFields(rest, m))
  {
    assert ReadFields(data, n) == ReadValueThenFields(f, mid, n);
    assert ReadValueThenFields(f, mid, n) == Prepend([(f, v)], ReadFields(rest, m));
    PrependPrepend(fs, [(f, v)], ReadFields(rest, m));
  }

  /** The records of a file: the count, then that many records; bytes after them are ignored. */
  function ParseSnapshot(data: seq<byte>): Option<seq<Record>>
  {
    match ReadU32(data)
    case None => None
    case Some((n, rest)) =>
      match ReadRecords(rest, n)
      case None => None
      case Some((rs, _)) => Some(rs)
  }

  // ---------------------------------------------------------------------------
  // From records to the store that load installs
  // ---------------------------------------------------------------------------

  /** The in-memory value a payload becomes: hash fields are emplaced, so the first of a repeated field wins. */
  function ValueOf(p: Payload): Value
  {
    match p
    case ScalarPayload(s) => Scalar(s)
    case HashPayload(fields) => Hash(FirstWins(fields))
    case ListPayload(items) => List(items)
  }

  function Entries(rs: seq<Record>): (es: seq<(string, Value)>)
    ensures |es| == |rs|
  {
    seq(|rs|, i requires 0 <= i < |rs| => (rs[i].key, ValueOf(rs[i].payload)))
  }

  /** The store load builds from a file, or None if the file is short or malformed. */
  function DecodeStore(data: seq<byte>): Option<Store>
  {
    match ParseSnapshot(data)
    case None => None
    case Some(rs) => Some(FirstWins(Entries(rs)))
  }

  /** `rs` is a snapshot of `kv`: one record per key with that key's value, every hash listed field by field. */
  ghost predicate ListsStore(rs: seq<Record>, kv: Store)
  {
    && Lists(Entries(rs), kv)
    && DistinctHashes(rs)
  }

  /** No hash record repeats a field. */
  predicate DistinctHashes(rs: seq<Record>)
  {
    forall i :: 0 <= i < |rs| && rs[i].payload.HashPayload? ==> DistinctKeys(rs[i].payload.fields)
  }

  lemma EntriesAppend(rs: seq<Record>, r: Record)
    ensures Entries(rs + [r]) == Entries(rs) + [(r.key, ValueOf(r.payload))]
  {
  }

  /** Emplacing one more record into the store built from `rs`: a key already present keeps its value. */
  lemma StoreAppend(rs: seq<Record>, r: Record)
    ensures FirstWins(Entries(rs + [r])) ==
      if r.key in FirstWins(Entries(rs)) then FirstWins(Entries(rs)) else FirstWins(Entries(rs))[r.key := ValueOf(r.payload)]
  {
    EntriesAppend(rs, r);
    FirstWinsAppend(Entries(rs), (r.key, ValueOf(r.payload)));
  }

  predicate EncodablePayload(p: Payload)
  {
    match p
    case ScalarPayload(s) => Fits(s)
    case HashPayload(fields) =>
      |fields| < U32_LIMIT && forall i :: 0 <= i < |fields| ==> Fits(fields[i].0) && Fits(fields[i].1)
    case ListPayload(items) =>
      |items| < U32_LIMIT && forall i :: 0 <= i < |items| ==> Fits(items[i])
  }

  predicate EncodableRecords(rs: seq<Record>)
  {
    |rs| < U32_LIMIT && forall i :: 0 <= i < |rs| ==> Fits(rs[i].key) && EncodablePayload(rs[i].payload)
  }

  predicate EncodableValue(v: Value)
  {
    match v
    case Scalar(s) => Fits(s)
    case List(items) => |items| < U32_LIMIT && forall i :: 0 <= i < |items| ==> Fits(items[i])
    case Hash(fields) => |fields| < U32_LIMIT && forall f :: f in fields ==> Fits(f) && Fits(fields[f])
  }

  /** A store every count, length and char of which fits the format. */
  predicate EncodableStore(kv: Store)
  {
    |kv| < U32_LIMIT && forall k :: k in kv ==> Fits(k) && EncodableValue(kv[k])
  }

  // ---------------------------------------------------------------------------
  // Round trip: reading what was written, whatever follows it
  // ---------------------------------------------------------------------------

  /** read_uint8 after write_uint8 gives the byte back and consumes one byte. */
  lemma ReadU8Written(x: byte, rest: seq<byte>)
    ensures ReadU8([x] + rest) == Some((x, rest))
  {
    assert ([x] + rest)[1..] == rest;
  }

  /** read_uint32 after write_uint32 gives a 32-bit number back and consumes four bytes. */
  lemma ReadU32Written(n: nat, rest: seq<byte>)
    requires n < U32_LIMIT
    ensures ReadU32(U32Bytes(n) + rest) == Some((n, rest))
  {
    var b := U32Bytes(n) + rest;
    assert b[..4] == U32Bytes(n) && b[4..] == rest;
    U32RoundTrip(n);
  }

  /** read_string after write_string gives the string back and consumes exactly its encoding. */
  lemma ReadStringWritten(s: string, rest: seq<byte>)
    requires Fits(s)
    ensures ReadString(StringBytes(s) + rest) == Some((s, rest))
  {
    var cb := CharBytes(s);
    Assoc(U32Bytes(|s|), cb, rest);
    ReadU32Written(|s|, cb + rest);
    assert (cb + rest)[..|s|] == cb && (cb + rest)[|s|..] == rest;
    CharsRoundTrip(s);
  }

  lemma {:induction false} ReadItemsWritten(items: seq<string>, rest: seq<byte>, n: nat)
    requires forall i :: 0 <= i < |items| ==> Fits(items[i])
    requires n == |items|
    ensures ReadItems(ItemsBytes(items) + rest, n) == Some((items, rest))
    decreases |items|
  {
    if items != [] {
      var tail := ItemsBytes(items[1..]) + rest;
      Assoc(StringBytes(items[0]), ItemsBytes(items[1..]), rest);
      ReadStringWritten(items[0], tail);
      ReadItemsWritten(items[1..], rest, n - 1);
      assert [items[0]] + items[1..] == items;
    } else {
      assert ItemsBytes(items) + rest == rest;
    }
  }

  lemma {:induction false} ReadFieldsWritten(fields: seq<(string, string)>, rest: seq<byte>, n: nat)
    requires forall i :: 0 <= i < |fields| ==> Fits(fields[i].0) && Fits(fields[i].1)
    requires n == |fields|
    ensures ReadFields(FieldsBytes(fields) + rest, n) == Some((fields, rest))
    decreases |fields|
  {
    if fields != [] {
      var f, v := fields[0].0, fields[0].1;
      var tail := FieldsBytes(fields[1..]) + rest;
      Assoc(StringBytes(f) + StringBytes(v), FieldsBytes(fields[1..]), rest);
      Assoc(StringBytes(f), StringBytes(v), tail);
      ReadStringWritten(f, StringBytes(v) + tail);
      ReadStringWritten(v, tail);
      ReadFieldsWritten(fields[1..], rest, n - 1);
      assert [(f, v)] + fields[1..] == fields;
    } else {
      assert FieldsBytes(fields) + rest == rest;
    }
  }

  lemma ReadPayloadWritten(p: Payload, rest: seq<byte>)
    requires EncodablePayload(p)
    ensures ReadPayload(Tag(p), PayloadBytes(p) + rest) == Some((p, rest))
  {
    match p
    case ScalarPayload(s) =>
      ReadStringWritten(s, rest);
    case HashPayload(fields) =>
      Assoc(U32Bytes(|fields|), FieldsBytes(fields), rest);
      ReadU32Written(|fields|, FieldsBytes(fields) + rest);
      ReadFieldsWritten(fields, rest, |fields|);
    case ListPayload(items) =>
      Assoc(U32Bytes(|items|), ItemsBytes(items), rest);
      ReadU32Written(|items|, ItemsBytes(items) + rest);
      ReadItemsWritten(items, rest, |items|);
  }

  lemma ReadRecordWritten(r: Record, rest: seq<byte>)
    requires Fits(r.key) && EncodablePayload(r.payload)
    ensures ReadRecord(RecordBytes(r) + rest) == Some((r, rest))
  {
    var pb := PayloadBytes(r.payload) + rest;
    Assoc([Tag(r.payload)] + StringBytes(r.key), PayloadBytes(r.payload), rest);
    Assoc([Tag(r.payload)], StringBytes(r.key), pb);
    ReadU8Written(Tag(r.payload), StringBytes(r.key) + pb);
    ReadStringWritten(r.key, pb);
    ReadPayloadWritten(r.payload, rest);
  }

  lemma RecordsBytesCons(rs: seq<Record>, rest: seq<byte>)
    requires rs != []
    ensures RecordsBytes(rs) + rest == RecordBytes(rs[0]) + (RecordsBytes(rs[1..]) + rest)
  {
    Assoc(RecordBytes(rs[0]), RecordsBytes(rs[1..]), rest);
  }

  lemma {:induction false} ReadRecordsWritten(rs: seq<Record>, rest: seq<byte>)
    requires forall i :: 0 <= i < |rs| ==> Fits(rs[i].key) && EncodablePayload(rs[i].payload)
    ensures ReadRecords(RecordsBytes(rs) + rest, |rs|) == Some((rs, rest))
    decreases |rs|
  {
    if rs != [] {
      var tail := RecordsBytes(rs[1..]) + rest;
      RecordsBytesCons(rs, rest);
      ReadRecordWritten(rs[0], tail);
      ReadRecordsWritten(rs[1..], rest);
      assert [rs[0]] + rs[1..] == rs;
    } else {
      assert RecordsBytes(rs) + rest == rest;
    }
  }

  /** A file that starts with the encoding of `rs` parses back to exactly `rs`; trailing bytes are never read. */
  lemma ParseSnapshotWritten(rs: seq<Record>, rest: seq<byte>)
    requires EncodableRecords(rs)
    ensures ParseSnapshot(SnapshotBytes(rs) + rest) == Some(rs)
  {
    assert SnapshotBytes(rs) + rest == U32Bytes(|rs|) + (RecordsBytes(rs) + rest);
    ReadU32Written(|rs|, RecordsBytes(rs) + rest);
    ReadRecordsWritten(rs, rest);
  }

  /** Every record of a snapshot of an encodable store fits the format. */
  lemma ListedRecordsEncodable(rs: seq<Record>, kv: Store)
    requires ListsStore(rs, kv) && EncodableStore(kv)
    ensures EncodableRecords(rs)
  {
    forall i | 0 <= i < |rs|
      ensures Fits(rs[i].key) && EncodablePayload(rs[i].payload)
    {
      assert Entries(rs)[i] == (rs[i].key, ValueOf(rs[i].payload));
      match rs[i].payload
      case HashPayload(fields) =>
        DistinctListsFirstWins(fields);
      case _ =>
    }
  }

  /** Load after save: decoding the snapshot of a store, written in any visiting order,
      yields the same keys, the same variant per key, the same list order and the same hash contents. */
  lemma SaveLoadRoundTrip(rs: seq<Record>, kv: Store)
    requires ListsStore(rs, kv) && EncodableStore(kv)
    ensures DecodeStore(SnapshotBytes(rs)) == Some(kv)
  {
    ListedRecordsEncodable(rs, kv);
    ParseSnapshotWritten(rs, []);
    assert SnapshotBytes(rs) + [] == SnapshotBytes(rs);
    ListsFirstWins(Entries(rs), kv);
  }

  // ---------------------------------------------------------------------------
  // A record that cannot be read
  // ---------------------------------------------------------------------------

  predicate KnownTag(tag: byte)
  {
    tag == TAG_SCALAR || tag == TAG_HASH || tag == TAG_LIST
  }

  /** The bytes of a record whose tag load does not know: the tag, then a key. */
  function UnknownRecordBytes(tag: byte, key: string): seq<byte>
  {
    [tag] + StringBytes(key)
  }

  /** A record with an unknown tag cannot be read, whatever follows it. */
  lemma UnknownRecordUnreadable(tag: byte, key: string, rest: seq<byte>)
    requires !KnownTag(tag) && Fits(key)
    ensures ReadRecord(UnknownRecordBytes(tag, key) + rest) == None
  {
    assert UnknownRecordBytes(tag, key) + rest == [tag] + (StringBytes(key) + rest);
    ReadStringWritten(key, rest);
  }

  /** One record read by the corrected loop, with `m` the count still to read. */
  lemma ReadRecordsStep(data: seq<byte>, n: nat, m: nat, r: Record, rest: seq<byte>)
    requires ReadRecord(data) == Some((r, rest)) && n > 0 && m == n - 1
    ensures ReadRecords(data, n) == Prepend([r], ReadRecords(rest, m))
  {
  }

  /** Well-formed records followed by a record with an unknown tag do not read, even in part,
      however many records the count still announces. */
  lemma {:induction false} ReadRecordsThenUnknown(rs: seq<Record>, tag: byte, key: string, rest: seq<byte>, n: nat)
    requires forall i :: 0 <= i < |rs| ==> Fits(rs[i].key) && EncodablePayload(rs[i].payload)
    requires !KnownTag(tag) && Fits(key) && |rs| < n
    ensures ReadRecords(RecordsBytes(rs) + (UnknownRecordBytes(tag, key) + rest), n) == None
    decreases |rs|
  {
    var tail := UnknownRecordBytes(tag, key) + rest;
    if rs != [] {
      var after := RecordsBytes(rs[1..]) + tail;
      var m: nat := n - 1;
      RecordsBytesCons(rs, tail);
      ReadRecordWritten(rs[0], after);
      ReadRecordsStep(RecordBytes(rs[0]) + after, n, m, rs[0], after);
      ReadRecordsThenUnknown(rs[1..], tag, key, rest, m);
    } else {
      assert RecordsBytes(rs) + tail == tail;
      UnknownRecordUnreadable(tag, key, rest);
    }
  }

  /** Well-formed records followed by the end of the file, when more records are announced, do not read. */
  lemma {:induction false} ReadRecordsThenEnd(rs: seq<Record>, n: nat)
    requires forall i :: 0 <= i < |rs| ==> Fits(rs[i].key) && EncodablePayload(rs[i].payload)
    requires |rs| < n
    ensures ReadRecords(RecordsBytes(rs), n) == None
    decreases |rs|
  {
    if rs != [] {
      var after := RecordsBytes(rs[1..]);
      var m: nat := n - 1;
      ReadRecordWritten(rs[0], after);
      ReadRecordsStep(RecordBytes(rs[0]) + after, n, m, rs[0], after);
      ReadRecordsThenEnd(rs[1..], m);
    }
  }

  /** load: a file that announces more records than it holds loads nothing, whatever records come first. */
  lemma TruncatedSnapshotRejected(rs: seq<Record>, n: nat)
    requires EncodableRecords(rs) && |rs| < n < U32_LIMIT
    ensures DecodeStore(U32Bytes(n) + RecordsBytes(rs)) == None
  {
    ReadU32Written(n, RecordsBytes(rs));
    ReadRecordsThenEnd(rs, n);
  }

  /** load: a record with an unknown tag makes the whole load fail, whatever records come before it
      and however many the count announces after it. */
  lemma UnknownTagAbortsLoad(rs: seq<Record>, n: nat, tag: byte, key: string, rest: seq<byte>)
    requires EncodableRecords(rs) && |rs| < n < U32_LIMIT
    requires !KnownTag(tag) && Fits(key)
    ensures DecodeStore(U32Bytes(n) + RecordsBytes(rs) + UnknownRecordBytes(tag, key) + rest) == None
  {
    var tail := UnknownRecordBytes(tag, key) + rest;
    Assoc(U32Bytes(n) + RecordsBytes(rs), UnknownRecordBytes(tag, key), rest);
    Assoc(U32Bytes(n), RecordsBytes(rs), tail);
    ReadU32Written(n, RecordsBytes(rs) + tail);
    ReadRecordsThenUnknown(rs, tag, key, rest, n);
  }

  /** The bytes after a record whose tag is unknown and whose key reads; None for any other record. */
  function SkipUnknownRecord(data: seq<byte>): Option<seq<byte>>
  {
    match ReadU8(data)
    case None => None
    case Some((tag, rest)) =>
      if KnownTag(tag) then None
      else
        match ReadString(rest)
        case None => None
        case Some((_, rest')) => Some(rest')
  }

  /** load, as the source has it: an unknown tag (read together with the key after it) ends the
      record loop early, and the records read so far are kept. */
  function ReadRecordsAsWritten(data: seq<byte>, n: nat): Option<(seq<Record>, seq<byte>)>
    decreases n
  {
    if n == 0 then Some(([], data))
    else
      match SkipUnknownRecord(data)
      case Some(rest) => Some(([], rest))
      case None =>
        match ReadRecord(data)
        case None => None
        case Some((r, rest)) => Prepend([r], ReadRecordsAsWritten(rest, n - 1))
  }

  /** The store the source's load installs. */
  function DecodeStoreAsWritten(data: seq<byte>): Option<Store>
  {
    match ReadU32(data)
    case None => None
    case Some((n, rest)) =>
      match ReadRecordsAsWritten(rest, n)
      case None => None
      case Some((rs, _)) => Some(FirstWins(Entries(rs)))
  }

  /** A well-formed record is not one the source's loop skips. */
  lemma SkipWritten(r: Record, after: seq<byte>)
    requires Fits(r.key) && EncodablePayload(r.payload)
    ensures SkipUnknownRecord(RecordBytes(r) + after) == None
  {
    ReadRecordWritten(r, after);
  }

  /** One record read by the source's loop, with `m` the count still to read. */
  lemma ReadRecordsAsWrittenStep(data: seq<byte>, n: nat, m: nat, r: Record, rest: seq<byte>)
    requires SkipUnknownRecord(data) == None && ReadRecord(data) == Some((r, rest)) && n > 0 && m == n - 1
    ensures ReadRecordsAsWritten(data, n) == Prepend([r], ReadRecordsAsWritten(rest, m))
  {
  }

  /** A well-formed record is not skipped: the source's loop reads it like any other,
      with `m` the count still to read. */
  lemma ReadRecordsAsWrittenCons(r: Record, after: seq<byte>, n: nat, m: nat)
    requires Fits(r.key) && EncodablePayload(r.payload) && n > 0 && m == n - 1
    ensures ReadRecordsAsWritten(RecordBytes(r) + after, n) == Prepend([r], ReadRecordsAsWritten(after, m))
  {
    ReadRecordWritten(r, after);
    SkipWritten(r, after);
    ReadRecordsAsWrittenStep(RecordBytes(r) + after, n, m, r, after);
  }

  /** A record with an unknown tag ends the source's loop, whatever count is left. */
  lemma ReadRecordsAsWrittenUnknown(tag: byte, key: string, rest: seq<byte>, n: nat)
    requires !KnownTag(tag) && Fits(key) && n > 0
    ensures ReadRecordsAsWritten(UnknownRecordBytes(tag, key) + rest, n) == Some(([], rest))
  {
    Assoc([tag], StringBytes(key), rest);
    ReadU8Written(tag, StringBytes(key) + rest);
    ReadStringWritten(key, rest);
  }

  /** The source's loop reads well-formed records up to one with an unknown tag and stops there,
      returning them with the bytes after that record unread, however many records the count still announces. */
  lemma {:induction false} ReadRecordsAsWrittenStops(rs: seq<Record>, tag: byte, key: string, rest: seq<byte>, n: nat)
    requires forall i :: 0 <= i < |rs| ==> Fits(rs[i].key) && EncodablePayload(rs[i].payload)
    requires !KnownTag(tag) && Fits(key) && |rs| < n
    ensures ReadRecordsAsWritten(RecordsBytes(rs) + (UnknownRecordBytes(tag, key) + rest), n) == Some((rs, rest))
    decreases |rs|
  {
    var tail := UnknownRecordBytes(tag, key) + rest;
    if rs != [] {
      var after := RecordsBytes(rs[1..]) + tail;
      var m: nat := n - 1;
      RecordsBytesCons(rs, tail);
      ReadRecordsAsWrittenCons(rs[0], after, n, m);
      ReadRecordsAsWrittenStops(rs[1..], tag, key, rest, m);
      assert [rs[0]] + rs[1..] == rs;
    } else {
      assert RecordsBytes(rs) + tail == tail;
      ReadRecordsAsWrittenUnknown(tag, key, rest, n);
    }
  }

  /** The discrepancy: after well-formed records, a record with an unknown tag makes the source's
      load install the records before it, where the intended load fails and installs nothing. */
  lemma UnknownTagInstallsPrefix(rs: seq<Record>, n: nat, tag: byte, key: string, rest: seq<byte>)
    requires EncodableRecords(rs) && |rs| < n < U32_LIMIT
    requires !KnownTag(tag) && Fits(key)
    ensures DecodeStoreAsWritten(U32Bytes(n) + RecordsBytes(rs) + UnknownRecordBytes(tag, key) + rest) == Some(FirstWins(Entries(rs)))
    ensures DecodeStore(U32Bytes(n) + RecordsBytes(rs) + UnknownRecordBytes(tag, key) + rest) == None
  {
    var tail := UnknownRecordBytes(tag, key) + rest;
    Assoc(U32Bytes(n) + RecordsBytes(rs), UnknownRecordBytes(tag, key), rest);
    Assoc(U32Bytes(n), RecordsBytes(rs), tail);
    ReadU32Written(n, RecordsBytes(rs) + tail);
    ReadRecordsAsWrittenStops(rs, tag, key, rest, n);
    UnknownTagAbortsLoad(rs, n, tag, key, rest);
  }
}
