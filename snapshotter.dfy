/**
  Saving and loading the store. `save` walks the store with the visitor and
  writes one record per key; `load` reads the record count, then loops over
  the records (and over each hash's fields and each list's items), building a
  fresh map that replaces the store only once the whole file has been read.
  The file is the byte sequence written or read; opening it, the forked
  writer process and its exit status are not modelled.
 */
module Snapshotter {
  import opened Wrappers
  import opened StorageEngine
  import opened SnapshotFormat

  /** The snapshot formats a caller can ask for; only CUSTOM is implemented. */
  datatype Format = Custom | Csv | Json

  lemma TakeOneMore<T>(s: seq<T>, i: nat)
    requires i < |s|
    ensures s[..i + 1] == s[..i] + [s[i]]
  {
  }

  // ---------------------------------------------------------------------------
  // Writing
  // ---------------------------------------------------------------------------

  /** The encoding of a complete listing of an encodable hash reads back as that hash. */
  lemma FieldsRoundTrip(fields: seq<(string, string)>, m: map<string, string>, bytes: seq<byte>)
    requires Lists(fields, m) && EncodableValue(Hash(m)) && bytes == FieldsBytes(fields)
    ensures ReadFields(bytes, |m|).Some? && ReadFields(bytes, |m|).value.1 == [] && FirstWins(ReadFields(bytes, |m|).value.0) == m
  {
    assert bytes + [] == bytes;
    ReadFieldsWritten(fields, [], |fields|);
    ListsFirstWins(fields, m);
  }

  /** The bytes written for a hash's fields, walking the hash map in some order. */
  method WriteFields(m: map<string, string>) returns (bytes: seq<byte>, ghost fields: seq<(string, string)>)
    ensures Lists(fields, m)
    ensures bytes == FieldsBytes(fields)
    ensures EncodableValue(Hash(m)) ==>
      ReadFields(bytes, |m|).Some? && ReadFields(bytes, |m|).value.1 == [] && FirstWins(ReadFields(bytes, |m|).value.0) == m
  {
    bytes := [];
    fields := [];
    var rest := m.Keys;
    assert |m.Keys| == |m|;
    while rest != {}
      invariant ListsExcept(fields, m, rest)
      invariant bytes == FieldsBytes(fields)
      decreases rest
    {
      var f :| f in rest;
      ListsExceptStep(fields, m, rest, f);
      FieldsBytesAppend(fields, (f, m[f]));
      bytes := bytes + StringBytes(f) + StringBytes(m[f]);
      fields := fields + [(f, m[f])];
      rest := rest - {f};
    }
    ListsExceptDone(fields, m);
    if EncodableValue(Hash(m)) {
      FieldsRoundTrip(fields, m, bytes);
    }
  }

  /** The bytes written for a list's items, in list order. */
  method WriteItems(items: seq<string>) returns (bytes: seq<byte>)
    ensures bytes == ItemsBytes(items)
    ensures (forall i :: 0 <= i < |items| ==> Fits(items[i])) ==> ReadItems(bytes, |items|) == Some((items, []))
  {
    bytes := [];
    var i := 0;
    while i < |items|
      invariant 0 <= i <= |items|
      invariant bytes == ItemsBytes(items[..i])
    {
      ItemsBytesAppend(items[..i], items[i]);
      assert items[..i + 1] == items[..i] + [items[i]];
      bytes := bytes + StringBytes(items[i]);
      i := i + 1;
    }
    assert items[..i] == items;
    if forall i :: 0 <= i < |items| ==> Fits(items[i]) {
      assert bytes + [] == bytes;
      ReadItemsWritten(items, [], |items|);
    }
  }

  /** The encoding of a record that fits the format reads back as that record, with nothing left over. */
  lemma RecordRoundTrip(rec: Record, bytes: seq<byte>)
    requires Fits(rec.key) && EncodablePayload(rec.payload) && bytes == RecordBytes(rec)
    ensures ReadRecord(bytes) == Some((rec, []))
  {
    assert bytes + [] == bytes;
    ReadRecordWritten(rec, []);
  }

  /** Every record fits the format. */
  predicate AllFit(rs: seq<Record>)
  {
    forall j :: 0 <= j < |rs| ==> Fits(rs[j].key) && EncodablePayload(rs[j].payload)
  }

  lemma AllFitAppend(rs: seq<Record>, r: Record)
    requires AllFit(rs) && Fits(r.key) && EncodablePayload(r.payload)
    ensures AllFit(rs + [r])
  {
  }

  /** The encoding of records that fit the format reads back as those records, with nothing left over. */
  lemma RecordsRoundTrip(records: seq<Record>, bytes: seq<byte>)
    requires AllFit(records)
    requires bytes == RecordsBytes(records)
    ensures ReadRecords(bytes, |records|) == Some((records, []))
  {
    assert bytes + [] == bytes;
    ReadRecordsWritten(records, []);
  }

  /** A listing of an encodable hash is an encodable hash payload. */
  lemma ListedHashEncodable(fields: seq<(string, string)>, m: map<string, string>)
    requires Lists(fields, m) && EncodableValue(Hash(m))
    ensures EncodablePayload(HashPayload(fields))
  {
  }

  /** The bytes the save visitor writes for one key, and the record they encode
      (a hash's fields in the order the hash map was walked). */
  method WriteRecord(key: string, value: Value) returns (bytes: seq<byte>, ghost rec: Record)
    ensures rec.key == key && ValueOf(rec.payload) == value
    ensures rec.payload.HashPayload? ==> DistinctKeys(rec.payload.fields)
    ensures bytes == RecordBytes(rec)
    ensures Fits(key) && EncodableValue(value) ==> EncodablePayload(rec.payload)
    ensures Fits(key) && EncodableValue(value) ==>
      ReadRecord(bytes).Some? && ReadRecord(bytes).value.1 == [] &&
      ReadRecord(bytes).value.0.key == key && ValueOf(ReadRecord(bytes).value.0.payload) == value
  {
    match value {
    case Hash(m) =>
      var body, fields := WriteFields(m);
      ListsFirstWins(fields, m);
      if EncodableValue(value) {
        ListedHashEncodable(fields, m);
      }
      rec := Record(key, HashPayload(fields));
      bytes := [TAG_HASH] + StringBytes(key) + (U32Bytes(|m|) + body);
    case Scalar(s) =>
      rec := Record(key, ScalarPayload(s));
      bytes := [TAG_SCALAR] + StringBytes(key) + StringBytes(s);
    case List(items) =>
      var body := WriteItems(items);
      rec := Record(key, ListPayload(items));
      bytes := [TAG_LIST] + StringBytes(key) + (U32Bytes(|items|) + body);
    }
    if Fits(key) && EncodableValue(value) {
      RecordRoundTrip(rec, bytes);
    }
  }

  /** What the save visitor writes, key after key, for the pairs it is handed. */
  method WriteRecords(visits: seq<(string, Value)>) returns (bytes: seq<byte>, ghost records: seq<Record>)
    ensures Entries(records) == visits && DistinctHashes(records)
    ensures bytes == RecordsBytes(records)
    ensures (forall i :: 0 <= i < |visits| ==> Fits(visits[i].0) && EncodableValue(visits[i].1)) ==>
      ReadRecords(bytes, |visits|).Some? && ReadRecords(bytes, |visits|).value.1 == [] &&
      Entries(ReadRecords(bytes, |visits|).value.0) == visits
  {
    bytes := [];
    records := [];
    ghost var encodable := forall i :: 0 <= i < |visits| ==> Fits(visits[i].0) && EncodableValue(visits[i].1);
    var i := 0;
    while i < |visits|
      invariant 0 <= i <= |visits|
      invariant Entries(records) == visits[..i]
      invariant DistinctHashes(records)
      invariant bytes == RecordsBytes(records)
      invariant encodable ==> AllFit(records)
    {
      var recordBytes, rec := WriteRecord(visits[i].0, visits[i].1);
      if encodable {
        AllFitAppend(records, rec);
      }
      RecordsBytesAppend(records, rec);
      EntriesAppend(records, rec);
      TakeOneMore(visits, i);
      bytes := bytes + recordBytes;
      records := records + [rec];
      i := i + 1;
    }
    assert visits[..i] == visits;
    if encodable {
      RecordsRoundTrip(records, bytes);
    }
  }

  // ---------------------------------------------------------------------------
  // Reading
  // ---------------------------------------------------------------------------

  /** The list loop of load: `n` items read one after another. */
  method ReadListLoop(data: seq<byte>, n: nat) returns (r: Option<(seq<string>, seq<byte>)>)
    ensures r == ReadItems(data, n)
  {
    var list: seq<string> := [];
    var stream := data;
    var i := 0;
    PrependNil(ReadItems(data, n));
    while i < n
      invariant 0 <= i <= n
      invariant ReadItems(data, n) == Prepend(list, ReadItems(stream, n - i))
    {
      var item := ReadString(stream);
      if item.None? {
        return None;
      }
      PrependPrepend(list, [item.value.0], ReadItems(item.value.1, n - i - 1));
      list := list + [item.value.0];
      stream := item.value.1;
      i := i + 1;
    }
    assert list + [] == list;
    r := Some((list, stream));
  }

  /** The hash loop of load: `n` field/value pairs, each emplaced into a fresh map. */
  method ReadHashLoop(data: seq<byte>, n: nat) returns (r: Option<(map<string, string>, seq<byte>)>, ghost fields: seq<(string, string)>)
    ensures r.None? <==> ReadFields(data, n).None?
    ensures r.Some? ==> ReadFields(data, n) == Some((fields, r.value.1)) && r.value.0 == FirstWins(fields)
  {
    var hashmap: map<string, string> := map[];
    fields := [];
    var stream := data;
    var i := 0;
    ghost var left := n;
    ghost var all := ReadFields(data, n);
    PrependNil(all);
    while i < n
      invariant 0 <= i <= n && left == n - i
      invariant all == Prepend(fields, ReadFields(stream, left))
      invariant hashmap == FirstWins(fields)
    {
      var field := ReadString(stream);
      if field.None? {
        return None, fields;
      }
      var value := ReadString(field.value.1);
      if value.None? {
        return None, fields;
      }
      var f, v := field.value.0, value.value.0;
      FirstWinsAppend(fields, (f, v));
      if f !in hashmap {
        hashmap := hashmap[f := v];
      }
      ghost var before, from, was := fields, stream, left;
      fields := fields + [(f, v)];
      stream := value.value.1;
      left := left - 1;
      i := i + 1;
      ReadFieldsNext(all, before, from, was, f, field.value.1, v, fields, stream, left);
    }
    assert fields + [] == fields;
    r := Some((hashmap, stream));
  }

  /** The payload a tag announces, as load builds it in memory. */
  method ReadPayloadStep(tag: byte, data: seq<byte>) returns (r: Option<(Value, seq<byte>)>, ghost p: Payload)
    ensures r.None? <==> ReadPayload(tag, data).None?
    ensures r.Some? ==> ReadPayload(tag, data) == Some((p, r.value.1)) && r.value.0 == ValueOf(p)
  {
    p := ScalarPayload([]);
    if tag == TAG_SCALAR {
      var s := ReadString(data);
      if s.None? {
        return None, p;
      }
      p := ScalarPayload(s.value.0);
      r := Some((Scalar(s.value.0), s.value.1));
    } else if tag == TAG_HASH {
      var count := ReadU32(data);
      if count.None? {
        return None, p;
      }
      var hash, fields := ReadHashLoop(count.value.1, count.value.0);
      if hash.None? {
        return None, p;
      }
      p := HashPayload(fields);
      r := Some((Hash(hash.value.0), hash.value.1));
    } else if tag == TAG_LIST {
      var count := ReadU32(data);
      if count.None? {
        return None, p;
      }
      var list := ReadListLoop(count.value.1, count.value.0);
      if list.None? {
        return None, p;
      }
      p := ListPayload(list.value.0);
      r := Some((List(list.value.0), list.value.1));
    } else {
      r := None;
    }
  }

  /** One turn of load's record loop: the tag, the key, then the payload the tag announces. */
  method ReadRecordStep(data: seq<byte>) returns (r: Option<(string, Value, seq<byte>)>, ghost rec: Record)
    ensures r.None? <==> ReadRecord(data).None?
    ensures r.Some? ==> ReadRecord(data) == Some((rec, r.value.2)) && r.value.0 == rec.key && r.value.1 == ValueOf(rec.payload)
  {
    rec := Record([], ScalarPayload([]));
    var tag := ReadU8(data);
    if tag.None? {
      return None, rec;
    }
    var key := ReadString(tag.value.1);
    if key.None? {
      return None, rec;
    }
    var payload, p := ReadPayloadStep(tag.value.0, key.value.1);
    if payload.None? {
      return None, rec;
    }
    rec := Record(key.value.0, p);
    r := Some((key.value.0, payload.value.0, payload.value.1));
  }

  /** The record loop of load: `n` records, each emplaced into a fresh store. */
  method ReadStoreLoop(data: seq<byte>, n: nat) returns (r: Option<Store>, ghost records: seq<Record>)
    ensures r.None? <==> ReadRecords(data, n).None?
    ensures r.Some? ==> ReadRecords(data, n).value.0 == records && r.value == FirstWins(Entries(records))
  {
    var store: Store := map[];
    records := [];
    var stream := data;
    var i := 0;
    ghost var left := n;
    ghost var all := ReadRecords(data, n);
    PrependNil(all);
    while i < n
      invariant 0 <= i <= n && left == n - i
      invariant all == Prepend(records, ReadRecords(stream, left))
      invariant store == FirstWins(Entries(records))
    {
      var entry, rec := ReadRecordStep(stream);
      if entry.None? {
        assert ReadRecords(stream, left) == None;
        return None, records;
      }
      var k, v, rest := entry.value.0, entry.value.1, entry.value.2;
      StoreAppend(records, rec);
      if k !in store {
        store := store[k := v];
      }
      ghost var before, from, was := records, stream, left;
      records := records + [rec];
      stream := rest;
      left := left - 1;
      i := i + 1;
      ReadRecordsNext(all, before, from, was, rec, records, stream, left);
    }
    assert records + [] == records;
    r := Some(store);
  }

  /** The decoding part of load: the store a file describes, or None if it is short or malformed. */
  method Decode(file: seq<byte>) returns (r: Option<Store>)
    ensures r == DecodeStore(file)
  {
    var header := ReadU32(file);
    if header.None? {
      return None;
    }
    var store, records := ReadStoreLoop(header.value.1, header.value.0);
    r := store;
  }

  // ---------------------------------------------------------------------------
  // The snapshotter object
  // ---------------------------------------------------------------------------

  class Snapshotter {
    const storage: Storage

    constructor(storage: Storage)
      ensures this.storage == storage
    {
      this.storage := storage;
    }

    /** save: for CUSTOM, the file written is the record count (the store's size) followed by one
        record per key, in the order the visitor walked the store; any other format fails.
        The store itself is only read. */
    method Save(format: Format) returns (ok: bool, file: seq<byte>, ghost records: seq<Record>)
      ensures ok == (format == Custom)
      ensures !ok ==> file == []
      ensures ok ==> ListsStore(records, storage.kv) && file == SnapshotBytes(records)
      ensures ok && EncodableStore(storage.kv) ==> DecodeStore(file) == Some(storage.kv)
    {
      records := [];
      if format != Custom {
        return false, [], records;
      }
      var visits := storage.VisitAll();
      var body;
      body, records := WriteRecords(visits);
      file := U32Bytes(|storage.kv|) + body;
      ok := true;
      if EncodableStore(storage.kv) {
        SaveLoadRoundTrip(records, storage.kv);
      }
    }

    /** load: for CUSTOM, a file that reads completely replaces the whole store; a short or
        malformed file, or any other format, fails and leaves the store as it was. */
    method Load(file: seq<byte>, format: Format) returns (ok: bool)
      modifies storage
      ensures ok == (format == Custom && DecodeStore(file).Some?)
      ensures ok ==> storage.kv == DecodeStore(file).value
      ensures !ok ==> storage.kv == old(storage.kv)
    {
      if format != Custom {
        return false;
      }
      var decoded := Decode(file);
      if decoded.None? {
        return false;
      }
      storage.SetKVStore(decoded.value);
      ok := true;
    }
  }
}
