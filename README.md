# cpp_redis core in Dafny

A model of the core of cpp_redis, a small Redis-like key-value server written in C++, with proofs
about it. The model covers five parts of the server:

- **Storage engine** (`storage.dfy`, module `StorageEngine`). The store maps keys to values. A value
  is a scalar string, a list of strings or a hash of string fields. The `Storage` class holds the
  map as a field. Its methods `Set`, `Get`, `Del`, `VisitAll`, `SetPairs` and `SetKVStore` update
  that field or report on it. Each method is specified by a pure function on the map. Repeated
  keys follow `emplace`: the first occurrence wins, as `FirstWins` defines.
- **Snapshot format** (`snapshot_format.dfy`, module `SnapshotFormat`). This is the binary file
  layout. A file holds a little-endian u32 record count, then one record per key. A record is a
  tag byte, the key and a payload; strings carry a u32 length prefix. Writers are pure functions
  to bytes. Readers take the unread bytes and return the value and the bytes after it, or None on
  a short read. `DecodeStore` is the store a load installs.
- **Snapshotter** (`snapshotter.dfy`, module `Snapshotter`). These are the imperative save and
  load loops, each proved against the format functions. `Snapshotter.Save` and
  `Snapshotter.Load` select the custom format and install the decoded store.
- **Parser and command handler** (`parser.dfy`, `command_handler.dfy`). A line is split into
  words at whitespace and the command name is upper-cased. `SET`, `GET` and `DEL` are dispatched
  against the store, and every reply is one newline-terminated line.
- **Server** (`server.dfy`, module `Server`). The `DatabaseServer` class holds the connection
  table: descriptors map to read and write buffers, at most `USER_AMOUNT` of them. It accepts
  connections, drains write buffers after `send`, and frames received bytes into lines that it
  answers in order. What `recv` delivered and what `send` reported are parameters.

`wrappers.dfy` holds the `Option` type and one sequence lemma.

## Model

| member | source | states |
|---|---|---|
| StorageEngine.FirstWinsSpec | src/storage.cpp:36-38 | The map built by emplacing a sequence of pairs has exactly the listed keys, and each key holds the value of its first occurrence. |
| StorageEngine.ListsFirstWins | src/storage.cpp:23-27 | Emplacing the pairs of any complete visit of a map, with each key once and its value, rebuilds exactly that map, whatever the visiting order. |
| StorageEngine.DistinctListsFirstWins | src/snapshotter.cpp:159-168 | A listing without repeated keys is a complete visit of the map that emplacing it builds. |
| StorageEngine.SetKey | src/storage.cpp:3-7 | After `set`, the key exists and reads back as the new scalar. Every other key keeps its value, and no other key appears. |
| StorageEngine.GetKey | src/storage.cpp:9-16 | `get` answers exactly when the key holds a scalar, and the answer is that scalar's text. |
| StorageEngine.DelKey | src/storage.cpp:18-21 | After `del`, the key is gone and `get` finds nothing. Every remaining key keeps its value. |
| StorageEngine.SetPairsKey | src/storage.cpp:29-39 | After `setPairs`, a key is present if and only if it occurs at an even position that has a following word. |
| StorageEngine.SetPairsFirstWins | src/storage.cpp:36-38 | The first even-position occurrence of a key decides its value: the word after it, as a scalar. |
| StorageEngine.SetPairsShort | src/storage.cpp:30-34 | Fewer than two words leave the store empty. |
| StorageEngine.Storage.constructor | include/storage.hpp:18 | A new store is empty. |
| StorageEngine.Storage.Set | src/storage.cpp:3-7 | The new map is `SetKey` of the old one. |
| StorageEngine.Storage.Get | src/storage.cpp:9-16 | The result is `GetKey` of the map, and the map is unchanged. |
| StorageEngine.Storage.Del | src/storage.cpp:18-21 | The method reports whether the key existed, and the new map is `DelKey` of the old one. |
| StorageEngine.Storage.VisitAll | src/storage.cpp:23-27 | The visit lists every key exactly once with its value, in some order. |
| StorageEngine.Storage.SetPairs | src/storage.cpp:29-39 | The loop over pairs, which clears the store first, leaves the map built by emplacing (even word, next word) pairs in order. |
| StorageEngine.Storage.SetKVStore | include/storage.hpp:42-43 | The store is replaced wholesale by the given map. |
| SnapshotFormat.U32RoundTrip | src/snapshotter.cpp:29-36 | Reading back four written bytes gives the number modulo 2^32. |
| SnapshotFormat.U32Canonical | src/snapshotter.cpp:34-36 | Any four bytes are the encoding of the number they are read as, so the encoding is a bijection. |
| SnapshotFormat.CharsRoundTrip | src/snapshotter.cpp:38-53 | The raw bytes of a string whose chars are all below 256 read back as that string. |
| SnapshotFormat.ReadU8 | src/snapshotter.cpp:25-27 | `read_uint8` succeeds exactly when a byte remains, and it consumes one byte. |
| SnapshotFormat.ReadU32 | src/snapshotter.cpp:34-36 | `read_uint32` succeeds exactly when four bytes remain. It yields a 32-bit number and consumes four bytes. |
| SnapshotFormat.ReadString | src/snapshotter.cpp:46-53 | A successful `read_string` consumes the four-byte length and then exactly as many bytes as the string it returns. |
| SnapshotFormat.ReadStringSpec | src/snapshotter.cpp:46-53 | `read_string` succeeds exactly when the four-byte length reads and at least that many bytes follow it. The string read has the declared length, and reading resumes right after it. |
| SnapshotFormat.ReadU8Written | src/snapshotter.cpp:20-27 | `read_uint8` after `write_uint8` gives the byte back and consumes exactly one byte. |
| SnapshotFormat.ReadU32Written | src/snapshotter.cpp:29-36 | `read_uint32` after `write_uint32` gives the number back and consumes exactly four bytes. |
| SnapshotFormat.ReadStringWritten | src/snapshotter.cpp:38-53 | `read_string` after `write_string` gives the string back and consumes exactly its length plus four bytes, whatever follows. |
| SnapshotFormat.ReadRecordWritten | src/snapshotter.cpp:78-99 | Any record the writer emits, with a scalar, hash or list payload, reads back as the same record followed by the untouched rest. |
| SnapshotFormat.ReadRecordsWritten | src/snapshotter.cpp:134-190 | A run of written records reads back as exactly those records, whatever bytes follow. |
| SnapshotFormat.ParseSnapshotWritten | src/snapshotter.cpp:104-106 | A file that starts with the count and the records of `rs` parses to exactly `rs`, and trailing bytes are never read. |
| SnapshotFormat.ListedRecordsEncodable | src/snapshotter.cpp:78-99 | Every record in a snapshot of an encodable store fits the format. |
| SnapshotFormat.SaveLoadRoundTrip | src/snapshotter.cpp:55-193 | Load after save gives back the saved store, whatever order the keys and hash fields were visited in. That means the same keys, the same variant per key, the same list order and the same hash contents. |
| SnapshotFormat.UnknownRecordUnreadable | src/snapshotter.cpp:186-189 | A record whose tag is not scalar, hash or list does not read, whatever follows it. |
| SnapshotFormat.TruncatedSnapshotRejected | src/snapshotter.cpp:125-144 | A file that announces more records than it holds loads nothing, whatever well-formed records it does hold. |
| SnapshotFormat.UnknownTagAbortsLoad | src/snapshotter.cpp:186-192 | Corrected load: a record with an unknown tag makes the whole load fail, whatever valid records precede it and however many records the count announces after it. |
| SnapshotFormat.UnknownTagInstallsPrefix | src/snapshotter.cpp:186-192 | Load as written: an unknown tag ends the loop early, even when the count announces more records after it. The valid records before it are installed and every byte after it is ignored, where the corrected load fails. |
| Snapshotter.WriteFields | src/snapshotter.cpp:83-87 | The hash loop visits every field once with its value and writes the field/value string pairs in that order. For an encodable hash, reading the hash's field count of entries back rebuilds the hash, with no bytes left over. |
| Snapshotter.WriteItems | src/snapshotter.cpp:97-99 | The list loop writes every item in list order. When every item fits, reading the item count of strings back gives the list, with no bytes left over. |
| Snapshotter.WriteRecord | src/snapshotter.cpp:78-99 | The visitor writes the tag, the key and the payload of one record. When the key and value fit the format, reading those bytes back gives the same key and value, with no bytes left over. |
| Snapshotter.WriteRecords | src/snapshotter.cpp:104-106 | One record is written per visited pair, in visiting order. When all pairs fit the format, reading the records back gives exactly the visited pairs, with no bytes left over. |
| Snapshotter.ReadListLoop | src/snapshotter.cpp:170-185 | The item loop reads exactly what `ReadItems` specifies, and fails exactly when it does. |
| Snapshotter.ReadHashLoop | src/snapshotter.cpp:154-169 | The field loop fails exactly when the field listing is short. Otherwise it yields the map built by emplacing the fields read. |
| Snapshotter.ReadPayloadStep | src/snapshotter.cpp:146-189 | Dispatching on the tag reads the payload the format specifies and yields the value it stands for, or fails exactly when the format read fails. |
| Snapshotter.ReadRecordStep | src/snapshotter.cpp:135-189 | One iteration reads the tag, the key and the payload, or fails exactly when `ReadRecord` fails. |
| Snapshotter.ReadStoreLoop | src/snapshotter.cpp:134-190 | The record loop fails exactly when the records do not read. Otherwise it yields the store built by emplacing them. |
| Snapshotter.Decode | src/snapshotter.cpp:125-192 | Reading the count and then the record loop computes exactly `DecodeStore` of the file. |
| Snapshotter.Snapshotter.constructor | src/snapshotter.cpp:17-18 | The snapshotter shares the given store. |
| Snapshotter.Snapshotter.Save | src/snapshotter.cpp:55-112 | Only the custom format saves, and the store is not changed. The file is the size of the store followed by one record per key, in visiting order. For an encodable store, the file decodes to exactly the store. |
| Snapshotter.Snapshotter.Load | src/snapshotter.cpp:114-193 | Load succeeds exactly for the custom format and a file that decodes. On success the store becomes the decoded store; on failure it is unchanged. |
| Parser.Parse | src/parser.cpp:6-25 | The tokens of the line, with the command name upper-cased by a loop over its chars, are exactly `ParseLine`. |
| Parser.Upper | src/parser.cpp:17-20 | Upper-casing keeps the length of the name. |
| Parser.TokensAreWords | src/parser.cpp:7-10 | Every token is non-empty and free of whitespace. |
| Parser.NoTokensIffBlank | src/parser.cpp:7-14 | A line has no tokens if and only if it is all whitespace. |
| Parser.TokensKeepEverythingElse | src/parser.cpp:7-10 | Splitting drops whitespace and nothing else: the tokens joined are the line's non-space chars, in order. |
| Parser.TokensOfUnwords | src/parser.cpp:7-10 | Joining words with single spaces and splitting again gives the words back. |
| Parser.UpperIdempotent | src/parser.cpp:17-20 | Upper-casing twice is upper-casing once. |
| Parser.ParsedAreWords | src/parser.cpp:6-25 | A parsed command's name and arguments are all words. |
| Parser.ParseNoneIffBlank | src/parser.cpp:12-14 | Parsing fails if and only if the line is blank. |
| Parser.ReparseSame | src/parser.cpp:6-25 | Printing a parsed command back as words and parsing again gives the same command. |
| Parser.UpperNameReparse | src/parser.cpp:17-20 | The case of the command word does not matter: an upper-cased name parses like the original. |
| CommandHandler.Dispatch | src/command_handler.cpp:5-35 | Every reply ends in a newline. Only SET with two arguments and DEL with one change the store, and only at the first argument. |
| CommandHandler.CommandHandler.constructor | src/command_handler.cpp:3 | The handler shares the given store. |
| CommandHandler.CommandHandler.Handle | src/command_handler.cpp:5-35 | The reply and the new store are those of `Dispatch` on the old store. |
| CommandHandler.SetThenGet | src/command_handler.cpp:8-25 | SET replies OK, and a GET of the same key then returns the value set. |
| CommandHandler.WrongArityRejected | src/command_handler.cpp:9-28 | A known command with the wrong number of arguments gets its arity error and leaves the store alone. |
| CommandHandler.GetAnswers | src/command_handler.cpp:15-25 | GET changes nothing. It answers a scalar's text, and otherwise the missing reply. |
| CommandHandler.DelAnswers | src/command_handler.cpp:26-31 | DEL replies 1 or 0 according to whether the key existed, and removes it. |
| CommandHandler.UnknownRejected | src/command_handler.cpp:32-34 | Any other command name gets the unknown-command reply and leaves the store alone. |
| CommandHandler.ArityErrorOneLine | src/command_handler.cpp:9-28 | Every arity error is a single line. |
| CommandHandler.RepliesAreOneLine | src/command_handler.cpp:5-35 | When no stored scalar contains a newline, every reply is exactly one line. |
| CommandHandler.ParsedCommandsKeepLineSafe | src/command_handler.cpp:8-14 | Commands that come from the parser never store a scalar containing a newline. |
| Server.FindNewlineFirst | src/server.cpp:248-251 | The position found is the first newline, and no newline means none in the buffer. |
| Server.FindNewline | src/server.cpp:248-251 | A position found holds a newline inside the buffer. |
| Server.FrameConserves | src/server.cpp:247-254 | The framed lines, each with its newline restored, followed by the leftover buffer, are the original bytes. |
| Server.FrameSplitsAtNewlines | src/server.cpp:247-254 | No framed line and no leftover holds a newline. |
| Server.FrameUnlines | src/server.cpp:247-254 | Framing newline-terminated lines followed by a partial line gives back exactly those lines and that partial line. |
| Server.FrameSplit | src/server.cpp:245-254 | Framing `x + y` is framing `x`, then framing its leftover with `y` appended. |
| Server.AnswerSkipsOrRejects | src/server.cpp:256-266 | An empty line adds nothing. A blank line gets the invalid-command error. Any other line parses and is dispatched. |
| Server.AnswerOneLine | src/server.cpp:256-269 | Every non-empty line adds exactly one reply line and keeps the store free of multi-line scalars. |
| Server.OneReplyPerLine | src/server.cpp:247-275 | The output for a batch of lines holds exactly one newline per non-empty line. |
| Server.AnswerAllSplit | src/server.cpp:247-275 | Answering `a + b` is answering `a`, then `b` from the store `a` left. |
| Server.ChunkingIrrelevant | src/server.cpp:223-276 | Two reads leave the same buffers and store as one read of their concatenation. |
| Server.Unsent | src/server.cpp:207-211 | After `n` bytes are sent, the write buffer keeps exactly the rest: the sent bytes followed by it are the old buffer, and it is empty once everything is sent. |
| Server.DatabaseServer.constructor | src/server.cpp:55-58 | A new server has no connections, and its handler owns a new empty store. |
| Server.DatabaseServer.ConnAdd | src/server.cpp:26-39 | A descriptor below 1 or a full table is refused with -1 and no change. Otherwise an absent descriptor gets empty buffers, a present one is kept, and 0 is returned. The table stays within capacity. |
| Server.DatabaseServer.ConnDelete | src/server.cpp:42-53 | The descriptor leaves the table. The result is 0 if it was there with a valid descriptor, else -1. |
| Server.DatabaseServer.Accept | src/server.cpp:159-172 | An added connection gets the welcome message in its write buffer. A failed registration removes it again, and a refused one changes nothing. |
| Server.DatabaseServer.HandleClientWrite | src/server.cpp:185-221 | Unknown descriptors and would-block sends change nothing. A failed send deletes the connection. Otherwise the sent prefix leaves the write buffer. When that empties the buffer and disabling write interest fails, the connection is deleted. |
| Server.DatabaseServer.HandleClientRead | src/server.cpp:223-276 | An empty read deletes the connection. Otherwise the buffers and store become those of `Serve`: the bytes are appended, complete lines are cut off in order and answered, and the partial line stays. |
| Server.DatabaseServer.AnswerLine | src/server.cpp:256-269 | One framed line's reply and store effect are those of `Answer`. |

## Left out

- The event loop (`run`), kqueue and `kevent` are not modelled. Two results of `kevent` calls are parameters instead. Registration in accept (src/server.cpp:165-168) is `registered`, and a failure deletes the connection. Disabling write interest once the write buffer is empty (src/server.cpp:213-220) is `disabled` in `HandleClientWrite`, and a failure also deletes the connection.
- Server.DatabaseServer.HandleClientRead: when re-enabling write interest fails (src/server.cpp:270-274), the source returns right after appending that line's reply. Complete lines still in the read buffer then wait for the next read. The model answers every complete line, as if enabling always succeeds.
- Sockets are out of scope: `accept`, `recv` and `send` become parameters. The 1024-byte bound on one `recv` is not modelled.
- On `send`, `EAGAIN` is the `WouldBlock` case. On `recv`, an empty result is taken as a closed or failed connection; a would-block read is not distinguished from it.
- The result of `close` is taken as success. The `close` of a refused descriptor in accept is not modelled.
- `fork`, file opening, `_exit` status and file I/O errors are not modelled. `Save` returns the bytes of the file its child process would write, and `Load` takes the file's contents.
- The storage mutex and `lock_mutex`/`unlock_mutex` are out of scope, because the model is sequential.
- `hset`, `ladd`, `hget`, `lget`, `hdel`, `ldel` and `size` are not modelled. No handled command reaches them, and `size` is the map's cardinality in `Save`.
- `src/main.cpp` and all logging are out of scope.
- StorageEngine.Storage.SetKVStore: the definition of `setKVStore` is not part of this model. It is taken to replace the map and report success, so `Load` returns true whenever decoding succeeds.
- StorageEngine.Storage.Get: src/storage.cpp:13 returns the stored `CPPRedisValue` where `std::optional<std::string>` is declared. No such conversion exists, so the line does not compile as written. The model answers only for a scalar, as the declared return type intends, and treats a list or hash as missing.
- StorageEngine.Storage.VisitAll: the unordered map's iteration order is not modelled. Any order that lists each key once is allowed, and `SaveLoadRoundTrip` holds for all of them.
- SnapshotFormat.U32Bytes: the host's byte order is taken to be little-endian.
- SnapshotFormat: the tag values of `MAP`, `HMAP` and `LIST` are defined outside the files modelled here. The model uses 0, 1 and 2.
- Snapshotter.Snapshotter.Load: the model assumes every allocation sized by a number read from the file succeeds: `reserve(kvstore_size)` (src/snapshotter.cpp:132), `reserve(curr_size)` for a hash or list (:160, :176) and `str.resize(len)` in `read_string` (:51). In the source, a large announced count or length, as in the four-byte file `FF FF FF FF`, can make load throw `std::bad_alloc`, which nothing catches, instead of returning false. The store is left unchanged either way. The loop counters are `int` compared against a 32-bit unsigned count (:134, :161, :177); past 2^31 - 1 iterations they overflow, which the model's unbounded counters do not show.
- SnapshotFormat.SaveLoadRoundTrip: holds only for stores whose chars are below 256 and whose counts and lengths fit in 32 bits. Chars of 256 or more exist only in the model's string type, and its encoding keeps them modulo 256. Counts and lengths of 2^32 or more are truncated by the source's `write_uint32` (src/snapshotter.cpp:39), and the round trip then fails.
- SnapshotFormat.ReadFields: a short read of a field or value makes the load fail. The source only logs it and continues with a failed stream. The next record's tag read then fails. If the record was the last one, the strings are installed as `read_string` left them. When the length prefix read but the bytes fell short, `str.resize(len)` (src/snapshotter.cpp:51-52) has already given the string its declared length: the bytes that were there, padded with NULs. When the length itself did not read, the string is empty.
- SnapshotFormat.ReadItems: the same applies to a short read of a list item or a list or hash count. In the source, a failed count leaves `curr_size` (declared once for the whole load at src/snapshotter.cpp:126) as it was. Before the first hash or list count of the file it is indeterminate. After one, it is that earlier record's count, with its low bytes overwritten by any bytes of the new count that did arrive, so the loop can still run and install empty fields or items.
- CommandHandler.GetAnswers: a stored scalar "-1" gives the same reply as a missing key, and the model keeps that ambiguity.
- Server.DatabaseServer.HandleClientRead: an empty framed line appends the empty reply, where the source skips it. The effect on the buffers is the same.

## Findings

| source | as written | input that shows it | evidently intended | confidence | as-written member | corrected member |
|---|---|---|---|---|---|---|
| src/snapshotter.cpp:186-192 | An unknown tag `break`s out of the record loop, and the partly built map is still installed. | Count 3, a scalar record "a"→"x", tag 7 with key "b", then a scalar record "c"→"y". The store becomes {"a": "x"} and load returns true; the record for "c" is never read. | The file is corrupt: load fails and the live store is left unchanged. | not executed | SnapshotFormat.UnknownTagInstallsPrefix | SnapshotFormat.UnknownTagAbortsLoad |
