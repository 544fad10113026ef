# graphility storage — a Dafny model

This project models the storage layer of graphility, a Python embedded
database. A store keeps its records in one append-only file,
`<db_path>/<name>_stor`. The file starts with a 100-byte header: the package
version fitted into 10 bytes, then a 90-byte reserved field holding `|||||`
followed by NUL bytes. After the header, encoded records follow each other
with no framing. `save`, `insert` and `update` append a record at the end of
the file and return its `(start, size)`. `get(start, size, status)` reads the
record back, unless the caller's status is `"d"` (deleted). A stub backend,
`DummyStorage`, fakes all of this and keeps nothing.

Files:

- `format.dfy` (module `Format`): bytes, `struct`-style fixed-width fields and the header.
- `serialization.dfy` (module `Serialization`): the payload codec, as a pair of functions with a round-trip predicate.
- `record_log.dfy` (module `RecordLog`): the file as a log of appended records; reads at an offset; a run of saves as a function on the file's bytes, `SaveAll`. `SaveAllExtend` shows that each step of `SaveAll` is what one `Storage.Save` does to the file and returns, and `FileStorage.Session` checks two calls of the class against it.
- `dummy_storage.dfy` (module `DummyStorage`): the stub backend, as functions.
- `file_storage.dfy` (module `FileStorage`): the file-backed store `IU_Storage` (published as `Storage`), as the class `Storage`. Its fields are the file's existence and bytes, and the open file object (whether one was ever opened, whether it is open, and its cursor).

The file system is a byte sequence. Python exceptions are `Err` results of a
`Result` datatype:

- `create` on an existing file raises `IOError("Storage already exists!")`.
- `open` on a missing file raises `IOError("Storage doesn't exists!")`. Both are the same exception class; only the message differs.
- `destroy` of a missing file fails in the unlink (`FileNotFound`).
- I/O without a file object (`_f` is None) fails (`NoHandle`).
- I/O on a closed file object fails (`ClosedFile`).
- `get` with a negative start fails in the seek (`NegativeSeek`).
- `get` fails when the serialiser cannot decode the bytes (`DecodeFailed`).

The source does not check any of the last five itself. Python raises them.

## Notes on the source's behaviour

- `get` does not check for a short read: it decodes whatever bytes `read` returns. A negative size reads to the end of the file (graphility/storage.py:167-168).
- Saves are placed back to back. `save` seeks to the end before writing, so two consecutive saves give `o2 == o1 + s1` (graphility/storage.py:150-155).
- `create` and `open` raise the same `IOError` class, with different messages (graphility/storage.py:115, graphility/storage.py:127).

`destroy` follows POSIX unlink. The file disappears (`fileExists` becomes
false), but a file object that is still open keeps reading and appending the
bytes it refers to. `contents` is therefore left as it was.

## Model

| member | source | states |
|---|---|---|
| `Format.Fit` | graphility/storage.py:117 | a `10s`/`90s` field is exactly n bytes: byte i is the value's byte i when there is one and NUL otherwise (truncate or pad) |
| `Format.Header` | graphility/storage.py:110-117 | the header is 100 bytes: the version fitted to 10 bytes, then `|||||`, then 85 NUL bytes |
| `Format.TrimNul` | graphility/storage.py:117 | no counterpart in the store, which never reads its header back: the inverse of the NUL padding packed here, used to state what the version field determines; the result is a prefix, it does not end in NUL, and everything cut off is NUL |
| `Format.TrimNulPadding` | graphility/storage.py:117 | padding a value that does not end in NUL, by any number of NUL bytes, is undone by TrimNul |
| `Format.VersionTagRecoverable` | graphility/storage.py:117 | the version field of the header gives back a version of up to 10 bytes exactly, and the first 10 bytes of a longer one |
| `RecordLog.ReadAt` | graphility/storage.py:167-168 | seek-then-read returns the file's bytes from `start` on: `size` of them, fewer at end of file, none past it, all of them to the end for a negative size |
| `RecordLog.ReadAppended` | graphility/storage.py:150-153 | reading at the old end of file, for the appended length, returns exactly the appended bytes |
| `RecordLog.ReadSurvivesAppend` | graphility/storage.py:150-153 | an append leaves every read within the old contents unchanged |
| `RecordLog.SaveAll` | graphility/storage.py:148-155 | a run of saves returns one location per record, and the final file is the old file followed by exactly the encodings, in order |
| `RecordLog.SaveAllExtend` | graphility/storage.py:150-155 | one more save extends a run exactly as a single `save` does: its encoding goes at the end of the run's file and its location is (that end, its size) |
| `RecordLog.SaveAllPlacement` | graphility/storage.py:150-155 | in a run of saves, the first record starts at the old end of file, each next one starts where the previous ends, each has its encoding's size, and all lie inside the file |
| `RecordLog.SaveAllReadBack` | graphility/storage.py:148-168 | every record of a run of saves reads back as exactly its bytes from the final file; later saves do not disturb it |
| `FileStorage.FetchSaved` | graphility/storage.py:142-168 | with a codec that round-trips, every payload of a run of saves is read and decoded back from the location its save returned |
| `FileStorage.Storage.constructor` | graphility/storage.py:107-111 | binding a store opens nothing: no file object and the file's state as given |
| `FileStorage.Storage.Create` | graphility/storage.py:113-123 | on an existing file: fails with the "already exists" IOError and changes nothing; otherwise the file exists, holds exactly the header, and is open with the cursor at its end (100) |
| `FileStorage.Storage.Open` | graphility/storage.py:125-132 | on a missing file: fails with the "doesn't exists" IOError and changes nothing; otherwise the file object is open at the end of the unchanged file |
| `FileStorage.Storage.Destroy` | graphility/storage.py:134-135 | the file no longer exists; fails only if it was already missing |
| `FileStorage.Storage.Close` | graphility/storage.py:137-140 | closes the file object without touching the file's bytes or existence; fails only if none was ever opened |
| `FileStorage.Storage.Flush` | graphility/storage.py:170-171 | succeeds exactly when the file object is open, otherwise reports why; changes nothing |
| `FileStorage.Storage.Fsync` | graphility/storage.py:173-174 | succeeds exactly when the file object is open, otherwise reports why; changes nothing |
| `FileStorage.Storage.Save` | graphility/storage.py:148-155 | on an open file: appends the payload's encoding at end of file, whatever the cursor was, returns (old file length, encoding length), leaves the cursor at the end and keeps every saved record readable; otherwise fails and changes nothing |
| `FileStorage.Storage.Insert` | graphility/storage.py:157-158 | the same as Save |
| `FileStorage.Storage.Update` | graphility/storage.py:160-161 | the same as Save: an append, never an overwrite |
| `FileStorage.Storage.Get` | graphility/storage.py:163-168 | status `"d"` answers None and moves nothing; otherwise it needs an open file object, moves the cursor past the bytes read and decodes them; a record saved through the store reads back as its payload when the codec round-trips |
| `FileStorage.Session` | graphility/storage.py:113-168 | create, insert a then b, get a, close, reopen, get b, destroy, reopen: a lands at 100 and b right after it, both read back, the final open fails as missing, and the two locations are those `SaveAll` gives for the header followed by the two encodings |
| `DummyStorage.Save` | graphility/storage.py:82-83 | the stub's save reports (0, 0) for every payload |
| `DummyStorage.Insert` | graphility/storage.py:85-86 | the stub's insert reports (0, 0) for every payload |
| `DummyStorage.Update` | graphility/storage.py:88-89 | the stub's update reports (0, 0) for every payload |
| `DummyStorage.Get` | graphility/storage.py:91-92 | the stub's get answers None for every location and status |

## Left out

- `StorageBase` (graphility/storage.py:14-59), the abstract base class, is not a separate Dafny type. Both backends offer the same operations under the same names. The default bodies of the abstract methods are never run by either backend.
- `DummyStorage.create`, `open`, `close`, `flush`, `fsync`, `data_from` and `data_to` (graphility/storage.py:67-80, 97-101) are not members. They do nothing and return None, and the stub has no state for them to act on.
- The serialiser's internals (pickle) are not modelled. A `Codec` is any pair of encode and decode functions. The round trip `decode(encode(p)) == p` is the predicate `RoundTrips`, which the read-back results take as a precondition. An encode that raises on an unserialisable payload is not modelled: `encode` is total.
- Paths are not modelled: `db_path`, `name` and the joining of `<db_path>/<name>_stor`. The store's file is represented by its existence and its bytes. The file's state when a `Storage` is bound is a constructor parameter.
- The package version comes from a module that is not part of this model. Its UTF-8 bytes are a constructor parameter.
- `flush` and `fsync` have no effect on the model. The model has no notion of buffers or of durability on disk, so they only report whether the file object can be used.
- The debug `print(locals())` in `get` is left out. It only writes to the console.
- The commented-out `compact` is left out. It is not implemented.
- Concurrent use of one file by several store objects, threads or processes is not modelled. The store assumes one owner of its file object.
- Operating-system failures of open, write, read and unlink are not modelled, except for the existence checks and the unlink of a missing file. A partial write is one of these failures.
- Platforms where an open file cannot be unlinked are not modelled. `destroy` follows POSIX semantics.
- FileStorage.Storage.Get: its read-back promise covers the records saved through this object, which the ghost log `records` remembers. Records that were already in a file when it was opened are read under the same contract, but the model knows no payload for them.
