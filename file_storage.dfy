/** The file-backed store (`IU_Storage`, published as `Storage`): one
    append-only file holding a 100-byte header and then the encoded records
    back to back. The file system is abstracted to whether the store's file
    exists and the bytes it holds; the open file object to whether one was
    ever opened, whether it is open now, and its cursor. */
module FileStorage {
  import opened Format
  import opened Serialization
  import opened RecordLog

  /** Messages of the two precondition failures; both raise `IOError`. */
  const AlreadyExistsMessage: string := "Storage already exists!"
  const MissingMessage: string := "Storage doesn't exists!"

  /** The status that marks a record as deleted in the caller's handle. */
  const Deleted: string := "d"

  datatype StorageError =
    | IOError(message: string)  // `create` on an existing file, `open` on a missing one
    | FileNotFound              // `destroy` of a missing file: the unlink fails
    | NoHandle                  // no file object was ever opened (`_f` is None)
    | ClosedFile                // I/O on a file object that was closed
    | NegativeSeek              // `get` with a negative start offset
    | DecodeFailed              // the serialiser could not decode the bytes read

  datatype Result<T> = Ok(value: T) | Err(error: StorageError)

  /** A record saved through this store, kept for the specification only. */
  datatype Record<P> = Record(at: Location, payload: P)

  /** Seek to `start`, read up to `size` bytes and decode them. */
  function Fetch<P>(codec: Codec<P>, c: seq<byte>, start: int, size: int): Result<Option<P>>
  {
    if start < 0 then Err(NegativeSeek)
    else match codec.decode(ReadAt(c, start, size))
      case Some(p) => Ok(Some(p))
      case None => Err(DecodeFailed)
  }

  /** With a codec that round-trips, every payload of a sequence of saves is
      fetched back from its location in the final contents. */
  lemma FetchSaved<P(!new)>(codec: Codec<P>, c: seq<byte>, ps: seq<P>)
    requires RoundTrips(codec)
    ensures var (final, locs) := SaveAll(c, seq(|ps|, i requires 0 <= i < |ps| => codec.encode(ps[i])));
      forall i :: 0 <= i < |ps| ==> Fetch(codec, final, locs[i].start, locs[i].size) == Ok(Some(ps[i]))
  {
    var es := seq(|ps|, i requires 0 <= i < |ps| => codec.encode(ps[i]));
    SaveAllReadBack(c, es);
    SaveAllPlacement(c, es);
  }

  class Storage<P(!new)> {
    /** `data_to` and `data_from`. */
    const codec: Codec<P>
    /** The UTF-8 bytes of the package version. */
    const version: seq<byte>

    /** Whether the file `<db_path>/<name>_stor` exists. */
    var fileExists: bool
    /** The bytes of the store's file. */
    var contents: seq<byte>
    /** Whether a file object was ever opened (`_f` is not None). */
    var hasHandle: bool
    /** Whether that file object is still open. */
    var isOpen: bool
    /** The file object's position. */
    var cursor: nat

    /** The records saved through this object since the file was created through this object. */
    ghost var records: seq<Record<P>>

    /** The record's bytes are in the file, at its location, as encoded. */
    ghost predicate Stored(rec: Record<P>)
      reads this
    {
      rec.at.start + rec.at.size <= |contents| &&
      contents[rec.at.start..rec.at.start + rec.at.size] == codec.encode(rec.payload)
    }

    ghost predicate Valid()
      reads this
    {
      (isOpen ==> hasHandle) &&
      forall k :: 0 <= k < |records| ==> Stored(records[k])
    }

    /** Binding a store to its file touches nothing; the file's state at that
        moment is given. */
    constructor (codec: Codec<P>, version: seq<byte>, fileExists: bool, contents: seq<byte>)
      ensures Valid()
      ensures this.codec == codec && this.version == version
      ensures this.fileExists == fileExists && this.contents == contents
      ensures !hasHandle && !isOpen && cursor == 0 && records == []
    {
      this.codec, this.version := codec, version;
      this.fileExists, this.contents := fileExists, contents;
      hasHandle, isOpen, cursor := false, false, 0;
      records := [];
    }

    /** The error an I/O call on the file object raises, if any. */
    function HandleState(): Result<()>
      reads this
    {
      if !hasHandle then Err(NoHandle)
      else if !isOpen then Err(ClosedFile)
      else Ok(())
    }

    /** Creates the file with its header and leaves it open at its end;
        refuses when the file already exists. */
    method Create() returns (r: Result<()>)
      requires Valid()
      modifies this
      ensures Valid()
      ensures old(fileExists) ==> r == Err(IOError(AlreadyExistsMessage)) && unchanged(this)
      ensures !old(fileExists) ==>
        r == Ok(()) && fileExists && contents == Header(version) &&
        hasHandle && isOpen && cursor == |contents| == HeaderSize && records == []
    {
      if fileExists {
        return Err(IOError(AlreadyExistsMessage));
      }
      fileExists, contents := true, Header(version);
      hasHandle, isOpen := true, true;
      cursor := |contents|;
      records := [];
      r := Ok(());
    }

    /** Opens the existing file and moves to its end; refuses when the file
        is missing. */
    method Open() returns (r: Result<()>)
      requires Valid()
      modifies this`hasHandle, this`isOpen, this`cursor
      ensures Valid()
      ensures !old(fileExists) ==> r == Err(IOError(MissingMessage)) && unchanged(this)
      ensures old(fileExists) ==> r == Ok(()) && hasHandle && isOpen && cursor == |contents|
    {
      if !fileExists {
        return Err(IOError(MissingMessage));
      }
      hasHandle, isOpen := true, true;
      cursor := |contents|;
      r := Ok(());
    }

    /** Unlinks the file. An open file object keeps the bytes it refers to. */
    method Destroy() returns (r: Result<()>)
      requires Valid()
      modifies this`fileExists
      ensures Valid()
      ensures !fileExists
      ensures r == if old(fileExists) then Ok(()) else Err(FileNotFound)
    {
      r := if fileExists then Ok(()) else Err(FileNotFound);
      fileExists := false;
    }

    /** Closes the file object without flushing; closing twice is harmless,
        closing when none was opened fails. */
    method Close() returns (r: Result<()>)
      requires Valid()
      modifies this`isOpen
      ensures Valid()
      ensures !hasHandle ==> r == Err(NoHandle) && isOpen == old(isOpen)
      ensures hasHandle ==> r == Ok(()) && !isOpen
    {
      if !hasHandle {
        return Err(NoHandle);
      }
      isOpen := false;
      r := Ok(());
    }

    /** Pushes buffered writes to the operating system: succeeds exactly when
        the file object is open, and changes nothing in the model. */
    method Flush() returns (r: Result<()>)
      requires Valid()
      ensures r.Ok? <==> isOpen
      ensures !hasHandle ==> r == Err(NoHandle)
      ensures hasHandle && !isOpen ==> r == Err(ClosedFile)
    {
      r := HandleState();
    }

    /** Forces the file to the storage medium: succeeds exactly when the file
        object is open, and changes nothing in the model. */
    method Fsync() returns (r: Result<()>)
      requires Valid()
      ensures r.Ok? <==> isOpen
      ensures !hasHandle ==> r == Err(NoHandle)
      ensures hasHandle && !isOpen ==> r == Err(ClosedFile)
    {
      r := HandleState();
    }

    /** What `save` promises: on an open file, the encoding of `p` is appended
        at the end of file, whatever the cursor was, and its start and size
        are returned; otherwise the call fails and nothing changes. */
    twostate predicate SavedAs(p: P, new r: Result<Location>)
      reads this
    {
      if old(isOpen) then
        r == Ok(Location(old(|contents|), |codec.encode(p)|)) &&
        contents == old(contents) + codec.encode(p) &&
        cursor == |contents| &&
        records == old(records) + [Record(r.value, p)]
      else
        r == Err(if old(hasHandle) then ClosedFile else NoHandle) &&
        contents == old(contents) && cursor == old(cursor) && records == old(records)
    }

    method Save(p: P) returns (r: Result<Location>)
      requires Valid()
      modifies this`contents, this`cursor, this`records
      ensures Valid()
      ensures SavedAs(p, r)
    {
      var data := codec.encode(p);
      var h := HandleState();
      if h.Err? {
        return Err(h.error);
      }
      var start := |contents|;
      contents := contents + data;
      cursor := |contents|;
      r := Ok(Location(start, |data|));
      forall k | 0 <= k < |records|
        ensures Stored(records[k])
      {
        var at := records[k].at;
        assert contents[at.start..at.start + at.size] == old(contents)[at.start..at.start + at.size];
      }
      assert contents[start..start + |data|] == data;
      records := records + [Record(r.value, p)];
    }

    /** `insert` is `save`. */
    method Insert(p: P) returns (r: Result<Location>)
      requires Valid()
      modifies this`contents, this`cursor, this`records
      ensures Valid()
      ensures SavedAs(p, r)
    {
      r := Save(p);
    }

    /** `update` is `save` too: a new version is appended, the old one stays. */
    method Update(p: P) returns (r: Result<Location>)
      requires Valid()
      modifies this`contents, this`cursor, this`records
      ensures Valid()
      ensures SavedAs(p, r)
    {
      r := Save(p);
    }

    /** Reads the record at (`start`, `size`). A deleted status answers None
        without touching the file; otherwise the file object must be open,
        the cursor moves past the bytes read, and those bytes are decoded.
        A record saved through this object reads back as its payload. */
    method Get(start: int, size: int, status: string) returns (r: Result<Option<P>>)
      requires Valid()
      modifies this`cursor
      ensures Valid()
      ensures status == Deleted ==> r == Ok(None) && cursor == old(cursor)
      ensures status != Deleted && !isOpen ==>
        r == Err(if hasHandle then ClosedFile else NoHandle) && cursor == old(cursor)
      ensures status != Deleted && isOpen ==>
        r == Fetch(codec, contents, start, size) &&
        cursor == if start < 0 then old(cursor) else start + |ReadAt(contents, start, size)|
      ensures status != Deleted && isOpen && RoundTrips(codec) ==>
        forall k :: 0 <= k < |records| && records[k].at.start == start && records[k].at.size == size ==>
          r == Ok(Some(records[k].payload))
    {
      if status == Deleted {
        return Ok(None);
      }
      var h := HandleState();
      if h.Err? {
        return Err(h.error);
      }
      if start < 0 {
        return Err(NegativeSeek);
      }
      var bytes := ReadAt(contents, start, size);
      cursor := start + |bytes|;
      match codec.decode(bytes)
      case Some(p) => r := Ok(Some(p));
      case None => r := Err(DecodeFailed);
      forall k | 0 <= k < |records| && records[k].at.start == start && records[k].at.size == size
        ensures RoundTrips(codec) ==> r == Ok(Some(records[k].payload))
      {
        assert Stored(records[k]);
        assert bytes == codec.encode(records[k].payload);
      }
    }
  }

  /** A store's life as a caller sees it: create, insert two payloads, read
      the first back, close, reopen, read the second back, destroy, and fail
      to reopen. */
  method Session<P(!new)>(codec: Codec<P>, version: seq<byte>, a: P, b: P)
    returns (la: Result<Location>, lb: Result<Location>, ga: Result<Option<P>>,
             gb: Result<Option<P>>, reopened: Result<()>)
    requires RoundTrips(codec)
    ensures la == Ok(Location(HeaderSize, |codec.encode(a)|))
    ensures lb == Ok(Location(HeaderSize + |codec.encode(a)|, |codec.encode(b)|))
    ensures ga == Ok(Some(a)) && gb == Ok(Some(b))
    ensures reopened == Err(IOError(MissingMessage))
    ensures [la.value, lb.value] == SaveAll(Header(version), [codec.encode(a), codec.encode(b)]).1
  {
    var s := new Storage(codec, version, false, []);
    var _ := s.Create();
    la := s.Insert(a);
    lb := s.Insert(b);
    ga := s.Get(la.value.start, la.value.size, "c");
    var _ := s.Close();
    var _ := s.Open();
    gb := s.Get(lb.value.start, lb.value.size, "c");
    assert s.records[1].at == lb.value;
    var _ := s.Destroy();
    reopened := s.Open();
  }
}
