/**
 * A zip archive's files, found through its central directory (`readZip` of
 * src/zip.ts; sections 4.3.7, 4.3.12 and 4.3.16 of PKWARE's APPNOTE.TXT).
 */
module ZipReader {
  import opened Wrappers
  import opened Bytes
  import DosTime

  const END_OF_DIRECTORY: dword := 0x06054b50
  const DIRECTORY_ENTRY: dword := 0x02014b50
  const LOCAL_HEADER: dword := 0x04034b50

  const STORED: word := 0
  const DEFLATED: word := 8

  const END_LENGTH := 22
  const RECORD_LENGTH := 46
  const LOCAL_LENGTH := 30

  datatype ZipEntry = ZipEntry(path: string, data: bytes, modified: Option<int>)

  datatype ZipError =
    | NoEndRecord
    | Zip64
    | DamagedDirectory(entry: nat)
    | Encrypted(path: string)
    | NoLocalHeader(path: string)
    | MethodNotRead(path: string, compression: word)
    | NotInflated
    | WrongSize(path: string, came: nat, said: dword)
    | PastEnd

  /** What the platform does: inflating, which may fail, and decoding UTF-8. */
  datatype Platform = Platform(inflate: bytes -> Option<bytes>, utf8: bytes -> string)

  /** A part of the bytes, as `subarray` cuts it: both ends brought within them. */
  function Sub(b: bytes, from: nat, to: nat): (r: bytes)
    ensures from <= to <= |b| ==> r == b[from..to]
    ensures from <= to ==> |r| <= to - from
  {
    var end := if to < |b| then to else |b|;
    if from < end then b[from..end] else []
  }

  // ---------------------------------------------------------------- the end record

  /** Where the search looks: a record's length from the end, and behind a comment of any length. */
  predicate InWindow(b: bytes, at: int) {
    0 <= at && |b| - END_LENGTH - 0xffff <= at <= |b| - END_LENGTH
  }

  predicate IsEndAt(b: bytes, at: int) {
    0 <= at && at + END_LENGTH <= |b| && U32(b, at) == END_OF_DIRECTORY
  }

  /** The last end signature in the window, from a place back. */
  function EndBack(b: bytes, at: int): (end: Option<nat>)
    requires at <= |b| - END_LENGTH
    ensures end.Some? ==> end.value <= at && InWindow(b, end.value) && IsEndAt(b, end.value)
    ensures forall k :: (if end.Some? then end.value else -1) < k <= at && InWindow(b, k) ==> !IsEndAt(b, k)
    decreases at + 1
  {
    if !InWindow(b, at) then None
    else if U32(b, at) == END_OF_DIRECTORY then Some(at)
    else EndBack(b, at - 1)
  }

  function EndOf(b: bytes): (end: Option<nat>)
    ensures end.Some? ==> end.value + END_LENGTH <= |b|
  {
    EndBack(b, |b| - END_LENGTH)
  }

  method FindEnd(b: bytes) returns (end: Option<nat>)
    ensures end == EndOf(b)
  {
    var first := if |b| - END_LENGTH - 0xffff > 0 then |b| - END_LENGTH - 0xffff else 0;
    var at := |b| - END_LENGTH;
    while at >= first
      invariant at <= |b| - END_LENGTH
      invariant EndBack(b, at) == EndOf(b)
    {
      if U32(b, at) == END_OF_DIRECTORY {
        return Some(at);
      }
      at := at - 1;
    }
    return None;
  }

  // ---------------------------------------------------------------- the directory

  predicate Flag(flags: word, bit: nat)
    requires bit in {1, 0x800}
  {
    flags / bit % 2 == 1
  }

  function NameOf(name: bytes, utf8: bool, p: Platform): string {
    if utf8 then p.utf8(name) else seq(|name|, k requires 0 <= k < |name| => name[k] as char)
  }

  predicate EndsWithSlash(path: string) {
    path != [] && path[|path| - 1] == '/'
  }

  /** The path a directory record names; a name cut short by the file's end is what there is of it. */
  function PathAt(b: bytes, at: nat, p: Platform): string
    requires at + RECORD_LENGTH <= |b|
  {
    NameOf(Sub(b, at + 46, at + 46 + U16(b, at + 28)), Flag(U16(b, at + 8), 0x800), p)
  }

  function NextRecord(b: bytes, at: nat): (next: nat)
    requires at + RECORD_LENGTH <= |b|
    ensures next >= at + RECORD_LENGTH
  {
    at + 46 + U16(b, at + 28) + U16(b, at + 30) + U16(b, at + 32)
  }

  /** A file's data, by its local header, as its method keeps it. */
  function DataOf(b: bytes, path: string, local: dword, compression: word, compressed: dword, p: Platform)
    : Result<bytes, ZipError>
  {
    if local + 4 > |b| then Failure(PastEnd)
    else if U32(b, local) != LOCAL_HEADER then Failure(NoLocalHeader(path))
    else if local + LOCAL_LENGTH > |b| then Failure(PastEnd)
    else
      var start := local + 30 + U16(b, local + 26) + U16(b, local + 28);
      var raw := Sub(b, start, start + compressed);
      if compression == STORED then Success(raw)
      else if compression == DEFLATED then
        match p.inflate(raw)
        case Some(data) => Success(data)
        case None => Failure(NotInflated)
      else Failure(MethodNotRead(path, compression))
  }

  /** One record of the directory read: its file, none for a directory. */
  function EntryAt(b: bytes, at: nat, index: nat, p: Platform): (r: Result<Option<ZipEntry>, ZipError>)
    ensures r.Success? ==> at + RECORD_LENGTH <= |b|
  {
    if at + 4 > |b| then Failure(PastEnd)
    else if U32(b, at) != DIRECTORY_ENTRY then Failure(DamagedDirectory(index + 1))
    else if at + RECORD_LENGTH > |b| then Failure(PastEnd)
    else
      var path := PathAt(b, at, p);
      if EndsWithSlash(path) then Success(None)
      else if Flag(U16(b, at + 8), 1) then Failure(Encrypted(path))
      else
        match DataOf(b, path, U32(b, at + 42), U16(b, at + 10), U32(b, at + 20), p)
        case Failure(error) => Failure(error)
        case Success(data) =>
          if |data| != U32(b, at + 24) then Failure(WrongSize(path, |data|, U32(b, at + 24)))
          else Success(Some(ZipEntry(path, data, DosTime.FromDos(U16(b, at + 12), U16(b, at + 14)))))
  }

  function Listed(entry: Option<ZipEntry>): seq<ZipEntry> {
    match entry
    case Some(file) => [file]
    case None => []
  }

  /** The files of so many records from a place on, the first the given one of the directory. */
  function Directory(b: bytes, at: nat, index: nat, count: nat, p: Platform): Result<seq<ZipEntry>, ZipError>
    requires index <= count
    decreases count - index
  {
    if index == count then Success([])
    else
      match EntryAt(b, at, index, p)
      case Failure(error) => Failure(error)
      case Success(entry) => Before(Listed(entry), Directory(b, NextRecord(b, at), index + 1, count, p))
  }

  /** Every file of an archive. */
  function Files(b: bytes, p: Platform): Result<seq<ZipEntry>, ZipError> {
    match EndOf(b)
    case None => Failure(NoEndRecord)
    case Some(end) =>
      var count, at := U16(b, end + 10), U32(b, end + 16);
      if count == 0xffff || at == 0xffff_ffff then Failure(Zip64) else Directory(b, at, 0, count, p)
  }

  /** A record's data, read as the record's method says. */
  method ReadData(b: bytes, path: string, local: dword, compression: word, compressed: dword, p: Platform)
    returns (r: Result<bytes, ZipError>)
    ensures r == DataOf(b, path, local, compression, compressed, p)
  {
    if local + 4 > |b| {
      return Failure(PastEnd);
    }
    if U32(b, local) != LOCAL_HEADER {
      return Failure(NoLocalHeader(path));
    }
    if local + LOCAL_LENGTH > |b| {
      return Failure(PastEnd);
    }
    var start := local + 30 + U16(b, local + 26) + U16(b, local + 28);
    var raw := Sub(b, start, start + compressed);
    if compression == STORED {
      return Success(raw);
    } else if compression == DEFLATED {
      var inflated := p.inflate(raw);
      if inflated.None? {
        return Failure(NotInflated);
      }
      return Success(inflated.value);
    }
    return Failure(MethodNotRead(path, compression));
  }

  /** One record of the directory: its file, none for a directory. */
  method ReadRecord(b: bytes, at: nat, index: nat, p: Platform) returns (r: Result<Option<ZipEntry>, ZipError>)
    ensures r == EntryAt(b, at, index, p)
  {
    if at + 4 > |b| {
      return Failure(PastEnd);
    }
    if U32(b, at) != DIRECTORY_ENTRY {
      return Failure(DamagedDirectory(index + 1));
    }
    if at + RECORD_LENGTH > |b| {
      return Failure(PastEnd);
    }
    var flags, compression := U16(b, at + 8), U16(b, at + 10);
    var modified := DosTime.FromDos(U16(b, at + 12), U16(b, at + 14));
    var compressed, size, local := U32(b, at + 20), U32(b, at + 24), U32(b, at + 42);
    var path := NameOf(Sub(b, at + 46, at + 46 + U16(b, at + 28)), Flag(flags, 0x800), p);

    if EndsWithSlash(path) {
      return Success(None);
    }
    if Flag(flags, 1) {
      return Failure(Encrypted(path));
    }
    var data := ReadData(b, path, local, compression, compressed, p);
    if data.Failure? {
      return Failure(data.error);
    }
    if |data.value| != size {
      return Failure(WrongSize(path, |data.value|, size));
    }
    return Success(Some(ZipEntry(path, data.value, modified)));
  }

  /** The directory walked, each record found after the one before it. */
  method ReadDirectory(b: bytes, start: nat, count: word, p: Platform) returns (r: Result<seq<ZipEntry>, ZipError>)
    ensures r == Directory(b, start, 0, count, p)
  {
    hide EntryAt, U16;
    var at: nat := start;
    var entries: seq<ZipEntry> := [];
    var index: nat := 0;
    BeforeNothing(Directory(b, start, 0, count, p));
    while index < count
      invariant index <= count
      invariant Directory(b, start, 0, count, p) == Before(entries, Directory(b, at, index, count, p))
    {
      var record := ReadRecord(b, at, index, p);
      if record.Failure? {
        return Failure(record.error);
      }
      BeforeTogether(entries, Listed(record.value), Directory(b, NextRecord(b, at), index + 1, count, p));
      entries := entries + Listed(record.value);
      at := at + 46 + U16(b, at + 28) + U16(b, at + 30) + U16(b, at + 32);
      index := index + 1;
    }
    assert entries + [] == entries;
    return Success(entries);
  }

  method ReadZip(b: bytes, p: Platform) returns (r: Result<seq<ZipEntry>, ZipError>)
    ensures r == Files(b, p)
  {
    var end := FindEnd(b);
    if end.None? {
      return Failure(NoEndRecord);
    }
    var count, at := U16(b, end.value + 10), U32(b, end.value + 16);
    if count == 0xffff || at == 0xffff_ffff {
      return Failure(Zip64);
    }
    r := ReadDirectory(b, at, count, p);
  }
}
