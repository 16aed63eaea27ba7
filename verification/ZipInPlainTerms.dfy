/**
 * What the reader of src/zip.ts makes of an archive, byte by byte: its
 * records' paths, which of them are directories, what is refused and how.
 */
module ZipInPlainTerms {
  import opened Wrappers
  import opened Bytes
  import opened ZipReader
  import opened ZipFormat
  import DosTime

  const LOCAL_SIGNATURE: bytes := [0x50, 0x4b, 0x03, 0x04]
  const RECORD_SIGNATURE: bytes := [0x50, 0x4b, 0x01, 0x02]
  const END_SIGNATURE: bytes := [0x50, 0x4b, 0x05, 0x06]

  /** The signatures are those the reader looks for. */
  lemma Signed(b: bytes, at: nat)
    requires at + 4 <= |b|
    ensures Holds(b, at, LOCAL_SIGNATURE) <==> U32(b, at) == LOCAL_HEADER
    ensures Holds(b, at, RECORD_SIGNATURE) <==> U32(b, at) == DIRECTORY_ENTRY
    ensures Holds(b, at, END_SIGNATURE) <==> U32(b, at) == END_OF_DIRECTORY
  {
    assert b[at..at + 4] == [b[at], b[at + 1], b[at + 2], b[at + 3]];
    LowFirst(b, at);
  }

  // ---------------------------------------------------------------- paths

  /** A name decoded: by the platform where it is UTF-8, and else a character for each byte. */
  predicate IsPath(name: bytes, utf8: bool, path: string, p: Platform) {
    if utf8 then path == p.utf8(name) else |path| == |name| && forall k :: 0 <= k < |name| ==> path[k] as int == name[k]
  }

  lemma NameIsPath(name: bytes, utf8: bool, p: Platform)
    ensures IsPath(name, utf8, NameOf(name, utf8, p), p)
  {
  }

  lemma OnePath(name: bytes, utf8: bool, a: string, b: string, p: Platform)
    requires IsPath(name, utf8, a, p) && IsPath(name, utf8, b, p)
    ensures a == b
  {
    if !utf8 {
      forall k | 0 <= k < |a| ensures a[k] == b[k] {
        assert a[k] as int == b[k] as int;
      }
    }
  }

  /** The path of a directory's record: the name 46 bytes on, as far as there is any, by bit 800h of its flags. */
  predicate HasPath(b: bytes, at: nat, path: string, p: Platform) {
    && at + 46 <= |b|
    && var length: int := b[at + 28] as int + 0x100 * b[at + 29] as int;
       var end := if at + 46 + length <= |b| then at + 46 + length else |b|;
       IsPath(b[at + 46..end], b[at + 9] / 8 % 2 == 1, path, p)
  }

  lemma PathIsRead(b: bytes, at: nat, p: Platform)
    requires at + 46 <= |b|
    ensures HasPath(b, at, PathAt(b, at, p), p)
    ensures forall path :: HasPath(b, at, path, p) ==> path == PathAt(b, at, p)
  {
    hide NameOf, IsPath;
    var length := U16(b, at + 28);
    var end := if at + 46 + length <= |b| then at + 46 + length else |b|;
    var name, utf8 := b[at + 46..end], b[at + 9] / 8 % 2 == 1;
    assert Sub(b, at + 46, at + 46 + length) == name;
    FlagBits(b, at);
    NameIsPath(name, utf8, p);
    forall path | HasPath(b, at, path, p) ensures path == PathAt(b, at, p) {
      OnePath(name, utf8, path, NameOf(name, utf8, p), p);
    }
  }

  lemma FlagBits(b: bytes, at: nat)
    requires at + 46 <= |b|
    ensures Flag(U16(b, at + 8), 0x800) <==> b[at + 9] / 8 % 2 == 1
    ensures Flag(U16(b, at + 8), 1) <==> b[at + 8] % 2 == 1
  {
    LowFirst(b, at + 8);
    hide U16;
    var flags := U16(b, at + 8);
    assert flags / 0x800 == flags / 0x100 / 8;
    assert flags % 2 == flags % 0x100 % 2;
  }

  // ---------------------------------------------------------------- any archive accepted

  /**
   * So many records from a place on, each 46 bytes and a name, an extra field
   * and a comment of its own lengths, and the entries they yield: one for
   * each whose path does not end in a slash, that path its own, and the
   * lowest bit of whose flags is clear.
   */
  ghost predicate Yields(b: bytes, at: nat, count: nat, entries: seq<ZipEntry>, p: Platform)
    decreases count
  {
    if count == 0 then entries == []
    else
      && at + 46 <= |b| && Holds(b, at, RECORD_SIGNATURE)
      && var next := at + 46 + (b[at + 28] as int + 0x100 * b[at + 29] as int)
                     + (b[at + 30] as int + 0x100 * b[at + 31] as int) + (b[at + 32] as int + 0x100 * b[at + 33] as int);
         exists path: string ::
           && HasPath(b, at, path, p)
           && if path != [] && path[|path| - 1] == '/' then Yields(b, next, count - 1, entries, p)
              else
                && entries != [] && entries[0].path == path
                && b[at + 8] % 2 == 0
                && Yields(b, next, count - 1, entries[1..], p)
  }

  lemma RecordYields(b: bytes, at: nat, index: nat, p: Platform)
    requires EntryAt(b, at, index, p).Success?
    ensures at + 46 <= |b| && Holds(b, at, RECORD_SIGNATURE)
    ensures NextRecord(b, at) == at + 46 + (b[at + 28] as int + 0x100 * b[at + 29] as int)
              + (b[at + 30] as int + 0x100 * b[at + 31] as int) + (b[at + 32] as int + 0x100 * b[at + 33] as int)
    ensures var path, entry := PathAt(b, at, p), EntryAt(b, at, index, p).value;
      if path != [] && path[|path| - 1] == '/' then entry == None
      else entry.Some? && entry.value.path == path && b[at + 8] % 2 == 0
  {
    hide PathAt, DataOf;
    FlagBits(b, at);
    Signed(b, at);
  }

  lemma OneMoreYields(b: bytes, at: nat, index: nat, count: nat, entries: seq<ZipEntry>, rest: seq<ZipEntry>, p: Platform)
    requires count > 0 && EntryAt(b, at, index, p).Success? && entries == Listed(EntryAt(b, at, index, p).value) + rest
    requires Yields(b, NextRecord(b, at), count - 1, rest, p)
    ensures Yields(b, at, count, entries, p)
  {
    hide EntryAt, PathAt, NextRecord, HasPath, U16;
    RecordYields(b, at, index, p);
    PathIsRead(b, at, p);
    if EntryAt(b, at, index, p).value.None? {
      assert entries == rest;
    } else {
      assert entries[1..] == rest;
    }
  }

  lemma {:induction false} DirectoryYields(b: bytes, at: nat, index: nat, count: nat, p: Platform)
    requires index <= count && Directory(b, at, index, count, p).Success?
    ensures Yields(b, at, count - index, Directory(b, at, index, count, p).value, p)
    decreases count - index
  {
    hide EntryAt, NextRecord, Yields, Listed, Directory, FilePlaces;
    if index == count {
      NoneYielded(b, at, count, p);
    } else {
      DirectoryStep(b, at, index, count, p);
      var next := NextRecord(b, at);
      DirectoryYields(b, next, index + 1, count, p);
      OneMoreYields(b, at, index, count - index, Directory(b, at, index, count, p).value,
                    Directory(b, next, index + 1, count, p).value, p);
    }
  }

  lemma NoneYielded(b: bytes, at: nat, count: nat, p: Platform)
    ensures Directory(b, at, count, count, p) == Success([]) && Yields(b, at, 0, [], p)
  {
  }

  /** Of any archive accepted the end record says how many records there are and where, and the entries are those they yield. */
  lemma AcceptedYields(b: bytes, p: Platform)
    requires Files(b, p).Success?
    ensures EndOf(b).Some? && EndOf(b).value + 22 <= |b|
    ensures var end := EndOf(b).value;
      && Holds(b, end, END_SIGNATURE)
      && Yields(b,
                b[end + 16] as int + 0x100 * b[end + 17] as int + 0x1_0000 * b[end + 18] as int + 0x100_0000 * b[end + 19] as int,
                b[end + 10] as int + 0x100 * b[end + 11] as int, Files(b, p).value, p)
  {
    hide Directory, Yields;
    DirectoryYields(b, U32(b, EndOf(b).value + 16), 0, U16(b, EndOf(b).value + 10), p);
    Signed(b, EndOf(b).value);
  }

  // ---------------------------------------------------------------- what is refused

  /** An archive is refused as a zip64 one exactly where its end record is full in the count or in the place. */
  lemma Zip64Exactly(b: bytes, p: Platform)
    ensures Files(b, p) == Failure(Zip64)
       <==> EndOf(b).Some? && (b[EndOf(b).value + 10..EndOf(b).value + 12] == [0xff, 0xff]
                               || b[EndOf(b).value + 16..EndOf(b).value + 20] == [0xff, 0xff, 0xff, 0xff])
  {
    hide U16, U32, Directory, EndOf;
    if EndOf(b).Some? {
      FullExactly(b, EndOf(b).value);
      NeverZip64(b, U32(b, EndOf(b).value + 16), 0, U16(b, EndOf(b).value + 10), p);
    }
  }

  lemma FullExactly(b: bytes, end: nat)
    requires end + 22 <= |b|
    ensures U16(b, end + 10) == 0xffff <==> b[end + 10..end + 12] == [0xff, 0xff]
    ensures U32(b, end + 16) == 0xffff_ffff <==> b[end + 16..end + 20] == [0xff, 0xff, 0xff, 0xff]
  {
    assert b[end + 10..end + 12] == [b[end + 10], b[end + 11]];
    assert b[end + 16..end + 20] == [b[end + 16], b[end + 17], b[end + 18], b[end + 19]];
  }

  lemma {:induction false} NeverZip64(b: bytes, at: nat, index: nat, count: nat, p: Platform)
    requires index <= count
    ensures Directory(b, at, index, count, p) != Failure(Zip64)
    decreases count - index
  {
    hide U16, U32, NextRecord, PathAt, Sub, Listed;
    if index < count && EntryAt(b, at, index, p).Success? {
      NeverZip64(b, NextRecord(b, at), index + 1, count, p);
    }
  }

  /** And as none exactly where the window back from its end holds no end signature. */
  lemma NoArchiveExactly(b: bytes, p: Platform)
    ensures Files(b, p) == Failure(NoEndRecord)
       <==> forall at: nat :: at + 22 <= |b| <= at + 22 + 65_535 ==> !Holds(b, at, END_SIGNATURE)
  {
    hide U16, U32, Directory, EndOf, Holds;
    EndIsNoneExactly(b);
    if EndOf(b).Some? {
      NeverNoEnd(b, U32(b, EndOf(b).value + 16), 0, U16(b, EndOf(b).value + 10), p);
    }
  }

  lemma EndIsNoneExactly(b: bytes)
    ensures EndOf(b) == None
       <==> forall at: nat :: at + 22 <= |b| <= at + 22 + 65_535 ==> !Holds(b, at, END_SIGNATURE)
  {
    LastEndIsFound(b, 0);
    hide EndOf, U32, Holds;
    forall at: nat | at + 22 <= |b| ensures IsEndAt(b, at) <==> Holds(b, at, END_SIGNATURE) {
      Signed(b, at);
    }
    if EndOf(b).Some? {
      var at := EndOf(b).value;
      LastEndIsFound(b, at);
      assert InWindow(b, at) && IsEndAt(b, at) && Holds(b, at, END_SIGNATURE);
    } else {
      forall at: nat | at + 22 <= |b| <= at + 22 + 65_535 ensures !Holds(b, at, END_SIGNATURE) {
        assert InWindow(b, at);
      }
    }
  }

  lemma {:induction false} NeverNoEnd(b: bytes, at: nat, index: nat, count: nat, p: Platform)
    requires index <= count
    ensures Directory(b, at, index, count, p) != Failure(NoEndRecord)
    decreases count - index
  {
    hide U16, U32, NextRecord, PathAt, Sub, Listed;
    if index < count && EntryAt(b, at, index, p).Success? {
      NeverNoEnd(b, NextRecord(b, at), index + 1, count, p);
    }
  }

  /** What a whole record, its path and its local header's place are answered, its reasons for refusal in their order. */
  lemma RecordAnswered(b: bytes, at: nat, index: nat, path: string, p: Platform)
    requires at + 46 <= |b| && HasPath(b, at, path, p)
    ensures var answer := EntryAt(b, at, index, p);
      var local := U32(b, at + 42);
      && (answer == Failure(DamagedDirectory(index + 1)) <==> !Holds(b, at, RECORD_SIGNATURE))
      && (Holds(b, at, RECORD_SIGNATURE) ==>
            if path != [] && path[|path| - 1] == '/' then answer == Success(None)
            else if b[at + 8] % 2 == 1 then answer == Failure(Encrypted(path))
            else if local + 4 > |b| then answer == Failure(PastEnd)
            else if !Holds(b, local, LOCAL_SIGNATURE) then answer == Failure(NoLocalHeader(path))
            else if local + 30 > |b| then answer == Failure(PastEnd)
            else if b[at + 11] != 0 || (b[at + 10] != 0 && b[at + 10] != 8) then
              answer == Failure(MethodNotRead(path, b[at + 10] as int + 0x100 * b[at + 11] as int))
            else
              var said := U32(b, at + 24);
              || (answer.Success? && answer.value.Some? && answer.value.value.path == path && |answer.value.value.data| == said)
              || (b[at + 10] == 8 && answer == Failure(NotInflated))
              || (answer.Failure? && answer.error.WrongSize? && answer.error.path == path && answer.error.said == said
                  && answer.error.came != said))
  {
    hide Sub, NameOf, IsPath, PathAt, HasPath;
    PathIsRead(b, at, p);
    FlagBits(b, at);
    Signed(b, at);
    if U32(b, at + 42) + 4 <= |b| {
      Signed(b, U32(b, at + 42));
    }
  }

  /** A record the archive ends within is past its end, or damaged where its signature is whole and not one's. */
  lemma CutRecordAnswered(b: bytes, at: nat, index: nat, p: Platform)
    requires |b| < at + 46
    ensures EntryAt(b, at, index, p)
         == if at + 4 > |b| || Holds(b, at, RECORD_SIGNATURE) then Failure(PastEnd) else Failure(DamagedDirectory(index + 1))
  {
    if at + 4 <= |b| {
      Signed(b, at);
    }
  }

  // ---------------------------------------------------------------- archives written

  /** The files among members: each member's whose path does not end in a slash, in order. */
  ghost predicate AreFilesOf(members: seq<Member>, entries: seq<ZipEntry>, p: Platform)
    decreases |members|
  {
    if members == [] then entries == []
    else
      exists path: string ::
        && IsPath(members[0].name, members[0].utf8, path, p)
        && if path != [] && path[|path| - 1] == '/' then AreFilesOf(members[1..], entries, p)
           else
             && entries != []
             && entries[0] == ZipEntry(path, members[0].data, DosTime.FromDos(members[0].time, members[0].date))
             && AreFilesOf(members[1..], entries[1..], p)
  }

  lemma {:induction false} FilesAreFiles(members: seq<Member>, p: Platform)
    ensures AreFilesOf(members, FilesOf(members, p), p)
    decreases |members|
  {
    hide IsPath, EntryOf, DosTime.FromDos;
    if members != [] {
      MemberIsFile(members[0], p);
      FilesAreFiles(members[1..], p);
      var entries, rest := FilesOf(members, p), FilesOf(members[1..], p);
      if EntryOf(members[0], p).None? {
        assert entries == rest;
      } else {
        assert entries[1..] == rest;
      }
    }
  }

  lemma MemberIsFile(m: Member, p: Platform)
    ensures exists path: string ::
      && IsPath(m.name, m.utf8, path, p)
      && EntryOf(m, p) == if path != [] && path[|path| - 1] == '/' then None
                          else Some(ZipEntry(path, m.data, DosTime.FromDos(m.time, m.date)))
  {
    hide IsPath, NameOf, DosTime.FromDos;
    NameIsPath(m.name, m.utf8, p);
  }

  /** Reading back an archive written: the files among its members, each with its path, its data and its time. */
  lemma ReadsBack(members: seq<Member>, comment: bytes, p: Platform)
    requires AllInflate(members, p)
    requires Writable(members, comment) && NoLaterEnd(Archive(members, comment), EndPlace(members))
    ensures Files(Archive(members, comment), p).Success?
    ensures AreFilesOf(members, Files(Archive(members, comment), p).value, p)
  {
    hide Files, Archive, Writable, AreFilesOf, FilesOf;
    RoundTrip(members, comment, p);
    FilesAreFiles(members, p);
  }

  /** A member whose name is not UTF-8 is dropped exactly where its last byte is a slash's. */
  lemma DroppedByLastByte(m: Member, p: Platform)
    requires !m.utf8
    ensures EntryOf(m, p) == None <==> m.name != [] && m.name[|m.name| - 1] == 0x2f
  {
    NameIsPath(m.name, m.utf8, p);
  }
}
