/**
 * Archives as the format lays them out, and a writer of them: what the
 * reader of src/zip.ts makes of them.
 */
module ZipFormat {
  import opened Wrappers
  import opened Bytes
  import opened ZipReader
  import DosTime

  /**
   * A file, stored or deflated, or a directory, with what its two headers keep
   * of it, their extra fields each its own.
   */
  datatype Member = Member(
    name: bytes,
    utf8: bool,
    time: word,
    date: word,
    checksum: dword,
    data: bytes,
    deflated: Option<bytes>,
    localExtra: bytes,
    extra: bytes,
    comment: bytes)

  /** A member's bytes in the archive, and the method that keeps them so. */
  function Raw(m: Member): bytes {
    if m.deflated.Some? then m.deflated.value else m.data
  }

  function Method(m: Member): word {
    if m.deflated.Some? then DEFLATED else STORED
  }

  /** What is deflated inflates to the data. */
  predicate Inflates(m: Member, p: Platform) {
    m.deflated.Some? ==> p.inflate(m.deflated.value) == Some(m.data)
  }

  function PathOf(m: Member, p: Platform): string {
    NameOf(m.name, m.utf8, p)
  }

  /** What a member is read as: its file, none for a directory. */
  function EntryOf(m: Member, p: Platform): Option<ZipEntry> {
    if EndsWithSlash(PathOf(m, p)) then None
    else Some(ZipEntry(PathOf(m, p), m.data, DosTime.FromDos(m.time, m.date)))
  }

  /** The files among members, in order, directories left out. */
  function FilesOf(members: seq<Member>, p: Platform): seq<ZipEntry> {
    if members == [] then [] else Listed(EntryOf(members[0], p)) + FilesOf(members[1..], p)
  }

  // ---------------------------------------------------------------- the format

  /** Where a local header's data begins. */
  function DataPlace(b: bytes, local: nat): nat
    requires local + LOCAL_LENGTH <= |b|
  {
    local + 30 + U16(b, local + 26) + U16(b, local + 28)
  }

  /** A local header at a place, its data past a name and an extra field of the header's own lengths. */
  predicate LocalAt(b: bytes, at: nat, data: bytes) {
    && at + LOCAL_LENGTH <= |b| && U32(b, at) == LOCAL_HEADER
    && Holds(b, DataPlace(b, at), data)
  }

  /** A member's record in the central directory, not encrypted. */
  predicate RecordAt(b: bytes, at: nat, m: Member) {
    && at + RECORD_LENGTH <= |b| && U32(b, at) == DIRECTORY_ENTRY
    && !Flag(U16(b, at + 8), 1) && Flag(U16(b, at + 8), 0x800) == m.utf8
    && U16(b, at + 10) == Method(m) && U16(b, at + 12) == m.time && U16(b, at + 14) == m.date
    && U32(b, at + 20) == |Raw(m)| && U32(b, at + 24) == |m.data|
    && U16(b, at + 28) == |m.name| && Holds(b, at + 46, m.name)
  }

  /** A member's record, and its local header where it says unless it is a directory. */
  predicate MemberAt(b: bytes, at: nat, m: Member, p: Platform) {
    RecordAt(b, at, m) && (EndsWithSlash(PathOf(m, p)) || (LocalAt(b, U32(b, at + 42), Raw(m)) && Inflates(m, p)))
  }

  /**
   * Members' records one after another, each with a name, an extra field and
   * a comment of its own lengths, and each file's local header where its
   * record says: in any order, with any gaps.
   */
  predicate DirectoryAt(b: bytes, at: nat, members: seq<Member>, p: Platform)
    decreases |members|
  {
    members == []
    || (&& MemberAt(b, at, members[0], p)
        && DirectoryAt(b, NextRecord(b, at), members[1..], p))
  }

  /** An archive of members: its last end signature that of a record of their directory. */
  predicate IsArchive(b: bytes, members: seq<Member>, p: Platform) {
    && EndOf(b).Some?
    && U16(b, EndOf(b).value + 10) == |members| < 0xffff
    && U32(b, EndOf(b).value + 16) < 0xffff_ffff
    && DirectoryAt(b, U32(b, EndOf(b).value + 16), members, p)
  }

  lemma LocalReads(b: bytes, path: string, local: dword, m: Member, compressed: dword, p: Platform)
    requires LocalAt(b, local, Raw(m)) && Inflates(m, p) && compressed == |Raw(m)|
    ensures DataOf(b, path, local, Method(m), compressed, p) == Success(m.data)
  {
    hide U16, U32;
  }

  lemma MemberReads(b: bytes, at: nat, index: nat, m: Member, p: Platform)
    requires MemberAt(b, at, m, p)
    ensures EntryAt(b, at, index, p) == Success(EntryOf(m, p))
  {
    hide U16, U32, LocalAt, DataOf, Flag, Raw, Method, Inflates, EndsWithSlash;
    assert PathAt(b, at, p) == PathOf(m, p);
    if !EndsWithSlash(PathOf(m, p)) {
      LocalReads(b, PathOf(m, p), U32(b, at + 42), m, U32(b, at + 20), p);
    }
  }

  lemma {:induction false} DirectoryReads(b: bytes, at: nat, index: nat, count: nat, members: seq<Member>, p: Platform)
    requires DirectoryAt(b, at, members, p) && count == index + |members|
    ensures Directory(b, at, index, count, p) == Success(FilesOf(members, p))
    decreases |members|
  {
    hide EntryOf, Listed, MemberAt, EntryAt, NextRecord;
    if members != [] {
      RecordIsWithin(b, at, members[0], p);
      MemberReads(b, at, index, members[0], p);
      DirectoryReads(b, NextRecord(b, at), index + 1, count, members[1..], p);
    }
  }

  lemma RecordIsWithin(b: bytes, at: nat, m: Member, p: Platform)
    requires MemberAt(b, at, m, p)
    ensures at + RECORD_LENGTH <= |b|
  {
  }

  /** Every archive the format lays out reads as its files, in its directory's order, directories left out. */
  lemma ArchiveReads(b: bytes, members: seq<Member>, p: Platform)
    requires IsArchive(b, members, p)
    ensures Files(b, p) == Success(FilesOf(members, p))
  {
    hide Directory, DirectoryAt, FilesOf, U32, U16;
    DirectoryReads(b, U32(b, EndOf(b).value + 16), 0, |members|, members, p);
  }

  // ---------------------------------------------------------------- any archive accepted

  /** A record's place, where it names no directory. */
  function FilePlace(b: bytes, at: nat, p: Platform): seq<nat>
    requires at + RECORD_LENGTH <= |b|
  {
    if EndsWithSlash(PathAt(b, at, p)) then [] else [at]
  }

  /** The places of a directory's records that name no directory, from one on. */
  function FilePlaces(b: bytes, at: nat, count: nat, p: Platform): seq<nat>
    decreases count
  {
    if count == 0 || at + RECORD_LENGTH > |b| then []
    else FilePlace(b, at, p) + FilePlaces(b, NextRecord(b, at), count - 1, p)
  }

  /** As many bytes as there are to be at a place, or all there are from it to the archive's end. */
  predicate IsRaw(b: bytes, place: nat, length: nat, raw: bytes) {
    if place + length <= |b| then raw == b[place..place + length]
    else raw == if place <= |b| then b[place..] else []
  }

  /** Data by its local header's place: the bytes recorded there if they are stored, and else what those bytes inflate to. */
  ghost predicate IsDataAt(b: bytes, local: nat, compression: word, compressed: dword, data: bytes, p: Platform) {
    && local + LOCAL_LENGTH <= |b| && U32(b, local) == LOCAL_HEADER
    && exists raw: bytes ::
         && IsRaw(b, DataPlace(b, local), compressed, raw)
         && ((compression == STORED && data == raw) || (compression == DEFLATED && p.inflate(raw) == Some(data)))
  }

  lemma SubIsRaw(b: bytes, place: nat, length: nat)
    ensures IsRaw(b, place, length, Sub(b, place, place + length))
  {
  }

  lemma DataRead(b: bytes, path: string, local: dword, compression: word, compressed: dword, p: Platform)
    requires DataOf(b, path, local, compression, compressed, p).Success?
    ensures IsDataAt(b, local, compression, compressed, DataOf(b, path, local, compression, compressed, p).value, p)
  {
    hide U16, U32, Sub, IsRaw;
    SubIsRaw(b, DataPlace(b, local), compressed);
  }

  /** So many records of a directory one after another, all within the archive. */
  predicate AreRecords(b: bytes, at: nat, count: nat)
    decreases count
  {
    count == 0
    || (at + RECORD_LENGTH <= |b| && U32(b, at) == DIRECTORY_ENTRY && AreRecords(b, NextRecord(b, at), count - 1))
  }

  /** A file as its record says: its path, its data, of the size recorded, and its time. */
  ghost predicate AsRecorded(b: bytes, at: nat, entry: ZipEntry, p: Platform) {
    && at + RECORD_LENGTH <= |b| && U32(b, at) == DIRECTORY_ENTRY
    && entry.path == PathAt(b, at, p) && |entry.data| == U32(b, at + 24)
    && IsDataAt(b, U32(b, at + 42), U16(b, at + 10), U32(b, at + 20), entry.data, p)
    && entry.modified == DosTime.FromDos(U16(b, at + 12), U16(b, at + 14))
  }

  ghost predicate AllAsRecorded(b: bytes, places: seq<nat>, entries: seq<ZipEntry>, p: Platform) {
    |entries| == |places| && forall k :: 0 <= k < |entries| ==> AsRecorded(b, places[k], entries[k], p)
  }

  lemma FileAsRecorded(b: bytes, at: nat, index: nat, p: Platform)
    requires EntryAt(b, at, index, p).Success?
    ensures at + RECORD_LENGTH <= |b| && U32(b, at) == DIRECTORY_ENTRY
    ensures EntryAt(b, at, index, p).value.None? <==> EndsWithSlash(PathAt(b, at, p))
    ensures EntryAt(b, at, index, p).value.Some? ==> AsRecorded(b, at, EntryAt(b, at, index, p).value.value, p)
  {
    hide IsDataAt, DataOf, U16, U32, EndsWithSlash, PathAt;
    var entry := EntryAt(b, at, index, p).value;
    if entry.Some? {
      DataRead(b, entry.value.path, U32(b, at + 42), U16(b, at + 10), U32(b, at + 20), p);
    }
  }

  lemma EntryAsRecorded(b: bytes, at: nat, index: nat, p: Platform)
    requires EntryAt(b, at, index, p).Success?
    ensures at + RECORD_LENGTH <= |b| && U32(b, at) == DIRECTORY_ENTRY
    ensures AllAsRecorded(b, FilePlace(b, at, p), Listed(EntryAt(b, at, index, p).value), p)
  {
    FileAsRecorded(b, at, index, p);
    hide EntryAt, AsRecorded, PathAt, EndsWithSlash;
  }

  lemma RecordedTogether(b: bytes, a: seq<nat>, e: seq<ZipEntry>, a': seq<nat>, e': seq<ZipEntry>, p: Platform)
    requires AllAsRecorded(b, a, e, p) && AllAsRecorded(b, a', e', p)
    ensures AllAsRecorded(b, a + a', e + e', p)
  {
    hide AsRecorded;
  }

  lemma DirectoryStep(b: bytes, at: nat, index: nat, count: nat, p: Platform)
    requires index < count && Directory(b, at, index, count, p).Success?
    ensures EntryAt(b, at, index, p).Success? && Directory(b, NextRecord(b, at), index + 1, count, p).Success?
    ensures Directory(b, at, index, count, p).value
         == Listed(EntryAt(b, at, index, p).value) + Directory(b, NextRecord(b, at), index + 1, count, p).value
    ensures FilePlaces(b, at, count - index, p)
         == FilePlace(b, at, p) + FilePlaces(b, NextRecord(b, at), count - (index + 1), p)
  {
    hide EntryAt, FilePlace, Listed;
  }

  lemma {:induction false} DirectoryAsRecorded(b: bytes, at: nat, index: nat, count: nat, p: Platform)
    requires index <= count && Directory(b, at, index, count, p).Success?
    ensures AreRecords(b, at, count - index)
    ensures AllAsRecorded(b, FilePlaces(b, at, count - index, p), Directory(b, at, index, count, p).value, p)
    decreases count - index
  {
    hide EntryAt, AsRecorded, FilePlace, NextRecord, Listed, U32;
    if index < count {
      DirectoryStep(b, at, index, count, p);
      var entry, next := EntryAt(b, at, index, p).value, NextRecord(b, at);
      EntryAsRecorded(b, at, index, p);
      DirectoryAsRecorded(b, next, index + 1, count, p);
      RecordedTogether(b, FilePlace(b, at, p), Listed(entry), FilePlaces(b, next, count - (index + 1), p),
                       Directory(b, next, index + 1, count, p).value, p);
    }
  }

  /**
   * Any archive accepted has as many records as its end record says, one after
   * another within it, and yields one entry for each that is no directory's:
   * the data it places, of the recorded size.
   */
  lemma AcceptedAsRecorded(b: bytes, p: Platform)
    requires Files(b, p).Success?
    ensures EndOf(b).Some?
    ensures var at, count := U32(b, EndOf(b).value + 16), U16(b, EndOf(b).value + 10);
            AreRecords(b, at, count) && AllAsRecorded(b, FilePlaces(b, at, count, p), Files(b, p).value, p)
  {
    hide AllAsRecorded, Directory, FilePlaces, AreRecords, U32, U16;
    DirectoryAsRecorded(b, U32(b, EndOf(b).value + 16), 0, U16(b, EndOf(b).value + 10), p);
  }

  // ---------------------------------------------------------------- a writer

  predicate Fits(m: Member) {
    && |m.name| < 0x1_0000 && |m.localExtra| < 0x1_0000 && |m.extra| < 0x1_0000 && |m.comment| < 0x1_0000
    && |m.data| < 0x1_0000_0000 && |Raw(m)| < 0x1_0000_0000
  }

  function FlagsOf(m: Member): word {
    if m.utf8 then 0x800 else 0
  }

  /** Section 4.3.7: a local header, before its name. */
  function LocalHeader(m: Member): (h: bytes)
    requires Fits(m)
    ensures |h| == LOCAL_LENGTH
  {
    DWord(LOCAL_HEADER) + Word(20) + Word(FlagsOf(m)) + Word(Method(m)) + Word(m.time) + Word(m.date)
      + DWord(m.checksum) + DWord(|Raw(m)|) + DWord(|m.data|) + Word(|m.name|) + Word(|m.localExtra|)
  }

  /** Section 4.3.12: a record of the central directory, before its name. */
  function RecordHeader(m: Member, local: dword): (h: bytes)
    requires Fits(m)
    ensures |h| == RECORD_LENGTH
  {
    DWord(DIRECTORY_ENTRY) + Word(20) + Word(20) + Word(FlagsOf(m)) + Word(Method(m)) + Word(m.time) + Word(m.date)
      + DWord(m.checksum) + DWord(|Raw(m)|) + DWord(|m.data|)
      + Word(|m.name|) + Word(|m.extra|) + Word(|m.comment|)
      + Word(0) + Word(0) + DWord(0) + DWord(local)
  }

  /** Section 4.3.16: the end record, before its comment. */
  function EndRecord(count: word, size: dword, offset: dword, comment: word): (h: bytes)
    ensures |h| == END_LENGTH
  {
    DWord(END_OF_DIRECTORY) + Word(0) + Word(0) + Word(count) + Word(count) + DWord(size) + DWord(offset) + Word(comment)
  }

  lemma LocalFields(m: Member)
    requires Fits(m)
    ensures var h := LocalHeader(m);
            U32(h, 0) == LOCAL_HEADER && U16(h, 26) == |m.name| && U16(h, 28) == |m.localExtra|
  {
  }

  lemma RecordFields(m: Member, local: dword)
    requires Fits(m)
    ensures var h := RecordHeader(m, local);
            && U32(h, 0) == DIRECTORY_ENTRY && U16(h, 8) == FlagsOf(m) && U16(h, 10) == Method(m)
            && U16(h, 12) == m.time && U16(h, 14) == m.date && U32(h, 20) == |Raw(m)| && U32(h, 24) == |m.data|
            && U16(h, 28) == |m.name| && U16(h, 30) == |m.extra| && U16(h, 32) == |m.comment| && U32(h, 42) == local
  {
    hide Word, DWord, Raw, Method, FlagsOf;
  }

  lemma EndFields(count: word, size: dword, offset: dword, comment: word)
    ensures var h := EndRecord(count, size, offset, comment);
            U32(h, 0) == END_OF_DIRECTORY && U16(h, 10) == count && U32(h, 16) == offset
  {
  }

  function LocalPart(m: Member): (part: bytes)
    requires Fits(m)
    ensures |part| >= LOCAL_LENGTH
  {
    LocalHeader(m) + (m.name + (m.localExtra + Raw(m)))
  }

  function RecordPart(m: Member, local: dword): (part: bytes)
    requires Fits(m)
  {
    RecordHeader(m, local) + (m.name + (m.extra + m.comment))
  }

  predicate AllFit(members: seq<Member>) {
    forall k :: 0 <= k < |members| ==> Fits(members[k])
  }

  predicate AllInflate(members: seq<Member>, p: Platform) {
    forall k :: 0 <= k < |members| ==> Inflates(members[k], p)
  }

  /** Every member's local header and data, one after another. */
  function Locals(members: seq<Member>): bytes
    requires AllFit(members)
  {
    if members == [] then [] else LocalPart(members[0]) + Locals(members[1..])
  }

  /** Every member's record, the first member's local header at a place. */
  function Records(members: seq<Member>, local: nat): bytes
    requires AllFit(members) && local + |Locals(members)| < 0xffff_ffff
  {
    if members == [] then []
    else RecordPart(members[0], local) + Records(members[1..], local + |LocalPart(members[0])|)
  }

  /** What an archive without the zip64 extension can hold. */
  predicate Writable(members: seq<Member>, comment: bytes) {
    && AllFit(members) && |members| < 0xffff && |comment| < 0x1_0000
    && |Locals(members)| < 0xffff_ffff && |Records(members, 0)| < 0x1_0000_0000
  }

  function Archive(members: seq<Member>, comment: bytes): bytes
    requires Writable(members, comment)
  {
    Locals(members) + (Records(members, 0)
      + (EndRecord(|members|, |Records(members, 0)|, |Locals(members)|, |comment|) + comment))
  }

  function EndPlace(members: seq<Member>): nat
    requires AllFit(members) && |Locals(members)| < 0xffff_ffff
  {
    |Locals(members)| + |Records(members, 0)|
  }

  lemma LocalWritten(b: bytes, at: nat, m: Member)
    requires Fits(m) && Holds(b, at, LocalPart(m))
    ensures LocalAt(b, at, Raw(m))
  {
    hide LocalHeader, U16, U32, Raw, Holds;
    var h := LocalHeader(m);
    HeldInTwo(b, at, h, m.name + (m.localExtra + Raw(m)));
    HeldInTwo(b, at + 30, m.name, m.localExtra + Raw(m));
    HeldInTwo(b, at + 30 + |m.name|, m.localExtra, Raw(m));
    LocalFields(m);
    HeldDWord(b, at, h, 0);
    HeldWord(b, at, h, 26);
    HeldWord(b, at, h, 28);
  }

  lemma RecordWritten(b: bytes, at: nat, m: Member, local: dword)
    requires Fits(m) && Holds(b, at, RecordPart(m, local))
    ensures RecordAt(b, at, m) && at + RECORD_LENGTH <= |b|
    ensures U32(b, at + 42) == local && NextRecord(b, at) == at + |RecordPart(m, local)|
  {
    hide RecordHeader;
    var h := RecordHeader(m, local);
    HeldInTwo(b, at, h, m.name + (m.extra + m.comment));
    HeldInTwo(b, at + 46, m.name, m.extra + m.comment);
    RecordFields(m, local);
    HeldDWord(b, at, h, 0);
    HeldWord(b, at, h, 8);
    HeldWord(b, at, h, 10);
    HeldWord(b, at, h, 12);
    HeldWord(b, at, h, 14);
    HeldDWord(b, at, h, 20);
    HeldDWord(b, at, h, 24);
    HeldWord(b, at, h, 28);
    HeldWord(b, at, h, 30);
    HeldWord(b, at, h, 32);
    HeldDWord(b, at, h, 42);
    FlagsRead(m);
  }

  lemma FlagsRead(m: Member)
    ensures !Flag(FlagsOf(m), 1) && Flag(FlagsOf(m), 0x800) == m.utf8
  {
  }

  lemma {:induction false} DirectoryWritten(b: bytes, local: nat, at: nat, members: seq<Member>, p: Platform)
    requires AllFit(members) && AllInflate(members, p) && local + |Locals(members)| < 0xffff_ffff
    requires Holds(b, local, Locals(members)) && Holds(b, at, Records(members, local))
    ensures DirectoryAt(b, at, members, p)
    decreases |members|
  {
    hide LocalAt, RecordAt, LocalPart, RecordPart, Holds, PathOf, EndsWithSlash, U16, U32, NextRecord, Raw, Inflates;
    if members != [] {
      var m, rest := members[0], members[1..];
      var next := local + |LocalPart(m)|;
      HeldInTwo(b, local, LocalPart(m), Locals(rest));
      HeldInTwo(b, at, RecordPart(m, local), Records(rest, next));
      LocalWritten(b, local, m);
      RecordWritten(b, at, m, local);
      DirectoryWritten(b, next, NextRecord(b, at), rest, p);
    }
  }

  lemma EndPlaced(locals: bytes, records: bytes, h: bytes, comment: bytes)
    requires |h| == END_LENGTH && |comment| < 0x1_0000 && U32(h, 0) == END_OF_DIRECTORY
    ensures var b := locals + (records + (h + comment));
            var end := |locals| + |records|;
            && InWindow(b, end) && IsEndAt(b, end)
            && U16(b, end + 10) == U16(h, 10) && U32(b, end + 16) == U32(h, 16)
            && Holds(b, 0, locals) && Holds(b, |locals|, records)
  {
  }

  lemma EndWritten(members: seq<Member>, comment: bytes)
    requires Writable(members, comment)
    ensures var b := Archive(members, comment);
            var end := EndPlace(members);
            && InWindow(b, end) && IsEndAt(b, end)
            && U16(b, end + 10) == |members| && U32(b, end + 16) == |Locals(members)|
            && Holds(b, 0, Locals(members)) && Holds(b, |Locals(members)|, Records(members, 0))
  {
    hide EndRecord, Locals, Records, Holds, InWindow, IsEndAt;
    var locals, records := Locals(members), Records(members, 0);
    EndFields(|members|, |records|, |locals|, |comment|);
    EndPlaced(locals, records, EndRecord(|members|, |records|, |locals|, |comment|), comment);
  }

  /** No end signature after a place, with a record's length still to come. */
  predicate NoLaterEnd(b: bytes, end: nat) {
    forall at :: end < at <= |b| - END_LENGTH ==> U32(b, at) != END_OF_DIRECTORY
  }

  /**
   * The search finds a record in its window exactly when no later signature
   * stands before a record's length; it finds none exactly when the window
   * holds none.
   */
  lemma LastEndIsFound(b: bytes, end: nat)
    ensures EndOf(b) == Some(end) <==> InWindow(b, end) && IsEndAt(b, end) && NoLaterEnd(b, end)
    ensures EndOf(b) == None <==> forall at :: InWindow(b, at) ==> !IsEndAt(b, at)
  {
    if EndOf(b) == Some(end) {
      forall at | end < at <= |b| - END_LENGTH ensures U32(b, at) != END_OF_DIRECTORY {
        assert InWindow(b, at) && !IsEndAt(b, at);
      }
    }
  }

  /** The window reaches the end record of every archive written, whatever its comment. */
  lemma EndFoundExactly(members: seq<Member>, comment: bytes)
    requires Writable(members, comment)
    ensures EndOf(Archive(members, comment)) == Some(EndPlace(members))
       <==> NoLaterEnd(Archive(members, comment), EndPlace(members))
  {
    EndWritten(members, comment);
    hide Archive, EndPlace, EndOf, NoLaterEnd, InWindow, IsEndAt;
    LastEndIsFound(Archive(members, comment), EndPlace(members));
  }

  lemma DirectoryIsArchive(b: bytes, end: nat, members: seq<Member>, at: nat, p: Platform)
    requires EndOf(b) == Some(end) && U16(b, end + 10) == |members| < 0xffff
    requires U32(b, end + 16) == at < 0xffff_ffff && DirectoryAt(b, at, members, p)
    ensures IsArchive(b, members, p)
  {
  }

  lemma WrittenIsArchive(members: seq<Member>, comment: bytes, p: Platform)
    requires AllInflate(members, p)
    requires Writable(members, comment) && NoLaterEnd(Archive(members, comment), EndPlace(members))
    ensures IsArchive(Archive(members, comment), members, p)
  {
    EndFoundExactly(members, comment);
    EndWritten(members, comment);
    hide Archive, EndPlace, Locals, Records, NoLaterEnd, IsArchive, EndOf, DirectoryAt, Holds, AllInflate;
    var b := Archive(members, comment);
    DirectoryWritten(b, 0, |Locals(members)|, members, p);
    DirectoryIsArchive(b, EndPlace(members), members, |Locals(members)|, p);
  }

  /**
   * Reading back an archive written: exactly the files, in the directory's
   * order, directories left out, whatever the extra fields and comments.
   */
  lemma RoundTrip(members: seq<Member>, comment: bytes, p: Platform)
    requires AllInflate(members, p)
    requires Writable(members, comment) && NoLaterEnd(Archive(members, comment), EndPlace(members))
    ensures Files(Archive(members, comment), p) == Success(FilesOf(members, p))
  {
    WrittenIsArchive(members, comment, p);
    hide Archive, IsArchive, Files, FilesOf, NoLaterEnd, Writable, EndPlace;
    ArchiveReads(Archive(members, comment), members, p);
  }
}
