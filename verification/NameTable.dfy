/**
 * The archaic name table resource of older executables (`_readNameTable` of
 * src/executable.ts). Its texts are kept here as their characters' codes.
 */
module NameTable {
  import opened Bytes

  /** An entry: a resource's type and number, and their names, empty where a number does. */
  datatype NameEntry = NameEntry(kind: nat, id: nat, typeName: bytes, name: bytes)

  /** The names of resources by type and number, and of types by number. */
  datatype Names = Names(names: map<(nat, nat), bytes>, typeNames: map<nat, bytes>)

  const NO_NAMES := Names(map[], map[])

  /** The codes from a place up to a nought or an end. */
  function Text(view: bytes, at: nat, end: nat): (text: bytes)
    requires end <= |view|
    ensures at <= end ==> at + |text| <= end
    ensures at > end ==> text == []
    decreases if at < end then end - at else 0
  {
    if at >= end || view[at] == 0 then [] else [view[at]] + Text(view, at + 1, end)
  }

  /** The entry at a place, its texts within its length and the bytes there are. */
  function EntryAt(view: bytes, offset: nat): NameEntry
    requires offset + 6 <= |view|
  {
    var end := Min(offset + U16(view, offset), |view|);
    var typeName := Text(view, offset + 6, end);
    var name := Text(view, offset + 6 + |typeName| + 1, end);
    NameEntry(U16(view, offset + 2) % 0x8000, U16(view, offset + 4) % 0x8000, typeName, name)
  }

  /** Whether there is an entry at a place: within the resource, its fixed part in the bytes, and no shorter. */
  predicate HasEntry(view: bytes, length: int, offset: nat) {
    offset < length && offset + 6 <= |view| && U16(view, offset) >= 6
  }

  /** The table's entries from a place on. */
  function Entries(view: bytes, length: int, offset: nat): seq<NameEntry>
    decreases if offset < |view| then |view| - offset else 0
  {
    if HasEntry(view, length, offset)
    then [EntryAt(view, offset)] + Entries(view, length, offset + U16(view, offset))
    else []
  }

  /** An entry's names put among those so far, over any for the same type and number. */
  function Put(names: Names, entry: NameEntry): Names {
    Names(if entry.name != [] then names.names[(entry.kind, entry.id) := entry.name] else names.names,
          if entry.typeName != [] then names.typeNames[entry.kind := entry.typeName] else names.typeNames)
  }

  function PutAll(names: Names, entries: seq<NameEntry>): Names
    decreases |entries|
  {
    if entries == [] then names else PutAll(Put(names, entries[0]), entries[1..])
  }

  method ReadText(view: bytes, start: nat, end: nat) returns (text: bytes)
    requires end <= |view|
    ensures text == Text(view, start, end)
  {
    var at := start;
    text := [];
    while at < end && view[at] != 0
      invariant at == start + |text| && (start <= end ==> at <= end)
      invariant Text(view, start, end) == text + Text(view, at, end)
    {
      text := text + [view[at]];
      at := at + 1;
    }
  }

  /** The entry at a place, its two texts read one after the other. */
  method ReadEntry(view: bytes, offset: nat) returns (entry: NameEntry)
    requires offset + 6 <= |view|
    ensures entry == EntryAt(view, offset)
  {
    var kind, id := U16(view, offset + 2) % 0x8000, U16(view, offset + 4) % 0x8000;
    var end := Min(offset + U16(view, offset), |view|);
    var at := offset + 6;
    var typeName := ReadText(view, at, end);
    at := at + |typeName| + 1;
    var name := ReadText(view, at, end);
    entry := NameEntry(kind, id, typeName, name);
  }

  method ReadNameTable(view: bytes, length: int) returns (names: Names)
    ensures names == PutAll(NO_NAMES, Entries(view, length, 0))
  {
    hide EntryAt;
    names := NO_NAMES;
    var offset: nat := 0;
    while offset < length && offset + 6 <= |view|
      invariant PutAll(NO_NAMES, Entries(view, length, 0)) == PutAll(names, Entries(view, length, offset))
      decreases |view| + 6 - offset
    {
      if U16(view, offset) < 6 {
        break;
      }
      var entry := ReadEntry(view, offset);
      PutFirst(names, entry, Entries(view, length, offset + U16(view, offset)));
      if entry.typeName != [] {
        names := names.(typeNames := names.typeNames[entry.kind := entry.typeName]);
      }
      if entry.name != [] {
        names := names.(names := names.names[(entry.kind, entry.id) := entry.name]);
      }
      offset := offset + U16(view, offset);
    }
  }

  lemma PutFirst(names: Names, entry: NameEntry, rest: seq<NameEntry>)
    ensures PutAll(names, [entry] + rest) == PutAll(Put(names, entry), rest)
  {
  }

  // ---------------------------------------------------------------- the last entry wins

  predicate ResourceNames(entry: NameEntry, key: (nat, nat)) {
    entry.kind == key.0 && entry.id == key.1 && entry.name != []
  }

  /** The place of the last entry that names a type and number, if one does. */
  function LastNaming(entries: seq<NameEntry>, key: (nat, nat)): (last: int)
    ensures -1 <= last < |entries|
    ensures last >= 0 ==> ResourceNames(entries[last], key)
    ensures forall k :: last < k < |entries| ==> !ResourceNames(entries[k], key)
  {
    if entries == [] then -1
    else
      var later := LastNaming(entries[1..], key);
      if later >= 0 then later + 1 else if ResourceNames(entries[0], key) then 0 else -1
  }

  /** A resource's name is that of the last entry for its type and number with one, and there is one only then. */
  lemma {:induction false} LastEntryWins(names: Names, entries: seq<NameEntry>, key: (nat, nat))
    ensures var all, last := PutAll(names, entries).names, LastNaming(entries, key);
            if last >= 0 then key in all && all[key] == entries[last].name
            else (key in all <==> key in names.names) && (key in all ==> all[key] == names.names[key])
    decreases |entries|
  {
    if entries != [] {
      LastEntryWins(Put(names, entries[0]), entries[1..], key);
    }
  }

  predicate TypeNames(entry: NameEntry, kind: nat) {
    entry.kind == kind && entry.typeName != []
  }

  /** The place of the last entry that names a type, if one does. */
  function LastTyping(entries: seq<NameEntry>, kind: nat): (last: int)
    ensures -1 <= last < |entries|
    ensures last >= 0 ==> TypeNames(entries[last], kind)
    ensures forall k :: last < k < |entries| ==> !TypeNames(entries[k], kind)
  {
    if entries == [] then -1
    else
      var later := LastTyping(entries[1..], kind);
      if later >= 0 then later + 1 else if TypeNames(entries[0], kind) then 0 else -1
  }

  /** A type's name is that of the last entry that has one for it, and there is one only then. */
  lemma {:induction false} LastTypeNameWins(names: Names, entries: seq<NameEntry>, kind: nat)
    ensures var all, last := PutAll(names, entries).typeNames, LastTyping(entries, kind);
            if last >= 0 then kind in all && all[kind] == entries[last].typeName
            else (kind in all <==> kind in names.typeNames) && (kind in all ==> all[kind] == names.typeNames[kind])
    decreases |entries|
  {
    if entries != [] {
      LastTypeNameWins(Put(names, entries[0]), entries[1..], kind);
    }
  }

  // ---------------------------------------------------------------- the format, and a table cut short

  predicate Fits(entry: NameEntry) {
    && entry.kind < 0x8000 && entry.id < 0x8000 && 0 !in entry.typeName && 0 !in entry.name
    && 8 + |entry.typeName| + |entry.name| < 0x1_0000
  }

  predicate AllFit(entries: seq<NameEntry>) {
    forall k :: 0 <= k < |entries| ==> Fits(entries[k])
  }

  function EntryLength(entry: NameEntry): nat {
    8 + |entry.typeName| + |entry.name|
  }

  function EntryBytes(entry: NameEntry): (b: bytes)
    requires Fits(entry)
    ensures |b| == EntryLength(entry)
    ensures U16(b, 0) == EntryLength(entry) && U16(b, 2) % 0x8000 == entry.kind && U16(b, 4) % 0x8000 == entry.id
    ensures forall k :: 0 <= k < |entry.typeName| ==> b[6 + k] == entry.typeName[k]
    ensures b[6 + |entry.typeName|] == 0
    ensures forall k :: 0 <= k < |entry.name| ==> b[7 + |entry.typeName| + k] == entry.name[k]
    ensures b[7 + |entry.typeName| + |entry.name|] == 0
  {
    Word(EntryLength(entry)) + Word(0x8000 + entry.kind) + Word(0x8000 + entry.id)
      + (entry.typeName + [0]) + (entry.name + [0])
  }

  function TableBytes(entries: seq<NameEntry>): bytes
    requires AllFit(entries)
  {
    if entries == [] then [] else EntryBytes(entries[0]) + TableBytes(entries[1..])
  }

  /** What is left of an entry with so many bytes of its texts' part before a cut. */
  function Clipped(entry: NameEntry, room: nat): NameEntry {
    var typeName := entry.typeName[..Min(room, |entry.typeName|)];
    var left := if room > |entry.typeName| + 1 then room - |entry.typeName| - 1 else 0;
    entry.(typeName := typeName, name := entry.name[..Min(left, |entry.name|)])
  }

  /** The whole entries before a cut, and the one it falls in where its fixed part is whole. */
  function CutEntries(entries: seq<NameEntry>, cut: nat): (r: seq<NameEntry>)
    decreases |entries|
  {
    if entries == [] then []
    else if cut >= EntryLength(entries[0]) then
      [entries[0]] + CutEntries(entries[1..], cut - EntryLength(entries[0]))
    else if cut >= 6 then [Clipped(entries[0], cut - 6)]
    else []
  }

  lemma {:induction false} TextReads(view: bytes, at: nat, end: nat, text: bytes)
    requires at <= end <= |view| && 0 !in text
    requires forall k :: 0 <= k < |text| && at + k < end ==> view[at + k] == text[k]
    requires at + |text| < end ==> view[at + |text|] == 0
    ensures Text(view, at, end) == text[..Min(end - at, |text|)]
    decreases |text|
  {
    if text != [] && at < end {
      assert view[at + 0] == text[0];
      forall k | 0 <= k < |text| - 1 && at + 1 + k < end ensures view[at + 1 + k] == text[1..][k] {
        assert view[at + (k + 1)] == text[k + 1];
      }
      TextReads(view, at + 1, end, text[1..]);
    }
  }

  /** Bytes from a place on that are the front of others. */
  predicate Starts(view: bytes, at: nat, whole: bytes) {
    at <= |view| && forall k :: 0 <= k < |whole| && at + k < |view| ==> view[at + k] == whole[k]
  }

  lemma StartsAt(view: bytes, at: nat, whole: bytes, k: nat)
    requires Starts(view, at, whole) && k < |whole| && at + k < |view|
    ensures view[at + k] == whole[k]
  {
  }

  /** A text among an entry's bytes, and the nought after it, as far as there are any. */
  lemma TextAmongReads(view: bytes, offset: nat, whole: bytes, front: nat, text: bytes, end: nat)
    requires Starts(view, offset, whole) && front + |text| < |whole| && 0 !in text
    requires forall k :: 0 <= k < |text| ==> whole[front + k] == text[k]
    requires whole[front + |text|] == 0
    requires offset + front <= end <= |view|
    ensures Text(view, offset + front, end) == text[..Min(end - (offset + front), |text|)]
  {
    hide Text, Starts;
    var at := offset + front;
    forall k | 0 <= k < |text| && at + k < end ensures view[at + k] == text[k] {
      StartsAt(view, offset, whole, front + k);
    }
    if at + |text| < end {
      StartsAt(view, offset, whole, front + |text|);
    }
    TextReads(view, at, end, text);
  }

  lemma TypeTextReads(view: bytes, offset: nat, entry: NameEntry)
    requires Fits(entry) && Starts(view, offset, EntryBytes(entry)) && offset + 6 <= |view|
    ensures var end := Min(offset + EntryLength(entry), |view|);
            Text(view, offset + 6, end) == entry.typeName[..Min(end - offset - 6, |entry.typeName|)]
  {
    hide Text, EntryBytes, Starts;
    TextAmongReads(view, offset, EntryBytes(entry), 6, entry.typeName, Min(offset + EntryLength(entry), |view|));
  }

  lemma NameTextReads(view: bytes, offset: nat, entry: NameEntry)
    requires Fits(entry) && Starts(view, offset, EntryBytes(entry))
    ensures var end, at := Min(offset + EntryLength(entry), |view|), offset + 7 + |entry.typeName|;
            at <= end ==> Text(view, at, end) == entry.name[..Min(end - at, |entry.name|)]
  {
    hide Text, EntryBytes, Starts;
    var end, front := Min(offset + EntryLength(entry), |view|), 7 + |entry.typeName|;
    if offset + front <= end {
      TextAmongReads(view, offset, EntryBytes(entry), front, entry.name, end);
    }
  }

  lemma FixedPartReads(view: bytes, offset: nat, entry: NameEntry)
    requires Fits(entry) && Starts(view, offset, EntryBytes(entry)) && offset + 6 <= |view|
    ensures U16(view, offset) == EntryLength(entry)
    ensures U16(view, offset + 2) % 0x8000 == entry.kind && U16(view, offset + 4) % 0x8000 == entry.id
  {
  }

  lemma EntryReads(view: bytes, offset: nat, entry: NameEntry)
    requires Fits(entry) && Starts(view, offset, EntryBytes(entry)) && offset + 6 <= |view|
    ensures U16(view, offset) == EntryLength(entry)
    ensures EntryAt(view, offset)
         == if offset + EntryLength(entry) <= |view| then entry else Clipped(entry, |view| - offset - 6)
  {
    hide Text, Starts, EntryBytes, U16, Fits;
    FixedPartReads(view, offset, entry);
    TypeTextReads(view, offset, entry);
    NameTextReads(view, offset, entry);
  }

  lemma StartsInTwo(view: bytes, at: nat, front: bytes, rest: bytes)
    requires Starts(view, at, front + rest)
    ensures Starts(view, at, front)
    ensures at + |front| <= |view| ==> Starts(view, at + |front|, rest)
  {
    forall k | 0 <= k < |front| && at + k < |view| ensures view[at + k] == front[k] {
      assert view[at + k] == (front + rest)[k];
    }
    forall k | 0 <= k < |rest| && at + |front| + k < |view| ensures view[at + |front| + k] == rest[k] {
      assert view[at + (|front| + k)] == (front + rest)[|front| + k];
    }
  }

  lemma EntriesStep(view: bytes, length: int, offset: nat, entry: NameEntry)
    requires Fits(entry) && Starts(view, offset, EntryBytes(entry)) && |view| <= length
    ensures var next := offset + EntryLength(entry);
            Entries(view, length, offset)
            == if next <= |view| then [entry] + Entries(view, length, next)
               else if offset + 6 <= |view| then [Clipped(entry, |view| - offset - 6)]
               else []
  {
    hide EntryAt, EntryBytes, Clipped, U16, Starts, Fits;
    if offset + 6 <= |view| {
      EntryReads(view, offset, entry);
      if offset + EntryLength(entry) > |view| {
        NothingPastTheEnd(view, length, offset + EntryLength(entry));
      }
    }
  }

  lemma NothingPastTheEnd(view: bytes, length: int, offset: nat)
    requires offset + 6 > |view|
    ensures Entries(view, length, offset) == []
  {
  }

  lemma CutStep(entries: seq<NameEntry>, cut: nat)
    requires entries != []
    ensures CutEntries(entries, cut)
         == if cut >= EntryLength(entries[0])
            then [entries[0]] + CutEntries(entries[1..], cut - EntryLength(entries[0]))
            else if cut >= 6 then [Clipped(entries[0], cut - 6)]
            else []
  {
  }

  /**
   * A table's bytes, as far as there are any, read as the whole entries they
   * hold and at most one clipped: for a resource's length at least the bytes
   * read of it. With all of them, as every entry.
   */
  lemma {:induction false} CutTableReads(view: bytes, length: int, offset: nat, entries: seq<NameEntry>)
    requires AllFit(entries) && Starts(view, offset, TableBytes(entries))
    requires |view| <= length && |view| - offset <= |TableBytes(entries)| && offset <= |view|
    ensures Entries(view, length, offset) == CutEntries(entries, |view| - offset)
    decreases |entries|
  {
    hide EntryBytes, Clipped, Starts, Entries, CutEntries, Fits, TableBytes;
    TableOfMore(entries);
    if entries == [] {
      NothingPastTheEnd(view, length, offset);
      NothingToCut(|view| - offset);
    } else {
      var entry, rest := entries[0], entries[1..];
      StartsInTwo(view, offset, EntryBytes(entry), TableBytes(rest));
      EntriesStep(view, length, offset, entry);
      CutStep(entries, |view| - offset);
      var next := offset + EntryLength(entry);
      if next <= |view| {
        CutTableReads(view, length, next, rest);
        assert |view| - next == |view| - offset - EntryLength(entry);
      }
    }
  }

  lemma TableOfMore(entries: seq<NameEntry>)
    requires AllFit(entries)
    ensures entries == [] ==> TableBytes(entries) == []
    ensures entries != [] ==> TableBytes(entries) == EntryBytes(entries[0]) + TableBytes(entries[1..])
  {
  }

  lemma NothingToCut(cut: nat)
    ensures CutEntries([], cut) == []
  {
  }

  lemma {:induction false} NotCut(entries: seq<NameEntry>, cut: nat)
    requires AllFit(entries) && cut == |TableBytes(entries)|
    ensures CutEntries(entries, cut) == entries
    decreases |entries|
  {
    if entries != [] {
      NotCut(entries[1..], cut - EntryLength(entries[0]));
    }
  }

  /** Every table read whole gives its entries back. */
  lemma RoundTrip(entries: seq<NameEntry>, length: int)
    requires AllFit(entries) && length >= |TableBytes(entries)|
    ensures Entries(TableBytes(entries), length, 0) == entries
  {
    hide Entries, TableBytes, CutEntries;
    CutTableReads(TableBytes(entries), length, 0, entries);
    NotCut(entries, |TableBytes(entries)|);
  }

  /** So a table cut anywhere names what its whole entries and the clipped one name. */
  lemma CutRoundTrip(entries: seq<NameEntry>, cut: nat, length: int)
    requires AllFit(entries) && cut <= |TableBytes(entries)| && cut <= length
    ensures Entries(TableBytes(entries)[..cut], length, 0) == CutEntries(entries, cut)
  {
    hide Entries, TableBytes, CutEntries;
    CutTableReads(TableBytes(entries)[..cut], length, 0, entries);
  }

  /** The entries of a cut table are those before the cut and one clipped from the next, or not even that. */
  lemma {:induction false} CutIsWholeAndOneClipped(entries: seq<NameEntry>, cut: nat)
    ensures var r := CutEntries(entries, cut);
            && |r| <= |entries|
            && (forall k :: 0 <= k < |r| - 1 ==> r[k] == entries[k])
            && forall k :: 0 <= k == |r| - 1 ==>
                 && r[k].kind == entries[k].kind && r[k].id == entries[k].id
                 && r[k].typeName <= entries[k].typeName && r[k].name <= entries[k].name
    decreases |entries|
  {
    if entries != [] && cut >= EntryLength(entries[0]) {
      CutIsWholeAndOneClipped(entries[1..], cut - EntryLength(entries[0]));
    }
  }

  // ---------------------------------------------------------------- tables byte by byte

  /** A table of one entry: its length, its type and its number with their top bits, and two texts of a character. */
  lemma OneEntryRead(k0: byte, k1: byte, i0: byte, i1: byte, x: byte, y: byte)
    requires x != 0 && y != 0
    ensures Entries([10, 0, k0, k1, i0, i1, x, 0, y, 0], 10, 0)
         == [NameEntry((k0 as int + 0x100 * k1 as int) % 0x8000, (i0 as int + 0x100 * i1 as int) % 0x8000, [x], [y])]
  {
    var view: bytes := [10, 0, k0, k1, i0, i1, x, 0, y, 0];
    assert Text(view, 7, 10) == [] && Text(view, 6, 10) == [x];
    assert Text(view, 9, 10) == [] && Text(view, 8, 10) == [y];
    assert Entries(view, 10, 10) == [];
  }

  /** There is no entry at a place exactly where the resource ends before it, the bytes end within six, or it is said to be shorter. */
  lemma NoEntryExactly(view: bytes, length: int, offset: nat)
    ensures Entries(view, length, offset) == []
       <==> offset >= length || offset + 6 > |view| || (view[offset] < 6 && view[offset + 1] == 0)
  {
    LowFirst(view, offset);
  }
}
