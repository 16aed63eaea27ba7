/**
 * The names a name table gives a resource table's types and resources, once
 * both are read (the end of `_readResourceTable` of src/executable.ts).
 */
module ResourceNaming {
  import opened Wrappers
  import opened Bytes
  import opened Decimal
  import opened NameTable
  import opened ResourceTable

  const NAME_TABLE := 15

  /** A type's own name and its resources' names, in their order. */
  datatype TypeNaming = TypeNaming(name: Option<bytes>, names: seq<Option<bytes>>)

  function AsText(b: bytes): (text: string)
    ensures |text| == |b|
    ensures forall k :: 0 <= k < |b| ==> text[k] == b[k] as char
  {
    seq(|b|, k requires 0 <= k < |b| => b[k] as char)
  }

  /** The number a resource's names are looked up by: its own, or the one its text is the numeral of. */
  function KeyOf(id: Id): (key: Option<nat>)
    ensures key.Some? ==> id == Numbered(key.value) || (id.Named? && AsText(id.text) == Printed(key.value))
  {
    match id
    case Numbered(number) => Some(number)
    case Named(text, _) =>
      var t := AsText(text);
      if AreDigits(t) && Printed(ValueAfter(0, t)) == t then Some(ValueAfter(0, t)) else None
  }

  /** The number a type is looked up by, which for one known by a text is where in the table the text is. */
  function TypeKey(kind: ResourceType): nat {
    match kind.id
    case Numbered(number) => number
    case Named(_, place) => place
  }

  function OwnName(kind: ResourceType): Option<bytes> {
    if kind.id.Named? then Some(kind.id.text) else None
  }

  predicate HasNameTable(kind: ResourceType) {
    TypeKey(kind) == NAME_TABLE && kind.entries != []
  }

  predicate NoneBefore(types: seq<ResourceType>, end: nat)
    requires end <= |types|
  {
    forall i :: 0 <= i < end ==> !HasNameTable(types[i])
  }

  /** The first resource of a type numbered as name tables are. */
  function FirstNameTable(types: seq<ResourceType>): (r: Option<Resource>)
    ensures r.None? <==> NoneBefore(types, |types|)
    ensures r.Some? ==> exists i :: 0 <= i < |types| && HasNameTable(types[i]) && r.value == types[i].entries[0] && NoneBefore(types, i)
  {
    if types == [] then None
    else if HasNameTable(types[0]) then Some(types[0].entries[0])
    else
      var r := FirstNameTable(types[1..]);
      assert forall i :: 1 <= i < |types| ==> types[i] == types[1..][i - 1];
      r
  }

  /** The names the table's own name table says, if it has one; `content` is what a resource holds. */
  method ReadNames(types: seq<ResourceType>, content: Resource -> bytes) returns (names: Option<Names>)
    ensures FirstNameTable(types).None? ==> names == None
    ensures FirstNameTable(types).Some? ==>
      var table := FirstNameTable(types).value;
      names == Some(PutAll(NO_NAMES, Entries(content(table), table.length, 0)))
  {
    hide PutAll, Entries;
    for i := 0 to |types|
      invariant FirstNameTable(types) == FirstNameTable(types[i..])
    {
      if HasNameTable(types[i]) {
        var table := types[i].entries[0];
        var read := ReadNameTable(content(table), table.length);
        return Some(read);
      }
      assert types[i..][1..] == types[i + 1..];
    }
    return None;
  }

  /** What a type and its resources come to be named. */
  function Naming(kind: ResourceType, names: Option<Names>): (r: TypeNaming)
    ensures |r.names| == |kind.entries|
  {
    TypeNaming(
      if names.Some? && TypeKey(kind) in names.value.typeNames then Some(names.value.typeNames[TypeKey(kind)]) else OwnName(kind),
      seq(|kind.entries|, j requires 0 <= j < |kind.entries| => ResourceName(TypeKey(kind), kind.entries[j], names))
    )
  }

  function ResourceName(kind: nat, resource: Resource, names: Option<Names>): Option<bytes> {
    var key := KeyOf(resource.id);
    if names.Some? && key.Some? && (kind, key.value) in names.value.names then Some(names.value.names[(kind, key.value)])
    else None
  }

  method Name(types: seq<ResourceType>, names: Option<Names>) returns (ret: seq<TypeNaming>)
    ensures |ret| == |types|
    ensures forall i :: 0 <= i < |types| ==> ret[i] == Naming(types[i], names)
  {
    hide KeyOf;
    ret := [];
    for i := 0 to |types|
      invariant |ret| == i
      invariant forall k :: 0 <= k < i ==> ret[k] == Naming(types[k], names)
    {
      var kind := types[i];
      var name := OwnName(kind);
      if names.Some? && TypeKey(kind) in names.value.typeNames {
        name := Some(names.value.typeNames[TypeKey(kind)]);
      }
      var given: seq<Option<bytes>> := [];
      for j := 0 to |kind.entries|
        invariant |given| == j
        invariant forall k :: 0 <= k < j ==> given[k] == ResourceName(TypeKey(kind), kind.entries[k], names)
      {
        given := given + [ResourceName(TypeKey(kind), kind.entries[j], names)];
      }
      assert given == Naming(kind, names).names;
      ret := ret + [TypeNaming(name, given)];
    }
  }

  // ---------------------------------------------------------------- what the names are

  function Read(entries: seq<NameEntry>): Option<Names> {
    Some(PutAll(NO_NAMES, entries))
  }

  /** A type is named by the last entry that names it, and keeps its own text only where none does. */
  lemma TypeIsNamedByTheLast(kind: ResourceType, entries: seq<NameEntry>)
    ensures var last := LastTyping(entries, TypeKey(kind));
            Naming(kind, Read(entries)).name == if last >= 0 then Some(entries[last].typeName) else OwnName(kind)
  {
    hide PutAll, LastTyping;
    LastTypeNameWins(NO_NAMES, entries, TypeKey(kind));
  }

  /** A resource is named by the last entry that names its number, or its numeral, and is left without a name where none does. */
  lemma ResourceIsNamedByTheLast(kind: ResourceType, j: nat, entries: seq<NameEntry>)
    requires j < |kind.entries|
    ensures var key := KeyOf(kind.entries[j].id);
            var last := if key.Some? then LastNaming(entries, (TypeKey(kind), key.value)) else -1;
            Naming(kind, Read(entries)).names[j] == if last >= 0 then Some(entries[last].name) else None
  {
    hide PutAll, LastNaming, KeyOf;
    var key := KeyOf(kind.entries[j].id);
    if key.Some? {
      LastEntryWins(NO_NAMES, entries, (TypeKey(kind), key.value));
    }
  }

  /** A text a resource is known by names it only where the text is a number's numeral, and then as that number. */
  lemma NumeralsAreNumbers(text: bytes, place: nat, n: nat)
    ensures KeyOf(Named(text, place)) == Some(n) <==> AsText(text) == Printed(n)
  {
    PrintedReads(n);
  }

  predicate NoneNames(entries: seq<NameEntry>, from: nat, kind: nat) {
    forall k :: from <= k < |entries| ==> !TypeNames(entries[k], kind)
  }

  predicate LastOf(entries: seq<NameEntry>, k: nat, kind: nat)
    requires k < |entries|
  {
    TypeNames(entries[k], kind) && NoneNames(entries, k + 1, kind)
  }

  /** A type known by a text keeps it exactly when no entry names the type numbered as the text's place is, or the last that does gives the same text. */
  lemma OwnTextKeptExactly(kind: ResourceType, entries: seq<NameEntry>)
    requires kind.id.Named?
    ensures Naming(kind, Read(entries)).name == Some(kind.id.text)
       <==> (NoneNames(entries, 0, kind.id.place)
             || (exists k :: 0 <= k < |entries| && LastOf(entries, k, kind.id.place) && entries[k].typeName == kind.id.text))
  {
    hide PutAll, Naming;
    TypeIsNamedByTheLast(kind, entries);
    var last := LastTyping(entries, kind.id.place);
    assert last >= 0 ==> LastOf(entries, last, kind.id.place);
  }

  /** For one, a type whose text is 40 bytes into the table, renamed by an entry for the type numbered 40. */
  lemma OwnTextOverwritten(text: bytes, name: bytes)
    requires name != [] && name != text
    ensures var kind := ResourceType(Named(text, 40), 0, []);
            var entries := [NameEntry(40, 0, name, [])];
            OwnName(kind) == Some(text) && Naming(kind, Read(entries)).name == Some(name)
  {
    var entries := [NameEntry(40, 0, name, [])];
    TypeIsNamedByTheLast(ResourceType(Named(text, 40), 0, []), entries);
  }

  /** A type has a name table exactly where it has a resource and is numbered 15, or its text is 15 bytes into the table. */
  lemma HasNameTableExactly(kind: ResourceType)
    ensures HasNameTable(kind)
       <==> kind.entries != [] && (kind.id == Numbered(15) || (kind.id.Named? && kind.id.place == 15))
  {
  }
}
