/**
 * An NE executable's resource table (`_readResourceTable` of
 * src/executable.ts): a shift, then types, each with its resources, named by
 * a number or by a place in the table where a text is.
 */
module ResourceTable {
  import opened Wrappers
  import opened Bytes
  import opened Structures

  /** What a type or a resource is known by: a number, or a text and where in the table it is. */
  datatype Id = Numbered(number: nat) | Named(text: bytes, place: nat)

  datatype Resource = Resource(offset: int, length: int, flags: word, id: Id, reserved: dword)

  datatype ResourceType = ResourceType(id: Id, reserved: dword, entries: seq<Resource>)

  const RESOURCE_TYPE: seq<Field> :=
    [Field("id", 0, Unsigned(2)), Field("number", 2, Unsigned(2)), Field("reserved", 4, Unsigned(4))]

  const RESOURCE: seq<Field> :=
    [Field("offset", 0, Unsigned(2)), Field("length", 2, Unsigned(2)), Field("flags", 4, Unsigned(2)),
     Field("id", 6, Unsigned(2)), Field("reserved", 8, Unsigned(4))]

  const TYPE_LENGTH := 8
  const RESOURCE_LENGTH := 12

  /** How many types are read at most. */
  const MOST_TYPES := 31

  function Pow2(n: nat): (r: nat)
    ensures r >= 1
  {
    if n == 0 then 1 else 2 * Pow2(n - 1)
  }

  /** A left shift as the source's language makes it: by the count's low five bits, to a signed 32-bit number. */
  function ShiftLeft(value: word, shift: word): int {
    var low := value * Pow2(shift % 32) % 0x1_0000_0000;
    if low < 0x8000_0000 then low else low - 0x1_0000_0000
  }

  /** An identifier read: a number where its top bit is set, else the text its length before it at its place. */
  function IdAt(view: bytes, start: nat, id: word): Result<Id, ReadError> {
    if id >= 0x8000 then Success(Numbered(id % 0x8000))
    else if start + id >= |view| then Failure(Overrun)
    else
      match StringAt(view, start + id + 1, view[start + id])
      case Success(text) => Success(Named(text, id))
      case Failure(error) => Failure(error)
  }

  function ResourceAt(view: bytes, start: nat, at: nat, shift: word): Result<Resource, ReadError> {
    if at + RESOURCE_LENGTH > |view| then Failure(Overrun)
    else
      match IdAt(view, start, U16(view, at + 6))
      case Failure(error) => Failure(error)
      case Success(id) =>
        Success(Resource(ShiftLeft(U16(view, at), shift), ShiftLeft(U16(view, at + 2), shift), U16(view, at + 4), id,
                      U32(view, at + 8)))
  }

  /** So many resources one after another. */
  function ResourcesAt(view: bytes, start: nat, at: nat, count: nat, shift: word): Result<seq<Resource>, ReadError>
    decreases count
  {
    if count == 0 then Success([])
    else
      match ResourceAt(view, start, at, shift)
      case Failure(error) => Failure(error)
      case Success(resource) =>
        Before([resource], ResourcesAt(view, start, at + RESOURCE_LENGTH, count - 1, shift))
  }

  /** A type whose identifier is not nought, with its resources. */
  function TypeAt(view: bytes, start: nat, at: nat, shift: word): Result<ResourceType, ReadError>
    requires at + TYPE_LENGTH <= |view|
  {
    match IdAt(view, start, U16(view, at))
    case Failure(error) => Failure(error)
    case Success(id) =>
      match ResourcesAt(view, start, at + TYPE_LENGTH, U16(view, at + 2), shift)
      case Failure(error) => Failure(error)
      case Success(entries) => Success(ResourceType(id, U32(view, at + 4), entries))
  }

  /** The types from a place on: up to a nought, the resident names or the most that are read. */
  function TypesAt(view: bytes, start: nat, last: int, at: nat, shift: word, limit: nat): Result<seq<ResourceType>, ReadError>
    requires limit <= MOST_TYPES
    decreases MOST_TYPES - limit
  {
    if at >= last || limit == MOST_TYPES then Success([])
    else if at + TYPE_LENGTH > |view| then Failure(Overrun)
    else if U16(view, at) == 0 then Success([])
    else
      match TypeAt(view, start, at, shift)
      case Failure(error) => Failure(error)
      case Success(kind) =>
        Before([kind], TypesAt(view, start, last, at + TYPE_LENGTH + RESOURCE_LENGTH * U16(view, at + 2), shift, limit + 1))
  }

  /** The whole table. */
  function Table(view: bytes, start: nat, last: int): Result<seq<ResourceType>, ReadError> {
    if start + 2 > |view| then Failure(Overrun) else TypesAt(view, start, last, start + 2, U16(view, start), 0)
  }

  // ---------------------------------------------------------------- the methods

  lemma StructuresAreFields()
    ensures AreFields(RESOURCE_TYPE) && AreFields(RESOURCE)
  {
  }

  /** A structure of numbers read: each field's number at its place; and what cannot be read is past the end. */
  lemma NumberFields(view: bytes, at: nat, fields: seq<Field>, values: map<string, Value>, k: nat, width: nat)
    requires AreFields(fields) && k < |fields| && fields[k].size == Unsigned(width)
    requires ReadsAs(view, at, fields, |fields|, values)
    ensures fields[k].key in values && at + fields[k].at + width <= |view|
    ensures NumberAt(view, at + fields[k].at, width).Success?
    ensures values[fields[k].key] == Number(NumberAt(view, at + fields[k].at, width).value)
  {
  }

  method ReadTypeRecord(view: bytes, at: nat) returns (r: Result<(word, word, dword), ReadError>)
    ensures r.Success? <==> at + TYPE_LENGTH <= |view|
    ensures r.Success? ==> r.value == (U16(view, at), U16(view, at + 2), U32(view, at + 4))
  {
    StructuresAreFields();
    var values := ReadStructure(view, RESOURCE_TYPE, at);
    if values.Failure? {
      return Failure(values.error);
    }
    NumberFields(view, at, RESOURCE_TYPE, values.value, 0, 2);
    NumberFields(view, at, RESOURCE_TYPE, values.value, 1, 2);
    NumberFields(view, at, RESOURCE_TYPE, values.value, 2, 4);
    return Success((values.value["id"].number, values.value["number"].number, values.value["reserved"].number));
  }

  method ReadResourceRecord(view: bytes, at: nat) returns (r: Result<(word, word, word, word, dword), ReadError>)
    ensures r.Success? <==> at + RESOURCE_LENGTH <= |view|
    ensures r.Success? ==>
      r.value == (U16(view, at), U16(view, at + 2), U16(view, at + 4), U16(view, at + 6), U32(view, at + 8))
  {
    StructuresAreFields();
    var values := ReadStructure(view, RESOURCE, at);
    if values.Failure? {
      return Failure(values.error);
    }
    var v := values.value;
    NumberFields(view, at, RESOURCE, v, 0, 2);
    NumberFields(view, at, RESOURCE, v, 1, 2);
    NumberFields(view, at, RESOURCE, v, 2, 2);
    NumberFields(view, at, RESOURCE, v, 3, 2);
    NumberFields(view, at, RESOURCE, v, 4, 4);
    return Success((v["offset"].number, v["length"].number, v["flags"].number, v["id"].number, v["reserved"].number));
  }

  method ReadId(view: bytes, start: nat, id: word) returns (r: Result<Id, ReadError>)
    ensures r == IdAt(view, start, id)
  {
    if id < 0x8000 {
      var subOffset := start + id;
      if subOffset >= |view| {
        return Failure(Overrun);
      }
      var text := ReadString(view, subOffset + 1, view[subOffset]);
      if text.Failure? {
        return Failure(text.error);
      }
      return Success(Named(text.value, id));
    }
    return Success(Numbered(id % 0x8000));
  }

  method ReadResource(view: bytes, start: nat, at: nat, shift: word) returns (r: Result<Resource, ReadError>)
    ensures r == ResourceAt(view, start, at, shift)
  {
    hide IdAt, ShiftLeft;
    var record := ReadResourceRecord(view, at);
    if record.Failure? {
      return Failure(Overrun);
    }
    var (offset, length, flags, number, reserved) := record.value;
    var id := ReadId(view, start, number);
    if id.Failure? {
      return Failure(id.error);
    }
    return Success(Resource(ShiftLeft(offset, shift), ShiftLeft(length, shift), flags, id.value, reserved));
  }

  method ReadResources(view: bytes, start: nat, first: nat, count: nat, shift: word) returns (r: Result<seq<Resource>, ReadError>)
    ensures r == ResourcesAt(view, start, first, count, shift)
  {
    hide ResourceAt;
    var entries: seq<Resource> := [];
    var offset := first;
    var i: nat := 0;
    BeforeNothing(ResourcesAt(view, start, first, count, shift));
    while i < count
      invariant i <= count && offset == first + i * RESOURCE_LENGTH
      invariant ResourcesAt(view, start, first, count, shift)
             == Before(entries, ResourcesAt(view, start, offset, count - i, shift))
    {
      var resource := ReadResource(view, start, offset, shift);
      if resource.Failure? {
        return Failure(resource.error);
      }
      BeforeTogether(entries, [resource.value],
                     ResourcesAt(view, start, offset + RESOURCE_LENGTH, count - i - 1, shift));
      entries := entries + [resource.value];
      offset := offset + RESOURCE_LENGTH;
      i := i + 1;
    }
    assert entries + [] == entries;
    return Success(entries);
  }

  method ReadType(view: bytes, start: nat, at: nat, shift: word, record: (word, word, dword)) returns (r: Result<ResourceType, ReadError>)
    requires at + TYPE_LENGTH <= |view| && record == (U16(view, at), U16(view, at + 2), U32(view, at + 4))
    ensures r == TypeAt(view, start, at, shift)
  {
    hide IdAt, ResourcesAt;
    var id := ReadId(view, start, record.0);
    if id.Failure? {
      return Failure(id.error);
    }
    var entries := ReadResources(view, start, at + TYPE_LENGTH, record.1, shift);
    if entries.Failure? {
      return Failure(entries.error);
    }
    return Success(ResourceType(id.value, record.2, entries.value));
  }

  method ReadResourceTable(view: bytes, start: nat, last: int) returns (r: Result<seq<ResourceType>, ReadError>)
    ensures r == Table(view, start, last)
  {
    hide TypeAt;
    if start + 2 > |view| {
      return Failure(Overrun);
    }
    var shift := U16(view, start);
    var offset: nat := start + 2;
    var limit: nat := 0;
    var ret: seq<ResourceType> := [];
    BeforeNothing(TypesAt(view, start, last, start + 2, shift, 0));
    while offset < last && limit <= 30
      invariant limit <= MOST_TYPES
      invariant TypesAt(view, start, last, start + 2, shift, 0)
             == Before(ret, TypesAt(view, start, last, offset, shift, limit))
      decreases MOST_TYPES - limit
    {
      var record := ReadTypeRecord(view, offset);
      if record.Failure? {
        return Failure(Overrun);
      }
      if record.value.0 == 0 {
        break;
      }
      var kind := ReadType(view, start, offset, shift, record.value);
      if kind.Failure? {
        return Failure(kind.error);
      }
      var next := offset + TYPE_LENGTH + RESOURCE_LENGTH * record.value.1;
      BeforeTogether(ret, [kind.value], TypesAt(view, start, last, next, shift, limit + 1));
      ret := ret + [kind.value];
      offset := next;
      limit := limit + 1;
    }
    assert ret + [] == ret;
    return Success(ret);
  }

  // ---------------------------------------------------------------- by its numbers

  /** A shift is by the count's low five bits, of which each doubles, to the signed number of 32 bits that is the same in them. */
  lemma ShiftExactly(value: word, shift: word)
    ensures -0x8000_0000 <= ShiftLeft(value, shift) < 0x8000_0000
    ensures (ShiftLeft(value, shift) - value * Pow2(shift % 32)) % 0x1_0000_0000 == 0
  {
    hide Pow2;
  }

  lemma EachDoubles(n: nat)
    ensures Pow2(0) == 1 && Pow2(n + 1) == Pow2(n) + Pow2(n)
  {
  }

  /** No table has more than 31 types, and one that has 31 is read no further. */
  lemma AtMostThirtyOne(view: bytes, start: nat, last: int)
    ensures Table(view, start, last).Success? ==> |Table(view, start, last).value| <= 31
  {
    if start + 2 <= |view| {
      TypesBounded(view, start, last, start + 2, U16(view, start), 0);
    }
  }

  lemma {:induction false} TypesBounded(view: bytes, start: nat, last: int, at: nat, shift: word, limit: nat)
    requires limit <= 31
    ensures TypesAt(view, start, last, at, shift, limit).Success? ==> |TypesAt(view, start, last, at, shift, limit).value| <= 31 - limit
    decreases 31 - limit
  {
    hide TypeAt;
    if at < last && limit < 31 && at + TYPE_LENGTH <= |view| && U16(view, at) != 0 {
      TypesBounded(view, start, last, at + TYPE_LENGTH + RESOURCE_LENGTH * U16(view, at + 2), shift, limit + 1);
    }
  }

  /** A table needs its shift's two bytes, and is empty where it is to end by then. */
  lemma TableBegins(view: bytes, start: nat, last: int)
    ensures start + 2 > |view| ==> Table(view, start, last) == Failure(Overrun)
    ensures start + 2 <= |view| && last <= start + 2 ==> Table(view, start, last) == Success([])
  {
  }

  /** An identifier with its top bit is the number of its others; without, it is the text at its place from the table's start, its length before it. */
  lemma IdExactly(view: bytes, start: nat, id: word)
    ensures match IdAt(view, start, id)
      case Success(Numbered(number)) => id >= 0x8000 && number == id - 0x8000
      case Success(Named(text, place)) =>
        && id < 0x8000 && place == id && start + id < |view|
        && StringAt(view, start + id + 1, view[start + id]) == Success(text)
      case Failure(_) =>
        id < 0x8000 && (start + id >= |view| || StringAt(view, start + id + 1, view[start + id]).Failure?)
  {
  }

  /** A resource's five fields by their bytes: offset and length in units, flags, identifier, and four more. */
  lemma ResourceExactly(view: bytes, start: nat, at: nat, shift: word)
    requires ResourceAt(view, start, at, shift).Success?
    ensures at + 12 <= |view|
    ensures var r := ResourceAt(view, start, at, shift).value;
      && r.offset == ShiftLeft(view[at] as int + 0x100 * view[at + 1] as int, shift)
      && r.length == ShiftLeft(view[at + 2] as int + 0x100 * view[at + 3] as int, shift)
      && r.flags == view[at + 4] as int + 0x100 * view[at + 5] as int
      && IdAt(view, start, view[at + 6] as int + 0x100 * view[at + 7] as int) == Success(r.id)
  {
    hide ShiftLeft, IdAt;
  }
}
