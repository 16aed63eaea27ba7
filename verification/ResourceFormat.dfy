/**
 * Resource tables as a linker lays them out: the types and their resources,
 * then the texts their identifiers place; and that they read back.
 */
module ResourceFormat {
  import opened Wrappers
  import opened Bytes
  import opened Structures
  import opened ResourceTable

  /** What a type or a resource is to be known by. */
  datatype Name = ByNumber(number: nat) | ByText(text: bytes)

  datatype LinkedResource = LinkedResource(offset: word, length: word, flags: word, name: Name, reserved: dword)

  datatype LinkedType = LinkedType(name: Name, reserved: dword, resources: seq<LinkedResource>)

  predicate IsName(name: Name) {
    match name
    case ByNumber(number) => number < 0x8000
    case ByText(text) => |text| < 0x100 && 0 !in text
  }

  /** The text an identifier places, its length before it. */
  function NameBytes(name: Name): (b: bytes)
    requires IsName(name)
  {
    match name
    case ByNumber(_) => []
    case ByText(text) => [|text| as byte] + text
  }

  predicate AreNamed(resources: seq<LinkedResource>) {
    forall k :: 0 <= k < |resources| ==> IsName(resources[k].name)
  }

  function ResourceNames(resources: seq<LinkedResource>): bytes
    requires AreNamed(resources)
  {
    if resources == [] then [] else NameBytes(resources[0].name) + ResourceNames(resources[1..])
  }

  predicate IsLinked(kind: LinkedType) {
    IsName(kind.name) && AreNamed(kind.resources) && |kind.resources| < 0x1_0000
  }

  predicate AreLinked(types: seq<LinkedType>) {
    forall k :: 0 <= k < |types| ==> IsLinked(types[k])
  }

  function TypeNames(types: seq<LinkedType>): bytes
    requires AreLinked(types)
  {
    if types == [] then []
    else (NameBytes(types[0].name) + ResourceNames(types[0].resources)) + TypeNames(types[1..])
  }

  /** The identifier for a name whose text, if it has one, is at a place. */
  function IdWord(name: Name, place: nat): word
    requires IsName(name) && place < 0x8000
  {
    match name
    case ByNumber(number) => 0x8000 + number
    case ByText(_) => place
  }

  function ResourceBytes(resource: LinkedResource, place: nat): (b: bytes)
    requires IsName(resource.name) && place < 0x8000
    ensures |b| == RESOURCE_LENGTH
  {
    Word(resource.offset) + Word(resource.length) + Word(resource.flags) + Word(IdWord(resource.name, place))
      + DWord(resource.reserved)
  }

  /** Resources one after another, their texts from a place on. */
  function ResourcesBytes(resources: seq<LinkedResource>, place: nat): (b: bytes)
    requires AreNamed(resources) && place + |ResourceNames(resources)| < 0x8000
    ensures |b| == RESOURCE_LENGTH * |resources|
  {
    if resources == [] then []
    else
      ResourceBytes(resources[0], place)
      + ResourcesBytes(resources[1..], place + |NameBytes(resources[0].name)|)
  }

  function TypeHeader(kind: LinkedType, place: nat): (b: bytes)
    requires IsLinked(kind) && place < 0x8000
    ensures |b| == TYPE_LENGTH
  {
    Word(IdWord(kind.name, place)) + Word(|kind.resources|) + DWord(kind.reserved)
  }

  function TypesSize(types: seq<LinkedType>): nat {
    if types == [] then 0 else TYPE_LENGTH + RESOURCE_LENGTH * |types[0].resources| + TypesSize(types[1..])
  }

  function TypesBytes(types: seq<LinkedType>, place: nat): (b: bytes)
    requires AreLinked(types) && place + |TypeNames(types)| < 0x8000
    ensures |b| == TypesSize(types)
  {
    if types == [] then []
    else
      var own := |NameBytes(types[0].name)|;
      var next := place + own + |ResourceNames(types[0].resources)|;
      (TypeHeader(types[0], place) + ResourcesBytes(types[0].resources, place + own)) + TypesBytes(types[1..], next)
  }

  /** Where in its table the first text is: after the shift, the types and the nought that ends them. */
  function TextsPlace(types: seq<LinkedType>): nat {
    2 + TypesSize(types) + 2
  }

  predicate Fits(types: seq<LinkedType>) {
    AreLinked(types) && |types| <= 31 && TextsPlace(types) + |TypeNames(types)| < 0x8000
  }

  function Encoded(types: seq<LinkedType>, shift: word): bytes
    requires Fits(types)
  {
    Word(shift) + (TypesBytes(types, TextsPlace(types)) + (Word(0) + TypeNames(types)))
  }

  // ---------------------------------------------------------------- what is to be read

  function ReadName(name: Name, place: nat): Id {
    match name
    case ByNumber(number) => Numbered(number)
    case ByText(text) => Named(text, place)
  }

  function ReadResource(resource: LinkedResource, place: nat, shift: word): Resource {
    Resource(ShiftLeft(resource.offset, shift), ShiftLeft(resource.length, shift), resource.flags,
             ReadName(resource.name, place), resource.reserved)
  }

  function ReadResources(resources: seq<LinkedResource>, place: nat, shift: word): seq<Resource>
    requires AreNamed(resources)
  {
    if resources == [] then []
    else
      [ReadResource(resources[0], place, shift)]
      + ReadResources(resources[1..], place + |NameBytes(resources[0].name)|, shift)
  }

  /** The types in order, each with its resources in order, names the texts placed and offsets shifted. */
  function ReadTypes(types: seq<LinkedType>, place: nat, shift: word): seq<ResourceType>
    requires AreLinked(types)
  {
    if types == [] then []
    else
      var own := |NameBytes(types[0].name)|;
      var next := place + own + |ResourceNames(types[0].resources)|;
      [ResourceType(ReadName(types[0].name, place), types[0].reserved,
                    ReadResources(types[0].resources, place + own, shift))]
      + ReadTypes(types[1..], next, shift)
  }

  // ---------------------------------------------------------------- round trip

  lemma {:induction false} StringReads(data: bytes, at: nat, text: bytes)
    requires Holds(data, at, text) && 0 !in text
    ensures StringAt(data, at, |text|) == Success(text)
    decreases |text|
  {
    if text != [] {
      assert text == [text[0]] + text[1..];
      HeldInTwo(data, at, [text[0]], text[1..]);
      assert data[at] == data[at..at + 1][0];
      StringReads(data, at + 1, text[1..]);
    }
  }

  lemma NameReads(view: bytes, start: nat, name: Name, place: nat)
    requires IsName(name) && place < 0x8000 && Holds(view, start + place, NameBytes(name))
    ensures IdAt(view, start, IdWord(name, place)) == Success(ReadName(name, place))
  {
    if name.ByText? {
      var length: bytes := [|name.text| as byte];
      HeldInTwo(view, start + place, length, name.text);
      assert view[start + place] == view[start + place..start + place + 1][0];
      StringReads(view, start + place + 1, name.text);
    }
  }

  lemma ResourceFields(resource: LinkedResource, place: nat)
    requires IsName(resource.name) && place < 0x8000
    ensures var b := ResourceBytes(resource, place);
            && U16(b, 0) == resource.offset && U16(b, 2) == resource.length && U16(b, 4) == resource.flags
            && U16(b, 6) == IdWord(resource.name, place) && U32(b, 8) == resource.reserved
  {
  }

  lemma ResourceReads(view: bytes, start: nat, at: nat, resource: LinkedResource, place: nat, shift: word)
    requires IsName(resource.name) && place < 0x8000
    requires Holds(view, at, ResourceBytes(resource, place)) && Holds(view, start + place, NameBytes(resource.name))
    ensures ResourceAt(view, start, at, shift) == Success(ReadResource(resource, place, shift))
  {
    hide ResourceBytes, NameBytes, IdAt, ReadName, IdWord, U16, U32, ShiftLeft;
    var b := ResourceBytes(resource, place);
    ResourceFields(resource, place);
    HeldWord(view, at, b, 0);
    HeldWord(view, at, b, 2);
    HeldWord(view, at, b, 4);
    HeldWord(view, at, b, 6);
    HeldDWord(view, at, b, 8);
    NameReads(view, start, resource.name, place);
  }

  lemma {:induction false} ResourcesRead(view: bytes, start: nat, at: nat, resources: seq<LinkedResource>,
                                         place: nat, shift: word)
    requires AreNamed(resources) && place + |ResourceNames(resources)| < 0x8000
    requires Holds(view, at, ResourcesBytes(resources, place))
    requires Holds(view, start + place, ResourceNames(resources))
    ensures ResourcesAt(view, start, at, |resources|, shift) == Success(ReadResources(resources, place, shift))
    decreases |resources|
  {
    hide ResourceBytes, NameBytes, ResourceAt, ReadResource, IsName, Holds;
    if resources != [] {
      var rest := resources[1..];
      var next := place + |NameBytes(resources[0].name)|;
      HeldInTwo(view, at, ResourceBytes(resources[0], place), ResourcesBytes(rest, next));
      HeldInTwo(view, start + place, NameBytes(resources[0].name), ResourceNames(rest));
      ResourceReads(view, start, at, resources[0], place, shift);
      ResourcesRead(view, start, at + RESOURCE_LENGTH, rest, next, shift);
    }
  }

  lemma HeaderFields(kind: LinkedType, place: nat)
    requires IsLinked(kind) && place < 0x8000
    ensures var b := TypeHeader(kind, place);
            U16(b, 0) == IdWord(kind.name, place) && U16(b, 2) == |kind.resources| && U32(b, 4) == kind.reserved
  {
  }

  lemma TypeReads(view: bytes, start: nat, at: nat, kind: LinkedType, place: nat, shift: word)
    requires IsLinked(kind) && place + |NameBytes(kind.name)| + |ResourceNames(kind.resources)| < 0x8000
    requires var own := |NameBytes(kind.name)|;
             Holds(view, at, TypeHeader(kind, place) + ResourcesBytes(kind.resources, place + own))
    requires Holds(view, start + place, NameBytes(kind.name) + ResourceNames(kind.resources))
    ensures at + TYPE_LENGTH <= |view|
    ensures U16(view, at) == IdWord(kind.name, place) && U16(view, at + 2) == |kind.resources|
    ensures TypeAt(view, start, at, shift)
         == Success(ResourceType(ReadName(kind.name, place), kind.reserved,
                              ReadResources(kind.resources, place + |NameBytes(kind.name)|, shift)))
  {
    hide TypeHeader, NameBytes, ResourceNames, ResourcesBytes, ResourcesAt, ReadResources, IdAt, U16, U32, IdWord;
    var own := |NameBytes(kind.name)|;
    var header := TypeHeader(kind, place);
    HeldInTwo(view, at, header, ResourcesBytes(kind.resources, place + own));
    HeldInTwo(view, start + place, NameBytes(kind.name), ResourceNames(kind.resources));
    HeaderFields(kind, place);
    HeldWord(view, at, header, 0);
    HeldWord(view, at, header, 2);
    HeldDWord(view, at, header, 4);
    NameReads(view, start, kind.name, place);
    ResourcesRead(view, start, at + TYPE_LENGTH, kind.resources, place + own, shift);
  }

  /** How a table's types end: at the most read, at the resident names, or with a nought in a whole record's room. */
  predicate Ends(view: bytes, last: int, end: nat, limit: nat) {
    limit == MOST_TYPES || end >= last || (end + TYPE_LENGTH <= |view| && U16(view, end) == 0)
  }

  lemma NoMoreTypes(view: bytes, start: nat, last: int, at: nat, shift: word, limit: nat)
    requires limit <= MOST_TYPES && Ends(view, last, at, limit)
    ensures TypesAt(view, start, last, at, shift, limit) == Success([])
  {
  }

  lemma OneMoreType(view: bytes, start: nat, last: int, at: nat, shift: word, limit: nat, kind: ResourceType)
    requires limit < MOST_TYPES && at < last && at + TYPE_LENGTH <= |view| && U16(view, at) != 0
    requires TypeAt(view, start, at, shift) == Success(kind)
    ensures TypesAt(view, start, last, at, shift, limit)
         == Before([kind], TypesAt(view, start, last, at + TYPE_LENGTH + RESOURCE_LENGTH * U16(view, at + 2), shift,
                                   limit + 1))
  {
  }

  lemma {:induction false} TypesRead(view: bytes, start: nat, last: int, at: nat, types: seq<LinkedType>,
                                     place: nat, shift: word, limit: nat)
    requires AreLinked(types) && 0 < place && place + |TypeNames(types)| < 0x8000
    requires Holds(view, at, TypesBytes(types, place)) && Holds(view, start + place, TypeNames(types))
    requires limit + |types| <= MOST_TYPES && at + TypesSize(types) <= last
    requires Ends(view, last, at + TypesSize(types), limit + |types|)
    ensures TypesAt(view, start, last, at, shift, limit) == Success(ReadTypes(types, place, shift))
    decreases |types|
  {
    hide TypesAt, TypeAt, Holds, TypeHeader, ResourcesBytes, ResourceNames, NameBytes, ReadName, ReadResources, U16, Ends;
    if types == [] {
      NoMoreTypes(view, start, last, at, shift, limit);
    } else {
      var kind, rest := types[0], types[1..];
      var own := |NameBytes(kind.name)|;
      var next := place + own + |ResourceNames(kind.resources)|;
      var after := at + TYPE_LENGTH + RESOURCE_LENGTH * |kind.resources|;
      HeldInTwo(view, at, TypeHeader(kind, place) + ResourcesBytes(kind.resources, place + own), TypesBytes(rest, next));
      HeldInTwo(view, start + place, NameBytes(kind.name) + ResourceNames(kind.resources), TypeNames(rest));
      TypeReads(view, start, at, kind, place, shift);
      OneMoreType(view, start, last, at, shift, limit,
                  ResourceType(ReadName(kind.name, place), kind.reserved,
                               ReadResources(kind.resources, place + own, shift)));
      TypesRead(view, start, last, after, rest, next, shift, limit + 1);
    }
  }

  /**
   * Up to 31 types, each and each of its resources numbered or named, put in
   * a table anywhere in a file, read back the same: the types, their
   * resources, the names and the shifted offsets, in order.
   */
  lemma RoundTrip(before: bytes, types: seq<LinkedType>, shift: word, after: bytes, last: int)
    requires Fits(types) && |before| + 2 + TypesSize(types) <= last
    requires Ends(before + (Encoded(types, shift) + after), last, |before| + 2 + TypesSize(types), |types|)
    ensures Table(before + (Encoded(types, shift) + after), |before|, last)
         == Success(ReadTypes(types, TextsPlace(types), shift))
  {
    hide TypesBytes, TypeNames, TypesAt, ReadTypes, AreLinked, TypesSize, Ends;
    var view, start := before + (Encoded(types, shift) + after), |before|;
    var body, texts := TypesBytes(types, TextsPlace(types)), TypeNames(types);
    assert Holds(view, start, Encoded(types, shift));
    HeldInTwo(view, start, Word(shift), body + (Word(0) + texts));
    HeldWord(view, start, Word(shift), 0);
    HeldInTwo(view, start + 2, body, Word(0) + texts);
    HeldInTwo(view, start + 2 + |body|, Word(0), texts);
    TypesRead(view, start, last, start + 2, types, TextsPlace(types), shift, 0);
  }

  lemma {:induction false} Pow2Grows(m: nat, n: nat)
    requires m <= n
    ensures Pow2(m) <= Pow2(n)
    decreases n
  {
    if m < n {
      Pow2Grows(m, n - 1);
    }
  }

  lemma ProductBound(value: word, factor: nat)
    requires factor <= 0x8000
    ensures value * factor <= 0xffff * 0x8000
  {
  }

  lemma Shifted(value: word, shift: word, product: nat)
    requires shift < 32 && product == value * Pow2(shift) < 0x8000_0000
    ensures ShiftLeft(value, shift) == product
  {
    hide Pow2;
    assert shift % 32 == shift;
  }

  /** For the shifts linkers use, an offset shifted is the offset in its units. */
  lemma ShiftedOffset(value: word, shift: word)
    requires shift <= 15
    ensures ShiftLeft(value, shift) == value * Pow2(shift)
  {
    hide ShiftLeft, Pow2;
    Pow2Grows(shift, 15);
    Pow2Fifteen();
    ProductBound(value, Pow2(shift));
    Shifted(value, shift, value * Pow2(shift));
  }

  lemma Pow2Fifteen()
    ensures Pow2(15) == 0x8000
  {
    assert Pow2(5) == 32;
    assert Pow2(10) == 1024;
  }
}
