/**
 * Structures read out of bytes field by field (`readString` and
 * `readStructure` of src/util.ts). Texts are kept as their characters' codes;
 * a read past the bytes, which the source raises as an error, is an overrun.
 */
module Structures {
  import opened Wrappers
  import opened Bytes

  /** So many codes from a place, up to a nought. */
  function StringAt(data: bytes, at: nat, length: nat): (r: Result<bytes, ReadError>)
    ensures r.Success? ==> |r.value| <= length && 0 !in r.value
    decreases length
  {
    if length == 0 then Success([])
    else if at >= |data| then Failure(Overrun)
    else if data[at] == 0 then Success([])
    else
      match StringAt(data, at + 1, length - 1)
      case Success(rest) => Success([data[at]] + rest)
      case Failure(error) => Failure(error)
  }

  /** A text read is the bytes from its place, up to a nought or its length; none is exactly where they run out first. */
  lemma {:induction false} StringAtExactly(data: bytes, at: nat, length: nat)
    ensures match StringAt(data, at, length)
      case Success(text) =>
        && |text| <= length && (text == [] || at + |text| <= |data|)
        && 0 !in text && (forall k {:trigger text[k]} :: 0 <= k < |text| ==> text[k] == data[at + k])
        && (|text| < length ==> at + |text| < |data| && data[at + |text|] == 0)
      case Failure(_) => length > 0 && at + length > |data| && forall k :: at <= k < |data| ==> data[k] != 0
    decreases length
  {
    if length > 0 && at < |data| && data[at] != 0 {
      StringAtExactly(data, at + 1, length - 1);
      match StringAt(data, at + 1, length - 1)
      case Success(rest) =>
        var text := StringAt(data, at, length).value;
        assert text == [data[at]] + rest;
        forall k {:trigger text[k]} | 0 <= k < |text| ensures text[k] == data[at + k] {
          assert k > 0 ==> rest[k - 1] == data[at + 1 + (k - 1)];
        }
      case Failure(_) =>
    }
  }

  method ReadString(data: bytes, offset: nat, length: nat) returns (r: Result<bytes, ReadError>)
    ensures r == StringAt(data, offset, length)
  {
    var ret: bytes := [];
    var i: nat := 0;
    BeforeNothing(StringAt(data, offset, length));
    while i < length
      invariant i == |ret| <= length
      invariant StringAt(data, offset, length) == Before(ret, StringAt(data, offset + i, length - i))
    {
      if offset + i >= |data| {
        return Failure(Overrun);
      }
      var c := data[offset + i];
      if c == 0 {
        break;
      }
      BeforeTogether(ret, [c], StringAt(data, offset + i + 1, length - i - 1));
      ret := ret + [c];
      i := i + 1;
    }
    assert ret + [] == ret;
    return Success(ret);
  }

  datatype Size = Unsigned(width: nat) | Signed(width: nat) | Text(length: nat)

  /** A field of a structure: its key, where in it, and how it is kept. */
  datatype Field = Field(key: string, at: nat, size: Size)

  datatype Value = Number(number: int) | Chars(text: bytes)

  function ToSigned(value: nat, width: nat): int
    requires width in {1, 2, 4}
  {
    var half := if width == 1 then 0x80 else if width == 2 then 0x8000 else 0x8000_0000;
    if value < half then value else value - 2 * half
  }

  /** A number of one, two or four bytes as a signed one: in the signed range, and the same to so many bytes. */
  lemma SignedExactly(value: nat, width: nat)
    requires width in {1, 2, 4}
    ensures var n := ToSigned(value, width);
      && (width == 1 && value < 0x100 ==> -0x80 <= n < 0x80 && (n == value || n == value - 0x100))
      && (width == 2 && value < 0x1_0000 ==> -0x8000 <= n < 0x8000 && (n == value || n == value - 0x1_0000))
      && (width == 4 && value < 0x1_0000_0000 ==>
            -0x8000_0000 <= n < 0x8000_0000 && (n == value || n == value - 0x1_0000_0000))
  {
  }

  /** The number of so many bytes at a place, low byte first. */
  function NumberAt(data: bytes, at: nat, width: nat): Result<nat, ReadError>
    requires width in {1, 2, 4}
  {
    if at + width > |data| then Failure(Overrun)
    else if width == 1 then Success(data[at])
    else if width == 2 then Success(U16(data, at))
    else Success(U32(data, at))
  }

  predicate IsField(field: Field) {
    field.size.Text? || field.size.width in {1, 2, 4}
  }

  function FieldAt(data: bytes, offset: nat, field: Field): Result<Value, ReadError>
    requires IsField(field)
  {
    match field.size
    case Text(length) =>
      (match StringAt(data, offset + field.at, length) case Success(text) => Success(Chars(text)) case Failure(error) => Failure(error))
    case Unsigned(width) =>
      (match NumberAt(data, offset + field.at, width) case Success(n) => Success(Number(n)) case Failure(error) => Failure(error))
    case Signed(width) =>
      (match NumberAt(data, offset + field.at, width) case Success(n) => Success(Number(ToSigned(n, width))) case Failure(error) => Failure(error))
  }

  /** Fields of each kind are read by their bytes: numbers lowest first, a signed one the same but for so much, a text as a text. */
  lemma FieldExactly(data: bytes, offset: nat, field: Field)
    requires !field.size.Text? ==> field.size.width in {1, 2, 4}
    ensures IsField(field)
    ensures var at := offset + field.at;
      match FieldAt(data, offset, field)
      case Success(Chars(text)) => field.size.Text? && StringAt(data, at, field.size.length) == Success(text)
      case Success(Number(n)) =>
        && !field.size.Text? && at + field.size.width <= |data|
        && var unsigned := (if field.size.width == 1 then data[at] as int else if field.size.width == 2 then U16(data, at) else U32(data, at));
           n == if field.size.Signed? then ToSigned(unsigned, field.size.width) else unsigned
      case Failure(_) =>
        if field.size.Text? then StringAt(data, at, field.size.length).Failure? else at + field.size.width > |data|
  {
    hide StringAt, U16, U32, ToSigned;
  }

  predicate AreFields(fields: seq<Field>) {
    && (forall k :: 0 <= k < |fields| ==> IsField(fields[k]))
    && (forall k, l :: 0 <= k < l < |fields| ==> fields[k].key != fields[l].key)
  }

  /** The first so many of a structure's fields each read: every one there is, and no other key. */
  ghost predicate ReadsAs(data: bytes, offset: nat, fields: seq<Field>, count: nat, values: map<string, Value>)
    requires AreFields(fields) && count <= |fields|
  {
    && (forall k :: 0 <= k < count ==>
          fields[k].key in values && FieldAt(data, offset, fields[k]) == Success(values[fields[k].key]))
    && (forall key :: key in values ==> exists k :: 0 <= k < count && fields[k].key == key)
  }

  method ReadField(data: bytes, offset: nat, field: Field) returns (value: Result<Value, ReadError>)
    requires IsField(field)
    ensures value == FieldAt(data, offset, field)
  {
    match field.size {
      case Text(length) =>
        var text := ReadString(data, offset + field.at, length);
        value := match text case Success(chars) => Success(Chars(chars)) case Failure(error) => Failure(error);
      case Unsigned(width) =>
        value := match NumberAt(data, offset + field.at, width) case Success(n) => Success(Number(n)) case Failure(error) => Failure(error);
      case Signed(width) =>
        value := match NumberAt(data, offset + field.at, width)
          case Success(n) => Success(Number(ToSigned(n, width)))
          case Failure(error) => Failure(error);
    }
  }

  method ReadStructure(data: bytes, fields: seq<Field>, offset: nat) returns (r: Result<map<string, Value>, ReadError>)
    requires AreFields(fields)
    ensures r.Success? ==> ReadsAs(data, offset, fields, |fields|, r.value)
    ensures r.Failure? <==> exists k :: 0 <= k < |fields| && FieldAt(data, offset, fields[k]).Failure?
  {
    hide FieldAt;
    var ret: map<string, Value> := map[];
    var i := 0;
    while i < |fields|
      invariant 0 <= i <= |fields|
      invariant ReadsAs(data, offset, fields, i, ret)
    {
      var value := ReadField(data, offset, fields[i]);
      if value.Failure? {
        return Failure(value.error);
      }
      OneMoreReads(data, offset, fields, i, ret, value.value);
      ret := ret[fields[i].key := value.value];
      i := i + 1;
    }
    return Success(ret);
  }

  lemma OneMoreReads(data: bytes, offset: nat, fields: seq<Field>, i: nat, values: map<string, Value>, value: Value)
    requires AreFields(fields) && i < |fields| && ReadsAs(data, offset, fields, i, values)
    requires FieldAt(data, offset, fields[i]) == Success(value)
    ensures ReadsAs(data, offset, fields, i + 1, values[fields[i].key := value])
  {
  }
}
