/**
 * An NE executable's entry table (`_readEntryPoints` of src/executable.ts):
 * bundles of entry points, each a count, a segment or what stands for one,
 * and the points.
 */
module EntryTable {
  import opened Wrappers
  import opened Bytes

  const MOVABLE: byte := 0xff
  const CONSTANT: byte := 0xfe
  const ABSENT: byte := 0

  /** An entry read, with its ordinal. */
  datatype Entry =
    | Absent
    | Movable(segment: byte, offset: word, exported: bool, flags: byte, ordinal: nat)
    | Constant(value: word, exported: bool, flags: byte, ordinal: nat)
    | Fixed(segment: byte, offset: word, exported: bool, flags: byte, ordinal: nat)

  type Table = Result<seq<Entry>, ReadError>

  function Width(segment: byte): nat {
    if segment == MOVABLE then 6 else 3
  }

  /** One entry of a bundle of a segment. */
  function EntryAt(data: bytes, at: nat, segment: byte, ordinal: nat): Entry
    requires at + Width(segment) <= |data|
  {
    var flags := data[at];
    if segment == MOVABLE then Movable(data[at + 3], U16(data, at + 4), flags % 2 == 1, flags, ordinal)
    else if segment == CONSTANT then Constant(U16(data, at + 1), flags % 2 == 1, flags, ordinal)
    else Fixed(segment, U16(data, at + 1), flags % 2 == 1, flags, ordinal)
  }

  /** So many entries of a bundle, then whatever the rest of the table is. */
  function Points(data: bytes, at: nat, segment: byte, count: nat, ordinal: nat): (r: Table)
    decreases count
  {
    if count == 0 then Success([])
    else if at + Width(segment) > |data| then Failure(Overrun)
    else
      Before([EntryAt(data, at, segment, ordinal)],
             Points(data, at + Width(segment), segment, count - 1, ordinal + 1))
  }

  /** The entries of the bundles from a place on, up to a nought or the table's length. */
  function Bundles(data: bytes, last: nat, offset: nat, ordinal: nat): (r: Table)
    decreases if offset < last then last - offset else 0
  {
    if offset >= last then Success([])
    else if offset >= |data| then Failure(Overrun)
    else if data[offset] == 0 then Success([])
    else if offset + 1 >= |data| then Failure(Overrun)
    else
      var count, segment := data[offset], data[offset + 1];
      if segment == ABSENT then Before(Repeated<Entry>(Absent, count), Bundles(data, last, offset + 2, ordinal + count))
      else
        match Points(data, offset + 2, segment, count, ordinal)
        case Failure(error) => Failure(error)
        case Success(entries) =>
          Before(entries, Bundles(data, last, offset + 2 + count * Width(segment), ordinal + count))
  }

  /** The whole table: nothing under ordinal 0, then the entries from 1. */
  function EntryPoints(data: bytes, last: nat): (r: Table) {
    Before([Absent], Bundles(data, last, 0, 1))
  }

  method ReadPoint(data: bytes, at: nat, segment: byte, ordinal: nat) returns (entry: Option<Entry>, next: nat)
    ensures at + Width(segment) > |data| ==> entry == None
    ensures at + Width(segment) <= |data| ==>
      entry == Some(EntryAt(data, at, segment, ordinal)) && next == at + Width(segment)
  {
    var offset := at;
    if offset + Width(segment) > |data| {
      return None, at;
    }
    var flags := data[offset];
    offset := offset + 1;
    if segment == MOVABLE {
      offset := offset + 2;
      var segmentNumber := data[offset];
      offset := offset + 1;
      var segmentOffset := U16(data, offset);
      offset := offset + 2;
      return Some(Movable(segmentNumber, segmentOffset, flags % 2 == 1, flags, ordinal)), offset;
    } else if segment == CONSTANT {
      var value := U16(data, offset);
      offset := offset + 2;
      return Some(Constant(value, flags % 2 == 1, flags, ordinal)), offset;
    } else {
      var segmentOffset := U16(data, offset);
      offset := offset + 2;
      return Some(Fixed(segment, segmentOffset, flags % 2 == 1, flags, ordinal)), offset;
    }
  }

  /** A bundle's points read one after another. */
  method ReadPoints(data: bytes, start: nat, segment: byte, count: nat, first: nat) returns (r: Table, next: nat)
    ensures r == Points(data, start, segment, count, first)
    ensures r.Success? ==> next == start + count * Width(segment)
  {
    hide EntryAt, Width;
    var offset, ordinal := start, first;
    var entries: seq<Entry> := [];
    var bi: nat := 0;
    BeforeNothing(Points(data, start, segment, count, first));
    while bi < count
      invariant bi <= count && ordinal == first + bi && offset == start + bi * Width(segment)
      invariant Points(data, start, segment, count, first)
             == Before(entries, Points(data, offset, segment, count - bi, ordinal))
    {
      var entry, after := ReadPoint(data, offset, segment, ordinal);
      if entry.None? {
        return Failure(Overrun), offset;
      }
      BeforeTogether(entries, [entry.value], Points(data, after, segment, count - bi - 1, ordinal + 1));
      entries := entries + [entry.value];
      offset := after;
      ordinal := ordinal + 1;
      bi := bi + 1;
    }
    assert entries + [] == entries;
    return Success(entries), offset;
  }

  method ReadEntryPoints(data: bytes, last: nat) returns (r: Table)
    ensures r == EntryPoints(data, last)
  {
    hide Points, Repeated, Width, Before;
    BeforeEnds([Absent], ReadError.Overrun);
    var offset: nat := 0;
    var ret := [Absent];
    var ordinal: nat := 1;
    while offset < last
      invariant EntryPoints(data, last) == Before(ret, Bundles(data, last, offset, ordinal))
      decreases last - offset
    {
      BeforeEnds(ret, ReadError.Overrun);
      if offset >= |data| {
        return Failure(Overrun);
      }
      var bundleSize := data[offset];
      if bundleSize == 0 {
        break;
      }
      if offset + 1 >= |data| {
        return Failure(Overrun);
      }
      var segment := data[offset + 1];
      if segment == ABSENT {
        BeforeTogether(ret, Repeated<Entry>(Absent, bundleSize), Bundles(data, last, offset + 2, ordinal + bundleSize));
        ret := ret + Repeated<Entry>(Absent, bundleSize);
        offset := offset + 2;
      } else {
        var points, next := ReadPoints(data, offset + 2, segment, bundleSize, ordinal);
        if points.Failure? {
          BeforeEnds(ret, points.error);
          return points;
        }
        BeforeTogether(ret, points.value, Bundles(data, last, next, ordinal + bundleSize));
        ret := ret + points.value;
        offset := next;
      }
      ordinal := ordinal + bundleSize;
    }
    BeforeEnds(ret, ReadError.Overrun);
    return Success(ret);
  }

  // ---------------------------------------------------------------- the format

  /** An entry point as a linker has it, before it is given an ordinal. */
  datatype Point =
    | NoPoint
    | MovablePoint(segment: byte, offset: word, flags: byte)
    | ConstantPoint(value: word, flags: byte)
    | FixedPoint(segment: byte, offset: word, flags: byte)

  /** The second byte of the bundles a point can be in. */
  function SegmentOf(point: Point): byte {
    match point
    case NoPoint => ABSENT
    case MovablePoint(_, _, _) => MOVABLE
    case ConstantPoint(_, _) => CONSTANT
    case FixedPoint(segment, _, _) => segment
  }

  predicate IsPoint(point: Point) {
    point.FixedPoint? ==> point.segment != ABSENT && point.segment != CONSTANT && point.segment != MOVABLE
  }

  function PointBytes(point: Point): bytes {
    match point
    case NoPoint => []
    case MovablePoint(segment, offset, flags) => [flags, 0xcd, 0x3f, segment] + Word(offset)
    case ConstantPoint(value, flags) => [flags] + Word(value)
    case FixedPoint(_, offset, flags) => [flags] + Word(offset)
  }

  function Given(point: Point, ordinal: nat): Entry {
    match point
    case NoPoint => Absent
    case MovablePoint(segment, offset, flags) => Movable(segment, offset, flags % 2 == 1, flags, ordinal)
    case ConstantPoint(value, flags) => Constant(value, flags % 2 == 1, flags, ordinal)
    case FixedPoint(segment, offset, flags) => Fixed(segment, offset, flags % 2 == 1, flags, ordinal)
  }

  /** Points numbered from an ordinal on. */
  function Numbered(points: seq<Point>, ordinal: nat): (r: seq<Entry>)
    ensures |r| == |points|
    ensures forall k :: 0 <= k < |points| ==> r[k] == Given(points[k], ordinal + k)
  {
    seq(|points|, k requires 0 <= k < |points| => Given(points[k], ordinal + k))
  }

  /** A bundle: from 1 to 255 points that share a second byte. */
  predicate IsBundle(points: seq<Point>) {
    && 1 <= |points| <= 255
    && forall k :: 0 <= k < |points| ==> IsPoint(points[k]) && SegmentOf(points[k]) == SegmentOf(points[0])
  }

  function PointsBytes(points: seq<Point>): bytes {
    if points == [] then [] else PointBytes(points[0]) + PointsBytes(points[1..])
  }

  function BundleBytes(points: seq<Point>): (r: bytes)
    requires IsBundle(points)
    ensures |r| >= 2
  {
    [|points| as byte, SegmentOf(points[0])] + PointsBytes(points)
  }

  predicate AreBundles(bundles: seq<seq<Point>>) {
    forall k :: 0 <= k < |bundles| ==> IsBundle(bundles[k])
  }

  function Encoded(bundles: seq<seq<Point>>): bytes
    requires AreBundles(bundles)
  {
    if bundles == [] then [] else BundleBytes(bundles[0]) + Encoded(bundles[1..])
  }

  function Joined(bundles: seq<seq<Point>>): seq<Point> {
    if bundles == [] then [] else bundles[0] + Joined(bundles[1..])
  }

  // ---------------------------------------------------------------- round trips

  lemma PointReads(data: bytes, at: nat, point: Point, ordinal: nat)
    requires IsPoint(point) && !point.NoPoint? && Holds(data, at, PointBytes(point))
    ensures |PointBytes(point)| == Width(SegmentOf(point)) && at + Width(SegmentOf(point)) <= |data|
    ensures EntryAt(data, at, SegmentOf(point), ordinal) == Given(point, ordinal)
  {
    var piece := PointBytes(point);
    HeldByte(data, at, piece, 0);
    match point
    case MovablePoint(_, _, _) =>
      HeldByte(data, at, piece, 3);
      HeldWord(data, at, piece, 4);
    case ConstantPoint(_, _) => HeldWord(data, at, piece, 1);
    case FixedPoint(_, _, _) => HeldWord(data, at, piece, 1);
  }

  lemma HeldByte(data: bytes, at: nat, piece: bytes, k: nat)
    requires Holds(data, at, piece) && k < |piece|
    ensures at + |piece| <= |data| && data[at + k] == piece[k]
  {
    assert data[at..at + |piece|][k] == piece[k];
  }

  /** Points of one kind. */
  predicate Alike(points: seq<Point>, segment: byte) {
    segment != ABSENT && forall k :: 0 <= k < |points| ==> IsPoint(points[k]) && SegmentOf(points[k]) == segment
  }

  lemma {:induction false} PointsRead(data: bytes, at: nat, segment: byte, points: seq<Point>, ordinal: nat)
    requires Alike(points, segment) && Holds(data, at, PointsBytes(points))
    ensures |PointsBytes(points)| == |points| * Width(segment)
    ensures Points(data, at, segment, |points|, ordinal) == Success(Numbered(points, ordinal))
    decreases |points|
  {
    hide EntryAt, Width, PointBytes, Holds, Given, IsPoint, SegmentOf;
    if points != [] {
      HeldInTwo(data, at, PointBytes(points[0]), PointsBytes(points[1..]));
      PointIsSome(points[0], segment);
      PointReads(data, at, points[0], ordinal);
      PointsRead(data, at + Width(segment), segment, points[1..], ordinal + 1);
      assert Numbered(points, ordinal) == [Given(points[0], ordinal)] + Numbered(points[1..], ordinal + 1);
      assert |points| * Width(segment) == Width(segment) + (|points| - 1) * Width(segment);
    }
  }

  lemma PointIsSome(point: Point, segment: byte)
    requires SegmentOf(point) == segment != ABSENT
    ensures !point.NoPoint?
  {
  }

  lemma {:induction false} NoPointBytes(points: seq<Point>)
    requires forall k :: 0 <= k < |points| ==> points[k] == NoPoint
    ensures PointsBytes(points) == []
  {
    if points != [] {
      NoPointBytes(points[1..]);
    }
  }

  /** What follows a table's bundles: nothing, at its length, or a nought before it. */
  predicate Ends(data: bytes, last: nat, at: nat) {
    at <= |data| && (at == last || (at < last && at < |data| && data[at] == 0))
  }

  lemma AbsentBundleReads(data: bytes, last: nat, at: nat, bundle: seq<Point>, ordinal: nat)
    requires IsBundle(bundle) && SegmentOf(bundle[0]) == ABSENT
    requires Holds(data, at, BundleBytes(bundle)) && at < last
    ensures Bundles(data, last, at, ordinal)
         == Before(Numbered(bundle, ordinal), Bundles(data, last, at + |BundleBytes(bundle)|, ordinal + |bundle|))
  {
    hide Before, IsPoint, PointsBytes, Holds, Repeated, Numbered;
    NoPointsAre(bundle, ordinal);
    BundleHeader(data, at, bundle);
  }

  /** A bundle of no points has no bytes but its header, and is that many absent entries. */
  lemma NoPointsAre(bundle: seq<Point>, ordinal: nat)
    requires IsBundle(bundle) && SegmentOf(bundle[0]) == ABSENT
    ensures |BundleBytes(bundle)| == 2 && Repeated<Entry>(Absent, |bundle|) == Numbered(bundle, ordinal)
  {
    forall k | 0 <= k < |bundle| ensures bundle[k] == NoPoint {
      assert IsPoint(bundle[k]) && SegmentOf(bundle[k]) == ABSENT;
    }
    NoPointBytes(bundle);
  }

  lemma BundleHeader(data: bytes, at: nat, bundle: seq<Point>)
    requires IsBundle(bundle) && Holds(data, at, BundleBytes(bundle))
    ensures at + 2 <= |data| && data[at] == |bundle| && data[at + 1] == SegmentOf(bundle[0])
    ensures Holds(data, at + 2, PointsBytes(bundle))
  {
    hide PointsBytes, IsPoint;
    var header: bytes := [|bundle| as byte, SegmentOf(bundle[0])];
    HeldInTwo(data, at, header, PointsBytes(bundle));
    HeldByte(data, at, header, 0);
    HeldByte(data, at, header, 1);
  }

  lemma PresentBundleReads(data: bytes, last: nat, at: nat, bundle: seq<Point>, ordinal: nat)
    requires IsBundle(bundle) && SegmentOf(bundle[0]) != ABSENT
    requires Holds(data, at, BundleBytes(bundle)) && at < last
    ensures Bundles(data, last, at, ordinal)
         == Before(Numbered(bundle, ordinal), Bundles(data, last, at + |BundleBytes(bundle)|, ordinal + |bundle|))
  {
    hide Points, Before, Width, PointsBytes, Numbered, IsPoint, Holds;
    BundleHeader(data, at, bundle);
    PointsRead(data, at + 2, SegmentOf(bundle[0]), bundle, ordinal);
  }

  lemma {:induction false} BundlesRead(data: bytes, last: nat, at: nat, bundles: seq<seq<Point>>, ordinal: nat)
    requires AreBundles(bundles) && Holds(data, at, Encoded(bundles))
    requires at + |Encoded(bundles)| <= last && Ends(data, last, at + |Encoded(bundles)|)
    ensures Bundles(data, last, at, ordinal) == Success(Numbered(Joined(bundles), ordinal))
    decreases |bundles|
  {
    if bundles == [] {
      assert Numbered(Joined(bundles), ordinal) == [];
    } else {
      BundlesReadFrom(data, last, at, bundles, ordinal);
    }
  }

  lemma {:induction false} BundlesReadFrom(data: bytes, last: nat, at: nat, bundles: seq<seq<Point>>, ordinal: nat)
    requires bundles != [] && AreBundles(bundles) && Holds(data, at, Encoded(bundles))
    requires at + |Encoded(bundles)| <= last && Ends(data, last, at + |Encoded(bundles)|)
    ensures Bundles(data, last, at, ordinal) == Success(Numbered(Joined(bundles), ordinal))
    decreases |bundles|, 0
  {
    hide Bundles, BundleBytes, Ends, Holds, IsBundle, SegmentOf;
    var bundle, rest := bundles[0], bundles[1..];
    HeldInTwo(data, at, BundleBytes(bundle), Encoded(rest));
    BundleReads(data, last, at, bundle, ordinal);
    BundlesRead(data, last, at + |BundleBytes(bundle)|, rest, ordinal + |bundle|);
    NumberedTogether(bundle, Joined(rest), ordinal);
  }

  lemma BundleReads(data: bytes, last: nat, at: nat, bundle: seq<Point>, ordinal: nat)
    requires IsBundle(bundle) && Holds(data, at, BundleBytes(bundle)) && at < last
    ensures Bundles(data, last, at, ordinal)
         == Before(Numbered(bundle, ordinal), Bundles(data, last, at + |BundleBytes(bundle)|, ordinal + |bundle|))
  {
    hide Bundles, BundleBytes, Holds, Before;
    if SegmentOf(bundle[0]) == ABSENT {
      AbsentBundleReads(data, last, at, bundle, ordinal);
    } else {
      PresentBundleReads(data, last, at, bundle, ordinal);
    }
  }

  lemma NumberedTogether(a: seq<Point>, b: seq<Point>, ordinal: nat)
    ensures Numbered(a + b, ordinal) == Numbered(a, ordinal) + Numbered(b, ordinal + |a|)
  {
  }

  /**
   * Any points in any bundles read back as the points, numbered from 1,
   * whether the table ends at its length or at a nought; and the read never
   * goes past the bundles and the nought.
   */
  lemma RoundTrip(bundles: seq<seq<Point>>, after: bytes, last: nat)
    requires AreBundles(bundles)
    requires last == |Encoded(bundles)| || (last > |Encoded(bundles)| && after != [] && after[0] == 0)
    ensures EntryPoints(Encoded(bundles) + after, last) == Success([Absent] + Numbered(Joined(bundles), 1))
  {
    hide Bundles, Encoded, Joined, IsBundle;
    var data := Encoded(bundles) + after;
    HeldAtStart(Encoded(bundles), after);
    BundlesRead(data, last, 0, bundles, 1);
  }

  lemma HeldAtStart(a: bytes, b: bytes)
    ensures Holds(a + b, 0, a)
  {
  }

  /** So what is read does not depend on how the points are put in bundles. */
  lemma BundlingDoesNotMatter(a: seq<seq<Point>>, b: seq<seq<Point>>)
    requires AreBundles(a) && AreBundles(b) && Joined(a) == Joined(b)
    ensures EntryPoints(Encoded(a), |Encoded(a)|) == EntryPoints(Encoded(b), |Encoded(b)|)
  {
    RoundTrip(a, [], |Encoded(a)|);
    RoundTrip(b, [], |Encoded(b)|);
    assert Encoded(a) + [] == Encoded(a) && Encoded(b) + [] == Encoded(b);
  }

  /** Any list of points can be put in bundles: each in its own. */
  function Apart(points: seq<Point>): (bundles: seq<seq<Point>>)
    ensures |bundles| == |points| && forall k :: 0 <= k < |points| ==> bundles[k] == [points[k]]
  {
    seq(|points|, k requires 0 <= k < |points| => [points[k]])
  }

  lemma {:induction false} ApartJoined(points: seq<Point>)
    ensures Joined(Apart(points)) == points
  {
    if points != [] {
      assert Apart(points)[1..] == Apart(points[1..]);
      ApartJoined(points[1..]);
    }
  }

  /** Every list of points has a table it is read from. */
  lemma AnyPointsRead(points: seq<Point>)
    requires forall k :: 0 <= k < |points| ==> IsPoint(points[k])
    ensures AreBundles(Apart(points))
    ensures EntryPoints(Encoded(Apart(points)), |Encoded(Apart(points))|) == Success([Absent] + Numbered(points, 1))
  {
    ApartJoined(points);
    RoundTrip(Apart(points), [], |Encoded(Apart(points))|);
    assert Encoded(Apart(points)) + [] == Encoded(Apart(points));
  }

  // ---------------------------------------------------------------- any table

  /** Entries each absent or with its own ordinal, from one on. */
  predicate InOrder(entries: seq<Entry>, ordinal: nat) {
    forall k :: 0 <= k < |entries| ==> entries[k].Absent? || entries[k].ordinal == ordinal + k
  }

  lemma {:induction false} PointsInOrder(data: bytes, at: nat, segment: byte, count: nat, ordinal: nat)
    requires Points(data, at, segment, count, ordinal).Success?
    ensures |Points(data, at, segment, count, ordinal).value| == count
    ensures InOrder(Points(data, at, segment, count, ordinal).value, ordinal)
    ensures count > 0 ==> at + count * Width(segment) <= |data|
    decreases count
  {
    if count > 0 {
      PointsInOrder(data, at + Width(segment), segment, count - 1, ordinal + 1);
      assert count * Width(segment) == Width(segment) + (count - 1) * Width(segment);
    }
  }

  lemma {:induction false} BundlesInOrder(data: bytes, last: nat, offset: nat, ordinal: nat)
    requires Bundles(data, last, offset, ordinal).Success?
    ensures InOrder(Bundles(data, last, offset, ordinal).value, ordinal)
    ensures 2 * |Bundles(data, last, offset, ordinal).value| <= 255 * (if offset < last then last - offset + 1 else 0)
    decreases if offset < last then last - offset else 0
  {
    hide Points;
    if offset < last && data[offset] != 0 {
      var count, segment := data[offset], data[offset + 1];
      if segment == ABSENT {
        BundlesInOrder(data, last, offset + 2, ordinal + count);
      } else {
        PointsInOrder(data, offset + 2, segment, count, ordinal);
        BundlesInOrder(data, last, offset + 2 + count * Width(segment), ordinal + count);
      }
    }
  }

  /**
   * Of every table read, well formed or not, the entry at a place has that
   * ordinal, those skipped counted; and there are at most 255 for each two
   * bytes of the table's length, rounded up.
   */
  lemma EntryIsAtItsOrdinal(data: bytes, last: nat)
    requires EntryPoints(data, last).Success?
    ensures InOrder(EntryPoints(data, last).value, 0)
    ensures 2 * (|EntryPoints(data, last).value| - 1) <= 255 * (last + 1)
  {
    hide Bundles;
    BundlesInOrder(data, last, 0, 1);
  }

  // ---------------------------------------------------------------- tables byte by byte

  /** A table of one bundle of one entry, and a nought. */
  lemma OneEntryRead(data: bytes, last: nat, ordinal: nat, at: nat)
    requires at + 2 < |data| && data[at] == 1 && data[at + 1] != 0
    requires at + 2 + Width(data[at + 1]) + 1 == |data| == last && data[last - 1] == 0
    ensures Bundles(data, last, at, ordinal) == Success([EntryAt(data, at + 2, data[at + 1], ordinal)])
  {
    hide EntryAt;
    var segment := data[at + 1];
    var next := at + 2 + Width(segment);
    BeforeEnds([EntryAt(data, at + 2, segment, ordinal)], ReadError.Overrun);
    assert Points(data, next, segment, 0, ordinal + 1) == Success([]);
    assert Points(data, at + 2, segment, 1, ordinal) == Success([EntryAt(data, at + 2, segment, ordinal)]);
    assert Bundles(data, last, next, ordinal + 1) == Success([]);
  }

  /** A bundle of one movable entry: its flags, an interrupt's two bytes, its segment and its offset. */
  lemma MovableRead(flags: byte, x: byte, y: byte, segment: byte, low: byte, high: byte)
    ensures EntryPoints([1, 0xff, flags, x, y, segment, low, high, 0], 9)
         == Success([Absent, Movable(segment, low as int + 0x100 * high as int, flags % 2 == 1, flags, 1)])
  {
    hide Bundles, U16;
    var data: bytes := [1, 0xff, flags, x, y, segment, low, high, 0];
    OneEntryRead(data, 9, 1, 0);
    LowAndHigh(data, 6);
    var entry := EntryAt(data, 2, 0xff, 1);
    assert [Absent] + [entry] == [Absent, entry];
  }

  /** A bundle of one constant: its flags and its value. */
  lemma ConstantRead(flags: byte, low: byte, high: byte)
    ensures EntryPoints([1, 0xfe, flags, low, high, 0], 6)
         == Success([Absent, Constant(low as int + 0x100 * high as int, flags % 2 == 1, flags, 1)])
  {
    hide Bundles, U16;
    var data: bytes := [1, 0xfe, flags, low, high, 0];
    OneEntryRead(data, 6, 1, 0);
    LowAndHigh(data, 3);
    var entry := EntryAt(data, 2, 0xfe, 1);
    assert [Absent] + [entry] == [Absent, entry];
  }

  /** Two ordinals skipped, and a bundle of one fixed entry in a segment. */
  lemma SkippedAndFixedRead(segment: byte, flags: byte, low: byte, high: byte)
    requires 1 <= segment <= 0xfd
    ensures EntryPoints([2, 0, 1, segment, flags, low, high, 0], 8)
         == Success([Absent, Absent, Absent, Fixed(segment, low as int + 0x100 * high as int, flags % 2 == 1, flags, 3)])
  {
    hide Points, U16;
    var data: bytes := [2, 0, 1, segment, flags, low, high, 0];
    OneEntryRead(data, 8, 3, 2);
    LowAndHigh(data, 5);
    assert Bundles(data, 8, 0, 1) == Before(Repeated<Entry>(Absent, 2), Bundles(data, 8, 2, 3));
    var entry := EntryAt(data, 4, segment, 3);
    assert [Absent] + (Repeated<Entry>(Absent, 2) + [entry]) == [Absent, Absent, Absent, entry];
  }

  lemma LowAndHigh(data: bytes, at: nat)
    requires at + 2 <= |data|
    ensures U16(data, at) == data[at] as int + 0x100 * data[at + 1] as int
  {
  }

  /** A table cut before its length is an error, wherever it is cut: before a bundle, in its header, or in its points. */
  lemma CutTableFails(segment: byte)
    requires segment != 0
    ensures EntryPoints([], 1) == Failure(Overrun) && EntryPoints([1], 2) == Failure(Overrun)
    ensures EntryPoints([1, segment], 2) == Failure(Overrun) && EntryPoints([1, 0], 3) == Failure(Overrun)
  {
    assert Points([1, segment], 2, segment, 1, 1) == Failure(Overrun);
    assert Bundles([1, 0], 3, 2, 2) == Failure(Overrun);
  }
}
