/**
 * A file fetched a block at a time and kept (src/stream.ts), from a server
 * that may or may not answer for a range of it, as its first answer tells.
 */
module BlockStream {
  import opened Wrappers
  import opened Bytes
  import Structures

  const BLOCK_SIZE := 102400

  /** A server's file, and whether it answers for a range of it. */
  datatype Server = Server(file: bytes, ranges: bool)

  datatype StreamError =
    | HttpError      // the answer was not a good one
    | NotSliceable   // a view asked for a slice, which it cannot make
    | PastEnd        // a number read past its view

  /** What `readBlock` answers: the bytes just fetched, or a view of those kept. */
  datatype Block = Fetched(data: bytes) | Kept(data: bytes)

  /** A block of a file: all of it but the last of full size. */
  function BlockOf(file: bytes, position: nat): (block: bytes)
    requires position * BLOCK_SIZE < |file|
    ensures |block| == Min(BLOCK_SIZE, |file| - position * BLOCK_SIZE)
    ensures forall k :: 0 <= k < |block| ==> block[k] == file[position * BLOCK_SIZE + k]
  {
    file[position * BLOCK_SIZE..Min(position * BLOCK_SIZE + BLOCK_SIZE, |file|)]
  }

  /** A good answer's body: the range asked for, or the whole file from a server without ranges. */
  function Answer(server: Server, start: nat, end: int): Option<bytes> {
    if !server.ranges then Some(server.file)
    else if start >= |server.file| || end < start then None
    else Some(server.file[start..Min(end + 1, |server.file|)])
  }

  /** A block in the file asked for is answered with the block; one past it is not answered. */
  lemma BlockAnswered(server: Server, position: nat, size: nat)
    requires server.ranges && (size == 0 || size == |server.file|)
    ensures Answer(server, position * BLOCK_SIZE, LastAsked(position, size))
         == if position * BLOCK_SIZE < |server.file| then Some(BlockOf(server.file, position)) else None
  {
  }

  /** The last byte a block is asked for: within the file's size once that is known. */
  function LastAsked(position: nat, size: nat): int {
    var end := position * BLOCK_SIZE + BLOCK_SIZE - 1;
    if size != 0 then Min(end, size - 1) else end
  }

  /** A block's last byte is asked for, or the file's where that is known and comes first. */
  lemma LastAskedExactly(position: nat, size: nat)
    ensures LastAsked(position, size)
         == if size == 0 || position * 102_400 + 102_399 < size then position * 102_400 + 102_399 else size - 1
  {
  }

  /** A part of bytes as `slice` cuts it. */
  function Slice(data: bytes, from: nat, to: nat): bytes
    requires from <= to
  {
    if from >= |data| then [] else data[from..Min(to, |data|)]
  }

  class Stream {
    const server: Server
    /** Whether a kept block can be sliced as a fetched one can: not in the source as it stands. */
    const viewsSlice: bool
    var cache: map<nat, bytes>
    var buffer: Option<bytes>
    var ranged: bool
    var size: nat
    var headInitialized: bool
    var initialized: bool
    /** The blocks good answers have come for, in order. */
    ghost var answered: seq<nat>

    ghost predicate Valid()
      reads this
    {
      && (forall p :: p in cache ==> p * BLOCK_SIZE < |server.file| && cache[p] == BlockOf(server.file, p))
      && (buffer.Some? ==> buffer.value == server.file && !ranged)
      && (initialized || headInitialized ==> ranged == server.ranges)
      && (!initialized && !headInitialized ==> ranged && size == 0)
      && (size != 0 || initialized || headInitialized ==> size == |server.file|)
      && (initialized && !ranged ==> buffer.Some?)
      && (!initialized ==> cache == map[] && buffer == None)
      && (cache != map[] ==> ranged && server.ranges)
      && (server.ranges ==>
            && (forall j, k :: 0 <= j < k < |answered| ==> answered[j] != answered[k])
            && (forall p :: p in answered <==> p in cache))
      && (!server.ranges ==> |answered| == if buffer.Some? then 1 else 0)
    }

    constructor (server: Server, viewsSlice: bool)
      ensures Valid() && this.server == server && this.viewsSlice == viewsSlice
      ensures cache == map[] && !initialized && answered == []
    {
      this.server := server;
      this.viewsSlice := viewsSlice;
      cache := map[];
      buffer := None;
      ranged := true;
      size := 0;
      headInitialized := false;
      initialized := false;
      answered := [];
    }

    /** The size and the mode asked for alone, once. */
    method Head()
      requires Valid()
      modifies this
      ensures Valid() && headInitialized && ranged == server.ranges && (size == |server.file| || old(headInitialized))
      ensures cache == old(cache) && buffer == old(buffer) && initialized == old(initialized) && answered == old(answered)
    {
      if headInitialized {
        return;
      }
      headInitialized := true;
      if !server.ranges {
        ranged := false;
      }
      size := if size != 0 then size else |server.file|;
    }

    /** A good answer kept: the whole file from a server without ranges, else the block. */
    method Keep(position: nat, body: bytes)
      requires Valid() && buffer.None? && position !in cache
      requires server.ranges ==> position * BLOCK_SIZE < |server.file| && body == BlockOf(server.file, position)
      requires !server.ranges ==> body == server.file
      modifies this
      ensures Valid() && initialized && ranged == server.ranges
      ensures cache == if server.ranges then old(cache)[position := body] else old(cache)
      ensures answered == old(answered) + [position]
    {
      initialized := true;
      headInitialized := true;
      if !server.ranges {
        ranged := false;
      }
      size := if size != 0 then size else |server.file|;
      if !ranged {
        buffer := Some(body);
      } else {
        cache := cache[position := body];
      }
      answered := answered + [position];
    }

    /** A block: kept, or fetched and kept -- the whole file, from a server without ranges. */
    method ReadBlock(position: nat) returns (r: Result<Block, StreamError>)
      requires Valid()
      modifies this
      ensures Valid() && (old(initialized) ==> initialized)
      ensures r == BlockRead(server, old(cache), old(buffer), position)
      ensures r.Failure? ==> unchanged(this)
      ensures server.ranges && position * BLOCK_SIZE < |server.file| ==>
        r == Success(if position in old(cache) then Kept(BlockOf(server.file, position))
                     else Fetched(BlockOf(server.file, position)))
      ensures r.Success? ==>
        && initialized && ranged == server.ranges
        && cache == (if server.ranges then old(cache)[position := BlockOf(server.file, position)] else old(cache))
        && cache.Keys == (if server.ranges then old(cache.Keys) + {position} else old(cache.Keys))
    {
      if !ranged && buffer.Some? {
        return Success(Kept(buffer.value));
      } else if position in cache {
        return Success(Kept(cache[position]));
      }
      if server.ranges {
        BlockAnswered(server, position, size);
      }
      var answer := Answer(server, position * BLOCK_SIZE, LastAsked(position, size));
      if answer.None? {
        return Failure(HttpError);
      }
      Keep(position, answer.value);
      return Success(Fetched(answer.value));
    }

    /** A part of a block, cut from what is fetched, or from what is kept if that can be cut. */
    method ReadPart(blockStart: nat, blockOffset: nat, count: nat) returns (r: Result<bytes, StreamError>)
      requires Valid() && server.ranges && ranged
      modifies this
      ensures Valid() && ranged && (old(initialized) ==> initialized)
      ensures r.Success? ==> |r.value| <= count && (viewsSlice || blockStart !in old(cache))
      ensures r.Success? ==> cache.Keys == old(cache.Keys) + {blockStart}
      ensures blockStart * BLOCK_SIZE < |server.file| ==>
        r == if viewsSlice || blockStart !in old(cache)
             then Success(Slice(BlockOf(server.file, blockStart), blockOffset, blockOffset + count))
             else Failure(NotSliceable)
    {
      var block := ReadBlock(blockStart);
      if block.Failure? {
        return Failure(block.error);
      }
      if block.value.Kept? && !viewsSlice {
        return Failure(NotSliceable);
      }
      return Success(Slice(block.value.data, blockOffset, blockOffset + count));
    }

    /** The blocks a region covers, one after another, each cut and put in its place. */
    method ReadRanged(offset: nat, length: nat) returns (r: Result<bytes, StreamError>)
      requires Valid() && server.ranges && ranged
      modifies this
      ensures Valid() && ranged && (old(initialized) ==> initialized)
      ensures InBounds(server.file, offset, length) ==>
        r == if CanSlice(viewsSlice, old(cache).Keys, offset, length) then Success(server.file[offset..offset + length])
             else Failure(NotSliceable)
    {
      hide Valid, ReadSoFar, Set, BlockOf, Slice, AlikeFrom, NoneKept, CanSlice;
      var blockStart: nat := offset / BLOCK_SIZE;
      var blockOffset: nat := offset % BLOCK_SIZE;
      var ret: bytes := Zeros(length);
      var position: nat := 0;
      var bytesRemaining: nat := length;
      ghost var keys := cache.Keys;
      NothingRead(ret, server.file, offset);
      NothingFetched(viewsSlice, keys, blockStart);
      while bytesRemaining > 0
        invariant Valid() && ranged && (old(initialized) ==> initialized)
        invariant position + bytesRemaining == length == |ret|
        invariant blockStart * BLOCK_SIZE + blockOffset >= offset + position && blockOffset < BLOCK_SIZE
        invariant bytesRemaining > 0 ==> blockStart * BLOCK_SIZE + blockOffset == offset + position
        invariant blockStart >= offset / BLOCK_SIZE && (position > 0 ==> blockOffset == 0)
        invariant AlikeFrom(cache.Keys, keys, blockStart)
        invariant InBounds(server.file, offset, length) ==> NoneKept(viewsSlice, keys, offset / BLOCK_SIZE, blockStart)
        invariant InBounds(server.file, offset, length) ==> ReadSoFar(ret, server.file, offset, position)
      {
        var bytesRead: nat := Min(BLOCK_SIZE - blockOffset, bytesRemaining);
        AlikeOneMore(cache.Keys, keys, blockStart);
        var part := ReadPart(blockStart, blockOffset, bytesRead);
        if part.Failure? {
          if blockStart in keys && InBounds(server.file, offset, length) {
            KeptIsNotSliced(keys, offset, length, blockStart);
          }
          return Failure(part.error);
        }
        OneMoreFetched(viewsSlice, keys, offset / BLOCK_SIZE, blockStart);
        if InBounds(server.file, offset, length) {
          OneBlockMore(ret, server.file, offset, position, blockStart, blockOffset, bytesRead);
        }
        ret := Set(ret, part.value, position);
        position := position + bytesRead;
        bytesRemaining := bytesRemaining - bytesRead;
        blockOffset := 0;
        blockStart := blockStart + 1;
      }
      if InBounds(server.file, offset, length) {
        AllRead(ret, server.file, offset);
        AllFetched(viewsSlice, keys, offset, length, blockStart);
      }
      return Success(ret);
    }

    method Read(offset: nat, length: nat) returns (r: Result<bytes, StreamError>)
      requires Valid()
      modifies this
      ensures Valid() && (old(initialized) ==> initialized)
      ensures InBounds(server.file, offset, length) ==>
        r == if ReadWorks(viewsSlice, server, old(initialized), old(cache).Keys, offset, length)
             then Success(server.file[offset..offset + length])
             else Failure(NotSliceable)
    {
      var blockStart := offset / BLOCK_SIZE;
      ghost var before := cache.Keys;
      if !initialized {
        var first := ReadBlock(blockStart);
        if first.Failure? {
          return Failure(first.error);
        }
        assert server.ranges ==> blockStart in cache;
      }
      if ranged {
        r := ReadRanged(offset, length);
      } else {
        r := Success(Slice(buffer.value, offset, offset + length));
      }
    }

    /** A block read, for a number within it: the whole file's view, or the block's. */
    method Load(blockStart: nat) returns (r: Result<bytes, StreamError>)
      requires Valid()
      modifies this
      ensures Valid() && (old(initialized) ==> initialized)
      ensures r.Success? ==> initialized && ranged == server.ranges
      ensures r.Success? && server.ranges ==> blockStart in cache
      ensures blockStart * BLOCK_SIZE < |server.file| ==>
        r == Success(if server.ranges then BlockOf(server.file, blockStart) else server.file)
    {
      var block := ReadBlock(blockStart);
      if block.Failure? {
        return Failure(block.error);
      }
      r := Success(if !ranged then buffer.value else cache[blockStart]);
    }

    /** The one byte: within the whole file, or by the file's own offset within its block. */
    method Read8(offset: nat) returns (r: Result<byte, StreamError>)
      requires Valid()
      modifies this
      ensures Valid() && (old(initialized) ==> initialized)
      ensures offset < |server.file| ==>
        r == if !server.ranges || offset < BLOCK_SIZE then Success(server.file[offset]) else Failure(PastEnd)
    {
      hide Valid, BlockOf;
      if offset < |server.file| {
        ByteOfBlock(server.file, offset);
      }
      var view := Load(offset / BLOCK_SIZE);
      if view.Failure? {
        return Failure(view.error);
      }
      if offset >= |view.value| {
        return Failure(PastEnd);
      }
      return Success(view.value[offset]);
    }

    method Read16(offset: nat, littleEndian: bool) returns (r: Result<word, StreamError>)
      requires Valid()
      modifies this
      ensures Valid() && (old(initialized) ==> initialized)
      ensures InBounds(server.file, offset, 2) ==>
        r == if NumberWorks(viewsSlice, server, offset, 2) then Success(Number16(server.file, offset, littleEndian))
             else Failure(NotSliceable)
    {
      hide Valid, BlockOf, Number16;
      var view := Load(offset / BLOCK_SIZE);
      if view.Failure? {
        return Failure(view.error);
      }
      var data := view.value;
      if !ranged {
        return if offset + 2 > |data| then Failure(PastEnd) else Success(Number16(data, offset, littleEndian));
      }
      var blockOffset := offset % BLOCK_SIZE;
      if blockOffset + 1 == BLOCK_SIZE {
        var both := Read(offset, 2);
        if InBounds(server.file, offset, 2) {
          RegionNumber16(server.file, offset, littleEndian);
        }
        if both.Failure? {
          return Failure(both.error);
        }
        return if |both.value| < 2 then Failure(PastEnd) else Success(Number16(both.value, 0, littleEndian));
      }
      if InBounds(server.file, offset, 2) {
        BlockNumber16(server.file, offset, littleEndian);
      }
      return if blockOffset + 2 > |data| then Failure(PastEnd) else Success(Number16(data, blockOffset, littleEndian));
    }

    method Read32(offset: nat, littleEndian: bool) returns (r: Result<dword, StreamError>)
      requires Valid()
      modifies this
      ensures Valid() && (old(initialized) ==> initialized)
      ensures InBounds(server.file, offset, 4) ==>
        r == if NumberWorks(viewsSlice, server, offset, 4) then Success(Number32(server.file, offset, littleEndian))
             else Failure(NotSliceable)
    {
      hide Valid, BlockOf, Number32;
      var view := Load(offset / BLOCK_SIZE);
      if view.Failure? {
        return Failure(view.error);
      }
      var data := view.value;
      if !ranged {
        return if offset + 4 > |data| then Failure(PastEnd) else Success(Number32(data, offset, littleEndian));
      }
      var blockOffset := offset % BLOCK_SIZE;
      if blockOffset + 3 >= BLOCK_SIZE {
        var both := Read(offset, 4);
        if InBounds(server.file, offset, 4) {
          RegionNumber32(server.file, offset, littleEndian);
        }
        if both.Failure? {
          return Failure(both.error);
        }
        return if |both.value| < 4 then Failure(PastEnd) else Success(Number32(both.value, 0, littleEndian));
      }
      if InBounds(server.file, offset, 4) {
        BlockNumber32(server.file, offset, littleEndian);
      }
      return if blockOffset + 4 > |data| then Failure(PastEnd) else Success(Number32(data, blockOffset, littleEndian));
    }

    method ReadSigned8(offset: nat) returns (r: Result<int, StreamError>)
      requires Valid()
      modifies this
      ensures Valid() && (old(initialized) ==> initialized)
      ensures offset < |server.file| ==>
        r == if !server.ranges || offset < BLOCK_SIZE then Success(Structures.ToSigned(server.file[offset], 1))
             else Failure(PastEnd)
      ensures offset < |server.file| && r.Success? ==>
        -0x80 <= r.value < 0x80 && (r.value == server.file[offset] as int || r.value == server.file[offset] as int - 0x100)
    {
      var unsigned := Read8(offset);
      if unsigned.Success? {
        Structures.SignedExactly(unsigned.value, 1);
      }
      match unsigned
      case Success(value) => r := Success(Structures.ToSigned(value, 1));
      case Failure(error) => r := Failure(error);
    }

    method ReadSigned16(offset: nat, littleEndian: bool) returns (r: Result<int, StreamError>)
      requires Valid()
      modifies this
      ensures Valid() && (old(initialized) ==> initialized)
      ensures InBounds(server.file, offset, 2) ==>
        r == if NumberWorks(viewsSlice, server, offset, 2)
             then Success(Structures.ToSigned(Number16(server.file, offset, littleEndian), 2))
             else Failure(NotSliceable)
      ensures InBounds(server.file, offset, 2) && r.Success? ==>
        -0x8000 <= r.value < 0x8000 && (r.value == Number16(server.file, offset, littleEndian) || r.value == Number16(server.file, offset, littleEndian) - 0x1_0000)
    {
      var unsigned := Read16(offset, littleEndian);
      if unsigned.Success? {
        Structures.SignedExactly(unsigned.value, 2);
      }
      match unsigned
      case Success(value) => r := Success(Structures.ToSigned(value, 2));
      case Failure(error) => r := Failure(error);
    }

    method ReadSigned32(offset: nat, littleEndian: bool) returns (r: Result<int, StreamError>)
      requires Valid()
      modifies this
      ensures Valid() && (old(initialized) ==> initialized)
      ensures InBounds(server.file, offset, 4) ==>
        r == if NumberWorks(viewsSlice, server, offset, 4)
             then Success(Structures.ToSigned(Number32(server.file, offset, littleEndian), 4))
             else Failure(NotSliceable)
      ensures InBounds(server.file, offset, 4) && r.Success? ==>
        -0x8000_0000 <= r.value < 0x8000_0000 && (r.value == Number32(server.file, offset, littleEndian) || r.value == Number32(server.file, offset, littleEndian) - 0x1_0000_0000)
    {
      var unsigned := Read32(offset, littleEndian);
      if unsigned.Success? {
        Structures.SignedExactly(unsigned.value, 4);
      }
      match unsigned
      case Success(value) => r := Success(Structures.ToSigned(value, 4));
      case Failure(error) => r := Failure(error);
    }
  }

  /** The first region read of a file, from a server with ranges and with views as they are: its block is kept by then, and not cut. */
  method FirstReadFails(file: bytes, offset: nat, length: nat) returns (r: Result<bytes, StreamError>)
    requires InBounds(file, offset, length)
    ensures r == Failure(NotSliceable)
  {
    var stream := new Stream(Server(file, true), false);
    r := stream.Read(offset, length);
  }

  /** A byte of the second block, from a server with ranges: past its block's view by the file's offset. */
  method SecondBlockByteFails(file: bytes, offset: nat) returns (r: Result<byte, StreamError>)
    requires 102_400 <= offset < |file|
    ensures r == Failure(PastEnd)
  {
    var stream := new Stream(Server(file, true), false);
    r := stream.Read8(offset);
  }

  /**
   * Whether a region in the file is read: where views can be sliced, where the
   * server has no ranges, and else only where something was read before and
   * none of the region's blocks was.
   */
  predicate ReadWorks(viewsSlice: bool, server: Server, initialized: bool, keys: set<nat>, offset: nat, length: nat)
    requires length > 0
  {
    viewsSlice || !server.ranges || (initialized && CanSlice(false, keys, offset, length))
  }

  predicate Straddles(offset: nat, width: nat) {
    offset % BLOCK_SIZE + width > BLOCK_SIZE
  }

  /** Whether a number in the file is read: one that straddles two blocks is, only where views can be sliced. */
  predicate NumberWorks(viewsSlice: bool, server: Server, offset: nat, width: nat) {
    viewsSlice || !server.ranges || !Straddles(offset, width)
  }

  function Number16(b: bytes, at: nat, littleEndian: bool): word
    requires at + 2 <= |b|
  {
    if littleEndian then U16(b, at) else 0x100 * b[at] as int + b[at + 1] as int
  }

  function Number32(b: bytes, at: nat, littleEndian: bool): dword
    requires at + 4 <= |b|
  {
    if littleEndian then U32(b, at)
    else 0x100_0000 * b[at] as int + 0x1_0000 * b[at + 1] as int + 0x100 * b[at + 2] as int + b[at + 3] as int
  }

  /** A number's digits of eight bits are its bytes: the lowest first, or the highest. */
  lemma NumberDigits(b: bytes, at: nat, littleEndian: bool)
    ensures at + 2 <= |b| ==>
      var n := Number16(b, at, littleEndian);
      n % 0x100 == b[if littleEndian then at else at + 1] && n / 0x100 == b[if littleEndian then at + 1 else at]
    ensures at + 4 <= |b| ==>
      var n := Number32(b, at, littleEndian);
      && n % 0x100 == b[if littleEndian then at else at + 3]
      && n / 0x100 % 0x100 == b[if littleEndian then at + 1 else at + 2]
      && n / 0x1_0000 % 0x100 == b[if littleEndian then at + 2 else at + 1]
      && n / 0x100_0000 == b[if littleEndian then at + 3 else at]
  {
    hide U16, U32;
    LowFirst(b, at);
    HighFirstIsReversed(b, at);
    if at + 2 <= |b| {
      LowFirst([b[at + 1], b[at]], 0);
    }
    if at + 4 <= |b| {
      LowFirst([b[at + 3], b[at + 2], b[at + 1], b[at]], 0);
    }
  }

  /** High byte first a number is that of its bytes reversed, low byte first. */
  lemma HighFirstIsReversed(b: bytes, at: nat)
    ensures at + 2 <= |b| ==> Number16(b, at, false) == Number16([b[at + 1], b[at]], 0, true)
    ensures at + 4 <= |b| ==> Number32(b, at, false) == Number32([b[at + 3], b[at + 2], b[at + 1], b[at]], 0, true)
  {
  }

  /** A number in a region read of it is the number in the file. */
  lemma RegionNumber16(file: bytes, offset: nat, littleEndian: bool)
    requires offset + 2 <= |file|
    ensures Number16(file[offset..offset + 2], 0, littleEndian) == Number16(file, offset, littleEndian)
  {
  }

  lemma RegionNumber32(file: bytes, offset: nat, littleEndian: bool)
    requires offset + 4 <= |file|
    ensures Number32(file[offset..offset + 4], 0, littleEndian) == Number32(file, offset, littleEndian)
  {
  }

  /** A number that does not straddle two blocks is whole in its block. */
  lemma BlockNumber16(file: bytes, offset: nat, littleEndian: bool)
    requires offset + 2 <= |file| && !Straddles(offset, 2)
    ensures offset / BLOCK_SIZE * BLOCK_SIZE < |file|
    ensures var block, at := BlockOf(file, offset / BLOCK_SIZE), offset % BLOCK_SIZE;
            at + 2 <= |block| && Number16(block, at, littleEndian) == Number16(file, offset, littleEndian)
  {
  }

  lemma BlockNumber32(file: bytes, offset: nat, littleEndian: bool)
    requires offset + 4 <= |file| && !Straddles(offset, 4)
    ensures offset / BLOCK_SIZE * BLOCK_SIZE < |file|
    ensures var block, at := BlockOf(file, offset / BLOCK_SIZE), offset % BLOCK_SIZE;
            at + 4 <= |block| && Number32(block, at, littleEndian) == Number32(file, offset, littleEndian)
  {
  }

  /** By a file's own offset a block holds the file's byte, if it is the first, and else nothing. */
  lemma ByteOfBlock(file: bytes, offset: nat)
    requires offset < |file|
    ensures offset / BLOCK_SIZE * BLOCK_SIZE < |file|
    ensures var block := BlockOf(file, offset / BLOCK_SIZE);
            (offset < |block| <==> offset < BLOCK_SIZE) && (offset < |block| ==> block[offset] == file[offset])
  {
  }

  lemma AllRead(ret: bytes, file: bytes, offset: nat)
    requires ReadSoFar(ret, file, offset, |ret|)
    ensures ret == file[offset..offset + |ret|]
  {
  }

  /** The front of a result read: the file's bytes from an offset. */
  predicate ReadSoFar(ret: bytes, file: bytes, offset: nat, position: nat) {
    && position <= |ret| && offset + position <= |file|
    && forall k :: 0 <= k < position ==> ret[k] == file[offset + k]
  }

  lemma NothingRead(ret: bytes, file: bytes, offset: nat)
    ensures offset <= |file| ==> ReadSoFar(ret, file, offset, 0)
  {
  }

  /** A block's part put in its place brings the result so much further. */
  lemma OneBlockMore(ret: bytes, file: bytes, offset: nat, position: nat, blockStart: nat, blockOffset: nat, count: nat)
    requires ReadSoFar(ret, file, offset, position) && position + count <= |ret| && offset + position + count <= |file|
    requires blockStart * BLOCK_SIZE + blockOffset == offset + position && blockOffset + count <= BLOCK_SIZE && count > 0
    ensures blockStart * BLOCK_SIZE < |file|
    ensures var part := Slice(BlockOf(file, blockStart), blockOffset, blockOffset + count);
            |part| == count && ReadSoFar(Set(ret, part, position), file, offset, position + count)
  {
  }

  /** A region not empty and within a file. */
  predicate InBounds(file: bytes, offset: nat, length: nat) {
    length > 0 && offset + length <= |file|
  }

  /** Whether every block a region covers can be sliced: views can, or each is fetched afresh. */
  predicate CanSlice(viewsSlice: bool, keys: set<nat>, offset: nat, length: nat)
    requires length > 0
  {
    viewsSlice || forall p :: offset / BLOCK_SIZE <= p <= (offset + length - 1) / BLOCK_SIZE ==> p !in keys
  }

  /** Blocks kept from one on are as they were. */
  ghost predicate AlikeFrom(now: set<nat>, before: set<nat>, blockStart: nat) {
    forall p :: p >= blockStart ==> (p in now <==> p in before)
  }

  lemma AlikeOneMore(now: set<nat>, before: set<nat>, blockStart: nat)
    requires AlikeFrom(now, before, blockStart)
    ensures AlikeFrom(now + {blockStart}, before, blockStart + 1)
    ensures blockStart in now <==> blockStart in before
  {
  }

  /** Blocks of a row each sliced: views can be, or none was kept. */
  predicate NoneKept(viewsSlice: bool, keys: set<nat>, first: nat, end: nat) {
    viewsSlice || forall p :: first <= p < end ==> p !in keys
  }

  lemma NothingFetched(viewsSlice: bool, keys: set<nat>, first: nat)
    ensures NoneKept(viewsSlice, keys, first, first) && AlikeFrom(keys, keys, first)
  {
  }

  lemma OneMoreFetched(viewsSlice: bool, keys: set<nat>, first: nat, blockStart: nat)
    requires viewsSlice || blockStart !in keys
    ensures NoneKept(viewsSlice, keys, first, blockStart) ==> NoneKept(viewsSlice, keys, first, blockStart + 1)
  {
  }

  lemma KeptIsNotSliced(keys: set<nat>, offset: nat, length: nat, blockStart: nat)
    requires length > 0 && blockStart in keys && offset / BLOCK_SIZE <= blockStart
    requires blockStart * BLOCK_SIZE < offset + length
    ensures !CanSlice(false, keys, offset, length)
  {
  }

  lemma AllFetched(viewsSlice: bool, keys: set<nat>, offset: nat, length: nat, blockStart: nat)
    requires length > 0 && NoneKept(viewsSlice, keys, offset / BLOCK_SIZE, blockStart) && blockStart * BLOCK_SIZE >= offset + length
    ensures CanSlice(viewsSlice, keys, offset, length)
  {
  }

  function Zeros(length: nat): (r: bytes)
    ensures |r| == length && forall k :: 0 <= k < length ==> r[k] == 0
  {
    seq(length, _ => 0)
  }

  /** Bytes put over others from a place on. */
  function Set(ret: bytes, data: bytes, position: nat): (r: bytes)
    requires position + |data| <= |ret|
    ensures |r| == |ret|
    ensures forall k :: 0 <= k < |r| ==> r[k] == if position <= k < position + |data| then data[k - position] else ret[k]
  {
    ret[..position] + data + ret[position + |data|..]
  }

  /** What `readBlock` answers: what is kept, or what the server has, which past the file's end is an error. */
  function BlockRead(server: Server, cache: map<nat, bytes>, buffer: Option<bytes>, position: nat)
    : (r: Result<Block, StreamError>)
    ensures r.Success? && server.ranges && position !in cache && buffer.None? ==> position * BLOCK_SIZE < |server.file|
  {
    if buffer.Some? then Success(Kept(buffer.value))
    else if position in cache then Success(Kept(cache[position]))
    else if !server.ranges then Success(Fetched(server.file))
    else if position * BLOCK_SIZE < |server.file| then Success(Fetched(BlockOf(server.file, position)))
    else Failure(HttpError)
  }
}
