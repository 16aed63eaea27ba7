/**
 * Where a program's stack is put and what its start-up records of it
 * (`prepare`, `dataTop` and `initTask` of src/win16.ts).
 */
module StackLayout {
  import opened Bytes

  const SEGMENT := 0x1_0000

  /** What a stack keeps back between the data and its limit. */
  const MARGIN := 0x96

  type Size = x: int | 0 <= x <= SEGMENT

  /** What a program's header and its data segment say. */
  datatype DataSegment = DataSegment(length: Size, minAllocation: word)
  datatype Header = Header(initialStackSize: word, initialLocalHeapSize: word)

  /** Where what a data segment holds and asks for ends. */
  function DataEnd(data: DataSegment): (end: Size)
    ensures end == data.length || end == data.minAllocation
    ensures end >= data.length && end >= data.minAllocation
  {
    if data.length > data.minAllocation then data.length else data.minAllocation
  }

  /** The lowest even offset from there on. */
  function DataTop(data: DataSegment): (top: Size)
    ensures top % 2 == 0 && DataEnd(data) <= top <= DataEnd(data) + 1
  {
    (DataEnd(data) + 1) / 2 * 2
  }

  /** The stack pointer a program starts with. */
  function StartOf(header: Header, data: DataSegment): word {
    Wrap16(DataTop(data) + header.initialStackSize)
  }

  /** A word written in a segment; one past the segment's end would fault. */
  function WithWord(stack: bytes, at: nat, value: word): (r: bytes)
    requires at + 2 <= |stack|
    ensures |r| == |stack| && U16(r, at) == value
    ensures forall k {:trigger r[k]} :: 0 <= k < |stack| && k != at && k != at + 1 ==> r[k] == stack[k]
  {
    stack[at := value % 0x100][at + 1 := value / 0x100]
  }

  /** The registers a start-up uses, and its stack's segment. */
  class Core {
    var bx: word
    var cx: word
    var bp: word
    var sp: word
    const stack: array<byte>

    constructor ()
      ensures stack.Length == SEGMENT
    {
      stack := new byte[SEGMENT](_ => 0);
      bx, cx, bp, sp := 0, 0, 0, 0;
    }

    ghost predicate Valid() {
      stack.Length == SEGMENT
    }

    method Write16(at: word, value: word)
      requires Valid() && at < SEGMENT - 1
      modifies stack
      ensures stack[..] == WithWord(old(stack[..]), at, value)
    {
      stack[at] := value % 0x100;
      stack[at + 1] := value / 0x100;
    }

    method Push16(value: word)
      requires Valid() && sp != 1
      modifies `sp, stack
      ensures sp == Wrap16(old(sp) - 2)
      ensures stack[..] == WithWord(old(stack[..]), sp, value)
    {
      sp := Wrap16(sp - 2);
      Write16(sp, value);
    }

    method Pop16() returns (value: word)
      requires Valid() && sp < SEGMENT - 1
      modifies `sp
      ensures sp == Wrap16(old(sp) + 2) && value == U16(stack[..], old(sp))
    {
      value := stack[sp] as int + 0x100 * stack[sp + 1] as int;
      sp := Wrap16(sp + 2);
    }

    /** The registers a program starts with (`prepare`). */
    method Prepare(header: Header, data: DataSegment)
      modifies this
      ensures sp == StartOf(header, data)
      ensures bx == header.initialStackSize && cx == header.initialLocalHeapSize
    {
      sp := StartOf(header, data);
      bx := header.initialStackSize;
      cx := header.initialLocalHeapSize;
    }

    /** A far call: the return address pushed, its segment first. */
    method CallFar(cs: word, ip: word)
      requires Valid() && sp != 1 && sp != 3
      modifies `sp, stack
      ensures sp == Wrap16(old(sp) - 4)
      ensures bx == old(bx) && cx == old(cx) && stack[..] == CalledFrom(old(stack[..]), old(sp), cs, ip)
    {
      Push16(cs);
      Push16(ip);
    }

    /** Limit, bottom and lowest point noted at the data segment's front. */
    method RecordStack() returns (limit: word)
      requires Valid()
      modifies stack
      ensures limit == Limit(sp, bx) && stack[..] == Recorded(old(stack[..]), sp, bx)
    {
      var bottom := Wrap16(sp + 4);
      limit := Wrap16(bottom - bx + MARGIN);
      Write16(0x0a, limit);
      Write16(0x0c, bottom);
      Write16(0x0e, bottom);
    }

    /** The return address taken off, a nought put in its place for frame walks, and the address put back. */
    method PutFrame()
      requires Valid() && sp != 1 && sp != SEGMENT - 1 && sp != SEGMENT - 3
      modifies this, stack
      ensures sp == Wrap16(old(sp) - 2) && bx == old(bx) && cx == old(cx) && bp == old(sp)
      ensures stack[..] == Framed(old(stack[..]), old(sp))
    {
      bp := sp;
      var retIP := Pop16();
      var retCS := Pop16();
      Push16(0);
      Push16(retCS);
      Push16(retIP);
    }

    /**
     * `InitTask`, with whether its local heap could be made where it asks for
     * one: nought and nothing else where it could not. No word it reads or
     * writes may run past the segment's end.
     */
    method InitTask(heapMade: bool) returns (answer: word)
      requires Valid() && sp != 1 && sp != SEGMENT - 1 && sp != SEGMENT - 3
      modifies this, stack
      ensures answer == if old(cx) != 0 && !heapMade then 0 else 1
      ensures answer == 0 ==>
        sp == old(sp) && bp == old(bp) && bx == old(bx) && cx == old(cx) && stack[..] == old(stack[..])
      ensures answer == 1 ==>
        && sp == Wrap16(old(sp) - 2) && bp == old(sp) && bx == 0x81 && cx == Limit(old(sp), old(bx))
        && stack[..] == Framed(Recorded(old(stack[..]), old(sp), old(bx)), old(sp))
    {
      if cx != 0 && !heapMade {
        return 0;
      }
      var limit := RecordStack();
      bx := 0x81;
      cx := limit;
      PutFrame();
      return 1;
    }

    /** A program started, its start-up calling `InitTask` with what it was started with. */
    method StartUp(header: Header, data: DataSegment, cs: word, ip: word, heapMade: bool) returns (answer: word)
      requires Valid()
      requires !Faults(StartOf(header, data))
      modifies this, stack
      ensures answer == if header.initialLocalHeapSize != 0 && !heapMade then 0 else 1
      ensures var start := StartOf(header, data);
        answer == 1 ==>
          && sp == Wrap16(start - 6) && bp == Wrap16(start - 4) && cx == Wrap16(DataTop(data) + MARGIN)
          && stack[..] == AfterStart(old(stack[..]), start, header.initialStackSize, cs, ip)
          && (!MeetsHeader(start) ==>
                && IsFramed(old(stack[..]), stack[..], start, header.initialStackSize, cs, ip)
                && U16(stack[..], 0x0a) == cx && U16(stack[..], 0x0c) == start)
    {
      hide Framed, Recorded, WithWord, U16, Limit;
      Prepare(header, data);
      if !MeetsHeader(sp) {
        StartUpFrame(stack[..], sp, bx, cs, ip);
      }
      StartUpRecords(header, data);
      CallFar(cs, ip);
      answer := InitTask(heapMade);
    }
  }

  /** The stack's bottom as a start-up's call leaves it to be found: past the return address. */
  function Bottom(sp: word): word {
    Wrap16(sp + 4)
  }

  function Limit(sp: word, bx: word): word {
    Wrap16(Bottom(sp) - bx + MARGIN)
  }

  /** The three words of the data segment's header: the limit, the bottom and the lowest reached. */
  function Recorded(stack: bytes, sp: word, bx: word): (r: bytes)
    requires |stack| == SEGMENT
    ensures |r| == SEGMENT
    ensures U16(r, 0x0a) == Limit(sp, bx) && U16(r, 0x0c) == Bottom(sp) && U16(r, 0x0e) == Bottom(sp)
    ensures forall k :: 0 <= k < SEGMENT && !(0x0a <= k < 0x10) ==> r[k] == stack[k]
  {
    WithWord(WithWord(WithWord(stack, 0x0a, Limit(sp, bx)), 0x0c, Bottom(sp)), 0x0e, Bottom(sp))
  }

  /** The return address taken off and put back a word lower, above a nought. */
  function Framed(stack: bytes, sp: word): (r: bytes)
    requires |stack| == SEGMENT && sp != 1 && sp != SEGMENT - 1 && sp != SEGMENT - 3
    ensures |r| == SEGMENT
  {
    var retIP, retCS := U16(stack, sp), U16(stack, Wrap16(sp + 2));
    WithWord(WithWord(WithWord(stack, Wrap16(sp + 2), 0), sp, retCS), Wrap16(sp - 2), retIP)
  }

  /** The stack after a program's start-up calls `InitTask` from where it was prepared. */
  function CalledFrom(stack: bytes, sp: word, cs: word, ip: word): (r: bytes)
    requires |stack| == SEGMENT && sp != 1 && sp != 3
    ensures |r| == SEGMENT
  {
    WithWord(WithWord(stack, Wrap16(sp - 2), cs), Wrap16(sp - 4), ip)
  }

  /**
   * Called straight from start-up with BX kept, the bottom recorded is the
   * data's end and the stack's size, and the limit the data's end and 96h,
   * in sixteen bits: whatever the size of either.
   */
  lemma StartUpRecords(header: Header, data: DataSegment)
    ensures var sp := StartOf(header, data);
            && Bottom(Wrap16(sp - 4)) == sp == (DataTop(data) + header.initialStackSize) % 0x1_0000
            && Limit(Wrap16(sp - 4), header.initialStackSize) == (DataTop(data) + 0x96) % 0x1_0000
  {
  }

  /** Whether a byte is the stack's: below where it starts, and no further than its size less the margin. */
  predicate StackTakes(header: Header, data: DataSegment, place: word) {
    1 <= Wrap16(StartOf(header, data) - place) <= header.initialStackSize - 0x96
  }

  /** Those are the bytes from the limit recorded up, as many as the size less the margin. */
  lemma StackIsFromLimit(header: Header, data: DataSegment, place: word)
    ensures var limit := Limit(Wrap16(StartOf(header, data) - 4), header.initialStackSize);
            StackTakes(header, data, place) <==> Wrap16(place - limit) < header.initialStackSize - MARGIN
  {
    StartUpRecords(header, data);
  }

  /** The stack runs past the segment's end, and so round to its start. */
  predicate RunsRound(header: Header, data: DataSegment) {
    header.initialStackSize > 0x96 && DataTop(data) + header.initialStackSize > 0x1_0000
  }

  /** The stack meets the data exactly where it has any bytes above its limit and runs past the segment's end. */
  lemma StackMeetsDataExactly(header: Header, data: DataSegment)
    ensures (exists place: word :: StackTakes(header, data, place) && place < DataEnd(data)) <==> RunsRound(header, data)
  {
    if RunsRound(header, data) {
      var place := DataTop(data) + header.initialStackSize - SEGMENT - 1;
      assert StackTakes(header, data, place) && place < DataEnd(data);
    }
  }

  /** A byte of the frame a start-up's call leaves, six bytes below where the stack starts. */
  predicate FrameTakes(header: Header, data: DataSegment, place: word) {
    1 <= Wrap16(StartOf(header, data) - place) <= 6
  }

  /** The frame meets the data exactly where the stack runs past the segment's end, or is too small to hold it. */
  lemma FrameMeetsDataExactly(header: Header, data: DataSegment)
    ensures (exists place: word :: FrameTakes(header, data, place) && place < DataEnd(data))
       <==> DataEnd(data) > 0 && (DataTop(data) + header.initialStackSize > SEGMENT
                                  || DataTop(data) + header.initialStackSize < DataEnd(data) + 6)
  {
    var start := DataTop(data) + header.initialStackSize;
    if DataEnd(data) > 0 && start > SEGMENT {
      assert FrameTakes(header, data, start - SEGMENT - 1);
    }
    if 0 < DataEnd(data) && start < DataEnd(data) + 6 {
      var place := if start >= 6 then start - 6 else 0;
      assert start <= SEGMENT ==> FrameTakes(header, data, place);
    }
  }

  /** 64,000 bytes of data and a stack of 4,000: a byte is both. */
  lemma StackMeetsData()
    ensures var header, data := Header(4000, 0), DataSegment(64000, 0);
            StackTakes(header, data, 2463) && 2463 < DataEnd(data)
  {
  }

  /** 1,000 bytes of data and a stack of four: a byte is the data's and the frame's. */
  lemma FrameMeetsData()
    ensures var header, data := Header(4, 0), DataSegment(1000, 0);
            FrameTakes(header, data, 998) && 998 < DataEnd(data)
  {
  }

  /** The two words recorded are at or above the data's end exactly where data, margin and stack leave room in the segment. */
  lemma RecordedAboveDataExactly(header: Header, data: DataSegment)
    ensures var sp := StartOf(header, data);
            var limit, bottom := Limit(Wrap16(sp - 4), header.initialStackSize), Bottom(Wrap16(sp - 4));
            (limit >= DataTop(data) && bottom >= DataTop(data)
             <==> DataTop(data) + MARGIN < SEGMENT && DataTop(data) + header.initialStackSize < SEGMENT)
  {
  }

  /** Whether words so placed run past the segment's end, where the call faults. */
  predicate Faults(sp: word) {
    sp == 1 || sp == 3 || sp == 5
  }

  /** Whether the call's words and the frame, the three words below a stack pointer, meet the header's own. */
  predicate MeetsHeader(sp: word) {
    0x0a < sp < 0x16
  }

  /** The same far return address above a nought, the header's three words, and nothing else changed. */
  predicate IsFramed(stack: bytes, after: bytes, sp: word, bx: word, cs: word, ip: word)
    requires |stack| == |after| == SEGMENT && !Faults(sp)
  {
    && U16(after, Wrap16(sp - 6)) == ip && U16(after, Wrap16(sp - 4)) == cs && U16(after, Wrap16(sp - 2)) == 0
    && U16(after, 0x0a) == Limit(Wrap16(sp - 4), bx) && U16(after, 0x0c) == sp && U16(after, 0x0e) == sp
    && forall k {:trigger after[k]} :: 0 <= k < SEGMENT && Wrap16(k - sp) < 0xfffa && !(0x0a <= k < 0x10) ==> after[k] == stack[k]
  }

  /** The stack as `InitTask` leaves it, called from a stack pointer. */
  function AfterStart(stack: bytes, sp: word, bx: word, cs: word, ip: word): (r: bytes)
    requires |stack| == SEGMENT && !Faults(sp)
    ensures |r| == SEGMENT
  {
    var at := Wrap16(sp - 4);
    Framed(Recorded(CalledFrom(stack, sp, cs, ip), at, bx), at)
  }

  /** Called from a stack pointer clear of the header, the frame and the header's words are as they are to be. */
  lemma StartUpFrame(stack: bytes, sp: word, bx: word, cs: word, ip: word)
    requires |stack| == SEGMENT && !Faults(sp) && !MeetsHeader(sp)
    ensures IsFramed(stack, AfterStart(stack, sp, bx, cs, ip), sp, bx, cs, ip)
  {
    hide AfterStart;
    FramedWords(stack, sp, bx, cs, ip);
    forall k {:trigger AfterStart(stack, sp, bx, cs, ip)[k]} | 0 <= k < SEGMENT && Wrap16(k - sp) < 0xfffa && !(0x0a <= k < 0x10)
      ensures AfterStart(stack, sp, bx, cs, ip)[k] == stack[k]
    {
      FramedRest(stack, sp, bx, cs, ip, k);
    }
  }

  lemma FramedRest(stack: bytes, sp: word, bx: word, cs: word, ip: word, k: word)
    requires |stack| == SEGMENT && !Faults(sp) && Wrap16(k - sp) < 0xfffa && !(0x0a <= k < 0x10)
    ensures AfterStart(stack, sp, bx, cs, ip)[k] == stack[k]
  {
    hide WithWord, U16;
  }

  lemma FramedWords(stack: bytes, sp: word, bx: word, cs: word, ip: word)
    requires |stack| == SEGMENT && !Faults(sp) && !MeetsHeader(sp)
    ensures var after := AfterStart(stack, sp, bx, cs, ip);
      && U16(after, Wrap16(sp - 6)) == ip && U16(after, Wrap16(sp - 4)) == cs && U16(after, Wrap16(sp - 2)) == 0
      && U16(after, 0x0a) == Limit(Wrap16(sp - 4), bx) && U16(after, 0x0c) == sp && U16(after, 0x0e) == sp
  {
    hide WithWord, Limit;
    var at := Wrap16(sp - 4);
    var called := CalledFrom(stack, sp, cs, ip);
    var recorded := Recorded(called, at, bx);
    assert U16(called, at) == ip && U16(called, Wrap16(sp - 2)) == cs;
    assert U16(recorded, at) == ip && U16(recorded, Wrap16(sp - 2)) == cs;
  }

  /** Called from any other, some return address comes out wrong, or a word of the header does, whatever the stack's size. */
  lemma HeaderSpoilsFrame(stack: bytes, sp: word, bx: word)
    requires |stack| == SEGMENT && MeetsHeader(sp)
    ensures !IsFramed(stack, AfterStart(stack, sp, bx, 0xffff, 0xffff), sp, bx, 0xffff, 0xffff)
  {
  }

  /** So of every stack size the frame is right, for every return address, exactly where the stack pointer is clear of the header. */
  lemma StartUpFrameExactly(stack: bytes, sp: word, bx: word)
    requires |stack| == SEGMENT && !Faults(sp)
    ensures (forall cs, ip :: IsFramed(stack, AfterStart(stack, sp, bx, cs, ip), sp, bx, cs, ip)) <==> !MeetsHeader(sp)
  {
    hide IsFramed, AfterStart;
    if MeetsHeader(sp) {
      HeaderSpoilsFrame(stack, sp, bx);
    } else {
      forall cs, ip ensures IsFramed(stack, AfterStart(stack, sp, bx, cs, ip), sp, bx, cs, ip) {
        StartUpFrame(stack, sp, bx, cs, ip);
      }
    }
  }

  /** A start-up with 0F000h bytes of data and a stack of 1010h, called from where it returns to 0FFFFh:0FFFFh. */
  lemma StartUpSpoilsFrame(stack: bytes)
    requires |stack| == SEGMENT
    ensures var header, data := Header(0x1010, 0), DataSegment(0xf000, 0);
            StartOf(header, data) == 0x10
            && !IsFramed(stack, AfterStart(stack, 0x10, 0x1010, 0xffff, 0xffff), 0x10, 0x1010, 0xffff, 0xffff)
  {
    hide IsFramed, AfterStart;
    HeaderSpoilsFrame(stack, 0x10, 0x1010);
  }
}
