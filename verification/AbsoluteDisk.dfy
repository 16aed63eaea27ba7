/** Interrupts that reach a drive's sectors directly (`absoluteDisk` of src/dos.ts). */
module AbsoluteDisk {
  import opened Wrappers
  import opened Bytes
  import opened DiskBlocks

  /** What memory holds; a place never written holds nought. */
  type Cells = map<nat, byte>

  function At(memory: Cells, address: nat): byte {
    if address in memory then memory[address] else 0
  }

  function WordAt(memory: Cells, address: nat): word {
    At(memory, address) as int + 0x100 * At(memory, address + 1) as int
  }

  /** A run of bytes in memory. */
  function Gathered(memory: Cells, address: nat, length: nat): (r: bytes)
    ensures |r| == length
    ensures forall k {:trigger r[k]} :: 0 <= k < length ==> r[k] == At(memory, address + k)
  {
    seq<byte>(length, k requires 0 <= k < length => At(memory, address + k))
  }

  /** A run of bytes put in memory. */
  function Scattered(memory: Cells, address: nat, data: bytes): (r: Cells)
    ensures forall a: nat :: At(r, a) == if address <= a < address + |data| then data[a - address] else At(memory, a)
  {
    if data == [] then memory
    else
      var last := |data| - 1;
      var rest := Scattered(memory, address, data[..last]);
      var all := rest[address + last := data[last]];
      assert forall a: nat :: At(all, a) == if a == address + last then data[last] else At(rest, a);
      all
  }

  datatype Registers = Registers(ax: word, bx: word, cx: word, dx: word, ds: word, ss: word, sp: word, f: word)

  predicate Carry(f: word) {
    f % 2 == 1
  }

  function WithCarry(f: word, carry: bool): (r: word)
    ensures Carry(r) == carry && r / 2 == f / 2
  {
    f - f % 2 + if carry then 1 else 0
  }

  /** What a call asks for: its first sector, how many, and where in memory. */
  datatype Request = Request(first: dword, count: word, segment: word, offset: word)

  /** What the registers say, and the packet they point at if they point at one. */
  function Asked(regs: Registers, memory: Cells, base: word -> nat): Request {
    if regs.cx == 0xffff then
      var packet := base(regs.ds) + regs.bx;
      Request(
        WordAt(memory, packet) as int + 0x1_0000 * WordAt(memory, packet + 2) as int,
        WordAt(memory, packet + 4),
        WordAt(memory, packet + 8),
        WordAt(memory, packet + 6)
      )
    else Request(regs.dx, regs.cx, regs.ds, regs.bx)
  }

  /** The registers and the memory, and what the disk asked for holds if there is one. */
  datatype State = State(regs: Registers, memory: Cells, disk: Option<Contents>)

  function Buffer(r: Request, base: word -> nat): nat {
    base(r.segment) + r.offset
  }

  /** Where the stack's top word is. */
  function StackTop(regs: Registers, base: word -> nat): nat {
    base(regs.ss) + regs.sp
  }

  /** The flags left on the stack. */
  function Pushed(s: State, base: word -> nat): State {
    var regs := s.regs.(sp := Wrap16(s.regs.sp - 2));
    State(regs, Scattered(s.memory, StackTop(regs, base), Word(regs.f)), s.disk)
  }

  /** What a call does. */
  ghost function After(write: bool, s: State, base: word -> nat): State {
    var r := Asked(s.regs, s.memory, base);
    if s.disk.None? then
      Pushed(s.(regs := s.regs.(ax := 0x8002, f := WithCarry(s.regs.f, true))), base)
    else
      var done := s.(regs := s.regs.(f := WithCarry(s.regs.f, false)));
      var length := r.count * SECTOR;
      if write then
        Pushed(done.(disk := Some(Overlaid(s.disk.value, r.first * SECTOR, Gathered(s.memory, Buffer(r, base), length)))), base)
      else
        Pushed(done.(memory := Scattered(s.memory, Buffer(r, base), Sliced(s.disk.value, r.first * SECTOR, length))), base)
  }

  // ---------------------------------------------------------------- what calls come to

  /** Whether an address is in the word a call leaves on the stack. */
  predicate OnStack(a: nat, s: State, base: word -> nat) {
    0 <= a - StackTop(s.regs.(sp := Wrap16(s.regs.sp - 2)), base) < 2
  }

  /**
   * A call fails exactly when there is no such drive, and only then changes AX; either way the
   * caller, told by the carry of the flags it finds on the stack, pops them and has its own stack pointer.
   */
  lemma FailsExactly(write: bool, s: State, base: word -> nat)
    ensures var t := After(write, s, base);
      && (Carry(t.regs.f) <==> s.disk.None?)
      && WordAt(t.memory, StackTop(t.regs, base)) == t.regs.f
      && Wrap16(t.regs.sp + 2) == s.regs.sp
      && t.regs == s.regs.(ax := if s.disk.None? then 0x8002 else s.regs.ax, sp := t.regs.sp, f := t.regs.f)
      && t.regs.f / 2 == s.regs.f / 2
      && (s.disk.None? ==> t.disk.None?)
  {
  }

  /** A byte of the flags a call that found its drive leaves on the stack. */
  function FlagByte(a: nat, s: State, base: word -> nat): byte
    requires OnStack(a, s, base)
  {
    Word(WithCarry(s.regs.f, false))[a - StackTop(s.regs.(sp := Wrap16(s.regs.sp - 2)), base)]
  }

  /** The two calls' requests are of the same sectors, and what the second finds on the disk the first wrote. */
  ghost predicate WritesThenReads(s: State, t: State, base: word -> nat) {
    && s.disk.Some? && t.disk == After(true, s, base).disk
    && var r, q := Asked(s.regs, s.memory, base), Asked(t.regs, t.memory, base);
       r.first == q.first && r.count == q.count
  }

  /**
   * Sectors written and then read back are, byte by byte in memory, what was written, whatever the
   * two calls' buffers and forms, but in the word the second call leaves on the stack: there they
   * are its flags.
   */
  lemma WrittenIsRead(s: State, t: State, base: word -> nat, k: nat)
    requires WritesThenReads(s, t, base) && k < Asked(s.regs, s.memory, base).count * SECTOR
    ensures var from := Buffer(Asked(s.regs, s.memory, base), base) + k;
      var to := Buffer(Asked(t.regs, t.memory, base), base) + k;
      At(After(false, t, base).memory, to) == if OnStack(to, t, base) then FlagByte(to, t, base) else At(s.memory, from)
  {
    hide Sliced, Overlaid, Asked, WithCarry, Word, After, Gathered, FlagByte, OnStack;
    var r := Asked(s.regs, s.memory, base);
    DiskAfterWrite(s, base);
    ReadsWhatWasWritten(s.disk.value, r.first * SECTOR, Gathered(s.memory, Buffer(r, base), r.count * SECTOR));
    ReadIntoMemory(t, base, k);
  }

  lemma DiskAfterWrite(s: State, base: word -> nat)
    requires s.disk.Some?
    ensures var r := Asked(s.regs, s.memory, base);
      After(true, s, base).disk
      == Some(Overlaid(s.disk.value, r.first * SECTOR, Gathered(s.memory, Buffer(r, base), r.count * SECTOR)))
  {
    hide Sliced, Overlaid, Asked, WithCarry, Word, Scattered;
  }

  /** Whether the flags a call leaves are, where they fall among the bytes from an address, those bytes already. */
  ghost predicate FlagsAgree(s: State, base: word -> nat, address: nat, data: bytes) {
    forall k: nat :: k < |data| && OnStack(address + k, s, base) ==> FlagByte(address + k, s, base) == data[k]
  }

  /** So the whole buffer reads back as written exactly where the flags left in it, if any are, are the bytes written there. */
  lemma WrittenIsReadExactly(s: State, t: State, base: word -> nat)
    requires WritesThenReads(s, t, base)
    ensures var from := Buffer(Asked(s.regs, s.memory, base), base);
      var to := Buffer(Asked(t.regs, t.memory, base), base);
      var length := Asked(s.regs, s.memory, base).count * SECTOR;
      (Gathered(After(false, t, base).memory, to, length) == Gathered(s.memory, from, length)
       <==> FlagsAgree(t, base, to, Gathered(s.memory, from, length)))
  {
    hide Asked, After, WithCarry, FlagByte, OnStack, Gathered, Word;
    var from := Buffer(Asked(s.regs, s.memory, base), base);
    var to := Buffer(Asked(t.regs, t.memory, base), base);
    var length := Asked(s.regs, s.memory, base).count * SECTOR;
    var read, written := Gathered(After(false, t, base).memory, to, length), Gathered(s.memory, from, length);
    forall k: nat | k < length
      ensures read[k] == if OnStack(to + k, t, base) then FlagByte(to + k, t, base) else written[k]
    {
      WrittenIsRead(s, t, base, k);
    }
  }

  // ---------------------------------------------------------------- by the registers

  /** What a call of so many sectors of 512 bytes does between a disk's bytes from a sector and memory's from an address. */
  ghost predicate Moves(write: bool, s: State, base: word -> nat, first: nat, count: nat, address: nat)
    requires s.disk.Some?
  {
    var t := After(write, s, base);
    && t.disk.Some? && (!write ==> t.disk == s.disk)
    && (forall a: nat :: !OnStack(a, s, base) ==>
          At(t.memory, a) == if !write && address <= a < address + 512 * count
                             then s.disk.value[Place(512 * first + (a - address))] else At(s.memory, a))
    && (write ==> forall p: Address :: t.disk.value[p]
                    == if Past(p, 512 * first) < 512 * count then At(s.memory, address + Past(p, 512 * first)) else s.disk.value[p])
  }

  /** With CX other than 0FFFFh: the CX sectors from DX on, and memory from DS:BX on. */
  lemma MovesByRegisters(write: bool, s: State, base: word -> nat)
    requires s.disk.Some? && s.regs.cx != 0xffff
    ensures Moves(write, s, base, s.regs.dx, s.regs.cx, base(s.regs.ds) + s.regs.bx)
  {
    hide WithCarry, Past, Place, Asked;
    RegistersAreRead(Request(s.regs.dx, s.regs.cx, s.regs.ds, s.regs.bx), s.regs, s.memory, base);
    MovesAsAsked(write, s, base);
  }

  /** With 0FFFFh: by the packet at DS:BX, its first sector four bytes, then its count, its offset and its segment two each. */
  lemma MovesByPacket(write: bool, s: State, base: word -> nat)
    requires s.disk.Some? && s.regs.cx == 0xffff
    ensures var packet := base(s.regs.ds) + s.regs.bx;
      Moves(write, s, base,
            WordAt(s.memory, packet) as int + 0x1_0000 * WordAt(s.memory, packet + 2) as int, WordAt(s.memory, packet + 4),
            base(WordAt(s.memory, packet + 8)) + WordAt(s.memory, packet + 6))
  {
    hide WithCarry, Past, Place, Moves, WordAt;
    MovesAsAsked(write, s, base);
  }

  lemma MovesAsAsked(write: bool, s: State, base: word -> nat)
    requires s.disk.Some?
    ensures var r := Asked(s.regs, s.memory, base);
      Moves(write, s, base, r.first, r.count, base(r.segment) + r.offset)
  {
    hide WithCarry, Past, Place, Asked, Word;
  }

  /** The word left on the stack is at SS and two below SP, in sixteen bits: a call's own flags with the carry its lowest bit. */
  lemma LeavesFlags(write: bool, s: State, base: word -> nat)
    ensures var t := After(write, s, base);
      var top := base(s.regs.ss) + (s.regs.sp - 2) % 0x1_0000;
      && (forall a: nat :: OnStack(a, s, base) <==> a == top || a == top + 1)
      && At(t.memory, top) as int + 0x100 * At(t.memory, top + 1) as int == t.regs.f
      && t.regs.f % 2 == (if s.disk.None? then 1 else 0) && t.regs.f / 2 == s.regs.f / 2
  {
    FailsExactly(write, s, base);
  }

  // ---------------------------------------------------------------- buffers that meet the stack

  /** Every segment at the bottom of memory. */
  const FLAT: word -> nat := _ => 0

  /** A call for one sector in a buffer at 100h, and a stack two bytes above the buffer's start. */
  function StackInBuffer(disk: Option<Contents>): State {
    State(Registers(0, 0x100, 1, 0, 0, 0, 0x102, 2), map[], disk)
  }

  /** A sector of noughts written and read back by such calls: the first byte read is the flags'. */
  lemma FlagsSpoilBuffer(c: Contents)
    ensures var s := StackInBuffer(Some(c));
      var t := StackInBuffer(After(true, s, FLAT).disk);
      At(s.memory, 0x100) == 0 && At(After(false, t, FLAT).memory, 0x100) == 2
  {
    hide Sliced, Overlaid, Scattered, Gathered, Asked, WithCarry;
  }

  /** Sectors read and then written back from where they were read leave the disk as it was exactly where the flags left among them, if any are, are the bytes read there. */
  lemma ReadThenWrittenIsNothingExactly(s: State, t: State, base: word -> nat)
    requires s.disk.Some? && t.disk == s.disk && t.memory == After(false, s, base).memory
    requires Asked(t.regs, t.memory, base) == Asked(s.regs, s.memory, base)
    ensures var r := Asked(s.regs, s.memory, base);
      (After(true, t, base).disk == s.disk
       <==> FlagsAgree(s, base, Buffer(r, base), Sliced(s.disk.value, r.first * SECTOR, r.count * SECTOR)))
  {
    hide Sliced, Overlaid, Asked, WithCarry, OnStack, FlagByte, Gathered, Scattered, Word, Past, Place;
    var r := Asked(s.regs, s.memory, base);
    var length := r.count * SECTOR;
    var data := Sliced(s.disk.value, r.first * SECTOR, length);
    var again := Gathered(t.memory, Buffer(r, base), length);
    forall k: nat | k < length
      ensures again[k] == if OnStack(Buffer(r, base) + k, s, base) then FlagByte(Buffer(r, base) + k, s, base) else data[k]
    {
      ReadIntoMemory(s, base, k);
    }
    assert again == data <==> FlagsAgree(s, base, Buffer(r, base), data);
    RewritingIsNothing(s.disk.value, r.first * SECTOR, length);
    ReadsWhatWasWritten(s.disk.value, r.first * SECTOR, again);
  }

  lemma ReadIntoMemory(s: State, base: word -> nat, k: nat)
    requires s.disk.Some? && k < Asked(s.regs, s.memory, base).count * SECTOR
    ensures var r := Asked(s.regs, s.memory, base);
      var a := Buffer(r, base) + k;
      At(After(false, s, base).memory, a)
      == if OnStack(a, s, base) then FlagByte(a, s, base) else Sliced(s.disk.value, r.first * SECTOR, r.count * SECTOR)[k]
  {
    hide Sliced, Asked, WithCarry, Word;
  }

  /** Sectors no write is of read as they did. */
  lemma OtherSectorsStay(s: State, base: word -> nat, first: nat, count: nat)
    requires s.disk.Some? && first + count <= SECTORS
    requires var r := Asked(s.regs, s.memory, base);
      r.first + r.count <= SECTORS && (first + count <= r.first || r.first + r.count <= first)
    ensures After(true, s, base).disk.Some?
    ensures Sliced(After(true, s, base).disk.value, first * SECTOR, count * SECTOR) == Sliced(s.disk.value, first * SECTOR, count * SECTOR)
  {
    hide Sliced, Overlaid, Asked, WithCarry, Scattered, Past;
    var r := Asked(s.regs, s.memory, base);
    forall p: Address | Past(p, first * SECTOR) < count * SECTOR
      ensures Past(p, r.first * SECTOR) >= r.count * SECTOR
    {
      SectorsApart(p, first, count, r.first, r.count);
    }
    OthersStay(s.disk.value, r.first * SECTOR, Gathered(s.memory, Buffer(r, base), r.count * SECTOR), first * SECTOR, count * SECTOR);
  }

  lemma SectorsApart(p: Address, first: nat, count: nat, other: nat, more: nat)
    requires first + count <= SECTORS && other + more <= SECTORS
    requires first + count <= other || other + more <= first
    requires Past(p, first * SECTOR) < count * SECTOR
    ensures Past(p, other * SECTOR) >= more * SECTOR
  {
  }

  // ---------------------------------------------------------------- the two forms

  /** A request's packet. */
  function Packet(r: Request): (p: bytes)
    ensures |p| == 10
  {
    DWord(r.first) + Word(r.count) + Word(r.offset) + Word(r.segment)
  }

  /** Any request can be put in a packet, and is read from it. */
  lemma PacketIsRead(r: Request, regs: Registers, memory: Cells, base: word -> nat)
    requires regs.cx == 0xffff && Gathered(memory, base(regs.ds) + regs.bx, 10) == Packet(r)
    ensures Asked(regs, memory, base) == r
  {
    hide Gathered, Packet, DWord, Word, U32;
    var packet := base(regs.ds) + regs.bx;
    PacketWords(r);
    WordsGathered(memory, packet, Packet(r));
  }

  lemma WordsGathered(memory: Cells, address: nat, p: bytes)
    requires |p| == 10 && Gathered(memory, address, 10) == p
    ensures WordAt(memory, address) == U16(p, 0) && WordAt(memory, address + 2) == U16(p, 2) && WordAt(memory, address + 4) == U16(p, 4)
    ensures WordAt(memory, address + 6) == U16(p, 6) && WordAt(memory, address + 8) == U16(p, 8)
  {
  }

  lemma PacketWords(r: Request)
    ensures var p := Packet(r);
      && U16(p, 0) as int + 0x1_0000 * U16(p, 2) as int == r.first
      && U16(p, 4) == r.count && U16(p, 6) == r.offset && U16(p, 8) == r.segment
  {
  }

  /** What registers alone can ask: fewer than 65,535 sectors, the first of them below 65,536. */
  predicate InRegisters(r: Request) {
    r.first < 0x1_0000 && r.count != 0xffff
  }

  /** A request can be put in the registers alone exactly when it is one of those. */
  lemma InRegistersExactly(r: Request, memory: Cells, base: word -> nat)
    ensures InRegisters(r) <==> exists regs: Registers :: regs.cx != 0xffff && Asked(regs, memory, base) == r
  {
    if InRegisters(r) {
      var regs := Registers(0, r.offset, r.count, r.first, r.segment, 0, 0, 0);
      assert Asked(regs, memory, base) == r;
    }
  }

  /**
   * The packet's form and the registers' agree: of one memory and one disk, the same request makes
   * the same memory and disk, and differs in no register but those that asked.
   */
  lemma FormsAgree(write: bool, s: State, t: State, r: Request, base: word -> nat)
    requires s.memory == t.memory && s.disk == t.disk
    requires s.regs.cx == 0xffff && Gathered(s.memory, base(s.regs.ds) + s.regs.bx, 10) == Packet(r)
    requires InRegisters(r) && t.regs == s.regs.(bx := r.offset, cx := r.count, dx := r.first, ds := r.segment)
    ensures var a, b := After(write, s, base), After(write, t, base);
      && a.memory == b.memory && a.disk == b.disk
      && b.regs == a.regs.(bx := r.offset, cx := r.count, dx := r.first, ds := r.segment)
  {
    hide Sliced, Overlaid, Scattered, Gathered, WithCarry, Asked, Packet;
    PacketIsRead(r, s.regs, s.memory, base);
    RegistersAreRead(r, t.regs, t.memory, base);
  }

  lemma RegistersAreRead(r: Request, regs: Registers, memory: Cells, base: word -> nat)
    requires r.count != 0xffff && regs.bx == r.offset && regs.cx == r.count && regs.dx == r.first && regs.ds == r.segment
    ensures Asked(regs, memory, base) == r
  {
  }

  // ---------------------------------------------------------------- the machine

  class Machine {
    var regs: Registers
    var memory: Cells
    const base: word -> nat
    /** The disks there are, by the drive AL gives, 0 for A:. */
    const disks: map<byte, Disk>

    constructor (base: word -> nat, disks: map<byte, Disk>)
      ensures this.base == base && this.disks == disks
    {
      this.base, this.disks := base, disks;
      regs := Registers(0, 0, 0, 0, 0, 0, 0, 2);
      memory := map[];
    }

    function Drive(): byte
      reads this
    {
      regs.ax % 0x100
    }

    function AskedOf(): set<Disk>
      reads this
    {
      if Drive() in disks then {disks[Drive()]} else {}
    }

    ghost predicate Valid()
      reads this, AskedOf()
    {
      forall d <- AskedOf() :: d.Valid()
    }

    ghost function Now(drive: byte): State
      requires drive in disks ==> disks[drive].Valid()
      reads this, if drive in disks then {disks[drive]} else {}
    {
      State(regs, memory, if drive in disks then Some(disks[drive].Holding()) else None)
    }

    method AbsoluteDisk(write: bool)
      requires Valid()
      modifies this, AskedOf()
      ensures old(Drive()) in disks ==> disks[old(Drive())].Valid()
      ensures Now(old(Drive())) == After(write, old(Now(Drive())), base)
    {
      hide Scattered, Gathered, Sliced, Overlaid, Asked, WithCarry;
      var drive := Drive();
      ghost var was := Now(drive);
      var r := AskedNow();
      if drive !in disks {
        regs := regs.(ax := 0x8002, f := WithCarry(regs.f, true));
      } else {
        var length := r.count * SECTOR;
        if write {
          var data := ReadBytes(base(r.segment) + r.offset, length);
          disks[drive].Write(r.first, 0, data);
        } else {
          var data := disks[drive].Read(r.first, 0, length);
          WriteBytes(base(r.segment) + r.offset, data);
        }
        regs := regs.(f := WithCarry(regs.f, false));
      }
      Push16(regs.f);
    }

    /** The request, from the registers or the packet. */
    method AskedNow() returns (r: Request)
      ensures r == Asked(regs, memory, base)
    {
      r := Request(regs.dx, regs.cx, regs.ds, regs.bx);
      if r.count == 0xffff {
        var packet := base(regs.ds) + regs.bx;
        var low := Read16(packet);
        var high := Read16(packet + 2);
        var count := Read16(packet + 4);
        var offset := Read16(packet + 6);
        var segment := Read16(packet + 8);
        r := Request(low as int + 0x1_0000 * high as int, count, segment, offset);
      }
    }

    method Read16(address: nat) returns (value: word)
      ensures value == WordAt(memory, address)
    {
      value := At(memory, address) as int + 0x100 * At(memory, address + 1) as int;
    }

    method ReadBytes(address: nat, length: nat) returns (data: bytes)
      ensures data == Gathered(memory, address, length)
    {
      data := [];
      for i := 0 to length
        invariant data == Gathered(memory, address, i)
      {
        data := data + [At(memory, address + i)];
      }
    }

    method WriteBytes(address: nat, data: bytes)
      modifies this`memory
      ensures memory == Scattered(old(memory), address, data)
    {
      for i := 0 to |data|
        invariant memory == Scattered(old(memory), address, data[..i])
      {
        assert data[..i + 1][..i] == data[..i];
        memory := memory[address + i := data[i]];
      }
      assert data[..|data|] == data;
    }

    method Push16(value: word)
      modifies this
      ensures regs == old(regs).(sp := Wrap16(old(regs.sp) - 2))
      ensures memory == Scattered(old(memory), StackTop(regs, base), Word(value))
    {
      regs := regs.(sp := Wrap16(regs.sp - 2));
      WriteBytes(StackTop(regs, base), Word(value));
    }
  }
}
