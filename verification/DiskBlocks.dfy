/**
 * A disk kept in blocks made as they are first met (src/emulator/disk.ts): what its
 * reads and writes of bytes come to, over one row of bytes that knows no blocks.
 */
module DiskBlocks {
  import opened Bytes

  const SECTOR := 512
  const BLOCK := 0x8000
  const SECTORS_A_BLOCK := 64
  /** A sector's number is masked in 32 bits. */
  const SECTORS := 0x1_0000_0000
  const CAPACITY := 0x200_0000_0000

  type Address = p: nat | p < CAPACITY

  /** Every byte of a disk, by its address. */
  type Contents = c: bytes | |c| == CAPACITY
    ghost witness seq(CAPACITY, _ => 0)

  /** Where a byte is, addresses going round. */
  function Place(at: nat): Address {
    at % CAPACITY
  }

  /** How far past a start an address is. */
  function Past(p: Address, start: nat): Address {
    (p - start) % CAPACITY
  }

  lemma PlacePast(p: Address, start: nat)
    ensures Place(start + Past(p, start)) == p
  {
  }

  lemma PastPlace(start: nat, k: Address)
    ensures Past(Place(start + k), start) == k
  {
  }

  /** A run of bytes put from an address on. */
  ghost function Overlaid(c: Contents, start: nat, data: bytes): (r: Contents)
    ensures forall p: Address {:trigger r[p]} :: r[p] == if Past(p, start) < |data| then data[Past(p, start)] else c[p]
  {
    seq(CAPACITY, p requires 0 <= p < CAPACITY => if Past(p, start) < |data| then data[Past(p, start)] else c[p])
  }

  /** A run of bytes from an address on. */
  ghost function Sliced(c: Contents, start: nat, length: nat): (r: bytes)
    ensures |r| == length
    ensures forall k {:trigger r[k]} :: 0 <= k < length ==> r[k] == c[Place(start + k)]
  {
    seq(length, k requires 0 <= k < length => c[Place(start + k)])
  }

  /** Short of the last address a run is just the bytes from its start on, and bytes put go there and nowhere else. */
  lemma NoFurtherRound(c: Contents, start: nat, length: nat, data: bytes, p: Address)
    requires start + length <= 0x200_0000_0000 && start + |data| <= 0x200_0000_0000
    ensures Sliced(c, start, length) == c[start..start + length]
    ensures Overlaid(c, start, data)[p] == if start <= p < start + |data| then data[p - start] else c[p]
  {
  }

  /** What is written is read back. */
  lemma ReadsWhatWasWritten(c: Contents, start: nat, data: bytes)
    requires |data| <= CAPACITY
    ensures Sliced(Overlaid(c, start, data), start, |data|) == data
  {
  }

  /** Bytes no write reaches stay as they were. */
  lemma OthersStay(c: Contents, start: nat, data: bytes, other: nat, length: nat)
    requires length <= CAPACITY
    requires forall p: Address :: Past(p, other) < length ==> Past(p, start) >= |data|
    ensures Sliced(Overlaid(c, start, data), other, length) == Sliced(c, other, length)
  {
  }

  /** Writing what is there changes nothing. */
  lemma RewritingIsNothing(c: Contents, start: nat, length: nat)
    ensures Overlaid(c, start, Sliced(c, start, length)) == c
  {
  }

  /** A sector's block, by its first sector's number. */
  function Key(sector: nat): (key: nat)
    ensures key % SECTORS_A_BLOCK == 0 && key < SECTORS
  {
    (sector - sector % SECTORS_A_BLOCK) % SECTORS
  }

  /** The bytes a piece of one block holds are a run of the disk's. */
  lemma PieceOfBlock(p: Address, at: nat, count: nat)
    requires at % BLOCK + count <= BLOCK
    ensures p / BLOCK * SECTORS_A_BLOCK == Key(at / SECTOR) && 0 <= p % BLOCK - at % BLOCK < count
       <==> Past(p, at) < count
    ensures Past(p, at) < count ==> p % BLOCK - at % BLOCK == Past(p, at)
  {
    hide Key, Past, Place;
    KeyIsOfTheBlock(at);
    PlacePast(p, at);
    if Past(p, at) < count {
      SameBlock(at, Past(p, at));
    }
    if p / BLOCK == at / BLOCK % 0x400_0000 && 0 <= p % BLOCK - at % BLOCK < count {
      var j := p % BLOCK - at % BLOCK;
      SameBlock(at, j);
      assert p == Place(at + j);
      PastPlace(at, j);
    }
  }

  lemma KeyIsOfTheBlock(at: nat)
    ensures Key(at / SECTOR) == at / BLOCK % 0x400_0000 * SECTORS_A_BLOCK
  {
    var q := at / BLOCK;
    assert at / SECTOR == q * SECTORS_A_BLOCK + at % BLOCK / SECTOR;
    Divided(at / SECTOR, SECTORS_A_BLOCK, q, at % BLOCK / SECTOR);
    assert q * SECTORS_A_BLOCK == q / 0x400_0000 * SECTORS + q % 0x400_0000 * SECTORS_A_BLOCK;
    Divided(q * SECTORS_A_BLOCK, SECTORS, q / 0x400_0000, q % 0x400_0000 * SECTORS_A_BLOCK);
  }

  lemma WithinBlock(at: nat)
    ensures at - at / SECTOR / SECTORS_A_BLOCK * BLOCK == at % BLOCK < BLOCK
  {
    assert at / SECTOR / SECTORS_A_BLOCK == at / BLOCK;
  }

  lemma SameBlock(at: nat, j: nat)
    requires at % BLOCK + j < BLOCK
    ensures Place(at + j) / BLOCK == at / BLOCK % 0x400_0000
    ensures Place(at + j) % BLOCK == at % BLOCK + j
  {
    var q := at / BLOCK;
    var offset := at % BLOCK + j;
    var address := q % 0x400_0000 * BLOCK + offset;
    assert at + j == q / 0x400_0000 * CAPACITY + address;
    Divided(at + j, CAPACITY, q / 0x400_0000, address);
    Divided(address, BLOCK, q % 0x400_0000, offset);
  }

  ghost predicate AreBlocks(blocks: map<nat, bytes>) {
    forall key <- blocks :: |blocks[key]| == BLOCK
  }

  /** A byte of a disk; a block never met holds noughts. */
  ghost function ByteAt(blocks: map<nat, bytes>, p: Address): byte
    requires AreBlocks(blocks)
  {
    var key := p / BLOCK * SECTORS_A_BLOCK;
    if key in blocks then blocks[key][p % BLOCK] else 0
  }

  ghost function Flat(blocks: map<nat, bytes>): (c: Contents)
    requires AreBlocks(blocks)
    ensures forall p: Address {:trigger c[p]} :: c[p] == ByteAt(blocks, p)
  {
    seq(CAPACITY, p requires 0 <= p < CAPACITY => ByteAt(blocks, p))
  }

  class Disk {
    var blocks: map<nat, bytes>

    constructor ()
      ensures Valid() && blocks == map[] && forall p: Address {:trigger Holding()[p]} :: Holding()[p] == 0
    {
      blocks := map[];
    }

    ghost predicate Valid()
      reads this
    {
      AreBlocks(blocks)
    }

    ghost function Holding(): Contents
      requires Valid()
      reads this
    {
      Flat(blocks)
    }

    /** The block a sector is in, made of noughts if it is not there. */
    method RetrieveBlock(sector: nat) returns (key: nat)
      requires Valid()
      modifies this
      ensures Valid() && Holding() == old(Holding())
      ensures key == Key(sector) && blocks.Keys == old(blocks.Keys) + {key}
    {
      key := Key(sector);
      if key !in blocks {
        blocks := blocks[key := seq(BLOCK, _ => 0)];
      }
      assert forall p: Address :: ByteAt(blocks, p) == ByteAt(old(blocks), p);
    }

    method Write(index: nat, offset: nat, data: bytes)
      requires Valid() && |data| <= CAPACITY
      modifies this
      ensures Valid() && Holding() == Overlaid(old(Holding()), index * SECTOR + offset, data)
    {
      hide Key, Past, Place, Overlaid, Flat;
      EmptyOverlaid(Holding(), index * SECTOR + offset);
      var position := 0;
      var at := index * SECTOR + offset;
      ghost var start := at;
      while position < |data|
        invariant 0 <= position <= |data| && at == start + position && Valid()
        invariant Holding() == Overlaid(old(Holding()), start, data[..position])
      {
        var sector := at / SECTOR;
        var key := RetrieveBlock(sector);
        WithinBlock(at);
        var within := at - sector / SECTORS_A_BLOCK * BLOCK;
        var count := if |data| - position <= BLOCK - within then |data| - position else BLOCK - within;
        PutPiece(key, at, within, data[position..position + count]);
        assert data[..position] + data[position..position + count] == data[..position + count];
        OverlaidInTwo(old(Holding()), start, data[..position], data[position..position + count]);
        position := position + count;
        at := at + count;
      }
      assert data[..position] == data;
    }

    /** A piece of one block written. */
    method PutPiece(key: nat, at: nat, within: nat, piece: bytes)
      requires Valid() && key in blocks && key == Key(at / SECTOR)
      requires within == at % BLOCK && within + |piece| <= BLOCK
      modifies this
      ensures Valid() && Holding() == Overlaid(old(Holding()), at, piece)
    {
      hide Key, Past, Place;
      var block := blocks[key];
      blocks := blocks[key := block[..within] + piece + block[within + |piece|..]];
      forall p: Address
        ensures ByteAt(blocks, p) == Overlaid(old(Holding()), at, piece)[p]
      {
        PieceOfBlock(p, at, |piece|);
      }
    }

    method Read(index: nat, offset: nat, length: nat) returns (r: bytes)
      requires Valid() && length <= CAPACITY
      modifies this
      ensures Valid() && Holding() == old(Holding())
      ensures r == Sliced(old(Holding()), index * SECTOR + offset, length)
    {
      hide Key, Past, Place;
      r := [];
      var position := 0;
      var at := index * SECTOR + offset;
      ghost var start := at;
      while position < length
        invariant 0 <= position <= length && at == start + position && Valid()
        invariant Holding() == old(Holding()) && r == Sliced(old(Holding()), start, position)
      {
        var sector := at / SECTOR;
        var key := RetrieveBlock(sector);
        WithinBlock(at);
        var within := at - sector / SECTORS_A_BLOCK * BLOCK;
        var count := if length - position <= BLOCK - within then length - position else BLOCK - within;
        var piece := blocks[key][within..within + count];
        PieceIsSliced(key, at, within, count);
        r := r + piece;
        position := position + count;
        at := at + count;
      }
    }

    lemma PieceIsSliced(key: nat, at: nat, within: nat, count: nat)
      requires Valid() && key in blocks && key == Key(at / SECTOR)
      requires within == at % BLOCK && within + count <= BLOCK
      ensures blocks[key][within..within + count] == Sliced(Holding(), at, count)
    {
      hide Key, Past, Place;
      var piece, of := blocks[key][within..within + count], Sliced(Holding(), at, count);
      forall k | 0 <= k < count
        ensures piece[k] == of[k]
      {
        SameBlock(at, k);
        KeyIsOfTheBlock(at);
      }
    }
  }

  lemma EmptyOverlaid(c: Contents, start: nat)
    ensures Overlaid(c, start, []) == c
  {
    hide Past;
  }

  /** Two runs written one after the other are the one run. */
  lemma OverlaidInTwo(c: Contents, start: nat, front: bytes, rest: bytes)
    requires |front| + |rest| <= CAPACITY
    ensures Overlaid(Overlaid(c, start, front), start + |front|, rest) == Overlaid(c, start, front + rest)
  {
  }

}
