/** Bytes and the numbers files and memory hold in them. */
module Bytes {
  type byte = x: int | 0 <= x < 256
  type word = x: int | 0 <= x < 0x1_0000
  type dword = x: int | 0 <= x < 0x1_0000_0000
  type bytes = seq<byte>

  /** A read past the bytes, which the source raises as an error. */
  datatype ReadError = Overrun

  function Min(a: int, b: int): int {
    if a < b then a else b
  }

  /** The word at a place, low byte first. */
  function U16(b: bytes, at: nat): (r: word)
    requires at + 2 <= |b|
  {
    b[at] as int + 0x100 * b[at + 1] as int
  }

  /** The double word at a place, low byte first. */
  function U32(b: bytes, at: nat): (r: dword)
    requires at + 4 <= |b|
  {
    b[at] as int + 0x100 * b[at + 1] as int + 0x1_0000 * b[at + 2] as int + 0x100_0000 * b[at + 3] as int
  }

  function Word(value: word): (r: bytes)
    ensures |r| == 2 && U16(r, 0) == value
  {
    [value % 0x100, value / 0x100]
  }

  function DWord(value: dword): (r: bytes)
    ensures |r| == 4 && U32(r, 0) == value
  {
    Word(value % 0x1_0000) + Word(value / 0x1_0000)
  }

  /** A quotient and a remainder are those there are. */
  lemma Divided(n: nat, of: nat, q: nat, r: nat)
    requires r < of && n == q * of + r
    ensures n / of == q && n % of == r
  {
    var more := n / of - q;
    assert more * of == r - n % of;
    assert more >= 1 ==> more * of >= of;
    assert more <= -1 ==> more * of + of <= 0;
  }

  /** A word's two digits of eight bits, and a double word's four, are its bytes, the lowest first. */
  lemma LowFirst(b: bytes, at: nat)
    ensures at + 2 <= |b| ==> U16(b, at) % 0x100 == b[at] && U16(b, at) / 0x100 == b[at + 1]
    ensures at + 4 <= |b| ==>
      && U32(b, at) % 0x100 == b[at] && U32(b, at) / 0x100 % 0x100 == b[at + 1]
      && U32(b, at) / 0x1_0000 % 0x100 == b[at + 2] && U32(b, at) / 0x100_0000 == b[at + 3]
  {
    if at + 2 <= |b| {
      Divided(U16(b, at), 0x100, b[at + 1], b[at]);
    }
    if at + 4 <= |b| {
      FourDigits(b[at], b[at + 1], b[at + 2], b[at + 3]);
    }
  }

  lemma FourDigits(a: byte, b: byte, c: byte, d: byte)
    ensures var n := a as int + 0x100 * b as int + 0x1_0000 * c as int + 0x100_0000 * d as int;
      n % 0x100 == a && n / 0x100 % 0x100 == b && n / 0x1_0000 % 0x100 == c && n / 0x100_0000 == d
  {
    var n := a as int + 0x100 * b as int + 0x1_0000 * c as int + 0x100_0000 * d as int;
    var high := c as int + 0x100 * d as int;
    Divided(n, 0x100, b as int + 0x100 * high, a);
    Divided(b as int + 0x100 * high, 0x100, high, b);
    Divided(n, 0x1_0000, high, a as int + 0x100 * b as int);
    Divided(high, 0x100, d, c);
    Divided(n, 0x100_0000, d, a as int + 0x100 * b as int + 0x1_0000 * c as int);
  }

  /** A piece found at a place among other bytes. */
  predicate Holds(b: bytes, at: nat, piece: bytes) {
    at + |piece| <= |b| && b[at..at + |piece|] == piece
  }

  /** A piece found is its front found, and its rest found after it. */
  lemma HeldInTwo(b: bytes, at: nat, front: bytes, rest: bytes)
    requires Holds(b, at, front + rest)
    ensures Holds(b, at, front) && Holds(b, at + |front|, rest)
  {
    var piece := b[at..at + |front + rest|];
    assert piece == front + rest;
    assert b[at..at + |front|] == piece[..|front|];
    assert b[at + |front|..at + |front| + |rest|] == piece[|front|..];
  }

  lemma HeldWord(b: bytes, at: nat, piece: bytes, k: nat)
    requires Holds(b, at, piece) && k + 2 <= |piece|
    ensures U16(b, at + k) == U16(piece, k)
  {
  }

  lemma HeldDWord(b: bytes, at: nat, piece: bytes, k: nat)
    requires Holds(b, at, piece) && k + 4 <= |piece|
    ensures U32(b, at + k) == U32(piece, k)
  {
  }

  /** A sum or difference taken in sixteen bits, at most one carry or borrow out. */
  function Wrap16(x: int): (r: word)
    requires -0x1_0000 <= x < 0x2_0000
    ensures r == x % 0x1_0000
  {
    if x < 0 then x + 0x1_0000 else if x >= 0x1_0000 then x - 0x1_0000 else x
  }
}
