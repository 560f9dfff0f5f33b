/**
 Binary files: numbers of 32 bits in either byte order, and a file that is
 written at a position (include/stream.h).
*/
module PackageBytes {

  import opened Common

  type bytes = seq<byte>

  const LIMIT32 := 0x1_0000_0000

  datatype Endian = Little | Big
  {
    function Other(): Endian { if this == Little then Big else Little }
  }

  /** The number with those digits to the base 256, the lowest first. */
  function Join(a: int, b: int, c: int, d: int): int {
    a + 0x100 * (b + 0x100 * (c + 0x100 * d))
  }

  /** The digits of a number to the base 256, the lowest first. */
  function Digits(u: nat): (r: bytes)
    requires u < LIMIT32
    ensures |r| == 4
  {
    var high := u / 0x100;
    var higher := high / 0x100;
    [u % 0x100, high % 0x100, higher % 0x100, higher / 0x100]
  }

  lemma DigitsOfJoin(a: byte, b: byte, c: byte, d: byte)
    ensures 0 <= Join(a, b, c, d) < LIMIT32 && Digits(Join(a, b, c, d)) == [a, b, c, d]
  {
    var u := Join(a, b, c, d);
    var high: int := b + 0x100 * (c + 0x100 * d);
    var higher: int := c + 0x100 * d;
    assert u == a + 0x100 * high && high == b + 0x100 * higher;
    assert u % 0x100 == a && u / 0x100 == high;
    assert high % 0x100 == b && high / 0x100 == higher;
  }

  lemma JoinOfDigits(u: nat)
    requires u < LIMIT32
    ensures var d := Digits(u); Join(d[0], d[1], d[2], d[3]) == u
  {
  }

  function Reversed(b: bytes): bytes
    requires |b| == 4
  {
    [b[3], b[2], b[1], b[0]]
  }

  /** The four bytes of a number, as they lie in the memory or file of the given order. */
  function Word32(u: nat, e: Endian): (r: bytes)
    requires u < LIMIT32
    ensures |r| == 4
  {
    if e == Little then Digits(u) else Reversed(Digits(u))
  }

  /** The byte order of the stream: lowest byte first, or highest byte first. */
  lemma BytesOfWord(u: nat)
    requires u < LIMIT32
    ensures var l, b := Word32(u, Little), Word32(u, Big);
      && u == l[0] as int + 0x100 * l[1] as int + 0x1_0000 * l[2] as int + 0x100_0000 * l[3] as int
      && forall i :: 0 <= i < 4 ==> b[i] == l[3 - i]
  {
    JoinOfDigits(u);
  }

  function Value32(b: bytes, e: Endian): (r: int)
    requires |b| == 4
    ensures r >= 0
  {
    if e == Little then Join(b[0], b[1], b[2], b[3]) else Join(b[3], b[2], b[1], b[0])
  }

  lemma ValueOfWord(u: nat, e: Endian)
    requires u < LIMIT32
    ensures Value32(Word32(u, e), e) == u
  {
    hide Digits, Join;
    JoinOfDigits(u);
  }

  /** What save32 puts into the file. */
  function Saved32(u: nat, e: Endian): (r: bytes)
    ensures |r| == 4
  {
    Word32(u % LIMIT32, e)
  }

  /** A 32-bit field read from a file by a machine with that byte order. */
  function Get32(data: bytes, offset: nat, e: Endian): (r: int)
    requires offset + 4 <= |data|
    ensures r >= 0
  {
    Value32(data[offset..offset + 4], e)
  }

  /** The file has these bytes at this place. */
  predicate At(data: bytes, offset: nat, part: bytes) {
    offset + |part| <= |data| && forall i :: 0 <= i < |part| ==> data[offset + i] == part[i]
  }

  lemma AtSlice(data: bytes, offset: nat, part: bytes, i: nat, k: nat)
    requires At(data, offset, part) && i <= k <= |part|
    ensures At(data, offset + i, part[i..k])
  {
    forall j | 0 <= j < k - i ensures data[offset + i + j] == part[i..k][j] {
      assert part[i..k][j] == part[i + j];
    }
  }

  lemma AtParts(data: bytes, offset: nat, a: bytes, b: bytes)
    requires At(data, offset, a + b)
    ensures At(data, offset, a) && At(data, offset + |a|, b)
  {
    forall i | 0 <= i < |a| ensures data[offset + i] == a[i] { assert (a + b)[i] == a[i]; }
    forall i | 0 <= i < |b| ensures data[offset + |a| + i] == b[i] { assert (a + b)[|a| + i] == b[i]; }
  }

  lemma AtWithin(data: bytes, offset: nat, part: bytes, inner: nat, b: bytes)
    requires At(data, offset, part) && At(part, inner, b)
    ensures At(data, offset + inner, b)
  {
    forall i | 0 <= i < |b| ensures data[offset + inner + i] == b[i] { assert part[inner + i] == b[i]; }
  }

  lemma GetSaved(data: bytes, offset: nat, u: nat, e: Endian)
    requires At(data, offset, Saved32(u, e)) && u < LIMIT32
    ensures Get32(data, offset, e) == u
  {
    hide Word32, Value32;
    assert u % LIMIT32 == u;
    ValueOfWord(u, e);
    assert data[offset..offset + 4] == Word32(u, e) by {
      assert forall i :: 0 <= i < 4 ==> data[offset..offset + 4][i] == Word32(u, e)[i];
    }
  }

  /** _switch_uint32: each byte goes to the opposite place. */
  function Switch32(u: nat): int
    requires u < LIMIT32
  {
    var d := Digits(u);
    Join(d[3], d[2], d[1], d[0])
  }

  lemma SwitchTurnsBytes(u: nat, e: Endian)
    requires u < LIMIT32
    ensures 0 <= Switch32(u) < LIMIT32
    ensures Word32(Switch32(u), e) == Word32(u, e.Other())
  {
    hide Digits, Join;
    var d := Digits(u);
    DigitsOfJoin(d[3], d[2], d[1], d[0]);
  }

  function Zeros(n: nat): (r: bytes)
    ensures |r| == n && forall i :: 0 <= i < n ==> r[i] == 0
  {
    seq(n, _ => 0)
  }

  /** The content of a file after bytes were written at a position in it. */
  function Put(data: bytes, pos: nat, b: bytes): bytes
    requires pos <= |data|
  {
    data[..pos] + b + if pos + |b| <= |data| then data[pos + |b|..] else []
  }

  class FileStorage {
    var data: bytes
    var pos: nat

    predicate Valid()
      reads this
    {
      pos <= |data|
    }

    constructor ()
      ensures Valid() && data == [] && pos == 0
    {
      data, pos := [], 0;
    }

    method Write(b: bytes)
      requires Valid()
      modifies this
      ensures Valid() && data == Put(old(data), old(pos), b) && pos == old(pos) + |b|
    {
      var rest := if pos + |b| <= |data| then data[pos + |b|..] else [];
      data := data[..pos] + b + rest;
      pos := pos + |b|;
    }

    method SeekBegin(offset: nat)
      requires offset <= |data|
      modifies this`pos
      ensures Valid() && pos == offset
    {
      pos := offset;
    }

    method SeekEnd()
      modifies this`pos
      ensures Valid() && pos == |data|
    {
      pos := |data|;
    }
  }

  class BinStream {
    const storage: FileStorage
    const endian: Endian
    const host: Endian

    constructor (storage: FileStorage, endian: Endian, host: Endian)
      ensures this.storage == storage && this.endian == endian && this.host == host
    {
      this.storage, this.endian, this.host := storage, endian, host;
    }

    /** The number goes to the file in the byte order of the stream, whatever that of the machine is. */
    method Save32(u: nat)
      requires storage.Valid()
      modifies storage
      ensures storage.Valid() && storage.pos == old(storage.pos) + 4
      ensures storage.data == Put(old(storage.data), old(storage.pos), Saved32(u, endian))
    {
      var u32 := u % LIMIT32;
      if endian != host {
        SwitchTurnsBytes(u32, host);
        u32 := Switch32(u32);
      }
      storage.Write(Word32(u32, host));
    }

    method Save8Arr(b: bytes)
      requires storage.Valid()
      modifies storage
      ensures storage.Valid() && storage.pos == old(storage.pos) + |b|
      ensures storage.data == Put(old(storage.data), old(storage.pos), b)
    {
      storage.Write(b);
    }
  }
}
