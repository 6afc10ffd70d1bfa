/** Big-endian integers in byte sequences and buffers. */
module Bytes {
  import opened NetIp

  type U16 = x: int | 0 <= x < 0x1_0000

  function BE16(n: U16): (r: seq<Byte>)
    ensures |r| == 2
  {
    [n / 0x100, n % 0x100]
  }

  function BE32(n: U32): (r: seq<Byte>)
    ensures |r| == 4
  {
    [n / 0x100_0000, n / 0x1_0000 % 0x100, n / 0x100 % 0x100, n % 0x100]
  }

  function Uint16(b: seq<Byte>): U16
    requires |b| == 2
  {
    b[0] as int * 0x100 + b[1]
  }

  function Uint32(b: seq<Byte>): U32
    requires |b| == 4
  {
    b[0] as int * 0x100_0000 + b[1] as int * 0x1_0000 + b[2] as int * 0x100 + b[3]
  }

  /** The most significant byte comes first. */
  lemma BE16Digits(n: U16)
    ensures BE16(n)[0] as int * 0x100 + BE16(n)[1] as int == n
  {
  }

  lemma ByteQuotients(n: U32)
    ensures n / 0x100 / 0x100 == n / 0x1_0000 && n / 0x1_0000 / 0x100 == n / 0x100_0000
  {
  }

  lemma BE32Digits(n: U32)
    ensures var r := BE32(n);
            r[0] as int * 0x100_0000 + r[1] as int * 0x1_0000 + r[2] as int * 0x100 + r[3] as int == n
  {
    ByteQuotients(n);
  }

  /** Byte strings compare as the numbers they stand for: where they first
      differ, the larger number has the larger byte. */
  lemma BE32Order(a: U32, b: U32)
    requires a < b
    ensures exists i :: 0 <= i < 4 && BE32(a)[..i] == BE32(b)[..i] && BE32(a)[i] < BE32(b)[i]
  {
    hide BE32;
    BE32Digits(a);
    BE32Digits(b);
    var x, y := BE32(a), BE32(b);
    var i := if x[0] != y[0] then 0 else if x[1] != y[1] then 1 else if x[2] != y[2] then 2 else 3;
    assert x[..i] == y[..i] && x[i] < y[i];
  }

  lemma BEExamples()
    ensures BE32(1500) == [0, 0, 5, 0xdc] && BE32(1) == [0, 0, 0, 1] && BE32(3600) == [0, 0, 0x0e, 0x10]
    ensures BE16(5) == [0, 5] && BE16(24) == [0, 24] && BE16(1800) == [7, 8]
    ensures BE32(0) == [0, 0, 0, 0] && BE16(0) == [0, 0]
  {
  }

  lemma Uint16OfBE16(n: U16)
    ensures Uint16(BE16(n)) == n
  {
  }

  lemma BE16OfUint16(b: seq<Byte>)
    requires |b| == 2
    ensures BE16(Uint16(b)) == b
  {
  }

  lemma Uint32OfBE32(n: U32)
    ensures Uint32(BE32(n)) == n
  {
    BE32Digits(n);
  }

  lemma BE32OfUint32(b: seq<Byte>)
    requires |b| == 4
    ensures BE32(Uint32(b)) == b
  {
    var n := Uint32(b);
    assert n / 0x100 == b[0] as int * 0x1_0000 + b[1] as int * 0x100 + b[2];
    assert n / 0x1_0000 == b[0] as int * 0x100 + b[1];
    assert n / 0x100_0000 == b[0];
  }

  /** Overwrites the bytes from `at` on. */
  method Put(data: array<Byte>, at: nat, bytes: seq<Byte>)
    requires at + |bytes| <= data.Length
    modifies data
    ensures data[at..at + |bytes|] == bytes
    ensures data[..at] == old(data[..at]) && data[at + |bytes|..] == old(data[at + |bytes|..])
  {
    for i := 0 to |bytes|
      invariant data[at..at + i] == bytes[..i]
      invariant data[..at] == old(data[..at]) && data[at + i..] == old(data[at + i..])
    {
      data[at + i] := bytes[i];
      assert data[at..at + i + 1] == data[at..at + i] + [bytes[i]];
    }
  }
}
