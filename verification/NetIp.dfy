/** IP addresses, prefixes and hardware addresses, with the order that
    `netip.Addr.Compare` gives and the subnet order of
    internal/client/persistent.go. */
module NetIp {
  import opened Slices

  type Byte = x: int | 0 <= x < 0x100
  type U32 = x: int | 0 <= x < 0x1_0000_0000
  type U64 = x: int | 0 <= x < 0x1_0000_0000_0000_0000
  type U128 = x: int | 0 <= x < 0x1_0000_0000_0000_0000_0000_0000_0000_0000

  const TWO32: int := 0x1_0000_0000
  const TWO64: int := 0x1_0000_0000_0000_0000
  const TWO128: int := 0x1_0000_0000_0000_0000_0000_0000_0000_0000

  /** A hardware address that `macToKey` accepts.  Arrays of different lengths
      are different keys there, so the bytes themselves are the key. */
  type Mac = m: seq<Byte> | |m| in {6, 8, 20} witness [0, 0, 0, 0, 0, 0]

  /** `Invalid` is the zero `netip.Addr`. */
  datatype Addr = Invalid | V4(v4: U32) | V6(v6: U128, zone: string) {

    predicate Is4() {
      V4?
    }

    function BitLen(): nat {
      match this case Invalid => 0 case V4(_) => 32 case V6(_, _) => 128
    }

    function Value(): nat {
      match this case Invalid => 0 case V4(n) => n case V6(n, _) => n
    }

    function Zone(): string {
      if V6? then zone else ""
    }

    predicate IsUnspecified() {
      !Invalid? && Value() == 0 && Zone() == ""
    }

    function WithoutZone(): (r: Addr)
      ensures r.BitLen() == BitLen() && r.Value() == Value() && r.Zone() == ""
    {
      if V6? then V6(v6, "") else this
    }

    /** The following address, or `Invalid` after the family's last one.
        The zero address is never passed to it by the modelled code. */
    function Next(): Addr {
      match this
      case Invalid => Invalid
      case V4(n) => if n + 1 == TWO32 then Invalid else V4(n + 1)
      case V6(n, z) => if n + 1 == TWO128 then Invalid else V6(n + 1, z)
    }

    /** The 16-byte form: an IPv4 address is mapped into ::ffff:0:0/96. */
    function As16(): U128 {
      match this
      case Invalid => 0
      case V4(n) => 0xffff * TWO32 + n
      case V6(n, _) => n
    }

    predicate Less(other: Addr) {
      CompareAddr(this, other) < 0
    }
  }

  function Sign(a: int, b: int): int {
    if a < b then -1 else if a > b then 1 else 0
  }

  function CompareString(a: string, b: string): int {
    if a == [] && b == [] then 0
    else if a == [] then -1
    else if b == [] then 1
    else if a[0] != b[0] then Sign(a[0] as int, b[0] as int)
    else CompareString(a[1..], b[1..])
  }

  function CompareAddr(a: Addr, b: Addr): int {
    if a.BitLen() != b.BitLen() then Sign(a.BitLen(), b.BitLen())
    else if a.Value() != b.Value() then Sign(a.Value(), b.Value())
    else CompareString(a.Zone(), b.Zone())
  }

  lemma {:induction false} StringOrder(a: string, b: string, c: string)
    ensures CompareString(a, b) == 0 <==> a == b
    ensures CompareString(a, b) < 0 <==> CompareString(b, a) > 0
    ensures CompareString(a, b) < 0 && CompareString(b, c) < 0 ==> CompareString(a, c) < 0
    decreases |a| + |b| + |c|
  {
    if a != [] && b != [] && a[0] == b[0] {
      StringOrder(a[1..], b[1..], if c == [] then [] else c[1..]);
      assert a == [a[0]] + a[1..] && b == [b[0]] + b[1..];
    }
  }

  /** The strings agree up to place i, where a ends or has the smaller character. */
  ghost predicate LessAt(a: string, b: string, i: nat) {
    i <= |a| && i < |b| && a[..i] == b[..i] && (i < |a| ==> a[i] < b[i])
  }

  /** A negative result means that the first string comes first in a dictionary. */
  lemma {:induction false} StringLess(a: string, b: string)
    ensures CompareString(a, b) < 0 <==> exists i :: LessAt(a, b, i)
  {
    if a == [] || b == [] || a[0] != b[0] {
      assert a == [] && b != [] ==> LessAt(a, b, 0);
      assert a != [] && b != [] && a[0] < b[0] ==> LessAt(a, b, 0);
      forall i: nat | LessAt(a, b, i) ensures CompareString(a, b) < 0 {
        assert i > 0 ==> a[..i][0] == b[..i][0];
      }
    } else {
      StringLess(a[1..], b[1..]);
      forall i: nat | LessAt(a[1..], b[1..], i) ensures LessAt(a, b, i + 1) {
        assert a[..i + 1] == [a[0]] + a[1..][..i] && b[..i + 1] == [b[0]] + b[1..][..i];
      }
      forall i: nat | LessAt(a, b, i) ensures i > 0 && LessAt(a[1..], b[1..], i - 1) {
        assert i > 0 ==> a[1..][..i - 1] == a[..i][1..] && b[1..][..i - 1] == b[..i][1..];
      }
      assert CompareString(a, b) < 0 ==> exists i :: LessAt(a[1..], b[1..], i);
    }
  }

  /** IPv4 addresses come first; within a family the number decides, then the zone. */
  lemma AddrLess(a: Addr, b: Addr)
    ensures match (a, b)
            case (V4(m), V4(n)) => CompareAddr(a, b) < 0 <==> m < n
            case (V6(m, y), V6(n, z)) => CompareAddr(a, b) < 0 <==> m < n || (m == n && exists i :: LessAt(y, z, i))
            case _ => CompareAddr(a, b) < 0 <==> (a.Invalid? && !b.Invalid?) || (a.V4? && b.V6?)
  {
    if a.V6? && b.V6? {
      StringLess(a.zone, b.zone);
    }
  }

  lemma AddrOrder(a: Addr, b: Addr, c: Addr)
    ensures Antisymmetric(CompareAddr, a, b)
    ensures Transitive(CompareAddr, a, b, c)
  {
    StringOrder(a.Zone(), b.Zone(), c.Zone());
  }

  /** A prefix keeps the address it was written with: 1.2.3.4/24 and
      1.2.3.0/24 are different keys.  Prefixes have no zone. */
  datatype RawPrefix = RawPrefix(addr: Addr, bits: nat)

  type Prefix = p: RawPrefix | !p.addr.Invalid? && p.addr.Zone() == "" && p.bits <= p.addr.BitLen()
    witness RawPrefix(V4(0), 0)

  function Pow2(n: nat): (r: nat)
    ensures r > 0
  {
    if n == 0 then 1 else 2 * Pow2(n - 1)
  }

  /** The network part of an address: its bits above the host part. */
  function Network(a: Addr, bits: nat): int
    requires bits <= a.BitLen()
  {
    a.Value() / Pow2(a.BitLen() - bits)
  }

  predicate Contains(p: Prefix, ip: Addr) {
    && p.addr.BitLen() == ip.BitLen()
    && ip.Zone() == ""
    && Network(ip, p.bits) == Network(p.addr, p.bits)
  }

  lemma {:induction false} Pow2Sum(a: nat, b: nat)
    ensures Pow2(a + b) == Pow2(a) * Pow2(b)
  {
    if a > 0 {
      Pow2Sum(a - 1, b);
    }
  }

  lemma Pow2Byte(n: nat)
    ensures Pow2(n + 8) == 0x100 * Pow2(n)
  {
    assert Pow2(n + 4) == 0x10 * Pow2(n) by {
      assert Pow2(n + 2) == 4 * Pow2(n);
    }
    assert Pow2(n + 6) == 4 * Pow2(n + 4);
  }

  lemma Pow2Word(n: nat)
    ensures Pow2(n + 24) == 0x100_0000 * Pow2(n) && Pow2(n + 32) == TWO32 * Pow2(n)
  {
    Pow2Byte(n);
    Pow2Byte(n + 8);
    Pow2Byte(n + 16);
    Pow2Byte(n + 24);
  }

  lemma Pow2Values()
    ensures Pow2(8) == 0x100 && Pow2(24) == 0x100_0000 && Pow2(32) == TWO32 && Pow2(128) == TWO128
  {
    var n := 0;
    Pow2Byte(n);
    Pow2Word(n);
    Pow2Word(n + 32);
    Pow2Word(n + 64);
    Pow2Word(n + 96);
  }

  /** n is among the `size` numbers of the aligned block number k. */
  ghost predicate InBlock(size: nat, k: nat, n: nat) {
    k * size <= n < (k + 1) * size
  }

  /** Both numbers are in one aligned block. */
  ghost predicate SameBlock(size: nat, m: nat, n: nat) {
    exists k: nat :: InBlock(size, k, m) && InBlock(size, k, n)
  }

  lemma SameBlockQuotient(size: nat, m: nat, n: nat)
    requires size > 0
    ensures SameBlock(size, m, n) <==> m / size == n / size
  {
    hide InBlock;
    forall k: nat ensures (InBlock(size, k, m) <==> m / size == k) && (InBlock(size, k, n) <==> n / size == k) {
      BlockOf(size, k, m);
      BlockOf(size, k, n);
    }
    assert InBlock(size, m / size, m);
  }

  lemma BlockOf(size: nat, k: nat, n: nat)
    requires size > 0
    ensures InBlock(size, k, n) <==> n / size == k
  {
    var q, r := n / size, n % size;
    assert n == q * size + r;
    if q < k {
      assert (q + 1) * size <= k * size;
    } else if q > k {
      assert (k + 1) * size <= q * size;
    }
  }

  /** A prefix holds the addresses of its family, without a zone, that lie in
      one aligned block of 2^(length - bits) addresses with its own. */
  lemma ContainsBlock(p: Prefix, ip: Addr)
    ensures match (p.addr, ip)
            case (V4(a), V4(n)) =>
              Contains(p, ip) <==> SameBlock(Pow2(32 - p.bits), a, n)
            case (V6(a, _), V6(n, zone)) =>
              Contains(p, ip) <==> zone == "" && SameBlock(Pow2(128 - p.bits), a, n)
            case _ => !Contains(p, ip)
  {
    hide SameBlock;
    if p.addr.BitLen() == ip.BitLen() {
      SameBlockQuotient(Pow2(ip.BitLen() - p.bits), p.addr.Value(), ip.Value());
    }
  }

  /** A prefix of full length holds its own address only. */
  lemma FullPrefix(p: Prefix, ip: Addr)
    requires p.bits == p.addr.BitLen()
    ensures Contains(p, ip) <==> ip == p.addr
  {
  }

  /** A prefix of no bits holds its whole family. */
  lemma EmptyPrefix(p: Prefix, ip: Addr)
    requires p.bits == 0
    ensures Contains(p, ip) <==> (p.addr.V4? && ip.V4?) || (p.addr.V6? && ip.V6? && ip.zone == "")
  {
    Pow2Values();
  }

  lemma Rotate(k: int, b: int, c: int)
    ensures k * c * b == k * (b * c)
  {
  }

  lemma MulMono(a: int, b: int, c: nat)
    requires a <= b
    ensures a * c <= b * c
  {
  }

  lemma DivDiv(x: nat, b: nat, c: nat)
    requires b > 0 && c > 0
    ensures b * c > 0 && x / (b * c) == x / b / c
  {
    var q, k := x / b, x / b / c;
    BlockOf(b, q, x);
    BlockOf(c, k, q);
    MulMono(k * c, q, b);
    MulMono(q + 1, (k + 1) * c, b);
    Rotate(k, b, c);
    Rotate(k + 1, b, c);
    assert b * c > 0 by {
      MulMono(1, b, c);
    }
    BlockOf(b * c, k, x);
  }

  /** Of two prefixes that share an address the longer lies within the shorter. */
  lemma NestedPrefixes(p: Prefix, q: Prefix, ip: Addr)
    requires Contains(p, ip) && Contains(q, ip) && p.bits <= q.bits
    ensures forall x :: Contains(q, x) ==> Contains(p, x)
  {
    var n := ip.BitLen();
    Pow2Sum(n - q.bits, q.bits - p.bits);
    forall x | Contains(q, x) ensures Contains(p, x) {
      DivDiv(x.Value(), Pow2(n - q.bits), Pow2(q.bits - p.bits));
      DivDiv(ip.Value(), Pow2(n - q.bits), Pow2(q.bits - p.bits));
    }
  }

  /** 10.1.2.3 is in 10.0.0.0/8, and 192.5.5.5 is not in 192.168.1.0/24. */
  lemma ContainsExamples()
    ensures Contains(RawPrefix(V4(0x0a00_0000), 8), V4(0x0a01_0203))
    ensures !Contains(RawPrefix(V4(0xc0a8_0100), 24), V4(0xc005_0505))
  {
    Pow2Values();
  }

  /** Longer prefixes first, equal lengths by address. */
  function CompareSubnet(x: Prefix, y: Prefix): int {
    if x == y then 0
    else if x.bits == y.bits then CompareAddr(x.addr, y.addr)
    else if x.bits > y.bits then -1
    else 1
  }

  /** The subnet order is a strict total order that is 0 on equal prefixes only. */
  lemma SubnetOrder()
    ensures TotalOrder(CompareSubnet)
  {
    forall x: Prefix, y: Prefix ensures Antisymmetric(CompareSubnet, x, y) {
      AddrOrder(x.addr, y.addr, x.addr);
    }
    forall x: Prefix, y: Prefix, z: Prefix ensures Transitive(CompareSubnet, x, y, z) {
      AddrOrder(x.addr, y.addr, z.addr);
      AddrOrder(x.addr, z.addr, x.addr);
    }
  }
}
