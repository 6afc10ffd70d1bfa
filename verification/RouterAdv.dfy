/** The ICMPv6 Router Advertisement builder (internal/dhcpd/routeradv.go) and a
    reader of what it builds, after sections 4.2 and 4.6 of RFC 4861 and section
    5.1 of RFC 8106. */
module RouterAdv {
  import opened Bytes
  import opened NetIp
  import opened Wrappers

  /** `prefix` is cut to its first 8 bytes, so it must have them. */
  datatype Params = Params(
    managed: bool,
    other: bool,
    prefix: seq<Byte>,
    prefixLen: int,
    linkLayer: seq<Byte>,
    dns: seq<Byte>,
    mtu: U32)

  predicate ValidMAC(a: seq<Byte>) {
    |a| == 6 || |a| == 8 || |a| == 20
  }

  function Zeros(n: nat): (r: seq<Byte>)
    ensures |r| == n
  {
    seq(n, _ => 0)
  }

  function Flags(managed: bool, other: bool): Byte {
    (if managed then 0x80 else 0) + (if other then 0x40 else 0)
  }

  /** The length octet of the link-layer option, in units of 8 bytes. */
  function LinkUnits(a: seq<Byte>): nat {
    (|a| + 2 + 7) / 8
  }

  /** As much of the DNS server address as there is room for, then zeros. */
  function DnsBytes(dns: seq<Byte>): (r: seq<Byte>)
    ensures |r| == 16
  {
    if |dns| >= 16 then dns[..16] else dns + Zeros(16 - |dns|)
  }

  ghost function Header(p: Params): (r: seq<Byte>)
    ensures |r| == 16
  {
    [134, 0, 0, 0, 64, Flags(p.managed, p.other)] + (BE16(1800) + BE32(0) + BE32(0))
  }

  ghost function PrefixOption(p: Params): (r: seq<Byte>)
    requires |p.prefix| >= 8
    ensures |r| == 32
  {
    [3, 4, p.prefixLen % 0x100, 0xc0] + (BE32(3600) + BE32(3600) + BE32(0)) + (p.prefix[..8] + BE32(0) + BE32(0))
  }

  ghost function MtuOption(p: Params): (r: seq<Byte>)
    ensures |r| == 8
  {
    [5, 1] + BE16(0) + BE32(p.mtu)
  }

  ghost function LinkOption(p: Params): (r: seq<Byte>)
    requires ValidMAC(p.linkLayer)
    ensures |r| == 8 * LinkUnits(p.linkLayer)
  {
    [1, LinkUnits(p.linkLayer)] + p.linkLayer + Zeros(8 * LinkUnits(p.linkLayer) - |p.linkLayer| - 2)
  }

  ghost function DnsOption(p: Params): (r: seq<Byte>)
    ensures |r| == 24
  {
    [25, 3] + BE16(0) + BE32(3600) + DnsBytes(p.dns)
  }

  /** The packet as the layout prescribes it. */
  ghost function Packet(p: Params): seq<Byte>
    requires |p.prefix| >= 8 && ValidMAC(p.linkLayer)
  {
    Header(p) + PrefixOption(p) + MtuOption(p) + LinkOption(p) + DnsOption(p)
  }

  /** Writes at the moving index and moves it. */
  method Write(data: array<Byte>, i: nat, bytes: seq<Byte>) returns (next: nat)
    requires i + |bytes| <= data.Length
    modifies data
    ensures next == i + |bytes| && data[..next] == old(data[..i]) + bytes
    ensures forall k :: next <= k < data.Length ==> data[k] == old(data[k])
  {
    Put(data, i, bytes);
    next := i + |bytes|;
    assert data[..next] == data[..i] + data[i..next];
    forall k | next <= k < data.Length ensures data[k] == old(data[k]) {
      assert data[k] == data[next..][k - next];
    }
  }

  method Write3(data: array<Byte>, i: nat, a: seq<Byte>, b: seq<Byte>, c: seq<Byte>) returns (next: nat)
    requires i + |a| + |b| + |c| <= data.Length
    modifies data
    ensures next == i + |a| + |b| + |c| && data[..next] == old(data[..i]) + (a + b + c)
    ensures forall k :: next <= k < data.Length ==> data[k] == old(data[k])
  {
    next := Write(data, i, a);
    next := Write(data, next, b);
    next := Write(data, next, c);
    assert data[..next] == old(data[..i]) + a + b + c == old(data[..i]) + (a + b + c);
  }

  ghost predicate ZeroFrom(data: array<Byte>, i: nat)
    reads data
  {
    forall k :: i <= k < data.Length ==> data[k] == 0
  }

  lemma ZeroSlice(data: array<Byte>, i: nat, j: nat)
    requires i <= j <= data.Length && ZeroFrom(data, i)
    ensures data[i..j] == Zeros(j - i)
  {
  }

  /** `createICMPv6RAPacket`: every write is in bounds and the last one ends at
      the end of the buffer. */
  method Create(p: Params) returns (r: Result<array<Byte>, ()>)
    requires |p.prefix| >= 8
    ensures r.Ok? <==> |p.linkLayer| in {6, 8, 20}
    ensures r.Ok? ==> r.value[..] == Packet(p)
  {
    if !ValidMAC(p.linkLayer) {
      return Err(());
    }
    hide Header;
    hide PrefixOption;
    hide LinkOption;
    hide DnsOption;
    hide BE16;
    hide BE32;
    var optLen := |p.linkLayer| + 2;
    var units := (optLen + 7) / 8;
    var padLen := units * 8 - optLen;
    var data := new Byte[80 + optLen + padLen](_ => 0);
    var i := WriteHeader(p, data);
    i := WritePrefix(p, data, i);
    i := Write3(data, i, [5, 1], BE16(0), BE32(p.mtu));
    i := WriteLink(p, data, i, units, padLen);
    i := WriteDns(p, data, i);
    assert data[..i] == data[..];
    return Ok(data);
  }

  method WriteHeader(p: Params, data: array<Byte>) returns (i: nat)
    requires data.Length >= 16
    modifies data
    ensures i == 16 && data[..16] == Header(p)
    ensures forall k :: 16 <= k < data.Length ==> data[k] == old(data[k])
  {
    hide BE16;
    hide BE32;
    assert data[..0] == [];
    i := Write(data, 0, [134, 0, 0, 0]);
    i := Write(data, i, [64]);
    data[i] := 0;
    if p.managed {
      data[i] := data[i] + 0x80;
    }
    if p.other {
      data[i] := data[i] + 0x40;
    }
    i := i + 1;
    assert data[..i] == [134, 0, 0, 0, 64, Flags(p.managed, p.other)];
    i := Write3(data, i, BE16(1800), BE32(0), BE32(0));
  }

  method WritePrefix(p: Params, data: array<Byte>, at: nat) returns (i: nat)
    requires |p.prefix| >= 8 && at + 32 <= data.Length
    modifies data
    ensures i == at + 32 && data[..i] == old(data[..at]) + PrefixOption(p)
    ensures forall k :: i <= k < data.Length ==> data[k] == old(data[k])
  {
    hide BE32;
    i := Write3(data, at, [3, 4], [p.prefixLen % 0x100], [0xc0]);
    assert [3, 4] + [p.prefixLen % 0x100] + [0xc0] == [3, 4, p.prefixLen % 0x100, 0xc0];
    i := Write3(data, i, BE32(3600), BE32(3600), BE32(0));
    i := Write3(data, i, p.prefix[..8], BE32(0), BE32(0));
    ConcatAssociates(old(data[..at]), [3, 4, p.prefixLen % 0x100, 0xc0], BE32(3600) + BE32(3600) + BE32(0),
                     p.prefix[..8] + BE32(0) + BE32(0));
  }

  lemma ConcatAssociates(a: seq<Byte>, b: seq<Byte>, c: seq<Byte>, d: seq<Byte>)
    ensures a + b + c + d == a + (b + c + d)
  {
  }

  /** The padding is what the buffer was made with. */
  method WriteLink(p: Params, data: array<Byte>, at: nat, units: nat, padLen: nat) returns (i: nat)
    requires ValidMAC(p.linkLayer) && units == LinkUnits(p.linkLayer) && padLen == 8 * units - |p.linkLayer| - 2
    requires at + 8 * units <= data.Length && ZeroFrom(data, at)
    modifies data
    ensures i == at + 8 * units && data[..i] == old(data[..at]) + LinkOption(p)
    ensures ZeroFrom(data, i)
  {
    ghost var before := data[..at];
    i := Write(data, at, [1, units]);
    i := Write(data, i, p.linkLayer);
    ZeroSlice(data, i, i + padLen);
    assert data[..i + padLen] == data[..i] + data[i..i + padLen];
    ConcatAssociates(before, [1, units], p.linkLayer, Zeros(padLen));
    i := i + padLen;
  }

  method WriteDns(p: Params, data: array<Byte>, at: nat) returns (i: nat)
    requires at + 24 == data.Length && ZeroFrom(data, at)
    modifies data
    ensures i == data.Length && data[..i] == old(data[..at]) + DnsOption(p)
  {
    hide BE16;
    hide BE32;
    ghost var before := data[..at];
    i := Write3(data, at, [25, 3], BE16(0), BE32(3600));
    var n := if |p.dns| < data.Length - i then |p.dns| else data.Length - i;
    var j := Write(data, i, p.dns[..n]);
    i := data.Length;
    ZeroSlice(data, j, i);
    assert data[..i] == data[..j] + data[j..i];
    assert p.dns[..n] + Zeros(16 - n) == DnsBytes(p.dns);
  }

  /** An option of a Neighbor Discovery message: type, and what follows the
      length octet. */
  datatype NdOption = NdOption(typ: Byte, body: seq<Byte>)

  /** Steps through options by their length octets, in units of 8 bytes, as
      section 4.6 of RFC 4861 prescribes; fails unless they tile the input. */
  function ReadOptions(b: seq<Byte>): Option<seq<NdOption>> {
    if b == [] then Some([])
    else if |b| < 2 || b[1] == 0 || 8 * b[1] as int > |b| then None
    else
      var rest := ReadOptions(b[8 * b[1] as int..]);
      if rest.None? then None else Some([NdOption(b[0], b[2..8 * b[1] as int])] + rest.value)
  }

  lemma ReadOne(o: seq<Byte>, rest: seq<Byte>)
    requires |o| >= 8 && o[1] != 0 && |o| == 8 * o[1] as int
    ensures ReadOptions(o + rest) == if ReadOptions(rest).None? then None
                                     else Some([NdOption(o[0], o[2..])] + ReadOptions(rest).value)
  {
  }

  /** What a reader takes from the four options. */
  datatype Advertised = Advertised(prefixLen: Byte, prefix: seq<Byte>, mtu: U32, linkLayer: seq<Byte>, dns: seq<Byte>)

  /** Reads the options of a Router Advertisement, knowing the link's address
      length; fails unless they are the expected four and tile the input. */
  function ReadAdvertisement(b: seq<Byte>, addrLen: nat): Option<Advertised> {
    var os := ReadOptions(b);
    if os.None? || |os.value| != 4 then None
    else
      var (o, m, l, d) := (os.value[0], os.value[1], os.value[2], os.value[3]);
      if o.typ != 3 || |o.body| != 30 || m.typ != 5 || |m.body| != 6 || l.typ != 1 || |l.body| < addrLen
         || d.typ != 25 || |d.body| != 22
      then None
      else Some(Advertised(o.body[0], o.body[14..30], Uint32(m.body[2..6]), l.body[..addrLen], d.body[6..]))
  }

  /** Reading back what was built gives the parameters: the flags, the prefix
      length and its first 64 bits, the MTU, the link-layer address and the DNS
      server, with the options tiling the packet to its last byte. */
  lemma PacketReads(p: Params)
    requires |p.prefix| >= 8 && ValidMAC(p.linkLayer)
    ensures var b := Packet(p);
            && |b| == 80 + 8 * LinkUnits(p.linkLayer)
            && b[0] == 134
            && (b[5] as int / 0x80 == 1 <==> p.managed) && (b[5] as int / 0x40 % 2 == 1 <==> p.other)
            && ReadAdvertisement(b[16..], |p.linkLayer|)
            == Some(Advertised(p.prefixLen % 0x100, p.prefix[..8] + Zeros(8), p.mtu, p.linkLayer, DnsBytes(p.dns)))
  {
    PrefixFields(p);
    OtherFields(p);
    PacketOptions(p);
    hide PrefixOption;
    hide MtuOption;
    hide LinkOption;
    hide DnsOption;
    hide ReadOptions;
    hide Uint32;
    assert Packet(p)[..16] == Header(p);
  }

  /** The packet byte by byte: what is fixed, and where each parameter stands.
      Here the header, the prefix and the MTU, which have fixed places. */
  lemma PacketHead(p: Params)
    requires |p.prefix| >= 8 && ValidMAC(p.linkLayer)
    ensures var b := Packet(p);
            && |b| >= 56
            // Type 134, hop limit 64, flags, lifetime 1800.
            && b[..5] == [134, 0, 0, 0, 64]
            && b[5] as int == (if p.managed then 128 else 0) + (if p.other then 64 else 0)
            && b[6..16] == [7, 8, 0, 0, 0, 0, 0, 0, 0, 0]
            // Prefix information: on-link and autonomous, both lifetimes 3600.
            && b[16..20] == [3, 4, p.prefixLen % 256, 0xc0]
            && b[20..32] == [0, 0, 0x0e, 0x10, 0, 0, 0x0e, 0x10, 0, 0, 0, 0]
            && b[32..40] == p.prefix[..8] && b[40..48] == [0, 0, 0, 0, 0, 0, 0, 0]
            // MTU.
            && b[48..52] == [5, 1, 0, 0]
            && b[52] as int * 0x100_0000 + b[53] as int * 0x1_0000 + b[54] as int * 0x100 + b[55] as int == p.mtu
  {
    var h, o, m := Header(p), PrefixOption(p), MtuOption(p);
    HeaderBytes(p);
    PrefixBytes(p);
    MtuBytes(p);
    hide Header;
    hide PrefixOption;
    hide MtuOption;
    hide LinkOption;
    hide DnsOption;
    var b := Packet(p);
    PartsAt(h, o, m, LinkOption(p), DnsOption(p));
    hide Packet;
    Within(b, 0, h, 0, 5);
    Within(b, 0, h, 6, 16);
    Within(b, 16, o, 0, 4);
    Within(b, 16, o, 4, 16);
    Within(b, 16, o, 16, 24);
    Within(b, 16, o, 24, 32);
    Within(b, 48, m, 0, 4);
  }

  /** And the two options whose place depends on the link-layer address: 8 bytes
      for each started unit, so 1 for 6 bytes of address, 2 for 8, 3 for 20. */
  lemma PacketTail(p: Params)
    requires |p.prefix| >= 8 && ValidMAC(p.linkLayer)
    ensures var b := Packet(p);
            var units := if |p.linkLayer| == 6 then 1 else if |p.linkLayer| == 8 then 2 else 3;
            && |b| == 80 + 8 * units
            // Source link-layer address, padded with zeros.
            && b[56..58] == [1, units] && b[58..58 + |p.linkLayer|] == p.linkLayer
            && (forall k :: 58 + |p.linkLayer| <= k < 56 + 8 * units ==> b[k] == 0)
            // Recursive DNS server, lifetime 3600, cut or padded to 16 bytes.
            && b[56 + 8 * units..64 + 8 * units] == [25, 3, 0, 0, 0, 0, 0x0e, 0x10]
            && (forall k :: 0 <= k < 16 ==> b[64 + 8 * units + k] == if k < |p.dns| then p.dns[k] else 0)
  {
    var l, d := LinkOption(p), DnsOption(p);
    LinkBytes(p);
    DnsOptionBytes(p);
    hide Header;
    hide PrefixOption;
    hide MtuOption;
    hide LinkOption;
    hide DnsOption;
    var b := Packet(p);
    PartsAt(Header(p), PrefixOption(p), MtuOption(p), l, d);
    hide Packet;
    Within(b, 56, l, 0, 2);
    Within(b, 56, l, 2, 2 + |p.linkLayer|);
    Within(b, 56 + |l|, d, 0, 8);
    forall k | 58 + |p.linkLayer| <= k < 56 + |l| ensures b[k] == 0 {
      assert b[56 + (k - 56)] == l[k - 56];
    }
    forall k | 0 <= k < 16 ensures b[64 + |l| + k] == if k < |p.dns| then p.dns[k] else 0 {
      assert b[56 + |l| + (8 + k)] == d[8 + k];
    }
  }

  lemma PartsAt(h: seq<Byte>, o: seq<Byte>, m: seq<Byte>, l: seq<Byte>, d: seq<Byte>)
    requires |h| == 16 && |o| == 32 && |m| == 8
    ensures var b := h + o + m + l + d;
            && |b| == 56 + |l| + |d|
            && PartAt(b, 0, h) && PartAt(b, 16, o) && PartAt(b, 48, m) && PartAt(b, 56, l) && PartAt(b, 56 + |l|, d)
  {
  }

  /** The part stands in b at the place i. */
  ghost predicate PartAt(b: seq<Byte>, i: nat, part: seq<Byte>) {
    i + |part| <= |b| && forall k :: 0 <= k < |part| ==> b[i + k] == part[k]
  }

  lemma Within(b: seq<Byte>, i: nat, part: seq<Byte>, j: nat, m: nat)
    requires PartAt(b, i, part) && j <= m <= |part|
    ensures b[i + j..i + m] == part[j..m]
  {
  }

  lemma HeaderBytes(p: Params)
    ensures var h := Header(p);
            && h[..5] == [134, 0, 0, 0, 64] && h[6..] == [7, 8, 0, 0, 0, 0, 0, 0, 0, 0]
            && h[5] as int == (if p.managed then 128 else 0) + (if p.other then 64 else 0)
  {
    BEExamples();
  }

  lemma PrefixBytes(p: Params)
    requires |p.prefix| >= 8
    ensures var o := PrefixOption(p);
            && o[..4] == [3, 4, p.prefixLen % 256, 0xc0]
            && o[4..16] == [0, 0, 0x0e, 0x10, 0, 0, 0x0e, 0x10, 0, 0, 0, 0]
            && o[16..24] == p.prefix[..8] && o[24..] == [0, 0, 0, 0, 0, 0, 0, 0]
  {
    BEExamples();
    hide BE32;
  }

  lemma MtuBytes(p: Params)
    ensures var m := MtuOption(p);
            && m[..4] == [5, 1, 0, 0]
            && m[4] as int * 0x100_0000 + m[5] as int * 0x1_0000 + m[6] as int * 0x100 + m[7] as int == p.mtu
  {
    BEExamples();
    hide BE32;
    BE32Digits(p.mtu);
  }

  lemma LinkBytes(p: Params)
    requires ValidMAC(p.linkLayer)
    ensures var (n, l) := (|p.linkLayer|, LinkOption(p));
            && |l| == (if n == 6 then 8 else if n == 8 then 16 else 24)
            && l[..2] == [1, if n == 6 then 1 else if n == 8 then 2 else 3] && l[2..2 + n] == p.linkLayer
            && forall k :: 2 + n <= k < |l| ==> l[k] == 0
  {
  }

  lemma DnsOptionBytes(p: Params)
    ensures var d := DnsOption(p);
            && d[..8] == [25, 3, 0, 0, 0, 0, 0x0e, 0x10]
            && forall k :: 0 <= k < 16 ==> d[8 + k] == if k < |p.dns| then p.dns[k] else 0
  {
    BEExamples();
    hide BE32;
  }

  lemma PacketOptions(p: Params)
    requires |p.prefix| >= 8 && ValidMAC(p.linkLayer)
    ensures |Packet(p)| == 80 + 8 * LinkUnits(p.linkLayer)
    ensures ReadOptions(Packet(p)[16..]) == Some([NdOption(3, PrefixOption(p)[2..]), NdOption(5, MtuOption(p)[2..]),
                                                  NdOption(1, LinkOption(p)[2..]), NdOption(25, DnsOption(p)[2..])])
  {
    PrefixFields(p);
    OtherFields(p);
    hide Header;
    hide PrefixOption;
    hide MtuOption;
    hide LinkOption;
    hide DnsOption;
    hide ReadOptions;
    hide Uint32;
    DropHead(Header(p), PrefixOption(p), MtuOption(p), LinkOption(p), DnsOption(p));
    ReadFour(PrefixOption(p), MtuOption(p), LinkOption(p), DnsOption(p));
  }

  lemma DropHead(h: seq<Byte>, o: seq<Byte>, m: seq<Byte>, l: seq<Byte>, d: seq<Byte>)
    ensures (h + o + m + l + d)[|h|..] == o + (m + (l + d))
  {
  }

  lemma ReadFour(o: seq<Byte>, m: seq<Byte>, l: seq<Byte>, d: seq<Byte>)
    requires |o| == 32 && o[1] == 4 && |m| == 8 && m[1] == 1 && |d| == 24 && d[1] == 3
    requires |l| >= 8 && l[1] != 0 && |l| == 8 * l[1] as int
    ensures ReadOptions(o + (m + (l + d)))
         == Some([NdOption(o[0], o[2..]), NdOption(m[0], m[2..]), NdOption(l[0], l[2..]), NdOption(d[0], d[2..])])
  {
    hide ReadOptions;
    ReadLast(d);
    ReadMore(l, d, [NdOption(d[0], d[2..])]);
    var ld, ls := l + d, [NdOption(l[0], l[2..]), NdOption(d[0], d[2..])];
    assert ls == [NdOption(l[0], l[2..])] + [NdOption(d[0], d[2..])];
    ReadMore(m, ld, ls);
    var mld, ms := m + ld, [NdOption(m[0], m[2..])] + ls;
    ReadMore(o, mld, ms);
    assert [NdOption(o[0], o[2..])] + ms
        == [NdOption(o[0], o[2..]), NdOption(m[0], m[2..]), NdOption(l[0], l[2..]), NdOption(d[0], d[2..])];
  }

  lemma ReadLast(o: seq<Byte>)
    requires |o| >= 8 && o[1] != 0 && |o| == 8 * o[1] as int
    ensures ReadOptions(o) == Some([NdOption(o[0], o[2..])])
  {
    var os := [NdOption(o[0], o[2..])];
    assert o + [] == o && os + [] == os;
    ReadOne(o, []);
  }

  lemma ReadMore(o: seq<Byte>, rest: seq<Byte>, os: seq<NdOption>)
    requires |o| >= 8 && o[1] != 0 && |o| == 8 * o[1] as int && ReadOptions(rest) == Some(os)
    ensures ReadOptions(o + rest) == Some([NdOption(o[0], o[2..])] + os)
  {
  }

  lemma PrefixFields(p: Params)
    requires |p.prefix| >= 8
    ensures var o := PrefixOption(p);
            o[0] == 3 && o[1] == 4 && o[2..][0] == p.prefixLen % 0x100 && o[2..][14..30] == p.prefix[..8] + Zeros(8)
  {
    hide BE32;
    var o := PrefixOption(p);
    assert o[16..] == p.prefix[..8] + BE32(0) + BE32(0);
    ZeroBytes();
    assert o[2..][14..30] == o[16..];
  }

  lemma ZeroBytes()
    ensures BE32(0) == Zeros(4) && Zeros(8) == Zeros(4) + Zeros(4)
  {
  }

  lemma OtherFields(p: Params)
    requires ValidMAC(p.linkLayer)
    ensures var m := MtuOption(p);
            m[0] == 5 && m[1] == 1 && Uint32(m[2..][2..6]) == p.mtu
    ensures var l := LinkOption(p);
            l[0] == 1 && l[1] == LinkUnits(p.linkLayer) && l[2..][..|p.linkLayer|] == p.linkLayer
    ensures var d := DnsOption(p);
            d[0] == 25 && d[1] == 3 && d[2..][6..] == DnsBytes(p.dns)
  {
    hide BE16;
    hide BE32;
    var m := MtuOption(p);
    assert m[4..] == BE32(p.mtu) && m[2..][2..6] == m[4..];
    Uint32OfBE32(p.mtu);
    assert LinkOption(p)[2..][..|p.linkLayer|] == p.linkLayer;
    assert DnsOption(p)[2..][6..] == DnsBytes(p.dns);
  }
}
