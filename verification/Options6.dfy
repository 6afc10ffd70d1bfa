/** The IA_NA option of DHCPv6 and the IA Address options inside it
    (internal/dhcpsvc/options6.go; sections 21.4 and 21.6 of RFC 9915). */
module Options6 {
  import opened Bytes
  import opened NetIp
  import opened Wrappers

  /** The code of an IA Address option. */
  const IA_ADDR: U16 := 5

  const IA_NA_MIN_LEN := 12
  const IA_ADDR_DATA_LEN := 24

  /** The 16 bytes of an IPv6 address. */
  type In6 = b: seq<Byte> | |b| == 16 witness seq(16, _ => 0)

  /** Lifetimes are in whole seconds. */
  datatype IaAddr = IaAddr(addr: In6, preferred: U32, valid: U32)

  datatype IaNa = IaNa(nested: seq<IaAddr>, iaid: U32, t1: U32, t2: U32)

  datatype Error = TooShort | NestedTooLong(index: nat) | NestedAddr(index: nat)

  /** `iaAddrOption.appendTo`: code, length and 24 bytes of data. */
  function EncodeAddr(a: IaAddr): (r: seq<Byte>)
    ensures |r| == 4 + IA_ADDR_DATA_LEN
  {
    BE16(IA_ADDR) + BE16(IA_ADDR_DATA_LEN) + a.addr + BE32(a.preferred) + BE32(a.valid)
  }

  ghost function EncodeAddrs(nested: seq<IaAddr>): seq<Byte> {
    if nested == [] then [] else EncodeAddr(nested[0]) + EncodeAddrs(nested[1..])
  }

  ghost function Encoded(o: IaNa): seq<Byte> {
    BE32(o.iaid) + BE32(o.t1) + BE32(o.t2) + EncodeAddrs(o.nested)
  }

  /** The header's three numbers, most significant byte first, then 28 bytes for
      each address. */
  lemma {:induction false} EncodedHeader(o: IaNa)
    ensures var d := Encoded(o);
            && |d| == 12 + 28 * |o.nested|
            && d[0] as int * 0x100_0000 + d[1] as int * 0x1_0000 + d[2] as int * 0x100 + d[3] as int == o.iaid
            && d[4] as int * 0x100_0000 + d[5] as int * 0x1_0000 + d[6] as int * 0x100 + d[7] as int == o.t1
            && d[8] as int * 0x100_0000 + d[9] as int * 0x1_0000 + d[10] as int * 0x100 + d[11] as int == o.t2
  {
    hide BE32;
    BE32Digits(o.iaid);
    BE32Digits(o.t1);
    BE32Digits(o.t2);
    EncodedAddrsLen(o.nested);
  }

  lemma {:induction false} EncodedAddrsLen(nested: seq<IaAddr>)
    ensures |EncodeAddrs(nested)| == 28 * |nested|
  {
    if nested != [] {
      EncodedAddrsLen(nested[1..]);
    }
  }

  /** The address number k stands behind those before it. */
  lemma {:induction false} EncodedAddrAt(nested: seq<IaAddr>, k: nat)
    requires k < |nested|
    ensures |EncodeAddrs(nested)| == 28 * |nested| && EncodeAddrs(nested)[28 * k..28 * (k + 1)] == EncodeAddr(nested[k])
  {
    hide EncodeAddr;
    EncodedAddrsLen(nested);
    if k > 0 {
      EncodedAddrAt(nested[1..], k - 1);
      assert EncodeAddrs(nested)[28..] == EncodeAddrs(nested[1..]);
      assert EncodeAddrs(nested)[28 * k..28 * (k + 1)] == EncodeAddrs(nested)[28..][28 * (k - 1)..28 * k];
    }
  }

  /** Option code 5, length 24, the 16 bytes of the address and the two lifetimes. */
  lemma EncodedAddrBytes(a: IaAddr)
    ensures var d := EncodeAddr(a);
            && d[..4] == [0, 5, 0, 24] && d[4..20] == a.addr
            && d[20] as int * 0x100_0000 + d[21] as int * 0x1_0000 + d[22] as int * 0x100 + d[23] as int == a.preferred
            && d[24] as int * 0x100_0000 + d[25] as int * 0x1_0000 + d[26] as int * 0x100 + d[27] as int == a.valid
  {
    BEExamples();
    hide BE16;
    hide BE32;
    BE32Digits(a.preferred);
    BE32Digits(a.valid);
    var d := EncodeAddr(a);
    assert d[..4] == BE16(5) + BE16(24);
    assert d[20..24] == BE32(a.preferred) && d[24..28] == BE32(a.valid);
  }

  method Encode(o: IaNa) returns (data: seq<Byte>)
    ensures data == Encoded(o)
  {
    data := BE32(o.iaid) + BE32(o.t1) + BE32(o.t2);
    for i := 0 to |o.nested|
      invariant data + EncodeAddrs(o.nested[i..]) == Encoded(o)
    {
      data := data + EncodeAddr(o.nested[i]);
    }
  }

  /** `iaAddrOption.UnmarshalBinary`: options nested deeper are ignored. */
  function DecodeAddr(data: seq<Byte>): Option<IaAddr> {
    if |data| < IA_ADDR_DATA_LEN then None
    else Some(IaAddr(data[..16], Uint32(data[16..20]), Uint32(data[20..24])))
  }

  lemma DecodedAddrReads(d: seq<Byte>)
    ensures DecodeAddr(d).Some? <==> |d| >= 24
    ensures DecodeAddr(d).Some? ==>
              && DecodeAddr(d).value.addr == d[..16]
              && DecodeAddr(d).value.preferred
              == d[16] as int * 0x100_0000 + d[17] as int * 0x1_0000 + d[18] as int * 0x100 + d[19] as int
              && DecodeAddr(d).value.valid
              == d[20] as int * 0x100_0000 + d[21] as int * 0x1_0000 + d[22] as int * 0x100 + d[23] as int
  {
  }

  /** A nested option as it stands on the wire. */
  datatype Tlv = Tlv(code: U16, data: seq<Byte>)

  ghost function EncodeTlv(t: Tlv): seq<Byte>
    requires |t.data| < 0x1_0000
  {
    BE16(t.code) + BE16(|t.data|) + t.data
  }

  ghost predicate ShortTlvs(ts: seq<Tlv>) {
    forall t :: t in ts ==> |t.data| < 0x1_0000
  }

  ghost function EncodeTlvs(ts: seq<Tlv>): seq<Byte>
    requires ShortTlvs(ts)
  {
    if ts == [] then [] else EncodeTlv(ts[0]) + EncodeTlvs(ts[1..])
  }

  /** The addresses among the nested options, in order; none if one is cut short. */
  ghost function Addresses(ts: seq<Tlv>): Option<seq<IaAddr>> {
    if ts == [] then Some([])
    else if ts[0].code != IA_ADDR then Addresses(ts[1..])
    else if DecodeAddr(ts[0].data).None? || Addresses(ts[1..]).None? then None
    else Some([DecodeAddr(ts[0].data).value] + Addresses(ts[1..]).value)
  }

  /** What decoding nested options from the option number i on comes to. */
  ghost function DecodeNested(nested: seq<Byte>, i: nat): Result<seq<IaAddr>, Error>
    decreases |nested|
  {
    if |nested| < 4 then Ok([])
    else
      var code, l := Uint16(nested[..2]), Uint16(nested[2..4]);
      if l > |nested| - 4 then Err(NestedTooLong(i))
      else if code == IA_ADDR && DecodeAddr(nested[4..4 + l]).None? then Err(NestedAddr(i))
      else
        var rest := DecodeNested(nested[4 + l..], i + 1);
        if code != IA_ADDR || rest.Err? then rest
        else Ok([DecodeAddr(nested[4..4 + l]).value] + rest.value)
  }

  ghost function Decoded(data: seq<Byte>): Result<IaNa, Error> {
    if |data| < IA_NA_MIN_LEN then Err(TooShort)
    else
      var nested := DecodeNested(data[IA_NA_MIN_LEN..], 0);
      if nested.Err? then Err(nested.error)
      else Ok(IaNa(nested.value, Uint32(data[0..4]), Uint32(data[4..8]), Uint32(data[8..12])))
  }

  /** `iaNAOption.UnmarshalBinary` on a new receiver.  Each pass takes at least
      four bytes; up to three bytes at the end are ignored. */
  method UnmarshalBinary(data: seq<Byte>) returns (r: Result<IaNa, Error>)
    ensures r == Decoded(data)
  {
    if |data| < IA_NA_MIN_LEN {
      return Err(TooShort);
    }
    var addrs: seq<IaAddr> := [];
    var nested, i := data[IA_NA_MIN_LEN..], 0;
    ghost var whole := DecodeNested(nested, 0);
    assert whole.Ok? ==> addrs + whole.value == whole.value;
    while |nested| >= 4
      invariant var rest := DecodeNested(nested, i);
                whole == if rest.Err? then rest else Ok(addrs + rest.value)
      decreases |nested|
    {
      var code, l := Uint16(nested[..2]), Uint16(nested[2..4]);
      if l > |nested| - 4 {
        return Err(NestedTooLong(i));
      }
      if code == IA_ADDR {
        var addr := DecodeAddr(nested[4..4 + l]);
        if addr.None? {
          return Err(NestedAddr(i));
        }
        ghost var rest := DecodeNested(nested[4 + l..], i + 1);
        assert rest.Ok? ==> addrs + ([addr.value] + rest.value) == addrs + [addr.value] + rest.value;
        addrs := addrs + [addr.value];
      }
      nested := nested[4 + l..];
      i := i + 1;
    }
    assert addrs + [] == addrs;
    return Ok(IaNa(addrs, Uint32(data[0..4]), Uint32(data[4..8]), Uint32(data[8..12])));
  }

  lemma DecodeAfterEncodeAddr(a: IaAddr)
    ensures DecodeAddr(EncodeAddr(a)[4..]) == Some(a)
    ensures EncodeAddr(a) == EncodeTlv(Tlv(IA_ADDR, EncodeAddr(a)[4..]))
  {
    hide BE32;
    hide BE16;
    hide Uint32;
    var d := EncodeAddr(a)[4..];
    assert d == a.addr + BE32(a.preferred) + BE32(a.valid);
    assert d[..16] == a.addr && d[16..20] == BE32(a.preferred) && d[20..24] == BE32(a.valid);
    Uint32OfBE32(a.preferred);
    Uint32OfBE32(a.valid);
  }

  /** Decoding sees the nested options as they were written: it keeps the
      addresses in order and passes over everything else. */
  lemma {:induction false} DecodeTlvs(ts: seq<Tlv>, junk: seq<Byte>, i: nat)
    requires ShortTlvs(ts) && |junk| < 4
    ensures Addresses(ts).Some? ==> DecodeNested(EncodeTlvs(ts) + junk, i) == Ok(Addresses(ts).value)
    ensures Addresses(ts).None? ==> DecodeNested(EncodeTlvs(ts) + junk, i).Err?
  {
    hide DecodeAddr;
    hide EncodeTlv;
    hide Uint16;
    if ts == [] {
      assert EncodeTlvs(ts) + junk == junk;
    } else {
      assert forall u :: u in ts[1..] ==> u in ts;
      var rest := EncodeTlvs(ts[1..]) + junk;
      assert EncodeTlvs(ts) + junk == EncodeTlv(ts[0]) + rest;
      FirstTlv(ts[0], rest);
      DecodeTlvs(ts[1..], junk, i + 1);
    }
  }

  lemma FirstTlv(t: Tlv, rest: seq<Byte>)
    requires |t.data| < 0x1_0000
    ensures var b := EncodeTlv(t) + rest;
            && |b| == 4 + |t.data| + |rest|
            && Uint16(b[..2]) == t.code && Uint16(b[2..4]) == |t.data|
            && b[4..4 + |t.data|] == t.data && b[4 + |t.data|..] == rest
  {
    hide BE16;
    hide Uint16;
    var b := EncodeTlv(t) + rest;
    assert b[..2] == BE16(t.code) && b[2..4] == BE16(|t.data|);
    Uint16OfBE16(t.code);
    Uint16OfBE16(|t.data|);
  }

  /** What follows complete nested options is decoded as if they were not there;
      an error in it counts them. */
  lemma {:induction false} DecodeRest(ts: seq<Tlv>, rest: seq<Byte>, i: nat)
    requires ShortTlvs(ts) && Addresses(ts).Some?
    ensures var r := DecodeNested(rest, i + |ts|);
            DecodeNested(EncodeTlvs(ts) + rest, i) == if r.Err? then r else Ok(Addresses(ts).value + r.value)
  {
    hide DecodeAddr;
    hide EncodeTlv;
    hide Uint16;
    if ts == [] {
      assert EncodeTlvs(ts) + rest == rest;
      assert DecodeNested(rest, i).Ok? ==> [] + DecodeNested(rest, i).value == DecodeNested(rest, i).value;
    } else {
      assert forall u :: u in ts[1..] ==> u in ts;
      var tail := EncodeTlvs(ts[1..]) + rest;
      assert EncodeTlvs(ts) + rest == EncodeTlv(ts[0]) + tail;
      FirstTlv(ts[0], tail);
      DecodeRest(ts[1..], rest, i + 1);
      assert i + 1 + |ts[1..]| == i + |ts|;
      var r := DecodeNested(rest, i + |ts|);
      if ts[0].code == IA_ADDR && r.Ok? {
        var first, others := [DecodeAddr(ts[0].data).value], Addresses(ts[1..]).value;
        assert first + (others + r.value) == first + others + r.value;
      }
    }
  }

  /** The error names the first option that is cut short: one whose length runs
      past the end, or an address of less than 24 bytes. */
  lemma FirstError(ts: seq<Tlv>, rest: seq<Byte>)
    requires ShortTlvs(ts) && Addresses(ts).Some? && |rest| >= 4
    ensures var l := rest[2] as int * 0x100 + rest[3] as int;
            && (l > |rest| - 4 ==> DecodeNested(EncodeTlvs(ts) + rest, 0) == Err(NestedTooLong(|ts|)))
            && (l <= |rest| - 4 && rest[..2] == [0, 5] && l < 24 ==>
                  DecodeNested(EncodeTlvs(ts) + rest, 0) == Err(NestedAddr(|ts|)))
  {
    hide DecodeNested;
    hide EncodeTlvs;
    hide Addresses;
    hide DecodeAddr;
    hide ShortTlvs;
    DecodeRest(ts, rest, 0);
    assert 0 + |ts| == |ts|;
    CutShort(rest, |ts|);
  }

  lemma CutShort(b: seq<Byte>, i: nat)
    requires |b| >= 4
    ensures var l := b[2] as int * 0x100 + b[3] as int;
            && (l > |b| - 4 ==> DecodeNested(b, i) == Err(NestedTooLong(i)))
            && (l <= |b| - 4 && b[..2] == [0, 5] && l < 24 ==> DecodeNested(b, i) == Err(NestedAddr(i)))
  {
    assert Uint16(b[2..4]) == b[2] as int * 0x100 + b[3] as int;
    if b[..2] == [0, 5] {
      assert Uint16(b[..2]) == 5;
    }
  }

  /** The nested options that encoding writes. */
  ghost function TlvsOf(nested: seq<IaAddr>): (ts: seq<Tlv>)
    ensures |ts| == |nested| && ShortTlvs(ts)
  {
    seq(|nested|, i requires 0 <= i < |nested| => Tlv(IA_ADDR, EncodeAddr(nested[i])[4..]))
  }

  lemma {:induction false} EncodeIsTlvs(nested: seq<IaAddr>)
    ensures EncodeAddrs(nested) == EncodeTlvs(TlvsOf(nested))
    ensures Addresses(TlvsOf(nested)) == Some(nested)
  {
    hide EncodeAddr;
    hide EncodeTlv;
    hide DecodeAddr;
    if nested != [] {
      EncodeIsTlvs(nested[1..]);
      DecodeAfterEncodeAddr(nested[0]);
      assert TlvsOf(nested)[1..] == TlvsOf(nested[1..]);
      assert [nested[0]] + nested[1..] == nested;
    }
  }

  /** Decoding undoes encoding, whatever stray bytes follow. */
  lemma DecodeAfterEncode(o: IaNa, junk: seq<Byte>)
    requires |junk| < 4
    ensures Decoded(Encoded(o) + junk) == Ok(o)
  {
    hide Decoded;
    EncodeIsTlvs(o.nested);
    InterleavedOptionsIgnored(o, TlvsOf(o.nested), junk);
  }

  /** Unknown options interleaved anywhere change nothing. */
  lemma InterleavedOptionsIgnored(o: IaNa, ts: seq<Tlv>, junk: seq<Byte>)
    requires ShortTlvs(ts) && |junk| < 4 && Addresses(ts) == Some(o.nested)
    ensures Decoded(BE32(o.iaid) + BE32(o.t1) + BE32(o.t2) + EncodeTlvs(ts) + junk) == Ok(o)
  {
    hide BE32;
    hide Uint32;
    hide DecodeNested;
    hide EncodeTlvs;
    var data := BE32(o.iaid) + BE32(o.t1) + BE32(o.t2) + EncodeTlvs(ts) + junk;
    assert data[0..4] == BE32(o.iaid) && data[4..8] == BE32(o.t1) && data[8..12] == BE32(o.t2);
    assert data[12..] == EncodeTlvs(ts) + junk;
    Uint32OfBE32(o.iaid);
    Uint32OfBE32(o.t1);
    Uint32OfBE32(o.t2);
    DecodeTlvs(ts, junk, 0);
  }

  /** Raw bytes read as a sequence of nested options and less than four bytes
      more. */
  ghost predicate ReadsAs(b: seq<Byte>, ts: seq<Tlv>, junk: seq<Byte>) {
    ShortTlvs(ts) && |junk| < 4 && b == EncodeTlvs(ts) + junk
  }

  /** Whatever decodes is such a sequence. */
  lemma {:induction false} DecodedReadsAs(b: seq<Byte>, i: nat) returns (ts: seq<Tlv>, junk: seq<Byte>)
    requires DecodeNested(b, i).Ok?
    ensures ReadsAs(b, ts, junk)
    decreases |b|
  {
    if |b| < 4 {
      ts, junk := [], b;
    } else {
      var l := Uint16(b[2..4]);
      var t := Tlv(Uint16(b[..2]), b[4..4 + l]);
      ts, junk := DecodedReadsAs(b[4 + l..], i + 1);
      BE16OfUint16(b[..2]);
      BE16OfUint16(b[2..4]);
      assert EncodeTlv(t) == b[..4 + l];
      assert ([t] + ts)[1..] == ts;
      assert b == b[..4 + l] + b[4 + l..];
      ts := [t] + ts;
    }
  }

  /** Decoding arbitrary bytes succeeds exactly if they are a header followed by
      some sequence of nested options with complete addresses and less than four
      bytes more; what comes out are the addresses of that sequence. */
  lemma DecodesExactly(data: seq<Byte>)
    ensures Decoded(data).Ok? <==>
              |data| >= 12 && exists ts, junk :: ReadsAs(data[12..], ts, junk) && Addresses(ts).Some?
    ensures forall ts, junk :: Decoded(data).Ok? && ReadsAs(data[12..], ts, junk) ==>
                                 Addresses(ts) == Some(Decoded(data).value.nested)
    ensures Decoded(data).Ok? ==>
              var (o, d) := (Decoded(data).value, data);
              && o.iaid == d[0] as int * 0x100_0000 + d[1] as int * 0x1_0000 + d[2] as int * 0x100 + d[3] as int
              && o.t1 == d[4] as int * 0x100_0000 + d[5] as int * 0x1_0000 + d[6] as int * 0x100 + d[7] as int
              && o.t2 == d[8] as int * 0x100_0000 + d[9] as int * 0x1_0000 + d[10] as int * 0x100 + d[11] as int
  {
    if |data| >= IA_NA_MIN_LEN {
      var b := data[IA_NA_MIN_LEN..];
      forall ts, junk | ReadsAs(b, ts, junk)
        ensures if Addresses(ts).Some? then DecodeNested(b, 0) == Ok(Addresses(ts).value) else DecodeNested(b, 0).Err?
      {
        DecodeTlvs(ts, junk, 0);
      }
      if DecodeNested(b, 0).Ok? {
        var ts, junk := DecodedReadsAs(b, 0);
      }
    }
  }
}
