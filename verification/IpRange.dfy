/** Address ranges of the DHCP server (internal/dhcpsvc/iprange.go). */
module IpRanges {
  import opened NetIp
  import opened Wrappers

  datatype RangeError = DifferentFamilies | NotLess | TooLong

  const MAX_RANGE_LEN: int := 0xffff_ffff

  datatype IpRange = IpRange(start: Addr, end: Addr) {

    predicate Contains(ip: Addr) {
      start.Is4() == ip.Is4() && !ip.Less(start) && !end.Less(ip)
    }

    /** The offset as the code computes it: a subtraction of the low halves of
        the 16-byte forms, in 64-bit arithmetic that wraps around. */
    function Offset(ip: Addr): Option<U64> {
      if !Contains(ip) then None
      else Some((Low64(ip.As16()) - Low64(start.As16())) % TWO64)
    }

    /** What callers get that ignore the second result. */
    function OffsetOrZero(ip: Addr): U64 {
      if Offset(ip).Some? then Offset(ip).value else 0
    }

    /** Accepted by `NewIpRange`, and not from the zero address. */
    predicate Walkable() {
      NewIpRange(start, end) == Ok(this) && !start.Invalid?
    }

    /** Walkable and without zones. */
    predicate Plain() {
      Walkable() && start.Zone() == "" && end.Zone() == ""
    }

    /** How far the last address that a walk visits is from the first.  A walk
        keeps the zone of the start, so a lower zone at the end stops it early. */
    function Len(): nat
      requires Walkable()
    {
      StringOrder(start.Zone(), end.Zone(), "");
      end.Value() - start.Value() - if CompareString(end.Zone(), start.Zone()) < 0 then 1 else 0
    }

    /** The address k places after the start. */
    function At(k: nat): Addr
      requires Walkable() && k <= Len()
    {
      match start
      case V4(n) => V4(n + k)
      case V6(n, z) => V6(n + k, z)
    }

    predicate EndsAtFamilyEnd()
      requires Walkable()
    {
      At(Len()).Next() == Invalid
    }
  }

  function Low64(n: U128): U64 {
    n % TWO64
  }

  function NewIpRange(start: Addr, end: Addr): Result<IpRange, RangeError> {
    if start.Is4() != end.Is4() then Err(DifferentFamilies)
    else if !start.Less(end) then Err(NotLess)
    else
      var diff := end.Value() - start.Value();
      if !(0 <= diff < TWO64) || diff > MAX_RANGE_LEN then Err(TooLong)
      else Ok(IpRange(start, end))
  }

  /** Accepted are two ascending addresses of one family that are at most 2^32 - 1
      apart.  The zero address counts as an IPv6 address below all others. */
  lemma RangeAccepted(start: Addr, end: Addr)
    ensures NewIpRange(start, end).Ok? <==>
              match (start, end)
              case (V4(m), V4(n)) => m < n
              case (V6(m, y), V6(n, z)) => n - m <= 0xffff_ffff && (m < n || (m == n && exists i :: LessAt(y, z, i)))
              case (Invalid, V6(n, _)) => n <= 0xffff_ffff
              case _ => false
    ensures NewIpRange(start, end).Ok? ==> NewIpRange(start, end).value == IpRange(start, end)
    ensures NewIpRange(start, end) == Err(DifferentFamilies) <==> (start.V4? && !end.V4?) || (!start.V4? && end.V4?)
    ensures NewIpRange(start, end) == Err(TooLong) ==> end.Value() - start.Value() > 0xffff_ffff
  {
    AddrLess(start, end);
    hide CompareAddr;
  }

  lemma WrappedDifference(x: U128, y: U128)
    requires 0 <= x - y <= MAX_RANGE_LEN
    ensures (Low64(x) - Low64(y)) % TWO64 == x - y
  {
  }

  /** The wrapped subtraction gives the true 128-bit distance, also when the
      range straddles a multiple of 2^64. */
  lemma OffsetIsDistance(r: IpRange, ip: Addr)
    requires NewIpRange(r.start, r.end) == Ok(r) && r.Contains(ip)
    ensures r.Offset(ip) == Some(ip.Value() - r.start.Value())
    ensures 0 <= ip.Value() - r.start.Value() <= MAX_RANGE_LEN
  {
    WrappedDifference(ip.As16(), r.start.As16());
  }

  /** Different zoneless addresses have different offsets; the zero address and
      zones are what would break it. */
  lemma OffsetInjective(r: IpRange, a: Addr, b: Addr)
    requires NewIpRange(r.start, r.end) == Ok(r) && r.Contains(a) && r.Contains(b)
    requires a.Zone() == b.Zone() && a.BitLen() == b.BitLen()
    ensures r.Offset(a) == r.Offset(b) <==> a == b
  {
    OffsetIsDistance(r, a);
    OffsetIsDistance(r, b);
  }

  /** Two link-local addresses that differ in their zone share an offset. */
  lemma ZonesShareOffsets()
    ensures var r := IpRange(V6(1, ""), V6(9, ""));
            && NewIpRange(r.start, r.end) == Ok(r)
            && r.Contains(V6(5, "eth0")) && r.Contains(V6(5, "eth1"))
            && r.Offset(V6(5, "eth0")) == r.Offset(V6(5, "eth1"))
  {
  }

  lemma PlainOrder(r: IpRange, ip: Addr)
    requires r.Plain()
    ensures r.start.BitLen() == r.end.BitLen() && r.start.Value() < r.end.Value()
    ensures ip.Zone() == "" && !ip.Invalid? ==>
              (r.Contains(ip) <==> ip.BitLen() == r.start.BitLen() && r.start.Value() <= ip.Value() <= r.end.Value())
  {
  }

  /** Offsets and addresses of a plain range correspond one to one. */
  lemma AtOffset(r: IpRange, k: nat)
    requires r.Plain() && k <= r.Len()
    ensures r.Contains(r.At(k)) && r.Offset(r.At(k)) == Some(k)
    ensures r.Len() <= MAX_RANGE_LEN
  {
    PlainOrder(r, r.At(k));
    OffsetIsDistance(r, r.At(k));
  }

  lemma OffsetAt(r: IpRange, ip: Addr)
    requires r.Plain() && r.Contains(ip) && ip.Zone() == "" && !ip.Invalid?
    ensures r.Offset(ip).Some? && r.Offset(ip).value <= r.Len() && r.At(r.Offset(ip).value) == ip
  {
    PlainOrder(r, ip);
    OffsetIsDistance(r, ip);
  }

  /** What a predicate passed to `find` does with an address. */
  datatype Verdict = Yes | No | Panic

  /** The zero address stands for none. */
  datatype FindResult = Found(ip: Addr) | NotFound | Panicked

  function Returned(ip: Addr): FindResult {
    if ip.Invalid? then NotFound else Found(ip)
  }

  /** The walk passes over every address of the range. */
  ghost predicate Rejected(r: IpRange, p: Addr -> Verdict)
    requires r.Walkable()
  {
    forall k :: 0 <= k <= r.Len() ==> p(r.At(k)) == No
  }

  /** `ipRange.find`.  After the family's last address the loop goes on with the
      zero address, which is below every end; a predicate that rejected that too
      would keep it going. */
  method Find(r: IpRange, p: Addr -> Verdict) returns (res: FindResult)
    requires r.Walkable()
    requires r.EndsAtFamilyEnd() ==> p(Invalid) != No
    ensures res.Found? ==> exists k :: 0 <= k <= r.Len() && res.ip == r.At(k) && p(r.At(k)) == Yes
                                       && forall j :: 0 <= j < k ==> p(r.At(j)) == No
    ensures res.NotFound? <==> Rejected(r, p) && (r.EndsAtFamilyEnd() ==> p(Invalid) == Yes)
    ensures res.Panicked? <==>
              || (exists k :: 0 <= k <= r.Len() && p(r.At(k)) == Panic && forall j :: 0 <= j < k ==> p(r.At(j)) == No)
              || (Rejected(r, p) && r.EndsAtFamilyEnd() && p(Invalid) == Panic)
  {
    hide CompareAddr;
    WalkEnds(r);
    var ip := r.start;
    ghost var k := 0;
    while !r.end.Less(ip)
      invariant 0 <= k <= r.Len() + 1
      invariant k <= r.Len() ==> ip == r.At(k)
      invariant k == r.Len() + 1 ==> ip == r.At(r.Len()).Next()
      invariant forall j :: 0 <= j < k ==> p(r.At(j)) == No
      decreases r.Len() + 1 - k
    {
      if p(ip) == Panic {
        assert k <= r.Len() ==> p(r.At(k)) == Panic;
        return Panicked;
      }
      if p(ip) == Yes {
        assert k <= r.Len() ==> p(r.At(k)) == Yes;
        return Returned(ip);
      }
      ip := ip.Next();
      k := k + 1;
    }
    return NotFound;
  }

  /** The walk goes on while it has not left the range, and beyond only with the
      zero address. */
  lemma WalkEnds(r: IpRange)
    requires r.Walkable()
    ensures r.At(0) == r.start
    ensures forall k :: 0 <= k <= r.Len() ==> !r.end.Less(r.At(k)) && !r.At(k).Invalid?
    ensures forall k :: 0 <= k < r.Len() ==> r.At(k).Next() == r.At(k + 1)
    ensures r.end.Less(r.At(r.Len()).Next()) <==> !r.EndsAtFamilyEnd()
  {
    StringOrder(r.start.Zone(), r.end.Zone(), r.start.Zone());
    forall k | 0 <= k <= r.Len() ensures !r.end.Less(r.At(k)) {
      assert r.At(k).BitLen() == r.end.BitLen();
    }
  }
}
