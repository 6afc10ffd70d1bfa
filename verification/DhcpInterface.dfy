/** Leases, the lease index and the address allocator of one DHCPv4 interface
    (internal/dhcpsvc/lease.go, leaseindex.go and interface.go). */
module DhcpInterface {
  import opened BitSets
  import opened IpRanges
  import opened NetIp
  import opened Wrappers

  /** Marks a lease as blocked. */
  const BLOCKED: Mac := [0, 0, 0, 0, 0, 0]

  class Lease {
    const ip: Addr
    var expiry: int
    var hostname: string
    var hwaddr: Mac
    var isStatic: bool

    constructor (ip: Addr, expiry: int, hostname: string, hwaddr: Mac, isStatic: bool)
      ensures this.ip == ip && this.expiry == expiry && this.hostname == hostname
      ensures this.hwaddr == hwaddr && this.isStatic == isStatic
    {
      this.ip, this.expiry, this.hostname, this.hwaddr, this.isStatic := ip, expiry, hostname, hwaddr, isStatic;
    }

    ghost predicate Expired(now: int)
      reads this
    {
      !isStatic && expiry < now
    }

    /** Prolongs an expired lease only; a static one never changes. */
    method UpdateExpiry(now: int, ttl: nat)
      modifies this`expiry
      ensures expiry == if isStatic || now < old(expiry) then old(expiry) else now + ttl
    {
      if isStatic {
        return;
      }
      if now < expiry {
        return;
      }
      expiry := now + ttl;
    }
  }

  function Lower(c: char): char {
    if 'A' <= c <= 'Z' then (c as int + 32) as char else c
  }

  function ToLower(s: string): string {
    seq(|s|, i requires 0 <= i < |s| => Lower(s[i]))
  }

  /** Names agree exactly if they agree letter by letter, whatever the case of the
      letters a to z. */
  lemma LowerAgrees(a: string, b: string)
    ensures ToLower(a) == ToLower(b) <==>
              && |a| == |b|
              && forall i :: 0 <= i < |a| ==>
                               || a[i] == b[i]
                               || ('A' <= a[i] <= 'Z' && b[i] as int == a[i] as int + 32)
                               || ('A' <= b[i] <= 'Z' && a[i] as int == b[i] as int + 32)
  {
    if ToLower(a) == ToLower(b) {
      assert |ToLower(a)| == |a| && |ToLower(b)| == |b|;
      forall i | 0 <= i < |a| ensures Lower(a[i]) == Lower(b[i]) {
        assert ToLower(a)[i] == ToLower(b)[i];
      }
    }
  }

  /** The index that all interfaces share. */
  class LeaseIndex {
    var byAddr: map<Addr, Lease>
    var byName: map<string, Lease>

    constructor ()
      ensures byAddr == map[] && byName == map[]
    {
      byAddr, byName := map[], map[];
    }
  }

  /** What the address checker says about an address. */
  datatype Answer = Available | Unavailable | CheckError

  /** How one pass of the allocation loop ends. */
  datatype Outcome = Done(lease: Lease) | Failed | Retry

  datatype Record = Record(hwaddr: Mac, ip: Addr)

  ghost predicate InPool(pool: IpRange, ip: Addr) {
    pool.Contains(ip) && !ip.Invalid? && ip.Zone() == ""
  }

  /** What the interface has on record: for each key the hardware address and
      the IP address of its lease, and the marked offsets. */
  datatype Book = Book(recs: map<Mac, Record>, marked: iset<nat>)

  ghost predicate Leased(pool: IpRange, b: Book, k: nat) {
    exists m :: m in b.recs && pool.OffsetOrZero(b.recs[m].ip) == k
  }

  /** The safety invariant: each lease is keyed by its own hardware address and
      lies in the pool, no two share an address, and the marked offsets are
      exactly those of the leases. */
  ghost predicate SoundBook(pool: IpRange, b: Book) {
    && (forall m :: m in b.recs ==>
          b.recs[m].hwaddr == m && InPool(pool, b.recs[m].ip) && pool.OffsetOrZero(b.recs[m].ip) in b.marked)
    && (forall m, n :: m in b.recs && n in b.recs && m != n ==> b.recs[m].ip != b.recs[n].ip)
    && (forall k :: k in b.marked ==> Leased(pool, b, k))
  }

  ghost predicate FullMarks(pool: IpRange, marked: iset<nat>)
    requires pool.Plain()
  {
    forall k: nat :: k <= pool.Len() ==> k in marked
  }

  ghost predicate LowestClear(pool: IpRange, marked: iset<nat>, k: nat)
    requires pool.Plain()
  {
    k <= pool.Len() && k !in marked && forall j: nat :: j < k ==> j in marked
  }

  /** A new lease at the offset k. */
  ghost function FreshBook(pool: IpRange, b: Book, mac: Mac, k: nat): Book
    requires pool.Plain() && k <= pool.Len()
  {
    Book(b.recs[mac := Record(mac, pool.At(k))], b.marked + iset{k})
  }

  /** An expired lease, stored under h, has gone to another client.  If the
      index did not know it, its old entry stays, and shows the hardware address
      that the lease has now. */
  ghost function RecycledBook(pool: IpRange, b: Book, mac: Mac, h: Mac, removed: bool, answer: Answer): Book
    requires h in b.recs
  {
    var ip := b.recs[h].ip;
    var off := iset{pool.OffsetOrZero(ip)};
    var hwaddr := if answer == Unavailable then BLOCKED else mac;
    var rest := if removed then b.recs - {h} else b.recs[h := Record(hwaddr, ip)];
    match answer
    case Available => Book(rest[mac := Record(mac, ip)], b.marked + off)
    case CheckError => Book(rest[mac := Record(mac, ip)], if removed then b.marked - off else b.marked)
    case Unavailable => Book(rest, b.marked - off)
  }

  /** What becomes of a recycled lease, now under mac and perhaps still under h,
      with the answer of the checker. */
  ghost function FinishedBook(b: Book, mac: Mac, h: Mac, off: nat, answer: Answer): Book {
    match answer
    case Available => Book(b.recs, b.marked + iset{off})
    case CheckError => b
    case Unavailable =>
      var recs := b.recs - {mac};
      Book(if h in recs then recs[h := Record(BLOCKED, recs[h].ip)] else recs, b.marked - iset{off})
  }

  lemma FinishedIsRecycled(pool: IpRange, b: Book, mac: Mac, h: Mac, removed: bool, answer: Answer)
    requires h in b.recs && mac !in b.recs
    ensures FinishedBook(RecycledBook(pool, b, mac, h, removed, CheckError), mac, h, pool.OffsetOrZero(b.recs[h].ip), answer)
         == RecycledBook(pool, b, mac, h, removed, answer)
  {
    hide IpRange.OffsetOrZero;
    var x := FinishedBook(RecycledBook(pool, b, mac, h, removed, CheckError), mac, h, pool.OffsetOrZero(b.recs[h].ip), answer);
    var y := RecycledBook(pool, b, mac, h, removed, answer);
    assert x.recs == y.recs && x.marked == y.marked;
  }

  lemma OffsetBounded(pool: IpRange, ip: Addr)
    requires pool.Plain()
    ensures pool.OffsetOrZero(ip) <= pool.Len()
  {
    PlainOrder(pool, pool.end);
    if pool.Contains(ip) {
      OffsetIsDistance(pool, ip);
    }
  }

  lemma PoolOffsets(pool: IpRange, a: Addr, b: Addr)
    requires pool.Plain() && InPool(pool, a) && InPool(pool, b)
    ensures pool.OffsetOrZero(a) == pool.OffsetOrZero(b) <==> a == b
    ensures pool.OffsetOrZero(a) <= pool.Len() && pool.At(pool.OffsetOrZero(a)) == a
  {
    OffsetAt(pool, a);
    OffsetAt(pool, b);
  }

  /** A new lease at a clear offset keeps the invariant. */
  lemma FreshKeepsSound(pool: IpRange, b: Book, mac: Mac, k: nat)
    requires pool.Plain() && SoundBook(pool, b)
    requires mac !in b.recs && k <= pool.Len() && k !in b.marked
    ensures SoundBook(pool, FreshBook(pool, b, mac, k))
  {
    AtIsInPool(pool, k);
    hide IpRange.OffsetOrZero;
    hide IpRange.At;
    hide InPool;
    hide Leased;
    FreshMarksLeased(pool, b, mac, k);
  }

  lemma FreshMarksLeased(pool: IpRange, b: Book, mac: Mac, k: nat)
    requires pool.Plain() && mac !in b.recs && k <= pool.Len() && pool.OffsetOrZero(pool.At(k)) == k
    requires forall j :: j in b.marked ==> Leased(pool, b, j)
    ensures var b' := FreshBook(pool, b, mac, k);
            forall j :: j in b'.marked ==> Leased(pool, b', j)
  {
    hide IpRange.OffsetOrZero;
    hide IpRange.At;
    var b' := FreshBook(pool, b, mac, k);
    assert mac in b'.recs && pool.OffsetOrZero(b'.recs[mac].ip) == k;
    forall j | j in b.marked ensures Leased(pool, b', j) {
      var m :| m in b.recs && pool.OffsetOrZero(b.recs[m].ip) == j;
      assert m in b'.recs && b'.recs[m] == b.recs[m];
    }
  }

  lemma AtIsInPool(pool: IpRange, k: nat)
    requires pool.Plain() && k <= pool.Len()
    ensures InPool(pool, pool.At(k)) && pool.OffsetOrZero(pool.At(k)) == k
  {
    AtOffset(pool, k);
  }

  /** Giving up a lease together with its offset. */
  ghost function ReleasedBook(pool: IpRange, b: Book, m: Mac): Book
    requires m in b.recs
  {
    Book(b.recs - {m}, b.marked - iset{pool.OffsetOrZero(b.recs[m].ip)})
  }

  lemma ReleaseKeepsSound(pool: IpRange, b: Book, m: Mac)
    requires pool.Plain() && SoundBook(pool, b) && m in b.recs
    ensures SoundBook(pool, ReleasedBook(pool, b, m))
  {
    hide InPool;
    hide IpRange.OffsetOrZero;
    hide IpRange.Plain;
    var b' := ReleasedBook(pool, b, m);
    OthersElsewhere(pool, b, m);
    forall k | k in b'.marked ensures Leased(pool, b', k) {
      var n :| n in b.recs && pool.OffsetOrZero(b.recs[n].ip) == k;
      assert n in b'.recs;
    }
  }

  /** No other lease has the same offset. */
  lemma OthersElsewhere(pool: IpRange, b: Book, m: Mac)
    requires pool.Plain() && SoundBook(pool, b) && m in b.recs
    ensures forall n :: n in b.recs && n != m ==> pool.OffsetOrZero(b.recs[n].ip) != pool.OffsetOrZero(b.recs[m].ip)
    ensures pool.OffsetOrZero(b.recs[m].ip) <= pool.Len() && pool.At(pool.OffsetOrZero(b.recs[m].ip)) == b.recs[m].ip
  {
    forall n | n in b.recs && n != m ensures pool.OffsetOrZero(b.recs[n].ip) != pool.OffsetOrZero(b.recs[m].ip) {
      PoolOffsets(pool, b.recs[n].ip, b.recs[m].ip);
    }
    PoolOffsets(pool, b.recs[m].ip, b.recs[m].ip);
  }

  /** Handing over an expired lease keeps the invariant exactly if the index
      knew the lease and the checker gave an answer. */
  lemma RecycleKeepsSound(pool: IpRange, b: Book, mac: Mac, h: Mac, removed: bool, answer: Answer)
    requires pool.Plain() && SoundBook(pool, b) && h in b.recs && mac !in b.recs
    ensures SoundBook(pool, RecycledBook(pool, b, mac, h, removed, answer)) <==> removed && answer != CheckError
  {
    var b' := RecycledBook(pool, b, mac, h, removed, answer);
    if !removed {
      assert h in b'.recs && b'.recs[h].ip == b.recs[h].ip;
    } else if answer == CheckError {
      assert mac in b'.recs && b'.recs[mac].ip == b.recs[h].ip;
    } else {
      HandedOver(pool, b, mac, h, answer);
    }
  }

  lemma HandedOver(pool: IpRange, b: Book, mac: Mac, h: Mac, answer: Answer)
    requires pool.Plain() && SoundBook(pool, b) && h in b.recs && mac !in b.recs && answer != CheckError
    ensures SoundBook(pool, RecycledBook(pool, b, mac, h, true, answer))
  {
    ReleaseKeepsSound(pool, b, h);
    var released, off := ReleasedBook(pool, b, h), pool.OffsetOrZero(b.recs[h].ip);
    if answer == Available {
      OthersElsewhere(pool, b, h);
      FreshKeepsSound(pool, released, mac, off);
      assert RecycledBook(pool, b, mac, h, true, answer) == FreshBook(pool, released, mac, off);
    }
  }

  /** The same once the recycled address was found unavailable, given up and
      then allocated afresh to the same client. */
  lemma RetryKeepsSound(pool: IpRange, b: Book, mac: Mac, h: Mac, removed: bool)
    requires pool.Plain() && SoundBook(pool, b) && h in b.recs && mac !in b.recs
    ensures var off := pool.OffsetOrZero(b.recs[h].ip);
            && off <= pool.Len() && pool.At(off) == b.recs[h].ip
            && (SoundBook(pool, FreshBook(pool, RecycledBook(pool, b, mac, h, removed, Unavailable), mac, off)) <==> removed)
  {
    var off := pool.OffsetOrZero(b.recs[h].ip);
    OthersElsewhere(pool, b, h);
    var blocked := RecycledBook(pool, b, mac, h, removed, Unavailable);
    if removed {
      RecycleKeepsSound(pool, b, mac, h, removed, Unavailable);
      FreshKeepsSound(pool, blocked, mac, off);
    } else {
      var again := FreshBook(pool, blocked, mac, off);
      assert h in again.recs && mac in again.recs && again.recs[h].ip == again.recs[mac].ip;
    }
  }

  ghost function UpTo(n: nat): (s: set<nat>)
    ensures |s| == n && forall k: nat :: k in s <==> k < n
  {
    if n == 0 then {} else UpTo(n - 1) + {n - 1}
  }

  ghost function OffsetsOf(pool: IpRange, recs: map<Mac, Record>, ms: set<Mac>): set<nat>
    requires ms <= recs.Keys
  {
    set m | m in ms :: pool.OffsetOrZero(recs[m].ip) as nat
  }

  lemma {:induction false} OffsetsSize(pool: IpRange, recs: map<Mac, Record>, ms: set<Mac>)
    requires ms <= recs.Keys
    requires forall m, n :: m in ms && n in ms && m != n ==> pool.OffsetOrZero(recs[m].ip) != pool.OffsetOrZero(recs[n].ip)
    ensures |OffsetsOf(pool, recs, ms)| == |ms|
    decreases ms
  {
    hide IpRange.OffsetOrZero;
    if ms != {} {
      var m :| m in ms;
      OffsetsSize(pool, recs, ms - {m});
      var k: nat := pool.OffsetOrZero(recs[m].ip);
      assert OffsetsOf(pool, recs, ms) == OffsetsOf(pool, recs, ms - {m}) + {k};
      assert k !in OffsetsOf(pool, recs, ms - {m});
    }
  }

  lemma FullSubset<T>(s: set<T>, t: set<T>)
    requires s <= t
    ensures |s| <= |t| && (|s| == |t| <==> s == t)
  {
    assert t == s + (t - s);
  }

  /** No offset leaks: the pool has room exactly as long as it has more addresses
      than there are leases. */
  lemma Capacity(pool: IpRange, b: Book)
    requires pool.Plain() && SoundBook(pool, b)
    ensures |b.recs| <= pool.Len() + 1
    ensures FullMarks(pool, b.marked) <==> |b.recs| == pool.Len() + 1
  {
    PlainOrder(pool, pool.end);
    hide IpRange.OffsetOrZero;
    hide InPool;
    hide SoundBook;
    hide OffsetsOf;
    var offs, all := OffsetsOf(pool, b.recs, b.recs.Keys), UpTo(pool.Len() + 1);
    SoundOffsets(pool, b);
    OffsetsSize(pool, b.recs, b.recs.Keys);
    assert |b.recs.Keys| == |b.recs|;
    FullSubset(offs, all);
  }

  /** The marked offsets are those of the leases, each that of one lease. */
  lemma SoundOffsets(pool: IpRange, b: Book)
    requires pool.Plain() && SoundBook(pool, b)
    ensures forall m, n :: m in b.recs && n in b.recs && m != n ==> pool.OffsetOrZero(b.recs[m].ip) != pool.OffsetOrZero(b.recs[n].ip)
    ensures forall k: nat :: k in b.marked <==> k in OffsetsOf(pool, b.recs, b.recs.Keys)
    ensures OffsetsOf(pool, b.recs, b.recs.Keys) <= UpTo(pool.Len() + 1)
  {
    hide IpRange.OffsetOrZero;
    hide InPool;
    forall m | m in b.recs
      ensures pool.OffsetOrZero(b.recs[m].ip) <= pool.Len()
      ensures forall n :: n in b.recs && n != m ==> pool.OffsetOrZero(b.recs[n].ip) != pool.OffsetOrZero(b.recs[m].ip)
    {
      OthersElsewhere(pool, b, m);
    }
  }

  ghost predicate OnRecord(b: Book, ip: Addr) {
    exists m :: m in b.recs && b.recs[m].ip == ip
  }

  /** The pool is full exactly if each of its addresses is on record. */
  lemma FullIsAllOnRecord(pool: IpRange, b: Book)
    requires pool.Plain() && SoundBook(pool, b)
    ensures FullMarks(pool, b.marked) <==> forall ip :: InPool(pool, ip) ==> OnRecord(b, ip)
  {
    hide IpRange.OffsetOrZero;
    hide InPool;
    forall ip | FullMarks(pool, b.marked) && InPool(pool, ip) ensures OnRecord(b, ip) {
      PoolOffsets(pool, ip, ip);
      var k: nat := pool.OffsetOrZero(ip);
      assert k in b.marked && Leased(pool, b, k);
      var m :| m in b.recs && pool.OffsetOrZero(b.recs[m].ip) == k;
      PoolOffsets(pool, b.recs[m].ip, ip);
    }
    forall k: nat | k <= pool.Len() && OnRecord(b, pool.At(k)) ensures k in b.marked {
      AtIsInPool(pool, k);
    }
    forall k: nat | k <= pool.Len() ensures InPool(pool, pool.At(k)) {
      AtIsInPool(pool, k);
    }
  }

  /** What an allocation comes to.  A free address: the lowest one is taken, if
      the checker finds it available.  None: nothing happens, or the lease under
      h changes hands, its address possibly on a second attempt. */
  ghost predicate Allocated(pool: IpRange, b: Book, mac: Mac, check: (nat, Addr) -> Answer, n: nat,
                            h: Option<Mac>, known: bool, b': Book, got: Option<Addr>)
    requires pool.Plain()
  {
    if h.None? then
      (FullMarks(pool, b.marked) && got == None && b' == b) || exists k :: TookLowest(pool, b, mac, check, n, k, b', got)
    else
      && FullMarks(pool, b.marked) && h.value in b.recs
      && var ip := b.recs[h.value].ip;
         var rest := RecycledBook(pool, b, mac, h.value, known, check(n, ip));
         && pool.OffsetOrZero(ip) <= pool.Len() && pool.At(pool.OffsetOrZero(ip)) == ip
         && (got.Some? ==> got.value == ip)
         && (check(n, ip) == Available ==> got.Some?) && (check(n, ip) == CheckError ==> got.None?)
         && b' == if check(n, ip) == Unavailable && got.Some? then FreshBook(pool, rest, mac, pool.OffsetOrZero(ip)) else rest
  }

  lemma AllocatedNothing(pool: IpRange, b: Book, mac: Mac, check: (nat, Addr) -> Answer, n: nat)
    requires pool.Plain() && FullMarks(pool, b.marked)
    ensures Allocated(pool, b, mac, check, n, None, false, b, None)
  {
  }

  ghost predicate TookLowest(pool: IpRange, b: Book, mac: Mac, check: (nat, Addr) -> Answer, n: nat, k: nat,
                             b': Book, got: Option<Addr>)
    requires pool.Plain()
  {
    && LowestClear(pool, b.marked, k)
    && if check(n, pool.At(k)) == Available then got == Some(pool.At(k)) && b' == FreshBook(pool, b, mac, k)
       else got == None && b' == b
  }

  /** An allocation keeps the invariant exactly if it recycles no lease, or one
      that the index knew and that could be checked. */
  lemma AllocatedSound(pool: IpRange, b: Book, mac: Mac, check: (nat, Addr) -> Answer, n: nat,
                       h: Option<Mac>, known: bool, b': Book, got: Option<Addr>)
    requires pool.Plain() && SoundBook(pool, b) && mac !in b.recs
    requires Allocated(pool, b, mac, check, n, h, known, b', got)
    ensures SoundBook(pool, b') <==> h.None? || (known && check(n, b.recs[h.value].ip) != CheckError)
  {
    hide SoundBook;
    hide RecycledBook;
    hide FreshBook;
    if h.Some? {
      RecycleKeepsSound(pool, b, mac, h.value, known, check(n, b.recs[h.value].ip));
      RetryKeepsSound(pool, b, mac, h.value, known);
    } else if b' != b {
      var k :| TookLowest(pool, b, mac, check, n, k, b', got);
      FreshKeepsSound(pool, b, mac, k);
    }
  }

  /** Nobody else's record changes, and the client has what it got. */
  lemma AllocatedOthers(pool: IpRange, b: Book, mac: Mac, check: (nat, Addr) -> Answer, n: nat,
                        h: Option<Mac>, known: bool, b': Book, got: Option<Addr>)
    requires pool.Plain() && mac !in b.recs && Allocated(pool, b, mac, check, n, h, known, b', got)
    ensures forall m :: m in b'.recs && m != mac ==> m in b.recs && b'.recs[m].ip == b.recs[m].ip
    ensures forall m :: m in b.recs && m != mac && Some(m) != h ==> m in b'.recs
    ensures got.Some? ==> mac in b'.recs && b'.recs[mac] == Record(mac, got.value)
  {
    if h.None? && b' != b {
      var k :| TookLowest(pool, b, mac, check, n, k, b', got);
    }
  }

  /** A new client gets the lowest address of the pool that nobody has on record,
      if the checker finds it available, and nothing else changes. */
  lemma AllocatedFresh(pool: IpRange, b: Book, mac: Mac, check: (nat, Addr) -> Answer, n: nat, b': Book, got: Option<Addr>)
    requires pool.Plain() && SoundBook(pool, b) && Allocated(pool, b, mac, check, n, None, false, b', got)
    ensures got.Some? ==>
              && InPool(pool, got.value) && !OnRecord(b, got.value) && check(n, got.value) == Available
              && (forall ip :: InPool(pool, ip) && ip.Value() < got.value.Value() ==> OnRecord(b, ip))
              && b'.recs == b.recs[mac := Record(mac, got.value)]
    ensures got.None? ==>
              && b' == b
              && ((forall ip :: InPool(pool, ip) ==> OnRecord(b, ip))
                  || exists ip :: InPool(pool, ip) && !OnRecord(b, ip) && check(n, ip) != Available)
  {
    hide SoundBook;
    FullIsAllOnRecord(pool, b);
    if !(FullMarks(pool, b.marked) && got == None) {
      var k :| TookLowest(pool, b, mac, check, n, k, b', got);
      LowestUnrecorded(pool, b, k);
    }
  }

  lemma LowestUnrecorded(pool: IpRange, b: Book, k: nat)
    requires pool.Plain() && SoundBook(pool, b) && LowestClear(pool, b.marked, k)
    ensures InPool(pool, pool.At(k)) && !OnRecord(b, pool.At(k))
    ensures forall ip :: InPool(pool, ip) && ip.Value() < pool.At(k).Value() ==> OnRecord(b, ip)
  {
    AtIsInPool(pool, k);
    hide IpRange.OffsetOrZero;
    hide InPool;
    forall ip | InPool(pool, ip) && ip.Value() < pool.At(k).Value() ensures OnRecord(b, ip) {
      PoolOffsets(pool, ip, ip);
      var j: nat := pool.OffsetOrZero(ip);
      assert j < k && Leased(pool, b, j);
      var m :| m in b.recs && pool.OffsetOrZero(b.recs[m].ip) == j;
      PoolOffsets(pool, b.recs[m].ip, ip);
    }
  }

  /** Without a free address the client gets the address of the lease under h, if
      it gets one.  What is on record afterwards depends on whether the index knew
      that lease, and on the checker's first answer. */
  lemma AllocatedRecycled(pool: IpRange, b: Book, mac: Mac, check: (nat, Addr) -> Answer, n: nat,
                          h: Mac, known: bool, b': Book, got: Option<Addr>)
    requires pool.Plain() && SoundBook(pool, b) && mac !in b.recs
    requires Allocated(pool, b, mac, check, n, Some(h), known, b', got)
    ensures (forall ip :: InPool(pool, ip) ==> OnRecord(b, ip)) && h in b.recs
    ensures var ip := b.recs[h].ip;
            && (got.Some? ==> got.value == ip)
            && match check(n, ip)
               case Available =>
                 got.Some? && b'.recs == (if known then b.recs - {h} else b.recs[h := Record(mac, ip)])[mac := Record(mac, ip)]
               case CheckError =>
                 got.None? && b'.recs == (if known then b.recs - {h} else b.recs[h := Record(mac, ip)])[mac := Record(mac, ip)]
               case Unavailable =>
                 var rest := if known then b.recs - {h} else b.recs[h := Record(BLOCKED, ip)];
                 b'.recs == if got.Some? then rest[mac := Record(mac, ip)] else rest
  {
    hide SoundBook;
    FullIsAllOnRecord(pool, b);
  }

  /** An unavailable recycled address is the only free one afterwards, so the
      second attempt is for that address again. */
  lemma SecondAttempt(pool: IpRange, b: Book, mac: Mac, check: (nat, Addr) -> Answer,
                      h: Mac, known: bool, b1: Book, b2: Book, got: Option<Addr>)
    requires pool.Plain() && Allocated(pool, b, mac, check, 0, Some(h), known, b1, None)
    requires check(0, b.recs[h].ip) == Unavailable && Allocated(pool, b1, mac, check, 1, None, false, b2, got)
    ensures Allocated(pool, b, mac, check, 0, Some(h), known, b2, got)
    ensures got.Some? <==> check(1, b.recs[h].ip) == Available
  {
    var off := pool.OffsetOrZero(b.recs[h].ip);
    assert off !in b1.marked && forall k: nat :: k <= pool.Len() && k != off ==> k in b1.marked;
    var k :| TookLowest(pool, b1, mac, check, 1, k, b2, got);
    assert k == off;
  }

  class NetInterface {
    const index: LeaseIndex
    const offsets: BitSet
    const pool: IpRange
    const ttl: nat
    var leases: map<Mac, Lease>

    constructor (index: LeaseIndex, pool: IpRange, ttl: nat)
      requires pool.Plain() && !pool.EndsAtFamilyEnd()
      ensures this.index == index && this.pool == pool && this.ttl == ttl
      ensures fresh(offsets) && leases == map[]
      ensures PoolOk() && Sound() && forall k :: !offsets.Has(k)
    {
      this.index, this.pool, this.ttl := index, pool, ttl;
      offsets := new BitSet();
      leases := map[];
    }

    predicate PoolOk() {
      pool.Plain() && !pool.EndsAtFamilyEnd()
    }

    function Off(ip: Addr): nat {
      pool.OffsetOrZero(ip)
    }

    ghost function Ledger(): Book
      reads this, leases.Values, offsets
    {
      Book(map m | m in leases :: Record(leases[m].hwaddr, leases[m].ip), Marks())
    }

    ghost predicate Sound()
      reads this, leases.Values, offsets
    {
      SoundBook(pool, Ledger())
    }

    ghost function Marks(): iset<nat>
      reads offsets
    {
      iset n: nat | offsets.Has(n)
    }

    ghost predicate Full()
      reads offsets
      requires PoolOk()
    {
      FullMarks(pool, Marks())
    }

    ghost predicate LowestFree(k: nat)
      reads offsets
      requires PoolOk()
    {
      LowestClear(pool, Marks(), k)
    }

    ghost predicate SomeExpired(now: int)
      reads this, leases.Values
    {
      exists m :: m in leases && leases[m].Expired(now)
    }

    /** The lowest address of the pool whose offset is clear; none exactly when
        all are set.  The panic is never reached. */
    method NextIP() returns (ip: Option<Addr>, ghost k: nat)
      requires PoolOk()
      ensures ip.None? <==> Full()
      ensures ip.Some? ==> LowestFree(k) && ip.value == pool.At(k)
      ensures ip.Some? ==> k <= pool.Len() && !offsets.Has(k) && forall j: nat :: j < k ==> offsets.Has(j)
    {
      var words, r := offsets.words, pool;
      var p := (next: Addr) =>
        if r.Offset(next).None? then Panic else if IsSet(words, r.Offset(next).value) then No else Yes;
      forall j | 0 <= j <= pool.Len()
        ensures p(pool.At(j)) == if j in Marks() then No else Yes
      {
        AtOffset(pool, j);
      }
      assert forall j: nat :: j in Marks() <==> offsets.Has(j);
      hide NetInterface.Marks;
      hide IpRange.Offset;
      hide IsSet;
      var res := Find(pool, p);
      match res
      case Found(a) =>
        k :| 0 <= k <= pool.Len() && a == pool.At(k) && p(pool.At(k)) == Yes && forall j :: 0 <= j < k ==> p(pool.At(j)) == No;
        return Some(a), k;
      case NotFound =>
        assert forall j :: 0 <= j <= pool.Len() ==> p(pool.At(j)) == No;
        return None, 0;
    }

    /** Some expired lease, in no particular order, and its key. */
    method FindExpired(now: int) returns (r: Option<Lease>, m: Mac)
      ensures r.Some? ==> m in leases && leases[m] == r.value && r.value.Expired(now)
      ensures r.None? <==> !SomeExpired(now)
      ensures r.Some? ==> !r.value.isStatic && r.value.expiry < now
      ensures r.None? ==> forall m :: m in leases ==> leases[m].isStatic || leases[m].expiry >= now
    {
      var rest := leases.Keys;
      while rest != {}
        invariant rest <= leases.Keys
        invariant forall m :: m in leases && m !in rest ==> !leases[m].Expired(now)
      {
        var k :| k in rest;
        if !leases[k].isStatic && leases[k].expiry < now {
          return Some(leases[k]), k;
        }
        rest := rest - {k};
      }
      return None, BLOCKED;
    }

    method RemoveLease(l: Lease) returns (found: bool)
      modifies this`leases, offsets
      ensures found <==> l.hwaddr in old(leases)
      ensures leases == old(leases) - {l.hwaddr}
      ensures Marks() == if found then old(Marks()) - iset{Off(l.ip)} else old(Marks())
    {
      if l.hwaddr !in leases {
        assert leases == leases - {l.hwaddr};
        return false;
      }
      leases := leases - {l.hwaddr};
      offsets.Set(pool.OffsetOrZero(l.ip), false);
      return true;
    }

    /** Takes the lease out of the interface and marks it; it stays in the index.
        Its offset is clear afterwards, so the address can be allocated again. */
    method BlockLease(l: Lease, now: int, dbOk: bool) returns (ok: bool)
      modifies this`leases, offsets, l
      ensures ok <==> old(l.hwaddr) in old(leases) && dbOk
      ensures leases == old(leases) - {old(l.hwaddr)}
      ensures Marks() == if old(l.hwaddr) in old(leases) then old(Marks()) - iset{Off(l.ip)} else old(Marks())
      ensures if old(l.hwaddr) in old(leases)
              then l.hwaddr == BLOCKED && l.hostname == "" && l.expiry == now + ttl && !l.isStatic
              else unchanged(l)
    {
      var found := RemoveLease(l);
      if !found {
        return false;
      }
      l.hwaddr := BLOCKED;
      l.hostname := "";
      l.expiry := now + ttl;
      l.isStatic := false;
      return dbOk;
    }

    /** The index knows the lease's address and its name. */
    predicate Committed(l: Lease)
      reads l, index
    {
      l.ip in index.byAddr && ToLower(l.hostname) in index.byName
    }

    /** `leaseIndex.remove`; the outcome of the database write does not matter
        to the state. */
    method IndexRemove(l: Lease) returns (removed: bool)
      modifies this`leases, offsets, index
      ensures removed <==> l.ip in old(index.byAddr) && ToLower(l.hostname) in old(index.byName) && l.hwaddr in old(leases)
      ensures leases == if removed then old(leases) - {l.hwaddr} else old(leases)
      ensures Marks() == if removed then old(Marks()) - iset{Off(l.ip)} else old(Marks())
      ensures index.byAddr == if removed then old(index.byAddr) - {l.ip} else old(index.byAddr)
      ensures index.byName == if removed then old(index.byName) - {ToLower(l.hostname)} else old(index.byName)
    {
      var loweredName := ToLower(l.hostname);
      if l.ip !in index.byAddr || loweredName !in index.byName {
        return false;
      }
      removed := RemoveLease(l);
      if !removed {
        assert leases == old(leases);
        return;
      }
      index.byAddr := index.byAddr - {l.ip};
      index.byName := index.byName - {loweredName};
    }

    /** Another hardware address holds the lease's address or name in the index. */
    ghost predicate ForeignHold(l: Lease)
      reads l, index, index.byAddr.Values, index.byName.Values
    {
      || (l.ip in index.byAddr && index.byAddr[l.ip].hwaddr != l.hwaddr)
      || (ToLower(l.hostname) in index.byName && index.byName[ToLower(l.hostname)].hwaddr != l.hwaddr)
    }

    /** `leaseIndex.update`: the interface's entry is replaced before the write
        that can fail. */
    method IndexUpdate(l: Lease, dbOk: bool) returns (ok: bool)
      modifies this`leases, index
      ensures ok <==> !old(ForeignHold(l)) && l.hwaddr in old(leases) && dbOk
      ensures leases == if !old(ForeignHold(l)) && l.hwaddr in old(leases) then old(leases)[l.hwaddr := l] else old(leases)
      ensures ok ==>
                var prev := old(leases)[l.hwaddr];
                && index.byAddr == (old(index.byAddr) - {prev.ip})[l.ip := l]
                && index.byName == (old(index.byName) - {ToLower(prev.hostname)})[ToLower(l.hostname) := l]
      ensures !ok ==> index.byAddr == old(index.byAddr) && index.byName == old(index.byName)
    {
      var loweredName := ToLower(l.hostname);
      if l.ip in index.byAddr && index.byAddr[l.ip].hwaddr != l.hwaddr {
        return false;
      }
      if loweredName in index.byName && index.byName[loweredName].hwaddr != l.hwaddr {
        return false;
      }
      if l.hwaddr !in leases {
        return false;
      }
      var prev := leases[l.hwaddr];
      leases := leases[l.hwaddr := l];
      if !dbOk {
        return false;
      }
      index.byAddr := index.byAddr - {prev.ip};
      index.byName := index.byName - {ToLower(prev.hostname)};
      index.byAddr := index.byAddr[l.ip := l];
      index.byName := index.byName[loweredName := l];
      return true;
    }

    /** A lease as it is given to a client for the first time. */
    ghost predicate Offered(l: Lease, mac: Mac, now: int)
      reads l
    {
      l.hwaddr == mac && l.hostname == "" && !l.isStatic && l.expiry == now + ttl
    }

    /** The lease that the book b has under h has gone to the client, and is not
        checked yet. */
    ghost predicate JustRecycled(b: Book, mac: Mac, h: Mac, known: bool)
      reads this, leases.Values, offsets
      requires PoolOk()
    {
      && mac in leases && h in b.recs && mac !in b.recs && leases[mac].hwaddr == mac
      && b.recs[h].ip == leases[mac].ip && Off(leases[mac].ip) <= pool.Len() && pool.At(Off(leases[mac].ip)) == leases[mac].ip
      && (forall m :: m in leases ==> (leases[m] == leases[mac] <==> m == mac || m == h))
      && Ledger() == RecycledBook(pool, b, mac, h, known, CheckError)
    }

    /** The end of `reserveLease`: an expired lease goes through the index and is
        handed over to the new client, before its address is checked. */
    method RecycleExpired(mac: Mac, now: int) returns (from: Option<Mac>)
      requires PoolOk() && mac !in leases
      modifies this`leases, offsets, index, leases.Values
      ensures from.Some? <==> old(SomeExpired(now))
      ensures from.None? ==> leases == old(leases) && unchanged(offsets) && unchanged(index)
      ensures from.Some? ==>
                && from.value in old(leases) && old(leases[from.value].Expired(now))
                && mac in leases && leases[mac] == old(leases)[from.value] && Offered(leases[mac], mac, now)
      ensures forall m :: m in leases && m != mac ==> m in old(leases) && leases[m] == old(leases)[m]
      ensures forall l :: l in old(leases.Values) && (from.Some? ==> l != old(leases)[from.value]) ==> unchanged(l)
      ensures from.Some? && old(Sound()) ==> JustRecycled(old(Ledger()), mac, from.value, old(Committed(leases[from.value])))
    {
      hide NetInterface.Sound;
      hide NetInterface.Ledger;
      hide NetInterface.Marks;
      hide NetInterface.Committed;
      hide NetInterface.JustRecycled;
      hide SoundBook;
      hide RecycledBook;
      hide IpRange.OffsetOrZero;
      hide IpRange.At;
      hide ToLower;
      ghost var ls, book := leases, Ledger();
      LedgerOf();
      SoundIs();
      var expired, h := FindExpired(now);
      if expired.None? {
        return None;
      }
      var l := expired.value;
      if Sound() {
        Keyed();
        OthersElsewhere(pool, book, h);
      }
      var removed := HandOver(l, mac, now);
      if old(Sound()) {
        BookAfterRecycle(ls, book, mac, l, h, removed);
      }
      return Some(h);
    }

    method HandOver(l: Lease, mac: Mac, now: int) returns (removed: bool)
      requires l.Expired(now)
      modifies this`leases, offsets, index, l
      ensures removed <==> old(Committed(l)) && old(l.hwaddr) in old(leases)
      ensures leases == (if removed then old(leases) - {old(l.hwaddr)} else old(leases))[mac := l]
      ensures Marks() == if removed then old(Marks()) - iset{Off(l.ip)} else old(Marks())
      ensures Offered(l, mac, now)
    {
      hide NetInterface.Marks;
      removed := IndexRemove(l);
      l.hwaddr := mac;
      l.hostname := "";
      l.isStatic := false;
      l.UpdateExpiry(now, ttl);
      leases := leases[mac := l];
    }

    /** A lease at the lowest free address or, if there is none, an expired lease. */
    method ReserveLease(mac: Mac, now: int) returns (lease: Option<Lease>, from: Option<Mac>)
      requires PoolOk() && mac !in leases
      modifies this`leases, offsets, index, leases.Values
      ensures lease.Some? ==> Offered(lease.value, mac, now) && lease.value.hwaddr == mac
      ensures from.Some? <==> old(Full()) && old(SomeExpired(now))
      ensures from.None? ==> leases == old(leases) && unchanged(offsets) && unchanged(index)
      ensures from.None? ==> if old(Full()) then lease.None?
                             else lease.Some? && fresh(lease.value) && exists k :: old(LowestFree(k)) && lease.value.ip == pool.At(k)
      ensures from.Some? ==>
                && from.value in old(leases) && old(leases[from.value].Expired(now))
                && mac in leases && leases[mac] == old(leases)[from.value] && lease == Some(leases[mac])
      ensures forall m :: m in leases && m != mac ==> m in old(leases) && leases[m] == old(leases)[m]
      ensures forall l :: l in old(leases.Values) && (from.Some? ==> l != old(leases)[from.value]) ==> unchanged(l)
      ensures from.Some? && old(Sound()) ==> JustRecycled(old(Ledger()), mac, from.value, old(Committed(leases[from.value])))
    {
      hide NetInterface.Sound;
      hide NetInterface.Ledger;
      hide NetInterface.Marks;
      hide NetInterface.SomeExpired;
      hide NetInterface.Committed;
      hide NetInterface.JustRecycled;
      hide RecycledBook;
      hide Lease.Expired;
      var next, k := NextIP();
      if next.Some? {
        var l := new Lease(next.value, now + ttl, "", mac, false);
        assert old(LowestFree(k)) && l.ip == pool.At(k);
        return Some(l), None;
      }
      from := RecycleExpired(mac, now);
      if from.None? {
        return None, None;
      }
      return Some(leases[mac]), from;
    }

    /** Takes a reserved lease if its address is available, blocks it if it is
        not, and leaves everything as it is if the check failed. */
    method TakeOrBlock(mac: Mac, l: Lease, answer: Answer, now: int, dbOk: bool) returns (out: Outcome)
      modifies this`leases, offsets, l
      ensures match answer
              case Available =>
                out == Done(l) && leases == old(leases)[mac := l] && unchanged(l) && Marks() == old(Marks()) + iset{Off(l.ip)}
              case CheckError => out == Failed && leases == old(leases) && unchanged(l) && Marks() == old(Marks())
              case Unavailable =>
                var found := old(l.hwaddr) in old(leases);
                && out == (if found && dbOk then Retry else Failed) && leases == old(leases) - {old(l.hwaddr)}
                && Marks() == (if found then old(Marks()) - iset{Off(l.ip)} else old(Marks()))
                && if found then l.hwaddr == BLOCKED else unchanged(l)
    {
      if answer == CheckError {
        return Failed;
      }
      if answer == Available {
        leases := leases[mac := l];
        offsets.Set(pool.OffsetOrZero(l.ip), true);
        return Done(l);
      }
      var ok := BlockLease(l, now, dbOk);
      return if ok then Retry else Failed;
    }

    /** One pass of the loop: reserve, check, then take the address or block it.
        `from` is the key of the lease that is recycled, if one is. */
    method Pass(mac: Mac, check: (nat, Addr) -> Answer, n: nat, now: int, dbOk: bool)
      returns (out: Outcome, from: Option<Mac>)
      requires PoolOk() && mac !in leases
      modifies this`leases, offsets, index, leases.Values
      ensures from.Some? <==> old(Full()) && old(SomeExpired(now))
      ensures from.Some? ==> from.value in old(leases) && old(leases[from.value].Expired(now))
      ensures forall l :: l in old(leases.Values) && (from.Some? ==> l != old(leases)[from.value]) ==> unchanged(l)
      ensures forall m :: m in leases ==> leases[m] in old(leases.Values) || fresh(leases[m])
      ensures out.Done? ==> mac in leases && leases[mac] == out.lease && Offered(out.lease, mac, now)
      ensures from.None? ==> && unchanged(index) && (out.Done? ==> fresh(out.lease))
                             && leases == if out.Done? then old(leases)[mac := out.lease] else old(leases)
      ensures from.None? || old(Sound()) ==>
                Allocated(pool, old(Ledger()), mac, check, n, from, from.Some? && old(Committed(leases[from.value])), Ledger(), IpOf(out))
      ensures out.Retry? ==> from.Some? && check(n, old(leases)[from.value].ip) == Unavailable && dbOk && !Full()
      ensures out.Retry? ==> mac !in leases && forall m :: m in leases ==> m in old(leases) && leases[m] == old(leases)[m]
      ensures from.Some? && check(n, old(leases)[from.value].ip) == Unavailable ==> !out.Done? && (dbOk ==> out.Retry?)
    {
      hide NetInterface.Sound;
      hide NetInterface.Ledger;
      hide NetInterface.Committed;
      hide NetInterface.Full;
      hide NetInterface.SomeExpired;
      hide NetInterface.Marks;
      hide NetInterface.Offered;
      hide Lease.Expired;
      hide SoundBook;
      hide Allocated;
      hide NetInterface.JustRecycled;
      ghost var book := Ledger();
      LedgerOf();
      var lease;
      lease, from := ReserveLease(mac, now);
      if lease.None? {
        AllocatedNothing(pool, book, mac, check, n);
        return Failed, from;
      }
      // Both ends do the same; what they come to differs.
      var l := lease.value;
      if from.None? {
        ghost var k :| old(LowestFree(k)) && l.ip == pool.At(k);
        out := FinishFresh(l, mac, check, n, now, dbOk, k);
      } else {
        out := FinishRecycled(l, mac, check, n, now, dbOk, book, from.value, old(Committed(leases[from.value])));
      }
    }

    /** The end of a pass for a new lease. */
    method FinishFresh(l: Lease, mac: Mac, check: (nat, Addr) -> Answer, n: nat, now: int, dbOk: bool, ghost k: nat)
      returns (out: Outcome)
      requires PoolOk() && mac !in leases && l !in leases.Values && l.hwaddr == mac
      requires LowestFree(k) && l.ip == pool.At(k)
      modifies this`leases, offsets, l
      ensures !out.Retry? && (out.Done? ==> out.lease == l && unchanged(l))
      ensures leases == if out.Done? then old(leases)[mac := l] else old(leases)
      ensures Allocated(pool, old(Ledger()), mac, check, n, None, false, Ledger(), IpOf(out))
    {
      hide NetInterface.Ledger;
      hide NetInterface.Marks;
      hide FreshBook;
      ghost var ls, book := leases, Ledger();
      LedgerOf();
      AtIsInPool(pool, k);
      out := TakeOrBlock(mac, l, check(n, l.ip), now, dbOk);
      if out.Done? {
        LedgerAfterFresh(ls, book, mac, k);
      } else {
        LedgerSame(ls, book);
      }
      assert TookLowest(pool, book, mac, check, n, k, Ledger(), IpOf(out));
    }

    /** The end of a pass for a lease that was recycled from h. */
    method FinishRecycled(l: Lease, mac: Mac, check: (nat, Addr) -> Answer, n: nat, now: int, dbOk: bool,
                          ghost book: Book, ghost h: Mac, ghost known: bool)
      returns (out: Outcome)
      requires PoolOk() && mac in leases && leases[mac] == l && l.hwaddr == mac
      modifies this`leases, offsets, l
      ensures match check(n, l.ip)
              case Available => out == Done(l) && leases == old(leases) && unchanged(l)
              case CheckError => out == Failed && leases == old(leases) && unchanged(l)
              case Unavailable => out == (if dbOk then Retry else Failed) && leases == old(leases) - {mac} && !Full()
      ensures FullMarks(pool, book.marked) && old(JustRecycled(book, mac, h, known)) ==>
                Allocated(pool, book, mac, check, n, Some(h), known, Ledger(), IpOf(out))
    {
      hide NetInterface.Ledger;
      hide NetInterface.Marks;
      hide NetInterface.Full;
      hide IpRange.OffsetOrZero;
      hide RecycledBook;
      hide FinishedBook;
      ghost var ls, before := leases, Ledger();
      OffsetBounded(pool, l.ip);
      LedgerOf();
      out := TakeOrBlock(mac, l, check(n, l.ip), now, dbOk);
      if check(n, l.ip) == Unavailable {
        ClearNotFull(Off(l.ip));
      }
      if old(JustRecycled(book, mac, h, known)) {
        LedgerAfterFinish(ls, before, mac, l, h, check(n, l.ip));
        FinishedIsRecycled(pool, book, mac, h, known, check(n, l.ip));
      }
    }

    lemma LedgerAfterFinish(ls: map<Mac, Lease>, b: Book, mac: Mac, l: Lease, h: Mac, answer: Answer)
      requires mac in ls && ls[mac] == l && ls.Keys == b.recs.Keys
      requires forall m :: m in ls ==> (ls[m] == l <==> m == mac || m == h)
      requires forall m :: m in ls ==> b.recs[m] == Record(if ls[m] == l then mac else ls[m].hwaddr, ls[m].ip)
      requires l.hwaddr == if answer == Unavailable then BLOCKED else mac
      requires leases == if answer == Unavailable then ls - {mac} else ls
      requires Marks() == match answer
                          case Available => b.marked + iset{Off(l.ip)}
                          case CheckError => b.marked
                          case Unavailable => b.marked - iset{Off(l.ip)}
      ensures Ledger() == FinishedBook(b, mac, h, Off(l.ip), answer)
    {
      hide NetInterface.Marks;
      hide IpRange.OffsetOrZero;
      var b' := FinishedBook(b, mac, h, Off(l.ip), answer);
      if answer == Unavailable {
        forall m | m in leases ensures m in b'.recs && b'.recs[m] == Record(leases[m].hwaddr, leases[m].ip) {
          assert m in ls && leases[m] == ls[m];
        }
        LedgerIs(b');
      } else {
        LedgerIs(b');
      }
    }

    lemma LedgerIs(b: Book)
      requires leases.Keys == b.recs.Keys && Marks() == b.marked
      requires forall m :: m in leases ==> b.recs[m] == Record(leases[m].hwaddr, leases[m].ip)
      ensures Ledger() == b
    {
      hide NetInterface.Marks;
      assert Ledger().recs == b.recs;
    }

    lemma LedgerOf()
      ensures Ledger().recs.Keys == leases.Keys
      ensures forall m :: m in leases ==> Ledger().recs[m] == Record(leases[m].hwaddr, leases[m].ip)
      ensures Ledger().marked == Marks()
      ensures PoolOk() ==> (Full() <==> FullMarks(pool, Ledger().marked)) && forall k :: LowestFree(k) <==> LowestClear(pool, Ledger().marked, k)
    {
    }

    lemma ClearNotFull(k: nat)
      requires PoolOk() && k <= pool.Len() && k !in Marks()
      ensures !Full()
    {
    }

    lemma LedgerAfterRemoval(ls: map<Mac, Lease>, b: Book, m: Mac)
      requires Reflects(ls, b, Some(m)) && m in ls && leases == ls - {m}
      requires Marks() == b.marked - iset{Off(ls[m].ip)}
      ensures Ledger() == ReleasedBook(pool, b, m)
    {
      assert Ledger().recs == b.recs - {m};
    }

    lemma SoundIs()
      ensures Sound() <==> SoundBook(pool, Ledger())
    {
    }

    /** `ls` are the leases that the book was made from, by now changed at most
        in the entry `except`. */
    ghost predicate Reflects(ls: map<Mac, Lease>, b: Book, except: Option<Mac>)
      reads ls.Values
    {
      && ls.Keys == b.recs.Keys
      && forall m :: m in ls ==> b.recs[m].ip == ls[m].ip && (Some(m) != except ==> b.recs[m].hwaddr == ls[m].hwaddr)
    }

    lemma LedgerSame(ls: map<Mac, Lease>, b: Book)
      requires Reflects(ls, b, None) && leases == ls
      requires Marks() == b.marked
      ensures Ledger() == b
    {
    }

    lemma LedgerAfterFresh(ls: map<Mac, Lease>, b: Book, mac: Mac, k: nat)
      requires Reflects(ls, b, None) && mac in leases && leases == ls[mac := leases[mac]]
      requires PoolOk() && k <= pool.Len() && leases[mac].hwaddr == mac && leases[mac].ip == pool.At(k)
      requires Marks() == b.marked + iset{k}
      ensures Ledger() == FreshBook(pool, b, mac, k)
    {
      assert Ledger().marked == b.marked + iset{k};
    }

    lemma BookAfterRecycle(ls: map<Mac, Lease>, b: Book, mac: Mac, l: Lease, h: Mac, removed: bool)
      requires PoolOk() && Reflects(ls, b, Some(h)) && mac !in ls && l.hwaddr == mac
      requires forall m :: m in ls ==> (ls[m] == l <==> m == h)
      requires h in ls && Off(l.ip) <= pool.Len() && pool.At(Off(l.ip)) == l.ip
      requires leases == (if removed then ls - {h} else ls)[mac := l]
      requires Marks() == if removed then b.marked - iset{Off(l.ip)} else b.marked
      ensures JustRecycled(b, mac, h, removed)
    {
      hide NetInterface.Marks;
      hide IpRange.OffsetOrZero;
      LedgerOf();
      hide NetInterface.Ledger;
      assert Ledger().recs == RecycledBook(pool, b, mac, h, removed, CheckError).recs;
    }

    /** Under the invariant a lease sits under its own key and no other. */
    lemma Keyed()
      requires Sound()
      ensures forall m :: m in leases ==> leases[m].hwaddr == m
      ensures forall l :: l in leases.Values ==> l.hwaddr in leases && leases[l.hwaddr] == l
    {
      forall m | m in leases ensures leases[m].hwaddr == m {
        assert Ledger().recs[m].hwaddr == m;
      }
    }

    /** The loop of `allocateLease`.  It runs twice at most: an unavailable fresh
        address ends it with an error, because blocking a lease that is not
        stored yet fails, and an unavailable recycled address becomes free. */
    method AllocateLoop(mac: Mac, check: (nat, Addr) -> Answer, now: int, dbOk: bool)
      returns (r: Option<Lease>, from: Option<Mac>)
      requires PoolOk() && mac !in leases
      modifies this`leases, offsets, index, leases.Values
      ensures from.Some? <==> old(Full()) && old(SomeExpired(now))
      ensures from.Some? ==> from.value in old(leases) && old(leases[from.value].Expired(now))
      ensures forall l :: l in old(leases.Values) && (from.Some? ==> l != old(leases)[from.value]) ==> unchanged(l)
      ensures forall m :: m in leases ==> leases[m] in old(leases.Values) || fresh(leases[m])
      ensures r.Some? ==> mac in leases && leases[mac] == r.value && Offered(r.value, mac, now)
      ensures from.None? ==> && unchanged(index) && (r.Some? ==> fresh(r.value))
                             && leases == if r.Some? then old(leases)[mac := r.value] else old(leases)
      ensures from.None? || old(Sound()) ==>
                Allocated(pool, old(Ledger()), mac, check, 0, from, from.Some? && old(Committed(leases[from.value])), Ledger(),
                          if r.Some? then Some(r.value.ip) else None)
      ensures from.Some? && old(Sound()) && check(0, old(leases)[from.value].ip) == Unavailable ==>
                (r.Some? <==> dbOk && check(1, old(leases)[from.value].ip) == Available)
    {
      hide NetInterface.Sound;
      hide NetInterface.Ledger;
      hide NetInterface.Committed;
      hide NetInterface.Offered;
      hide NetInterface.Full;
      hide NetInterface.SomeExpired;
      hide Lease.Expired;
      hide Allocated;
      ghost var book := Ledger();
      LedgerOf();
      ghost var known := false;
      var attempt: nat := 0;
      from := None;
      while true
        invariant attempt <= 1 && mac !in leases
        invariant forall m :: m in leases ==> m in old(leases) && leases[m] == old(leases)[m]
        invariant from.Some? ==> from.value in old(leases)
        invariant forall l :: l in old(leases.Values) && (from.Some? ==> l != old(leases)[from.value]) ==> unchanged(l)
        invariant attempt == 0 ==> from.None? && leases == old(leases) && unchanged(index) && unchanged(offsets) && Ledger() == book
        invariant attempt == 1 ==> && from.Some? && old(Full()) && old(SomeExpired(now)) && dbOk && !Full()
                                   && old(leases[from.value].Expired(now)) && known == old(Committed(leases[from.value]))
                                   && check(0, old(leases)[from.value].ip) == Unavailable
        invariant attempt == 1 && old(Sound()) ==> Allocated(pool, book, mac, check, 0, from, known, Ledger(), None)
        decreases 1 - attempt
      {
        assert leases.Values <= old(leases.Values);
        ghost var between := Ledger();
        var out, m := Pass(mac, check, attempt, now, dbOk);
        if attempt == 0 {
          from := m;
          known := from.Some? && old(Committed(leases[from.value]));
        } else if old(Sound()) {
          SecondAttempt(pool, book, mac, check, from.value, known, between, Ledger(), IpOf(out));
        }
        if !out.Retry? {
          return Pick(out), from;
        }
        attempt := attempt + 1;
      }
    }

    lemma OnlyFree(off: nat)
      requires PoolOk() && off <= pool.Len()
      requires forall k: nat :: k <= pool.Len() ==> (k in Marks() <==> k != off)
      ensures !Full() && forall k: nat :: LowestFree(k) <==> k == off
    {
      assert off !in Marks();
      assert LowestFree(off);
    }
  }

  function Pick(out: Outcome): Option<Lease> {
    if out.Done? then Some(out.lease) else None
  }

  function IpOf(out: Outcome): Option<Addr> {
    if out.Done? then Some(out.lease.ip) else None
  }
}
