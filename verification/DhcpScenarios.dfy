/** Runs from an empty interface that end badly, for every pool. */
module DhcpScenarios {
  import opened DhcpConsequences
  import opened DhcpHandlers
  import opened DhcpInterface
  import opened IpRanges
  import opened NetIp
  import opened Wrappers

  /** The database can be written and the checker always gives the same answer. */
  function Always(now: int, answer: Answer): Env {
    Env(now, true, (n: nat, ip: Addr) => answer)
  }

  function DiscoverFrom(mac: Mac): Msg {
    Msg(Discover, mac, None, None, Invalid, "")
  }

  function Selects(mac: Mac, ip: Addr, srv: Addr, name: string): Msg {
    Msg(Request, mac, Some(ip), Some(srv), Invalid, name)
  }

  ghost predicate DifferentMacs(macs: seq<Mac>) {
    forall a, b :: 0 <= a < b < |macs| ==> macs[a] != macs[b]
  }

  ghost predicate DifferentNames(names: seq<string>) {
    forall a, b :: 0 <= a < b < |names| ==> ToLower(names[a]) != ToLower(names[b])
  }

  /** Exactly these clients have a lease, each until then. */
  ghost predicate LeasedTo(c: NetInterface, macs: seq<Mac>, until: int)
    reads c, c.leases.Values
  {
    && (forall m :: m in c.leases <==> m in macs)
    && (forall m :: m in c.leases ==> !c.leases[m].isStatic && c.leases[m].expiry == until)
  }

  /** An interface without leases, on an index of its own. */
  method Start(pool: IpRange, subnet: Prefix, addresses: set<Addr>, ttl: nat) returns (i: Interface4)
    requires pool.Plain() && !pool.EndsAtFamilyEnd()
    ensures fresh(i) && fresh(i.common) && fresh(i.common.index) && fresh(i.common.offsets)
    ensures i.Valid() && i.common.leases == map[] && i.common.index.byAddr == map[] && i.common.index.byName == map[]
    ensures i.common.pool == pool && i.common.ttl == ttl && i.subnet == subnet && i.addresses == addresses
  {
    var index := new LeaseIndex();
    var common := new NetInterface(index, pool, ttl);
    i := new Interface4(common, subnet, addresses);
  }

  lemma NextMac(macs: seq<Mac>, j: nat)
    requires j < |macs| && DifferentMacs(macs)
    ensures macs[..j + 1] == macs[..j] + [macs[j]] && macs[j] !in macs[..j] && DifferentMacs(macs[..j])
    ensures j + 1 == |macs| ==> macs[..j + 1] == macs
  {
  }

  lemma NobodyYet(c: NetInterface, until: int)
    requires c.leases == map[]
    ensures LeasedTo(c, [], until)
  {
  }

  /** A new client asks while there is room. */
  method OfferOne(i: Interface4, known: seq<Mac>, mac: Mac, now: int)
    requires i.Valid() && LeasedTo(i.common, known, now + i.common.ttl)
    requires mac !in known && |i.common.leases| <= i.common.pool.Len()
    modifies i.common`leases, i.common.offsets, i.common.index, i.common.leases.Values
    ensures i.Valid() && LeasedTo(i.common, known + [mac], now + i.common.ttl)
    ensures |i.common.leases| == |old(i.common.leases)| + 1 && unchanged(i.common.index)
    ensures mac in i.common.leases && fresh(i.common.leases[mac]) && i.common.leases == old(i.common.leases)[mac := i.common.leases[mac]]
  {
    hide NetInterface.Sound;
    hide NetInterface.Ledger;
    hide NetInterface.Full;
    hide NetInterface.SomeExpired;
    hide NetInterface.Committed;
    hide Allocated;
    var c := i.common;
    ghost var ls, book := c.leases, c.Ledger();
    i.Room();
    c.LedgerOf();
    assert forall m :: m in ls ==> ls[m] in c.leases.Values;
    var reply, from := i.HandleDiscover(DiscoverFrom(mac), Always(now, Available));
    AvailableIsTaken(c.pool, book, mac, Always(now, Available).check, c.Ledger(), if reply.Offer? then Some(reply.yiaddr) else None);
    OneMore(ls, c.leases, mac);
  }

  lemma OneMore<T>(was: map<Mac, T>, now: map<Mac, T>, mac: Mac)
    requires mac !in was && mac in now && now == was[mac := now[mac]]
    ensures |now| == |was| + 1
  {
    assert now.Keys == was.Keys + {mac} && |now| == |now.Keys| && |was| == |was.Keys|;
  }

  lemma AvailableIsTaken(pool: IpRange, b: Book, mac: Mac, check: (nat, Addr) -> Answer, b': Book, got: Option<Addr>)
    requires pool.Plain() && Allocated(pool, b, mac, check, 0, None, false, b', got)
    requires !FullMarks(pool, b.marked) && forall ip :: check(0, ip) == Available
    ensures got.Some?
  {
  }

  /** New clients ask one after the other while there is room: each is offered
      an address of its own. */
  method Fill(i: Interface4, macs: seq<Mac>, now: int)
    requires i.Valid() && i.common.leases == map[]
    requires DifferentMacs(macs) && |macs| <= i.common.pool.Len() + 1
    modifies i.common`leases, i.common.offsets, i.common.index
    ensures i.Valid() && LeasedTo(i.common, macs, now + i.common.ttl) && unchanged(i.common.index)
    ensures i.common.Full() <==> |macs| == i.common.pool.Len() + 1
    ensures forall m :: m in i.common.leases ==> fresh(i.common.leases[m])
  {
    hide Interface4.Valid;
    hide NetInterface.Full;
    hide LeasedTo;
    hide DifferentMacs;
    if macs == [] {
      NobodyYet(i.common, now + i.common.ttl);
      i.Room();
    } else {
      var n := |macs| - 1;
      NextMac(macs, n);
      Fill(i, macs[..n], now);
      LeaseCount(i.common, macs[..n], now + i.common.ttl);
      OfferOne(i, macs[..n], macs[n], now);
      i.Room();
    }
  }

  lemma LeaseCount(c: NetInterface, macs: seq<Mac>, until: int)
    requires LeasedTo(c, macs, until) && DifferentMacs(macs)
    ensures |c.leases| == |macs|
  {
    assert c.leases.Keys == set m | m in macs;
    SetOfMacs(macs);
    assert |c.leases.Keys| == |c.leases|;
  }

  lemma {:induction false} SetOfMacs(macs: seq<Mac>)
    requires DifferentMacs(macs)
    ensures |set m | m in macs| == |macs|
  {
    if macs != [] {
      var n := |macs| - 1;
      SetOfMacs(macs[..n]);
      NextMac(macs, n);
      assert (set m | m in macs) == (set m | m in macs[..n]) + {macs[n]};
    }
  }

  /** The index knows the leases of these clients, and nothing else. */
  ghost predicate Indexed(c: NetInterface, macs: seq<Mac>, names: seq<string>)
    reads c, c.index, c.leases.Values
  {
    && |macs| == |names| && (forall m :: m in macs ==> m in c.leases && InIndex(c, c.leases[m]))
    && (forall ip :: ip in c.index.byAddr ==> exists m :: m in macs && c.leases[m].ip == ip)
    && (forall s :: s in c.index.byName ==> exists a :: 0 <= a < |names| && ToLower(names[a]) == s)
  }

  /** A client requests what it was offered, under a new name. */
  method CommitOne(i: Interface4, macs: seq<Mac>, names: seq<string>, mac: Mac, name: string, srv: Addr, now: int)
    requires i.Valid() && Indexed(i.common, macs, names) && mac in i.common.leases && mac !in macs
    requires (forall a :: 0 <= a < |names| ==> ToLower(names[a]) != ToLower(name)) && srv in i.addresses && Specified(srv)
    modifies i.common`leases, i.common.index, i.common.leases.Values
    ensures i.Valid() && i.common.leases == old(i.common.leases) && Indexed(i.common, macs + [mac], names + [name])
    ensures forall l | l in old(i.common.leases.Values) :: l.expiry == old(l.expiry) && l.isStatic == old(l.isStatic)
  {
    hide NetInterface.Sound;
    hide NetInterface.Ledger;
    hide ToLower;
    hide NetInterface.PoolOk;
    hide Contains;
    var c := i.common;
    i.Apart();
    NotHeld(i, macs, names, mac, name);
    hide Interface4.HeldByOther;
    var l := c.leases[mac];
    ghost var addrs, taken := c.index.byAddr, c.index.byName;
    assert forall m :: m in macs ==> c.leases[m] in c.leases.Values && c.leases[m].hwaddr != mac;
    ghost var claimed;
    var reply;
    reply, claimed := i.HandleRequest(Selects(mac, l.ip, srv, name), Always(now, Available));
    IndexGrows(c, macs, names, mac, name, addrs, taken);
  }

  lemma NotHeld(i: Interface4, macs: seq<Mac>, names: seq<string>, mac: Mac, name: string)
    requires i.Valid() && Indexed(i.common, macs, names) && mac in i.common.leases && mac !in macs
    requires forall a :: 0 <= a < |names| ==> ToLower(names[a]) != ToLower(name)
    ensures !i.HeldByOther(mac, i.common.leases[mac].ip, name)
  {
    hide ToLower;
    i.Apart();
  }

  lemma IndexGrows(c: NetInterface, macs: seq<Mac>, names: seq<string>, mac: Mac, name: string,
                   addrs: map<Addr, Lease>, taken: map<string, Lease>)
    requires |macs| == |names| && mac in c.leases && c.leases[mac].hostname == name
    requires c.index.byAddr == addrs[c.leases[mac].ip := c.leases[mac]] && c.index.byName == taken[ToLower(name) := c.leases[mac]]
    requires forall m :: m in macs ==> && m in c.leases && c.leases[m].ip != c.leases[mac].ip && c.leases[m].ip in addrs
                                       && addrs[c.leases[m].ip] == c.leases[m] && ToLower(c.leases[m].hostname) in taken
    requires forall ip :: ip in addrs ==> exists m :: m in macs && c.leases[m].ip == ip
    requires forall s :: s in taken ==> exists a :: 0 <= a < |names| && ToLower(names[a]) == s
    ensures Indexed(c, macs + [mac], names + [name])
  {
    hide ToLower;
    forall s | s in c.index.byName ensures exists a :: 0 <= a < |names + [name]| && ToLower((names + [name])[a]) == s {
      if s == ToLower(name) {
        assert (names + [name])[|names|] == name;
      } else {
        var a :| 0 <= a < |names| && ToLower(names[a]) == s;
        assert (names + [name])[a] == names[a];
      }
    }
    forall ip | ip in c.index.byAddr ensures exists m :: m in macs + [mac] && c.leases[m].ip == ip {
      if ip == c.leases[mac].ip {
        assert mac in macs + [mac];
      } else {
        var m :| m in macs && c.leases[m].ip == ip;
        assert m in macs + [mac];
      }
    }
  }

  /** Each of the clients requests what it was offered, under a name of its own,
      and is acknowledged: the index knows all their leases. */
  method CommitAll(i: Interface4, macs: seq<Mac>, names: seq<string>, srv: Addr, now: int, ghost until: int)
    requires i.Valid() && LeasedTo(i.common, macs, until) && DifferentMacs(macs)
    requires |names| == |macs| && DifferentNames(names) && srv in i.addresses && Specified(srv)
    requires i.common.index.byAddr == map[] && i.common.index.byName == map[]
    modifies i.common`leases, i.common.index, i.common.leases.Values
    ensures i.Valid() && i.common.leases == old(i.common.leases) && LeasedTo(i.common, macs, until)
    ensures Indexed(i.common, macs, names)
  {
    hide NetInterface.Sound;
    hide NetInterface.Ledger;
    hide ToLower;
    hide InIndex;
    var c := i.common;
    for j := 0 to |macs|
      invariant i.Valid() && c.leases == old(c.leases) && LeasedTo(c, macs, until)
      invariant Indexed(c, macs[..j], names[..j])
    {
      NextMac(macs, j);
      assert names[..j + 1] == names[..j] + [names[j]];
      assert forall a :: 0 <= a < j ==> names[..j][a] == names[a];
      CommitOne(i, macs[..j], names[..j], macs[j], names[j], srv, now);
    }
    assert macs[..|macs|] == macs && names[..|names|] == names;
  }

  ghost predicate InIndex(c: NetInterface, l: Lease)
    reads c, c.index, l
  {
    c.Committed(l) && c.index.byAddr[l.ip] == l
  }

  /** A pool's worth of clients is offered addresses and requests none.  Once the
      offers have run out, the next client gets an address that stays on record
      for another one. */
  method OffersRunOut(pool: IpRange, subnet: Prefix, addresses: set<Addr>, ttl: nat, macs: seq<Mac>, now: int, late: int)
    returns (i: Interface4)
    requires pool.Plain() && !pool.EndsAtFamilyEnd()
    requires DifferentMacs(macs) && |macs| == pool.Len() + 2 && late > now + ttl
    ensures SharedAddress(i.common)
  {
    hide NetInterface.Sound;
    hide NetInterface.Full;
    i := Start(pool, subnet, addresses, ttl);
    var n := |macs| - 1;
    Fill(i, macs[..n], now);
    assert macs[n] !in macs[..n] && macs[0] in macs[..n];
    assert macs[0] in i.common.leases;
    UnrequestedOfferIsShared(i, DiscoverFrom(macs[n]), Always(late, Available));
  }

  /** A full pool of acknowledged leases. */
  method Occupied(pool: IpRange, subnet: Prefix, addresses: set<Addr>, ttl: nat, macs: seq<Mac>, names: seq<string>, srv: Addr, now: int)
    returns (i: Interface4)
    requires pool.Plain() && !pool.EndsAtFamilyEnd() && srv in addresses && Specified(srv)
    requires DifferentMacs(macs) && |macs| == pool.Len() + 1 && |names| == |macs| && DifferentNames(names)
    ensures fresh(i) && fresh(i.common) && fresh(i.common.index) && fresh(i.common.offsets) && fresh(i.common.leases.Values)
    ensures i.Valid() && i.common.Full() && LeasedTo(i.common, macs, now + ttl) && Indexed(i.common, macs, names)
    ensures i.common.pool == pool && i.subnet == subnet
  {
    hide Interface4.Valid;
    hide LeasedTo;
    hide Indexed;
    hide NetInterface.Full;
    i := Start(pool, subnet, addresses, ttl);
    Fill(i, macs, now);
    CommitAll(i, macs, names, srv, now, now + ttl);
    i.Room();
  }

  lemma RunOut(c: NetInterface, macs: seq<Mac>, names: seq<string>, until: int, late: int)
    requires LeasedTo(c, macs, until) && Indexed(c, macs, names) && macs != [] && late > until
    ensures AllExpired(c, late) && forall m :: m in c.leases ==> c.Committed(c.leases[m])
    ensures forall m :: m in c.leases <==> m in macs
  {
    assert macs[0] in macs;
  }

  /** All leases of a full pool were acknowledged and have run out.  The checker
      fails once; the two clients that ask get one address. */
  method CheckFailsOnce(pool: IpRange, subnet: Prefix, addresses: set<Addr>, ttl: nat, macs: seq<Mac>, names: seq<string>,
                        srv: Addr, now: int, late: int, first: Mac, second: Mac)
    returns (i: Interface4)
    requires pool.Plain() && !pool.EndsAtFamilyEnd() && srv in addresses && Specified(srv)
    requires DifferentMacs(macs) && |macs| == pool.Len() + 1 && |names| == |macs| && DifferentNames(names)
    requires first !in macs && second !in macs && first != second && late > now + ttl
    ensures SharedAddress(i.common)
  {
    hide Interface4.Valid;
    hide NetInterface.Full;
    hide IpRange.Plain;
    hide IpRange.EndsAtFamilyEnd;
    hide IpRange.Len;
    hide DifferentMacs;
    hide DifferentNames;
    hide Specified;
    i := Occupied(pool, subnet, addresses, ttl, macs, names, srv, now);
    RunOut(i.common, macs, names, now + ttl, late);
    hide LeasedTo;
    hide Indexed;
    hide AllExpired;
    hide NetInterface.Committed;
    FailedCheckIsShared(i, DiscoverFrom(first), Always(late, CheckError), DiscoverFrom(second), Always(late, Available));
  }

  /** Requests of a client whose address the index has under another hardware
      address: none is acknowledged, however many there are. */
  method NeverAcknowledged(i: Interface4, blocked: Lease, mac: Mac, requests: seq<Msg>, envs: seq<Env>) returns (replies: seq<Reply>)
    requires i.Valid() && |requests| == |envs| && forall r :: r in requests ==> r.typ.Request? && r.mac == mac
    requires mac in i.common.leases && blocked !in i.common.leases.Values && blocked.hwaddr != mac
    requires i.common.leases[mac].ip in i.common.index.byAddr && i.common.index.byAddr[i.common.leases[mac].ip] == blocked
    modifies i.common`leases, i.common.index, i.common.leases.Values
    ensures |replies| == |requests| && forall r :: r in replies ==> !r.Ack? && !r.Offer?
  {
    hide NetInterface.Sound;
    hide NetInterface.Ledger;
    var c := i.common;
    replies := [];
    for j := 0 to |requests|
      invariant i.Valid() && c.leases == old(c.leases) && c.index.byAddr == old(c.index.byAddr)
      invariant blocked.hwaddr == old(blocked.hwaddr)
      invariant |replies| == j && forall r :: r in replies ==> !r.Ack? && !r.Offer?
    {
      assert requests[j] in requests;
      assert forall name :: i.HeldByOther(mac, c.leases[mac].ip, name);
      ghost var claimed;
      var reply;
      reply, claimed := i.HandleRequest(requests[j], envs[j]);
      replies := replies + [reply];
    }
  }

  method DeclinedIsRefused(i: Interface4, mac: Mac, next: Mac, now: int, requests: seq<Msg>, envs: seq<Env>)
    returns (offer: Reply, replies: seq<Reply>)
    requires i.Valid() && i.common.Full() && mac in i.common.leases && next !in i.common.leases && next != BLOCKED
    requires var l := i.common.leases[mac];
             Contains(i.subnet, l.ip) && l.ip in i.common.index.byAddr && i.common.index.byAddr[l.ip] == l
    requires |requests| == |envs| && forall r :: r in requests ==> r.typ.Request? && r.mac == next
    modifies i.common`leases, i.common.offsets, i.common.leases.Values, i.common.index
    ensures offer == Offer(old(i.common.leases)[mac].ip, i.common.ttl, "")
    ensures |replies| == |requests| && forall r :: r in replies ==> !r.Ack? && !r.Offer?
  {
    hide Interface4.Valid;
    hide NetInterface.Full;
    hide Contains;
    var l := i.common.leases[mac];
    var decline := Msg(Decline, mac, Some(l.ip), None, Invalid, "");
    offer := DeclinedIsOfferedNext(i, decline, Always(now, Available), DiscoverFrom(next), Always(now, Available));
    replies := NeverAcknowledged(i, l, next, requests, envs);
  }

  lemma FirstLease(c: NetInterface, macs: seq<Mac>, names: seq<string>, until: int, next: Mac)
    requires LeasedTo(c, macs, until) && Indexed(c, macs, names) && macs != [] && next !in macs
    ensures macs[0] in c.leases && next !in c.leases
    ensures var l := c.leases[macs[0]]; l.ip in c.index.byAddr && c.index.byAddr[l.ip] == l
  {
    assert macs[0] in macs;
  }

  /** A client of a full pool declines its acknowledged address.  The next client
      is offered that address and can never get it: the blocked lease stays in
      the index, so that every DHCPREQUEST is refused or ignored. */
  method DeclinedIsNeverGiven(pool: IpRange, subnet: Prefix, addresses: set<Addr>, ttl: nat, macs: seq<Mac>, names: seq<string>,
                              srv: Addr, now: int, next: Mac, requests: seq<Msg>, envs: seq<Env>)
    returns (i: Interface4, offer: Reply, replies: seq<Reply>)
    requires pool.Plain() && !pool.EndsAtFamilyEnd() && srv in addresses && Specified(srv)
    requires forall ip :: InPool(pool, ip) ==> Contains(subnet, ip)
    requires DifferentMacs(macs) && |macs| == pool.Len() + 1 && |names| == |macs| && DifferentNames(names)
    requires next !in macs && next != BLOCKED
    requires |requests| == |envs| && forall r :: r in requests ==> r.typ.Request? && r.mac == next
    ensures offer.Offer? && |replies| == |requests| && forall r :: r in replies ==> !r.Ack? && !r.Offer?
  {
    hide Interface4.Valid;
    hide NetInterface.Full;
    hide IpRange.Plain;
    hide IpRange.EndsAtFamilyEnd;
    hide IpRange.Len;
    hide DifferentMacs;
    hide DifferentNames;
    hide Specified;
    i := Occupied(pool, subnet, addresses, ttl, macs, names, srv, now);
    var c := i.common;
    hide LeasedTo;
    hide Indexed;
    hide Contains;
    hide InPool;
    FirstLease(c, macs, names, now + ttl, next);
    i.InThePool(macs[0]);
    offer, replies := DeclinedIsRefused(i, macs[0], next, now, requests, envs);
  }
}
