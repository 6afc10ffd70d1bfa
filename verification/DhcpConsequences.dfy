/** Where the allocator falls short of what its documentation promises: states
    that it leaves badly, and runs from an empty interface that lead there. */
module DhcpConsequences {
  import opened DhcpHandlers
  import opened DhcpInterface
  import opened IpRanges
  import opened NetIp
  import opened Wrappers

  ghost predicate AllExpired(c: NetInterface, now: int)
    reads c, c.leases.Values
  {
    c.leases != map[] && forall m :: m in c.leases ==> c.leases[m].Expired(now)
  }

  ghost predicate SharedAddress(c: NetInterface)
    reads c, c.leases.Values
  {
    exists m, n :: m in c.leases && n in c.leases && m != n && c.leases[m].ip == c.leases[n].ip
  }

  lemma SharedRecords(c: NetInterface, m: Mac, n: Mac)
    requires m in c.Ledger().recs && n in c.Ledger().recs && m != n && c.Ledger().recs[m].ip == c.Ledger().recs[n].ip
    ensures SharedAddress(c)
  {
    c.LedgerOf();
    assert c.leases[m].ip == c.leases[n].ip;
  }

  /** In a full pool of expired leases that were offered but never requested, one
      DHCPDISCOVER leaves two clients with one address. */
  method UnrequestedOfferIsShared(i: Interface4, msg: Msg, env: Env)
    requires i.Valid() && i.common.Full() && AllExpired(i.common, env.now)
    requires forall m :: m in i.common.leases ==> !i.common.Committed(i.common.leases[m])
    requires msg.mac !in i.common.leases && forall a :: env.check(0, a) == Available
    modifies i.common`leases, i.common.offsets, i.common.index, i.common.leases.Values
    ensures SharedAddress(i.common)
  {
    hide NetInterface.Sound;
    hide NetInterface.Ledger;
    hide NetInterface.Committed;
    hide SharedAddress;
    var c := i.common;
    ghost var book := c.Ledger();
    c.LedgerOf();
    var m :| m in c.leases;
    assert c.leases[m].Expired(env.now);
    var reply, from := i.HandleDiscover(msg, env);
    assert c.Ledger() == RecycledBook(c.pool, book, msg.mac, from.value, false, Available);
    SharedRecords(c, msg.mac, from.value);
  }

  /** In a full pool of expired leases, a checker that fails once leaves the
      recycled address free although it is on record; the next client gets it too. */
  method FailedCheckIsShared(i: Interface4, first: Msg, env1: Env, second: Msg, env2: Env)
    requires i.Valid() && i.common.Full() && AllExpired(i.common, env1.now)
    requires forall m :: m in i.common.leases ==> i.common.Committed(i.common.leases[m])
    requires first.mac !in i.common.leases && second.mac !in i.common.leases && first.mac != second.mac
    requires (forall a :: env1.check(0, a) == CheckError) && (forall a :: env2.check(0, a) == Available)
    modifies i.common`leases, i.common.offsets, i.common.index, i.common.leases.Values
    ensures SharedAddress(i.common)
  {
    hide NetInterface.Sound;
    hide NetInterface.Ledger;
    hide SharedAddress;
    hide AllExpired;
    var c := i.common;
    ghost var off := FailedCheck(i, first, env1, second.mac);
    ghost var book := c.Ledger();
    c.LedgerOf();
    c.OnlyFree(off);
    var reply, from := i.HandleDiscover(second, env2);
    ghost var k :| TookLowest(c.pool, book, second.mac, env2.check, 0, k, c.Ledger(), if reply.Offer? then Some(reply.yiaddr) else None);
    assert k == off;
    SharedRecords(c, first.mac, second.mac);
  }

  /** After the failed check the address is on record for the new client, and its
      offset is the only clear one. */
  method FailedCheck(i: Interface4, msg: Msg, env: Env, ghost other: Mac) returns (ghost off: nat)
    requires i.Valid() && i.common.Full() && AllExpired(i.common, env.now)
    requires forall m :: m in i.common.leases ==> i.common.Committed(i.common.leases[m])
    requires msg.mac !in i.common.leases && other !in i.common.leases && msg.mac != other
    requires forall a :: env.check(0, a) == CheckError
    modifies i.common`leases, i.common.offsets, i.common.index, i.common.leases.Values
    ensures msg.mac in i.common.leases && other !in i.common.leases
    ensures off <= i.common.pool.Len() && i.common.leases[msg.mac].ip == i.common.pool.At(off)
    ensures forall k: nat :: k <= i.common.pool.Len() ==> (k in i.common.Marks() <==> k != off)
    ensures fresh(i.common.leases.Values - old(i.common.leases.Values))
  {
    hide NetInterface.Sound;
    hide NetInterface.Ledger;
    hide NetInterface.Committed;
    hide NetInterface.Marks;
    var c := i.common;
    ghost var book := c.Ledger();
    c.LedgerOf();
    var m :| m in c.leases;
    assert c.leases[m].Expired(env.now);
    var reply, from := i.HandleDiscover(msg, env);
    c.LedgerOf();
    assert c.Ledger() == RecycledBook(c.pool, book, msg.mac, from.value, true, CheckError);
    off := c.pool.OffsetOrZero(book.recs[from.value].ip);
  }

  /** Declining an address leaves its offset clear; in a full pool it is the only
      one.  The lease is blocked, and is nobody's. */
  method DeclineFrees(i: Interface4, decline: Msg, env: Env) returns (ghost off: nat)
    requires i.Valid() && i.common.Full()
    requires decline.mac in i.common.leases && decline.reqIP == Some(i.common.leases[decline.mac].ip)
    requires Contains(i.subnet, i.common.leases[decline.mac].ip)
    modifies i.common`leases, i.common.offsets, i.common.leases.Values
    ensures i.Valid() && i.common.leases == old(i.common.leases) - {decline.mac}
    ensures !i.common.Full() && forall k: nat :: i.common.LowestFree(k) <==> k == off
    ensures off <= i.common.pool.Len() && Some(i.common.pool.At(off)) == decline.reqIP
    ensures var l := old(i.common.leases)[decline.mac]; l.hwaddr == BLOCKED && l !in i.common.leases.Values
  {
    hide NetInterface.Sound;
    hide NetInterface.Ledger;
    var c := i.common;
    ghost var book, l := c.Ledger(), c.leases[decline.mac];
    c.LedgerOf();
    c.SoundIs();
    c.Keyed();
    OthersElsewhere(c.pool, book, decline.mac);
    off := c.Off(l.ip);
    i.HandleDecline(decline, env);
    assert l !in c.leases.Values;
    c.LedgerOf();
    c.OnlyFree(off);
  }

  /** The declined address is in use elsewhere; in an otherwise full pool the
      next client is offered that very address. */
  method DeclinedIsOfferedNext(i: Interface4, decline: Msg, env1: Env, next: Msg, env2: Env) returns (reply: Reply)
    requires i.Valid() && i.common.Full()
    requires decline.mac in i.common.leases && decline.reqIP == Some(i.common.leases[decline.mac].ip)
    requires Contains(i.subnet, i.common.leases[decline.mac].ip)
    requires next.mac !in i.common.leases && forall a :: env2.check(0, a) == Available
    modifies i.common`leases, i.common.offsets, i.common.leases.Values, i.common.index
    ensures i.Valid() && reply == Offer(decline.reqIP.value, i.common.ttl, "")
    ensures next.mac in i.common.leases && Some(i.common.leases[next.mac].ip) == decline.reqIP
    ensures unchanged(i.common.index) && fresh(i.common.leases.Values - old(i.common.leases.Values))
    ensures var l := old(i.common.leases)[decline.mac]; l.hwaddr == BLOCKED && l !in i.common.leases.Values
  {
    hide NetInterface.Sound;
    hide NetInterface.Ledger;
    hide NetInterface.Full;
    hide NetInterface.LowestFree;
    hide Contains;
    hide TookLowest;
    var c := i.common;
    ghost var off := DeclineFrees(i, decline, env1);
    ghost var book := c.Ledger();
    c.LedgerOf();
    var from;
    reply, from := i.HandleDiscover(next, env2);
    ghost var got := if reply.Offer? then Some(reply.yiaddr) else None;
    ghost var k :| TookLowest(c.pool, book, next.mac, env2.check, 0, k, c.Ledger(), got);
    TookThat(c.pool, book, next.mac, env2.check, k, c.Ledger(), got);
  }

  lemma TookThat(pool: IpRange, b: Book, mac: Mac, check: (nat, Addr) -> Answer, k: nat, b': Book, got: Option<Addr>)
    requires pool.Plain() && TookLowest(pool, b, mac, check, 0, k, b', got) && forall a :: check(0, a) == Available
    ensures LowestClear(pool, b.marked, k) && got == Some(pool.At(k))
  {
  }
}
