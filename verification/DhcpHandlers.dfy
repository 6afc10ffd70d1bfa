/** DHCPv4 message handlers as protocol steps (internal/dhcpsvc/handler4.go,
    v4.go), after section 4.3 of RFC 2131. */
module DhcpHandlers {
  import opened DhcpInterface
  import opened IpRanges
  import opened NetIp
  import opened Wrappers

  datatype MsgType = Discover | Request | Release | Decline

  /** `ciaddr` is the zero address if the field does not hold an IPv4 address. */
  datatype Msg = Msg(
    typ: MsgType,
    mac: Mac,
    reqIP: Option<Addr>,
    srvID: Option<Addr>,
    ciaddr: Addr,
    hostname: string)

  /** What a step depends on besides the message: the clock, whether the
      database can be written, and the address checker's answer to each attempt. */
  datatype Env = Env(now: int, dbOk: bool, check: (nat, Addr) -> Answer)

  datatype Reply =
    | Silent
    | Offer(yiaddr: Addr, leaseTime: int, hostname: string)
    | Ack(yiaddr: Addr, leaseTime: int, hostname: string)
    | Nak

  predicate Specified(ip: Addr) {
    !ip.Invalid? && !ip.IsUnspecified()
  }

  /** Only 0.0.0.0, ::, and no address at all are unspecified. */
  lemma SpecifiedMeans(ip: Addr)
    ensures Specified(ip) <==> match ip case Invalid => false case V4(n) => n != 0 case V6(n, zone) => n != 0 || zone != ""
  {
  }

  /** What a step can see of a lease: its address, when it expires if it does at
      all, and whether the index knows its address and its name. */
  datatype Entry = Entry(ip: Addr, expiry: Option<int>, known: bool)

  /** What a step depends on: the leases on record and whether the pool is full. */
  datatype Snapshot = Snapshot(entries: map<Mac, Entry>, full: bool)

  ghost predicate ExpiredEntry(e: Entry, now: int) {
    e.expiry.Some? && e.expiry.value < now
  }

  /** A lease that cannot be handed over without leaving its address to two
      clients: the index does not know it, or the checker fails on its address. */
  ghost predicate Unsafe(e: Entry, env: Env) {
    !e.known || env.check(0, e.ip) == CheckError
  }

  /** A new client asks while the pool is full and some lease has expired. */
  ghost predicate Recycles(s: Snapshot, msg: Msg, env: Env) {
    && msg.typ.Discover? && msg.mac !in s.entries && s.full
    && exists h :: h in s.entries && ExpiredEntry(s.entries[h], env.now)
  }

  /** `from` is the key of the lease that the message recycles, if it recycles one. */
  ghost predicate RecyclesFrom(s: Snapshot, msg: Msg, env: Env, from: Option<Mac>) {
    && (from.Some? <==> Recycles(s, msg, env))
    && (from.Some? ==> from.value in s.entries && ExpiredEntry(s.entries[from.value], env.now))
  }

  /** The message recycles an unsafe lease. */
  ghost predicate Breaks(s: Snapshot, env: Env, from: Option<Mac>) {
    from.Some? && from.value in s.entries && Unsafe(s.entries[from.value], env)
  }

  /** Whichever expired lease is recycled, it is a safe one. */
  ghost predicate CannotBreak(s: Snapshot, msg: Msg, env: Env) {
    Recycles(s, msg, env) ==> forall h :: h in s.entries && ExpiredEntry(s.entries[h], env.now) ==> !Unsafe(s.entries[h], env)
  }

  /** Whichever expired lease is recycled, it is an unsafe one. */
  ghost predicate MustBreak(s: Snapshot, msg: Msg, env: Env) {
    Recycles(s, msg, env) && forall h :: h in s.entries && ExpiredEntry(s.entries[h], env.now) ==> Unsafe(s.entries[h], env)
  }

  /** Nobody's lease changes but the client's own and the recycled one. */
  ghost predicate OthersKept(s: Snapshot, mac: Mac, from: Option<Mac>, s': Snapshot) {
    && (forall m :: m in s'.entries && m != mac ==> m in s.entries && s'.entries[m].ip == s.entries[m].ip)
    && (forall m :: m in s.entries && m != mac && Some(m) != from ==> m in s'.entries)
  }

  /** A lease that is on record afterwards runs from now, or as long as before. */
  ghost predicate KeepsTime(s: Snapshot, s': Snapshot, until: int) {
    forall m :: m in s'.entries ==>
                  s'.entries[m].expiry == Some(until) || (m in s.entries && s'.entries[m].expiry == s.entries[m].expiry)
  }

  /** No lease runs out before the end, counting from the message i on. */
  ghost predicate Outlasts(s: Snapshot, envs: seq<Env>, i: nat) {
    forall m, j :: m in s.entries && i <= j < |envs| && s.entries[m].expiry.Some? ==> envs[j].now <= s.entries[m].expiry.value
  }

  /** All messages come within the lease time of each other. */
  ghost predicate Within(envs: seq<Env>, ttl: nat) {
    forall i, j :: 0 <= i < j < |envs| ==> envs[j].now <= envs[i].now + ttl
  }

  lemma OutlastsStep(s: Snapshot, s': Snapshot, envs: seq<Env>, i: nat, ttl: nat)
    requires i < |envs| && Outlasts(s, envs, i) && Within(envs, ttl) && KeepsTime(s, s', envs[i].now + ttl)
    ensures Outlasts(s', envs, i + 1)
  {
  }

  /** The hardware addresses that the messages come from. */
  ghost function Clients(msgs: seq<Msg>): set<Mac> {
    set i | 0 <= i < |msgs| :: msgs[i].mac
  }

  /** What each message of a run comes to. */
  ghost predicate StepOk(s: Snapshot, msg: Msg, env: Env, reply: Reply, from: Option<Mac>, s': Snapshot) {
    GivesRecorded(s', msg.mac, reply) && RecyclesFrom(s, msg, env, from) && OthersKept(s, msg.mac, from, s')
  }

  /** The history of a run: what was on record before, between and after the
      messages, the replies, and the leases that were recycled. */
  datatype History = History(snaps: seq<Snapshot>, replies: seq<Reply>, froms: seq<Option<Mac>>)

  /** Each message does what it should, none before the last recycles an unsafe
      lease, and no two clients share an address before the last message. */
  ghost predicate SafeUpTo(h: History, msgs: seq<Msg>, envs: seq<Env>) {
    && Lengths(h, envs) && |msgs| == |envs|
    && (forall i :: 0 <= i < |h.replies| ==> StepOk(h.snaps[i], msgs[i], envs[i], h.replies[i], h.froms[i], h.snaps[i + 1]))
    && (forall i :: 0 <= i < |h.replies| - 1 ==> !Breaks(h.snaps[i], envs[i], h.froms[i]))
    && (forall i :: 0 <= i < |h.replies| ==> Distinct(h.snaps[i]))
  }

  ghost predicate Lengths(h: History, envs: seq<Env>) {
    |h.snaps| == |h.replies| + 1 && |h.froms| == |h.replies| <= |envs|
  }

  /** The last message recycled an unsafe lease. */
  ghost predicate Broken(h: History, envs: seq<Env>) {
    var n := |h.replies|;
    Lengths(h, envs) && n > 0 && Breaks(h.snaps[n - 1], envs[n - 1], h.froms[n - 1])
  }

  /** The history of a run that has got to the message i, and to what is now on
      record. */
  ghost predicate GotTo(h: History, msgs: seq<Msg>, envs: seq<Env>, i: nat, first: Snapshot, now: Snapshot) {
    SafeUpTo(h, msgs, envs) && |h.replies| == i && h.snaps[0] == first && h.snaps[i] == now
  }

  ghost function Extended(h: History, reply: Reply, from: Option<Mac>, s: Snapshot): History {
    History(h.snaps + [s], h.replies + [reply], h.froms + [from])
  }

  lemma Extend(h: History, msgs: seq<Msg>, envs: seq<Env>, i: nat, first: Snapshot, s: Snapshot,
               reply: Reply, from: Option<Mac>, s': Snapshot)
    requires GotTo(h, msgs, envs, i, first, s) && !Broken(h, envs)
    requires i < |msgs| && Distinct(s) && StepOk(s, msgs[i], envs[i], reply, from, s')
    ensures GotTo(Extended(h, reply, from, s'), msgs, envs, i + 1, first, s')
    ensures Broken(Extended(h, reply, from, s'), envs) <==> Breaks(s, envs[i], from)
  {
    hide StepOk;
    hide Distinct;
    hide Breaks;
  }

  ghost predicate Distinct(s: Snapshot) {
    forall m, n | m in s.entries && n in s.entries && m != n :: s.entries[m].ip != s.entries[n].ip
  }

  /** An offered or acknowledged address is the one on record for the client. */
  ghost predicate GivesRecorded(s: Snapshot, mac: Mac, reply: Reply) {
    reply.Offer? || reply.Ack? ==> mac in s.entries && s.entries[mac].ip == reply.yiaddr
  }

  class Interface4 {
    const common: NetInterface
    const subnet: Prefix
    const addresses: set<Addr>

    constructor (common: NetInterface, subnet: Prefix, addresses: set<Addr>)
      ensures this.common == common && this.subnet == subnet && this.addresses == addresses
    {
      this.common, this.subnet, this.addresses := common, subnet, addresses;
    }

    ghost predicate Valid()
      reads common, common.leases.Values, common.offsets
    {
      common.PoolOk() && common.Sound()
    }

    ghost function Expiry(l: Lease): Option<int>
      reads l
    {
      if l.isStatic then None else Some(l.expiry)
    }

    ghost function EntryOf(l: Lease): Entry
      reads common, common.index, l
    {
      Entry(l.ip, Expiry(l), common.Committed(l))
    }

    ghost function Snap(): Snapshot
      requires common.PoolOk()
      reads common, common.index, common.offsets, common.leases.Values
    {
      Snapshot(map m | m in common.leases :: EntryOf(common.leases[m]), common.Full())
    }

    /** The reply gives out the address recorded for the client. */
    ghost predicate Recorded(mac: Mac, reply: Reply)
      reads common, common.leases.Values
    {
      reply.Offer? || reply.Ack? ==> mac in common.leases && common.leases[mac].ip == reply.yiaddr
    }

    function LeaseTime(l: Lease, now: int): int
      reads l
    {
      if l.isStatic then common.ttl else l.expiry - now
    }

    /** A known client gets its own address.  A new one gets what an allocation
        comes to; the invariant survives exactly if that recycles no lease, or one
        that the index knows and the checker does not fail on. */
    method HandleDiscover(msg: Msg, env: Env) returns (reply: Reply, from: Option<Mac>)
      requires common.PoolOk()
      modifies common`leases, common.offsets, common.index, common.leases.Values
      ensures Recorded(msg.mac, reply) && (reply.Offer? || reply.Silent?)
      ensures msg.mac in old(common.leases) ==>
                var l := old(common.leases)[msg.mac];
                && from.None? && common.leases == old(common.leases) && common.Ledger() == old(common.Ledger())
                && unchanged(common.index) && unchanged(common.offsets)
                && l.expiry == (if l.isStatic || env.now < old(l.expiry) then old(l.expiry) else env.now + common.ttl)
                && reply == Offer(l.ip, if l.isStatic then common.ttl else l.expiry - env.now, l.hostname)
                && l.hostname == old(l.hostname) && l.isStatic == old(l.isStatic) && l.hwaddr == old(l.hwaddr)
      ensures msg.mac !in old(common.leases) ==>
                && (from.Some? <==> old(common.Full()) && old(common.SomeExpired(env.now)))
                && (from.Some? ==> from.value in old(common.leases) && old(common.leases[from.value].Expired(env.now)))
                && (reply.Offer? ==> && reply == Offer(common.leases[msg.mac].ip, common.ttl, "")
                                     && common.leases[msg.mac].hwaddr == msg.mac && common.leases[msg.mac].hostname == ""
                                     && Expiry(common.leases[msg.mac]) == Some(env.now + common.ttl))
      ensures msg.mac !in old(common.leases) && (from.None? || old(common.Sound())) ==>
                Allocated(common.pool, old(common.Ledger()), msg.mac, env.check, 0, from,
                          from.Some? && old(common.Committed(common.leases[from.value])), common.Ledger(),
                          if reply.Offer? then Some(reply.yiaddr) else None)
      ensures msg.mac !in old(common.leases) && from.None? ==>
                && unchanged(common.index) && (forall l | l in old(common.leases.Values) :: unchanged(l))
                && (reply.Offer? ==> fresh(common.leases[msg.mac]))
                && common.leases == if reply.Offer? then old(common.leases)[msg.mac := common.leases[msg.mac]] else old(common.leases)
      ensures from.Some? && old(common.Sound()) && env.check(0, old(common.leases)[from.value].ip) == Unavailable ==>
                (reply.Offer? <==> env.dbOk && env.check(1, old(common.leases)[from.value].ip) == Available)
      ensures forall m :: m in common.leases ==> common.leases[m] in old(common.leases.Values) || fresh(common.leases[m])
      ensures forall l | l in old(common.leases.Values) && (from.Some? ==> l != old(common.leases)[from.value])
                         && (msg.mac in old(common.leases) ==> l != old(common.leases)[msg.mac]) :: unchanged(l)
      ensures old(common.Sound()) ==>
                (common.Sound() <==> from.None? || (&& old(common.Committed(common.leases[from.value]))
                                                    && env.check(0, old(common.leases)[from.value].ip) != CheckError))
    {
      hide NetInterface.Sound;
      hide NetInterface.Ledger;
      hide NetInterface.Committed;
      hide NetInterface.Full;
      hide NetInterface.SomeExpired;
      hide SoundBook;
      hide Allocated;
      hide Lease.Expired;
      ghost var ls, book := common.leases, common.Ledger();
      common.LedgerOf();
      common.SoundIs();
      if msg.mac in common.leases {
        var lease := common.leases[msg.mac];
        lease.UpdateExpiry(env.now, common.ttl);
        common.LedgerSame(ls, book);
        common.SoundIs();
        return Offer(lease.ip, LeaseTime(lease, env.now), lease.hostname), None;
      }
      var r;
      r, from := common.AllocateLoop(msg.mac, env.check, env.now, env.dbOk);
      common.SoundIs();
      if old(common.Sound()) {
        AllocatedSound(common.pool, book, msg.mac, env.check, 0, from, from.Some? && old(common.Committed(common.leases[from.value])),
                       common.Ledger(), if r.Some? then Some(r.value.ip) else None);
      }
      if r.None? {
        return Silent, from;
      }
      return Offer(r.value.ip, LeaseTime(r.value, env.now), r.value.hostname), from;
    }

    /** The index has the address or the name under another hardware address. */
    ghost predicate HeldByOther(mac: Mac, ip: Addr, hostname: string)
      reads common.index, common.index.byAddr.Values, common.index.byName.Values
    {
      var idx := common.index;
      || (ip in idx.byAddr && idx.byAddr[ip].hwaddr != mac)
      || (ToLower(hostname) in idx.byName && idx.byName[ToLower(hostname)].hwaddr != mac)
    }

    /** Writes the host name into the lease, then updates the index.  The name
        stays even if the index refuses it; the expiry is never prolonged. */
    method Commit(lease: Lease, hostname: string, env: Env) returns (reply: Reply)
      requires Valid() && lease.hwaddr in common.leases && common.leases[lease.hwaddr] == lease
      modifies lease`hostname, common.index, common`leases
      ensures Valid() && common.leases == old(common.leases) && common.Ledger() == old(common.Ledger())
      ensures lease.hostname == hostname
      ensures reply == if !old(HeldByOther(lease.hwaddr, lease.ip, hostname)) && env.dbOk
                       then Ack(lease.ip, if lease.isStatic then common.ttl else lease.expiry - env.now, hostname) else Nak
      ensures common.index.byAddr == if reply.Ack? then old(common.index.byAddr)[lease.ip := lease] else old(common.index.byAddr)
      ensures common.index.byName == if reply.Ack? then old(common.index.byName)[ToLower(hostname) := lease] else old(common.index.byName)
    {
      hide NetInterface.Ledger;
      hide SoundBook;
      ghost var ls, book := common.leases, common.Ledger();
      common.LedgerOf();
      lease.hostname := hostname;
      assert ls[lease.hwaddr := lease] == ls;
      var ok := common.IndexUpdate(lease, env.dbOk);
      common.LedgerSame(ls, book);
      if !ok {
        return Nak;
      }
      return Ack(lease.ip, LeaseTime(lease, env.now), lease.hostname);
    }

    /** The common end of the three request handlers: `refusal` is the answer to
        a client without a lease, `keepName` says whether a message without a
        host name leaves the lease's own. */
    method Settle(msg: Msg, env: Env, ip: Addr, refusal: Reply, keepName: bool) returns (reply: Reply)
      requires Valid() && (refusal.Nak? || refusal.Silent?)
      modifies common`leases, common.index, common.leases.Values
      ensures Valid() && common.leases == old(common.leases) && common.Ledger() == old(common.Ledger())
      ensures msg.mac !in old(common.leases) ==> reply == refusal
      ensures msg.mac in old(common.leases) && old(common.leases)[msg.mac].ip != ip ==> reply == Nak
      ensures msg.mac in old(common.leases) && old(common.leases)[msg.mac].ip == ip ==>
                var l := old(common.leases)[msg.mac];
                var name := if keepName && msg.hostname == "" then old(l.hostname) else msg.hostname;
                && l.hostname == name
                && reply == if !old(HeldByOther(msg.mac, ip, name)) && env.dbOk
                            then Ack(ip, if l.isStatic then common.ttl else l.expiry - env.now, name) else Nak
      ensures !(msg.mac in old(common.leases) && old(common.leases)[msg.mac].ip == ip) ==>
                forall l | l in old(common.leases.Values) :: unchanged(l)
      ensures reply.Ack? ==>
                && common.index.byAddr == old(common.index.byAddr)[ip := common.leases[msg.mac]]
                && common.index.byName == old(common.index.byName)[ToLower(reply.hostname) := common.leases[msg.mac]]
      ensures !reply.Ack? ==> common.index.byAddr == old(common.index.byAddr) && common.index.byName == old(common.index.byName)
      ensures forall l | l in old(common.leases.Values) ::
                l.hwaddr == old(l.hwaddr) && l.expiry == old(l.expiry) && l.isStatic == old(l.isStatic)
      ensures forall l | l in old(common.leases.Values) && l.hwaddr != msg.mac :: unchanged(l)
    {
      hide NetInterface.Ledger;
      hide SoundBook;
      if msg.mac !in common.leases {
        return refusal;
      }
      var lease := common.leases[msg.mac];
      if lease.ip != ip {
        return Nak;
      }
      common.Keyed();
      var name := if keepName && msg.hostname == "" then lease.hostname else msg.hostname;
      reply := Commit(lease, name, env);
    }

    /** `claimed` is the address that the client's lease has to have: none if the
        message is for another server, contradicts itself, or is from the wrong
        network.  Then, and if the client has no such lease, nothing changes.
        Else the name is written, and the lease is acknowledged and indexed
        unless the index has its address or the name for someone else. */
    method HandleRequest(msg: Msg, env: Env) returns (reply: Reply, ghost claimed: Option<Addr>)
      requires Valid()
      modifies common`leases, common.index, common.leases.Values
      ensures Valid() && common.Ledger() == old(common.Ledger()) && Recorded(msg.mac, reply)
      ensures common.leases == old(common.leases) && !reply.Offer?
      // To which server, from which state of section 4.3.2, and for which address.
      ensures msg.srvID.Some? && Specified(msg.srvID.value) ==>
                claimed == if msg.srvID.value in addresses && !Specified(msg.ciaddr)
                           then Some(if msg.reqIP.Some? then msg.reqIP.value else Invalid) else None
      ensures !(msg.srvID.Some? && Specified(msg.srvID.value)) && msg.reqIP.Some? && Specified(msg.reqIP.value) ==>
                claimed == if Contains(subnet, msg.reqIP.value) && !Specified(msg.ciaddr) then msg.reqIP else None
      ensures !(msg.srvID.Some? && Specified(msg.srvID.value)) && !(msg.reqIP.Some? && Specified(msg.reqIP.value)) ==>
                claimed == if msg.ciaddr.V4? && Contains(subnet, msg.ciaddr) then Some(msg.ciaddr) else None
      // Only a request for an address of another network is refused; the rest is ignored.
      ensures claimed.None? ==>
                reply == if !(msg.srvID.Some? && Specified(msg.srvID.value))
                            && msg.reqIP.Some? && Specified(msg.reqIP.value) && !Contains(subnet, msg.reqIP.value)
                         then Nak else Silent
      // A client that selects needs a lease; one that verifies or extends may be unknown.
      ensures claimed.Some? && msg.mac !in old(common.leases) ==>
                reply == if msg.srvID.Some? && Specified(msg.srvID.value) then Nak else Silent
      ensures claimed.Some? && msg.mac in old(common.leases) && old(common.leases)[msg.mac].ip != claimed.value ==> reply == Nak
      ensures claimed.Some? && msg.mac in old(common.leases) && old(common.leases)[msg.mac].ip == claimed.value ==>
                var l := old(common.leases)[msg.mac];
                var name := if msg.hostname != "" || (msg.srvID.Some? && Specified(msg.srvID.value)) then msg.hostname
                            else old(l.hostname);
                && l.hostname == name
                && reply == if || !env.dbOk
                               || old(l.ip in common.index.byAddr && common.index.byAddr[l.ip].hwaddr != msg.mac)
                               || old(ToLower(name) in common.index.byName && common.index.byName[ToLower(name)].hwaddr != msg.mac)
                            then Nak
                            else Ack(l.ip, if l.isStatic then common.ttl else l.expiry - env.now, name)
      ensures reply.Ack? ==>
                && msg.mac in old(common.leases)
                && common.index.byAddr == old(common.index.byAddr)[reply.yiaddr := old(common.leases)[msg.mac]]
                && common.index.byName == old(common.index.byName)[ToLower(reply.hostname) := old(common.leases)[msg.mac]]
      ensures !reply.Ack? ==> common.index.byAddr == old(common.index.byAddr) && common.index.byName == old(common.index.byName)
      ensures !(claimed.Some? && msg.mac in old(common.leases) && old(common.leases)[msg.mac].ip == claimed.value) ==>
                forall l | l in old(common.leases.Values) :: unchanged(l)
      ensures forall l | l in old(common.leases.Values) ::
                l.hwaddr == old(l.hwaddr) && l.expiry == old(l.expiry) && l.isStatic == old(l.isStatic)
      ensures forall l | l in old(common.leases.Values) && l.hwaddr != msg.mac :: unchanged(l)
    {
      hide NetInterface.Ledger;
      hide SoundBook;
      claimed := None;
      if msg.srvID.Some? && Specified(msg.srvID.value) {
        if msg.srvID.value !in addresses || Specified(msg.ciaddr) {
          return Silent, None;
        }
        var ip := if msg.reqIP.Some? then msg.reqIP.value else Invalid;
        claimed := Some(ip);
        reply := Settle(msg, env, ip, Nak, false);
      } else if msg.reqIP.Some? && Specified(msg.reqIP.value) {
        if !Contains(subnet, msg.reqIP.value) {
          return Nak, None;
        }
        if Specified(msg.ciaddr) {
          return Silent, None;
        }
        claimed := msg.reqIP;
        reply := Settle(msg, env, msg.reqIP.value, Silent, true);
      } else {
        if !msg.ciaddr.Is4() || !Contains(subnet, msg.ciaddr) {
          return Silent, None;
        }
        claimed := Some(msg.ciaddr);
        reply := Settle(msg, env, msg.ciaddr, Silent, true);
      }
    }

    /** DHCPDECLINE.  Blocking a lease clears its offset, so the address is the
        allocator's again at once. */
    method HandleDecline(msg: Msg, env: Env)
      requires Valid()
      modifies common`leases, common.offsets, common.leases.Values
      ensures Valid()
      ensures var hit := msg.reqIP.Some? && Contains(subnet, msg.reqIP.value)
                         && msg.mac in old(common.leases) && old(common.leases)[msg.mac].ip == msg.reqIP.value;
              && common.leases == (if hit then old(common.leases) - {msg.mac} else old(common.leases))
              && (hit ==> var l := old(common.leases)[msg.mac];
                          && common.Ledger() == ReleasedBook(common.pool, old(common.Ledger()), msg.mac)
                          && l.hwaddr == [0, 0, 0, 0, 0, 0] && l.hostname == "" && l.expiry == env.now + common.ttl && !l.isStatic)
              && (!hit ==> common.Ledger() == old(common.Ledger()) && forall l | l in old(common.leases.Values) :: unchanged(l))
      ensures forall l | l in old(common.leases.Values) && old(l.hwaddr) != msg.mac :: unchanged(l)
    {
      hide NetInterface.Sound;
      hide NetInterface.Ledger;
      hide SoundBook;
      ghost var ls, book := common.leases, common.Ledger();
      common.LedgerOf();
      common.SoundIs();
      common.Keyed();
      if msg.reqIP.None? || !Contains(subnet, msg.reqIP.value) || msg.mac !in common.leases {
        return;
      }
      var lease := common.leases[msg.mac];
      if lease.ip != msg.reqIP.value {
        return;
      }
      ReleaseKeepsSound(common.pool, book, msg.mac);
      var ok := common.BlockLease(lease, env.now, env.dbOk);
      common.LedgerAfterRemoval(ls, book, msg.mac);
      common.SoundIs();
    }

    /** DHCPRELEASE (section 4.3.4): only a lease that the index knows is given up. */
    method HandleRelease(msg: Msg)
      requires Valid()
      modifies common`leases, common.offsets, common.index
      ensures Valid()
      ensures var hit := Contains(subnet, msg.ciaddr)
                         && msg.mac in old(common.leases) && old(common.leases)[msg.mac].ip == msg.ciaddr
                         && old(msg.ciaddr in common.index.byAddr && ToLower(common.leases[msg.mac].hostname) in common.index.byName);
              && common.leases == (if hit then old(common.leases) - {msg.mac} else old(common.leases))
              && (hit ==> && common.Ledger() == ReleasedBook(common.pool, old(common.Ledger()), msg.mac)
                          && common.index.byAddr == old(common.index.byAddr) - {msg.ciaddr}
                          && common.index.byName == old(common.index.byName) - {ToLower(old(common.leases)[msg.mac].hostname)})
              && (!hit ==> && common.Ledger() == old(common.Ledger())
                           && common.index.byAddr == old(common.index.byAddr) && common.index.byName == old(common.index.byName))
    {
      hide NetInterface.Sound;
      hide NetInterface.Ledger;
      hide SoundBook;
      ghost var ls, book := common.leases, common.Ledger();
      common.LedgerOf();
      common.SoundIs();
      common.Keyed();
      if !Contains(subnet, msg.ciaddr) || msg.mac !in common.leases {
        return;
      }
      var lease := common.leases[msg.mac];
      if lease.ip != msg.ciaddr {
        return;
      }
      ReleaseKeepsSound(common.pool, book, msg.mac);
      var removed := common.IndexRemove(lease);
      if removed {
        common.LedgerAfterRemoval(ls, book, msg.mac);
      } else {
        common.LedgerSame(ls, book);
      }
      common.SoundIs();
    }

    ghost predicate SeenAs(e: Entry, l: Lease)
      reads common, common.index, l
    {
      e.ip == l.ip && e.expiry == Expiry(l) && e.known == common.Committed(l)
    }

    lemma SnapOf()
      requires common.PoolOk()
      ensures Snap().entries.Keys == common.leases.Keys && Snap().full == common.Full()
      ensures forall m :: m in common.leases ==> SeenAs(Snap().entries[m], common.leases[m])
    {
    }

    /** Whether a new client's message recycles, in terms of the leases. */
    lemma NewRecycles(msg: Msg, env: Env)
      requires common.PoolOk() && msg.typ.Discover? && msg.mac !in common.leases
      ensures Recycles(Snap(), msg, env) <==> common.Full() && common.SomeExpired(env.now)
      ensures forall m :: m in common.leases ==> (ExpiredEntry(Snap().entries[m], env.now) <==> common.leases[m].Expired(env.now))
    {
      hide NetInterface.Full;
      if common.SomeExpired(env.now) {
        var m :| m in common.leases && common.leases[m].Expired(env.now);
        assert ExpiredEntry(Snap().entries[m], env.now);
      }
    }

    /** One message.  What it offers or acknowledges is on record, nobody else's
        lease changes, and the invariant survives exactly if the message does not
        recycle an unsafe lease.  As any expired lease may be the one, there is
        a condition under which none breaks it and one under which each does. */
    method Handle(msg: Msg, env: Env) returns (reply: Reply, from: Option<Mac>)
      requires Valid()
      modifies common`leases, common.offsets, common.index, common.leases.Values
      ensures GivesRecorded(Snap(), msg.mac, reply)
      ensures RecyclesFrom(old(Snap()), msg, env, from)
      ensures Valid() <==> !Breaks(old(Snap()), env, from)
      ensures (CannotBreak(old(Snap()), msg, env) ==> Valid()) && (MustBreak(old(Snap()), msg, env) ==> !Valid())
      ensures OthersKept(old(Snap()), msg.mac, from, Snap())
      ensures from.None? ==> KeepsTime(old(Snap()), Snap(), env.now + common.ttl)
      ensures fresh(common.leases.Values - old(common.leases.Values))
    {
      hide Interface4.Snap;
      hide Interface4.Valid;
      hide OthersKept;
      hide KeepsTime;
      PoolIsOk();
      ghost var s := Snap();
      reply, from := Silent, None;
      match msg.typ
      case Discover =>
        if msg.mac in common.leases {
          reply := OnKnown(msg, env);
        } else {
          ghost var after;
          reply, from, after := OnNewTimed(msg, env, s);
        }
      case Request => reply := OnRequest(msg, env);
      case Release => OnRelease(msg, env.now + common.ttl);
      case Decline => OnDecline(msg, env, env.now + common.ttl);
    }

    method OnKnown(msg: Msg, env: Env) returns (reply: Reply)
      requires Valid() && msg.mac in common.leases
      modifies common`leases, common.offsets, common.index, common.leases.Values
      ensures Valid() && GivesRecorded(Snap(), msg.mac, reply) && RecyclesFrom(old(Snap()), msg, env, None)
      ensures OthersKept(old(Snap()), msg.mac, None, Snap()) && KeepsTime(old(Snap()), Snap(), env.now + common.ttl)
      ensures common.leases == old(common.leases)
    {
      hide NetInterface.Sound;
      hide NetInterface.Ledger;
      hide NetInterface.Committed;
      hide NetInterface.Full;
      hide NetInterface.SomeExpired;
      hide Allocated;
      hide Interface4.Snap;
      hide Interface4.EntryOf;
      SnapOf();
      assert forall m :: m in common.leases ==> common.leases[m] in common.leases.Values;
      var from;
      reply, from := HandleDiscover(msg, env);
      SnapOf();
    }

    /** What the steps below need of a new client's DHCPDISCOVER. */
    method OnNew(msg: Msg, env: Env, ghost s: Snapshot) returns (reply: Reply, from: Option<Mac>, ghost s': Snapshot)
      requires Valid() && msg.mac !in common.leases && s == Snap()
      modifies common`leases, common.offsets, common.index, common.leases.Values
      ensures s' == Snap() && OthersKept(s, msg.mac, from, s') && Recorded(msg.mac, reply)
      ensures from.Some? <==> old(common.Full()) && old(common.SomeExpired(env.now))
      ensures from.Some? ==> from.value in old(common.leases) && old(common.leases[from.value].Expired(env.now))
      ensures Valid() <==> from.None? || (&& old(common.Committed(common.leases[from.value]))
                                          && env.check(0, old(common.leases)[from.value].ip) != CheckError)
      ensures reply.Offer? ==> msg.mac in common.leases && Expiry(common.leases[msg.mac]) == Some(env.now + common.ttl)
      ensures from.None? ==>
                && common.leases == (if reply.Offer? then old(common.leases)[msg.mac := common.leases[msg.mac]] else old(common.leases))
                && forall l | l in old(common.leases.Values) :: unchanged(l)
      ensures forall m :: m in common.leases ==> common.leases[m] in old(common.leases.Values) || fresh(common.leases[m])
    {
      hide NetInterface.Sound;
      hide NetInterface.Ledger;
      hide NetInterface.Committed;
      hide NetInterface.Full;
      hide NetInterface.SomeExpired;
      hide Allocated;
      hide Interface4.Snap;
      hide Interface4.EntryOf;
      hide Lease.Expired;
      hide OthersKept;
      hide IpRange.Plain;
      hide Contains;
      ghost var book := common.Ledger();
      SnapOf();
      common.LedgerOf();
      assert forall m :: m in common.leases ==> common.leases[m] in common.leases.Values;
      reply, from := HandleDiscover(msg, env);
      s' := Snap();
      SnapOf();
      common.LedgerOf();
      AllocatedOthers(common.pool, book, msg.mac, env.check, 0, from, from.Some? && old(common.Committed(common.leases[from.value])),
                      common.Ledger(), if reply.Offer? then Some(reply.yiaddr) else None);
      SnapFromLedger(s, book, msg.mac, from);
    }

    method OnNewTimed(msg: Msg, env: Env, ghost s: Snapshot) returns (reply: Reply, from: Option<Mac>, ghost s': Snapshot)
      requires Valid() && msg.mac !in common.leases && msg.typ.Discover? && s == Snap()
      modifies common`leases, common.offsets, common.index, common.leases.Values
      ensures s' == Snap() && GivesRecorded(s', msg.mac, reply)
      ensures RecyclesFrom(s, msg, env, from)
      ensures Valid() <==> !Breaks(s, env, from)
      ensures OthersKept(s, msg.mac, from, s')
      ensures from.None? ==> KeepsTime(s, s', env.now + common.ttl)
      ensures fresh(common.leases.Values - old(common.leases.Values))
    {
      hide Interface4.Valid;
      hide Interface4.Snap;
      hide NetInterface.PoolOk;
      hide NetInterface.Committed;
      hide NetInterface.Full;
      hide NetInterface.SomeExpired;
      hide Lease.Expired;
      hide ExpiredEntry;
      hide Recycles;
      hide KeepsTime;
      hide OthersKept;
      ghost var ls := common.leases;
      PoolIsOk();
      SnapOf();
      NewRecycles(msg, env);
      assert forall m :: m in ls ==> s.entries[m].expiry == Expiry(ls[m]) && ls[m] in ls.Values;
      reply, from, s' := OnNew(msg, env, s);
      SnapOf();
      if from.None? {
        forall m | m in ls ensures s.entries[m].expiry == Expiry(ls[m]) {
          assert ls[m] in old(common.leases.Values) && unchanged(ls[m]);
        }
        SnapKeepsTime(s, ls, msg.mac, env.now + common.ttl);
      }
    }

    lemma SnapKeepsTime(s: Snapshot, ls: map<Mac, Lease>, mac: Mac, until: int)
      requires common.PoolOk() && forall m :: m in ls ==> m in s.entries && s.entries[m].expiry == Expiry(ls[m])
      requires common.leases == ls || (mac in common.leases && common.leases == ls[mac := common.leases[mac]])
      requires mac in common.leases ==> Expiry(common.leases[mac]) == Some(until)
      ensures KeepsTime(s, Snap(), until)
    {
    }

    lemma SnapFromLedger(s: Snapshot, b: Book, mac: Mac, from: Option<Mac>)
      requires common.PoolOk() && s.entries.Keys == b.recs.Keys && forall m :: m in b.recs ==> s.entries[m].ip == b.recs[m].ip
      requires forall m :: m in common.Ledger().recs && m != mac ==> m in b.recs && common.Ledger().recs[m].ip == b.recs[m].ip
      requires forall m :: m in b.recs && m != mac && Some(m) != from ==> m in common.Ledger().recs
      ensures OthersKept(s, mac, from, Snap())
    {
    }

    method OnRequest(msg: Msg, env: Env) returns (reply: Reply)
      requires Valid()
      modifies common`leases, common.index, common.leases.Values
      ensures Valid() && GivesRecorded(Snap(), msg.mac, reply)
      ensures OthersKept(old(Snap()), msg.mac, None, Snap()) && KeepsTime(old(Snap()), Snap(), env.now + common.ttl)
      ensures common.leases == old(common.leases)
    {
      hide NetInterface.Sound;
      hide NetInterface.Committed;
      hide NetInterface.Full;
      hide Interface4.Snap;
      hide Interface4.EntryOf;
      SnapOf();
      assert forall m :: m in common.leases ==> common.leases[m] in common.leases.Values;
      ghost var claimed;
      reply, claimed := HandleRequest(msg, env);
      SnapOf();
    }

    method OnRelease(msg: Msg, until: int)
      requires Valid()
      modifies common`leases, common.offsets, common.index
      ensures Valid() && OthersKept(old(Snap()), msg.mac, None, Snap())
      ensures KeepsTime(old(Snap()), Snap(), until)
      ensures common.leases.Values <= old(common.leases.Values)
    {
      hide NetInterface.Sound;
      hide NetInterface.Committed;
      hide NetInterface.Full;
      hide Interface4.Snap;
      hide Interface4.EntryOf;
      SnapOf();
      HandleRelease(msg);
      SnapOf();
    }

    method OnDecline(msg: Msg, env: Env, until: int)
      requires Valid()
      modifies common`leases, common.offsets, common.leases.Values
      ensures Valid() && OthersKept(old(Snap()), msg.mac, None, Snap())
      ensures KeepsTime(old(Snap()), Snap(), until)
      ensures common.leases.Values <= old(common.leases.Values)
    {
      hide NetInterface.Sound;
      hide NetInterface.Committed;
      hide NetInterface.Full;
      hide Interface4.Snap;
      hide Interface4.EntryOf;
      common.Keyed();
      SnapOf();
      assert forall m :: m in common.leases ==> common.leases[m] in common.leases.Values;
      HandleDecline(msg, env);
      SnapOf();
    }

    /** Under the invariant no two clients have the same address on record, and
        the pool is full exactly if there are as many leases as addresses. */
    lemma SoundSnap()
      requires Valid()
      ensures Distinct(Snap()) && Snap().full == (|Snap().entries| == common.pool.Len() + 1)
    {
      SnapOf();
      common.LedgerOf();
      common.SoundIs();
      Capacity(common.pool, common.Ledger());
      hide Interface4.Snap;
      hide NetInterface.Full;
      assert |Snap().entries.Keys| == |common.Ledger().recs.Keys|;
      forall m, n | m in Snap().entries && n in Snap().entries && m != n ensures Snap().entries[m].ip != Snap().entries[n].ip {
        assert common.Ledger().recs[m].ip != common.Ledger().recs[n].ip;
      }
    }

    lemma PoolIsOk()
      requires Valid()
      ensures common.PoolOk() && Snap().entries.Keys == common.leases.Keys
    {
    }

    /** The pool is full exactly if there are as many leases as addresses. */
    lemma Room()
      requires Valid()
      ensures common.Full() <==> |common.leases| == common.pool.Len() + 1
    {
      common.LedgerOf();
      common.SoundIs();
      Capacity(common.pool, common.Ledger());
      hide NetInterface.Full;
      assert |common.leases.Keys| == |common.Ledger().recs.Keys|;
    }

    lemma InThePool(m: Mac)
      requires Valid() && m in common.leases
      ensures InPool(common.pool, common.leases[m].ip)
    {
      common.LedgerOf();
    }

    /** No two leases have the same address, and each is under its own key. */
    lemma Apart()
      requires Valid()
      ensures forall m, n :: m in common.leases && n in common.leases && m != n ==> common.leases[m].ip != common.leases[n].ip
      ensures forall m :: m in common.leases ==> common.leases[m].hwaddr == m
    {
      common.LedgerOf();
      common.Keyed();
      forall m, n | m in common.leases && n in common.leases && m != n ensures common.leases[m].ip != common.leases[n].ip {
        assert common.Ledger().recs[m].ip != common.Ledger().recs[n].ip;
      }
    }

    /** While the clients fit the pool, nothing has to be recycled. */
    lemma Fitting(clients: set<Mac>, msg: Msg, env: Env)
      requires Valid() && msg.mac in clients && Snap().entries.Keys <= clients && |clients| <= common.pool.Len() + 1
      ensures !Recycles(Snap(), msg, env)
    {
      hide Interface4.Snap;
      hide Distinct;
      hide NetInterface.Sound;
      hide ExpiredEntry;
      SoundSnap();
      var keys := Snap().entries.Keys;
      assert |keys| == |Snap().entries|;
      if msg.mac !in keys {
        FullSubset(keys, clients - {msg.mac});
      }
    }

    /** A message of a run.  `safe` tells whether the run can go on. */
    method RunOne(msg: Msg, envs: seq<Env>, i: nat, ghost s: Snapshot)
      returns (reply: Reply, from: Option<Mac>, safe: bool, ghost s': Snapshot)
      requires i < |envs| && Valid() && s == Snap()
      modifies common`leases, common.offsets, common.index, common.leases.Values
      ensures s' == Snap() && StepOk(s, msg, envs[i], reply, from, s')
      ensures safe <==> !Breaks(s, envs[i], from)
      ensures safe ==> Valid() && Distinct(s')
      ensures !safe ==> !Valid()
      ensures !Recycles(s, msg, envs[i]) || Outlasts(s, envs, i) ==> safe
      ensures Outlasts(s, envs, i) && Within(envs, common.ttl) ==> Outlasts(s', envs, i + 1)
      ensures fresh(common.leases.Values - old(common.leases.Values))
      ensures s'.entries.Keys <= s.entries.Keys + {msg.mac}
    {
      hide Interface4.Valid;
      hide Interface4.Snap;
      hide Distinct;
      hide KeepsTime;
      hide GivesRecorded;
      hide RecyclesFrom;
      hide Interface4.EntryOf;
      hide Outlasts;
      hide Within;
      PoolIsOk();
      SnapOf();
      var known := set m | m in common.leases && common.Committed(common.leases[m]);
      var ips := map m | m in common.leases :: common.leases[m].ip;
      reply, from := Handle(msg, envs[i]);
      s' := Snap();
      safe := from.None? || from.value !in ips || (from.value in known && envs[i].check(0, ips[from.value]) != CheckError);
      NoneRecycled(s, msg, envs, i, reply, from, s');
      StepLasts(s, msg, envs, i, reply, from, s', common.ttl);
      if safe {
        SoundSnap();
      }
    }

    /** The run goes on from the message i, with what is on record now. */
    ghost predicate Going(h: History, msgs: seq<Msg>, envs: seq<Env>, i: nat, first: Snapshot)
      reads common, common.index, common.offsets, common.leases.Values
    {
      Valid() && GotTo(h, msgs, envs, i, first, Snap()) && !Broken(h, envs) && Distinct(Snap())
    }

    method Advance(msgs: seq<Msg>, envs: seq<Env>, i: nat, ghost h: History, ghost first: Snapshot, ghost clients: set<Mac>)
      returns (reply: Reply, safe: bool, ghost h': History)
      requires i < |msgs| == |envs| && Going(h, msgs, envs, i, first)
      requires Snap().entries.Keys <= clients && msgs[i].mac in clients
      modifies common`leases, common.offsets, common.index, common.leases.Values
      ensures safe ==> Going(h', msgs, envs, i + 1, first)
      ensures !safe ==> common.PoolOk() && !Valid() && GotTo(h', msgs, envs, i + 1, first, Snap()) && Broken(h', envs)
      ensures h'.replies == h.replies + [reply]
      ensures |clients| <= common.pool.Len() + 1 ==> safe
      ensures old(Outlasts(Snap(), envs, i)) ==> safe && (Within(envs, common.ttl) ==> Outlasts(Snap(), envs, i + 1))
      ensures safe ==> Snap().entries.Keys <= clients
      ensures fresh(common.leases.Values - old(common.leases.Values))
    {
      hide Interface4.Valid;
      hide Interface4.Snap;
      hide Outlasts;
      hide Distinct;
      hide StepOk;
      hide Breaks;
      hide Within;
      hide Recycles;
      hide GotTo;
      hide Broken;
      PoolIsOk();
      ghost var s := Snap();
      if |clients| <= common.pool.Len() + 1 {
        Fitting(clients, msgs[i], envs[i]);
      }
      var from;
      ghost var s';
      reply, from, safe, s' := RunOne(msgs[i], envs, i, s);
      Extend(h, msgs, envs, i, first, s, reply, from, s');
      h' := Extended(h, reply, from, s');
    }

    /** Safety over whole runs.  Every reply gives out the client's address on
        record, nobody else's lease changes and no two clients share an address,
        up to the first message that recycles an unsafe lease: it breaks the
        invariant and ends the run, and nothing else does.  There is no such
        message if the clients fit the pool, or if no lease runs out. */
    method Run(msgs: seq<Msg>, envs: seq<Env>) returns (replies: seq<Reply>, ghost h: History)
      requires Valid() && |msgs| == |envs|
      modifies common`leases, common.offsets, common.index, common.leases.Values
      ensures GotTo(h, msgs, envs, |replies|, old(Snap()), Snap()) && replies == h.replies
      ensures Valid() <==> !Broken(h, envs)
      ensures Valid() ==> |replies| == |msgs| && Distinct(Snap())
      ensures |old(common.leases).Keys + Clients(msgs)| <= common.pool.Len() + 1 ==> Valid()
      ensures old(Outlasts(Snap(), envs, 0)) && Within(envs, common.ttl) ==> Valid()
    {
      hide Interface4.Valid;
      hide Interface4.Snap;
      hide Outlasts;
      hide Distinct;
      hide GotTo;
      hide Broken;
      hide Within;
      hide Interface4.Going;
      hide NetInterface.PoolOk;
      hide Clients;
      hide IpRange.Plain;
      PoolIsOk();
      ghost var first, clients := Snap(), common.leases.Keys + Clients(msgs);
      replies, h := [], History([first], [], []);
      StartGoing(h, msgs, envs);
      for i := 0 to |msgs|
        invariant Going(h, msgs, envs, i, first) && replies == h.replies && |replies| == i
        invariant fresh(common.leases.Values - old(common.leases.Values))
        invariant Snap().entries.Keys <= clients
        invariant Outlasts(first, envs, 0) && Within(envs, common.ttl) ==> Outlasts(Snap(), envs, i)
      {
        var reply, safe;
        ClientIn(msgs, i);
        reply, safe, h := Advance(msgs, envs, i, h, first, clients);
        replies := replies + [reply];
        if !safe {
          return;
        }
      }
      WholeRun(h, msgs, envs, first);
    }

    lemma StartGoing(h: History, msgs: seq<Msg>, envs: seq<Env>)
      requires Valid() && h == History([Snap()], [], []) && |msgs| == |envs|
      ensures Going(h, msgs, envs, 0, Snap())
    {
      NothingYet(h, msgs, envs, Snap());
      SoundSnap();
    }

    lemma WholeRun(h: History, msgs: seq<Msg>, envs: seq<Env>, first: Snapshot)
      requires Going(h, msgs, envs, |msgs|, first)
      ensures Valid() && GotTo(h, msgs, envs, |msgs|, first, Snap()) && !Broken(h, envs) && Distinct(Snap())
    {
    }
  }

  lemma NothingYet(h: History, msgs: seq<Msg>, envs: seq<Env>, first: Snapshot)
    requires h == History([first], [], []) && |msgs| == |envs|
    ensures GotTo(h, msgs, envs, 0, first, first) && !Broken(h, envs)
  {
  }

  lemma ClientIn(msgs: seq<Msg>, i: nat)
    requires i < |msgs|
    ensures msgs[i].mac in Clients(msgs)
  {
  }

  lemma StepLasts(s: Snapshot, msg: Msg, envs: seq<Env>, i: nat, reply: Reply, from: Option<Mac>, s': Snapshot, ttl: nat)
    requires i < |envs| && StepOk(s, msg, envs[i], reply, from, s')
    requires from.None? ==> KeepsTime(s, s', envs[i].now + ttl)
    ensures Outlasts(s, envs, i) && Within(envs, ttl) ==> Outlasts(s', envs, i + 1)
  {
    NoneRecycled(s, msg, envs, i, reply, from, s');
    if Outlasts(s, envs, i) && Within(envs, ttl) {
      OutlastsStep(s, s', envs, i, ttl);
    }
  }

  /** A message that recycles nothing breaks nothing. */
  lemma NoneRecycled(s: Snapshot, msg: Msg, envs: seq<Env>, i: nat, reply: Reply, from: Option<Mac>, s': Snapshot)
    requires i < |envs| && StepOk(s, msg, envs[i], reply, from, s')
    ensures !Recycles(s, msg, envs[i]) || Outlasts(s, envs, i) ==> from.None? && !Breaks(s, envs[i], from)
  {
  }
}
