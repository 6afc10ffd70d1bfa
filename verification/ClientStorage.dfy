/** The storage of persistent clients (internal/client/storage.go): an index
    and an upstream manager that have to stay in step. */
module ClientStorage {
  import opened Clients
  import opened ClientIndex
  import opened NetIp
  import opened UpstreamManagers
  import opened Wrappers

  datatype Op =
    | OpAdd(p: Persistent, upstreamsOk: bool)
    | OpUpdate(name: string, p: Persistent, upstreamsOk: bool)
    | OpRemove(name: string)
    | OpLookup(id: string, ip: Addr)
    | OpCommon(conf: CommonConf, now: int)

  /** The UID stored under a name. */
  ghost function OwnerOf(clients: Registry, name: string): (r: Option<UID>)
    ensures r.Some? ==> r.value in clients && clients[r.value].name == name
    ensures r.None? ==> forall u :: u in clients ==> clients[u].name != name
  {
    if u :| u in clients && clients[u].name == name then Some(u) else None
  }

  /** What one call means for the set of stored clients. */
  ghost function Step(clients: Registry, op: Op, tags: set<string>): Registry {
    match op
    case OpAdd(p, ok) =>
      if Validate(p, ok, tags).None? && p.uid !in clients && !Conflict(clients, p) then clients[p.uid := p] else clients
    case OpUpdate(name, p, ok) =>
      var owner := OwnerOf(clients, name);
      if Validate(p, ok, tags).None? && owner.Some? && !Conflict(clients, p.(uid := owner.value))
      then clients[owner.value := p.(uid := owner.value)]
      else clients
    case OpRemove(name) =>
      var owner := OwnerOf(clients, name);
      if owner.Some? then clients - {owner.value} else clients
    case OpLookup(_, _) => clients
    case OpCommon(_, _) => clients
  }

  ghost function RunSpec(clients: Registry, ops: seq<Op>, tags: set<string>): Registry {
    if ops == [] then clients
    else Step(RunSpec(clients, ops[..|ops| - 1], tags), ops[|ops| - 1], tags)
  }

  lemma OwnerUnique(clients: Registry, name: string, u: UID)
    requires WellFormed(clients) && u in clients && clients[u].name == name
    ensures OwnerOf(clients, name) == Some(u)
  {
    var v := OwnerOf(clients, name).value;
    assert name in Names(clients[u]) && name in Names(clients[v]);
    assert v != u ==> Shares(clients[u], clients[v]);
  }

  lemma WellFormedReplace(clients: Registry, u: UID, p: Persistent)
    requires WellFormed(clients) && u in clients && p.uid == u && !Conflict(clients, p)
    ensures WellFormed(clients - {u})
    ensures !Conflict(clients - {u}, p)
    ensures WellFormed(clients[u := p])
    ensures (clients - {u})[u := p] == clients[u := p]
  {
    assert (clients - {u})[u := p] == clients[u := p];
    WellFormedAdd(clients - {u}, p);
  }

  /** A stored client is not in its own way: it can always be updated to itself. */
  lemma UpdateToItself(clients: Registry, p: Persistent, ok: bool, tags: set<string>)
    requires WellFormed(clients) && p.uid in clients && clients[p.uid] == p
    ensures !Conflict(clients, p) && Step(clients, OpUpdate(p.name, p, ok), tags) == clients
  {
    OwnerUnique(clients, p.name, p.uid);
    assert clients[p.uid := p] == clients;
  }

  /** No run of calls ever lets two clients share a name or an identifier. */
  lemma {:induction false} RunKeepsWellFormed(clients: Registry, ops: seq<Op>, tags: set<string>)
    requires WellFormed(clients)
    ensures WellFormed(RunSpec(clients, ops, tags))
  {
    if ops != [] {
      RunKeepsWellFormed(clients, ops[..|ops| - 1], tags);
      StepKeepsWellFormed(RunSpec(clients, ops[..|ops| - 1], tags), ops[|ops| - 1], tags);
    }
  }

  lemma StepKeepsWellFormed(clients: Registry, op: Op, tags: set<string>)
    requires WellFormed(clients)
    ensures WellFormed(Step(clients, op, tags))
  {
    match op
    case OpAdd(p, ok) =>
      if Validate(p, ok, tags).None? && p.uid !in clients && !Conflict(clients, p) {
        WellFormedAdd(clients, p);
      }
    case OpUpdate(name, p, ok) =>
      var owner := OwnerOf(clients, name);
      if Validate(p, ok, tags).None? && owner.Some? && !Conflict(clients, p.(uid := owner.value)) {
        WellFormedReplace(clients, owner.value, p.(uid := owner.value));
      }
    case OpRemove(_) =>
    case OpLookup(_, _) =>
    case OpCommon(_, _) =>
  }

  /** Removing a client by its name undoes an accepted addition. */
  lemma RemoveUndoesAdd(clients: Registry, p: Persistent, ok: bool, tags: set<string>)
    requires WellFormed(clients)
    requires Validate(p, ok, tags).None? && p.uid !in clients && !Conflict(clients, p)
    ensures RunSpec(clients, [OpAdd(p, ok), OpRemove(p.name)], tags) == clients
  {
    var added := clients[p.uid := p];
    var ops := [OpAdd(p, ok), OpRemove(p.name)];
    assert ops[..1] == [OpAdd(p, ok)] && [OpAdd(p, ok)][..0] == [];
    assert RunSpec(clients, ops[..1], tags) == added;
    WellFormedAdd(clients, p);
    OwnerUnique(added, p.name, p.uid);
    assert added - {p.uid} == clients;
  }

  /** The hardware address that the DHCP server has leased an address to. */
  type Leases = Addr -> Option<Mac>

  ghost predicate OwnsClientID(clients: Registry, id: string) {
    exists u :: u in clients && id in clients[u].clientIDs
  }

  ghost predicate OwnsSubnet(clients: Registry, s: Prefix) {
    exists u :: u in clients && s in clients[u].subnets
  }

  ghost predicate OwnsMAC(clients: Registry, mac: Mac) {
    exists u :: u in clients && mac in clients[u].macs
  }

  /** An address is looked up exactly, then by longest prefix, then through the
      hardware address of its lease. */
  ghost predicate KnownIP(clients: Registry, ip: Addr, leases: Leases) {
    || OwnsIP(clients, ip)
    || OwnsNetwork(clients, ip.WithoutZone())
    || (leases(ip).Some? && OwnsMAC(clients, leases(ip).value))
  }

  ghost predicate FoundByIP(clients: Registry, ip: Addr, leases: Leases, p: Persistent) {
    if OwnsIP(clients, ip) then ip in p.ips
    else if OwnsNetwork(clients, ip.WithoutZone()) then
      exists best :: LongestMatch(best, p.uid, clients, ip.WithoutZone())
    else leases(ip).Some? && leases(ip).value in p.macs
  }

  datatype FindParams = FindParams(clientID: string, remoteIP: Addr, subnet: Option<Prefix>, mac: Option<Mac>)

  /** The client that a lookup by ClientID, else by address, matches. */
  ghost predicate Matched(clients: Registry, id: string, ip: Addr, leases: Leases, c: Option<Persistent>) {
    && (c.Some? <==> OwnsClientID(clients, id) || KnownIP(clients, ip, leases))
    && (c.Some? ==> c.value.uid in clients && clients[c.value.uid] == c.value)
    && (c.Some? ==> if OwnsClientID(clients, id) then id in c.value.clientIDs else FoundByIP(clients, ip, leases, c.value))
  }

  ghost function SettingsOfAll(clients: Registry): map<UID, Settings> {
    map u | u in clients :: SettingsOf(clients[u])
  }

  lemma SettingsOfAllStep(clients: Registry, u: UID, p: Persistent)
    ensures SettingsOfAll(clients[u := p]) == SettingsOfAll(clients)[u := SettingsOf(p)]
    ensures SettingsOfAll(clients - {u}) == SettingsOfAll(clients) - {u}
  {
  }

  /** What the cache should hand out for a client under a common configuration. */
  ghost predicate BuiltFor(c: Persistent, conf: CommonConf, given: Option<Built>) {
    given == Build(Settings(c.upstreams, c.cacheSize, c.cacheEnabled), conf)
  }

  /** That is nothing exactly if the client has no upstream to speak of, and else
      its upstreams and cache settings under that configuration. */
  lemma BuiltForKeeps(c: Persistent, conf: CommonConf, given: Option<Built>)
    requires BuiltFor(c, conf, given)
    ensures given.None? <==> forall x :: x in c.upstreams ==> x == "" || x[0] == '#'
    ensures given.Some? ==>
              && (exists at :: Picks(c.upstreams, given.value.upstreams, at))
              && given.value.cacheEnabled == c.cacheEnabled && given.value.cacheSize == c.cacheSize
              && given.value.common == conf
  {
    BuildKeeps(Settings(c.upstreams, c.cacheSize, c.cacheEnabled), conf);
  }

  class Storage {
    const index: Index
    const mgr: Manager
    const allowedTags: set<string>

    ghost function Clients(): Registry
      reads this, index
    {
      index.uidToClient
    }

    ghost predicate Valid()
      reads this, index, index.subnetToUID, mgr, mgr.built
    {
      && index.Valid() && mgr.Valid()
      && mgr.Stored() == SettingsOfAll(index.uidToClient)
    }

    constructor (allowedTags: set<string>)
      ensures Valid() && mgr.InTime() && Clients() == map[] && mgr.entries == map[] && mgr.built == {} && mgr.confUpdate == 0
      ensures this.allowedTags == allowedTags
      ensures fresh(index) && fresh(index.subnetToUID) && fresh(mgr)
    {
      index := new Index();
      mgr := new Manager();
      this.allowedTags := allowedTags;
    }

    /** A rejected call changes nothing. */
    method Add(p: Persistent, upstreamsOk: bool) returns (err: Option<Error>)
      requires Valid()
      modifies index, index.subnetToUID, mgr`entries
      ensures Valid() && Clients() == Step(old(Clients()), OpAdd(p, upstreamsOk), allowedTags)
      ensures err.None? <==> && Validate(p, upstreamsOk, allowedTags).None?
                             && p.uid !in old(Clients()) && !Conflict(old(Clients()), p)
      ensures Clients() == if err.None? then old(Clients())[p.uid := p] else old(Clients())
      ensures err.Some? ==> index.View() == old(index.View()) && mgr.entries == old(mgr.entries)
      ensures (old(mgr.Fresh()) ==> mgr.Fresh()) && (old(mgr.InTime()) ==> mgr.InTime())
      ensures mgr.built == old(mgr.built) && mgr.commonConf == old(mgr.commonConf) && mgr.confUpdate == old(mgr.confUpdate)
    {
      hide Index.Valid;
      hide Manager.Valid;
      hide Manager.Fresh;
      hide Manager.InTime;
      hide Conflict;
      hide WellFormed;
      hide Validate;
      hide Index.View;
      hide SettingsOfAll;
      hide Manager.Stored;
      err := Validate(p, upstreamsOk, allowedTags);
      if err.Some? {
        return;
      }
      if p.uid in index.uidToClient {
        return Some(ClashUID(p.uid));
      }
      err := index.Clashes(p);
      if err.Some? {
        return;
      }
      SettingsOfAllStep(index.uidToClient, p.uid, p);
      index.Add(p);
      mgr.UpdateCustom(p);
    }

    /** Renames and replaces identifiers in place; the stored UID is kept.
        `given` is what the caller's client is afterwards: it gets the stored UID
        even if a clash is then found. */
    method Update(name: string, p: Persistent, upstreamsOk: bool) returns (err: Option<Error>, given: Persistent)
      requires Valid()
      modifies index, index.subnetToUID, mgr`entries
      ensures Valid() && Clients() == Step(old(Clients()), OpUpdate(name, p, upstreamsOk), allowedTags)
      ensures err.None? <==> && Validate(p, upstreamsOk, allowedTags).None?
                             && OwnerOf(old(Clients()), name).Some?
                             && !Conflict(old(Clients()), p.(uid := OwnerOf(old(Clients()), name).value))
      ensures err.None? ==> given.uid in old(Clients()) && old(Clients())[given.uid].name == name
      ensures Clients() == if err.None? then old(Clients())[given.uid := given] else old(Clients())
      ensures given == if Validate(p, upstreamsOk, allowedTags).None? && OwnerOf(old(Clients()), name).Some?
                       then p.(uid := OwnerOf(old(Clients()), name).value) else p
      ensures err.Some? ==> index.View() == old(index.View()) && mgr.entries == old(mgr.entries)
      ensures (old(mgr.Fresh()) ==> mgr.Fresh()) && (old(mgr.InTime()) ==> mgr.InTime())
      ensures mgr.built == old(mgr.built) && mgr.commonConf == old(mgr.commonConf) && mgr.confUpdate == old(mgr.confUpdate)
    {
      hide Index.Valid;
      hide Manager.Valid;
      hide Manager.Fresh;
      hide Manager.InTime;
      hide Conflict;
      hide WellFormed;
      hide Validate;
      hide Index.View;
      hide SettingsOfAll;
      hide Manager.Stored;
      given := p;
      err := Validate(p, upstreamsOk, allowedTags);
      if err.Some? {
        return;
      }
      var stored := index.FindByName(name);
      if stored.None? {
        return Some(NotFound), given;
      }
      var u := stored.value.uid;
      OwnerUnique(index.uidToClient, name, u);
      given := p.(uid := u);
      err := index.Clashes(given);
      if err.Some? {
        return;
      }
      WellFormedReplace(index.uidToClient, u, given);
      SettingsOfAllStep(index.uidToClient, u, given);
      index.Remove(stored.value);
      index.Add(given);
      mgr.UpdateCustom(given);
    }

    /** Removes the client from both stores and closes its handle. */
    method RemoveByName(name: string) returns (ok: bool)
      requires Valid()
      modifies index, index.subnetToUID, mgr`entries, mgr`holder, mgr.built
      ensures Valid() && Clients() == Step(old(Clients()), OpRemove(name), allowedTags)
      ensures ok <==> OwnerOf(old(Clients()), name).Some?
      ensures if ok then exists u :: u in old(Clients()) && old(Clients())[u].name == name && Clients() == old(Clients()) - {u}
              else Clients() == old(Clients())
      ensures !ok ==> index.View() == old(index.View()) && mgr.entries == old(mgr.entries)
      ensures (old(mgr.Fresh()) ==> mgr.Fresh()) && (old(mgr.InTime()) ==> mgr.InTime())
      ensures mgr.built == old(mgr.built) && mgr.commonConf == old(mgr.commonConf) && mgr.confUpdate == old(mgr.confUpdate)
    {
      hide Index.Valid;
      hide Manager.Valid;
      hide Manager.Fresh;
      hide Manager.InTime;
      hide Conflict;
      hide WellFormed;
      hide Validate;
      hide Index.View;
      hide SettingsOfAll;
      hide Manager.Stored;
      var stored := index.FindByName(name);
      if stored.None? {
        return false;
      }
      OwnerUnique(index.uidToClient, name, stored.value.uid);
      SettingsOfAllStep(index.uidToClient, stored.value.uid, stored.value);
      index.Remove(stored.value);
      var found := mgr.Remove(stored.value.uid);
      return true;
    }

    method FindByIP(ip: Addr, leases: Leases) returns (r: Option<Persistent>)
      requires Valid()
      ensures r.Some? <==> KnownIP(Clients(), ip, leases)
      ensures r.Some? ==> r.value.uid in Clients() && Clients()[r.value.uid] == r.value
      ensures r.Some? ==> FoundByIP(Clients(), ip, leases, r.value)
    {
      r := index.FindByIP(ip);
      if r.Some? {
        return;
      }
      if leases(ip).Some? {
        r := index.FindByMAC(leases(ip).value);
      }
    }

    /** Tries the given parameters in a fixed order and returns the first hit. */
    method Find(params: FindParams, leases: Leases) returns (r: Option<Persistent>)
      requires Valid()
      ensures r.Some? ==> r.value.uid in Clients() && Clients()[r.value.uid] == r.value
      ensures r.Some? <==> ByClientID(params) || ByIP(params, leases) || BySubnet(params) || ByMAC(params)
      ensures ByClientID(params) ==> params.clientID in r.value.clientIDs
      ensures !ByClientID(params) && ByIP(params, leases) ==> FoundByIP(Clients(), params.remoteIP, leases, r.value)
      ensures !ByClientID(params) && !ByIP(params, leases) && BySubnet(params) ==>
                params.subnet.value in r.value.subnets
      ensures !ByClientID(params) && !ByIP(params, leases) && !BySubnet(params) && ByMAC(params) ==>
                params.mac.value in r.value.macs
    {
      var isClientID, isRemoteIP := params.clientID != "", params.remoteIP != Invalid;
      var isSubnet, isMAC := params.subnet.Some?, params.mac.Some?;
      while true
        invariant !isClientID ==> !ByClientID(params)
        invariant isClientID ==> params.clientID != ""
        invariant !isRemoteIP ==> !ByIP(params, leases)
        invariant isRemoteIP ==> params.remoteIP != Invalid
        invariant !isRemoteIP && params.remoteIP != Invalid ==> !isClientID
        invariant !isSubnet ==> !BySubnet(params)
        invariant isSubnet ==> params.subnet.Some?
        invariant !isSubnet && params.subnet.Some? ==> !isClientID && !isRemoteIP
        invariant !isMAC ==> !ByMAC(params)
        invariant isMAC ==> params.mac.Some?
        decreases isClientID, isRemoteIP, isSubnet, isMAC
      {
        if isClientID {
          isClientID := false;
          r := index.FindByClientID(params.clientID);
        } else if isRemoteIP {
          isRemoteIP := false;
          r := FindByIP(params.remoteIP, leases);
        } else if isSubnet {
          isSubnet := false;
          r := index.FindByCIDR(params.subnet.value);
        } else if isMAC {
          isMAC := false;
          r := index.FindByMAC(params.mac.value);
        } else {
          return None;
        }
        if r.Some? {
          return;
        }
      }
    }

    ghost predicate ByClientID(params: FindParams) reads this, index {
      params.clientID != "" && OwnsClientID(Clients(), params.clientID)
    }

    ghost predicate ByIP(params: FindParams, leases: Leases) reads this, index {
      params.remoteIP != Invalid && KnownIP(Clients(), params.remoteIP, leases)
    }

    ghost predicate BySubnet(params: FindParams) reads this, index {
      params.subnet.Some? && OwnsSubnet(Clients(), params.subnet.value)
    }

    ghost predicate ByMAC(params: FindParams) reads this, index {
      params.mac.Some? && OwnsMAC(Clients(), params.mac.value)
    }

    /** The configuration that would be built for the matched client right now,
        through an open handle, as long as the cache is fresh; the manager never
        misses the entry. */
    method CustomUpstreamConfig(id: string, ip: Addr, leases: Leases) returns (r: ProxyConf?, ghost c: Option<Persistent>)
      requires Valid() && mgr.commonConf.Some?
      modifies mgr`entries, mgr`built, mgr`holder, mgr.built
      ensures Valid() && (old(mgr.Fresh()) ==> mgr.Fresh()) && (old(mgr.InTime()) ==> mgr.InTime())
      ensures Matched(Clients(), id, ip, leases, c) && (c.None? ==> r == null)
      ensures c.Some? ==> c.value.uid in old(mgr.entries) && c.value.uid in mgr.entries
      ensures c.Some? ==> r == mgr.entries[c.value.uid].proxyConf && !mgr.IsConfigChanged(mgr.entries[c.value.uid])
      ensures c.Some? ==> (BuiltFor(c.value, mgr.commonConf.value, Made(r)) <==> old(mgr.FreshEntry(mgr.entries[c.value.uid])))
      // A fresh cache: nothing exactly if the client has no upstream to speak of.
      ensures c.Some? && old(mgr.Fresh()) ==> (r == null <==> forall x :: x in c.value.upstreams ==> x == "" || x[0] == '#')
      ensures c.Some? && old(mgr.Fresh()) && r != null ==>
                && (exists at :: Picks(c.value.upstreams, r.made.upstreams, at))
                && r.made.cacheEnabled == c.value.cacheEnabled && r.made.cacheSize == c.value.cacheSize
                && r.made.common == mgr.commonConf.value
      ensures c.Some? && !old(mgr.entries)[c.value.uid].isChanged
              && old(mgr.entries)[c.value.uid].commonConfUpdate == mgr.confUpdate ==>
                r == old(mgr.entries)[c.value.uid].proxyConf
      ensures r != null ==> r.isOpen && r in mgr.built
      ensures old(mgr.built) <= mgr.built && fresh(mgr.built - old(mgr.built))
    {
      hide Index.Valid;
      hide Manager.Valid;
      hide Manager.InTime;
      hide Manager.FreshEntry;
      hide Manager.IsConfigChanged;
      hide Conflict;
      hide WellFormed;
      hide Validate;
      hide Build;
      hide Picks;
      hide SettingsOfAll;
      hide Manager.Stored;
      var found := index.FindByClientID(id);
      if found.None? {
        found := FindByIP(ip, leases);
      }
      c := found;
      if found.None? {
        return null, None;
      }
      EntryOf(found.value.uid);
      r := mgr.CustomUpstreamConfig(found.value.uid);
      EntryOf(found.value.uid);
      if old(mgr.Fresh()) {
        BuiltForKeeps(found.value, mgr.commonConf.value, Made(r));
      }
    }

    /** Every stored client has an entry, with its settings. */
    lemma EntryOf(u: UID)
      requires mgr.Stored() == SettingsOfAll(Clients()) && u in Clients()
      ensures u in mgr.entries && mgr.Stored()[u] == SettingsOf(Clients()[u])
    {
      assert u in SettingsOfAll(Clients());
    }

    /** Keeps the cache fresh under the exact condition of the manager, and
        whenever the clock has advanced. */
    method UpdateCommonUpstreamConfig(conf: CommonConf, now: int)
      requires Valid()
      modifies mgr`commonConf, mgr`confUpdate
      ensures Valid() && mgr.commonConf == Some(conf) && mgr.confUpdate == now
      ensures mgr.Fresh() <==>
                forall e :: e in mgr.entries.Values && e.proxyConf != null && !e.isChanged && e.commonConfUpdate == now ==>
                              e.proxyConf.made.common == conf
      ensures old(mgr.InTime()) && now > old(mgr.confUpdate) ==> mgr.InTime()
    {
      mgr.UpdateCommon(conf, now);
    }

    /** After shutdown every handle ever built has been closed, each once. */
    method Shutdown()
      requires Valid()
      modifies mgr.built
      ensures forall h :: h in mgr.built ==> !h.isOpen
    {
      mgr.Shutdown();
    }
  }

  /** The clock advances from one change of the common configuration to the next. */
  ghost predicate Ticking(ops: seq<Op>, start: int) {
    ops == []
    || (var init := ops[..|ops| - 1];
        var last := ops[|ops| - 1];
        Ticking(init, start) && (last.OpCommon? ==> last.now > LastTime(init, start)))
  }

  ghost function LastTime(ops: seq<Op>, start: int): int {
    if ops == [] then start
    else if ops[|ops| - 1].OpCommon? then ops[|ops| - 1].now
    else LastTime(ops[..|ops| - 1], start)
  }

  ghost function LatestConf(ops: seq<Op>, start: CommonConf): CommonConf {
    if ops == [] then start
    else if ops[|ops| - 1].OpCommon? then ops[|ops| - 1].conf
    else LatestConf(ops[..|ops| - 1], start)
  }

  lemma {:induction false} TickingPrefix(ops: seq<Op>, start: int, i: nat)
    requires Ticking(ops, start) && i <= |ops|
    ensures Ticking(ops[..i], start)
  {
    if i < |ops| {
      TickingPrefix(ops[..|ops| - 1], start, i);
      assert ops[..|ops| - 1][..i] == ops[..i];
    } else {
      assert ops[..i] == ops;
    }
  }

  /** What a call that looked a client up came to. */
  datatype Lookup = Lookup(client: Option<Persistent>, given: Option<Built>)

  /** The lookup matched one of these clients, and gave what would be built for
      it with this common configuration. */
  ghost predicate RightLookup(clients: Registry, op: Op, leases: Leases, conf: CommonConf, l: Lookup) {
    op.OpLookup? ==>
      && Matched(clients, op.id, op.ip, leases, l.client)
      && (l.client.None? ==> l.given.None?)
      && (l.client.Some? ==> BuiltFor(l.client.value, conf, l.given))
  }

  /** Each of these lookups, made at its place in a run that started from these
      clients and this common configuration, is right. */
  ghost predicate RightLookups(clients: Registry, conf: CommonConf, ops: seq<Op>, tags: set<string>, leases: Leases,
                               lookups: seq<Lookup>) {
    |lookups| <= |ops|
    && forall i :: 0 <= i < |lookups| ==>
                     RightLookup(RunSpec(clients, ops[..i], tags), ops[i], leases, LatestConf(ops[..i], conf), lookups[i])
  }

  lemma NoLookups(clients: Registry, conf: CommonConf, ops: seq<Op>, tags: set<string>, leases: Leases)
    ensures RightLookups(clients, conf, ops, tags, leases, [])
  {
  }

  lemma RightLookupsSnoc(clients: Registry, conf: CommonConf, ops: seq<Op>, tags: set<string>, leases: Leases,
                         lookups: seq<Lookup>, l: Lookup)
    requires RightLookups(clients, conf, ops, tags, leases, lookups) && |lookups| < |ops|
    requires RightLookup(RunSpec(clients, ops[..|lookups|], tags), ops[|lookups|], leases,
                         LatestConf(ops[..|lookups|], conf), l)
    ensures RightLookups(clients, conf, ops, tags, leases, lookups + [l])
  {
    hide RightLookup;
  }

  /** A whole run of calls on a real storage, with lookups and changes of the
      common configuration in between.  Whatever the clock, the stored clients are
      those of the specification and the handles are conserved.  If it advances,
      every lookup gives what would be built at that moment for the client that
      the specification matches. */
  method Run(s: Storage, ops: seq<Op>, leases: Leases) returns (ghost lookups: seq<Lookup>)
    requires s.Valid() && s.mgr.commonConf.Some?
    modifies s.index, s.index.subnetToUID, s.mgr, s.mgr.built
    ensures s.Valid() && s.mgr.commonConf.Some?
    ensures s.Clients() == RunSpec(old(s.Clients()), ops, s.allowedTags)
    ensures old(s.mgr.built) <= s.mgr.built && fresh(s.mgr.built - old(s.mgr.built))
    ensures |lookups| == |ops|
    ensures old(s.mgr.InTime()) && Ticking(ops, old(s.mgr.confUpdate)) ==>
              RightLookups(old(s.Clients()), old(s.mgr.commonConf.value), ops, s.allowedTags, leases, lookups)
  {
    hide Storage.Valid;
    hide Step;
    hide Manager.InTime;
    hide RightLookup;
    hide RightLookups;
    ghost var clients, start, conf := s.Clients(), s.mgr.confUpdate, s.mgr.commonConf.value;
    ghost var inTime := s.mgr.InTime() && Ticking(ops, start);
    lookups := [];
    NoLookups(clients, conf, ops, s.allowedTags, leases);
    for i := 0 to |ops|
      invariant s.Valid() && s.mgr.commonConf == Some(LatestConf(ops[..i], conf))
      invariant s.Clients() == RunSpec(clients, ops[..i], s.allowedTags)
      invariant s.mgr.confUpdate == LastTime(ops[..i], start) && (inTime ==> s.mgr.InTime())
      invariant old(s.mgr.built) <= s.mgr.built && fresh(s.mgr.built - old(s.mgr.built))
      invariant |lookups| == i
      invariant inTime ==> RightLookups(clients, conf, ops, s.allowedTags, leases, lookups)
    {
      assert ops[..i + 1][..i] == ops[..i];
      if inTime {
        TickingPrefix(ops, start, i + 1);
      }
      ghost var l := RunOne(s, ops[i], leases);
      if inTime {
        RightLookupsSnoc(clients, conf, ops, s.allowedTags, leases, lookups, l);
      }
      lookups := lookups + [l];
    }
    assert ops[..|ops|] == ops;
  }

  method RunOne(s: Storage, op: Op, leases: Leases) returns (ghost l: Lookup)
    requires s.Valid() && s.mgr.commonConf.Some?
    modifies s.index, s.index.subnetToUID, s.mgr, s.mgr.built
    ensures s.Valid() && s.mgr.commonConf == if op.OpCommon? then Some(op.conf) else old(s.mgr.commonConf)
    ensures s.Clients() == Step(old(s.Clients()), op, s.allowedTags)
    ensures s.mgr.confUpdate == if op.OpCommon? then op.now else old(s.mgr.confUpdate)
    ensures old(s.mgr.InTime()) && (op.OpCommon? ==> op.now > old(s.mgr.confUpdate)) ==> s.mgr.InTime()
    ensures old(s.mgr.InTime()) ==> RightLookup(old(s.Clients()), op, leases, old(s.mgr.commonConf.value), l)
    ensures old(s.mgr.built) <= s.mgr.built && fresh(s.mgr.built - old(s.mgr.built))
  {
    hide Storage.Valid;
    hide Manager.Fresh;
    hide Matched;
    hide Build;
    l := Lookup(None, None);
    match op
    case OpAdd(p, ok) => var err := s.Add(p, ok);
    case OpUpdate(name, p, ok) => var err, given := s.Update(name, p, ok);
    case OpRemove(name) => var ok := s.RemoveByName(name);
    case OpLookup(id, ip) =>
      var r, c := s.CustomUpstreamConfig(id, ip, leases);
      l := Lookup(c, Made(r));
    case OpCommon(conf, now) => s.UpdateCommonUpstreamConfig(conf, now);
  }

  /** From start to shutdown, whatever happens in between and whatever the clock
      says, no handle is left open; that none is closed twice is the
      precondition of `ProxyConf.Close`. */
  method Lifetime(tags: set<string>, conf: CommonConf, now: int, ops: seq<Op>, leases: Leases) returns (s: Storage)
    ensures forall h :: h in s.mgr.built ==> !h.isOpen
    ensures s.Clients() == RunSpec(map[], ops, tags)
  {
    hide Storage.Valid;
    hide Manager.Fresh;
    s := new Storage(tags);
    s.UpdateCommonUpstreamConfig(conf, now);
    ghost var lookups := Run(s, ops, leases);
    s.Shutdown();
  }

  /** Two changes of the common configuration at one reading of the clock: the
      client goes on getting the configuration built for the first. */
  method StaleConfiguration(tags: set<string>, p: Persistent, id: string, ip: Addr, leases: Leases,
                            first: CommonConf, second: CommonConf, now: int)
    returns (s: Storage, before: ProxyConf?, after: ProxyConf?)
    requires Validate(p, true, tags).None? && id in p.clientIDs && first != second
    requires exists x :: x in p.upstreams && x != "" && x[0] != '#'
    ensures s.Valid() && s.Clients() == map[p.uid := p] && s.mgr.commonConf == Some(second)
    ensures before != null && after == before && before.made.common == first
  {
    hide Storage.Valid;
    hide Manager.Fresh;
    hide Manager.InTime;
    hide Step;
    hide Picks;
    hide KnownIP;
    hide FoundByIP;
    hide BuiltFor;
    hide Build;
    s := new Storage(tags);
    s.UpdateCommonUpstreamConfig(first, now);
    assert s.mgr.Fresh();
    var err := s.Add(p, true);
    assert s.Clients() == map[p.uid := p] && OwnsClientID(s.Clients(), id);
    ghost var c;
    before, c := s.CustomUpstreamConfig(id, ip, leases);
    assert c == Some(p);
    s.UpdateCommonUpstreamConfig(second, now);
    after, c := s.CustomUpstreamConfig(id, ip, leases);
    assert c == Some(p);
  }
}
