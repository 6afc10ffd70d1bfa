/** The index of persistent clients (internal/client/index.go): one map per
    kind of identifier, kept exactly inverse to the stored clients. */
module ClientIndex {
  import opened Clients
  import opened NetIp
  import opened Slices
  import opened SortedMaps
  import opened Wrappers

  /** `m` is exactly the inverse of the lists `ids` of the stored clients. */
  ghost predicate Exact<K(!new)>(m: map<K, UID>, clients: Registry, ids: Persistent -> seq<K>) {
    && (forall k :: k in m ==> m[k] in clients && k in ids(clients[m[k]]))
    && (forall u, k :: u in clients && k in ids(clients[u]) ==> k in m && m[k] == u)
  }

  ghost function PutAll<K>(m: map<K, UID>, ks: seq<K>, u: UID): map<K, UID> {
    m + map k | k in ks :: u
  }

  ghost function DelAll<K>(m: map<K, UID>, ks: seq<K>): map<K, UID> {
    m - set k | k in ks
  }

  /** Taken by another client, as seen in one map. */
  ghost predicate Taken<K>(m: map<K, UID>, ks: seq<K>, u: UID) {
    exists k :: k in ks && k in m && m[k] != u
  }

  lemma ExactAdd<K(!new)>(m: map<K, UID>, clients: Registry, ids: Persistent -> seq<K>, c: Persistent)
    requires Exact(m, clients, ids) && c.uid !in clients && !Taken(m, ids(c), c.uid)
    ensures Exact(PutAll(m, ids(c), c.uid), clients[c.uid := c], ids)
  {
    var m', clients' := PutAll(m, ids(c), c.uid), clients[c.uid := c];
    forall u, k | u in clients' && k in ids(clients'[u]) ensures k in m' && m'[k] == u {
      assert u in clients && k in ids(clients[u]) ==> k in m && m[k] == u;
    }
  }

  lemma ExactRemove<K(!new)>(m: map<K, UID>, clients: Registry, ids: Persistent -> seq<K>, c: Persistent)
    requires Exact(m, clients, ids) && c.uid in clients && clients[c.uid] == c
    ensures Exact(DelAll(m, ids(c)), clients - {c.uid}, ids)
  {
    var m', clients' := DelAll(m, ids(c)), clients - {c.uid};
    forall k | k in m' ensures m'[k] in clients' && k in ids(clients'[m'[k]]) {
      assert k in m && m[k] in clients && k in ids(clients[m[k]]);
    }
    forall u, k | u in clients' && k in ids(clients'[u]) ensures k in m' && m'[k] == u {
      assert u in clients && k in ids(clients[u]);
      Listed(m, clients, ids, u, k);
      Listed(m, clients, ids, c.uid, k);
    }
  }

  /** The stored client u shares an identifier of one kind with c. */
  ghost predicate Clashing<K(!new)>(clients: Registry, ids: Persistent -> seq<K>, c: Persistent, u: UID) {
    u in clients && u != c.uid && Meets(ids(clients[u]), ids(c))
  }

  lemma ConflictKinds(clients: Registry, c: Persistent)
    ensures Conflict(clients, c) <==>
                  || (exists u :: Clashing(clients, Names, c, u))
                  || (exists u :: Clashing(clients, ClientIDs, c, u))
                  || (exists u :: Clashing(clients, IPs, c, u))
                  || (exists u :: Clashing(clients, Subnets, c, u))
                  || (exists u :: Clashing(clients, MACs, c, u))
  {
    forall u | u in clients && u != c.uid
      ensures Shares(clients[u], c) <==>
                  || Clashing(clients, Names, c, u) || Clashing(clients, ClientIDs, c, u)
                  || Clashing(clients, IPs, c, u) || Clashing(clients, Subnets, c, u)
                  || Clashing(clients, MACs, c, u)
    {
    }
  }

  /** What a stored client lists, the map holds. */
  lemma Listed<K(!new)>(m: map<K, UID>, clients: Registry, ids: Persistent -> seq<K>, u: UID, k: K)
    requires Exact(m, clients, ids) && u in clients
    ensures k in ids(clients[u]) ==> k in m && m[k] == u
  {
  }

  /** A clash shows up in the map. */
  lemma ClashingTaken<K(!new)>(m: map<K, UID>, clients: Registry, ids: Persistent -> seq<K>, c: Persistent, u: UID)
    requires Exact(m, clients, ids) && Clashing(clients, ids, c, u)
    ensures Taken(m, ids(c), c.uid)
  {
  }

  /** A client without conflicts leaves no map claiming its identifiers. */
  lemma NotTaken<K(!new)>(m: map<K, UID>, clients: Registry, ids: Persistent -> seq<K>, c: Persistent)
    requires Exact(m, clients, ids)
    requires forall u :: !Clashing(clients, ids, c, u)
    ensures !Taken(m, ids(c), c.uid)
  {
    forall k | k in ids(c) && k in m ensures m[k] == c.uid {
      assert k in ids(clients[m[k]]);
      assert !Clashing(clients, ids, c, m[k]);
    }
  }

  /** The five maps as one value. */
  datatype Maps = Maps(
    name: map<string, UID>,
    clientID: map<string, UID>,
    ip: map<Addr, UID>,
    subnet: map<Prefix, UID>,
    mac: map<Mac, UID>)

  ghost predicate AllExact(ms: Maps, clients: Registry) {
    && Exact(ms.name, clients, Names)
    && Exact(ms.clientID, clients, ClientIDs)
    && Exact(ms.ip, clients, IPs)
    && Exact(ms.subnet, clients, Subnets)
    && Exact(ms.mac, clients, MACs)
  }

  ghost function MapsAdd(ms: Maps, c: Persistent): Maps {
    Maps(PutAll(ms.name, Names(c), c.uid), PutAll(ms.clientID, c.clientIDs, c.uid), PutAll(ms.ip, c.ips, c.uid),
         PutAll(ms.subnet, c.subnets, c.uid), PutAll(ms.mac, c.macs, c.uid))
  }

  ghost function MapsRemove(ms: Maps, c: Persistent): Maps {
    Maps(DelAll(ms.name, Names(c)), DelAll(ms.clientID, c.clientIDs), DelAll(ms.ip, c.ips),
         DelAll(ms.subnet, c.subnets), DelAll(ms.mac, c.macs))
  }

  lemma AllExactAdd(ms: Maps, clients: Registry, c: Persistent)
    requires AllExact(ms, clients) && c.uid !in clients && !Conflict(clients, c)
    ensures AllExact(MapsAdd(ms, c), clients[c.uid := c])
  {
    ConflictKinds(clients, c);
    NotTaken(ms.name, clients, Names, c);
    NotTaken(ms.clientID, clients, ClientIDs, c);
    NotTaken(ms.ip, clients, IPs, c);
    NotTaken(ms.subnet, clients, Subnets, c);
    NotTaken(ms.mac, clients, MACs, c);
    ExactAdd(ms.name, clients, Names, c);
    ExactAdd(ms.clientID, clients, ClientIDs, c);
    ExactAdd(ms.ip, clients, IPs, c);
    ExactAdd(ms.subnet, clients, Subnets, c);
    ExactAdd(ms.mac, clients, MACs, c);
  }

  lemma AllExactRemove(ms: Maps, clients: Registry, c: Persistent)
    requires AllExact(ms, clients) && c.uid in clients && clients[c.uid] == c
    ensures AllExact(MapsRemove(ms, c), clients - {c.uid})
  {
    ExactRemove(ms.name, clients, Names, c);
    ExactRemove(ms.clientID, clients, ClientIDs, c);
    ExactRemove(ms.ip, clients, IPs, c);
    ExactRemove(ms.subnet, clients, Subnets, c);
    ExactRemove(ms.mac, clients, MACs, c);
  }

  lemma TakenClashing<K(!new)>(m: map<K, UID>, clients: Registry, ids: Persistent -> seq<K>, c: Persistent, k: K)
    requires Exact(m, clients, ids) && k in ids(c) && k in m && m[k] != c.uid
    ensures Clashing(clients, ids, c, m[k])
  {
  }

  /** Another client's hold on one of c's identifiers of one kind, if any. */
  method ClashIn<K(==, !new)>(m: map<K, UID>, ks: seq<K>, c: Persistent, ghost clients: Registry, ghost ids: Persistent -> seq<K>)
    returns (r: Option<UID>)
    requires Exact(m, clients, ids) && ks == ids(c)
    ensures r.Some? ==> Clashing(clients, ids, c, r.value)
    ensures r.None? ==> forall u :: !Clashing(clients, ids, c, u)
  {
    for i := 0 to |ks|
      invariant forall j :: 0 <= j < i ==> !(ks[j] in m && m[ks[j]] != c.uid)
    {
      if ks[i] in m && m[ks[i]] != c.uid {
        assert ks[i] in ids(clients[m[ks[i]]]) && ks[i] in ids(c);
        return Some(m[ks[i]]);
      }
    }
    forall u | Clashing(clients, ids, c, u) ensures Taken(m, ks, c.uid) {
      ClashingTaken(m, clients, ids, c, u);
    }
    return None;
  }

  lemma PutAllStep<K>(m: map<K, UID>, ks: seq<K>, i: nat, u: UID)
    requires i < |ks|
    ensures PutAll(m, ks[..i], u)[ks[i] := u] == PutAll(m, ks[..i + 1], u)
  {
  }

  lemma DelAllStep<K>(m: map<K, UID>, ks: seq<K>, i: nat)
    requires i < |ks|
    ensures DelAll(m, ks[..i]) - {ks[i]} == DelAll(m, ks[..i + 1])
  {
  }

  lemma AllOfNone<K>(m: map<K, UID>, u: UID)
    ensures PutAll(m, [], u) == m && DelAll(m, []) == m
  {
  }

  lemma AllOfOne<K>(m: map<K, UID>, k: K, u: UID)
    ensures PutAll(m, [k], u) == m[k := u] && DelAll(m, [k]) == m - {k}
  {
  }

  method PutEach<K(==)>(m0: map<K, UID>, ks: seq<K>, u: UID) returns (m: map<K, UID>)
    ensures m == PutAll(m0, ks, u)
  {
    m := m0;
    for i := 0 to |ks|
      invariant m == PutAll(m0, ks[..i], u)
    {
      PutAllStep(m0, ks, i, u);
      m := m[ks[i] := u];
    }
    assert ks[..|ks|] == ks;
  }

  method DelEach<K(==)>(m0: map<K, UID>, ks: seq<K>) returns (m: map<K, UID>)
    ensures m == DelAll(m0, ks)
  {
    m := m0;
    for i := 0 to |ks|
      invariant m == DelAll(m0, ks[..i])
    {
      DelAllStep(m0, ks, i);
      m := m - {ks[i]};
    }
    assert ks[..|ks|] == ks;
  }

  method SetEach<K(==, !new)>(m: SortedMap<K, UID>, ks: seq<K>, u: UID)
    requires m.Valid()
    modifies m
    ensures m.Valid() && m.vals == PutAll(old(m.vals), ks, u)
  {
    hide PutAll;
    hide SortedMap.Valid;
    AllOfNone(m.vals, u);
    for i := 0 to |ks|
      invariant m.Valid() && m.vals == PutAll(old(m.vals), ks[..i], u)
    {
      PutAllStep(old(m.vals), ks, i, u);
      m.Set(ks[i], u);
    }
    assert ks[..|ks|] == ks;
  }

  method UnsetEach<K(==, !new)>(m: SortedMap<K, UID>, ks: seq<K>)
    requires m.Valid()
    modifies m
    ensures m.Valid() && m.vals == DelAll(old(m.vals), ks)
  {
    hide DelAll;
    hide SortedMap.Valid;
    AllOfNone(m.vals, 0);
    for i := 0 to |ks|
      invariant m.Valid() && m.vals == DelAll(old(m.vals), ks[..i])
    {
      DelAllStep(old(m.vals), ks, i);
      m.Del(ks[i]);
    }
    assert ks[..|ks|] == ks;
  }

  /** Of the listed prefixes that contain an address, `best` is the longest, and
      the one with the lowest address among those of that length. */
  ghost predicate LongestMatch(best: Prefix, owner: UID, clients: Registry, ip: Addr) {
    && owner in clients && best in clients[owner].subnets && Contains(best, ip)
    && forall u, q :: u in clients && q in clients[u].subnets && Contains(q, ip) ==>
                        q.bits < best.bits || (q.bits == best.bits && best.addr.Value() <= q.addr.Value())
  }

  ghost predicate OwnsIP(clients: Registry, ip: Addr) {
    exists u :: u in clients && ip in clients[u].ips
  }

  ghost predicate OwnsNetwork(clients: Registry, ip: Addr) {
    exists u, q :: u in clients && q in clients[u].subnets && Contains(q, ip)
  }

  lemma OwnersListed(ms: Maps, clients: Registry, ip: Addr)
    requires AllExact(ms, clients)
    ensures OwnsIP(clients, ip) <==> ip in ms.ip
    ensures ip in ms.ip ==> ms.ip[ip] in clients && ip in clients[ms.ip[ip]].ips
    ensures OwnsNetwork(clients, ip.WithoutZone()) <==> exists q :: q in ms.subnet && Contains(q, ip.WithoutZone())
  {
    forall u | u in clients && ip in clients[u].ips ensures ip in ms.ip {
      Listed(ms.ip, clients, IPs, u, ip);
    }
    forall u, q | u in clients && q in clients[u].subnets ensures q in ms.subnet {
      Listed(ms.subnet, clients, Subnets, u, q);
    }
    forall q | q in ms.subnet ensures ms.subnet[q] in clients && q in clients[ms.subnet[q]].subnets {
      assert q in Subnets(clients[ms.subnet[q]]);
    }
  }

  lemma MatchIsLongest(m: map<Prefix, UID>, clients: Registry, best: Prefix, ip: Addr)
    requires Exact(m, clients, Subnets) && best in m && Contains(best, ip)
    requires forall q :: q in m && Contains(q, ip) ==>
                           q.bits < best.bits || (q.bits == best.bits && best.addr.Value() <= q.addr.Value())
    ensures LongestMatch(best, m[best], clients, ip)
  {
  }

  class Index {
    const subnetToUID: SortedMap<Prefix, UID>
    var nameToUID: map<string, UID>
    var clientIDToUID: map<string, UID>
    var ipToUID: map<Addr, UID>
    var macToUID: map<Mac, UID>
    var uidToClient: Registry

    ghost function View(): Maps
      reads this, subnetToUID
    {
      Maps(nameToUID, clientIDToUID, ipToUID, subnetToUID.vals, macToUID)
    }

    ghost predicate Sorted()
      reads this, subnetToUID
    {
      subnetToUID.Valid() && subnetToUID.cmp == CompareSubnet
    }

    ghost predicate Valid()
      reads this, subnetToUID
      ensures Valid() ==> WellFormed(uidToClient) && 0 !in uidToClient
    {
      Sorted() && WellFormed(uidToClient) && AllExact(View(), uidToClient)
    }

    constructor ()
      ensures Valid() && uidToClient == map[] && fresh(subnetToUID)
    {
      SubnetOrder();
      subnetToUID := new SortedMap(CompareSubnet);
      nameToUID, clientIDToUID, ipToUID, macToUID := map[], map[], map[], map[];
      uidToClient := map[];
    }

    /** The writes of `index.add`, whatever the maps hold. */
    method Put(c: Persistent)
      requires Sorted()
      modifies this, subnetToUID
      ensures Sorted() && View() == MapsAdd(old(View()), c)
      ensures uidToClient == old(uidToClient)[c.uid := c]
    {
      hide PutAll;
      hide SortedMap.Valid;
      AllOfOne(nameToUID, c.name, c.uid);
      nameToUID := nameToUID[c.name := c.uid];
      clientIDToUID := PutEach(clientIDToUID, c.clientIDs, c.uid);
      ipToUID := PutEach(ipToUID, c.ips, c.uid);
      SetEach(subnetToUID, c.subnets, c.uid);
      macToUID := PutEach(macToUID, c.macs, c.uid);
      uidToClient := uidToClient[c.uid := c];
    }

    /** The deletions of `index.remove`, whatever the maps hold. */
    method Drop(c: Persistent)
      requires Sorted()
      modifies this, subnetToUID
      ensures Sorted() && View() == MapsRemove(old(View()), c)
      ensures uidToClient == old(uidToClient) - {c.uid}
    {
      hide DelAll;
      hide SortedMap.Valid;
      AllOfOne(nameToUID, c.name, c.uid);
      nameToUID := nameToUID - {c.name};
      clientIDToUID := DelEach(clientIDToUID, c.clientIDs);
      ipToUID := DelEach(ipToUID, c.ips);
      UnsetEach(subnetToUID, c.subnets);
      macToUID := DelEach(macToUID, c.macs);
      uidToClient := uidToClient - {c.uid};
    }

    method Add(c: Persistent)
      requires Valid() && c.uid != 0
      requires c.uid !in uidToClient && !Conflict(uidToClient, c)
      modifies this, subnetToUID
      ensures Valid() && uidToClient == old(uidToClient)[c.uid := c]
    {
      Put(c);
      AllExactAdd(old(View()), old(uidToClient), c);
      WellFormedAdd(old(uidToClient), c);
    }

    method Remove(c: Persistent)
      requires Valid() && c.uid in uidToClient && uidToClient[c.uid] == c
      modifies this, subnetToUID
      ensures Valid() && uidToClient == old(uidToClient) - {c.uid}
    {
      Drop(c);
      AllExactRemove(old(View()), old(uidToClient), c);
    }

    /** The maps report a clash exactly when some other stored client shares an
        identifier with c; the client named in the error is such a client, and
        the error's kind is the first kind in the source's order that clashes. */
    method Clashes(c: Persistent) returns (err: Option<Error>)
      requires Valid()
      ensures err.Some? <==> Conflict(uidToClient, c)
      ensures err.Some? ==>
                match err.value
                case ClashName(u) => Clashing(uidToClient, Names, c, u)
                case ClashClientID(u) => Clashing(uidToClient, ClientIDs, c, u)
                case ClashIP(u) => Clashing(uidToClient, IPs, c, u)
                case ClashSubnet(u) => Clashing(uidToClient, Subnets, c, u)
                case ClashMAC(u) => Clashing(uidToClient, MACs, c, u)
                case _ => false
      ensures err.Some? && !err.value.ClashName? ==> forall u :: !Clashing(uidToClient, Names, c, u)
      ensures err.Some? && (err.value.ClashIP? || err.value.ClashSubnet? || err.value.ClashMAC?) ==>
                forall u :: !Clashing(uidToClient, ClientIDs, c, u)
      ensures err.Some? && (err.value.ClashSubnet? || err.value.ClashMAC?) ==> forall u :: !Clashing(uidToClient, IPs, c, u)
      ensures err.Some? && err.value.ClashMAC? ==> forall u :: !Clashing(uidToClient, Subnets, c, u)
    {
      hide Exact;
      hide Clashing;
      hide Conflict;
      hide WellFormed;
      ConflictKinds(uidToClient, c);
      var u := ClashIn(nameToUID, [c.name], c, uidToClient, Names);
      if u.Some? {
        return Some(ClashName(u.value));
      }
      u := ClashIn(clientIDToUID, c.clientIDs, c, uidToClient, ClientIDs);
      if u.Some? {
        return Some(ClashClientID(u.value));
      }
      u := ClashIn(ipToUID, c.ips, c, uidToClient, IPs);
      if u.Some? {
        return Some(ClashIP(u.value));
      }
      u := ClashesSubnet(c);
      if u.Some? {
        return Some(ClashSubnet(u.value));
      }
      u := ClashIn(macToUID, c.macs, c, uidToClient, MACs);
      if u.Some? {
        return Some(ClashMAC(u.value));
      }
      return None;
    }

    method ClashesSubnet(c: Persistent) returns (r: Option<UID>)
      requires Sorted() && Exact(subnetToUID.vals, uidToClient, Subnets)
      ensures r.Some? ==> Clashing(uidToClient, Subnets, c, r.value)
      ensures r.None? ==> forall u :: !Clashing(uidToClient, Subnets, c, u)
    {
      hide Exact;
      hide SortedMap.Valid;
      hide Clashing;
      for i := 0 to |c.subnets|
        invariant forall j :: 0 <= j < i ==>
                    !(c.subnets[j] in subnetToUID.vals && subnetToUID.vals[c.subnets[j]] != c.uid)
      {
        var existing := FindSubnet(c.subnets[i]);
        if existing.Some? && existing.value != c.uid {
          TakenClashing(subnetToUID.vals, uidToClient, Subnets, c, c.subnets[i]);
          return existing;
        }
      }
      forall u | Clashing(uidToClient, Subnets, c, u) ensures Taken(subnetToUID.vals, Subnets(c), c.uid) {
        ClashingTaken(subnetToUID.vals, uidToClient, Subnets, c, u);
      }
      return None;
    }

    /** Looks a subnet up by walking the sorted map, as the source does. */
    method FindSubnet(s: Prefix) returns (r: Option<UID>)
      requires subnetToUID.Valid()
      ensures r == if s in subnetToUID.vals then Some(subnetToUID.vals[s]) else None
    {
      var i := subnetToUID.First((p: Prefix) => p == s);
      if i.Some? {
        return Some(subnetToUID.vals[s]);
      }
      return None;
    }

    method FindByName(name: string) returns (r: Option<Persistent>)
      requires Valid()
      ensures r.Some? ==> r.value.name == name && r.value.uid in uidToClient && uidToClient[r.value.uid] == r.value
      ensures r.None? ==> forall u :: u in uidToClient ==> uidToClient[u].name != name
    {
      if name in nameToUID {
        return Some(uidToClient[nameToUID[name]]);
      }
      forall u | u in uidToClient ensures uidToClient[u].name != name {
        Listed(nameToUID, uidToClient, Names, u, name);
      }
      return None;
    }

    method FindByClientID(id: string) returns (r: Option<Persistent>)
      requires Valid()
      ensures r.Some? ==> id in r.value.clientIDs && r.value.uid in uidToClient && uidToClient[r.value.uid] == r.value
      ensures r.None? ==> forall u :: u in uidToClient ==> id !in uidToClient[u].clientIDs
    {
      if id in clientIDToUID {
        return Some(uidToClient[clientIDToUID[id]]);
      }
      forall u | u in uidToClient ensures id !in uidToClient[u].clientIDs {
        Listed(clientIDToUID, uidToClient, ClientIDs, u, id);
      }
      return None;
    }

    method FindByCIDR(s: Prefix) returns (r: Option<Persistent>)
      requires Valid()
      ensures r.Some? ==> s in r.value.subnets && r.value.uid in uidToClient && uidToClient[r.value.uid] == r.value
      ensures r.None? ==> forall u :: u in uidToClient ==> s !in uidToClient[u].subnets
    {
      var uid := FindSubnet(s);
      if uid.Some? {
        return Some(uidToClient[uid.value]);
      }
      forall u | u in uidToClient ensures s !in uidToClient[u].subnets {
        Listed(subnetToUID.vals, uidToClient, Subnets, u, s);
      }
      return None;
    }

    method FindByMAC(mac: Mac) returns (r: Option<Persistent>)
      requires Valid()
      ensures r.Some? ==> mac in r.value.macs && r.value.uid in uidToClient && uidToClient[r.value.uid] == r.value
      ensures r.None? ==> forall u :: u in uidToClient ==> mac !in uidToClient[u].macs
    {
      if mac in macToUID {
        return Some(uidToClient[macToUID[mac]]);
      }
      forall u | u in uidToClient ensures mac !in uidToClient[u].macs {
        Listed(macToUID, uidToClient, MACs, u, mac);
      }
      return None;
    }

    /** An exact address first, then the longest prefix that contains it. */
    method FindByIP(ip: Addr) returns (r: Option<Persistent>)
      requires Valid()
      ensures r.Some? ==> r.value.uid in uidToClient && uidToClient[r.value.uid] == r.value
      ensures OwnsIP(uidToClient, ip) ==> r.Some? && ip in r.value.ips
      ensures r.Some? && ip !in r.value.ips ==>
                exists best :: LongestMatch(best, r.value.uid, uidToClient, ip.WithoutZone())
      ensures r.None? <==> !OwnsIP(uidToClient, ip) && !OwnsNetwork(uidToClient, ip.WithoutZone())
    {
      OwnersListed(View(), uidToClient, ip);
      if ip in ipToUID {
        return Some(uidToClient[ipToUID[ip]]);
      }
      var best := MatchSubnet(ip.WithoutZone());
      if best.Some? {
        MatchIsLongest(subnetToUID.vals, uidToClient, best.value, ip.WithoutZone());
        return Some(uidToClient[subnetToUID.vals[best.value]]);
      }
      return None;
    }

    /** The first prefix in the subnet order that contains the address. */
    method MatchSubnet(ip: Addr) returns (r: Option<Prefix>)
      requires Sorted()
      ensures r.Some? ==> r.value in subnetToUID.vals && Contains(r.value, ip)
      ensures r.Some? ==> forall q :: q in subnetToUID.vals && Contains(q, ip) ==>
                                        q.bits < r.value.bits || (q.bits == r.value.bits && r.value.addr.Value() <= q.addr.Value())
      ensures r.None? ==> forall q :: q in subnetToUID.vals ==> !Contains(q, ip)
    {
      var i := subnetToUID.First((p: Prefix) => Contains(p, ip));
      if i.Some? {
        FirstIsLongest(subnetToUID.keys, i.value, ip);
        return Some(subnetToUID.keys[i.value]);
      }
      return None;
    }
  }

  lemma WellFormedAdd(clients: Registry, c: Persistent)
    requires WellFormed(clients) && c.uid != 0 && c.uid !in clients && !Conflict(clients, c)
    ensures WellFormed(clients[c.uid := c])
  {
  }

  /** In the subnet order, the first prefix that contains an address is its
      longest match. */
  lemma FirstIsLongest(keys: seq<Prefix>, i: nat, ip: Addr)
    requires Ascending(CompareSubnet, keys) && i < |keys| && Contains(keys[i], ip)
    requires forall j :: 0 <= j < i ==> !Contains(keys[j], ip)
    ensures forall q :: q in keys && Contains(q, ip) ==>
                          q.bits < keys[i].bits || (q.bits == keys[i].bits && keys[i].addr.Value() <= q.addr.Value())
  {
  }
}
