/** Persistent clients and what it means for two of them to share an
    identifier (internal/client/persistent.go). */
module Clients {
  import opened NetIp
  import opened Wrappers

  /** 0 is the zero UID. */
  type UID = nat

  datatype Persistent = Persistent(
    uid: UID,
    name: string,
    clientIDs: seq<string>,
    ips: seq<Addr>,
    subnets: seq<Prefix>,
    macs: seq<Mac>,
    tags: seq<string>,
    upstreams: seq<string>,
    cacheSize: U32,
    cacheEnabled: bool)

  datatype Error =
    | EmptyName | IDRequired | UIDRequired | InvalidUpstreams | InvalidTag
    | NotFound
    | ClashUID(other: UID) | ClashName(other: UID) | ClashClientID(other: UID)
    | ClashIP(other: UID) | ClashSubnet(other: UID) | ClashMAC(other: UID)

  function Names(p: Persistent): seq<string> { [p.name] }
  function ClientIDs(p: Persistent): seq<string> { p.clientIDs }
  function IPs(p: Persistent): seq<Addr> { p.ips }
  function Subnets(p: Persistent): seq<Prefix> { p.subnets }
  function MACs(p: Persistent): seq<Mac> { p.macs }

  function IdentifiersLen(p: Persistent): nat {
    |p.ips| + |p.subnets| + |p.macs| + |p.clientIDs|
  }

  ghost predicate Meets<K>(a: seq<K>, b: seq<K>) {
    exists k :: k in a && k in b
  }

  /** p and q have an identifier of some kind in common. */
  ghost predicate Shares(p: Persistent, q: Persistent) {
    || Meets(Names(p), Names(q))
    || Meets(ClientIDs(p), ClientIDs(q))
    || Meets(IPs(p), IPs(q))
    || Meets(Subnets(p), Subnets(q))
    || Meets(MACs(p), MACs(q))
  }

  /** In plain fields: the same name, or a ClientID, an address, a subnet or a
      hardware address that both list. */
  lemma SharesMeans(p: Persistent, q: Persistent)
    ensures Shares(p, q) <==>
              || p.name == q.name
              || (exists id :: id in p.clientIDs && id in q.clientIDs)
              || (exists ip :: ip in p.ips && ip in q.ips)
              || (exists s :: s in p.subnets && s in q.subnets)
              || (exists mac :: mac in p.macs && mac in q.macs)
  {
    assert p.name in Names(p);
    assert forall k :: k in Names(p) && k in Names(q) ==> k == p.name == q.name;
  }

  type Registry = map<UID, Persistent>

  /** Some other stored client shares an identifier with c. */
  ghost predicate Conflict(clients: Registry, c: Persistent) {
    exists u :: u in clients && u != c.uid && Shares(clients[u], c)
  }

  /** Clients are stored under their own non-zero UID and no two share anything. */
  ghost predicate WellFormed(clients: Registry) {
    && (forall u :: u in clients ==> u != 0 && clients[u].uid == u)
    && (forall u, v :: u in clients && v in clients && u != v ==> !Shares(clients[u], clients[v]))
  }

  /** The checks of `Persistent.validate`; `upstreamsOk` is the verdict of the
      upstream parser. */
  function Validate(p: Persistent, upstreamsOk: bool, allowedTags: set<string>): (r: Option<Error>)
    ensures r.None? <==> && p.name != ""
                         && (p.clientIDs != [] || p.ips != [] || p.subnets != [] || p.macs != [])
                         && p.uid != 0 && upstreamsOk
                         && forall t :: t in p.tags ==> t in allowedTags
    // A rejected client fails the check that the error names, and none before it.
    ensures r.Some? ==>
              match r.value
              case EmptyName => p.name == ""
              case IDRequired => p.name != "" && p.clientIDs == [] && p.ips == [] && p.subnets == [] && p.macs == []
              case UIDRequired => p.name != "" && p.uid == 0
              case InvalidUpstreams => p.name != "" && p.uid != 0 && !upstreamsOk
              case InvalidTag => p.name != "" && p.uid != 0 && upstreamsOk && exists t :: t in p.tags && t !in allowedTags
              case _ => false
  {
    if p.name == "" then Some(EmptyName)
    else if IdentifiersLen(p) == 0 then Some(IDRequired)
    else if p.uid == 0 then Some(UIDRequired)
    else if !upstreamsOk then Some(InvalidUpstreams)
    else if exists t :: t in p.tags && t !in allowedTags then Some(InvalidTag)
    else None
  }
}
