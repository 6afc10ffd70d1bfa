/** Runtime clients: per-address information from several sources, of which
    one is reloaded at a time (internal/client/runtimeindex.go, client.go and
    the reload methods of storage.go). */
module RuntimeClients {
  import opened NetIp
  import opened Wrappers

  datatype Source = WHOIS | ARP | RDNS | DHCP | HostsFile

  datatype Whois = Whois(city: string, country: string, orgname: string)

  /** `None` is the nil slice: no information from the source.  `Some([])` is
      information that is present, but empty. */
  datatype Info = Info(
    whois: Option<Whois>,
    arp: Option<seq<string>>,
    rdns: Option<seq<string>>,
    dhcp: Option<seq<string>>,
    hostsFile: Option<seq<string>>)
  {
    predicate IsEmpty() {
      this == NO_INFO
    }

    function Get(src: Source): Option<seq<string>> {
      match src
      case WHOIS => None
      case ARP => arp
      case RDNS => rdns
      case DHCP => dhcp
      case HostsFile => hostsFile
    }

    function Unset(src: Source): Info {
      match src
      case WHOIS => this.(whois := None)
      case ARP => this.(arp := None)
      case RDNS => this.(rdns := None)
      case DHCP => this.(dhcp := None)
      case HostsFile => this.(hostsFile := None)
    }

    function Set(src: Source, hosts: seq<string>): Info {
      var hs := Normalize(hosts);
      match src
      case WHOIS => this
      case ARP => this.(arp := Some(hs))
      case RDNS => this.(rdns := Some(hs))
      case DHCP => this.(dhcp := Some(hs))
      case HostsFile => this.(hostsFile := Some(hs))
    }

    predicate Has(src: Source) {
      if src.WHOIS? then whois.Some? else Get(src).Some?
    }
  }

  const NO_INFO := Info(None, None, None, None, None)

  /** The order of the sources determines their priority. */
  function Priority(src: Source): nat {
    match src
    case WHOIS => 1
    case ARP => 2
    case RDNS => 3
    case DHCP => 4
    case HostsFile => 5
  }

  lemma PriorityOrder()
    ensures Priority(HostsFile) > Priority(DHCP) > Priority(RDNS) > Priority(ARP) > Priority(WHOIS)
  {
  }

  function Normalize(hosts: seq<string>): seq<string> {
    if hosts == [""] then [] else hosts
  }

  datatype Record = Record(ip: Addr, host: string)

  type View = map<Addr, Info>

  /** Absence and an empty entry mean the same to a reader. */
  function Look(v: View, ip: Addr): Info {
    if ip in v then v[ip] else NO_INFO
  }

  /** The last record for the address, if any. */
  ghost function Last(recs: seq<Record>, ip: Addr): Option<seq<string>> {
    if recs == [] then None
    else if recs[|recs| - 1].ip == ip then Some(Normalize([recs[|recs| - 1].host]))
    else Last(recs[..|recs| - 1], ip)
  }

  /** The record number i is the last one for the address. */
  ghost predicate LastAt(recs: seq<Record>, ip: Addr, i: nat) {
    i < |recs| && recs[i].ip == ip && forall j :: i < j < |recs| ==> recs[j].ip != ip
  }

  lemma {:induction false} LastNone(recs: seq<Record>, ip: Addr)
    ensures Last(recs, ip).None? <==> forall r :: r in recs ==> r.ip != ip
  {
    if recs != [] {
      var init, last := recs[..|recs| - 1], recs[|recs| - 1];
      LastNone(init, ip);
      assert forall r :: r in recs <==> r in init || r == last;
    }
  }

  /** Of several records for an address the last one counts; its host is the one
      name, unless it is empty. */
  lemma {:induction false} LastIs(recs: seq<Record>, ip: Addr, i: nat)
    requires LastAt(recs, ip, i)
    ensures Last(recs, ip) == Some(if recs[i].host == "" then [] else [recs[i].host])
  {
    if i < |recs| - 1 {
      LastIs(recs[..|recs| - 1], ip, i);
    }
  }

  ghost predicate NoEmpty(v: View) {
    forall ip :: ip in v ==> !v[ip].IsEmpty()
  }

  ghost function Cleared(v: View, src: Source): View {
    map ip | ip in v :: v[ip].Unset(src)
  }

  ghost function Filled(v: View, src: Source, recs: seq<Record>): View {
    if recs == [] then v else
      var v1 := Filled(v, src, recs[..|recs| - 1]);
      var r := recs[|recs| - 1];
      v1[r.ip := Look(v1, r.ip).Set(src, [r.host])]
  }

  ghost function Pruned(v: View): View {
    map ip | ip in v && !v[ip].IsEmpty() :: v[ip]
  }

  lemma PrunedIs(v: View, w: View)
    requires forall ip :: ip in w <==> ip in v && !v[ip].IsEmpty()
    requires forall ip :: ip in w ==> w[ip] == v[ip]
    ensures w == Pruned(v)
  {
  }

  ghost function Reloaded(v: View, src: Source, recs: seq<Record>): View {
    Pruned(Filled(Cleared(v, src), src, recs))
  }

  /** Addresses that only the reloaded source knew and no longer lists. */
  ghost function Forgotten(v: View, src: Source, recs: seq<Record>): set<Addr> {
    set ip | ip in v && v[ip].Unset(src).IsEmpty() && Last(recs, ip).None?
  }

  lemma {:induction false} FilledLook(v: View, src: Source, recs: seq<Record>, ip: Addr)
    requires src != WHOIS
    ensures Look(Filled(v, src, recs), ip).Unset(src) == Look(v, ip).Unset(src)
    ensures Look(Filled(v, src, recs), ip).Get(src) ==
            if Last(recs, ip).Some? then Last(recs, ip) else Look(v, ip).Get(src)
    ensures ip in Filled(v, src, recs) <==> ip in v || Last(recs, ip).Some?
  {
    if recs != [] {
      FilledLook(v, src, recs[..|recs| - 1], ip);
      FilledLook(v, src, recs[..|recs| - 1], recs[|recs| - 1].ip);
    }
  }

  /** Reloading a source replaces exactly that source. */
  lemma ReloadReplacesSource(v: View, src: Source, recs: seq<Record>, ip: Addr)
    requires src != WHOIS
    ensures Look(Reloaded(v, src, recs), ip)
         == match src
            case ARP => Look(v, ip).(arp := Last(recs, ip))
            case RDNS => Look(v, ip).(rdns := Last(recs, ip))
            case DHCP => Look(v, ip).(dhcp := Last(recs, ip))
            case _ => Look(v, ip).(hostsFile := Last(recs, ip))
  {
    FilledLook(Cleared(v, src), src, recs, ip);
  }

  /** No empty client is left, and the number of removed clients is the number
      of addresses that nothing is known about any more. */
  lemma ReloadRemovesForgotten(v: View, src: Source, recs: seq<Record>)
    requires src != WHOIS && NoEmpty(v)
    ensures NoEmpty(Reloaded(v, src, recs))
    ensures var full := Filled(Cleared(v, src), src, recs);
            full.Keys - Reloaded(v, src, recs).Keys == Forgotten(v, src, recs)
    ensures forall ip :: ip in Forgotten(v, src, recs) <==>
                           && ip in v && (forall r :: r in recs ==> r.ip != ip)
                           && v[ip].whois.None?
                           && (src == ARP || v[ip].arp.None?) && (src == RDNS || v[ip].rdns.None?)
                           && (src == DHCP || v[ip].dhcp.None?) && (src == HostsFile || v[ip].hostsFile.None?)
  {
    var c := Cleared(v, src);
    var full := Filled(c, src, recs);
    forall ip ensures ip in full.Keys - Reloaded(v, src, recs).Keys <==> ip in Forgotten(v, src, recs) {
      FilledLook(c, src, recs, ip);
    }
    forall ip ensures Last(recs, ip).None? <==> forall r :: r in recs ==> r.ip != ip {
      LastNone(recs, ip);
    }
  }

  class Runtime {
    const ip: Addr
    var whois: Option<Whois>
    var arp: Option<seq<string>>
    var rdns: Option<seq<string>>
    var dhcp: Option<seq<string>>
    var hostsFile: Option<seq<string>>

    ghost function Val(): Info
      reads this
    {
      Info(whois, arp, rdns, dhcp, hostsFile)
    }

    constructor (ip: Addr)
      ensures this.ip == ip && Val() == NO_INFO
    {
      this.ip := ip;
      whois, arp, rdns, dhcp, hostsFile := None, None, None, None, None;
    }

    method SetInfo(src: Source, hosts: seq<string>)
      modifies this
      ensures Val() == old(Val()).Set(src, hosts)
    {
      var hs := if |hosts| == 1 && hosts[0] == "" then [] else hosts;
      match src
      case WHOIS =>
      case ARP => arp := Some(hs);
      case RDNS => rdns := Some(hs);
      case DHCP => dhcp := Some(hs);
      case HostsFile => hostsFile := Some(hs);
    }

    method Unset(src: Source)
      modifies this
      ensures Val() == old(Val()).Unset(src)
    {
      match src
      case WHOIS => whois := None;
      case ARP => arp := None;
      case RDNS => rdns := None;
      case DHCP => dhcp := None;
      case HostsFile => hostsFile := None;
    }

    method IsEmpty() returns (r: bool)
      ensures r <==> Val().IsEmpty()
    {
      r := whois == None && arp == None && rdns == None && dhcp == None && hostsFile == None;
    }

    method SetWHOIS(info: Whois)
      modifies this
      ensures Val() == old(Val()).(whois := Some(info))
    {
      whois := Some(info);
    }

    /** Some source has information, and none that has any is more important;
        the host is the first that this source names, if it names one. */
    method GetInfo() returns (src: Option<Source>, host: string)
      ensures src.None? <==> Val().IsEmpty()
      ensures src.Some? ==> Val().Has(src.value) && forall s :: Val().Has(s) ==> Priority(s) <= Priority(src.value)
      ensures host != "" ==> src.Some? && Val().Get(src.value).Some?
      ensures src.Some? && Val().Get(src.value).Some? ==>
                var hosts := Val().Get(src.value).value;
                host == if hosts == [] then "" else hosts[0]
    {
      var info := [];
      src := None;
      if hostsFile.Some? {
        src, info := Some(HostsFile), hostsFile.value;
      } else if dhcp.Some? {
        src, info := Some(DHCP), dhcp.value;
      } else if rdns.Some? {
        src, info := Some(RDNS), rdns.value;
      } else if arp.Some? {
        src, info := Some(ARP), arp.value;
      } else if whois.Some? {
        src := Some(WHOIS);
      }
      host := if |info| == 0 then "" else info[0];
    }
  }

  /** The neighbour table that a reload asks; after a failed refresh it is
      replaced by one that is always empty. */
  datatype ArpDB = System | NoTable

  /** What one refresh of the system's table gives. */
  datatype Poll = Poll(refreshOk: bool, neighbors: seq<Record>)

  /** What a run of ARP reloads means: the reloads up to the first failure count,
      an empty list changes nothing. */
  ghost function Polled(v: View, polls: seq<Poll>): View {
    if polls == [] then v
    else
      var (v1, last) := (Polled(v, polls[..|polls| - 1]), polls[|polls| - 1]);
      if Failed(polls) || last.neighbors == [] then v1 else Reloaded(v1, ARP, last.neighbors)
  }

  ghost predicate Failed(polls: seq<Poll>) {
    exists p :: p in polls && !p.refreshOk
  }

  /** Whatever comes after a failed refresh is never looked at again. */
  lemma {:induction false} FailureIsFinal(v: View, polls: seq<Poll>, more: seq<Poll>)
    requires Failed(polls)
    ensures Failed(polls + more) && Polled(v, polls + more) == Polled(v, polls)
  {
    var p :| p in polls && !p.refreshOk;
    assert p in polls + more;
    if more == [] {
      assert polls + more == polls;
    } else {
      assert (polls + more)[..|polls + more| - 1] == polls + more[..|more| - 1];
      FailureIsFinal(v, polls, more[..|more| - 1]);
    }
  }

  class RuntimeIndex {
    var index: map<Addr, Runtime>
    var arpDB: ArpDB

    ghost function Contents(): View
      reads this, index.Values
    {
      map ip | ip in index :: index[ip].Val()
    }

    /** Every client is stored under its own address, so no object is shared. */
    ghost predicate Keyed()
      reads this
    {
      forall ip :: ip in index ==> index[ip].ip == ip
    }

    ghost predicate Valid()
      reads this, index.Values
    {
      Keyed() && NoEmpty(Contents())
    }

    constructor ()
      ensures Valid() && Contents() == map[] && arpDB.System?
    {
      index := map[];
      arpDB := System;
    }

    method SetInfo(ip: Addr, src: Source, hosts: seq<string>)
      requires Keyed()
      modifies this`index, index.Values
      ensures Keyed() && fresh(index.Values - old(index.Values))
      ensures Contents() == old(Contents())[ip := Look(old(Contents()), ip).Set(src, hosts)]
    {
      if ip !in index {
        var rc := new Runtime(ip);
        index := index[ip := rc];
      }
      index[ip].SetInfo(src, hosts);
    }

    method ClearSource(src: Source)
      requires Keyed()
      modifies index.Values
      ensures Contents() == Cleared(old(Contents()), src)
    {
      var rest := index.Keys;
      while rest != {}
        invariant rest <= index.Keys
        invariant forall ip :: ip in index ==>
                    index[ip].Val() == if ip in rest then old(index[ip].Val()) else old(index[ip].Val()).Unset(src)
      {
        var ip :| ip in rest;
        rest := rest - {ip};
        index[ip].Unset(src);
      }
    }

    method RemoveEmpty() returns (n: nat)
      requires Keyed()
      modifies this`index
      ensures Keyed() && forall ip :: ip in index ==> ip in old(index) && index[ip] == old(index)[ip]
      ensures Contents() == Pruned(old(Contents()))
      ensures n == |old(Contents()).Keys - Contents().Keys|
    {
      hide Info.IsEmpty;
      hide Runtime.Val;
      hide RuntimeIndex.Contents;
      hide Pruned;
      ghost var v, was := Contents(), index;
      ContentsOf();
      var kept;
      kept, n := DropEmpty();
      index := kept;
      ContentsOf();
      PrunedIs(v, Contents());
      assert v.Keys == was.Keys && Contents().Keys == kept.Keys;
    }

    lemma ContentsOf()
      ensures Contents().Keys == index.Keys
      ensures forall ip :: ip in index ==> Contents()[ip] == index[ip].Val()
    {
    }

    /** The loop of `removeEmpty`, over a copy of the map. */
    method DropEmpty() returns (kept: map<Addr, Runtime>, n: nat)
      requires Keyed()
      ensures forall ip :: ip in kept ==> ip in index && kept[ip] == index[ip]
      ensures forall ip :: ip in kept <==> ip in index && !index[ip].Val().IsEmpty()
      ensures n == |index.Keys - kept.Keys|
    {
      hide Info.IsEmpty;
      hide Runtime.Val;
      kept, n := index, 0;
      var rest := index.Keys;
      ghost var gone: set<Addr> := {};
      while rest != {}
        invariant rest <= kept.Keys <= index.Keys
        invariant gone !! kept.Keys && gone + kept.Keys == index.Keys && n == |gone|
        invariant forall ip :: ip in kept ==> kept[ip] == index[ip]
        invariant forall ip :: ip in index && ip !in rest ==> (ip in kept <==> !index[ip].Val().IsEmpty())
      {
        var ip :| ip in rest;
        var empty := index[ip].IsEmpty();
        rest := rest - {ip};
        if empty {
          gone := gone + {ip};
          kept := kept - {ip};
          n := n + 1;
        }
      }
      assert index.Keys - kept.Keys == gone;
    }

    /** The common part of the three reloads. */
    method Reload(src: Source, recs: seq<Record>) returns (removed: nat)
      requires Valid() && src != WHOIS
      modifies this`index, index.Values
      ensures Valid() && fresh(index.Values - old(index.Values))
      ensures Contents() == Reloaded(old(Contents()), src, recs)
      ensures removed == |Forgotten(old(Contents()), src, recs)|
    {
      ghost var v := Contents();
      ReloadRemovesForgotten(v, src, recs);
      ClearSource(src);
      for i := 0 to |recs|
        invariant Keyed() && fresh(index.Values - old(index.Values))
        invariant Contents() == Filled(Cleared(v, src), src, recs[..i])
      {
        assert recs[..i + 1][..i] == recs[..i];
        SetInfo(recs[i].ip, src, [recs[i].host]);
      }
      assert recs[..|recs|] == recs;
      removed := RemoveEmpty();
    }

    /** An empty neighbour list changes nothing.  A failed refresh changes no
        client either, but it is the last one that is ever made. */
    method AddFromSystemARP(refreshOk: bool, neighbors: seq<Record>)
      requires Valid()
      modifies this, index.Values
      ensures Valid() && fresh(index.Values - old(index.Values))
      ensures arpDB == if refreshOk then old(arpDB) else NoTable
      ensures Contents() == if old(arpDB).System? && refreshOk && neighbors != []
                            then Reloaded(old(Contents()), ARP, neighbors) else old(Contents())
    {
      // The empty table's own refresh never fails and lists nothing.
      if arpDB.System? && !refreshOk {
        arpDB := NoTable;
        return;
      }
      var ns := if arpDB.System? then neighbors else [];
      if |ns| == 0 {
        return;
      }
      var removed := Reload(ARP, ns);
    }

    /** Any number of ARP reloads: after the first failed refresh the ARP source
        stays as it was, for good. */
    method PollARP(polls: seq<Poll>)
      requires Valid() && arpDB.System?
      modifies this, index.Values
      ensures Valid() && Contents() == Polled(old(Contents()), polls)
      ensures arpDB.NoTable? <==> Failed(polls)
    {
      hide Reloaded;
      hide RuntimeIndex.Valid;
      for i := 0 to |polls|
        invariant Valid() && Contents() == Polled(old(Contents()), polls[..i])
        invariant fresh(index.Values - old(index.Values))
        invariant arpDB.NoTable? <==> Failed(polls[..i])
      {
        assert polls[..i + 1][..i] == polls[..i];
        assert forall p :: p in polls[..i + 1] <==> p in polls[..i] || p == polls[i];
        AddFromSystemARP(polls[i].refreshOk, polls[i].neighbors);
      }
      assert polls[..|polls|] == polls;
    }

    /** Only the first name of an address counts; an empty file clears the source. */
    method AddFromHostsFile(hosts: seq<Record>)
      requires Valid()
      modifies this`index, index.Values
      ensures Valid() && Contents() == Reloaded(old(Contents()), HostsFile, hosts)
    {
      var removed := Reload(HostsFile, hosts);
    }

    method UpdateDHCP(enabled: bool, leases: seq<Record>)
      requires Valid()
      modifies this`index, index.Values
      ensures Valid()
      ensures Contents() == if enabled then Reloaded(old(Contents()), DHCP, leases) else old(Contents())
    {
      if !enabled {
        return;
      }
      var removed := Reload(DHCP, leases);
    }

    /** `isPersistent` tells whether the client index finds the address. */
    method UpdateAddress(ip: Addr, host: string, info: Option<Whois>, isPersistent: bool)
      requires Valid()
      modifies this`index, index.Values
      ensures Valid()
      ensures var was := old(Contents());
              var named := if host == "" then was else was[ip := Look(was, ip).(rdns := Some([host]))];
              Contents() == if info.None? || isPersistent then named
                            else named[ip := Look(named, ip).(whois := info)]
    {
      if host == "" && info.None? {
        return;
      }
      if host != "" {
        SetInfo(ip, RDNS, [host]);
      }
      if info.Some? && !isPersistent {
        SetWHOIS(ip, info.value);
      }
    }

    method SetWHOIS(ip: Addr, info: Whois)
      requires Keyed()
      modifies this`index, index.Values
      ensures Keyed()
      ensures Contents() == old(Contents())[ip := Look(old(Contents()), ip).(whois := Some(info))]
    {
      if ip !in index {
        var rc := new Runtime(ip);
        index := index[ip := rc];
      }
      index[ip].SetWHOIS(info);
    }

    /** Adds what the DHCP server knows, unless the hosts file has the address. */
    method ClientRuntime(ip: Addr, sourceDHCP: bool, dhcpHost: string) returns (rc: Option<Info>)
      requires Valid()
      modifies this`index, index.Values
      ensures Valid()
      ensures rc == if ip in Contents() then Some(Contents()[ip]) else None
      ensures var was := Look(old(Contents()), ip);
              Contents() == if sourceDHCP && was.hostsFile.None? && dhcpHost != ""
                            then old(Contents())[ip := was.(dhcp := Some([dhcpHost]))]
                            else old(Contents())
    {
      if sourceDHCP && !(ip in index && index[ip].hostsFile.Some?) && dhcpHost != "" {
        SetInfo(ip, DHCP, [dhcpHost]);
      }
      if ip !in index {
        return None;
      }
      var r := index[ip];
      rc := Some(Info(r.whois, r.arp, r.rdns, r.dhcp, r.hostsFile));
    }
  }
}
