/** Cached upstream configurations of the persistent clients
    (internal/client/upstreammanager.go): which handles are open, and whether
    a cached configuration is what would be built now. */
module UpstreamManagers {
  import opened Clients
  import opened NetIp
  import opened Wrappers

  datatype CommonConf = CommonConf(bootstrap: string, timeout: int, preferIPv6: bool, ednsSubnet: bool, http3: bool)

  datatype Settings = Settings(upstreams: seq<string>, cacheSize: U32, cacheEnabled: bool)

  function SettingsOf(c: Persistent): Settings {
    Settings(c.upstreams, c.cacheSize, c.cacheEnabled)
  }

  predicate IsCommentOrEmpty(s: string) {
    |s| == 0 || s[0] == '#'
  }

  function FilterOut(ups: seq<string>): seq<string> {
    if ups == [] then []
    else if IsCommentOrEmpty(ups[0]) then FilterOut(ups[1..])
    else [ups[0]] + FilterOut(ups[1..])
  }

  /** `kept` are the entries of `all` at the places `at`: those that are neither
      empty nor comments, in the order they had. */
  ghost predicate Picks(all: seq<string>, kept: seq<string>, at: seq<nat>) {
    && |at| == |kept|
    && (forall j, k :: 0 <= j < k < |at| ==> at[j] < at[k])
    && (forall k :: 0 <= k < |at| ==> at[k] < |all| && kept[k] == all[at[k]])
    && (forall i :: 0 <= i < |all| ==> (i in at <==> all[i] != "" && all[i][0] != '#'))
  }

  lemma {:induction false} FilterOutSnoc(ups: seq<string>, x: string)
    ensures FilterOut(ups + [x]) == FilterOut(ups) + if IsCommentOrEmpty(x) then [] else [x]
  {
    if ups == [] {
      assert ups + [x] == [x];
    } else {
      assert (ups + [x])[1..] == ups[1..] + [x];
      FilterOutSnoc(ups[1..], x);
    }
  }

  lemma {:induction false} FilterOutPicks(ups: seq<string>) returns (at: seq<nat>)
    ensures Picks(ups, FilterOut(ups), at)
  {
    at := [];
    if ups != [] {
      var n := |ups| - 1;
      assert ups == ups[..n] + [ups[n]];
      FilterOutSnoc(ups[..n], ups[n]);
      at := FilterOutPicks(ups[..n]);
      hide FilterOut;
      if !IsCommentOrEmpty(ups[n]) {
        at := at + [n];
      }
    }
  }

  /** Everything a proxy configuration is built from. */
  datatype Built = Built(upstreams: seq<string>, common: CommonConf, cacheEnabled: bool, cacheSize: U32)

  /** What `newCustomUpstreamConfig` makes; nothing if no upstream is left. */
  function Build(s: Settings, conf: CommonConf): Option<Built> {
    var ups := FilterOut(s.upstreams);
    if |ups| == 0 then None else Some(Built(ups, conf, s.cacheEnabled, s.cacheSize))
  }

  /** What is built keeps the entries that are neither empty nor comments, in
      their order, and the cache settings; with no such entry nothing is built. */
  lemma BuildKeeps(s: Settings, conf: CommonConf)
    ensures Build(s, conf).None? <==> forall x :: x in s.upstreams ==> x == "" || x[0] == '#'
    ensures Build(s, conf).Some? ==>
              var made := Build(s, conf).value;
              && (exists at :: Picks(s.upstreams, made.upstreams, at))
              && made == Built(made.upstreams, conf, s.cacheEnabled, s.cacheSize)
  {
    var at := FilterOutPicks(s.upstreams);
    if Build(s, conf).None? {
      forall x | x in s.upstreams ensures x == "" || x[0] == '#' {
        var i :| 0 <= i < |s.upstreams| && s.upstreams[i] == x;
      }
    } else {
      assert Picks(s.upstreams, Build(s, conf).value.upstreams, at);
      assert at[0] in at && s.upstreams[at[0]] in s.upstreams;
    }
  }

  /** A closable handle.  Closing one twice is an error. */
  class ProxyConf {
    const made: Built
    var isOpen: bool

    constructor (made: Built)
      ensures this.made == made && isOpen
    {
      this.made := made;
      isOpen := true;
    }

    method Close()
      requires isOpen
      modifies this
      ensures !isOpen
    {
      isOpen := false;
    }
  }

  function Made(h: ProxyConf?): Option<Built> {
    if h == null then None else Some(h.made)
  }

  /** A client's cached configuration; `settings` are copied from the client. */
  datatype Entry = Entry(proxyConf: ProxyConf?, commonConfUpdate: int, settings: Settings, isChanged: bool) {

    /** An entry that is not marked was built from the settings it holds, with
        some common configuration. */
    ghost predicate FromSettings() {
      isChanged
      || (if proxyConf == null then FilterOut(settings.upstreams) == []
          else Build(settings, proxyConf.made.common) == Some(proxyConf.made))
    }
  }

  class Manager {
    var entries: map<UID, Entry>
    var commonConf: Option<CommonConf>
    var confUpdate: int

    /** Every handle built so far, open or closed. */
    ghost var built: set<ProxyConf>

    /** The client that holds each open handle. */
    ghost var holder: map<ProxyConf, UID>

    /** `holder` is the inverse of the entries' handles, and the handles built
        and not yet closed are the ones in it. */
    ghost predicate Conserved()
      reads this, built
    {
      && (forall h :: h in holder ==> h in built && holder[h] in entries && entries[holder[h]].proxyConf == h)
      && (forall u :: u in entries && entries[u].proxyConf != null ==>
                        entries[u].proxyConf in holder && holder[entries[u].proxyConf] == u)
      && (forall h :: h in built ==> (h.isOpen <==> h in holder))
    }

    /** What holds whatever the clock says. */
    ghost predicate Valid()
      reads this, built
    {
      Conserved() && forall u :: u in entries ==> entries[u].FromSettings()
    }

    /** An entry that counts as up to date has a handle for the latest common
        configuration. */
    ghost predicate FreshEntry(e: Entry)
      reads this`commonConf, this`confUpdate
    {
      !IsConfigChanged(e) && e.proxyConf != null ==> commonConf == Some(e.proxyConf.made.common)
    }

    ghost predicate Fresh()
      reads this`entries, this`commonConf, this`confUpdate
    {
      forall u :: u in entries ==> FreshEntry(entries[u])
    }

    /** Fresh, and nothing was built later than the latest common configuration. */
    ghost predicate InTime()
      reads this`entries, this`commonConf, this`confUpdate
    {
      Fresh() && forall u :: u in entries ==> entries[u].commonConfUpdate <= confUpdate
    }

    /** In plain words: a built handle is open exactly if some entry holds it,
        and no two entries hold the same one. */
    lemma OpenMeansHeld()
      requires Valid()
      ensures forall h :: h in built ==> (h.isOpen <==> exists u :: u in entries && entries[u].proxyConf == h)
      ensures forall u, v :: u in entries && v in entries && u != v && entries[u].proxyConf != null ==>
                               entries[u].proxyConf != entries[v].proxyConf
    {
    }

    lemma HeldIsOpen(uid: UID)
      requires Valid() && uid in entries
      ensures entries[uid].proxyConf != null ==> entries[uid].proxyConf in built && entries[uid].proxyConf.isOpen
    {
    }

    ghost function Stored(): map<UID, Settings>
      reads this
    {
      map u | u in entries :: entries[u].settings
    }

    /** 0 stands for the zero time. */
    constructor ()
      ensures Valid() && InTime() && entries == map[] && built == {} && commonConf == None && confUpdate == 0
    {
      entries := map[];
      commonConf := None;
      confUpdate := 0;
      built := {};
      holder := map[];
    }

    predicate IsConfigChanged(e: Entry)
      reads this`confUpdate
    {
      confUpdate != e.commonConfUpdate || e.isChanged
    }

    /** Freshness survives, whatever the clock says, exactly if no cached handle
        was built at this very reading for another configuration.  A clock that
        has advanced rules that out. */
    method UpdateCommon(conf: CommonConf, now: int)
      requires Valid()
      modifies this`commonConf, this`confUpdate
      ensures Valid() && commonConf == Some(conf) && confUpdate == now
      ensures Fresh() <==>
                forall u :: u in entries && entries[u].proxyConf != null && !entries[u].isChanged && entries[u].commonConfUpdate == now ==>
                              entries[u].proxyConf.made.common == conf
      ensures old(InTime()) && now > old(confUpdate) ==> InTime()
      // A clock that stands still: nothing may change, or nothing be cached.
      ensures old(InTime()) && now == old(confUpdate) ==>
                (InTime() <==>
                  || old(commonConf) == Some(conf)
                  || forall u :: u in entries && entries[u].proxyConf != null ==> old(IsConfigChanged(entries[u])))
    {
      commonConf := Some(conf);
      confUpdate := now;
      if now == old(confUpdate) && old(InTime()) && old(commonConf) != Some(conf) {
        forall u | u in entries && entries[u].proxyConf != null
          ensures FreshEntry(entries[u]) <==> old(IsConfigChanged(entries[u]))
        {
        }
      }
    }

    /** Records the client's settings and marks them as not built yet. */
    method UpdateCustom(c: Persistent)
      requires Valid()
      modifies this`entries
      ensures Valid() && (old(Fresh()) ==> Fresh()) && (old(InTime()) ==> InTime())
      ensures Stored() == old(Stored())[c.uid := Settings(c.upstreams, c.cacheSize, c.cacheEnabled)]
      ensures entries ==
              old(entries)[c.uid := Entry(if c.uid in old(entries) then old(entries)[c.uid].proxyConf else null,
                                          if c.uid in old(entries) then old(entries)[c.uid].commonConfUpdate else confUpdate,
                                          Settings(c.upstreams, c.cacheSize, c.cacheEnabled), true)]
    {
      hide Build;
      hide FilterOut;
      var e := if c.uid in entries then entries[c.uid] else Entry(null, confUpdate, SettingsOf(c), true);
      e := e.(settings := SettingsOf(c), isChanged := true);
      SettingsStored(c.uid, e);
      entries := entries[c.uid := e];
    }

    /** Writing settings and the mark alone disturbs no handle. */
    lemma SettingsStored(uid: UID, e: Entry)
      requires Conserved() && e.isChanged && e.proxyConf == if uid in entries then entries[uid].proxyConf else null
      ensures var es := entries[uid := e];
              && (forall h :: h in holder ==> holder[h] in es && es[holder[h]].proxyConf == h)
              && (forall u :: u in es && es[u].proxyConf != null ==> es[u].proxyConf in holder && holder[es[u].proxyConf] == u)
    {
    }

    /** Never returns a closed handle.  What it returns is what would be built
        from the stored settings and the latest common configuration exactly if
        the entry is not up to date by accident of the clock. */
    method CustomUpstreamConfig(uid: UID) returns (r: ProxyConf?)
      requires Valid() && commonConf.Some?
      modifies this`entries, this`built, this`holder, built
      ensures Valid() && (old(Fresh()) ==> Fresh()) && (old(InTime()) ==> InTime())
      ensures Stored() == old(Stored())
      ensures old(built) <= built && fresh(built - old(built))
      ensures uid !in old(entries) ==> r == null
      ensures uid in old(entries) ==> uid in entries && r == entries[uid].proxyConf && !IsConfigChanged(entries[uid])
      ensures r != null ==> r in built && r.isOpen
      ensures uid in old(entries) ==> (Made(r) == Build(Stored()[uid], commonConf.value) <==> old(FreshEntry(entries[uid])))
      // An up-to-date entry is a cache hit: the same handle, nothing built.
      ensures uid in old(entries) && !old(entries)[uid].isChanged && old(entries)[uid].commonConfUpdate == confUpdate ==>
                r == old(entries[uid].proxyConf) && built == old(built)
      ensures uid in old(entries) && (old(entries)[uid].isChanged || old(entries)[uid].commonConfUpdate != confUpdate) ==>
                Made(r) == Build(Stored()[uid], commonConf.value) && r !in old(built)
      // Only the handle that was replaced is closed.
      ensures forall h :: h in old(built) && (uid !in old(entries) || h != old(entries[uid].proxyConf)) ==>
                            h.isOpen == old(h.isOpen)
      ensures uid in old(entries) && old(IsConfigChanged(entries[uid])) && old(entries[uid].proxyConf) != null ==>
                !old(entries[uid].proxyConf).isOpen
    {
      hide Manager.Conserved;
      if uid !in entries {
        return null;
      }
      HeldIsOpen(uid);
      var e := entries[uid];
      if !IsConfigChanged(e) {
        return e.proxyConf;
      }
      r := Rebuild(uid);
    }

    /** The staleness branch: closes the old handle, builds and stores a new one. */
    method Rebuild(uid: UID) returns (r: ProxyConf?)
      requires Conserved() && commonConf.Some? && uid in entries
      modifies this`entries, this`built, this`holder, entries[uid].proxyConf
      ensures Conserved()
      ensures entries == old(entries)[uid := Entry(r, confUpdate, old(entries)[uid].settings, false)]
      ensures Made(r) == Build(old(entries)[uid].settings, commonConf.value)
      ensures built == if r == null then old(built) else old(built) + {r}
      ensures r != null ==> fresh(r) && r.isOpen
      ensures old(entries[uid].proxyConf) != null ==> !old(entries[uid].proxyConf).isOpen
    {
      var e := entries[uid];
      CloseHeld(uid);
      r := NewProxyConf(e.settings, commonConf.value);
      Hold(uid, Entry(r, confUpdate, e.settings, false));
    }

    /** Closes the entry's handle, if it has one. */
    method CloseHeld(uid: UID)
      requires Conserved() && uid in entries
      modifies this`entries, this`holder, entries[uid].proxyConf
      ensures Conserved()
      ensures entries == old(entries)[uid := old(entries)[uid].(proxyConf := null)]
      ensures old(entries[uid].proxyConf) != null ==> !old(entries[uid].proxyConf).isOpen
    {
      var h := entries[uid].proxyConf;
      entries := entries[uid := entries[uid].(proxyConf := null)];
      if h != null {
        holder := holder - {h};
        h.Close();
      }
    }

    /** Replaces an entry without a handle by one with a newly built handle, or none. */
    method Hold(uid: UID, e: Entry)
      requires Conserved() && uid in entries && entries[uid].proxyConf == null
      requires e.proxyConf != null ==> e.proxyConf.isOpen && e.proxyConf !in built
      modifies this`entries, this`built, this`holder
      ensures Conserved() && entries == old(entries)[uid := e]
      ensures built == if e.proxyConf == null then old(built) else old(built) + {e.proxyConf}
    {
      if e.proxyConf != null {
        built := built + {e.proxyConf};
        holder := holder[e.proxyConf := uid];
      }
      entries := entries[uid := e];
    }

    /** Forgets a client and closes its handle. */
    method Remove(uid: UID) returns (found: bool)
      requires Valid()
      modifies this`entries, this`holder, built
      ensures Valid() && (old(Fresh()) ==> Fresh()) && (old(InTime()) ==> InTime())
      ensures found <==> uid in old(entries)
      ensures Stored() == old(Stored()) - {uid}
      ensures found && old(entries[uid].proxyConf) != null ==> !old(entries[uid].proxyConf).isOpen
      ensures forall h :: h in built && (found ==> h != old(entries[uid].proxyConf)) ==> h.isOpen == old(h.isOpen)
    {
      hide Build;
      hide FilterOut;
      hide Entry.FromSettings;
      hide Manager.FreshEntry;
      if uid !in entries {
        assert Stored() == Stored() - {uid};
        return false;
      }
      CloseHeld(uid);
      entries := entries - {uid};
      return true;
    }

    /** Closes each remaining handle once; afterwards none is open. */
    method Shutdown()
      requires Valid()
      modifies built
      ensures forall h :: h in built ==> !h.isOpen
    {
      var rest := entries.Keys;
      while rest != {}
        invariant rest <= entries.Keys
        invariant forall h :: h in built ==> (h.isOpen <==> h in holder && holder[h] in rest)
      {
        var u :| u in rest;
        rest := rest - {u};
        if entries[u].proxyConf != null {
          entries[u].proxyConf.Close();
        }
      }
    }
  }

  /** `newCustomUpstreamConfig`: a new handle, unless every upstream is empty or
      a comment. */
  method NewProxyConf(s: Settings, conf: CommonConf) returns (r: ProxyConf?)
    ensures Made(r) == Build(s, conf)
    ensures r == null <==> forall x :: x in s.upstreams ==> x == "" || x[0] == '#'
    ensures r != null ==> && fresh(r) && r.isOpen
                          && (exists at :: Picks(s.upstreams, r.made.upstreams, at))
                          && r.made == Built(r.made.upstreams, conf, s.cacheEnabled, s.cacheSize)
  {
    BuildKeeps(s, conf);
    var b := Build(s, conf);
    if b.None? {
      return null;
    }
    r := new ProxyConf(b.value);
  }
}
