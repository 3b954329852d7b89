/** The client storage, `internal/client/storage.go`: the index of clients and the
    cache of their upstream configurations, changed together. */
module ClientStorages {
  import opened Wrappers
  import opened Bytes
  import opened Clients
  import opened ClientIndexes
  import opened UpstreamManagers

  /** The search parameters; an absent one is not searched by. */
  datatype FindParams = FindParams(
    clientID: Option<string>,
    remoteIP: Option<Addr>,
    subnet: Option<Prefix>,
    mac: Option<MAC>)

  /** The address of the DHCP client with the given IP address, if there is one. */
  type DHCP = Addr -> Option<MAC>

  /** The client with this address, or with the MAC that DHCP knows for it. */
  ghost predicate FoundByAddr(clients: Stored, dhcp: DHCP, ip: Addr, c: Option<Persistent>) {
    exists direct :: FoundByIP(clients, ip, direct) &&
      if direct.Some? then c == direct
      else if dhcp(ip).Some? then FoundIn(clients, MACsOf, dhcp(ip).value, c)
      else c.None?
  }

  /** Searching by the k-th parameter gives c; a search that is not asked for finds
      nobody. */
  ghost predicate AnswerOf(clients: Stored, dhcp: DHCP, params: FindParams, k: nat, c: Option<Persistent>)
    requires k < 4
  {
    if k == 0 then if params.clientID.Some? then FoundIn(clients, ClientIDsOf, params.clientID.value, c) else c.None?
    else if k == 1 then if params.remoteIP.Some? then FoundByAddr(clients, dhcp, params.remoteIP.value, c) else c.None?
    else if k == 2 then if params.subnet.Some? then FoundIn(clients, SubnetsOf, params.subnet.value, c) else c.None?
    else if params.mac.Some? then FoundIn(clients, MACsOf, params.mac.value, c) else c.None?
  }

  /** Searching by the first k parameters finds nobody. */
  ghost predicate NobodyBefore(clients: Stored, dhcp: DHCP, params: FindParams, k: nat)
    requires k <= 4
  {
    forall j :: 0 <= j < k ==> AnswerOf(clients, dhcp, params, j, None)
  }

  /** c is the answer of the first search, in the order of the parameters, that
      finds somebody. */
  ghost predicate FoundByParams(clients: Stored, dhcp: DHCP, params: FindParams, c: Option<Persistent>) {
    if c.None? then NobodyBefore(clients, dhcp, params, 4)
    else exists k :: 0 <= k < 4 && AnswerOf(clients, dhcp, params, k, c) && NobodyBefore(clients, dhcp, params, k)
  }

  class Storage {
    const rules: Rules
    const index: Index
    const upstreamManager: UpstreamManager

    function Clients(): Stored
      reads index
    {
      index.uidToClient
    }

    /** The cache has an entry for every client, with its current settings. */
    ghost predicate Synced()
      reads index, upstreamManager
    {
      && upstreamManager.uidToCustomConf.Keys == Clients().Keys
      && forall u :: u in Clients() ==> upstreamManager.uidToCustomConf[u].settings == SettingsOf(Clients()[u])
    }

    ghost predicate Valid()
      reads this, index, index.subnetToUID, upstreamManager, upstreamManager.made
    {
      && index.Valid()
      && upstreamManager.Owned()
      && Synced()
    }

    constructor (rules: Rules)
      ensures Valid() && Clients() == map[] && upstreamManager.UpToDate() && this.rules == rules
    {
      this.rules := rules;
      index := new Index();
      upstreamManager := new UpstreamManager();
    }

    /** Stores p in the index and its settings in the cache. */
    method Insert(p: Persistent)
      requires Valid() && p.uid != 0 && p.uid !in Clients() && AllApart(Clients(), p)
      modifies index, index.subnetToUID, upstreamManager`uidToCustomConf
      ensures Valid() && (old(upstreamManager.UpToDate()) ==> upstreamManager.UpToDate())
      ensures Clients() == old(Clients())[p.uid := p]
    {
      index.Add(p);
      assert upstreamManager.Owned() && (old(upstreamManager.UpToDate()) ==> upstreamManager.UpToDate());
      upstreamManager.UpdateCustomUpstreamConfig(p);
      assert Synced();
    }

    /** Adds a client, unless it is invalid, its UID is taken or it clashes with
        another client; then nothing changes. */
    method Add(p: Persistent) returns (ok: bool)
      requires Valid()
      modifies index, index.subnetToUID, upstreamManager`uidToCustomConf
      ensures Valid() && (old(upstreamManager.UpToDate()) ==> upstreamManager.UpToDate())
      ensures Outcome(rules, old(Clients()), Op.Add(p), Clients(), ok)
      ensures !ok ==> unchanged(index) && unchanged(index.subnetToUID) && unchanged(upstreamManager)
    {
      ok := IsValid(rules, p) && p.uid !in index.uidToClient;
      if ok {
        var clash := index.Clashes(p);
        ok := clash.None?;
      }
      if ok {
        Insert(p);
      }
    }

    /** No two stored clients share a name or an identifier. */
    lemma StoredAreGood()
      requires Valid()
      ensures GoodClients(Clients())
    {
      InversesNoneShare(index.nameToUID, index.clientIDToUID, index.ipToUID, index.macToUID,
                        index.subnetToUID.vals, Clients());
    }

    /** Forgets a stored client. */
    method Delete(p: Persistent)
      requires Valid() && p.uid in Clients() && Clients()[p.uid] == p
      modifies index, index.subnetToUID, upstreamManager`uidToCustomConf, upstreamManager.made
      ensures Valid() && (old(upstreamManager.UpToDate()) ==> upstreamManager.UpToDate())
      ensures Clients() == old(Clients()) - {p.uid}
    {
      index.Remove(p);
      var closed := upstreamManager.Remove(p.uid);
    }

    /** Removes the client called name, if there is one. */
    method RemoveByName(name: string) returns (ok: bool)
      requires Valid()
      modifies index, index.subnetToUID, upstreamManager`uidToCustomConf, upstreamManager.made
      ensures Valid() && (old(upstreamManager.UpToDate()) ==> upstreamManager.UpToDate())
      ensures Outcome(rules, old(Clients()), Op.Remove(name), Clients(), ok)
    {
      var p := index.FindByName(name);
      ok := p.Some?;
      if ok {
        assert IsNamed(Clients(), name, p.value.uid);
        Delete(p.value);
      }
    }

    /** Puts p in the place of the stored client with its UID. */
    method Replace(stored: Persistent, p: Persistent)
      requires Valid() && stored.uid == p.uid && p.uid in Clients() && Clients()[p.uid] == stored
      requires AllApart(Clients() - {p.uid}, p)
      modifies index, index.subnetToUID, upstreamManager`uidToCustomConf
      ensures Valid() && (old(upstreamManager.UpToDate()) ==> upstreamManager.UpToDate())
      ensures Clients() == old(Clients())[p.uid := p]
    {
      index.Replace(stored, p);
      upstreamManager.UpdateCustomUpstreamConfig(p);
    }

    /** Replaces the client called name, keeping its UID, unless the replacement is
        invalid or clashes with another client; then nothing changes. */
    method Update(name: string, p: Persistent) returns (ok: bool)
      requires Valid()
      modifies index, index.subnetToUID, upstreamManager`uidToCustomConf
      ensures Valid() && (old(upstreamManager.UpToDate()) ==> upstreamManager.UpToDate())
      ensures Outcome(rules, old(Clients()), Op.Update(name, p), Clients(), ok)
      ensures !ok ==> unchanged(index) && unchanged(index.subnetToUID) && unchanged(upstreamManager)
    {
      StoredAreGood();
      if !IsValid(rules, p) {
        return false;
      }
      var stored := index.FindByName(name);
      if stored.None? {
        return false;
      }
      var replacement := p.(uid := stored.value.uid);
      var clash := index.Clashes(replacement);
      OnlyOneNamed(Clients(), name, stored.value.uid);
      if clash.Some? {
        return false;
      }
      assert Replaces(rules, Clients(), name, p, stored.value.uid);
      OthersApart(Clients(), replacement);
      Replace(stored.value, replacement);
      return true;
    }

    // ----- Searching -----

    /** Finds a client by address, or by the MAC that DHCP knows for it. */
    method FindByIP(ip: Addr, dhcp: DHCP) returns (c: Option<Persistent>)
      requires Valid()
      ensures FoundByAddr(Clients(), dhcp, ip, c)
    {
      c := index.FindByIP(ip);
      ghost var direct := c;
      if c.None? && dhcp(ip).Some? {
        c := index.FindByMAC(dhcp(ip).value);
      }
      assert FoundByIP(Clients(), ip, direct);
    }

    /** Tries the given parameters in turn until one of them finds somebody. */
    method Find(params: FindParams, dhcp: DHCP) returns (c: Option<Persistent>)
      requires Valid()
      ensures FoundByParams(Clients(), dhcp, params, c)
    {
      var isClientID, isRemoteIP := params.clientID.Some?, params.remoteIP.Some?;
      var isSubnet, isMAC := params.subnet.Some?, params.mac.Some?;
      c := None;
      ghost var k := 0;
      while c.None? && (isClientID || isRemoteIP || isSubnet || isMAC)
        invariant k <= 4
        invariant isClientID <==> k < 1 && params.clientID.Some?
        invariant isRemoteIP <==> k < 2 && params.remoteIP.Some?
        invariant isSubnet <==> k < 3 && params.subnet.Some?
        invariant isMAC <==> k < 4 && params.mac.Some?
        invariant c.None? ==> NobodyBefore(Clients(), dhcp, params, k)
        invariant c.Some? ==> FoundByParams(Clients(), dhcp, params, c)
        decreases isClientID, isRemoteIP, isSubnet, isMAC
      {
        if isClientID {
          isClientID := false;
          k := 0;
          c := index.FindByClientID(params.clientID.value);
        } else if isRemoteIP {
          isRemoteIP := false;
          k := 1;
          c := FindByIP(params.remoteIP.value, dhcp);
        } else if isSubnet {
          isSubnet := false;
          k := 2;
          c := index.FindByCIDR(params.subnet.value);
        } else {
          isMAC := false;
          k := 3;
          c := index.FindByMAC(params.mac.value);
        }
        assert AnswerOf(Clients(), dhcp, params, k, c) && NobodyBefore(Clients(), dhcp, params, k);
        k := k + 1;
      }
    }

    // ----- Upstreams -----

    method UpdateCommonUpstreamConfig(conf: CommonConf, now: Time)
      requires Valid()
      modifies upstreamManager`commonConf, upstreamManager`confUpdate
      ensures Valid() && upstreamManager.commonConf == Some(conf) && upstreamManager.confUpdate == now
      ensures old(upstreamManager.UpToDate()) && old(upstreamManager.confUpdate) <= now ==>
                (upstreamManager.UpToDate() <==> old(upstreamManager.Noticed(conf, now)))
    {
      upstreamManager.UpdateCommonUpstreamConfig(conf, now);
    }

    /** The client a query is from: by ClientID, else by address. */
    ghost predicate FoundByQuery(id: string, addr: Addr, dhcp: DHCP, c: Option<Persistent>)
      reads index
    {
      exists byID, byIP :: FoundIn(Clients(), ClientIDsOf, id, byID) && FoundByAddr(Clients(), dhcp, addr, byIP)
                           && if byID.Some? then c == byID else c == byIP
    }

    method FindByQuery(id: string, addr: Addr, dhcp: DHCP) returns (c: Option<Persistent>)
      requires Valid()
      ensures FoundByQuery(id, addr, dhcp, c)
    {
      var byID := index.FindByClientID(id);
      var byIP := FindByIP(addr, dhcp);
      c := if byID.Some? then byID else byIP;
    }

    /** The configuration of a stored client. */
    method ConfigOf(p: Persistent) returns (conf: ProxyConf?)
      requires Valid() && p.uid in Clients() && Clients()[p.uid] == p
      requires CanBuild(SettingsOf(p), upstreamManager.commonConf)
      modifies upstreamManager`uidToCustomConf, upstreamManager`made, upstreamManager.made
      ensures Valid() && (conf != null ==> !conf.closed)
      ensures old(upstreamManager.UpToDate()) ==> upstreamManager.UpToDate()
      ensures old(upstreamManager.UpToDate()
                  || NeedsBuild(upstreamManager.uidToCustomConf[p.uid], upstreamManager.confUpdate)) ==>
                Shows(conf, FreshBuild(SettingsOf(p), upstreamManager.commonConf))
    {
      conf := upstreamManager.CustomUpstreamConfig(p.uid);
    }

    /** Returns the upstream configuration for a query.  While the cache is up to
        date, it is what a fresh build from the current fields of the client and
        the current common settings gives. */
    method CustomUpstreamConfig(id: string, addr: Addr, dhcp: DHCP) returns (conf: ProxyConf?, c: Option<Persistent>)
      requires Valid()
      requires forall f :: FoundByQuery(id, addr, dhcp, f) && f.Some? ==>
                 CanBuild(SettingsOf(f.value), upstreamManager.commonConf)
      modifies upstreamManager`uidToCustomConf, upstreamManager`made, upstreamManager.made
      ensures Valid() && FoundByQuery(id, addr, dhcp, c)
      ensures old(upstreamManager.UpToDate()) ==> upstreamManager.UpToDate()
      ensures c.None? ==> conf == null
      ensures c.Some? && old(upstreamManager.UpToDate()) ==>
                Shows(conf, FreshBuild(SettingsOf(c.value), upstreamManager.commonConf))
      ensures conf != null ==> !conf.closed
    {
      c := FindByQuery(id, addr, dhcp);
      conf := null;
      if c.Some? {
        conf := ConfigOf(c.value);
      }
    }
  }

  lemma OnlyOneNamed(clients: Stored, name: string, u: UID)
    requires NoneShare(clients) && IsNamed(clients, name, u)
    ensures forall v :: IsNamed(clients, name, v) ==> v == u
  {}

  lemma OthersApart(clients: Stored, c: Persistent)
    requires NoClash(clients, c)
    ensures AllApart(clients - {c.uid}, c)
  {}
}
