/** The index of persistent clients, `internal/client/index.go`: four maps, a
    sorted map and the clients themselves, kept as exact inverses of each other. */
module ClientIndexes {
  import opened Wrappers
  import opened Collections
  import opened Bytes
  import opened SortedMaps
  import opened Clients

  // ----- Inverse maps -----

  /** m maps exactly the identifiers of the clients to their owners. */
  ghost predicate Inverse<K(!new)>(m: map<K, UID>, clients: Stored, ids: Persistent -> seq<K>) {
    && (forall k :: k in m ==> m[k] in clients && k in ids(clients[m[k]]))
    && (forall u, k :: u in clients && k in ids(clients[u]) ==> k in m && m[k] == u)
  }

  /** There is only one inverse, so the clients determine the index. */
  lemma InverseUnique<K(!new)>(m: map<K, UID>, n: map<K, UID>, clients: Stored, ids: Persistent -> seq<K>)
    requires Inverse(m, clients, ids) && Inverse(n, clients, ids)
    ensures m == n
  {}

  function Put<K>(m: map<K, UID>, ks: seq<K>, u: UID): map<K, UID> {
    map k | k in m.Keys + Elems(ks) :: if k in ks then u else m[k]
  }

  lemma PutOne<K>(m: map<K, UID>, k: K, u: UID)
    ensures Put(m, [k], u) == m[k := u]
  {}

  lemma PutStep<K>(m: map<K, UID>, ks: seq<K>, u: UID, i: nat)
    requires i < |ks|
    ensures Put(m, ks[..i + 1], u) == Put(m, ks[..i], u)[ks[i] := u]
  {}

  lemma DropStep<K>(m: map<K, UID>, ks: seq<K>, i: nat)
    requires i < |ks|
    ensures m - Elems(ks[..i + 1]) == m - Elems(ks[..i]) - {ks[i]}
  {}

  /** No client has an identifier of c. */
  ghost predicate Apart<K(!new)>(clients: Stored, ids: Persistent -> seq<K>, c: Persistent) {
    forall u :: u in clients ==> !Common(ids(clients[u]), ids(c))
  }

  lemma PutInverse<K(!new)>(m: map<K, UID>, clients: Stored, ids: Persistent -> seq<K>, c: Persistent)
    requires Inverse(m, clients, ids) && c.uid !in clients
    requires Apart(clients, ids, c)
    ensures Inverse(Put(m, ids(c), c.uid), clients[c.uid := c], ids)
  {}

  lemma DropInverse<K(!new)>(m: map<K, UID>, clients: Stored, ids: Persistent -> seq<K>, u: UID)
    requires Inverse(m, clients, ids) && u in clients
    ensures Inverse(m - Elems(ids(clients[u])), clients - {u}, ids)
  {}

  // ----- Loops over identifiers -----

  method PutAll<K(==)>(m: map<K, UID>, ks: seq<K>, u: UID) returns (r: map<K, UID>)
    ensures r == Put(m, ks, u)
  {
    r := m;
    var i := 0;
    while i < |ks|
      invariant i <= |ks|
      invariant r == Put(m, ks[..i], u)
    {
      PutStep(m, ks, u, i);
      r := r[ks[i] := u];
      i := i + 1;
    }
    assert ks[..i] == ks;
  }

  method DropAll<K(==)>(m: map<K, UID>, ks: seq<K>) returns (r: map<K, UID>)
    ensures r == m - Elems(ks)
  {
    r := m;
    var i := 0;
    while i < |ks|
      invariant i <= |ks|
      invariant r == m - Elems(ks[..i])
    {
      DropStep(m, ks, i);
      r := r - {ks[i]};
      i := i + 1;
    }
    assert ks[..i] == ks;
  }

  /** The first identifier that belongs to somebody other than u. */
  method FirstClash<K(==)>(m: map<K, UID>, ks: seq<K>, u: UID) returns (clash: Option<K>)
    ensures clash.Some? ==> clash.value in ks && clash.value in m && m[clash.value] != u
    ensures clash.None? ==> forall k :: k in ks && k in m ==> m[k] == u
  {
    var i := 0;
    while i < |ks|
      invariant i <= |ks|
      invariant forall j :: 0 <= j < i && ks[j] in m ==> m[ks[j]] == u
    {
      if ks[i] in m && m[ks[i]] != u {
        return Some(ks[i]);
      }
      i := i + 1;
    }
    return None;
  }

  datatype Clash =
    | SameName(owner: UID)
    | SameClientID(owner: UID, id: string)
    | SameIP(owner: UID, ip: Addr)
    | SameSubnet(owner: UID, subnet: Prefix)
    | SameMAC(owner: UID, mac: MAC)

  /** The reported client exists, is another one and has the reported identifier. */
  ghost predicate IsTrue(clash: Clash, clients: Stored, c: Persistent) {
    && clash.owner in clients && clash.owner != c.uid
    && var p := clients[clash.owner];
       match clash
       case SameName(_) => p.name == c.name
       case SameClientID(_, id) => id in p.clientIDs && id in c.clientIDs
       case SameIP(_, ip) => ip in p.ips && ip in c.ips
       case SameSubnet(_, s) => s in p.subnets && s in c.subnets
       case SameMAC(_, mac) => mac in p.macs && mac in c.macs
  }

  class Index {
    var nameToUID: map<string, UID>
    var clientIDToUID: map<string, UID>
    var ipToUID: map<Addr, UID>
    var macToUID: map<MAC, UID>
    var uidToClient: Stored
    const subnetToUID: SortedMap<Prefix, UID>

    ghost predicate Valid()
      reads this, subnetToUID
    {
      && KeyedByUID(uidToClient)
      && subnetToUID.Valid()
      && subnetToUID.cmp == SubnetCompare
      && Inverses(nameToUID, clientIDToUID, ipToUID, macToUID, subnetToUID.vals, uidToClient)
    }

    constructor ()
      ensures Valid() && uidToClient == map[] && fresh(subnetToUID)
    {
      nameToUID, clientIDToUID, ipToUID, macToUID := map[], map[], map[], map[];
      uidToClient := map[];
      SubnetCompareIsOrder();
      subnetToUID := new SortedMap(SubnetCompare);
    }

    method SetSubnets(prefs: seq<Prefix>, u: UID)
      requires subnetToUID.Valid()
      modifies subnetToUID
      ensures subnetToUID.Valid() && subnetToUID.vals == Put(old(subnetToUID.vals), prefs, u)
    {
      var i := 0;
      while i < |prefs|
        invariant i <= |prefs|
        invariant subnetToUID.Valid() && subnetToUID.vals == Put(old(subnetToUID.vals), prefs[..i], u)
      {
        PutStep(old(subnetToUID.vals), prefs, u, i);
        subnetToUID.Set(prefs[i], u);
        i := i + 1;
      }
      assert prefs[..i] == prefs;
    }

    method DelSubnets(prefs: seq<Prefix>)
      requires subnetToUID.Valid()
      modifies subnetToUID
      ensures subnetToUID.Valid() && subnetToUID.vals == old(subnetToUID.vals) - Elems(prefs)
    {
      var i := 0;
      while i < |prefs|
        invariant i <= |prefs|
        invariant subnetToUID.Valid() && subnetToUID.vals == old(subnetToUID.vals) - Elems(prefs[..i])
      {
        DropStep(old(subnetToUID.vals), prefs, i);
        subnetToUID.Del(prefs[i]);
        i := i + 1;
      }
      assert prefs[..i] == prefs;
    }

    /** Replaces the maps. */
    method Store(
      names: map<string, UID>, clientIDs: map<string, UID>, ips: map<Addr, UID>, macs: map<MAC, UID>, clients: Stored)
      requires subnetToUID.Valid() && subnetToUID.cmp == SubnetCompare && KeyedByUID(clients)
      requires Inverses(names, clientIDs, ips, macs, subnetToUID.vals, clients)
      modifies this
      ensures Valid() && uidToClient == clients
    {
      nameToUID, clientIDToUID, ipToUID, macToUID, uidToClient := names, clientIDs, ips, macs, clients;
      assert Inverses(nameToUID, clientIDToUID, ipToUID, macToUID, subnetToUID.vals, uidToClient);
    }

    /** Stores a new client, which clashes with nobody. */
    method Add(c: Persistent)
      requires Valid() && c.uid != 0 && c.uid !in uidToClient && AllApart(uidToClient, c)
      modifies this, subnetToUID
      ensures Valid() && uidToClient == old(uidToClient)[c.uid := c]
    {
      ghost var subnets := subnetToUID.vals;
      var clientIDs := PutAll(clientIDToUID, c.clientIDs, c.uid);
      var ips := PutAll(ipToUID, c.ips, c.uid);
      SetSubnets(c.subnets, c.uid);
      var macs := PutAll(macToUID, c.macs, c.uid);
      assert Inverses(nameToUID[c.name := c.uid], clientIDs, ips, macs, subnetToUID.vals, uidToClient[c.uid := c]) by {
        AddInverses(nameToUID, clientIDToUID, ipToUID, macToUID, subnets, uidToClient, c);
      }
      Store(nameToUID[c.name := c.uid], clientIDs, ips, macs, uidToClient[c.uid := c]);
    }

    /** Removes a stored client. */
    method Remove(c: Persistent)
      requires Valid() && c.uid in uidToClient && uidToClient[c.uid] == c
      modifies this, subnetToUID
      ensures Valid() && uidToClient == old(uidToClient) - {c.uid}
    {
      ghost var subnets := subnetToUID.vals;
      var clientIDs := DropAll(clientIDToUID, c.clientIDs);
      var ips := DropAll(ipToUID, c.ips);
      DelSubnets(c.subnets);
      var macs := DropAll(macToUID, c.macs);
      assert Inverses(nameToUID - {c.name}, clientIDs, ips, macs, subnetToUID.vals, uidToClient - {c.uid}) by {
        RemoveInverses(nameToUID, clientIDToUID, ipToUID, macToUID, subnets, uidToClient, c);
      }
      Store(nameToUID - {c.name}, clientIDs, ips, macs, uidToClient - {c.uid});
    }

    /** Puts p in the place of the stored client with its UID. */
    method Replace(stored: Persistent, p: Persistent)
      requires Valid() && stored.uid == p.uid && p.uid in uidToClient && uidToClient[p.uid] == stored
      requires AllApart(uidToClient - {p.uid}, p)
      modifies this, subnetToUID
      ensures Valid() && uidToClient == old(uidToClient)[p.uid := p]
    {
      Remove(stored);
      Add(p);
    }

    // ----- Clashes -----

    /** The first subnet of c that belongs to another client. */
    method ClashesSubnet(c: Persistent) returns (clash: Option<Prefix>)
      requires subnetToUID.Valid()
      ensures clash.Some? ==>
                && clash.value in c.subnets && clash.value in subnetToUID.vals
                && subnetToUID.vals[clash.value] != c.uid
      ensures clash.None? ==> Free(subnetToUID.vals, c.subnets, c.uid)
    {
      var i := 0;
      while i < |c.subnets|
        invariant i <= |c.subnets|
        invariant Free(subnetToUID.vals, c.subnets[..i], c.uid)
      {
        var s := c.subnets[i];
        var r := FirstSubnet(p => p == s);
        if r.Some? && r.value.1 != c.uid {
          return Some(s);
        }
        assert s in subnetToUID.vals ==> subnetToUID.vals[s] == c.uid;
        assert c.subnets[..i + 1] == c.subnets[..i] + [s];
        i := i + 1;
      }
      assert c.subnets[..i] == c.subnets;
      return None;
    }

    /** Reports a client that shares the name or an identifier with c, exactly when
        there is one. */
    method Clashes(c: Persistent) returns (clash: Option<Clash>)
      requires Valid()
      ensures clash.None? <==> NoClash(uidToClient, c)
      ensures clash.Some? ==> IsTrue(clash.value, uidToClient, c)
    {
      if c.name in nameToUID && nameToUID[c.name] != c.uid {
        clash := Some(SameName(nameToUID[c.name]));
      } else {
        var id := FirstClash(clientIDToUID, c.clientIDs, c.uid);
        var ip := FirstClash(ipToUID, c.ips, c.uid);
        var subnet := ClashesSubnet(c);
        var mac := FirstClash(macToUID, c.macs, c.uid);
        if id.Some? {
          clash := Some(SameClientID(clientIDToUID[id.value], id.value));
        } else if ip.Some? {
          clash := Some(SameIP(ipToUID[ip.value], ip.value));
        } else if subnet.Some? {
          clash := Some(SameSubnet(subnetToUID.vals[subnet.value], subnet.value));
        } else if mac.Some? {
          clash := Some(SameMAC(macToUID[mac.value], mac.value));
        } else {
          clash := None;
          AllFree(nameToUID, clientIDToUID, ipToUID, macToUID, subnetToUID.vals, uidToClient, c);
        }
      }
      if clash.Some? {
        TrueClash(nameToUID, clientIDToUID, ipToUID, macToUID, subnetToUID.vals, uidToClient, c, clash.value);
      }
    }

    // ----- Looking up -----

    method FindByName(name: string) returns (c: Option<Persistent>)
      requires Valid()
      ensures FoundIn(uidToClient, NamesOf, name, c)
    {
      c := if name in nameToUID then Some(uidToClient[nameToUID[name]]) else None;
    }

    method FindByClientID(id: string) returns (c: Option<Persistent>)
      requires Valid()
      ensures FoundIn(uidToClient, ClientIDsOf, id, c)
    {
      c := if id in clientIDToUID then Some(uidToClient[clientIDToUID[id]]) else None;
    }

    method FindByMAC(mac: MAC) returns (c: Option<Persistent>)
      requires Valid()
      ensures FoundIn(uidToClient, MACsOf, mac, c)
    {
      c := if mac in macToUID then Some(uidToClient[macToUID[mac]]) else None;
    }

    /** The first entry of the sorted map, in its order, whose prefix satisfies p. */
    method FirstSubnet(p: Prefix -> bool) returns (r: Option<(Prefix, UID)>)
      requires subnetToUID.Valid()
      ensures r.Some? ==>
                && r.value.0 in subnetToUID.vals && subnetToUID.vals[r.value.0] == r.value.1 && p(r.value.0)
                && forall q :: q in subnetToUID.vals && p(q) ==> subnetToUID.cmp(r.value.0, q) <= 0
      ensures r.None? ==> forall q :: q in subnetToUID.vals ==> !p(q)
    {
      var n := subnetToUID.Range((k: Prefix, u: UID) => !p(k));
      if n > 0 && p(subnetToUID.keys[n - 1]) {
        var k := subnetToUID.keys[n - 1];
        assert k in Elems(subnetToUID.keys);
        return Some((k, subnetToUID.vals[k]));
      }
      return None;
    }

    /** Looks for exactly this subnet. */
    method FindByCIDR(subnet: Prefix) returns (c: Option<Persistent>)
      requires Valid()
      ensures FoundIn(uidToClient, SubnetsOf, subnet, c)
    {
      var r := FirstSubnet(p => p == subnet);
      if r.Some? {
        return Some(uidToClient[r.value.1]);
      }
      assert subnet !in subnetToUID.vals;
      return None;
    }

    /** The client with the best subnet around ip. */
    method FindBySubnet(ip: Addr) returns (c: Option<Persistent>)
      requires Valid()
      ensures FoundBySubnet(uidToClient, ip, c)
    {
      var r := FirstSubnet(p => Contains(p, ip));
      forall p
        ensures Contains(p, ip) <==> Around(p, ip)
      {
        ContainsIffAround(p, ip);
      }
      if r.Some? {
        FirstIsBest(subnetToUID.vals, uidToClient, ip, r.value.0);
        return Some(uidToClient[r.value.1]);
      }
      forall u, p | u in uidToClient && p in uidToClient[u].subnets
        ensures !Around(p, ip)
      {
        assert p in subnetToUID.vals && !Contains(p, ip);
      }
      return None;
    }

    /** Finds the client with exactly this address, else the client with the
        longest subnet around it. */
    method FindByIP(ip: Addr) returns (c: Option<Persistent>)
      requires Valid()
      ensures FoundByIP(uidToClient, ip, c)
    {
      if ip in ipToUID {
        assert ip in IPsOf(uidToClient[ipToUID[ip]]);
        return Some(uidToClient[ipToUID[ip]]);
      }
      c := FindBySubnet(WithoutZone(ip));
    }
  }

  /** c is the client that has the identifier k, or None if nobody has it. */
  ghost predicate FoundIn<K(!new)>(clients: Stored, ids: Persistent -> seq<K>, k: K, c: Option<Persistent>) {
    match c
    case Some(p) => p.uid in clients && clients[p.uid] == p && k in ids(p)
    case None => forall u :: u in clients ==> k !in ids(clients[u])
  }

  /** Client u has the subnet p around ip, and every other stored subnet around ip
      is shorter, or as long with a greater address. */
  ghost predicate BestMatch(clients: Stored, ip: Addr, p: Prefix, u: UID) {
    && u in clients && p in clients[u].subnets && Around(p, ip)
    && forall v, q :: v in clients && q in clients[v].subnets && Around(q, ip) ==> NotWorse(p, q)
  }

  /** The first subnet in the order of the sorted map is the best match. */
  lemma FirstIsBest(m: map<Prefix, UID>, clients: Stored, ip: Addr, p: Prefix)
    requires Inverse(m, clients, SubnetsOf) && p in m && Around(p, ip)
    requires forall q :: q in m && Around(q, ip) ==> SubnetCompare(p, q) <= 0
    ensures BestMatch(clients, ip, p, m[p])
  {}

  predicate NotWorse(p: Prefix, q: Prefix) {
    p.bits > q.bits || (p.bits == q.bits && p.value <= q.value)
  }

  /** The answer to a search by address: the owner of the address, else the owner
      of the longest subnet around it, else nobody. */
  ghost predicate FoundByIP(clients: Stored, ip: Addr, c: Option<Persistent>) {
    if exists u :: u in clients && ip in clients[u].ips then FoundIn(clients, IPsOf, ip, c) && c.Some?
    else FoundBySubnet(clients, WithoutZone(ip), c)
  }

  ghost predicate FoundBySubnet(clients: Stored, ip: Addr, c: Option<Persistent>) {
    match c
    case Some(f) => f.uid in clients && clients[f.uid] == f && exists p :: BestMatch(clients, ip, p, f.uid)
    case None => forall u, p :: u in clients && p in clients[u].subnets ==> !Around(p, ip)
  }

  /** None of the identifiers belongs to anybody but u. */
  ghost predicate Free<K(!new)>(m: map<K, UID>, ks: seq<K>, u: UID) {
    forall k :: k in ks && k in m ==> m[k] == u
  }

  lemma AllFree(
    names: map<string, UID>, clientIDs: map<string, UID>, ips: map<Addr, UID>, macs: map<MAC, UID>,
    subnets: map<Prefix, UID>, clients: Stored, c: Persistent)
    requires Inverses(names, clientIDs, ips, macs, subnets, clients)
    requires Free(names, [c.name], c.uid) && Free(clientIDs, c.clientIDs, c.uid) && Free(ips, c.ips, c.uid)
    requires Free(macs, c.macs, c.uid) && Free(subnets, c.subnets, c.uid)
    ensures NoClash(clients, c)
  {
    forall u | u in clients && u != c.uid
      ensures !Shares(clients[u], c)
    {
      assert !Common(NamesOf(clients[u]), NamesOf(c));
      assert c.name in NamesOf(c);
      assert !Common(ClientIDsOf(clients[u]), ClientIDsOf(c));
      assert !Common(IPsOf(clients[u]), IPsOf(c));
      assert !Common(MACsOf(clients[u]), MACsOf(c));
      assert !Common(SubnetsOf(clients[u]), SubnetsOf(c));
    }
  }

  /** The index entry behind a reported clash. */
  ghost predicate Reported(
    names: map<string, UID>, clientIDs: map<string, UID>, ips: map<Addr, UID>, macs: map<MAC, UID>,
    subnets: map<Prefix, UID>, c: Persistent, clash: Clash)
  {
    clash.owner != c.uid &&
    match clash
    case SameName(u) => c.name in names && names[c.name] == u
    case SameClientID(u, id) => id in c.clientIDs && id in clientIDs && clientIDs[id] == u
    case SameIP(u, ip) => ip in c.ips && ip in ips && ips[ip] == u
    case SameSubnet(u, s) => s in c.subnets && s in subnets && subnets[s] == u
    case SameMAC(u, mac) => mac in c.macs && mac in macs && macs[mac] == u
  }

  lemma TrueClash(
    names: map<string, UID>, clientIDs: map<string, UID>, ips: map<Addr, UID>, macs: map<MAC, UID>,
    subnets: map<Prefix, UID>, clients: Stored, c: Persistent, clash: Clash)
    requires Inverses(names, clientIDs, ips, macs, subnets, clients)
    requires Reported(names, clientIDs, ips, macs, subnets, c, clash)
    ensures IsTrue(clash, clients, c) && !NoClash(clients, c)
  {}

  /** Each map is the inverse of the clients for its kind of identifier. */
  ghost predicate Inverses(
    names: map<string, UID>, clientIDs: map<string, UID>, ips: map<Addr, UID>, macs: map<MAC, UID>,
    subnets: map<Prefix, UID>, clients: Stored)
  {
    && Inverse(names, clients, NamesOf)
    && Inverse(clientIDs, clients, ClientIDsOf)
    && Inverse(ips, clients, IPsOf)
    && Inverse(macs, clients, MACsOf)
    && Inverse(subnets, clients, SubnetsOf)
  }

  lemma InverseApart<K(!new)>(m: map<K, UID>, clients: Stored, ids: Persistent -> seq<K>, u: UID, v: UID)
    requires Inverse(m, clients, ids) && u in clients && v in clients && u != v
    ensures !Common(ids(clients[u]), ids(clients[v]))
  {
    forall k | k in ids(clients[u])
      ensures k !in ids(clients[v])
    {
      assert m[k] == u;
    }
  }

  /** Clients with exact inverse maps share nothing. */
  lemma InversesNoneShare(
    names: map<string, UID>, clientIDs: map<string, UID>, ips: map<Addr, UID>, macs: map<MAC, UID>,
    subnets: map<Prefix, UID>, clients: Stored)
    requires Inverses(names, clientIDs, ips, macs, subnets, clients)
    ensures NoneShare(clients)
  {
    forall u, v | u in clients && v in clients && u != v
      ensures !Shares(clients[u], clients[v])
    {
      InverseApart(names, clients, NamesOf, u, v);
      assert clients[u].name in NamesOf(clients[u]);
      InverseApart(clientIDs, clients, ClientIDsOf, u, v);
      InverseApart(ips, clients, IPsOf, u, v);
      InverseApart(macs, clients, MACsOf, u, v);
      InverseApart(subnets, clients, SubnetsOf, u, v);
    }
  }

  lemma AddInverses(
    names: map<string, UID>, clientIDs: map<string, UID>, ips: map<Addr, UID>, macs: map<MAC, UID>,
    subnets: map<Prefix, UID>, clients: Stored, c: Persistent)
    requires Inverses(names, clientIDs, ips, macs, subnets, clients)
    requires c.uid !in clients && AllApart(clients, c)
    ensures Inverses(names[c.name := c.uid], Put(clientIDs, c.clientIDs, c.uid), Put(ips, c.ips, c.uid),
                     Put(macs, c.macs, c.uid), Put(subnets, c.subnets, c.uid), clients[c.uid := c])
  {
    PutInverse(names, clients, NamesOf, c);
    PutInverse(clientIDs, clients, ClientIDsOf, c);
    PutInverse(ips, clients, IPsOf, c);
    PutInverse(macs, clients, MACsOf, c);
    PutInverse(subnets, clients, SubnetsOf, c);
    PutOne(names, c.name, c.uid);
  }

  lemma RemoveInverses(
    names: map<string, UID>, clientIDs: map<string, UID>, ips: map<Addr, UID>, macs: map<MAC, UID>,
    subnets: map<Prefix, UID>, clients: Stored, c: Persistent)
    requires Inverses(names, clientIDs, ips, macs, subnets, clients)
    requires c.uid in clients && clients[c.uid] == c
    ensures Inverses(names - {c.name}, clientIDs - Elems(c.clientIDs), ips - Elems(c.ips),
                     macs - Elems(c.macs), subnets - Elems(c.subnets), clients - {c.uid})
  {
    DropInverse(names, clients, NamesOf, c.uid);
    DropInverse(clientIDs, clients, ClientIDsOf, c.uid);
    DropInverse(ips, clients, IPsOf, c.uid);
    DropInverse(macs, clients, MACsOf, c.uid);
    DropInverse(subnets, clients, SubnetsOf, c.uid);
    assert Elems([c.name]) == {c.name};
  }

  ghost predicate AllApart(clients: Stored, c: Persistent) {
    && Apart(clients, NamesOf, c)
    && Apart(clients, ClientIDsOf, c)
    && Apart(clients, IPsOf, c)
    && Apart(clients, MACsOf, c)
    && Apart(clients, SubnetsOf, c)
  }

  // ----- Answers are unique -----

  /** At most one client answers a search by address. */
  lemma FoundByIPUnique(clients: Stored, ip: Addr, a: Option<Persistent>, b: Option<Persistent>)
    requires NoneShare(clients) && FoundByIP(clients, ip, a) && FoundByIP(clients, ip, b)
    ensures a == b
  {
    if exists u :: u in clients && ip in clients[u].ips {
      if a.value.uid != b.value.uid {
        assert Common(clients[a.value.uid].ips, clients[b.value.uid].ips);
      }
    } else {
      var bare := WithoutZone(ip);
      if a.Some? && b.Some? {
        var p :| BestMatch(clients, bare, p, a.value.uid);
        var q :| BestMatch(clients, bare, q, b.value.uid);
      }
    }
  }
}
