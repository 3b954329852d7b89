/** Persistent clients on values: their identifiers, when two of them clash, and
    what adding, updating and removing does to the set of clients
    (`internal/client/persistent.go`, `index.go` and `storage.go`). */
module Clients {
  import opened Bytes
  import opened Subnets
  import opened SortedMaps

  // ----- Addresses and prefixes -----

  /** A `netip.Addr`; only IPv6 addresses have zones. */
  datatype Addr = Addr(is6: bool, value: nat, zone: string)

  /** A `netip.Prefix`.  Its address may have host bits set. */
  datatype Prefix = Prefix(is6: bool, value: nat, bits: nat)

  function Width(is6: bool): nat {
    if is6 then 128 else 32
  }

  function WithoutZone(a: Addr): Addr {
    a.(zone := "")
  }

  /** netip.Prefix.Contains. */
  predicate Contains(p: Prefix, ip: Addr) {
    && p.is6 == ip.is6 && ip.zone == ""
    && p.bits <= Width(p.is6)
    && Shr(p.value, Width(p.is6) - p.bits) == Shr(ip.value, Width(p.is6) - p.bits)
  }

  /** ip is an address without a zone of the prefix's family, in the block of the
      prefix's address whose size the prefix length leaves. */
  ghost predicate Around(p: Prefix, ip: Addr) {
    && p.is6 == ip.is6 && ip.zone == ""
    && p.bits <= Width(p.is6)
    && SameBlock(Width(p.is6) - p.bits, p.value, ip.value)
  }

  lemma ContainsIffAround(p: Prefix, ip: Addr)
    ensures Contains(p, ip) <==> Around(p, ip)
  {
    if p.bits <= Width(p.is6) {
      SameBlockIff(Width(p.is6) - p.bits, p.value, ip.value);
    }
  }

  /** Among values that fit the family, those are the addresses whose first bits are
      those of the prefix. */
  lemma AroundIffBits(p: Prefix, ip: Addr)
    requires p.value < Pow2(Width(p.is6)) && ip.value < Pow2(Width(ip.is6))
    ensures Around(p, ip) <==>
              && p.is6 == ip.is6 && ip.zone == "" && p.bits <= Width(p.is6)
              && ToBits(p.value, Width(p.is6))[..p.bits] == ToBits(ip.value, Width(p.is6))[..p.bits]
  {
    FitsIff(p.value, Width(p.is6));
    FitsIff(ip.value, Width(ip.is6));
    if p.is6 == ip.is6 && p.bits <= Width(p.is6) {
      SameBlockIffBits(Width(p.is6), p.bits, p.value, ip.value);
    }
  }

  /** 10.0.0.0/24 is around 10.0.0.3 and not around 10.1.2.3. */
  lemma NotAround()
    ensures Contains(Prefix(false, 0x0A00_0000, 24), Addr(false, 0x0A00_0003, ""))
    ensures !Contains(Prefix(false, 0x0A00_0000, 24), Addr(false, 0x0A01_0203, ""))
  {
    assert Pow2(2) == 4 && Pow2(4) == 16 && Pow2(6) == 64 && Pow2(8) == 256;
    ShrEquals(0x0A00_0000, 8, 0x0A_0000);
    ShrEquals(0x0A00_0003, 8, 0x0A_0000);
    ShrEquals(0x0A01_0203, 8, 0x0A_0102);
  }

  lemma ShrEquals(v: nat, k: nat, q: nat)
    requires InBlock(k, q, v)
    ensures Shr(v, k) == q
  {
    ShrIsBlock(v, k);
    BlockUnique(k, q, Shr(v, k), v);
  }

  /** netip.Addr.Compare for the addresses of prefixes: by family, then by value. */
  function AddrCompare(x: Prefix, y: Prefix): int {
    if x.is6 != y.is6 then if y.is6 then -1 else 1
    else if x.value < y.value then -1
    else if x.value > y.value then 1
    else 0
  }

  /** Longer prefixes first, then by address. */
  function SubnetCompare(x: Prefix, y: Prefix): int {
    if x == y then 0
    else if x.bits == y.bits then AddrCompare(x, y)
    else if x.bits > y.bits then -1
    else 1
  }

  /** subnetCompare is a strict total order that is 0 only for equal prefixes. */
  lemma SubnetCompareIsOrder()
    ensures IsOrder(SubnetCompare)
  {}

  // ----- Clients -----

  /** Zero is the UID of a client that has none. */
  type UID = nat

  datatype Persistent = Persistent(
    uid: UID,
    name: string,
    clientIDs: seq<string>,
    ips: seq<Addr>,
    subnets: seq<Prefix>,
    macs: seq<MAC>,
    upstreams: seq<string>,
    upstreamsCacheSize: nat,
    upstreamsCacheEnabled: bool,
    tags: seq<string>)

  function NamesOf(c: Persistent): seq<string> { [c.name] }
  function ClientIDsOf(c: Persistent): seq<string> { c.clientIDs }
  function IPsOf(c: Persistent): seq<Addr> { c.ips }
  function SubnetsOf(c: Persistent): seq<Prefix> { c.subnets }
  function MACsOf(c: Persistent): seq<MAC> { c.macs }

  /** What validation needs to know about the outside. */
  datatype Rules = Rules(parses: seq<string> -> bool, allowedTags: set<string>)

  predicate IsValid(rules: Rules, c: Persistent) {
    && c.name != ""
    && |c.ips| + |c.subnets| + |c.macs| + |c.clientIDs| > 0
    && c.uid != 0
    && rules.parses(c.upstreams)
    && forall i :: 0 <= i < |c.tags| ==> c.tags[i] in rules.allowedTags
  }

  ghost predicate Common<K(!new)>(xs: seq<K>, ys: seq<K>) {
    exists k :: k in xs && k in ys
  }

  /** Two clients have an identifier or the name in common. */
  ghost predicate Shares(a: Persistent, b: Persistent) {
    || a.name == b.name
    || Common(a.clientIDs, b.clientIDs)
    || Common(a.ips, b.ips)
    || Common(a.subnets, b.subnets)
    || Common(a.macs, b.macs)
  }

  type Stored = map<UID, Persistent>

  /** No client but its own previous version shares anything with c. */
  ghost predicate NoClash(clients: Stored, c: Persistent) {
    forall u :: u in clients && u != c.uid ==> !Shares(clients[u], c)
  }

  ghost predicate NoneShare(clients: Stored) {
    forall u, v :: u in clients && v in clients && u != v ==> !Shares(clients[u], clients[v])
  }

  ghost predicate KeyedByUID(clients: Stored) {
    forall u :: u in clients ==> clients[u].uid == u && u != 0
  }

  ghost predicate GoodClients(clients: Stored) {
    KeyedByUID(clients) && NoneShare(clients)
  }

  // ----- Operations on the set of clients -----

  datatype Op = Add(p: Persistent) | Update(name: string, p: Persistent) | Remove(name: string)

  ghost predicate IsNamed(clients: Stored, name: string, u: UID) {
    u in clients && clients[u].name == name
  }

  /** What an operation makes of the set of clients, and whether it succeeds. */
  ghost predicate Outcome(rules: Rules, clients: Stored, op: Op, clients': Stored, ok: bool) {
    match op
    case Add(p) =>
      var good := IsValid(rules, p) && p.uid !in clients && NoClash(clients, p);
      ok == good && clients' == if good then clients[p.uid := p] else clients
    case Update(name, p) =>
      && (ok ==> exists u :: Replaces(rules, clients, name, p, u) && clients' == clients[u := p.(uid := u)])
      && (!ok ==> clients' == clients && forall u :: !Replaces(rules, clients, name, p, u))
    case Remove(name) =>
      && (ok ==> exists u :: IsNamed(clients, name, u) && clients' == clients - {u})
      && (!ok ==> clients' == clients && forall u :: !IsNamed(clients, name, u))
  }

  /** Client u is the one called name, and p can take its place. */
  ghost predicate Replaces(rules: Rules, clients: Stored, name: string, p: Persistent, u: UID) {
    IsValid(rules, p) && IsNamed(clients, name, u) && NoClash(clients, p.(uid := u))
  }

  /** Every operation keeps the clients free of shared identifiers. */
  lemma OpKeepsGood(rules: Rules, clients: Stored, op: Op, clients': Stored, ok: bool)
    requires GoodClients(clients) && Outcome(rules, clients, op, clients', ok)
    ensures GoodClients(clients')
  {
    match op
    case Add(p) =>
    case Update(name, p) =>
      if ok {
        var u :| Replaces(rules, clients, name, p, u) && clients' == clients[u := p.(uid := u)];
      }
    case Remove(name) =>
  }

  /** A client can be stored if it has a name, an identifier and a UID, its upstreams
      can be parsed and its tags are allowed. */
  ghost predicate CanStore(rules: Rules, p: Persistent) {
    && p.name != "" && p.uid != 0
    && ((exists id :: id in p.clientIDs) || (exists ip :: ip in p.ips)
        || (exists subnet :: subnet in p.subnets) || (exists mac :: mac in p.macs))
    && rules.parses(p.upstreams)
    && forall tag :: tag in p.tags ==> tag in rules.allowedTags
  }

  lemma ValidIff(rules: Rules, p: Persistent)
    ensures IsValid(rules, p) <==> CanStore(rules, p)
  {
    if IsValid(rules, p) {
      assert (p.clientIDs != [] ==> p.clientIDs[0] in p.clientIDs) && (p.ips != [] ==> p.ips[0] in p.ips);
      assert (p.subnets != [] ==> p.subnets[0] in p.subnets) && (p.macs != [] ==> p.macs[0] in p.macs);
    }
  }

  /** A client is added if and only if it can be stored, its UID is new, and no stored
      client has its name or one of its identifiers. */
  lemma AddSucceedsIff(rules: Rules, clients: Stored, p: Persistent, clients': Stored, ok: bool)
    requires Outcome(rules, clients, Op.Add(p), clients', ok)
    ensures ok <==> CanStore(rules, p) && p.uid !in clients && NoClash(clients, p)
    ensures clients' == if ok then clients[p.uid := p] else clients
  {
    ValidIff(rules, p);
  }

  /** A client is updated if and only if there is one called so and the new one can be
      stored and clashes with no other; it keeps the UID. */
  lemma UpdateSucceedsIff(
    rules: Rules, clients: Stored, name: string, p: Persistent, clients': Stored, ok: bool, u: UID)
    requires GoodClients(clients) && Outcome(rules, clients, Op.Update(name, p), clients', ok)
    requires u in clients && clients[u].name == name
    ensures ok <==> CanStore(rules, p) && NoClash(clients, p.(uid := u))
    ensures clients' == if ok then clients[u := p.(uid := u)] else clients
  {
    ValidIff(rules, p);
    forall v | IsNamed(clients, name, v)
      ensures v == u
    {
      assert v != u ==> Shares(clients[v], clients[u]);
    }
    assert Replaces(rules, clients, name, p, u) <==> IsValid(rules, p) && NoClash(clients, p.(uid := u));
    if ok {
      var v :| Replaces(rules, clients, name, p, v) && clients' == clients[v := p.(uid := v)];
      assert IsNamed(clients, name, v);
    }
  }

  /** A run of operations: the clients before, between and after them. */
  ghost predicate IsRun(rules: Rules, states: seq<Stored>, ops: seq<Op>, oks: seq<bool>) {
    && |states| == |ops| + 1 && |oks| == |ops|
    && states[0] == map[]
    && forall k :: 0 <= k < |ops| ==> Outcome(rules, states[k], ops[k], states[k + 1], oks[k])
  }

  /** In every state of every run no two clients share a name or an identifier. */
  lemma {:induction false} RunKeepsGood(rules: Rules, states: seq<Stored>, ops: seq<Op>, oks: seq<bool>, k: nat)
    requires IsRun(rules, states, ops, oks) && k <= |ops|
    ensures GoodClients(states[k])
  {
    if k > 0 {
      RunKeepsGood(rules, states, ops, oks, k - 1);
      OpKeepsGood(rules, states[k - 1], ops[k - 1], states[k], oks[k - 1]);
    }
  }

  /** The outcome of an operation is determined by the clients before it. */
  lemma OutcomeDetermined(rules: Rules, clients: Stored, op: Op, c1: Stored, ok1: bool, c2: Stored, ok2: bool)
    requires GoodClients(clients)
    requires Outcome(rules, clients, op, c1, ok1) && Outcome(rules, clients, op, c2, ok2)
    ensures c1 == c2 && ok1 == ok2
  {}
}
