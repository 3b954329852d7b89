/** The lease index of the new DHCP service on values (`internal/dhcpsvc/leaseindex.go`,
    `interface.go` and `server.go`): leases by address, by name, and by hardware
    address on each interface. */
module LeaseIndexes {
  import opened Wrappers
  import opened Bytes

  type Addr = nat
  /** Seconds east of UTC, less than a day. */
  type Offset = o: int | -86_400 < o < 86_400

  /** A time.Time: an instant, in nanoseconds from the zero time on, and the offset of
      the zone it is told in. */
  datatype Time = Time(nanos: int, offset: Offset)

  const ZERO_TIME := Time(0, 0)

  datatype Lease = Lease(ip: Addr, expiry: Time, hostname: string, mac: MAC, isStatic: bool)

  /** What the index depends on: which interface, if any, serves an address, and
      strings.ToLower. */
  datatype Env = Env(ifaceFor: Addr -> Option<nat>, lower: string -> string, ifaces: nat) {
    /** Only existing interfaces are found. */
    ghost predicate Valid() {
      forall a :: ifaceFor(a).Some? ==> ifaceFor(a).value < ifaces
    }
  }

  datatype State = State(byAddr: map<Addr, Lease>, byName: map<string, Lease>, ifaces: seq<map<MAC, Lease>>)

  /** InvalidMAC is the panic of macToKey, which comes before any change. */
  datatype IndexError = NoIface | DupAddr | DupName | DupMAC | NoAddr | NoName | NoMAC | InvalidMAC

  /** The lengths of hardware addresses that can be keys. */
  predicate ValidMAC(mac: MAC) {
    |mac| == 6 || |mac| == 8 || |mac| == 20
  }

  function Empty(env: Env): State {
    State(map[], map[], seq(env.ifaces, _ => map[]))
  }

  // ----- Operations -----

  /** AddLease with leaseIndex.add and netInterface.addLease. */
  function Add(env: Env, s: State, l: Lease): Result<State, IndexError> {
    var name := env.lower(l.hostname);
    var iface := env.ifaceFor(l.ip);
    if iface.None? || iface.value >= |s.ifaces| then Err(NoIface)
    else if l.ip in s.byAddr then Err(DupAddr)
    else if name in s.byName then Err(DupName)
    else if !ValidMAC(l.mac) then Err(InvalidMAC)
    else if l.mac in s.ifaces[iface.value] then Err(DupMAC)
    else Ok(State(s.byAddr[l.ip := l], s.byName[name := l], s.ifaces[iface.value := s.ifaces[iface.value][l.mac := l]]))
  }

  /** RemoveLease with leaseIndex.remove and netInterface.removeLease. */
  function Remove(env: Env, s: State, l: Lease): Result<State, IndexError> {
    var name := env.lower(l.hostname);
    var iface := env.ifaceFor(l.ip);
    if iface.None? || iface.value >= |s.ifaces| then Err(NoIface)
    else if l.ip !in s.byAddr then Err(NoAddr)
    else if name !in s.byName then Err(NoName)
    else if !ValidMAC(l.mac) then Err(InvalidMAC)
    else if l.mac !in s.ifaces[iface.value] then Err(NoMAC)
    else Ok(State(s.byAddr - {l.ip}, s.byName - {name}, s.ifaces[iface.value := s.ifaces[iface.value] - {l.mac}]))
  }

  /** UpdateStaticLease with leaseIndex.update and netInterface.updateLease. */
  function Update(env: Env, s: State, l: Lease): Result<State, IndexError> {
    var name := env.lower(l.hostname);
    var iface := env.ifaceFor(l.ip);
    if iface.None? || iface.value >= |s.ifaces| then Err(NoIface)
    else if l.ip in s.byAddr && s.byAddr[l.ip].mac != l.mac then Err(DupAddr)
    else if name in s.byName && s.byName[name].mac != l.mac then Err(DupName)
    else if !ValidMAC(l.mac) then Err(InvalidMAC)
    else if l.mac !in s.ifaces[iface.value] then Err(NoMAC)
    else
      var prev := s.ifaces[iface.value][l.mac];
      Ok(State(
        (s.byAddr - {prev.ip})[l.ip := l],
        (s.byName - {env.lower(prev.hostname)})[name := l],
        s.ifaces[iface.value := s.ifaces[iface.value][l.mac := l]]))
  }

  /** removeLeaseByAddr. */
  function RemoveByAddr(env: Env, s: State, ip: Addr): Result<State, IndexError> {
    if env.ifaceFor(ip).None? then Err(NoIface)
    else if ip !in s.byAddr then Err(NoAddr)
    else Remove(env, s, s.byAddr[ip])
  }

  // ----- The invariant -----

  /** The lease l is filed under its address, under its name and on its interface. */
  ghost predicate Filed(env: Env, s: State, l: Lease) {
    && ValidMAC(l.mac)
    && l.ip in s.byAddr && s.byAddr[l.ip] == l
    && env.lower(l.hostname) in s.byName && s.byName[env.lower(l.hostname)] == l
    && env.ifaceFor(l.ip).Some? && env.ifaceFor(l.ip).value < |s.ifaces|
    && l.mac in s.ifaces[env.ifaceFor(l.ip).value] && s.ifaces[env.ifaceFor(l.ip).value][l.mac] == l
  }

  ghost predicate AddrsFiled(env: Env, s: State) {
    forall a :: a in s.byAddr ==> s.byAddr[a].ip == a && Filed(env, s, s.byAddr[a])
  }

  ghost predicate NamesFiled(env: Env, s: State) {
    forall n :: n in s.byName ==> env.lower(s.byName[n].hostname) == n && Filed(env, s, s.byName[n])
  }

  ghost predicate IfacesFiled(env: Env, s: State) {
    forall i, m :: 0 <= i < |s.ifaces| && m in s.ifaces[i] ==>
      s.ifaces[i][m].mac == m && env.ifaceFor(s.ifaces[i][m].ip) == Some(i) && Filed(env, s, s.ifaces[i][m])
  }

  /** All maps hold the same leases, each under its own keys and on the interface of
      its address. */
  ghost predicate Inv(env: Env, s: State) {
    && |s.ifaces| == env.ifaces
    && AddrsFiled(env, s)
    && NamesFiled(env, s)
    && IfacesFiled(env, s)
  }

  lemma EmptyInv(env: Env)
    ensures Inv(env, Empty(env))
  {}

  lemma AddKeepsIfaces(env: Env, s: State, l: Lease)
    requires Inv(env, s) && Add(env, s, l).Ok?
    ensures IfacesFiled(env, Add(env, s, l).value)
  {
    var s' := Add(env, s, l).value;
    forall j, m | 0 <= j < |s'.ifaces| && m in s'.ifaces[j]
      ensures
        && s'.ifaces[j][m].mac == m && env.ifaceFor(s'.ifaces[j][m].ip) == Some(j)
        && Filed(env, s', s'.ifaces[j][m])
    {}
  }

  /** Adding keeps the invariant. */
  lemma AddKeepsInv(env: Env, s: State, l: Lease)
    requires Inv(env, s) && Add(env, s, l).Ok?
    ensures Inv(env, Add(env, s, l).value)
  {
    var s' := Add(env, s, l).value;
    forall a | a in s'.byAddr
      ensures s'.byAddr[a].ip == a && Filed(env, s', s'.byAddr[a])
    {}
    forall n | n in s'.byName
      ensures env.lower(s'.byName[n].hostname) == n && Filed(env, s', s'.byName[n])
    {}
    AddKeepsIfaces(env, s, l);
  }

  /** The three entries that removing l deletes. */
  ghost predicate SameEntry(env: Env, s: State, l: Lease)
    requires Remove(env, s, l).Ok?
  {
    s.byAddr[l.ip] == s.byName[env.lower(l.hostname)] == s.ifaces[env.ifaceFor(l.ip).value][l.mac]
  }

  lemma RemoveKeepsInv(env: Env, s: State, l: Lease)
    requires Inv(env, s) && Remove(env, s, l).Ok? && SameEntry(env, s, l)
    ensures Inv(env, Remove(env, s, l).value)
  {
    var s' := Remove(env, s, l).value;
    forall a | a in s'.byAddr
      ensures s'.byAddr[a].ip == a && Filed(env, s', s'.byAddr[a])
    {
      RemoveFiled(env, s, l, s.byAddr[a]);
    }
    forall n | n in s'.byName
      ensures env.lower(s'.byName[n].hostname) == n && Filed(env, s', s'.byName[n])
    {
      RemoveFiled(env, s, l, s.byName[n]);
    }
    forall j, m | 0 <= j < |s'.ifaces| && m in s'.ifaces[j]
      ensures s'.ifaces[j][m].mac == m && env.ifaceFor(s'.ifaces[j][m].ip) == Some(j) && Filed(env, s', s'.ifaces[j][m])
    {
      RemoveFiled(env, s, l, s.ifaces[j][m]);
    }
  }

  /** Every lease but the removed one stays filed. */
  lemma RemoveFiled(env: Env, s: State, l: Lease, k: Lease)
    requires Inv(env, s) && Remove(env, s, l).Ok? && SameEntry(env, s, l)
    ensures Filed(env, s, k) && k != s.byAddr[l.ip] ==> Filed(env, Remove(env, s, l).value, k)
  {
    assert Filed(env, s, s.byAddr[l.ip]);
  }

  /** A removal that goes through keeps the invariant if and only if the address,
      the name and the hardware address it is given belong to one stored lease. */
  lemma RemoveKeepsInvIff(env: Env, s: State, l: Lease)
    requires Inv(env, s) && Remove(env, s, l).Ok?
    ensures Inv(env, Remove(env, s, l).value) <==> SameEntry(env, s, l)
  {
    if SameEntry(env, s, l) {
      RemoveKeepsInv(env, s, l);
    } else {
      var s' := Remove(env, s, l).value;
      var i := env.ifaceFor(l.ip).value;
      var a, n, m := s.byAddr[l.ip], s.byName[env.lower(l.hostname)], s.ifaces[i][l.mac];
      assert Filed(env, s, a) && Filed(env, s, n) && Filed(env, s, m);
      if a != n {
        assert n.ip in s'.byAddr && !Filed(env, s', n);
      } else {
        assert a.mac in s'.ifaces[i] && !Filed(env, s', a);
      }
    }
  }

  /** The name that an update asks for is unused or used on the same interface. */
  ghost predicate NameOnSameIface(env: Env, s: State, l: Lease) {
    var name := env.lower(l.hostname);
    name in s.byName ==> env.ifaceFor(s.byName[name].ip) == env.ifaceFor(l.ip)
  }

  lemma UpdateKeepsInv(env: Env, s: State, l: Lease)
    requires Inv(env, s) && Update(env, s, l).Ok? && NameOnSameIface(env, s, l)
    ensures Inv(env, Update(env, s, l).value)
  {
    var s' := Update(env, s, l).value;
    var i := env.ifaceFor(l.ip).value;
    var prev := s.ifaces[i][l.mac];
    assert Filed(env, s, prev);
    forall a | a in s'.byAddr
      ensures s'.byAddr[a].ip == a && Filed(env, s', s'.byAddr[a])
    {
      UpdateFiled(env, s, l, if a in s.byAddr then s.byAddr[a] else l);
    }
    forall n | n in s'.byName
      ensures env.lower(s'.byName[n].hostname) == n && Filed(env, s', s'.byName[n])
    {
      UpdateFiled(env, s, l, if n in s.byName then s.byName[n] else l);
    }
    forall j, m | 0 <= j < |s'.ifaces| && m in s'.ifaces[j]
      ensures s'.ifaces[j][m].mac == m && env.ifaceFor(s'.ifaces[j][m].ip) == Some(j) && Filed(env, s', s'.ifaces[j][m])
    {
      UpdateFiled(env, s, l, if m in s.ifaces[j] then s.ifaces[j][m] else l);
    }
  }

  /** After an update the new lease is filed, and so is every old lease but the one
      it replaces. */
  lemma UpdateFiled(env: Env, s: State, l: Lease, k: Lease)
    requires Inv(env, s) && Update(env, s, l).Ok? && NameOnSameIface(env, s, l)
    ensures var s' := Update(env, s, l).value;
            var prev := s.ifaces[env.ifaceFor(l.ip).value][l.mac];
            Filed(env, s', l) && (Filed(env, s, k) && k != prev ==> Filed(env, s', k))
  {
    UpdatedFiled(env, s, l);
    if Filed(env, s, k) && k != s.ifaces[env.ifaceFor(l.ip).value][l.mac] {
      UpdateKeepsEntry(env, s, l, k);
    }
  }

  lemma UpdatedFiled(env: Env, s: State, l: Lease)
    requires Update(env, s, l).Ok?
    ensures Filed(env, Update(env, s, l).value, l)
  {}

  lemma UpdateKeepsEntry(env: Env, s: State, l: Lease, k: Lease)
    requires Inv(env, s) && Update(env, s, l).Ok? && NameOnSameIface(env, s, l) && Filed(env, s, k)
    requires k != s.ifaces[env.ifaceFor(l.ip).value][l.mac]
    ensures Filed(env, Update(env, s, l).value, k)
  {
    assert Filed(env, s, s.ifaces[env.ifaceFor(l.ip).value][l.mac]);
    UpdateFinds(env, s, l);
  }

  /** What an update finds under its address and its name is what it replaces. */
  lemma UpdateFinds(env: Env, s: State, l: Lease)
    requires Inv(env, s) && Update(env, s, l).Ok? && NameOnSameIface(env, s, l)
    ensures var prev := s.ifaces[env.ifaceFor(l.ip).value][l.mac];
            && (l.ip in s.byAddr ==> s.byAddr[l.ip] == prev)
            && (env.lower(l.hostname) in s.byName ==> s.byName[env.lower(l.hostname)] == prev)
  {}

  /** An update that goes through keeps the invariant if and only if the name it
      asks for is not in use on another interface. */
  lemma UpdateKeepsInvIff(env: Env, s: State, l: Lease)
    requires Inv(env, s) && Update(env, s, l).Ok?
    ensures Inv(env, Update(env, s, l).value) <==> NameOnSameIface(env, s, l)
  {
    if NameOnSameIface(env, s, l) {
      UpdateKeepsInv(env, s, l);
    } else {
      var s' := Update(env, s, l).value;
      var i := env.ifaceFor(l.ip).value;
      var other := s.byName[env.lower(l.hostname)];
      assert Filed(env, s, other) && Filed(env, s, s.ifaces[i][l.mac]);
      assert other.ip in s'.byAddr && !Filed(env, s', other);
    }
  }

  // ----- What breaks the invariant -----

  /** Two interfaces, for 192.168.0.0/24 and 192.168.1.0/24. */
  function TwoIfaces(): Env {
    Env(ip => if FIRST_NET <= ip < SECOND_NET then Some(0)
              else if SECOND_NET <= ip < SECOND_NET + 256 then Some(1) else None,
        name => name, 2)
  }

  const FIRST_NET: Addr := 0xC0A8_0000
  const SECOND_NET: Addr := 0xC0A8_0100

  /** A hardware address that has a lease on two interfaces: updating one of the
      leases to the name of the other goes through, and the maps disagree. */
  lemma UpdateTakesName(mac: MAC)
    requires ValidMAC(mac)
    ensures var env := TwoIfaces();
            var a := Lease(FIRST_NET + 2, ZERO_TIME, "a", mac, true);
            var b := Lease(SECOND_NET + 2, ZERO_TIME, "b", mac, true);
            var s := Next(env, Next(env, Empty(env), AddLease(a)), AddLease(b));
            var u := Update(env, s, a.(hostname := "b"));
            Filed(env, s, a) && Filed(env, s, b) && Inv(env, s) && u.Ok? && !Inv(env, u.value)
  {
    var env := TwoIfaces();
    var a := Lease(FIRST_NET + 2, ZERO_TIME, "a", mac, true);
    var b := Lease(SECOND_NET + 2, ZERO_TIME, "b", mac, true);
    var s1 := Next(env, Empty(env), AddLease(a));
    EmptyInv(env);
    AddKeepsInv(env, Empty(env), a);
    AddKeepsInv(env, s1, b);
    var s := Next(env, s1, AddLease(b));
    assert s.byName["b"] == b;
    UpdateKeepsInvIff(env, s, a.(hostname := "b"));
  }

  /** Removing with the address and the hardware address of one lease and the name
      of another goes through, and the maps disagree. */
  lemma RemoveMixesKeys(m: MAC, n: MAC)
    requires ValidMAC(m) && ValidMAC(n) && m != n
    ensures var env := TwoIfaces();
            var a, b := Lease(FIRST_NET + 2, ZERO_TIME, "a", m, true), Lease(FIRST_NET + 3, ZERO_TIME, "b", n, true);
            var s := Next(env, Next(env, Empty(env), AddLease(a)), AddLease(b));
            var u := Remove(env, s, a.(hostname := "b"));
            Filed(env, s, a) && Filed(env, s, b) && Inv(env, s) && u.Ok? && !Inv(env, u.value)
  {
    var env := TwoIfaces();
    var a, b := Lease(FIRST_NET + 2, ZERO_TIME, "a", m, true), Lease(FIRST_NET + 3, ZERO_TIME, "b", n, true);
    var s1 := Next(env, Empty(env), AddLease(a));
    EmptyInv(env);
    AddKeepsInv(env, Empty(env), a);
    AddKeepsInv(env, s1, b);
    var s := Next(env, s1, AddLease(b));
    assert s.byName["b"] == b && s.byAddr[FIRST_NET + 2] == a;
    RemoveKeepsInvIff(env, s, a.(hostname := "b"));
  }

  /** Removal by address always keeps the invariant and always succeeds for a
      leased address. */
  lemma RemoveByAddrKeepsInv(env: Env, s: State, ip: Addr)
    requires Inv(env, s)
    ensures RemoveByAddr(env, s, ip).Ok? <==> ip in s.byAddr
    ensures RemoveByAddr(env, s, ip).Ok? ==> Inv(env, RemoveByAddr(env, s, ip).value)
  {
    if ip in s.byAddr {
      assert Filed(env, s, s.byAddr[ip]);
      RemoveKeepsInv(env, s, s.byAddr[ip]);
    }
  }

  /** Removing a lease undoes adding it. */
  lemma RemoveUndoesAdd(env: Env, s: State, l: Lease)
    requires Add(env, s, l).Ok?
    ensures Remove(env, Add(env, s, l).value, l) == Ok(s)
  {
    var i := env.ifaceFor(l.ip).value;
    var s' := Add(env, s, l).value;
    assert s'.byAddr - {l.ip} == s.byAddr;
    assert s'.byName - {env.lower(l.hostname)} == s.byName;
    assert s'.ifaces[i] - {l.mac} == s.ifaces[i];
    assert s'.ifaces[i := s.ifaces[i]] == s.ifaces;
  }

  // ----- Runs -----

  datatype Op = AddLease(l: Lease) | UpdateLease(l: Lease) | RemoveLease(l: Lease) | RemoveAddr(ip: Addr) | Reset

  function Apply(env: Env, s: State, op: Op): Result<State, IndexError> {
    match op
    case AddLease(l) => Add(env, s, l)
    case UpdateLease(l) => Update(env, s, l)
    case RemoveLease(l) => Remove(env, s, l)
    case RemoveAddr(ip) => RemoveByAddr(env, s, ip)
    case Reset => Ok(Empty(env))
  }

  /** What the callers of update and remove promise. */
  ghost predicate Proper(env: Env, s: State, op: Op) {
    match op
    case UpdateLease(l) => NameOnSameIface(env, s, l)
    case RemoveLease(l) => Remove(env, s, l).Ok? ==> SameEntry(env, s, l)
    case _ => true
  }

  /** A failed operation changes nothing. */
  function Next(env: Env, s: State, op: Op): State {
    var r := Apply(env, s, op);
    if r.Ok? then r.value else s
  }

  lemma NextKeepsInv(env: Env, s: State, op: Op)
    requires Inv(env, s) && Proper(env, s, op)
    ensures Inv(env, Next(env, s, op))
  {
    match op
    case AddLease(l) => if Add(env, s, l).Ok? { AddKeepsInv(env, s, l); }
    case UpdateLease(l) => if Update(env, s, l).Ok? { UpdateKeepsInv(env, s, l); }
    case RemoveLease(l) => if Remove(env, s, l).Ok? { RemoveKeepsInv(env, s, l); }
    case RemoveAddr(ip) => RemoveByAddrKeepsInv(env, s, ip);
    case Reset => EmptyInv(env);
  }

  ghost predicate IsRun(env: Env, states: seq<State>, ops: seq<Op>) {
    && |states| == |ops| + 1
    && states[0] == Empty(env)
    && forall k :: 0 <= k < |ops| ==> Proper(env, states[k], ops[k]) && states[k + 1] == Next(env, states[k], ops[k])
  }

  /** The maps agree in every state of every run. */
  lemma {:induction false} RunKeepsInv(env: Env, states: seq<State>, ops: seq<Op>, k: nat)
    requires IsRun(env, states, ops) && k <= |ops|
    ensures Inv(env, states[k])
  {
    if k == 0 {
      EmptyInv(env);
    } else {
      RunKeepsInv(env, states, ops, k - 1);
      NextKeepsInv(env, states[k - 1], ops[k - 1]);
    }
  }
}
