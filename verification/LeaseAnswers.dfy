/** What the DHCPv4 server answers to each message, and what each message changes, in
    terms of the leases alone (sections 4.3.1, 4.3.2 and 4.3.4 of RFC 2131). */
module LeaseAnswers {
  import opened Wrappers
  import opened Bytes
  import opened IPRanges
  import opened LeaseState
  import opened LeaseSafety
  import opened LeaseRuns
  import opened RequestRace

  ghost predicate HasMAC(leases: seq<Lease>, mac: MAC) {
    exists i :: 0 <= i < |leases| && leases[i].mac == mac
  }

  ghost predicate HasLease(leases: seq<Lease>, l: Lease) {
    exists i :: 0 <= i < |leases| && leases[i] == l
  }

  // ----- The candidates of an allocation -----

  ghost predicate Increasing(s: seq<Addr>) {
    forall i, j :: 0 <= i < j < |s| ==> s[i] < s[j]
  }

  /** The free candidates are the addresses from a on without a mark, in increasing
      order. */
  lemma {:induction false} FreeAre(r: IPRange, offsets: set<nat>, a: nat)
    requires r.start <= a
    ensures forall x: nat :: x in Free(r, offsets, a) <==> a <= x <= r.end && x - r.start !in offsets
    ensures Increasing(Free(r, offsets, a))
    decreases r.end + 1 - a
  {
    if a <= r.end {
      FreeAre(r, offsets, a + 1);
      var rest := Free(r, offsets, a + 1);
      assert forall i :: 0 <= i < |rest| ==> rest[i] in rest;
    }
  }

  /** The other candidates are the addresses of the dynamic leases that expired before
      now, in the order of the list. */
  lemma {:induction false} ExpiredAre(leases: seq<Lease>, l: Lease, now: Time, k: nat)
    requires k <= |leases|
    ensures ExpiredIPs(leases + [l], now, k) ==
              ExpiredIPs(leases, now, k) + if !l.isStatic && l.expiry < now then [l.ip] else []
    ensures ExpiredIPs(leases, now, |leases|) == []
    decreases |leases| - k
  {
    if k < |leases| {
      ExpiredAre(leases, l, now, k + 1);
    }
  }

  /** The candidates of a state: free addresses first. */
  lemma CandidatesAre(conf: Conf, s: State, now: Time)
    ensures exists n :: 0 <= n <= |Candidates(conf, s, now)| &&
              var free := Candidates(conf, s, now)[..n];
              && Increasing(free)
              && (forall x: nat :: x in free <==>
                    conf.ipRange.start <= x <= conf.ipRange.end && x - conf.ipRange.start !in s.offsets)
              && Candidates(conf, s, now)[n..] == ExpiredIPs(s.leases, now, 0)
  {
    FreeAre(conf.ipRange, s.offsets, conf.ipRange.start);
    assert Candidates(conf, s, now)[..|FreeIPs(conf, s)|] == FreeIPs(conf, s);
  }

  // ----- DISCOVER -----

  /** A client that has a lease, static or not, expired or not, is offered it again,
      and nothing changes. */
  lemma DiscoverKnown(conf: Conf, s: State, mac: MAC, probe: nat -> bool, now: Time, ip: Addr)
    requires Inv(conf, s) && IsClientMAC(mac) && HasPair(s.leases, ip, mac)
    ensures Step(conf, s, Discover(mac, probe), now) == (s, Offer(ip))
  {}

  /** A client without a lease is refused if and only if the probe accepts no
      candidate. */
  lemma DiscoverRefusedIff(conf: Conf, s: State, mac: MAC, probe: nat -> bool, now: Time)
    requires !HasMAC(s.leases, mac)
    ensures Step(conf, s, Discover(mac, probe), now).1 == Nak <==>
              forall n :: 0 <= n < |Candidates(conf, s, now)| ==> !probe(n)
  {
    AllocateFailsIff(conf, s, mac, now, probe, 0);
  }

  /** The lease that allocation returns is the client's and has the address of the first
      accepted candidate. */
  lemma AllocateNew(
    conf: Conf, s: State, mac: MAC, probe: nat -> bool, now: Time, n: nat, s': State, r: Option<nat>)
    requires Inv(conf, s) && IsClientMAC(mac) && FindByMAC(s.leases, mac).None?
    requires FirstSuccess(probe, 0, |Candidates(conf, s, now)|, n) && (s', r) == Allocate(conf, s, mac, now, probe)
    ensures r.Some? && s'.leases[r.value].ip == Candidates(conf, s, now)[n] && s'.leases[r.value].mac == mac
  {
    AllocateFirst(conf, s, mac, probe, now, n, s', r);
    AllocateOwn(conf, s, mac, probe, now, s', r);
  }

  lemma AllocateFirst(
    conf: Conf, s: State, mac: MAC, probe: nat -> bool, now: Time, n: nat, s': State, r: Option<nat>)
    requires FirstSuccess(probe, 0, |Candidates(conf, s, now)|, n) && (s', r) == Allocate(conf, s, mac, now, probe)
    ensures r.Some? && r.value < |s'.leases| && s'.leases[r.value].ip == Candidates(conf, s, now)[n]
  {
    AllocateTakesFirst(conf, s, mac, now, probe, 0, n);
  }

  lemma AllocateOwn(
    conf: Conf, s: State, mac: MAC, probe: nat -> bool, now: Time, s': State, r: Option<nat>)
    requires Inv(conf, s) && IsClientMAC(mac) && FindByMAC(s.leases, mac).None?
    requires (s', r) == Allocate(conf, s, mac, now, probe)
    ensures r.Some? ==> r.value < |s'.leases| && s'.leases[r.value].mac == mac
  {
    AllocateKeepsInv(conf, s, mac, now, probe, 0);
  }

  /** Otherwise it is offered the first candidate that the probe accepts, which is
      then its own. */
  lemma DiscoverNew(conf: Conf, s: State, mac: MAC, probe: nat -> bool, now: Time, n: nat)
    requires Inv(conf, s) && IsClientMAC(mac) && !HasMAC(s.leases, mac)
    requires n < |Candidates(conf, s, now)| && probe(n) && forall k :: 0 <= k < n ==> !probe(k)
    ensures var (s', reply) := Step(conf, s, Discover(mac, probe), now);
            && reply == Offer(Candidates(conf, s, now)[n])
            && HasPair(s'.leases, Candidates(conf, s, now)[n], mac)
            && Taken(s.leases, s'.leases, Candidates(conf, s, now)[n], mac, now)
  {
    AllocateTaken(conf, s, mac, now, probe, n, Allocate(conf, s, mac, now, probe));
    var (s', r) := Allocate(conf, s, mac, now, probe);
    AllocateNew(conf, s, mac, probe, now, n, s', r);
  }

  /** What is left of a candidate that the probe refuses. */
  function Refused(conf: Conf, ip: Addr, now: Time): Lease {
    Lease(ip, [0, 0, 0, 0, 0, 0], now + conf.leaseTime, "", false)
  }

  /** The state after a failed attempt. */
  function Failed(conf: Conf, s: State, mac: MAC, now: Time): State {
    match Reserve(conf, s, mac, now)
    case None => s
    case Some((r, f)) => BlockAt(conf, r, f, now)
  }

  ghost predicate IsFailed(conf: Conf, s: State, s1: State, mac: MAC, now: Time) {
    s1 == Failed(conf, s, mac, now)
  }

  /** The states before, between and after failed attempts. */
  ghost predicate IsTrail(conf: Conf, mac: MAC, now: Time, trail: seq<State>) {
    trail != [] && forall i :: 0 <= i < |trail| - 1 ==> IsFailed(conf, trail[i], trail[i + 1], mac, now)
  }

  lemma {:induction false} TrailExists(conf: Conf, s: State, mac: MAC, now: Time, n: nat) returns (trail: seq<State>)
    ensures IsTrail(conf, mac, now, trail) && |trail| == n + 1 && trail[0] == s
  {
    if n == 0 {
      trail := [s];
    } else {
      var before := TrailExists(conf, s, mac, now, n - 1);
      var next := Failed(conf, before[n - 1], mac, now);
      assert IsFailed(conf, before[n - 1], next, mac, now);
      trail := before + [next];
      forall i | 0 <= i < n
        ensures IsFailed(conf, trail[i], trail[i + 1], mac, now)
      {
        assert i < n - 1 ==> IsFailed(conf, before[i], before[i + 1], mac, now);
      }
    }
  }

  /** mac can still be allocated an address in s. */
  ghost predicate Seeks(conf: Conf, s: State, mac: MAC) {
    Inv(conf, s) && IsClientMAC(mac) && FindByMAC(s.leases, mac).None?
  }

  /** A failed attempt uses up the first candidate and leaves it blocked. */
  lemma FailedOnce(conf: Conf, s: State, mac: MAC, now: Time)
    requires Seeks(conf, s, mac) && Candidates(conf, s, now) != []
    ensures var s1 := Failed(conf, s, mac, now);
            && Seeks(conf, s1, mac)
            && Candidates(conf, s1, now) == Candidates(conf, s, now)[1..]
            && HasLease(s1.leases, Refused(conf, Candidates(conf, s, now)[0], now))
  {
    ReserveStep(conf, s, mac, now);
    ReserveKeepsInv(conf, s, mac, now);
    var (r, f) := Reserve(conf, s, mac, now).value;
    BlockKeepsInv(conf, r, f, now);
    BlockForgetsMAC(conf, s, mac, now);
    FirstIsBlocked(conf, s, mac, now);
    assert HasLease(BlockAt(conf, r, f, now).leases, BlockAt(conf, r, f, now).leases[f]);
  }

  lemma {:induction false} TrailAre(conf: Conf, mac: MAC, now: Time, trail: seq<State>, n: nat)
    requires IsTrail(conf, mac, now, trail) && n < |trail| && Seeks(conf, trail[0], mac)
    requires n <= |Candidates(conf, trail[0], now)|
    ensures Seeks(conf, trail[n], mac) && Candidates(conf, trail[n], now) == Candidates(conf, trail[0], now)[n..]
  {
    if n > 0 {
      TrailAre(conf, mac, now, trail, n - 1);
      assert IsFailed(conf, trail[n - 1], trail[n], mac, now);
      FailedOnce(conf, trail[n - 1], mac, now);
    }
  }

  /** Allocation goes on from there when the probe refuses the first n candidates. */
  lemma {:induction false} AllocateSkips(
    conf: Conf, mac: MAC, now: Time, probe: nat -> bool, trail: seq<State>, n: nat, r: (State, Option<nat>))
    requires IsTrail(conf, mac, now, trail) && n < |trail| && Seeks(conf, trail[0], mac)
    requires n <= |Candidates(conf, trail[0], now)| && forall k: nat :: k < n ==> !probe(k)
    requires r == Allocate(conf, trail[0], mac, now, probe)
    ensures r == Allocate(conf, trail[n], mac, now, probe, n)
  {
    if n > 0 {
      AllocateSkips(conf, mac, now, probe, trail, n - 1, r);
      TrailAre(conf, mac, now, trail, n - 1);
      assert IsFailed(conf, trail[n - 1], trail[n], mac, now);
      SkipsOne(conf, trail[n - 1], trail[n], mac, now, probe, n - 1, r);
    }
  }

  lemma SkipsOne(
    conf: Conf, s: State, s1: State, mac: MAC, now: Time, probe: nat -> bool, k: nat, r: (State, Option<nat>))
    requires Candidates(conf, s, now) != [] && !probe(k) && s1 == Failed(conf, s, mac, now)
    requires r == Allocate(conf, s, mac, now, probe, k)
    ensures r == Allocate(conf, s1, mac, now, probe, k + 1)
  {
    ReserveStep(conf, s, mac, now);
  }

  /** Failed attempts bring no expired lease. */
  lemma {:induction false} ExpiredBefore(conf: Conf, mac: MAC, now: Time, trail: seq<State>, n: nat, l: Lease)
    requires IsTrail(conf, mac, now, trail) && n < |trail| && HasLease(trail[n].leases, l) && Expired(l, now)
    ensures HasLease(trail[0].leases, l)
  {
    if n > 0 {
      assert IsFailed(conf, trail[n - 1], trail[n], mac, now);
      ExpiredOnce(conf, trail[n - 1], mac, now, l);
      ExpiredBefore(conf, mac, now, trail, n - 1, l);
    }
  }

  lemma ExpiredOnce(conf: Conf, s: State, mac: MAC, now: Time, l: Lease)
    requires HasLease(Failed(conf, s, mac, now).leases, l) && Expired(l, now)
    ensures HasLease(s.leases, l)
  {
    var i :| 0 <= i < |Failed(conf, s, mac, now).leases| && Failed(conf, s, mac, now).leases[i] == l;
    assert s.leases[i] == l;
  }

  /** The lease with which mac gets ip: a fresh dynamic one that has not been accepted
      yet, or an expired one with everything else as it was. */
  ghost predicate Taken(before: seq<Lease>, after: seq<Lease>, ip: Addr, mac: MAC, now: Time) {
    || HasLease(after, Lease(ip, mac, 0, "", false))
    || (exists l :: HasLease(before, l) && Expired(l, now) && l.ip == ip && HasLease(after, l.(mac := mac)))
  }

  lemma ReserveTakes(conf: Conf, s: State, mac: MAC, now: Time)
    requires Seeks(conf, s, mac) && Candidates(conf, s, now) != []
    ensures Reserve(conf, s, mac, now).Some?
    ensures Taken(s.leases, Reserve(conf, s, mac, now).value.0.leases, Candidates(conf, s, now)[0], mac, now)
  {
    ReserveStep(conf, s, mac, now);
    var (s', i) := Reserve(conf, s, mac, now).value;
    if NextIP(conf, s).Some? {
      assert s'.leases[i] == Lease(Candidates(conf, s, now)[0], mac, 0, "", false);
    } else {
      CopyMACExact(s.leases[i].mac, mac);
      assert HasLease(s.leases, s.leases[i]) && s'.leases[i] == s.leases[i].(mac := mac);
      assert HasLease(s'.leases, s.leases[i].(mac := mac));
    }
  }

  lemma TakenEarlier(
    conf: Conf, trail: seq<State>, n: nat, after: seq<Lease>, ip: Addr, mac: MAC, now: Time)
    requires IsTrail(conf, mac, now, trail) && n < |trail| && Taken(trail[n].leases, after, ip, mac, now)
    ensures Taken(trail[0].leases, after, ip, mac, now)
  {
    if !HasLease(after, Lease(ip, mac, 0, "", false)) {
      var l :| HasLease(trail[n].leases, l) && Expired(l, now) && l.ip == ip && HasLease(after, l.(mac := mac));
      ExpiredBefore(conf, mac, now, trail, n, l);
    }
  }

  /** The accepted candidate is taken by the client. */
  lemma AllocateTaken(
    conf: Conf, s: State, mac: MAC, now: Time, probe: nat -> bool, n: nat, r: (State, Option<nat>))
    requires Seeks(conf, s, mac) && n < |Candidates(conf, s, now)|
    requires probe(n) && forall k: nat :: k < n ==> !probe(k)
    requires r == Allocate(conf, s, mac, now, probe)
    ensures Taken(s.leases, r.0.leases, Candidates(conf, s, now)[n], mac, now)
  {
    var trail := TrailExists(conf, s, mac, now, n);
    AllocateSkips(conf, mac, now, probe, trail, n, r);
    TrailAre(conf, mac, now, trail, n);
    TakenNow(conf, trail[n], mac, now, probe, n, r);
    TakenEarlier(conf, trail, n, r.0.leases, Candidates(conf, s, now)[n], mac, now);
  }

  lemma TakenNow(
    conf: Conf, s: State, mac: MAC, now: Time, probe: nat -> bool, k: nat, r: (State, Option<nat>))
    requires Seeks(conf, s, mac) && Candidates(conf, s, now) != [] && probe(k)
    requires r == Allocate(conf, s, mac, now, probe, k)
    ensures Taken(s.leases, r.0.leases, Candidates(conf, s, now)[0], mac, now)
  {
    ReserveTakes(conf, s, mac, now);
  }

  /** Every candidate that has been refused is blocked for the lease time. */
  lemma AllocateBlocks(
    conf: Conf, s: State, mac: MAC, now: Time, probe: nat -> bool, j: nat, r: (State, Option<nat>))
    requires Seeks(conf, s, mac) && j < |Candidates(conf, s, now)| && forall k: nat :: k <= j ==> !probe(k)
    requires r == Allocate(conf, s, mac, now, probe)
    ensures HasLease(r.0.leases, Refused(conf, Candidates(conf, s, now)[j], now))
  {
    var trail := TrailExists(conf, s, mac, now, j + 1);
    AllocateSkips(conf, mac, now, probe, trail, j + 1, r);
    TrailAre(conf, mac, now, trail, j);
    TrailAre(conf, mac, now, trail, j + 1);
    assert IsFailed(conf, trail[j], trail[j + 1], mac, now);
    FailedOnce(conf, trail[j], mac, now);
    AllocateKeepsLease(
      conf, trail[j + 1], mac, now, probe, j + 1, Refused(conf, Candidates(conf, s, now)[j], now), r);
  }

  /** A lease that has not expired stays in the list. */
  lemma AllocateKeepsLease(
    conf: Conf, s: State, mac: MAC, now: Time, probe: nat -> bool, k: nat, l: Lease, r: (State, Option<nat>))
    requires Seeks(conf, s, mac) && HasLease(s.leases, l) && !Expired(l, now)
    requires r == Allocate(conf, s, mac, now, probe, k)
    ensures HasLease(r.0.leases, l)
  {
    var i :| 0 <= i < |s.leases| && s.leases[i] == l;
    AllocateSparesIff(conf, s, mac, now, probe, k, i);
  }

  lemma FirstIsBlocked(conf: Conf, s: State, mac: MAC, now: Time)
    requires Inv(conf, s) && Reserve(conf, s, mac, now).Some? && Candidates(conf, s, now) != []
    ensures var (r, f) := Reserve(conf, s, mac, now).value;
            && f < |BlockAt(conf, r, f, now).leases|
            && BlockAt(conf, r, f, now).leases[f] == Refused(conf, Candidates(conf, s, now)[0], now)
            && !Expired(Refused(conf, Candidates(conf, s, now)[0], now), now)
  {
    ReserveStep(conf, s, mac, now);
  }

  /** A message that finds a candidate refused leaves the candidate blocked. */
  lemma DiscoverBlocks(conf: Conf, s: State, mac: MAC, probe: nat -> bool, now: Time, j: nat)
    requires Inv(conf, s) && IsClientMAC(mac) && !HasMAC(s.leases, mac)
    requires j < |Candidates(conf, s, now)| && forall k :: 0 <= k <= j ==> !probe(k)
    ensures HasLease(
              Step(conf, s, Discover(mac, probe), now).0.leases, Refused(conf, Candidates(conf, s, now)[j], now))
  {
    AllocateBlocks(conf, s, mac, now, probe, j, Allocate(conf, s, mac, now, probe));
  }

  /** A lease that is not among the candidates, or comes after the accepted one, is
      left as it is. */
  lemma DiscoverSpares(conf: Conf, s: State, mac: MAC, probe: nat -> bool, now: Time, i: nat)
    requires Inv(conf, s) && IsClientMAC(mac) && i < |s.leases|
    requires s.leases[i].isStatic || s.leases[i].expiry >= now
    ensures i < |Step(conf, s, Discover(mac, probe), now).0.leases|
    ensures Step(conf, s, Discover(mac, probe), now).0.leases[i] == s.leases[i]
  {
    DiscoverKeepsLease(conf, s, Discover(mac, probe), now, i);
  }

  /** An address that the probe has refused is offered to nobody, and acknowledged to
      nobody, before the lease time has passed. */
  lemma RefusedStaysBlocked(
    conf: Conf, states: seq<State>, events: seq<Event>, a: nat, b: nat, j: nat)
    requires IsRun(conf, states, events) && a < b < |events| && events[a].msg.Discover?
    requires !HasMAC(states[a].leases, events[a].msg.mac)
    requires j < |Candidates(conf, states[a], events[a].now)|
    requires forall k :: 0 <= k <= j ==> !events[a].msg.probe(k)
    requires events[b].now <= events[a].now + conf.leaseTime
    ensures var ip := Candidates(conf, states[a], events[a].now)[j];
            ReplyAt(conf, states, events, b) != Offer(ip) && ReplyAt(conf, states, events, b) != Ack(ip)
  {
    var ip, until := Candidates(conf, states[a], events[a].now)[j], events[a].now + conf.leaseTime;
    EventBlocks(conf, states, events, a, j);
    forall k | a + 1 <= k < b
      ensures events[k].msg.mac != BLOCKED
    {
      assert IsBlocklisted(BLOCKED) && IsClientMAC(events[k].msg.mac);
    }
    LeaseIsKept(conf, states, events, a + 1, b, ip, BLOCKED, until);
    assert IsBlocklisted(BLOCKED) && IsClientMAC(events[b].msg.mac);
  }

  lemma EventBlocks(conf: Conf, states: seq<State>, events: seq<Event>, a: nat, j: nat)
    requires IsRun(conf, states, events) && a < |events| && events[a].msg.Discover?
    requires !HasMAC(states[a].leases, events[a].msg.mac)
    requires j < |Candidates(conf, states[a], events[a].now)|
    requires forall k :: 0 <= k <= j ==> !events[a].msg.probe(k)
    ensures HasLease(
              states[a + 1].leases, Refused(conf, Candidates(conf, states[a], events[a].now)[j], events[a].now))
  {
    RunKeepsInv(conf, states, events, a);
    assert Linked(conf, states, events, a);
    DiscoverBlocks(conf, states[a], events[a].msg.mac, events[a].msg.probe, events[a].now, j);
  }

  // ----- REQUEST -----

  /** The option or field is absent or 0.0.0.0. */
  predicate Unset(ip: Option<Addr>) {
    ip == None || ip == Some(0)
  }

  /** The state in which the client makes a request (section 4.3.2 of RFC 2131). */
  datatype Phase = Selecting | InitReboot | Renewing

  function PhaseOf(m: Message): Phase
    requires m.Request?
  {
    if !Unset(m.sid) then Selecting else if !Unset(m.reqIP) then InitReboot else Renewing
  }

  /** When a request is refused. */
  lemma NakIff(conf: Conf, s: State, m: Message, now: Time)
    requires Inv(conf, s) && m.Request? && IsClientMAC(m.mac)
    ensures Step(conf, s, m, now).1 == Nak <==>
              match PhaseOf(m)
              case Selecting =>
                && m.sid == Some(conf.serverID) && Unset(m.ciaddr) && m.reqIP.Some?
                && !HasPair(s.leases, m.reqIP.value, m.mac)
              case InitReboot =>
                && Unset(m.ciaddr)
                && (!conf.subnet.Contains(m.reqIP.value)
                    || (HasMAC(s.leases, m.mac) && !HasPair(s.leases, m.reqIP.value, m.mac)))
              case Renewing =>
                !Unset(m.ciaddr) && HasMAC(s.leases, m.mac) && !HasPair(s.leases, m.ciaddr.value, m.mac)
  {}

  /** When a request is not answered. */
  lemma SilentIff(conf: Conf, s: State, m: Message, now: Time)
    requires Inv(conf, s) && m.Request? && IsClientMAC(m.mac)
    ensures Step(conf, s, m, now).1 == Silent <==>
              match PhaseOf(m)
              case Selecting => m.sid != Some(conf.serverID) || !Unset(m.ciaddr) || m.reqIP.None?
              case InitReboot =>
                || !Unset(m.ciaddr)
                || (conf.subnet.Contains(m.reqIP.value) && !HasMAC(s.leases, m.mac))
              case Renewing => Unset(m.ciaddr) || !HasMAC(s.leases, m.mac)
  {}

  /** The request names the address ip as its phase demands. */
  predicate Asks(conf: Conf, m: Message, ip: Addr)
    requires m.Request?
  {
    match PhaseOf(m)
    case Selecting => m.sid == Some(conf.serverID) && Unset(m.ciaddr) && m.reqIP == Some(ip)
    case InitReboot => Unset(m.ciaddr) && conf.subnet.Contains(ip) && m.reqIP == Some(ip)
    case Renewing => m.ciaddr == Some(ip) && ip != 0
  }

  /** When a request is acknowledged, and with which address. */
  lemma AckIff(conf: Conf, s: State, m: Message, now: Time, ip: Addr)
    requires Inv(conf, s) && m.Request? && IsClientMAC(m.mac)
    ensures Step(conf, s, m, now).1 == Ack(ip) <==> HasPair(s.leases, ip, m.mac) && Asks(conf, m, ip)
  {
    AckIffLeased(conf, s, m, now, ip);
  }

  /** There is no other answer to a request. */
  lemma RequestAnswers(conf: Conf, s: State, m: Message, now: Time)
    requires Inv(conf, s) && m.Request? && IsClientMAC(m.mac)
    ensures var reply := Step(conf, s, m, now).1;
            reply == Nak || reply == Silent || reply.Ack?
  {}

  /** A request changes at most the client's own dynamic lease, and only its name and
      its expiry; if it is not acknowledged, it changes nothing. */
  lemma RequestChanges(conf: Conf, s: State, m: Message, now: Time, i: nat)
    requires Inv(conf, s) && m.Request? && IsClientMAC(m.mac) && i < |s.leases|
    ensures var (s', reply) := Step(conf, s, m, now);
            && |s'.leases| == |s.leases| && s'.offsets == s.offsets
            && (!reply.Ack? ==> s' == s)
            && (s.leases[i].isStatic || s.leases[i].mac != m.mac ==> s'.leases[i] == s.leases[i])
            && (reply.Ack? && !s.leases[i].isStatic && s.leases[i].mac == m.mac ==>
                  s'.leases[i] == s.leases[i].(hostname := s'.leases[i].hostname, expiry := now + conf.leaseTime))
  {
    var d := Decide(conf, s, m);
    if d.Grant? {
      GrantedIsOwn(conf, s, m);
      HalvesAreRequest(conf, s, m, now);
    }
  }

  // ----- RELEASE -----

  /** The address that a release names: the requested one, or else the client's. */
  function Named(m: Message): Option<Addr>
    requires m.Release?
  {
    if m.reqIP != None then m.reqIP else m.ciaddr
  }

  /** A release that names no address, or one that the client has not, changes
      nothing. */
  lemma ReleaseNothing(conf: Conf, s: State, m: Message, now: Time)
    requires m.Release? && (Named(m).Some? ==> !HasPair(s.leases, Named(m).value, m.mac))
    ensures Step(conf, s, m, now) == (s, if Named(m).None? then Untyped else Released)
  {}

  /** The release of a static lease is refused, and the lease stays. */
  lemma ReleaseStatic(conf: Conf, s: State, m: Message, now: Time)
    requires Inv(conf, s) && m.Release? && IsClientMAC(m.mac)
    requires Named(m).Some? && HasStatic(s.leases, Named(m).value, m.mac)
    ensures Step(conf, s, m, now).1 == Nak
    ensures HasStatic(Step(conf, s, m, now).0.leases, Named(m).value, m.mac)
  {
    var ip := Named(m).value;
    var i :| 0 <= i < |s.leases| && s.leases[i].isStatic && s.leases[i].ip == ip && s.leases[i].mac == m.mac;
    assert FindPair(s.leases, m.mac, ip) == Some(i);
    StepKeepsStatic(conf, s, m, now, ip, m.mac);
  }

  /** The release of a dynamic lease removes it. */
  lemma ReleaseDynamic(conf: Conf, s: State, m: Message, now: Time, i: nat)
    requires Inv(conf, s) && m.Release? && IsClientMAC(m.mac) && i < |s.leases| && !s.leases[i].isStatic
    requires s.leases[i].mac == m.mac && Named(m) == Some(s.leases[i].ip)
    ensures Step(conf, s, m, now).1 == Released
    ensures !HasIP(Step(conf, s, m, now).0.leases, s.leases[i].ip)
  {
    GivenUpIsGone(conf, s, i, m, now);
  }
}
