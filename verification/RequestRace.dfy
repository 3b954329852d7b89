/** A message between the two halves of a REQUEST.  handleRequest in
    `internal/dhcpd/v4_unix.go` checks the lease under the lock, releases the lock, and
    takes it again to commit; the lease that it commits is the one that it checked,
    whoever has it by then, and even if nobody has. */
module RequestRace {
  import opened Wrappers
  import opened Bytes
  import opened LeaseState
  import opened LeaseSafety
  import opened LeaseRuns

  /** Allocation moves no lease. */
  lemma {:induction false} AllocateKeepsSlots(conf: Conf, s: State, mac: MAC, now: Time, probe: nat -> bool, k: nat)
    ensures var s' := Allocate(conf, s, mac, now, probe, k).0;
            && |s.leases| <= |s'.leases|
            && forall i :: 0 <= i < |s.leases| ==>
                 s'.leases[i].ip == s.leases[i].ip && s'.leases[i].isStatic == s.leases[i].isStatic
    decreases |Candidates(conf, s, now)|
  {
    ReserveStep(conf, s, mac, now);
    var r := Reserve(conf, s, mac, now);
    if r.Some? && !probe(k) {
      AllocateKeepsSlots(conf, BlockAt(conf, r.value.0, r.value.1, now), mac, now, probe, k + 1);
    }
  }

  /** A lease that allocation changes goes to the new client or is blocked. */
  lemma {:induction false} AllocateTakes(conf: Conf, s: State, mac: MAC, now: Time, probe: nat -> bool, k: nat, i: nat)
    requires Inv(conf, s) && IsClientMAC(mac) && FindByMAC(s.leases, mac).None? && i < |s.leases|
    ensures var s' := Allocate(conf, s, mac, now, probe, k).0;
            i < |s'.leases| && (s'.leases[i] == s.leases[i] || s'.leases[i].mac == mac || s'.leases[i].mac == BLOCKED)
    decreases |Candidates(conf, s, now)|
  {
    AllocateKeepsSlots(conf, s, mac, now, probe, k);
    ReserveStep(conf, s, mac, now);
    ReserveKeepsInv(conf, s, mac, now);
    var r := Reserve(conf, s, mac, now);
    if r.Some? {
      ReserveChanges(conf, s, mac, now, i);
      if !probe(k) {
        var s1 := BlockAt(conf, r.value.0, r.value.1, now);
        BlockKeepsInv(conf, r.value.0, r.value.1, now);
        BlockForgetsMAC(conf, s, mac, now);
        AllocateTakes(conf, s1, mac, now, probe, k + 1, i);
      }
    }
  }

  /** What the second half of a request does with lease i, which the first half has
      granted. */
  function CommitGranted(conf: Conf, s: State, i: nat, hostname: string, now: Time): (State, Reply)
    requires i < |s.leases|
  {
    (if s.leases[i].isStatic then s else Commit(conf, s, i, hostname, now), Ack(s.leases[i].ip))
  }

  /** Without anything in between the two halves are the request. */
  lemma HalvesAreRequest(conf: Conf, s: State, m: Message, now: Time)
    requires m.Request? && Decide(conf, s, m).Grant?
    ensures CommitGranted(conf, s, Decide(conf, s, m).index, m.hostname, now) == HandleRequest(conf, s, m, now)
  {}

  /** The lease that was checked is no longer the client's when d is through: d is a
      DISCOVER, the lease had expired, d's client has no lease yet, and the probe
      accepts no candidate that comes before the lease. */
  ghost predicate Recycled(conf: Conf, s: State, i: nat, d: Message, now: Time)
    requires i < |s.leases|
  {
    && d.Discover?
    && Expired(s.leases[i], now)
    && FindByMAC(s.leases, d.mac).None?
    && NoSuccess(d.probe, 0, Rank(conf, s, now, i))
  }

  /** d removes the lease: its own client releases it, and it is dynamic. */
  predicate GivenUp(l: Lease, d: Message) {
    !l.isStatic && Releases(d, l.mac, l.ip)
  }

  lemma DiscoverTakesIff(conf: Conf, s: State, i: nat, d: Message, now: Time)
    requires Inv(conf, s) && d.Discover? && IsClientMAC(d.mac) && i < |s.leases| && IsClientMAC(s.leases[i].mac)
    ensures var s' := HandleDiscover(conf, s, d.mac, d.probe, now).0;
            && Inv(conf, s') && i < |s'.leases|
            && s'.leases[i].ip == s.leases[i].ip && s'.leases[i].isStatic == s.leases[i].isStatic
            && (s'.leases[i].mac != s.leases[i].mac <==> Recycled(conf, s, i, d, now))
            && (Recycled(conf, s, i, d, now) ==> s'.leases[i].mac == d.mac || s'.leases[i].mac == BLOCKED)
  {
    StepKeepsInv(conf, s, d, now);
    if FindByMAC(s.leases, d.mac).None? {
      AllocateTakesIff(conf, s, i, d, now);
    }
  }

  lemma AllocateTakesIff(conf: Conf, s: State, i: nat, d: Message, now: Time)
    requires Inv(conf, s) && d.Discover? && IsClientMAC(d.mac) && i < |s.leases| && IsClientMAC(s.leases[i].mac)
    requires FindByMAC(s.leases, d.mac).None?
    ensures var s' := Allocate(conf, s, d.mac, now, d.probe).0;
            && i < |s'.leases|
            && s'.leases[i].ip == s.leases[i].ip && s'.leases[i].isStatic == s.leases[i].isStatic
            && (s'.leases[i].mac != s.leases[i].mac <==> Recycled(conf, s, i, d, now))
            && (Recycled(conf, s, i, d, now) ==> s'.leases[i].mac == d.mac || s'.leases[i].mac == BLOCKED)
  {
    assert IsBlocklisted(BLOCKED);
    AllocateKeepsSlots(conf, s, d.mac, now, d.probe, 0);
    AllocateSparesIff(conf, s, d.mac, now, d.probe, 0, i);
    AllocateTakes(conf, s, d.mac, now, d.probe, 0, i);
  }

  /** Where lease i stands when d is through, unless it is given up. */
  function Position(s: State, i: nat, d: Message): nat {
    if d.Release? && ReleasedIP(d.reqIP, d.ciaddr).Some? then
      ReleasedIndex(s.leases, d.mac, ReleasedIP(d.reqIP, d.ciaddr).value, i)
    else i
  }

  /** Where lease i stands when d is through, if it is still listed. */
  function PlaceAfter(s: State, i: nat, d: Message): Option<nat>
    requires i < |s.leases|
  {
    if GivenUp(s.leases[i], d) then None else Some(Position(s, i, d))
  }

  /** What becomes of lease i while d is handled. */
  lemma PositionKept(conf: Conf, s: State, i: nat, d: Message, now: Time)
    requires Inv(conf, s) && IsClientMAC(d.mac) && i < |s.leases| && IsClientMAC(s.leases[i].mac)
    requires !GivenUp(s.leases[i], d)
    ensures var s', j := Step(conf, s, d, now).0, Position(s, i, d);
            && j < |s'.leases|
            && s'.leases[j].ip == s.leases[i].ip && s'.leases[j].isStatic == s.leases[i].isStatic
            && (s'.leases[j].mac != s.leases[i].mac <==> Recycled(conf, s, i, d, now))
            && (Recycled(conf, s, i, d, now) ==> s'.leases[j].mac == d.mac || s'.leases[j].mac == BLOCKED)
  {
    match d
    case Discover(mac, probe) => DiscoverTakesIff(conf, s, i, d, now);
    case Request(_, _, _, _, _) =>
    case Release(mac, reqIP, ciaddr) =>
      var ip := ReleasedIP(reqIP, ciaddr);
      if ip.Some? {
        ReleaseKeepsLease(conf, s, d, ip.value, i);
      }
  }

  /** A lease that is given up is gone, and nobody has its address. */
  lemma GivenUpIsGone(conf: Conf, s: State, i: nat, d: Message, now: Time)
    requires Inv(conf, s) && i < |s.leases| && GivenUp(s.leases[i], d)
    ensures FindPair(s.leases, d.mac, s.leases[i].ip) == Some(i)
    ensures !HasIP(Step(conf, s, d, now).0.leases, s.leases[i].ip)
  {
    var s' := Step(conf, s, d, now).0;
    assert FindPair(s.leases, d.mac, s.leases[i].ip) == Some(i);
    RemoveDynamicShape(conf, s, i);
    forall j | 0 <= j < |s'.leases|
      ensures s'.leases[j].ip != s.leases[i].ip
    {
      assert SameButName(s'.leases[j], s.leases[Behind(i, j)]);
    }
  }

  /** The commit of a lease that is no longer listed: only the names change. */
  function CommitDetached(conf: Conf, s: State, l: Lease, hostname: string): State {
    s.(hosts := RenamedHosts(s.hosts, l.hostname, CommitName(conf, s, l, hostname)))
  }

  /** What the second half does with the lease l, which is listed at the given place
      or not listed. */
  function CommitAt(conf: Conf, s: State, at: Option<nat>, l: Lease, hostname: string, now: Time): (State, Reply)
    requires at.Some? ==> at.value < |s.leases|
  {
    match at
    case Some(j) => CommitGranted(conf, s, j, hostname, now)
    case None => (CommitDetached(conf, s, l, hostname), Ack(l.ip))
  }

  /** The request m is granted and well formed, and so is d. */
  ghost predicate Racing(conf: Conf, s: State, m: Message, d: Message) {
    Inv(conf, s) && IsClientMAC(m.mac) && IsClientMAC(d.mac) && m.Request? && Decide(conf, s, m).Grant?
  }

  /** The lease that the request m is granted. */
  ghost function GrantedLease(conf: Conf, s: State, m: Message): Lease
    requires m.Request? && Decide(conf, s, m).Grant?
  {
    s.leases[Decide(conf, s, m).index]
  }

  /** The state and the reply of a granted request with d between its halves. */
  ghost function Raced(conf: Conf, s: State, m: Message, d: Message, between: Time, now: Time): (State, Reply)
    requires Racing(conf, s, m, d)
  {
    var i, l := Decide(conf, s, m).index, GrantedLease(conf, s, m);
    var s1 := Step(conf, s, d, between).0;
    GrantedIsOwn(conf, s, m);
    PlaceExists(conf, s, i, d, between);
    CommitAt(conf, s1, PlaceAfter(s, i, d), l, m.hostname, now)
  }

  lemma PlaceExists(conf: Conf, s: State, i: nat, d: Message, now: Time)
    requires Inv(conf, s) && IsClientMAC(d.mac) && i < |s.leases| && IsClientMAC(s.leases[i].mac)
    ensures PlaceAfter(s, i, d).Some? ==> PlaceAfter(s, i, d).value < |Step(conf, s, d, now).0.leases|
  {
    if !GivenUp(s.leases[i], d) {
      PositionKept(conf, s, i, d, now);
    }
  }

  lemma GrantedIsOwn(conf: Conf, s: State, m: Message)
    requires m.Request? && Decide(conf, s, m).Grant?
    ensures GrantedLease(conf, s, m).mac == m.mac
  {}

  /** The lease that the request was granted is still the client's. */
  ghost predicate Undisturbed(conf: Conf, s: State, m: Message, d: Message, between: Time)
    requires m.Request? && Decide(conf, s, m).Grant?
  {
    !Recycled(conf, s, Decide(conf, s, m).index, d, between) && !GivenUp(GrantedLease(conf, s, m), d)
  }

  /** The request is acknowledged whatever comes in between, and the invariant is kept.
      The acknowledged address is the client's for the lease time if and only if its
      lease has been neither recycled nor given up.  If it has been recycled, the
      address is for that time another client's, or blocked; if it has been given up,
      the address is nobody's. */
  lemma RacedHoldsIff(conf: Conf, s: State, m: Message, d: Message, between: Time, now: Time)
    requires Racing(conf, s, m, d)
    ensures var (s', reply) := Raced(conf, s, m, d, between, now);
            var i, l, until := Decide(conf, s, m).index, GrantedLease(conf, s, m), now + conf.leaseTime;
            && Inv(conf, s') && reply == Ack(l.ip)
            && (Holds(s', l.ip, m.mac, until) <==> Undisturbed(conf, s, m, d, between))
            && (Recycled(conf, s, i, d, between) ==> Holds(s', l.ip, d.mac, until) || Holds(s', l.ip, BLOCKED, until))
            && (GivenUp(l, d) ==> !HasIP(s'.leases, l.ip))
  {
    var i, l := Decide(conf, s, m).index, GrantedLease(conf, s, m);
    var s1 := Step(conf, s, d, between).0;
    StepKeepsInv(conf, s, d, between);
    GrantedIsOwn(conf, s, m);
    if GivenUp(l, d) {
      GivenUpIsGone(conf, s, i, d, between);
      SameSlotsKeepsInv(conf, s1, CommitDetached(conf, s1, l, m.hostname));
    } else {
      PositionKept(conf, s, i, d, between);
      CommitListed(conf, s1, Position(s, i, d), m.hostname, now, m.mac, d.mac);
    }
  }

  lemma CommitListed(conf: Conf, s: State, j: nat, hostname: string, now: Time, own: MAC, other: MAC)
    requires Inv(conf, s) && j < |s.leases|
    ensures var (s', reply) := CommitGranted(conf, s, j, hostname, now);
            var ip, until := s.leases[j].ip, now + conf.leaseTime;
            && Inv(conf, s') && reply == Ack(ip)
            && (Holds(s', ip, own, until) <==> s.leases[j].mac == own)
            && (Holds(s', ip, other, until) <==> s.leases[j].mac == other)
            && (Holds(s', ip, BLOCKED, until) <==> s.leases[j].mac == BLOCKED)
  {
    CommitKeepsInv(conf, s, j, hostname, now);
    CommittedHolder(conf, s, j, hostname, now, own);
    CommittedHolder(conf, s, j, hostname, now, other);
    CommittedHolder(conf, s, j, hostname, now, BLOCKED);
  }

  lemma CommitKeepsInv(conf: Conf, s: State, i: nat, hostname: string, now: Time)
    requires Inv(conf, s) && i < |s.leases|
    ensures Inv(conf, CommitGranted(conf, s, i, hostname, now).0)
  {
    SameSlotsKeepsInv(conf, s, CommitGranted(conf, s, i, hostname, now).0);
  }

  /** After the commit of lease i its address is held by whoever lease i names. */
  lemma CommittedHolder(conf: Conf, s: State, i: nat, hostname: string, now: Time, mac: MAC)
    requires Inv(conf, s) && i < |s.leases|
    ensures Holds(CommitGranted(conf, s, i, hostname, now).0, s.leases[i].ip, mac, now + conf.leaseTime) <==>
              s.leases[i].mac == mac
  {
    var s' := CommitGranted(conf, s, i, hostname, now).0;
    assert s'.leases[i].ip == s.leases[i].ip && s'.leases[i].mac == s.leases[i].mac;
    assert s'.leases[i].isStatic || s'.leases[i].expiry >= now + conf.leaseTime;
    assert forall j :: 0 <= j < |s'.leases| && s'.leases[j].ip == s.leases[i].ip ==> j == i;
  }

  /** Who has the raced address: the client if and only if its lease was not recycled. */
  lemma RacedHolder(conf: Conf, s: State, m: Message, d: Message, between: Time, now: Time) returns (holder: MAC)
    requires Racing(conf, s, m, d) && !GivenUp(GrantedLease(conf, s, m), d)
    ensures Holds(Raced(conf, s, m, d, between, now).0, GrantedLease(conf, s, m).ip, holder, now + conf.leaseTime)
    ensures holder == m.mac <==> Undisturbed(conf, s, m, d, between)
    ensures holder == m.mac || holder == d.mac || holder == BLOCKED
  {
    var i, ip := Decide(conf, s, m).index, GrantedLease(conf, s, m).ip;
    RacedHoldsIff(conf, s, m, d, between, now);
    GrantedIsOwn(conf, s, m);
    var s' := Raced(conf, s, m, d, between, now).0;
    holder := ChooseHolder(s', ip, m.mac, d.mac, now + conf.leaseTime, Recycled(conf, s, i, d, between));
  }

  lemma ChooseHolder(s: State, ip: Addr, own: MAC, other: MAC, until: Time, recycled: bool) returns (holder: MAC)
    requires IsClientMAC(own) && (recycled ==> own != other)
    requires if recycled then Holds(s, ip, other, until) || Holds(s, ip, BLOCKED, until) else Holds(s, ip, own, until)
    ensures Holds(s, ip, holder, until) && (holder == own <==> !recycled)
    ensures holder == own || holder == other || holder == BLOCKED
  {
    assert IsBlocklisted(BLOCKED);
    holder := if !recycled then own else if Holds(s, ip, other, until) then other else BLOCKED;
  }

  /** While an address is held, it is held by one client only. */
  lemma HeldByOne(
    conf: Conf, states: seq<State>, events: seq<Event>, b: nat, ip: Addr, holder: MAC, mac: MAC, until: Time)
    requires IsRun(conf, states, events) && b < |events| && Holds(states[0], ip, holder, until)
    requires events[b].now <= until <= events[0].now + conf.leaseTime && NoRelease(events, 0, b, holder, ip)
    ensures Holds(states[b], ip, mac, until) <==> mac == holder
  {
    LeaseIsKept(conf, states, events, 0, b, ip, holder, until);
    RunKeepsInv(conf, states, events, b);
  }

  /** The no-reallocation guarantee survives the race exactly then: in every run from
      the raced acknowledgement on, until the lease time has passed or somebody
      releases the address, the client has it if and only if the lease was not
      recycled. */
  lemma RacedNoReallocation(
    conf: Conf, s: State, m: Message, d: Message, between: Time, now: Time,
    states: seq<State>, events: seq<Event>, b: nat)
    requires Racing(conf, s, m, d) && !GivenUp(GrantedLease(conf, s, m), d)
    requires IsRun(conf, states, events) && states[0] == Raced(conf, s, m, d, between, now).0
    requires b < |events| && now <= events[0].now && events[b].now <= now + conf.leaseTime
    requires forall mac :: NoRelease(events, 0, b, mac, GrantedLease(conf, s, m).ip)
    ensures Holds(states[b], GrantedLease(conf, s, m).ip, m.mac, now + conf.leaseTime) <==>
              Undisturbed(conf, s, m, d, between)
  {
    var holder := RacedHolder(conf, s, m, d, between, now);
    HeldByOne(conf, states, events, b, GrantedLease(conf, s, m).ip, holder, m.mac, now + conf.leaseTime);
  }

  /** A client's release comes between the halves of its own renewal, which is
      acknowledged with an address that nobody has. */
  lemma RaceReleased(conf: Conf, l: Lease, between: Time, now: Time) returns (s: State, m: Message, d: Message)
    requires conf.Valid() && !l.isStatic && conf.ipRange.Contains(l.ip) && l.ip != 0 && IsClientMAC(l.mac)
    ensures Racing(conf, s, m, d) && s.leases == [l] && m.mac == d.mac == l.mac
    ensures Raced(conf, s, m, d, between, now).1 == Ack(l.ip)
    ensures !HasIP(Raced(conf, s, m, d, between, now).0.leases, l.ip)
  {
    s := AddState(conf, State([], {}, {}), l);
    m := Request(l.mac, None, None, Some(l.ip), "");
    d := Release(l.mac, None, Some(l.ip));
    AddKeepsInv(conf, State([], {}, {}), l);
    assert Decide(conf, s, m) == Grant(0);
    RacedHoldsIff(conf, s, m, d, between, now);
  }

  /** Two clients have offers of the only two addresses.  The first one's request is
      checked, a third one's DISCOVER takes its lease, and the request is
      acknowledged all the same. */
  lemma RaceLost(conf: Conf, a: MAC, b: MAC, c: MAC, now: Time) returns (s: State, m: Message, d: Message)
    requires conf.Valid() && conf.ipRange.end == conf.ipRange.start + 1 && conf.serverID != 0
    requires IsClientMAC(a) && IsClientMAC(b) && IsClientMAC(c) && a != b && a != c && b != c && now > 0
    ensures Racing(conf, s, m, d) && m.mac == a && d.Discover? && d.mac == c
    ensures Raced(conf, s, m, d, now, now).1 == Ack(conf.ipRange.start)
    ensures !Holds(Raced(conf, s, m, d, now, now).0, conf.ipRange.start, a, now + conf.leaseTime)
  {
    var start := conf.ipRange.start;
    s := State([FreshLease(start, a), FreshLease(start + 1, b)], {}, {0, 1});
    m := Request(a, Some(conf.serverID), Some(start), None, "");
    d := Discover(c, _ => true);
    TwoOffers(conf, a, b);
    FirstIsRecycled(conf, a, b, d, now);
    assert Decide(conf, s, m) == Grant(0);
    RacedHoldsIff(conf, s, m, d, now, now);
  }

  lemma FirstIsRecycled(conf: Conf, a: MAC, b: MAC, d: Message, now: Time)
    requires conf.Valid() && conf.ipRange.end == conf.ipRange.start + 1
    requires d.Discover? && d.mac != a && d.mac != b && now > 0
    ensures var start := conf.ipRange.start;
            Recycled(conf, State([FreshLease(start, a), FreshLease(start + 1, b)], {}, {0, 1}), 0, d, now)
  {
    var start := conf.ipRange.start;
    var s := State([FreshLease(start, a), FreshLease(start + 1, b)], {}, {0, 1});
    assert Marked(conf.ipRange, s.offsets, start) && Marked(conf.ipRange, s.offsets, start + 1);
    FirstHasRank(conf, s, now, 0);
  }

  lemma TwoOffers(conf: Conf, a: MAC, b: MAC)
    requires conf.Valid() && conf.ipRange.end == conf.ipRange.start + 1
    requires IsClientMAC(a) && IsClientMAC(b) && a != b
    ensures var start := conf.ipRange.start;
            Inv(conf, State([FreshLease(start, a), FreshLease(start + 1, b)], {}, {0, 1}))
  {
    var start := conf.ipRange.start;
    var s := State([FreshLease(start, a), FreshLease(start + 1, b)], {}, {0, 1});
    assert s.leases[0].ip == start && s.leases[1].ip == start + 1;
    assert Justified(conf, s.leases, 0) && Justified(conf, s.leases, 1);
  }
}
