/** Runs of the DHCPv4 server: any sequence of messages from well-formed clients,
    each handled at a clock that never goes back. */
module LeaseRuns {
  import opened Wrappers
  import opened Bytes
  import opened LeaseState
  import opened LeaseSafety

  // ----- One step -----

  ghost predicate SameButName(a: Lease, b: Lease) {
    a.ip == b.ip && a.mac == b.mac && a.expiry == b.expiry && a.isStatic == b.isStatic
  }

  lemma RemoveDynamicShape(conf: Conf, s: State, i: nat)
    requires i < |s.leases|
    ensures var s' := RemoveDynamic(conf, s, i).0;
            if s.leases[i].isStatic then
              && |s'.leases| == |s.leases|
              && s'.offsets == s.offsets
              && forall j :: 0 <= j < |s.leases| ==> SameButName(s'.leases[j], s.leases[j])
            else
              && |s'.leases| == |s.leases| - 1
              && s'.offsets == RemoveAt(conf, s, i).offsets
              && forall j :: 0 <= j < |s'.leases| ==> SameButName(s'.leases[j], s.leases[Behind(i, j)])
  {}

  lemma RemoveDynamicKeepsInv(conf: Conf, s: State, i: nat)
    requires Inv(conf, s) && i < |s.leases|
    ensures Inv(conf, RemoveDynamic(conf, s, i).0)
  {
    RemoveDynamicShape(conf, s, i);
    var s' := RemoveDynamic(conf, s, i).0;
    if s.leases[i].isStatic {
      SameSlotsKeepsInv(conf, s, s');
    } else {
      RemoveKeepsInv(conf, s, i);
      WithoutAtShift(s.leases, i);
      SameSlotsKeepsInv(conf, RemoveAt(conf, s, i), s');
    }
  }

  lemma StepKeepsInv(conf: Conf, s: State, m: Message, now: Time)
    requires Inv(conf, s) && IsClientMAC(m.mac)
    ensures Inv(conf, Step(conf, s, m, now).0)
  {
    match m
    case Discover(mac, probe) =>
      if FindByMAC(s.leases, mac).None? {
        AllocateKeepsInv(conf, s, mac, now, probe, 0);
      }
    case Request(_, _, _, _, _) =>
      var d := Decide(conf, s, m);
      if d.Grant? && !s.leases[d.index].isStatic {
        SameSlotsKeepsInv(conf, s, Commit(conf, s, d.index, m.hostname, now));
      }
    case Release(mac, reqIP, ciaddr) =>
      var ip := ReleasedIP(reqIP, ciaddr);
      if ip.Some? {
        var i := FindPair(s.leases, mac, ip.value);
        if i.Some? {
          RemoveDynamicKeepsInv(conf, s, i.value);
        }
      }
  }

  /** m gives up the address ip of the client mac. */
  predicate Releases(m: Message, mac: MAC, ip: Addr) {
    m.Release? && m.mac == mac && ReleasedIP(m.reqIP, m.ciaddr) == Some(ip)
  }

  /** Handling m allocates no address, or finds a free one before it has to look
      at expired leases. */
  ghost predicate NotExhausted(conf: Conf, s: State, m: Message) {
    m.Discover? && FindByMAC(s.leases, m.mac).None? ==> !NoSuccess(m.probe, 0, |FreeIPs(conf, s)|)
  }

  ghost predicate SameHolder(a: Lease, b: Lease) {
    a.ip == b.ip && a.mac == b.mac && a.isStatic == b.isStatic
  }

  lemma DiscoverKeepsLease(conf: Conf, s: State, m: Message, now: Time, i: nat)
    requires Inv(conf, s) && IsClientMAC(m.mac) && i < |s.leases| && m.Discover?
    requires !Expired(s.leases[i], now) || NotExhausted(conf, s, m)
    ensures var s' := HandleDiscover(conf, s, m.mac, m.probe, now).0;
            i < |s'.leases| && s'.leases[i] == s.leases[i]
  {
    if FindByMAC(s.leases, m.mac).None? {
      AllocateSparesIff(conf, s, m.mac, now, m.probe, 0, i);
      if Expired(s.leases[i], now) {
        var n: nat :| 0 <= n < |FreeIPs(conf, s)| && m.probe(n);
        assert !NoSuccess(m.probe, 0, Rank(conf, s, now, i));
      }
    }
  }

  /** Where lease i stands after the client mac has released ip. */
  function ReleasedIndex(leases: seq<Lease>, mac: MAC, ip: Addr, i: nat): nat {
    match FindPair(leases, mac, ip)
    case Some(r) => if leases[r].isStatic || i <= r then i else i - 1
    case None => i
  }

  lemma ReleaseKeepsLease(conf: Conf, s: State, m: Message, ip: Addr, i: nat)
    requires Inv(conf, s) && i < |s.leases| && m.Release? && ReleasedIP(m.reqIP, m.ciaddr) == Some(ip)
    requires s.leases[i].isStatic || s.leases[i].mac != m.mac || s.leases[i].ip != ip
    ensures var s' := HandleRelease(conf, s, m).0;
            var j := ReleasedIndex(s.leases, m.mac, ip, i);
            j < |s'.leases| && SameButName(s'.leases[j], s.leases[i])
  {
    var r := FindPair(s.leases, m.mac, ip);
    if r.Some? {
      RemovalKeepsLease(conf, s, r.value, i);
    }
  }

  /** Where another lease stands after the removal of lease r. */
  lemma RemovalKeepsLease(conf: Conf, s: State, r: nat, i: nat)
    requires r < |s.leases| && i < |s.leases| && (s.leases[r].isStatic || i != r)
    ensures var s' := RemoveDynamic(conf, s, r).0;
            var j := if s.leases[r].isStatic || i <= r then i else i - 1;
            j < |s'.leases| && SameButName(s'.leases[j], s.leases[i])
  {
    RemoveDynamicShape(conf, s, r);
    if !s.leases[r].isStatic {
      var j := if i <= r then i else i - 1;
      assert i == Behind(r, j);
    }
  }

  /** A lease that has not expired, or that no allocation had to look at, survives
      any message but its own client's release of it.  A static lease survives
      even that.  Only its own client's request changes the expiry. */
  lemma StepKeepsLease(conf: Conf, s: State, m: Message, now: Time, i: nat) returns (j: nat)
    requires Inv(conf, s) && IsClientMAC(m.mac) && i < |s.leases|
    requires !Expired(s.leases[i], now) || NotExhausted(conf, s, m)
    requires s.leases[i].isStatic || !Releases(m, s.leases[i].mac, s.leases[i].ip)
    ensures var s' := Step(conf, s, m, now).0;
            && j < |s'.leases|
            && SameHolder(s'.leases[j], s.leases[i])
            && (s'.leases[j].expiry == s.leases[i].expiry
                || (m.Request? && m.mac == s.leases[i].mac && s'.leases[j].expiry == now + conf.leaseTime))
  {
    j := i;
    if m.Discover? {
      DiscoverKeepsLease(conf, s, m, now, i);
    } else if m.Release? && ReleasedIP(m.reqIP, m.ciaddr).Some? {
      var ip := ReleasedIP(m.reqIP, m.ciaddr).value;
      ReleaseKeepsLease(conf, s, m, ip, i);
      j := ReleasedIndex(s.leases, m.mac, ip, i);
    }
  }

  /** An offer or acknowledgement of ip to mac leaves ip leased to mac. */
  lemma ReplyIsLeased(conf: Conf, s: State, m: Message, now: Time) returns (j: nat)
    requires Inv(conf, s) && IsClientMAC(m.mac)
    requires Step(conf, s, m, now).1.Offer? || Step(conf, s, m, now).1.Ack?
    ensures var (s', reply) := Step(conf, s, m, now);
            j < |s'.leases| && s'.leases[j].ip == reply.ip && s'.leases[j].mac == m.mac
  {
    match m
    case Discover(mac, probe) =>
      var f := FindByMAC(s.leases, mac);
      if f.Some? {
        j := f.value;
      } else {
        AllocateKeepsInv(conf, s, mac, now, probe, 0);
        j := Allocate(conf, s, mac, now, probe).1.value;
      }
    case Request(_, _, _, _, _) =>
      j := Decide(conf, s, m).index;
  }

  /** The address that a request asks for: its requested address when it is
      answering an offer or rebooting, its own address when it is renewing. */
  function NamedIP(m: Message): Option<Addr>
    requires m.Request?
  {
    if IsSpecified(m.sid) || IsSpecified(m.reqIP) then m.reqIP else m.ciaddr
  }

  /** The parts of a request that do not depend on the leases are in order. */
  predicate WellAddressed(conf: Conf, m: Message)
    requires m.Request?
  {
    if IsSpecified(m.sid) then m.sid == Some(conf.serverID) && !IsSpecified(m.ciaddr) && m.reqIP.Some?
    else if IsSpecified(m.reqIP) then !IsSpecified(m.ciaddr) && conf.subnet.Contains(m.reqIP.value)
    else IsSpecified(m.ciaddr)
  }

  ghost predicate HasPair(leases: seq<Lease>, ip: Addr, mac: MAC) {
    exists i :: 0 <= i < |leases| && leases[i].ip == ip && leases[i].mac == mac
  }

  /** A request is acknowledged exactly when it is well addressed and names the
      address leased to its client; the acknowledgement carries that address. */
  lemma AckIffLeased(conf: Conf, s: State, m: Message, now: Time, ip: Addr)
    requires Inv(conf, s) && m.Request? && IsClientMAC(m.mac)
    ensures Step(conf, s, m, now).1 == Ack(ip) <==>
              WellAddressed(conf, m) && NamedIP(m) == Some(ip) && HasPair(s.leases, ip, m.mac)
  {}

  /** An acknowledged dynamic lease runs for the whole lease time. */
  lemma AckRuns(conf: Conf, s: State, m: Message, now: Time) returns (j: nat)
    requires Inv(conf, s) && m.Request? && IsClientMAC(m.mac)
    requires Step(conf, s, m, now).1.Ack?
    ensures var (s', reply) := Step(conf, s, m, now);
            && j < |s'.leases| && s'.leases[j].ip == reply.ip && s'.leases[j].mac == m.mac
            && (s'.leases[j].isStatic || s'.leases[j].expiry == now + conf.leaseTime)
  {
    j := Decide(conf, s, m).index;
  }

  lemma AckHolds(conf: Conf, s: State, m: Message, now: Time, ip: Addr)
    requires Inv(conf, s) && m.Request? && IsClientMAC(m.mac)
    requires Step(conf, s, m, now).1 == Ack(ip)
    ensures Holds(Step(conf, s, m, now).0, ip, m.mac, now + conf.leaseTime)
  {
    var j := AckRuns(conf, s, m, now);
  }

  /** ip is leased to mac, for good or at least until the given time. */
  ghost predicate Holds(s: State, ip: Addr, mac: MAC, until: Time) {
    exists i :: 0 <= i < |s.leases| && s.leases[i].ip == ip && s.leases[i].mac == mac
                && (s.leases[i].isStatic || s.leases[i].expiry >= until)
  }

  // ----- Runs -----

  datatype Event = Event(now: Time, msg: Message)

  ghost predicate ValidEvents(events: seq<Event>) {
    && (forall k :: 0 <= k < |events| ==> IsClientMAC(events[k].msg.mac))
    && (forall k, l :: 0 <= k < l < |events| ==> events[k].now <= events[l].now)
  }

  /** Event k takes the server from states[k] to states[k + 1]. */
  ghost predicate Linked(conf: Conf, states: seq<State>, events: seq<Event>, k: nat)
    requires |states| == |events| + 1 && k < |events|
  {
    states[k + 1] == Step(conf, states[k], events[k].msg, events[k].now).0
  }

  /** A run of the server: the states before, between and after the events. */
  ghost predicate IsRun(conf: Conf, states: seq<State>, events: seq<Event>) {
    && |states| == |events| + 1
    && Inv(conf, states[0])
    && ValidEvents(events)
    && forall k :: 0 <= k < |events| ==> Linked(conf, states, events, k)
  }

  /** Every valid sequence of events has a run from every good state. */
  lemma {:induction false} RunExists(conf: Conf, s0: State, events: seq<Event>) returns (states: seq<State>)
    requires Inv(conf, s0) && ValidEvents(events)
    ensures IsRun(conf, states, events) && states[0] == s0
  {
    if events == [] {
      states := [s0];
    } else {
      var last := |events| - 1;
      var front := events[..last];
      var before := RunExists(conf, s0, front);
      states := before + [Step(conf, before[last], events[last].msg, events[last].now).0];
      forall k | 0 <= k < |events|
        ensures Linked(conf, states, events, k)
      {
        if k < last {
          assert Linked(conf, before, front, k);
        }
      }
    }
  }

  function ReplyAt(conf: Conf, states: seq<State>, events: seq<Event>, k: nat): Reply
    requires |states| == |events| + 1 && k < |events|
  {
    Step(conf, states[k], events[k].msg, events[k].now).1
  }

  /** The invariant holds in every state of every run. */
  lemma {:induction false} RunKeepsInv(conf: Conf, states: seq<State>, events: seq<Event>, k: nat)
    requires IsRun(conf, states, events) && k <= |events|
    ensures Inv(conf, states[k])
  {
    if k > 0 {
      RunKeepsInv(conf, states, events, k - 1);
      EventKeepsInv(conf, states, events, k - 1);
    }
  }

  lemma EventKeepsInv(conf: Conf, states: seq<State>, events: seq<Event>, k: nat)
    requires |states| == |events| + 1 && k < |events| && Linked(conf, states, events, k)
    requires Inv(conf, states[k]) && IsClientMAC(events[k].msg.mac)
    ensures Inv(conf, states[k + 1])
  {
    StepKeepsInv(conf, states[k], events[k].msg, events[k].now);
  }

  ghost predicate NoRelease(events: seq<Event>, a: nat, b: nat, mac: MAC, ip: Addr)
    requires b <= |events|
  {
    forall k :: a <= k < b ==> !Releases(events[k].msg, mac, ip)
  }

  /** A request of mac at time now would not bring an expiry forward to before until. */
  predicate ReachesOn(conf: Conf, m: Message, now: Time, mac: MAC, until: Time) {
    m.Request? && m.mac == mac ==> until <= now + conf.leaseTime
  }

  lemma StepKeepsHold(conf: Conf, s: State, m: Message, now: Time, ip: Addr, mac: MAC, until: Time)
    requires Inv(conf, s) && IsClientMAC(m.mac) && Holds(s, ip, mac, until)
    requires !Releases(m, mac, ip) && now <= until && ReachesOn(conf, m, now, mac, until)
    ensures Holds(Step(conf, s, m, now).0, ip, mac, until)
  {
    var i :| 0 <= i < |s.leases| && s.leases[i].ip == ip && s.leases[i].mac == mac
             && (s.leases[i].isStatic || s.leases[i].expiry >= until);
    var j := StepKeepsLease(conf, s, m, now, i);
  }

  lemma EventKeepsHold(
    conf: Conf, states: seq<State>, events: seq<Event>, k: nat, ip: Addr, mac: MAC, until: Time)
    requires IsRun(conf, states, events) && k < |events|
    requires Holds(states[k], ip, mac, until)
    requires !Releases(events[k].msg, mac, ip) && events[k].now <= until
    requires ReachesOn(conf, events[k].msg, events[k].now, mac, until)
    ensures Holds(states[k + 1], ip, mac, until)
  {
    RunKeepsInv(conf, states, events, k);
    assert Linked(conf, states, events, k);
    StepKeepsHold(conf, states[k], events[k].msg, events[k].now, ip, mac, until);
  }

  /** No request of mac from event a up to b brings an expiry forward to before
      until. */
  ghost predicate AllReachOn(conf: Conf, events: seq<Event>, a: nat, b: nat, mac: MAC, until: Time)
    requires b <= |events|
  {
    forall k :: a <= k < b ==> ReachesOn(conf, events[k].msg, events[k].now, mac, until)
  }

  lemma {:induction false} HoldsThrough(
    conf: Conf, states: seq<State>, events: seq<Event>, a: nat, b: nat, ip: Addr, mac: MAC, until: Time)
    requires IsRun(conf, states, events) && a <= b <= |events|
    requires Holds(states[a], ip, mac, until)
    requires NoRelease(events, a, b, mac, ip) && AllReachOn(conf, events, a, b, mac, until)
    requires a < b ==> events[b - 1].now <= until
    ensures Holds(states[b], ip, mac, until)
  {
    if a < b {
      assert a < b - 1 ==> events[b - 2].now <= events[b - 1].now;
      HoldsThrough(conf, states, events, a, b - 1, ip, mac, until);
      EventKeepsHold(conf, states, events, b - 1, ip, mac, until);
    }
  }

  /** The no-reallocation guarantee, for any lease in any state of a run: as long as
      the lease has not expired and its client has not released it, the address
      stays leased to the client and no offer or acknowledgement of it goes to
      anybody else.  Only the client's own request can bring the expiry forward, to
      the lease time from then on. */
  lemma LeaseIsKept(
    conf: Conf, states: seq<State>, events: seq<Event>, a: nat, b: nat, ip: Addr, mac: MAC, until: Time)
    requires IsRun(conf, states, events) && a <= b < |events|
    requires Holds(states[a], ip, mac, until) && events[b].now <= until
    requires NoRelease(events, a, b, mac, ip) && AllReachOn(conf, events, a, b, mac, until)
    ensures Holds(states[b], ip, mac, until)
    ensures ReplyAt(conf, states, events, b) == Offer(ip) || ReplyAt(conf, states, events, b) == Ack(ip) ==>
              events[b].msg.mac == mac
  {
    assert a < b ==> events[b - 1].now <= events[b].now;
    HoldsThrough(conf, states, events, a, b, ip, mac, until);
    HoldExcludesOthers(conf, states, events, b, ip, mac, until);
  }

  /** Once the server acknowledges ip to a client, then as long as the lease time has
      not passed and the client has not released the address, the address stays
      leased to the client and goes to nobody else. */
  lemma NoReallocation(conf: Conf, states: seq<State>, events: seq<Event>, a: nat, b: nat, ip: Addr)
    requires IsRun(conf, states, events) && a < b < |events|
    requires events[a].msg.Request? && ReplyAt(conf, states, events, a) == Ack(ip)
    requires events[b].now <= events[a].now + conf.leaseTime
    requires NoRelease(events, a + 1, b, events[a].msg.mac, ip)
    ensures Holds(states[b], ip, events[a].msg.mac, events[a].now + conf.leaseTime)
    ensures ReplyAt(conf, states, events, b) == Offer(ip) || ReplyAt(conf, states, events, b) == Ack(ip) ==>
              events[b].msg.mac == events[a].msg.mac
  {
    AckStartsHold(conf, states, events, a, ip);
    LeaseIsKept(conf, states, events, a + 1, b, ip, events[a].msg.mac, events[a].now + conf.leaseTime);
  }

  lemma AckStartsHold(conf: Conf, states: seq<State>, events: seq<Event>, a: nat, ip: Addr)
    requires IsRun(conf, states, events) && a < |events|
    requires events[a].msg.Request? && ReplyAt(conf, states, events, a) == Ack(ip)
    ensures Holds(states[a + 1], ip, events[a].msg.mac, events[a].now + conf.leaseTime)
  {
    RunKeepsInv(conf, states, events, a);
    assert Linked(conf, states, events, a);
    AckHolds(conf, states[a], events[a].msg, events[a].now, ip);
  }

  lemma HoldExcludesOthers(conf: Conf, states: seq<State>, events: seq<Event>, b: nat, ip: Addr, mac: MAC, until: Time)
    requires IsRun(conf, states, events) && b < |events|
    requires Holds(states[b], ip, mac, until) && events[b].now <= until
    ensures ReplyAt(conf, states, events, b) == Offer(ip) || ReplyAt(conf, states, events, b) == Ack(ip) ==>
              events[b].msg.mac == mac
  {
    RunKeepsInv(conf, states, events, b);
    OnlyHolderIsAnswered(conf, states[b], events[b].msg, events[b].now, ip, mac, until);
  }

  /** While somebody holds an address, no reply offers it to anybody else. */
  lemma OnlyHolderIsAnswered(conf: Conf, s: State, m: Message, now: Time, ip: Addr, mac: MAC, until: Time)
    requires Inv(conf, s) && IsClientMAC(m.mac) && Holds(s, ip, mac, until) && now <= until
    ensures Step(conf, s, m, now).1 == Offer(ip) || Step(conf, s, m, now).1 == Ack(ip) ==> m.mac == mac
  {
    var reply := Step(conf, s, m, now).1;
    if reply == Offer(ip) || reply == Ack(ip) {
      var i :| 0 <= i < |s.leases| && s.leases[i].ip == ip && s.leases[i].mac == mac
               && (s.leases[i].isStatic || s.leases[i].expiry >= until);
      var kept := StepKeepsLease(conf, s, m, now, i);
      var answered := ReplyIsLeased(conf, s, m, now);
      StepKeepsInv(conf, s, m, now);
      SameIPSameIndex(Step(conf, s, m, now).0.leases, kept, answered);
    }
  }

  lemma SameIPSameIndex(leases: seq<Lease>, i: nat, j: nat)
    requires DistinctIPs(leases) && i < |leases| && j < |leases| && leases[i].ip == leases[j].ip
    ensures i == j
  {}

  ghost predicate HasStatic(leases: seq<Lease>, ip: Addr, mac: MAC) {
    exists i :: 0 <= i < |leases| && leases[i].isStatic && leases[i].ip == ip && leases[i].mac == mac
  }

  lemma StepKeepsStatic(conf: Conf, s: State, m: Message, now: Time, ip: Addr, mac: MAC)
    requires Inv(conf, s) && IsClientMAC(m.mac) && HasStatic(s.leases, ip, mac)
    ensures HasStatic(Step(conf, s, m, now).0.leases, ip, mac)
  {
    var i :| 0 <= i < |s.leases| && s.leases[i].isStatic && s.leases[i].ip == ip && s.leases[i].mac == mac;
    var j := StepKeepsLease(conf, s, m, now, i);
  }

  lemma EventKeepsStatic(conf: Conf, states: seq<State>, events: seq<Event>, k: nat, ip: Addr, mac: MAC)
    requires IsRun(conf, states, events) && k < |events| && HasStatic(states[k].leases, ip, mac)
    ensures HasStatic(states[k + 1].leases, ip, mac)
  {
    RunKeepsInv(conf, states, events, k);
    assert Linked(conf, states, events, k);
    StepKeepsStatic(conf, states[k], events[k].msg, events[k].now, ip, mac);
  }

  /** A static lease keeps its address and its MAC through every run. */
  lemma {:induction false} StaticForever(conf: Conf, states: seq<State>, events: seq<Event>, k: nat, ip: Addr, mac: MAC)
    requires IsRun(conf, states, events) && k <= |events|
    requires HasStatic(states[0].leases, ip, mac)
    ensures HasStatic(states[k].leases, ip, mac)
  {
    if k > 0 {
      StaticForever(conf, states, events, k - 1, ip, mac);
      EventKeepsStatic(conf, states, events, k - 1, ip, mac);
    }
  }

  // ----- Offers -----

  /** No event from a up to b finds the range exhausted. */
  ghost predicate NeverExhausted(conf: Conf, states: seq<State>, events: seq<Event>, a: nat, b: nat)
    requires |states| == |events| + 1 && b <= |events|
  {
    forall k :: a <= k < b ==> NotExhausted(conf, states[k], events[k].msg)
  }

  lemma StepKeepsPair(conf: Conf, s: State, m: Message, now: Time, ip: Addr, mac: MAC)
    requires Inv(conf, s) && IsClientMAC(m.mac) && HasPair(s.leases, ip, mac)
    requires NotExhausted(conf, s, m) && !Releases(m, mac, ip)
    ensures HasPair(Step(conf, s, m, now).0.leases, ip, mac)
  {
    var i :| 0 <= i < |s.leases| && s.leases[i].ip == ip && s.leases[i].mac == mac;
    var j := StepKeepsLease(conf, s, m, now, i);
  }

  lemma EventKeepsPair(conf: Conf, states: seq<State>, events: seq<Event>, k: nat, ip: Addr, mac: MAC)
    requires IsRun(conf, states, events) && k < |events|
    requires HasPair(states[k].leases, ip, mac)
    requires NotExhausted(conf, states[k], events[k].msg) && !Releases(events[k].msg, mac, ip)
    ensures HasPair(states[k + 1].leases, ip, mac)
  {
    RunKeepsInv(conf, states, events, k);
    assert Linked(conf, states, events, k);
    StepKeepsPair(conf, states[k], events[k].msg, events[k].now, ip, mac);
  }

  lemma {:induction false} PairStays(
    conf: Conf, states: seq<State>, events: seq<Event>, a: nat, b: nat, ip: Addr, mac: MAC)
    requires IsRun(conf, states, events) && a <= b <= |events|
    requires HasPair(states[a].leases, ip, mac)
    requires NoRelease(events, a, b, mac, ip)
    requires NeverExhausted(conf, states, events, a, b)
    ensures HasPair(states[b].leases, ip, mac)
  {
    if a < b {
      PairStays(conf, states, events, a, b - 1, ip, mac);
      EventKeepsPair(conf, states, events, b - 1, ip, mac);
    }
  }

  /** A request that answers the offer of ip. */
  predicate Selects(conf: Conf, m: Message, ip: Addr) {
    m.Request? && m.sid == Some(conf.serverID) && m.reqIP == Some(ip) && !IsSpecified(m.ciaddr)
  }

  /** An offered address stays reserved through any messages among which no
      allocation finds the range exhausted and the client does not release it;
      the client's request for it is then acknowledged with that address. */
  lemma OfferIsHonoured(conf: Conf, states: seq<State>, events: seq<Event>, a: nat, b: nat, ip: Addr)
    requires IsRun(conf, states, events) && a < b < |events| && conf.serverID != 0
    requires ReplyAt(conf, states, events, a) == Offer(ip)
    requires NoRelease(events, a + 1, b, events[a].msg.mac, ip)
    requires NeverExhausted(conf, states, events, a + 1, b)
    ensures HasPair(states[b].leases, ip, events[a].msg.mac)
    ensures events[b].msg.mac == events[a].msg.mac && Selects(conf, events[b].msg, ip) ==>
              ReplyAt(conf, states, events, b) == Ack(ip)
  {
    var mac := events[a].msg.mac;
    OfferStartsPair(conf, states, events, a, ip);
    PairStays(conf, states, events, a + 1, b, ip, mac);
    PairIsAcknowledged(conf, states, events, b, ip, mac);
  }

  lemma OfferStartsPair(conf: Conf, states: seq<State>, events: seq<Event>, a: nat, ip: Addr)
    requires IsRun(conf, states, events) && a < |events| && ReplyAt(conf, states, events, a) == Offer(ip)
    ensures HasPair(states[a + 1].leases, ip, events[a].msg.mac)
  {
    RunKeepsInv(conf, states, events, a);
    assert Linked(conf, states, events, a);
    var j := ReplyIsLeased(conf, states[a], events[a].msg, events[a].now);
  }

  lemma PairIsAcknowledged(conf: Conf, states: seq<State>, events: seq<Event>, b: nat, ip: Addr, mac: MAC)
    requires IsRun(conf, states, events) && b < |events| && conf.serverID != 0
    requires HasPair(states[b].leases, ip, mac)
    ensures events[b].msg.mac == mac && Selects(conf, events[b].msg, ip) ==> ReplyAt(conf, states, events, b) == Ack(ip)
  {
    RunKeepsInv(conf, states, events, b);
    if events[b].msg.mac == mac && Selects(conf, events[b].msg, ip) {
      AckIffLeased(conf, states[b], events[b].msg, events[b].now, ip);
    }
  }

  /** In a range of two addresses the third client is offered what the first one has
      been offered, and the first one's request is then refused. */
  lemma OfferLost(conf: Conf, a: MAC, b: MAC, c: MAC, now: Time)
    requires conf.Valid() && conf.ipRange.end == conf.ipRange.start + 1 && conf.serverID != 0
    requires IsClientMAC(a) && IsClientMAC(b) && IsClientMAC(c) && a != b && a != c && b != c && now > 0
    ensures var start, s0 := conf.ipRange.start, State([], {}, {});
            var (s1, first) := Step(conf, s0, Discover(a, _ => true), now);
            var (s2, second) := Step(conf, s1, Discover(b, _ => true), now);
            var (s3, third) := Step(conf, s2, Discover(c, _ => true), now);
            var (_, fourth) := Step(conf, s3, Request(a, Some(conf.serverID), Some(start), None, ""), now);
            first == Offer(start) && second == Offer(start + 1) && third == Offer(start) && fourth == Nak
  {
    var start, s0 := conf.ipRange.start, State([], {}, {});
    var s1 := AddState(conf, s0, FreshLease(start, a));
    var s2 := AddState(conf, s1, FreshLease(start + 1, b));
    var s3 := s2.(leases := [FreshLease(start, c), FreshLease(start + 1, b)]);
    assert s1 == State([FreshLease(start, a)], {}, {0});
    assert Marked(conf.ipRange, s1.offsets, start) && !Marked(conf.ipRange, s1.offsets, start + 1);
    assert s2 == State([FreshLease(start, a), FreshLease(start + 1, b)], {}, {0, 1});
    assert Marked(conf.ipRange, s2.offsets, start) && Marked(conf.ipRange, s2.offsets, start + 1);
    DiscoverExpired(conf, s2, c, now, 0);
    assert s2.leases[0 := FreshLease(start, c)] == s3.leases;
  }

  lemma DiscoverExpired(conf: Conf, s: State, mac: MAC, now: Time, i: nat)
    requires FindByMAC(s.leases, mac).None? && NextIP(conf, s).None? && FirstExpired(s.leases, now) == Some(i)
    requires |s.leases[i].mac| == |mac|
    ensures var l := s.leases[i];
            Step(conf, s, Discover(mac, _ => true), now) == (s.(leases := s.leases[i := l.(mac := mac)]), Offer(l.ip))
  {
    CopyMACExact(s.leases[i].mac, mac);
  }

  // ----- Where replies point -----

  /** Every address offered or acknowledged in a run lies in the server's subnet
      whenever the range does. */
  lemma RepliesInSubnet(conf: Conf, states: seq<State>, events: seq<Event>, k: nat)
    requires IsRun(conf, states, events) && k < |events|
    requires forall a: nat :: conf.ipRange.Contains(a) ==> conf.subnet.Contains(a)
    ensures var reply := ReplyAt(conf, states, events, k);
            reply.Offer? || reply.Ack? ==> conf.subnet.Contains(reply.ip)
  {
    RunKeepsInv(conf, states, events, k);
    RunKeepsInv(conf, states, events, k + 1);
    assert Linked(conf, states, events, k);
    var s := states[k];
    var reply := ReplyAt(conf, states, events, k);
    if reply.Offer? || reply.Ack? {
      var j := ReplyIsLeased(conf, s, events[k].msg, events[k].now);
      assert InPlace(conf, states[k + 1].leases[j]);
    }
  }
}
