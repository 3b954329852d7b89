/** The hostnames of the DHCPv4 server's clients: which name a client ends up with, and
    when no two clients have the same one. */
module LeaseNames {
  import opened Wrappers
  import opened Bytes
  import opened LeaseState
  import opened LeaseSafety
  import opened LeaseRuns
  import opened RequestRace

  /** No two leases have the same name, and all names in use are known. */
  ghost predicate Names(s: State) {
    && (forall i, j :: 0 <= i < j < |s.leases| && s.leases[i].hostname == s.leases[j].hostname ==>
          s.leases[i].hostname == "")
    && (forall i :: 0 <= i < |s.leases| && s.leases[i].hostname != "" ==> s.leases[i].hostname in s.hosts)
    && "" !in s.hosts
  }

  /** A lease other than lease i has the name. */
  ghost predicate OtherHas(s: State, i: nat, name: string) {
    name != "" && exists j :: 0 <= j < |s.leases| && j != i && s.leases[j].hostname == name
  }

  // ----- Requests -----

  /** The name that the holder of lease i gets when it asks for one: the one it asks
      for, if it is not in use; else the one it has; else one made from the address. */
  lemma CommittedName(conf: Conf, s: State, i: nat, hostname: string, now: Time)
    requires Names(s) && i < |s.leases|
    ensures var l, wanted := s.leases[i], conf.validName(hostname, s.leases[i].ip);
            var name := Commit(conf, s, i, hostname, now).leases[i].hostname;
            && (wanted !in s.hosts ==> name == wanted && !OtherHas(s, i, name))
            && (wanted in s.hosts && l.hostname != "" ==> name == l.hostname && !OtherHas(s, i, name))
            && (wanted in s.hosts && l.hostname == "" ==> name == conf.generated(l.ip))
  {}

  /** The name that a client without one would get belongs to another client. */
  ghost predicate Collides(conf: Conf, s: State, i: nat, hostname: string)
    requires i < |s.leases|
  {
    && s.leases[i].hostname == ""
    && conf.validName(hostname, s.leases[i].ip) in s.hosts
    && OtherHas(s, i, conf.generated(s.leases[i].ip))
  }

  lemma NewNameKnown(conf: Conf, s: State, i: nat, hostname: string, now: Time)
    requires Names(s) && i < |s.leases|
    ensures var s' := Commit(conf, s, i, hostname, now);
            && "" !in s'.hosts
            && forall j :: 0 <= j < |s'.leases| && s'.leases[j].hostname != "" ==> s'.leases[j].hostname in s'.hosts
  {
    var name, prev := CommitName(conf, s, s.leases[i], hostname), s.leases[i].hostname;
    forall j | 0 <= j < |s.leases| && j != i && s.leases[j].hostname != ""
      ensures s.leases[j].hostname in RenamedHosts(s.hosts, prev, name)
    {
      assert s.leases[j].hostname != prev;
    }
  }

  /** A commit keeps names apart if and only if the name made from the address is not
      another client's when it is needed. */
  lemma CommitKeepsNamesIff(conf: Conf, s: State, i: nat, hostname: string, now: Time)
    requires Names(s) && i < |s.leases|
    ensures Names(Commit(conf, s, i, hostname, now)) <==> !Collides(conf, s, i, hostname)
  {
    var s' := Commit(conf, s, i, hostname, now);
    var name := s'.leases[i].hostname;
    CommittedName(conf, s, i, hostname, now);
    NewNameKnown(conf, s, i, hostname, now);
    if OtherHas(s, i, name) {
      var j :| 0 <= j < |s.leases| && j != i && s.leases[j].hostname == name;
      assert s'.leases[j].hostname == s'.leases[i].hostname != "";
    }
  }

  // ----- Other messages -----

  lemma {:induction false} AllocateKeepsNames(conf: Conf, s: State, mac: MAC, now: Time, probe: nat -> bool, k: nat)
    requires Names(s)
    ensures Names(Allocate(conf, s, mac, now, probe, k).0)
    decreases |Candidates(conf, s, now)|
  {
    ReserveStep(conf, s, mac, now);
    var r := Reserve(conf, s, mac, now);
    if r.Some? && !probe(k) {
      AllocateKeepsNames(conf, BlockAt(conf, r.value.0, r.value.1, now), mac, now, probe, k + 1);
    }
  }

  /** While names are apart, removing a dynamic lease changes no other lease, and a
      static one is left with everything as it was. */
  lemma RemoveDynamicExact(conf: Conf, s: State, i: nat)
    requires Names(s) && i < |s.leases|
    ensures RemoveDynamic(conf, s, i) == if s.leases[i].isStatic then (s, false) else (RemoveAt(conf, s, i), true)
  {
    var name := s.leases[i].hostname;
    NobodyForgets(s.leases[..i], name, s.leases, 0);
    if s.leases[i].isStatic {
      assert s.leases[..i] + s.leases[i..] == s.leases;
    } else {
      NobodyForgets(s.leases[i + 1..], name, s.leases, i + 1);
      ForgetsNothingBehind(s.leases[i + 1..], name);
    }
  }

  /** A name that only the removed lease has is forgotten by nobody else. */
  lemma NobodyForgets(part: seq<Lease>, name: string, leases: seq<Lease>, from: nat)
    requires from + |part| <= |leases| && part == leases[from..from + |part|]
    requires name == "" || forall j :: from <= j < from + |part| ==> leases[j].hostname != name
    ensures ForgetNames(part, name) == part
    ensures name == "" || forall j :: 0 <= j < |part| ==> part[j].hostname != name
  {
    forall j | 0 <= j < |part|
      ensures ForgetName(part[j], name) == part[j]
    {
      assert part[j] == leases[from + j];
    }
  }

  lemma ForgetsNothingBehind(part: seq<Lease>, name: string)
    requires name == "" || forall j :: 0 <= j < |part| ==> part[j].hostname != name
    ensures ForgetBehind(part, name) == part
  {
    if part != [] {
      assert DropName(part[0], name) == part[0];
      assert ForgetNames(part[1..], name) == part[1..];
    }
  }

  lemma RemoveKeepsNames(conf: Conf, s: State, i: nat)
    requires Names(s) && i < |s.leases|
    ensures Names(RemoveAt(conf, s, i))
  {
    WithoutAtShift(s.leases, i);
  }

  /** m is not a request that is granted a name of another client. */
  ghost predicate NamesApart(conf: Conf, s: State, m: Message) {
    m.Request? && Decide(conf, s, m).Grant? && !GrantedLease(conf, s, m).isStatic ==>
      !Collides(conf, s, Decide(conf, s, m).index, m.hostname)
  }

  /** A message keeps names apart if and only if it is not such a request. */
  lemma StepKeepsNamesIff(conf: Conf, s: State, m: Message, now: Time)
    requires Names(s)
    ensures Names(Step(conf, s, m, now).0) <==> NamesApart(conf, s, m)
  {
    match m
    case Discover(mac, probe) => AllocateKeepsNames(conf, s, mac, now, probe, 0);
    case Request(_, _, _, _, hostname) =>
      var d := Decide(conf, s, m);
      if d.Grant? {
        CommitKeepsNamesIff(conf, s, d.index, hostname, now);
      }
    case Release(mac, reqIP, ciaddr) =>
      var ip := ReleasedIP(reqIP, ciaddr);
      if ip.Some? && FindPair(s.leases, mac, ip.value).Some? {
        RemoveDynamicExact(conf, s, FindPair(s.leases, mac, ip.value).value);
        RemoveKeepsNames(conf, s, FindPair(s.leases, mac, ip.value).value);
      }
  }

  /** No two clients have the same name in any state of a run in which no request
      collides. */
  lemma {:induction false} RunKeepsNames(conf: Conf, states: seq<State>, events: seq<Event>, k: nat)
    requires IsRun(conf, states, events) && k <= |events| && Names(states[0])
    requires forall j :: 0 <= j < k ==> NamesApart(conf, states[j], events[j].msg)
    ensures Names(states[k])
  {
    if k > 0 {
      RunKeepsNames(conf, states, events, k - 1);
      assert Linked(conf, states, events, k - 1);
      StepKeepsNamesIff(conf, states[k - 1], events[k - 1].msg, events[k - 1].now);
    }
  }

  /** Loaded leases have different names. */
  lemma {:induction false} ReloadEstablishesNames(conf: Conf, input: seq<Lease>)
    ensures Names(Reload(conf, input))
  {
    if input != [] {
      ReloadEstablishesNames(conf, input[..|input| - 1]);
    }
  }

  /** A client calls itself by the name that is made from the next address; the client
      of that address, which asks for the same name, gets it too. */
  lemma NameTaken(conf: Conf, a: MAC, b: MAC, now: Time)
    requires conf.Valid() && conf.serverID != 0 && a != b
    requires conf.ipRange.Contains(conf.ipRange.start + 1)
    requires var name := conf.generated(conf.ipRange.start + 1);
             name != "" && forall ip :: conf.validName(name, ip) == name
    ensures var start, name := conf.ipRange.start, conf.generated(conf.ipRange.start + 1);
            var s0 := State([FreshLease(start, a), FreshLease(start + 1, b)], {}, {0, 1});
            var s1 := Step(conf, s0, Request(a, Some(conf.serverID), Some(start), None, name), now).0;
            var s2 := Step(conf, s1, Request(b, Some(conf.serverID), Some(start + 1), None, name), now).0;
            Names(s0) && |s2.leases| == 2 && s2.leases[0].hostname == s2.leases[1].hostname == name
  {
    var start, name := conf.ipRange.start, conf.generated(conf.ipRange.start + 1);
    var s0 := State([FreshLease(start, a), FreshLease(start + 1, b)], {}, {0, 1});
    var m1 := Request(a, Some(conf.serverID), Some(start), None, name);
    var m2 := Request(b, Some(conf.serverID), Some(start + 1), None, name);
    assert Decide(conf, s0, m1) == Grant(0);
    var s1 := Commit(conf, s0, 0, name, now);
    assert s1.leases == [Lease(start, a, now + conf.leaseTime, name, false), FreshLease(start + 1, b)];
    assert s1.hosts == {name};
    assert s1.leases[0].mac != b && s1.leases[1].mac == b;
    assert FindByMAC(s1.leases, b) == Some(1);
    assert Decide(conf, s1, m2) == Grant(1);
    var s2 := Commit(conf, s1, 1, name, now);
    assert s2.leases[1].hostname == name && s2.leases[0].hostname == name;
  }
}
