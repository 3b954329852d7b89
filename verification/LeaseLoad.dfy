/** Where runs start: reloading stored leases, and when the marks of the bit set
    are exactly the leased addresses. */
module LeaseLoad {
  import opened Wrappers
  import opened Bytes
  import opened LeaseState
  import opened LeaseSafety
  import opened LeaseRuns

  /** Every reloaded lease comes from the input. */
  lemma {:induction false} ReloadFromInput(conf: Conf, input: seq<Lease>, i: nat) returns (k: nat)
    requires i < |Reload(conf, input).leases|
    ensures k < |input| && SameButName(Reload(conf, input).leases[i], input[k])
  {
    var front := input[..|input| - 1];
    k := |input| - 1;
    if i < |Reload(conf, front).leases| {
      k := ReloadFromInput(conf, front, i);
    }
  }

  /** Stored leases with distinct addresses and distinct MACs reload into a state
      that satisfies the invariant. */
  lemma {:induction false} ReloadEstablishesInv(conf: Conf, input: seq<Lease>)
    requires conf.Valid() && DistinctIPs(input) && DistinctMACs(input) && MACsFit(input)
    ensures Inv(conf, Reload(conf, input))
  {
    if input != [] {
      var last := |input| - 1;
      var front := input[..last];
      ReloadEstablishesInv(conf, front);
      var s := Reload(conf, front);
      var l := input[last];
      var named := Renamed(conf, l);
      if Add(conf, s, named).Ok? {
        forall i | 0 <= i < |s.leases|
          ensures s.leases[i].ip != l.ip
          ensures IsBlocklisted(l.mac) || s.leases[i].mac != l.mac
        {
          var k := ReloadFromInput(conf, front, i);
          assert input[k] == front[k];
        }
        AddKeepsInv(conf, s, named);
      }
    }
  }

  // ----- Marks -----

  /** A mark for every leased address of the range and for nothing else. */
  ghost predicate MarksExact(conf: Conf, s: State) {
    forall o: nat :: o in s.offsets <==> ExactlyMarked(conf, s.leases, o)
  }

  ghost predicate ExactlyMarked(conf: Conf, leases: seq<Lease>, o: nat) {
    conf.ipRange.start + o <= conf.ipRange.end && HasIP(leases, conf.ipRange.start + o)
  }

  lemma LeasedIsMarked(conf: Conf, s: State, o: nat)
    requires LeasedMarked(conf, s) && ExactlyMarked(conf, s.leases, o)
    ensures o in s.offsets
  {
    var i :| 0 <= i < |s.leases| && s.leases[i].ip == conf.ipRange.start + o;
    assert Marked(conf.ipRange, s.offsets, s.leases[i].ip);
  }

  /** Without static leases outside the range the marks are exact. */
  lemma NoOutsiderMarksExact(conf: Conf, s: State)
    requires Inv(conf, s) && !HasOutsider(conf, s.leases)
    ensures MarksExact(conf, s)
  {
    forall o: nat
      ensures o in s.offsets <==> ExactlyMarked(conf, s.leases, o)
    {
      if o in s.offsets {
        assert Justified(conf, s.leases, o);
      }
      if ExactlyMarked(conf, s.leases, o) {
        LeasedIsMarked(conf, s, o);
      }
    }
  }

  lemma {:induction false} AllocateAddsNoOutsider(conf: Conf, s: State, mac: MAC, now: Time, probe: nat -> bool, k: nat)
    ensures HasOutsider(conf, Allocate(conf, s, mac, now, probe, k).0.leases) ==> HasOutsider(conf, s.leases)
    decreases |Candidates(conf, s, now)|
  {
    ReserveStep(conf, s, mac, now);
    var r := Reserve(conf, s, mac, now);
    if r.Some? {
      var s1 := BlockAt(conf, r.value.0, r.value.1, now);
      if !probe(k) {
        AllocateAddsNoOutsider(conf, s1, mac, now, probe, k + 1);
      }
    }
  }

  lemma StepAddsNoOutsider(conf: Conf, s: State, m: Message, now: Time)
    ensures HasOutsider(conf, Step(conf, s, m, now).0.leases) ==> HasOutsider(conf, s.leases)
  {
    var s' := Step(conf, s, m, now).0;
    match m
    case Discover(mac, probe) =>
      AllocateAddsNoOutsider(conf, s, mac, now, probe, 0);
    case Request(_, _, _, _, _) =>
    case Release(mac, reqIP, ciaddr) =>
      var ip := ReleasedIP(reqIP, ciaddr);
      if ip.Some? && FindPair(s.leases, mac, ip.value).Some? {
        var r := FindPair(s.leases, mac, ip.value).value;
        RemoveDynamicShape(conf, s, r);
        if HasOutsider(conf, s'.leases) {
          var j :| 0 <= j < |s'.leases| && s'.leases[j].isStatic && !conf.ipRange.Contains(s'.leases[j].ip);
          var i := if s.leases[r].isStatic then j else Behind(r, j);
          assert SameButName(s'.leases[j], s.leases[i]);
        }
      }
  }

  /** In every state of a run that starts without static leases outside the range,
      an address of the range is marked exactly when it is leased. */
  lemma {:induction false} RunMarksExact(conf: Conf, states: seq<State>, events: seq<Event>, k: nat)
    requires IsRun(conf, states, events) && k <= |events| && !HasOutsider(conf, states[0].leases)
    ensures !HasOutsider(conf, states[k].leases)
    ensures MarksExact(conf, states[k])
  {
    RunKeepsInv(conf, states, events, k);
    if k > 0 {
      RunMarksExact(conf, states, events, k - 1);
      assert Linked(conf, states, events, k - 1);
      StepAddsNoOutsider(conf, states[k - 1], events[k - 1].msg, events[k - 1].now);
    }
    NoOutsiderMarksExact(conf, states[k]);
  }

  lemma {:induction false} ReloadMarksStart(conf: Conf, input: seq<Lease>)
    ensures HasOutsider(conf, Reload(conf, input).leases) ==> 0 in Reload(conf, input).offsets
  {
    if input != [] && HasOutsider(conf, Reload(conf, input).leases) {
      var front := input[..|input| - 1];
      ReloadMarksStart(conf, front);
      var s, s' := Reload(conf, front), Reload(conf, input);
      var i :| 0 <= i < |s'.leases| && s'.leases[i].isStatic && !conf.ipRange.Contains(s'.leases[i].ip);
      if i < |s.leases| {
        assert s.leases[i] == s'.leases[i];
      }
    }
  }

  /** After a reload the marks are exact if and only if no static lease lies
      outside the range or the first address of the range is leased. */
  lemma ReloadMarksExactIff(conf: Conf, input: seq<Lease>)
    requires conf.Valid() && DistinctIPs(input) && DistinctMACs(input) && MACsFit(input)
    ensures var s := Reload(conf, input);
            MarksExact(conf, s) <==> !HasOutsider(conf, s.leases) || HasIP(s.leases, conf.ipRange.start)
  {
    ReloadEstablishesInv(conf, input);
    ReloadMarksStart(conf, input);
    var s := Reload(conf, input);
    if !HasOutsider(conf, s.leases) {
      NoOutsiderMarksExact(conf, s);
    } else if HasIP(s.leases, conf.ipRange.start) {
      StartLeasedMarksExact(conf, s);
    } else {
      assert 0 in s.offsets && !ExactlyMarked(conf, s.leases, 0);
    }
  }

  lemma StartLeasedMarksExact(conf: Conf, s: State)
    requires Inv(conf, s) && HasIP(s.leases, conf.ipRange.start)
    ensures MarksExact(conf, s)
  {
    forall o: nat
      ensures o in s.offsets <==> ExactlyMarked(conf, s.leases, o)
    {
      if o in s.offsets {
        assert Justified(conf, s.leases, o);
      }
      if ExactlyMarked(conf, s.leases, o) {
        LeasedIsMarked(conf, s, o);
      }
    }
  }

  /** No stored lease is refused: all are where they belong, and no two get the same
      name. */
  ghost predicate AllLoad(conf: Conf, input: seq<Lease>) {
    && AllInPlace(conf, input)
    && forall i, j :: 0 <= i < j < |input| && Renamed(conf, input[i]).hostname == Renamed(conf, input[j]).hostname ==>
         Renamed(conf, input[j]).hostname == ""
  }

  lemma {:induction false} ReloadTakesAll(conf: Conf, input: seq<Lease>)
    requires AllLoad(conf, input)
    ensures var s := Reload(conf, input);
            && |s.leases| == |input|
            && (forall i :: 0 <= i < |input| ==> s.leases[i] == Renamed(conf, input[i]))
            && (forall h :: h in s.hosts ==>
                  h != "" && exists i :: 0 <= i < |input| && Renamed(conf, input[i]).hostname == h)
  {
    if input != [] {
      var last := |input| - 1;
      var front := input[..last];
      ReloadTakesAll(conf, front);
      var s, named := Reload(conf, front), Renamed(conf, input[last]);
      assert InPlace(conf, input[last]);
      assert Add(conf, s, named).Ok?;
    }
  }

  /** The same condition on what is stored, when all of it can be loaded. */
  lemma LoadedMarksExactIff(conf: Conf, input: seq<Lease>)
    requires conf.Valid() && DistinctIPs(input) && DistinctMACs(input) && MACsFit(input) && AllLoad(conf, input)
    ensures MarksExact(conf, Reload(conf, input)) <==> !HasOutsider(conf, input) || HasIP(input, conf.ipRange.start)
  {
    ReloadMarksExactIff(conf, input);
    ReloadTakesAll(conf, input);
    SameHolders(conf, input, Reload(conf, input).leases, conf.ipRange.start);
    SameHolders(conf, Reload(conf, input).leases, input, conf.ipRange.start);
  }

  lemma SameHolders(conf: Conf, before: seq<Lease>, after: seq<Lease>, ip: Addr)
    requires |before| == |after|
    requires forall i :: 0 <= i < |before| ==> before[i].ip == after[i].ip && before[i].isStatic == after[i].isStatic
    ensures HasOutsider(conf, before) ==> HasOutsider(conf, after)
    ensures HasIP(before, ip) ==> HasIP(after, ip)
  {
    if HasOutsider(conf, before) {
      var i :| 0 <= i < |before| && before[i].isStatic && !conf.ipRange.Contains(before[i].ip);
      assert after[i].isStatic && !conf.ipRange.Contains(after[i].ip);
    }
    if HasIP(before, ip) {
      var i :| 0 <= i < |before| && before[i].ip == ip;
      assert after[i].ip == ip;
    }
  }

  /** A static lease outside the range takes the first address of the range out of
      use although nobody has it. */
  lemma OutsiderWastesStart(conf: Conf, l: Lease)
    requires conf.Valid() && l.isStatic && conf.subnet.Contains(l.ip) && !conf.ipRange.Contains(l.ip)
    ensures var s := Reload(conf, [l]);
            && s.leases == [l] && !HasIP(s.leases, conf.ipRange.start)
            && !MarksExact(conf, s)
            && NextIP(conf, s) == Some(conf.ipRange.start + 1)
  {
    assert Reload(conf, [l]) == AddState(conf, State([], {}, {}), l) by {
      assert [l][..0] == [];
    }
    var s := Reload(conf, [l]);
    assert 0 in s.offsets && !ExactlyMarked(conf, s.leases, 0);
    assert Marked(conf.ipRange, s.offsets, conf.ipRange.start);
    assert !Marked(conf.ipRange, s.offsets, conf.ipRange.start + 1);
  }
}
