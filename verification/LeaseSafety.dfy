/** What every run of the DHCPv4 server keeps: the invariant of its lease state,
    the no-reallocation guarantee of section 2.2 of RFC 2131, and the reservation
    of offered addresses of sections 4.3.1 and 4.3.2. */
module LeaseSafety {
  import opened Wrappers
  import opened Bytes
  import opened LeaseState

  // ----- The invariant -----

  ghost predicate DistinctIPs(leases: seq<Lease>) {
    forall i, j :: 0 <= i < j < |leases| ==> leases[i].ip != leases[j].ip
  }

  /** Only blocklisted addresses share a MAC. */
  ghost predicate DistinctMACs(leases: seq<Lease>) {
    forall i, j :: 0 <= i < j < |leases| && leases[i].mac == leases[j].mac ==> IsBlocklisted(leases[i].mac)
  }

  ghost predicate MACsFit(leases: seq<Lease>) {
    forall i :: 0 <= i < |leases| ==> |leases[i].mac| == HWADDR_LEN
  }

  predicate InPlace(conf: Conf, l: Lease) {
    if l.isStatic then conf.subnet.Contains(l.ip) else conf.ipRange.Contains(l.ip)
  }

  ghost predicate AllInPlace(conf: Conf, leases: seq<Lease>) {
    forall i :: 0 <= i < |leases| ==> InPlace(conf, leases[i])
  }

  /** Every leased address of the range has its offset marked. */
  ghost predicate LeasedMarked(conf: Conf, s: State) {
    forall i :: 0 <= i < |s.leases| && conf.ipRange.Contains(s.leases[i].ip) ==>
      Marked(conf.ipRange, s.offsets, s.leases[i].ip)
  }

  ghost predicate HasIP(leases: seq<Lease>, ip: Addr) {
    exists i :: 0 <= i < |leases| && leases[i].ip == ip
  }

  ghost predicate HasOutsider(conf: Conf, leases: seq<Lease>) {
    exists i :: 0 <= i < |leases| && leases[i].isStatic && !conf.ipRange.Contains(leases[i].ip)
  }

  /** A marked offset is leased, except that a static lease outside the range
      marks offset 0. */
  ghost predicate MarksJustified(conf: Conf, s: State) {
    forall o :: o in s.offsets ==> Justified(conf, s.leases, o)
  }

  ghost predicate Justified(conf: Conf, leases: seq<Lease>, o: nat) {
    && conf.ipRange.start + o <= conf.ipRange.end
    && (HasIP(leases, conf.ipRange.start + o) || (o == 0 && HasOutsider(conf, leases)))
  }

  ghost predicate Inv(conf: Conf, s: State) {
    && conf.Valid()
    && DistinctIPs(s.leases)
    && DistinctMACs(s.leases)
    && MACsFit(s.leases)
    && AllInPlace(conf, s.leases)
    && LeasedMarked(conf, s)
    && MarksJustified(conf, s)
  }

  predicate IsClientMAC(mac: MAC) {
    |mac| == HWADDR_LEN && !IsBlocklisted(mac)
  }

  // ----- The invariant is kept by every change of one lease -----

  lemma AddKeepsInv(conf: Conf, s: State, l: Lease)
    requires Inv(conf, s) && InPlace(conf, l) && |l.mac| == HWADDR_LEN
    requires forall i :: 0 <= i < |s.leases| ==> s.leases[i].ip != l.ip
    requires IsBlocklisted(l.mac) || forall i :: 0 <= i < |s.leases| ==> s.leases[i].mac != l.mac
    ensures Inv(conf, AddState(conf, s, l))
  {
    AddKeepsMarks(conf, s, l);
  }

  lemma AddKeepsMarks(conf: Conf, s: State, l: Lease)
    requires conf.Valid() && InPlace(conf, l)
    requires LeasedMarked(conf, s) && MarksJustified(conf, s)
    ensures LeasedMarked(conf, AddState(conf, s, l)) && MarksJustified(conf, AddState(conf, s, l))
  {
    AddKeepsMarked(conf, s, l);
    var o := conf.ipRange.Offset(l.ip).0;
    AddedIsJustified(conf, s.leases, l);
    forall o' | o' in s.offsets + {o}
      ensures Justified(conf, s.leases + [l], o')
    {
      if o' != o {
        JustifiedAppend(conf, s.leases, l, o');
      }
    }
  }

  lemma AddKeepsMarked(conf: Conf, s: State, l: Lease)
    requires LeasedMarked(conf, s)
    ensures LeasedMarked(conf, AddState(conf, s, l))
  {}

  lemma AddedIsJustified(conf: Conf, leases: seq<Lease>, l: Lease)
    requires conf.Valid() && InPlace(conf, l)
    ensures Justified(conf, leases + [l], conf.ipRange.Offset(l.ip).0)
  {
    assert (leases + [l])[|leases|] == l;
  }

  lemma JustifiedAppend(conf: Conf, leases: seq<Lease>, l: Lease, o: nat)
    requires Justified(conf, leases, o)
    ensures Justified(conf, leases + [l], o)
  {
    var after := leases + [l];
    if HasIP(leases, conf.ipRange.start + o) {
      var i :| 0 <= i < |leases| && leases[i].ip == conf.ipRange.start + o;
      assert after[i].ip == conf.ipRange.start + o;
    } else {
      var i :| 0 <= i < |leases| && leases[i].isStatic && !conf.ipRange.Contains(leases[i].ip);
      assert after[i].isStatic && !conf.ipRange.Contains(after[i].ip);
    }
  }

  /** The leases of s' are those of s with other names, expiries and MACs. */
  ghost predicate SameSlots(s: State, s': State) {
    && s'.offsets == s.offsets
    && |s'.leases| == |s.leases|
    && forall i :: 0 <= i < |s.leases| ==>
         s'.leases[i].ip == s.leases[i].ip && s'.leases[i].isStatic == s.leases[i].isStatic
  }

  lemma SameSlotsKeepsInv(conf: Conf, s: State, s': State)
    requires Inv(conf, s) && SameSlots(s, s')
    requires DistinctMACs(s'.leases) && MACsFit(s'.leases)
    ensures Inv(conf, s')
  {}

  /** Where the lease at index j of a list stood before index i was removed. */
  function Behind(i: nat, j: nat): nat {
    if j < i then j else j + 1
  }

  lemma WithoutAtShift(leases: seq<Lease>, i: nat)
    requires i < |leases|
    ensures |WithoutAt(leases, i)| == |leases| - 1
    ensures forall j :: 0 <= j < |leases| - 1 ==> WithoutAt(leases, i)[j] == leases[Behind(i, j)]
  {}

  lemma RemoveKeepsIP(leases: seq<Lease>, i: nat, ip: Addr)
    requires i < |leases| && HasIP(leases, ip) && leases[i].ip != ip
    ensures HasIP(WithoutAt(leases, i), ip)
  {
    var k :| 0 <= k < |leases| && leases[k].ip == ip;
    assert WithoutAt(leases, i)[if k < i then k else k - 1] == leases[k];
  }

  lemma RemoveKeepsOutsider(conf: Conf, leases: seq<Lease>, i: nat)
    requires i < |leases| && HasOutsider(conf, leases) && !leases[i].isStatic
    ensures HasOutsider(conf, WithoutAt(leases, i))
  {
    var k :| 0 <= k < |leases| && leases[k].isStatic && !conf.ipRange.Contains(leases[k].ip);
    assert WithoutAt(leases, i)[if k < i then k else k - 1] == leases[k];
  }

  lemma RemoveKeepsMarked(conf: Conf, s: State, i: nat)
    requires i < |s.leases| && DistinctIPs(s.leases) && LeasedMarked(conf, s)
    ensures LeasedMarked(conf, RemoveAt(conf, s, i))
  {}

  lemma RemoveKeepsInv(conf: Conf, s: State, i: nat)
    requires Inv(conf, s) && i < |s.leases| && !s.leases[i].isStatic
    ensures Inv(conf, RemoveAt(conf, s, i))
  {
    var s' := RemoveAt(conf, s, i);
    RemoveKeepsMarked(conf, s, i);
    forall o | o in s'.offsets
      ensures Justified(conf, s'.leases, o)
    {
      assert Justified(conf, s.leases, o);
      if HasIP(s.leases, conf.ipRange.start + o) {
        assert InPlace(conf, s.leases[i]);
        RemoveKeepsIP(s.leases, i, conf.ipRange.start + o);
      } else {
        RemoveKeepsOutsider(conf, s.leases, i);
      }
    }
  }

  // ----- Copying a hardware address over another -----

  /** A recycled lease records its new client exactly when the two hardware
      addresses have the same length. */
  lemma CopyMACExact(dst: MAC, src: MAC)
    ensures CopyMAC(dst, src) == src <==> |dst| == |src|
  {}

  // ----- Allocation -----

  /** The address that nextIP returns is the least unmarked one, and nobody has it
      leased. */
  lemma NextIPNotLeased(conf: Conf, s: State)
    requires LeasedMarked(conf, s)
    ensures var next := NextIP(conf, s);
            && (next.Some? ==> conf.ipRange.Contains(next.value) && !HasIP(s.leases, next.value))
            && (next.Some? ==> !Marked(conf.ipRange, s.offsets, next.value))
            && (forall a: nat :: conf.ipRange.Contains(a) && (next.Some? ==> a < next.value) ==>
                  Marked(conf.ipRange, s.offsets, a))
  {}

  lemma ReserveKeepsInv(conf: Conf, s: State, mac: MAC, now: Time)
    requires Inv(conf, s) && IsClientMAC(mac) && FindByMAC(s.leases, mac).None?
    ensures var r := Reserve(conf, s, mac, now);
            r.Some? ==> Inv(conf, r.value.0) && r.value.0.leases[r.value.1].mac == mac
  {
    NextIPNotLeased(conf, s);
    var next := NextIP(conf, s);
    if next.Some? {
      AddKeepsInv(conf, s, FreshLease(next.value, mac));
    } else {
      var r := Reserve(conf, s, mac, now);
      if r.Some? {
        CopyMACExact(s.leases[r.value.1].mac, mac);
        SameSlotsKeepsInv(conf, s, r.value.0);
      }
    }
  }

  lemma ReserveKeepsMarked(conf: Conf, s: State, mac: MAC, now: Time)
    requires LeasedMarked(conf, s)
    ensures var r := Reserve(conf, s, mac, now);
            r.Some? ==> LeasedMarked(conf, r.value.0) && LeasedMarked(conf, BlockAt(conf, r.value.0, r.value.1, now))
  {}

  lemma BlockKeepsInv(conf: Conf, s: State, i: nat, now: Time)
    requires Inv(conf, s) && i < |s.leases|
    ensures Inv(conf, BlockAt(conf, s, i, now))
  {
    assert IsBlocklisted(BLOCKED);
    SameSlotsKeepsInv(conf, s, BlockAt(conf, s, i, now));
  }

  lemma BlockForgetsMAC(conf: Conf, s: State, mac: MAC, now: Time)
    requires Inv(conf, s) && IsClientMAC(mac) && FindByMAC(s.leases, mac).None?
    ensures var r := Reserve(conf, s, mac, now);
            r.Some? ==> FindByMAC(BlockAt(conf, r.value.0, r.value.1, now).leases, mac).None?
  {
    assert IsBlocklisted(BLOCKED);
  }

  lemma {:induction false} AllocateKeepsInv(conf: Conf, s: State, mac: MAC, now: Time, probe: nat -> bool, k: nat)
    requires Inv(conf, s) && IsClientMAC(mac) && FindByMAC(s.leases, mac).None?
    ensures var (s', i) := Allocate(conf, s, mac, now, probe, k);
            Inv(conf, s') && (i.Some? ==> s'.leases[i.value].mac == mac)
    decreases |Candidates(conf, s, now)|
  {
    ReserveStep(conf, s, mac, now);
    ReserveKeepsInv(conf, s, mac, now);
    var r := Reserve(conf, s, mac, now);
    if r.Some? && !probe(k) {
      BlockKeepsInv(conf, r.value.0, r.value.1, now);
      BlockForgetsMAC(conf, s, mac, now);
      AllocateKeepsInv(conf, BlockAt(conf, r.value.0, r.value.1, now), mac, now, probe, k + 1);
    }
  }

  /** Probe n is the first success among the probes from k up to end. */
  ghost predicate FirstSuccess(probe: nat -> bool, k: nat, end: nat, n: nat) {
    k <= n < end && probe(n) && NoSuccess(probe, k, n)
  }

  ghost predicate NoSuccess(probe: nat -> bool, k: nat, end: nat) {
    forall n: nat :: k <= n < end ==> !probe(n)
  }

  lemma NextProbe(probe: nat -> bool, k: nat, end: nat)
    requires !probe(k)
    ensures NoSuccess(probe, k, end) <==> NoSuccess(probe, k + 1, end)
  {}

  /** Allocation fails exactly when every candidate is in use, and then none is
      left. */
  lemma {:induction false} AllocateFailsIff(conf: Conf, s: State, mac: MAC, now: Time, probe: nat -> bool, k: nat)
    ensures var (s', i) := Allocate(conf, s, mac, now, probe, k);
            && (i.None? <==> NoSuccess(probe, k, k + |Candidates(conf, s, now)|))
            && (i.None? ==> Candidates(conf, s', now) == [])
    decreases |Candidates(conf, s, now)|
  {
    ReserveStep(conf, s, mac, now);
    var r := Reserve(conf, s, mac, now);
    if r.Some? && !probe(k) {
      AllocateFailsIff(conf, BlockAt(conf, r.value.0, r.value.1, now), mac, now, probe, k + 1);
      NextProbe(probe, k, k + |Candidates(conf, s, now)|);
    }
  }

  /** Allocation probes the candidates in order, at most once each, and yields the
      first that is available. */
  lemma {:induction false} AllocateTakesFirst(
    conf: Conf, s: State, mac: MAC, now: Time, probe: nat -> bool, k: nat, n: nat)
    requires FirstSuccess(probe, k, k + |Candidates(conf, s, now)|, n)
    ensures var (s', i) := Allocate(conf, s, mac, now, probe, k);
            i.Some? && s'.leases[i.value].ip == Candidates(conf, s, now)[n - k]
    decreases |Candidates(conf, s, now)|
  {
    ReserveStep(conf, s, mac, now);
    var r := Reserve(conf, s, mac, now);
    if r.Some? && !probe(k) {
      NextProbe(probe, k, n);
      AllocateTakesFirst(conf, BlockAt(conf, r.value.0, r.value.1, now), mac, now, probe, k + 1, n);
    }
  }

  /** The place of lease i in the order in which allocation tries candidates:
      behind the free addresses and the expired leases before it. */
  function Rank(conf: Conf, s: State, now: Time, i: nat): nat
    requires i <= |s.leases|
  {
    |FreeIPs(conf, s)| + |ExpiredIPs(s.leases[..i], now, 0)|
  }

  /** A failed attempt brings every untouched lease one place forward. */
  lemma RankStep(conf: Conf, s: State, mac: MAC, now: Time, i: nat)
    requires i < |s.leases|
    ensures var r := Reserve(conf, s, mac, now);
            r.Some? && r.value.1 != i && Expired(s.leases[i], now) ==>
              && Rank(conf, s, now, i) > 0
              && Rank(conf, BlockAt(conf, r.value.0, r.value.1, now), now, i) == Rank(conf, s, now, i) - 1
  {
    var r := Reserve(conf, s, mac, now);
    FreeFirst(conf.ipRange, s.offsets, conf.ipRange.start);
    if r.Some? && r.value.1 != i && Expired(s.leases[i], now) {
      var s1 := BlockAt(conf, r.value.0, r.value.1, now);
      if NextIP(conf, s).Some? {
        assert s1.leases[..i] == s.leases[..i];
      } else {
        var f := r.value.1;
        var l := s1.leases[f];
        assert s1.leases[..i] == s.leases[..i][f := l];
        ExpiredFirst(s.leases[..i], l, now, 0);
      }
    }
  }

  /** Everything a failed attempt does to lease i and to the state around it. */
  lemma FailedAttempt(conf: Conf, s: State, mac: MAC, now: Time, i: nat)
    requires Inv(conf, s) && IsClientMAC(mac) && FindByMAC(s.leases, mac).None? && i < |s.leases|
    requires Reserve(conf, s, mac, now).Some?
    ensures var (r, f) := Reserve(conf, s, mac, now).value;
            var s1 := BlockAt(conf, r, f, now);
            && Inv(conf, s1) && FindByMAC(s1.leases, mac).None? && i < |s1.leases|
            && |Candidates(conf, s1, now)| < |Candidates(conf, s, now)|
            && (f == i ==> !Expired(s1.leases[i], now) && s1.leases[i] != s.leases[i])
            && (f != i ==> s1.leases[i] == s.leases[i])
            && (f != i && Expired(s.leases[i], now) ==>
                  Rank(conf, s, now, i) > 0 && Rank(conf, s1, now, i) == Rank(conf, s, now, i) - 1)
  {
    ReserveStep(conf, s, mac, now);
    RankStep(conf, s, mac, now, i);
    ReserveKeepsInv(conf, s, mac, now);
    var r := Reserve(conf, s, mac, now).value;
    BlockKeepsInv(conf, r.0, r.1, now);
    BlockForgetsMAC(conf, s, mac, now);
  }

  /** Allocation for a client without a lease leaves a lease as it was exactly
      when the lease has not expired or a candidate before it is available. */
  lemma {:induction false} AllocateSparesIff(
    conf: Conf, s: State, mac: MAC, now: Time, probe: nat -> bool, k: nat, i: nat)
    requires Inv(conf, s) && IsClientMAC(mac) && FindByMAC(s.leases, mac).None? && i < |s.leases|
    ensures i < |Allocate(conf, s, mac, now, probe, k).0.leases|
    ensures Allocate(conf, s, mac, now, probe, k).0.leases[i] == s.leases[i] <==>
              !Expired(s.leases[i], now) || !NoSuccess(probe, k, k + Rank(conf, s, now, i))
    decreases |Candidates(conf, s, now)|
  {
    var r := Reserve(conf, s, mac, now);
    if r.None? {
      ReserveStep(conf, s, mac, now);
      NoCandidates(conf, s, now, i);
    } else {
      ReserveChanges(conf, s, mac, now, i);
      FailedAttempt(conf, s, mac, now, i);
      var end := k + Rank(conf, s, now, i);
      if probe(k) {
        assert r.value.1 != i && Expired(s.leases[i], now) ==> !NoSuccess(probe, k, end);
      } else {
        var s1 := BlockAt(conf, r.value.0, r.value.1, now);
        AllocateSparesIff(conf, s1, mac, now, probe, k + 1, i);
        NextProbe(probe, k, end);
      }
    }
  }

  /** An attempt changes exactly the lease it reserves, which is of rank 0 if it
      was there before. */
  lemma ReserveChanges(conf: Conf, s: State, mac: MAC, now: Time, i: nat)
    requires Inv(conf, s) && |mac| == HWADDR_LEN && FindByMAC(s.leases, mac).None? && i < |s.leases|
    requires Reserve(conf, s, mac, now).Some?
    ensures var (s1, f) := Reserve(conf, s, mac, now).value;
            && |s1.leases| >= |s.leases|
            && (s1.leases[i] == s.leases[i] <==> f != i)
            && (f == i ==> Expired(s.leases[i], now) && Rank(conf, s, now, i) == 0)
  {
    var r := Reserve(conf, s, mac, now);
    if r.value.1 == i {
      FirstHasRank(conf, s, now, i);
      CopyMACExact(s.leases[i].mac, mac);
    }
  }

  lemma NoCandidates(conf: Conf, s: State, now: Time, i: nat)
    requires Candidates(conf, s, now) == [] && i < |s.leases|
    ensures !Expired(s.leases[i], now)
  {
    NoneExpired(s.leases, now, 0);
  }

  lemma {:induction false} NoneExpired(leases: seq<Lease>, now: Time, k: nat)
    requires k <= |leases| && ExpiredIPs(leases, now, k) == []
    ensures forall i :: k <= i < |leases| ==> !Expired(leases[i], now)
    decreases |leases| - k
  {
    if k < |leases| {
      NoneExpired(leases, now, k + 1);
    }
  }

  /** The lease that is recycled comes first. */
  lemma FirstHasRank(conf: Conf, s: State, now: Time, i: nat)
    requires NextIP(conf, s).None? && FirstExpired(s.leases, now) == Some(i)
    ensures Rank(conf, s, now, i) == 0
  {
    FreeFirst(conf.ipRange, s.offsets, conf.ipRange.start);
    PrefixNotExpired(s.leases[..i], now, 0);
  }

  lemma {:induction false} PrefixNotExpired(leases: seq<Lease>, now: Time, k: nat)
    requires k <= |leases| && forall j :: 0 <= j < |leases| ==> !Expired(leases[j], now)
    ensures ExpiredIPs(leases, now, k) == []
    decreases |leases| - k
  {
    if k < |leases| {
      PrefixNotExpired(leases, now, k + 1);
    }
  }
}
