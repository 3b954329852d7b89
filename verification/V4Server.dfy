/** The lease bookkeeping of `internal/dhcpd/v4_unix.go` as it runs: lease objects
    shared between a slice that is shifted in place and two indexes, and a bit set
    of leased offsets.  Each operation is proved to do what LeaseState says. */
module V4Servers {
  import opened Wrappers
  import opened Bytes
  import opened BitSets
  import opened LeaseState
  import opened LeaseSafety
  import opened LeaseRuns
  import opened RequestRace

  class LeaseRef {
    var ip: Addr
    var mac: MAC
    var expiry: Time
    var hostname: string
    var isStatic: bool

    constructor (l: Lease)
      ensures Val() == l
    {
      ip, mac, expiry, hostname, isStatic := l.ip, l.mac, l.expiry, l.hostname, l.isStatic;
    }

    function Val(): Lease
      reads this
    {
      Lease(ip, mac, expiry, hostname, isStatic)
    }
  }

  ghost predicate DistinctRefs(refs: seq<LeaseRef>) {
    forall i, j :: 0 <= i < j < |refs| ==> refs[i] != refs[j]
  }

  lemma RefsWithoutAt(refs: seq<LeaseRef>, i: nat)
    requires DistinctRefs(refs) && i < |refs|
    ensures DistinctRefs(WithoutAt(refs, i))
    ensures |WithoutAt(refs, i)| == |refs| - 1
    ensures forall j :: 0 <= j < |refs| - 1 ==> WithoutAt(refs, i)[j] == refs[Behind(i, j)]
  {}

  /** No other lease has the MAC or the address of lease r. */
  ghost predicate IsAlone(leases: seq<Lease>, r: nat)
    requires r < |leases|
  {
    forall j :: 0 <= j < |leases| && j != r ==> leases[j].mac != leases[r].mac && leases[j].ip != leases[r].ip
  }

  lemma ReleasedNothing(conf: Conf, s: State, m: Message, ip: Addr, k: nat)
    requires m.Release? && ReleasedIP(m.reqIP, m.ciaddr) == Some(ip) && k <= |s.leases|
    ensures k == |s.leases| && FindPair(s.leases, m.mac, ip) == FindPair(s.leases, m.mac, ip, k) ==>
              HandleRelease(conf, s, m) == (s, Released)
  {}

  /** The leases after the removal loop for lease r has done its first k rounds. */
  ghost predicate SweptTo(before: seq<Lease>, after: seq<Lease>, r: nat, name: string, k: nat)
    requires r < |before|
  {
    if k <= r then
      && |after| == |before|
      && forall j :: 0 <= j < |before| ==> after[j] == if j < k then ForgetName(before[j], name) else before[j]
    else
      && |after| == |before| - 1
      && forall j :: 0 <= j < |after| ==> after[j] == SweptAt(before, r, name, k, j)
  }

  ghost function SweptAt(before: seq<Lease>, r: nat, name: string, k: nat, j: nat): Lease
    requires r < |before| && j < |before| - 1
  {
    if j < r then ForgetName(before[j], name)
    else if j == r then DropName(before[j + 1], name)
    else if j < k then ForgetName(before[j + 1], name)
    else before[j + 1]
  }

  /** What the removal loop for index r sees after k rounds: the slice and the
      array behind it. */
  ghost predicate SlotsAt(refs: seq<LeaseRef>, leases: seq<LeaseRef>, slots: seq<LeaseRef>, r: nat, k: nat)
    requires r < |refs|
  {
    if k <= r then leases == slots == refs
    else leases == WithoutAt(refs, r) && slots == leases + [refs[|refs| - 1]]
  }

  lemma ShiftedSlots(refs: seq<LeaseRef>, leases: seq<LeaseRef>, k: nat)
    requires k < |refs| && (leases == refs || leases == WithoutAt(refs, k))
    ensures |leases + refs[|leases|..]| == |refs|
    ensures leases == WithoutAt(refs, k) ==> SlotsAt(refs, leases, leases + refs[|leases|..], k, k + 1)
    ensures forall l :: l in leases ==> l in refs
  {}

  /** Every slot holds a current lease; the last one repeats the lease before it
      once the array has been shifted. */
  lemma SlotIsLease(refs: seq<LeaseRef>, leases: seq<LeaseRef>, slots: seq<LeaseRef>, r: nat, k: nat) returns (i: nat)
    requires r < |refs| && SlotsAt(refs, leases, slots, r, k) && k < |slots|
    ensures i < |leases| && slots[k] == leases[i]
    ensures i == if k < |leases| then k else k - 1
    ensures k >= |leases| ==> r < k
  {
    i := if k < |leases| then k else k - 1;
  }

  lemma SweptMatch(before: seq<Lease>, after: seq<Lease>, r: nat, name: string, k: nat, i: nat)
    requires r < |before| && IsAlone(before, r) && SweptTo(before, after, r, name, k) && i < |after|
    ensures after[i].mac == before[r].mac || after[i].ip == before[r].ip <==> k <= r && i == r
  {}

  lemma SweptMatchAll(before: seq<Lease>, after: seq<Lease>, r: nat, name: string)
    requires r < |before| && IsAlone(before, r) && SweptTo(before, after, r, name, r)
    ensures |after| == |before| && forall j :: 0 <= j < |after| && j != r ==> after[j].ip != after[r].ip
  {}

  lemma ReloadPrefix(conf: Conf, vals: seq<Lease>, k: nat)
    requires k < |vals|
    ensures Reload(conf, vals[..k + 1]) == ReloadOne(conf, Reload(conf, vals[..k]), vals[k])
  {
    assert vals[..k + 1][..k] == vals[..k];
  }

  /** The objects that are listed when d's address has been released. */
  ghost function ReleasedRefs(refs: seq<LeaseRef>, before: State, d: Message): seq<LeaseRef>
    requires d.Release? && |refs| == |before.leases|
  {
    match ReleasedIP(d.reqIP, d.ciaddr)
    case None => refs
    case Some(ip) =>
      match FindPair(before.leases, d.mac, ip)
      case None => refs
      case Some(r) => if before.leases[r].isStatic then refs else WithoutAt(refs, r)
  }

  /** Where the object of lease i is then. */
  lemma ReleasedPlace(refs: seq<LeaseRef>, before: State, d: Message, i: nat)
    requires d.Release? && i < |refs| == |before.leases| && DistinctRefs(refs) && DistinctIPs(before.leases)
    ensures var after, j := ReleasedRefs(refs, before, d), Position(before, i, d);
            if GivenUp(before.leases[i], d) then refs[i] !in after else j < |after| && after[j] == refs[i]
  {
    var ip := ReleasedIP(d.reqIP, d.ciaddr);
    if ip.Some? && FindPair(before.leases, d.mac, ip.value).Some? {
      RefsWithoutAt(refs, FindPair(before.leases, d.mac, ip.value).value);
    }
  }

  /** A commit sets the names and the lease apart. */
  lemma CommitParts(conf: Conf, s: State, i: nat, hostname: string, now: Time)
    requires i < |s.leases|
    ensures var l := s.leases[i];
            var name := CommitName(conf, s, l, hostname);
            Commit(conf, s, i, hostname, now) ==
              s.(hosts := RenamedHosts(s.hosts, l.hostname, name),
                 leases := s.leases[i := l.(hostname := name, expiry := now + conf.leaseTime)])
  {}

  lemma AppendRef(refs: seq<LeaseRef>, l: LeaseRef)
    requires DistinctRefs(refs) && l !in refs
    ensures DistinctRefs(refs + [l])
  {}

  /** A round that removes nothing. */
  lemma SweptPast(before: seq<Lease>, after: seq<Lease>, r: nat, name: string, k: nat, i: nat)
    requires r < |before| && SweptTo(before, after, r, name, k) && k != r && k < |before|
    requires i == (if k < |after| then k else k - 1) < |after|
    ensures SweptTo(before, after[i := ForgetName(after[i], name)], r, name, k + 1)
  {}

  /** The round that removes lease r. */
  lemma SweptOut(before: seq<Lease>, after: seq<Lease>, r: nat, name: string)
    requires r < |before| && SweptTo(before, after, r, name, r)
    ensures r == |before| - 1 ==> SweptTo(before, WithoutAt(after, r), r, name, r + 1)
    ensures r < |before| - 1 ==>
              SweptTo(before, WithoutAt(after, r)[r := DropName(WithoutAt(after, r)[r], name)], r, name, r + 1)
  {}

  lemma SweptUpTo(before: seq<Lease>, after: seq<Lease>, r: nat, name: string)
    requires r < |before| && SweptTo(before, after, r, name, r)
    ensures after == ForgetNames(before[..r], name) + before[r..]
  {}

  lemma SweptAll(before: seq<Lease>, after: seq<Lease>, r: nat, name: string)
    requires r < |before| && SweptTo(before, after, r, name, |before|)
    ensures after == ForgetNames(before[..r], name) + ForgetBehind(before[r + 1..], name)
  {
    var rest := ForgetBehind(before[r + 1..], name);
    forall j | 0 <= j < |after|
      ensures after[j] == (ForgetNames(before[..r], name) + rest)[j]
    {
      if j > r {
        assert rest[j - r] == ForgetNames(before[r + 1..][1..], name)[j - r - 1];
      }
    }
  }

  lemma SweptEnd(conf: Conf, before: State, after: State, r: nat, k: nat, ok: bool)
    requires r < |before.leases|
    requires SweptTo(before.leases, after.leases, r, before.leases[r].hostname, k)
    requires ok ==> k == |before.leases| && !before.leases[r].isStatic
                    && after == RemoveAt(conf, before, r).(leases := after.leases)
    requires !ok ==> k == r && before.leases[r].isStatic && after == before.(leases := after.leases)
    ensures RemoveDynamic(conf, before, r) == (after, ok)
  {
    if ok {
      SweptAll(before.leases, after.leases, r, before.leases[r].hostname);
    } else {
      SweptUpTo(before.leases, after.leases, r, before.leases[r].hostname);
    }
  }

  ghost function Vals(refs: seq<LeaseRef>): (vals: seq<Lease>)
    reads refs
    ensures |vals| == |refs|
    ensures forall i :: 0 <= i < |refs| ==> vals[i] == refs[i].Val()
  {
    seq(|refs|, i requires 0 <= i < |refs| reads refs => refs[i].Val())
  }

  class V4Server {
    const conf: Conf

    var leasedOffsets: BitSet

    var leases: seq<LeaseRef>
    var hostsIndex: map<string, LeaseRef>
    var ipIndex: map<Addr, LeaseRef>

    /** The abstract state. */
    ghost var view: State

    /** The fields represent the abstract state. */
    ghost predicate Base()
      reads this, leasedOffsets, leases
    {
      && conf.ipRange.Valid()
      && leasedOffsets.Valid()
      && leasedOffsets.Bits == view.offsets
      && hostsIndex.Keys == view.hosts
      && |leases| == |view.leases|
      && DistinctRefs(leases)
      && (forall i :: 0 <= i < |leases| ==> leases[i].Val() == view.leases[i])
    }

    /** ipIndex maps exactly the leased addresses to their leases. */
    ghost predicate IndexExact()
      reads this, leases
    {
      && (forall i :: 0 <= i < |leases| ==> leases[i].ip in ipIndex && ipIndex[leases[i].ip] == leases[i])
      && (forall a :: a in ipIndex ==> ipIndex[a] in leases && ipIndex[a].ip == a)
    }

    ghost predicate Valid()
      reads this, leasedOffsets, leases
    {
      Base() && IndexExact() && Inv(conf, view)
    }

    constructor (conf: Conf)
      requires conf.Valid()
      ensures Base() && IndexExact() && view == State([], {}, {}) && this.conf == conf
      ensures fresh(leasedOffsets) && leases == []
    {
      this.conf := conf;
      var bits := new BitSet();
      leasedOffsets := bits;
      leases := [];
      hostsIndex, ipIndex := map[], map[];
      view := State([], {}, {});
    }

    // ----- Adding and removing -----

    method AddLease(l: LeaseRef) returns (err: Option<AddError>)
      requires Base() && l !in leases
      modifies this`leases, this`hostsIndex, this`ipIndex, this`view, leasedOffsets
      ensures Base()
      ensures Add(conf, old(view), l.Val()).Ok? ==>
                && err == None && view == Add(conf, old(view), l.Val()).value
                && leases == old(leases) + [l]
                && ipIndex == old(ipIndex)[l.ip := l]
      ensures Add(conf, old(view), l.Val()).Err? ==>
                err == Some(Add(conf, old(view), l.Val()).error) && unchanged(this)
    {
      var (offset, inOffset) := conf.ipRange.Offset(l.ip);
      if l.isStatic {
        if !conf.subnet.Contains(l.ip) {
          return Some(OutsideSubnet);
        }
      } else if !inOffset {
        return Some(OutOfRange);
      }
      if l.hostname != "" && l.hostname in hostsIndex {
        return Some(DupHostname);
      }
      Append(l, offset);
      return None;
    }

    /** The updates of addLease. */
    method Append(l: LeaseRef, offset: nat)
      requires Base() && l !in leases && offset == conf.ipRange.Offset(l.ip).0
      modifies this`leases, this`hostsIndex, this`ipIndex, this`view, leasedOffsets
      ensures Base()
      ensures view == AddState(conf, old(view), l.Val())
      ensures leases == old(leases) + [l] && ipIndex == old(ipIndex)[l.ip := l]
    {
      AppendRef(leases, l);
      leasedOffsets.Set(offset, true);
      hostsIndex := if l.hostname != "" then hostsIndex[l.hostname := l] else hostsIndex;
      ipIndex, leases, view := ipIndex[l.ip := l], leases + [l], AddState(conf, view, l.Val());
    }

    /** Unmarks the offset of an address of the range. */
    method FreeOffset(ip: Addr)
      requires conf.ipRange.Valid() && leasedOffsets.Valid()
      modifies leasedOffsets
      ensures leasedOffsets.Valid()
      ensures leasedOffsets.Bits ==
              if conf.ipRange.Contains(ip) then old(leasedOffsets.Bits) - {ip - conf.ipRange.start}
              else old(leasedOffsets.Bits)
    {
      var (offset, ok) := conf.ipRange.Offset(ip);
      if ok {
        leasedOffsets.Set(offset, false);
      }
    }

    method RemoveIndex(i: nat)
      requires Base() && i < |leases|
      modifies this`leases, this`hostsIndex, this`ipIndex, this`view, leasedOffsets
      ensures Base()
      ensures view == RemoveAt(conf, old(view), i)
      ensures leases == WithoutAt(old(leases), i)
      ensures ipIndex == old(ipIndex) - {old(leases[i].ip)}
    {
      var l := leases[i];
      assert l.Val() == view.leases[i];
      FreeOffset(l.ip);
      WithoutAtShift(view.leases, i);
      RefsWithoutAt(leases, i);
      leases, hostsIndex, ipIndex, view :=
        WithoutAt(leases, i), hostsIndex - {l.hostname}, ipIndex - {l.ip}, RemoveAt(conf, view, i);
    }

    method RmLeaseByIndex(i: nat)
      requires Base()
      modifies this`leases, this`hostsIndex, this`ipIndex, this`view, leasedOffsets
      ensures Base()
      ensures i >= old(|leases|) ==> unchanged(this)
      ensures i < old(|leases|) ==>
                && view == RemoveAt(conf, old(view), i)
                && leases == WithoutAt(old(leases), i)
                && ipIndex == old(ipIndex) - {old(leases[i].ip)}
    {
      if i < |leases| {
        RemoveIndex(i);
      }
    }

    // ----- Looking up -----

    method FindLease(mac: MAC) returns (l: LeaseRef?)
      requires Base()
      ensures match FindByMAC(view.leases, mac)
              case Some(i) => l == leases[i]
              case None => l == null
    {
      var k := 0;
      while k < |leases|
        invariant k <= |leases|
        invariant FindByMAC(view.leases, mac) == FindByMAC(view.leases, mac, k)
      {
        assert leases[k].Val() == view.leases[k];
        if leases[k].mac == mac {
          return leases[k];
        }
        k := k + 1;
      }
      return null;
    }

    method NextIP() returns (ip: Option<Addr>)
      requires Base()
      ensures ip == LeaseState.NextIP(conf, view)
    {
      var r, words := conf.ipRange, leasedOffsets.words;
      ip := r.Find((a: nat) => r.Offset(a).1 && !IsSetIn(words, r.Offset(a).0));
      ghost var next := LeaseState.NextIP(conf, view);
      assert forall a: nat :: r.Contains(a) ==>
        (r.Offset(a).1 && !IsSetIn(words, r.Offset(a).0) <==> !Marked(r, view.offsets, a));
    }

    method FindExpiredLease(now: Time) returns (i: int)
      requires Base()
      ensures match FirstExpired(view.leases, now)
              case Some(k) => i == k
              case None => i == -1
    {
      var k := 0;
      while k < |leases|
        invariant k <= |leases|
        invariant FirstExpired(view.leases, now) == FirstExpired(view.leases, now, k)
      {
        assert leases[k].Val() == view.leases[k];
        if !leases[k].isStatic && leases[k].expiry < now {
          return k;
        }
        k := k + 1;
      }
      return -1;
    }

    /** The MAC that holds ip now, found through the index. */
    method FindMACbyIP(ip: Addr, now: Time) returns (mac: Option<MAC>)
      requires Base() && IndexExact()
      ensures forall m :: mac == Some(m) <==>
                exists i :: 0 <= i < |view.leases| && view.leases[i].ip == ip && view.leases[i].mac == m
                            && (view.leases[i].isStatic || view.leases[i].expiry > now)
    {
      if ip in ipIndex {
        var l := ipIndex[ip];
        ghost var i :| 0 <= i < |leases| && leases[i] == l;
        assert forall j :: 0 <= j < |leases| && view.leases[j].ip == ip ==> leases[j].Val().ip == ip && j == i;
        assert view.leases[i] == l.Val();
        if l.isStatic || l.expiry > now {
          return Some(l.mac);
        }
        return None;
      }
      assert forall j :: 0 <= j < |leases| ==> leases[j].Val() == view.leases[j] && leases[j].ip in ipIndex;
      return None;
    }

    // ----- Allocation -----

    /** Stores v in the lease object at index i, whose address stays. */
    method UpdateLease(l: LeaseRef, ghost i: nat, v: Lease)
      requires Base() && IndexExact() && i < |leases| && leases[i] == l && v.ip == l.ip
      modifies this`view, l
      ensures Base() && IndexExact()
      ensures view == old(view).(leases := old(view).leases[i := v])
    {
      l.mac := v.mac;
      l.expiry := v.expiry;
      l.hostname := v.hostname;
      l.isStatic := v.isStatic;
      view := view.(leases := view.leases[i := v]);
    }

    /** Adds a lease for an address that nobody has. */
    method AddFresh(ip: Addr, mac: MAC) returns (l: LeaseRef)
      requires Base() && IndexExact() && conf.ipRange.Contains(ip) && !HasIP(view.leases, ip)
      modifies this`leases, this`hostsIndex, this`ipIndex, this`view, leasedOffsets
      ensures Base() && IndexExact() && fresh(l) && leases == old(leases) + [l]
      ensures view == AddState(conf, old(view), FreshLease(ip, mac))
    {
      l := new LeaseRef(FreshLease(ip, mac));
      assert forall j :: 0 <= j < |leases| ==> leases[j].Val() == view.leases[j] && leases[j].ip != ip;
      assert ip !in ipIndex;
      var err := AddLease(l);
    }

    /** Reserves a lease for mac; i is its index. */
    method ReserveLease(mac: MAC, now: Time) returns (l: LeaseRef?, ghost i: nat)
      requires Base() && IndexExact() && LeasedMarked(conf, view)
      modifies this`leases, this`hostsIndex, this`ipIndex, this`view, leasedOffsets, leases
      ensures Base() && IndexExact()
      ensures Reserve(conf, old(view), mac, now).None? ==> l == null && view == old(view) && leases == old(leases)
      ensures Reserve(conf, old(view), mac, now).Some? ==>
                && (view, i) == Reserve(conf, old(view), mac, now).value
                && l == leases[i]
                && (leases == old(leases) || (leases == old(leases) + [l] && fresh(l)))
    {
      i := 0;
      var nextIP := NextIP();
      if nextIP.None? {
        var k := FindExpiredLease(now);
        if k < 0 {
          return null, 0;
        }
        i := k;
        l := leases[k];
        assert l.Val() == view.leases[k];
        UpdateLease(l, k, l.Val().(mac := CopyMAC(l.mac, mac)));
      } else {
        NextIPNotLeased(conf, view);
        i := |leases|;
        l := AddFresh(nextIP.value, mac);
      }
    }

    method BlocklistLease(l: LeaseRef, ghost i: nat, now: Time)
      requires Base() && IndexExact() && i < |leases| && leases[i] == l
      modifies this`view, l
      ensures Base() && IndexExact()
      ensures view == BlockAt(conf, old(view), i, now)
    {
      assert l.Val() == view.leases[i];
      UpdateLease(l, i, Blocklisted(conf, l.Val(), now));
    }

    /** One attempt: reserves a lease, and blocklists it if it is not available. */
    method Attempt(mac: MAC, now: Time, available: bool) returns (l: LeaseRef?, ghost i: nat)
      requires Base() && IndexExact() && LeasedMarked(conf, view)
      modifies this`leases, this`hostsIndex, this`ipIndex, this`view, leasedOffsets, leases
      ensures Base() && IndexExact() && LeasedMarked(conf, view) && old(leases) <= leases
      ensures forall j :: old(|leases|) <= j < |leases| ==> fresh(leases[j])
      ensures Reserve(conf, old(view), mac, now).None? ==> l == null && view == old(view)
      ensures Reserve(conf, old(view), mac, now).Some? ==>
                && l != null
                && i == Reserve(conf, old(view), mac, now).value.1 < |leases|
                && l == leases[i]
                && view == if available then Reserve(conf, old(view), mac, now).value.0
                           else BlockAt(conf, Reserve(conf, old(view), mac, now).value.0, i, now)
    {
      ReserveKeepsMarked(conf, view, mac, now);
      l, i := ReserveLease(mac, now);
      assert old(leases) <= leases && forall j :: old(|leases|) <= j < |leases| ==> fresh(leases[j]);
      if l != null && !available {
        BlocklistLease(l, i, now);
      }
    }

    /** The k-th attempt of an allocation either ends it or leaves one candidate less. */
    method AttemptNext(mac: MAC, now: Time, probe: nat -> bool, k: nat) returns (l: LeaseRef?, ghost i: nat)
      requires Base() && IndexExact() && LeasedMarked(conf, view)
      modifies this`leases, this`hostsIndex, this`ipIndex, this`view, leasedOffsets, leases
      ensures Base() && IndexExact() && LeasedMarked(conf, view) && old(leases) <= leases
      ensures forall j :: old(|leases|) <= j < |leases| ==> fresh(leases[j])
      ensures l != null ==> i < |leases| && l == leases[i]
      ensures if l == null || probe(k) then
                (view, if l == null then None else Some(i)) == Allocate(conf, old(view), mac, now, probe, k)
              else
                && Allocate(conf, view, mac, now, probe, k + 1) == Allocate(conf, old(view), mac, now, probe, k)
                && |Candidates(conf, view, now)| < old(|Candidates(conf, view, now)|)
    {
      ReserveStep(conf, view, mac, now);
      l, i := Attempt(mac, now, probe(k));
    }

    /** Allocates a lease; the loop ends because every failed probe uses up one
        candidate. */
    method AllocateLease(mac: MAC, now: Time, probe: nat -> bool) returns (l: LeaseRef?, ghost i: nat)
      requires Base() && IndexExact() && LeasedMarked(conf, view)
      modifies this`leases, this`hostsIndex, this`ipIndex, this`view, leasedOffsets, leases
      ensures Base() && IndexExact()
      ensures (view, if l == null then None else Some(i)) == Allocate(conf, old(view), mac, now, probe)
      ensures l != null ==> i < |leases| && l == leases[i]
      ensures old(leases) <= leases
      ensures forall j :: old(|leases|) <= j < |leases| ==> fresh(leases[j])
    {
      ghost var result := Allocate(conf, view, mac, now, probe);
      var k, done := 0, false;
      l, i := null, 0;
      while !done
        invariant Base() && IndexExact() && LeasedMarked(conf, view) && old(leases) <= leases
        invariant forall j :: old(|leases|) <= j < |leases| ==> fresh(leases[j])
        invariant !done ==> Allocate(conf, view, mac, now, probe, k) == result
        invariant done ==> (view, if l == null then None else Some(i)) == result
        invariant l != null ==> i < |leases| && l == leases[i]
        decreases !done, |Candidates(conf, view, now)|
      {
        l, i := AttemptNext(mac, now, probe, k);
        done := l == null || probe(k);
        k := k + 1;
      }
    }

    method HandleDiscover(mac: MAC, probe: nat -> bool, now: Time) returns (reply: Reply)
      requires Valid() && IsClientMAC(mac)
      modifies this`leases, this`hostsIndex, this`ipIndex, this`view, leasedOffsets, leases
      ensures Valid() && old(leases) <= leases
      ensures forall j :: old(|leases|) <= j < |leases| ==> fresh(leases[j])
      ensures (view, reply) == LeaseState.HandleDiscover(conf, old(view), mac, probe, now)
    {
      StepKeepsInv(conf, view, Discover(mac, probe), now);
      var l := FindLease(mac);
      if l != null {
        assert forall j :: 0 <= j < |leases| ==> leases[j].Val() == view.leases[j];
        return Offer(l.ip);
      }
      ghost var i;
      l, i := AllocateLease(mac, now, probe);
      if l == null {
        return Nak;
      }
      assert leases[i].Val() == view.leases[i];
      return Offer(l.ip);
    }

    // ----- Requests -----

    method ChooseName(l: LeaseRef, hostname: string) returns (name: string)
      requires Base()
      ensures name == CommitName(conf, view, l.Val(), hostname)
    {
      name := conf.validName(hostname, l.ip);
      if name in hostsIndex {
        if l.hostname == "" {
          name := conf.generated(l.ip);
        } else {
          name := l.hostname;
        }
      }
    }

    /** Files l under its new name instead of its previous one. */
    method Rename(l: LeaseRef, prev: string, name: string)
      requires Base() && IndexExact()
      modifies this`hostsIndex, this`view
      ensures Base() && IndexExact()
      ensures view == old(view).(hosts := RenamedHosts(old(view).hosts, prev, name))
    {
      if prev != "" && prev != name {
        hostsIndex := hostsIndex - {prev};
      }
      if name != "" {
        hostsIndex := hostsIndex[name := l];
      }
      view := view.(hosts := hostsIndex.Keys);
    }

    /** The place of l in the list, if it is still listed. */
    ghost predicate IsAt(l: LeaseRef, at: Option<nat>)
      reads this
    {
      if at.Some? then at.value < |leases| && leases[at.value] == l else l !in leases
    }

    /** Files a lease under its address.  The index stays exact if and only if the lease
        is listed. */
    method IndexByIP(l: LeaseRef, ghost at: Option<nat>)
      requires Base() && IndexExact() && IsAt(l, at)
      modifies this`ipIndex
      ensures Base() && (IndexExact() <==> at.Some?) && l.ip in ipIndex && ipIndex[l.ip] == l
    {
      assert at.Some? ==> ipIndex[l.ip := l] == ipIndex;
      ipIndex := ipIndex[l.ip := l];
      assert at.None? ==> l.ip in ipIndex && ipIndex[l.ip] !in leases;
    }

    /** Sets the name and the expiry of a lease. */
    method Refresh(l: LeaseRef, ghost at: Option<nat>, name: string, expiry: Time)
      requires Base() && (IndexExact() <==> at.Some?) && IsAt(l, at) && l.ip in ipIndex && ipIndex[l.ip] == l
      modifies this`view, l
      ensures Base() && (IndexExact() <==> at.Some?)
      ensures view == if at.None? then old(view)
                      else old(view).(leases := old(view).leases[
                             at.value := old(l.Val()).(hostname := name, expiry := expiry)])
    {
      l.hostname := name;
      l.expiry := expiry;
      view := if at.None? then view else view.(leases := view.leases[at.value := l.Val()]);
    }

    /** Commits a lease object, listed or not. */
    method CommitLease(l: LeaseRef, ghost at: Option<nat>, hostname: string, now: Time)
      requires Base() && IndexExact() && IsAt(l, at)
      modifies this`hostsIndex, this`ipIndex, this`view, l
      ensures Base() && (IndexExact() <==> at.Some?)
      ensures view == if at.Some? then Commit(conf, old(view), at.value, hostname, now)
                      else CommitDetached(conf, old(view), old(l.Val()), hostname)
    {
      assert at.Some? ==> l.Val() == view.leases[at.value];
      var name := ChooseName(l, hostname);
      if at.Some? {
        CommitParts(conf, view, at.value, hostname, now);
      }
      Rename(l, l.hostname, name);
      IndexByIP(l, at);
      Refresh(l, at, name, now + conf.leaseTime);
    }

    /** What the pair of results of a request handler means. */
    ghost predicate Decided(l: LeaseRef?, needsReply: bool, i: nat, d: Decision)
      reads this
    {
      if l == null then d == if needsReply then Refuse else Drop
      else d == Grant(i) && needsReply && i < |leases| && leases[i] == l
    }

    method CheckLease(mac: MAC, ip: Addr) returns (l: LeaseRef?, mismatch: bool, ghost i: nat)
      requires Base()
      ensures match FindByMAC(view.leases, mac)
              case None => l == null && !mismatch
              case Some(k) =>
                if view.leases[k].ip == ip then i == k && l == leases[k] && !mismatch else l == null && mismatch
    {
      var k := 0;
      i := 0;
      while k < |leases|
        invariant k <= |leases|
        invariant FindByMAC(view.leases, mac) == FindByMAC(view.leases, mac, k)
      {
        l := leases[k];
        assert l.Val() == view.leases[k];
        if l.mac == mac {
          if l.ip == ip {
            return l, false, k;
          }
          return null, true, 0;
        }
        k := k + 1;
      }
      return null, false, 0;
    }

    method HandleSelecting(m: Message) returns (l: LeaseRef?, needsReply: bool, ghost i: nat)
      requires Base() && m.Request? && IsSpecified(m.sid)
      ensures Decided(l, needsReply, i, Decide(conf, view, m))
    {
      i := 0;
      if m.sid.value != conf.serverID {
        return null, false, 0;
      } else if IsSpecified(m.ciaddr) {
        return null, false, 0;
      }
      if m.reqIP.None? {
        return null, false, 0;
      }
      var mismatch;
      l, mismatch, i := CheckLease(m.mac, m.reqIP.value);
      if mismatch {
        return null, true, 0;
      }
      return l, true, i;
    }

    method HandleInitReboot(m: Message) returns (l: LeaseRef?, needsReply: bool, ghost i: nat)
      requires Base() && m.Request? && !IsSpecified(m.sid) && IsSpecified(m.reqIP)
      ensures Decided(l, needsReply, i, Decide(conf, view, m))
    {
      i := 0;
      if IsSpecified(m.ciaddr) {
        return null, false, 0;
      }
      if !conf.subnet.Contains(m.reqIP.value) {
        return null, true, 0;
      }
      var mismatch;
      l, mismatch, i := CheckLease(m.mac, m.reqIP.value);
      if mismatch {
        return null, true, 0;
      } else if l == null {
        return null, false, 0;
      }
      return l, true, i;
    }

    method HandleRenew(m: Message) returns (l: LeaseRef?, needsReply: bool, ghost i: nat)
      requires Base() && m.Request? && !IsSpecified(m.sid) && !IsSpecified(m.reqIP)
      ensures Decided(l, needsReply, i, Decide(conf, view, m))
    {
      i := 0;
      if !IsSpecified(m.ciaddr) {
        return null, false, 0;
      }
      var mismatch;
      l, mismatch, i := CheckLease(m.mac, m.ciaddr.value);
      if mismatch {
        return null, true, 0;
      } else if l == null {
        return null, false, 0;
      }
      return l, true, i;
    }

    method HandleByRequestType(m: Message) returns (l: LeaseRef?, needsReply: bool, ghost i: nat)
      requires Base() && m.Request?
      ensures Decided(l, needsReply, i, Decide(conf, view, m))
    {
      if IsSpecified(m.sid) {
        l, needsReply, i := HandleSelecting(m);
      } else if IsSpecified(m.reqIP) {
        l, needsReply, i := HandleInitReboot(m);
      } else {
        l, needsReply, i := HandleRenew(m);
      }
    }

    method HandleRequest(m: Message, now: Time) returns (reply: Reply)
      requires Valid() && m.Request? && IsClientMAC(m.mac)
      modifies this`hostsIndex, this`ipIndex, this`view, leases
      ensures Valid()
      ensures (view, reply) == LeaseState.HandleRequest(conf, old(view), m, now)
    {
      StepKeepsInv(conf, view, m, now);
      var l, needsReply, i := HandleByRequestType(m);
      if l == null {
        return if needsReply then Nak else Silent;
      }
      HalvesAreRequest(conf, view, m, now);
      reply := CommitChecked(l, Some(i), m.hostname, now);
    }

    /** The second half of handleRequest, for the lease object that the first half has
        found. */
    method CommitChecked(l: LeaseRef, ghost at: Option<nat>, hostname: string, now: Time) returns (reply: Reply)
      requires Base() && IndexExact() && IsAt(l, at) && (at.None? ==> !l.isStatic)
      modifies this`hostsIndex, this`ipIndex, this`view, l
      ensures Base() && (IndexExact() <==> at.Some?)
      ensures (view, reply) == CommitAt(conf, old(view), at, old(l.Val()), hostname, now)
    {
      assert at.Some? ==> l.Val() == view.leases[at.value];
      reply := Ack(l.ip);
      if !l.isStatic {
        CommitLease(l, at, hostname, now);
      }
    }

    /** The schedule in which d gets the lock between the check of a granted request and
        its commit: the request commits the lease object it has found.  The index of
        addresses stays exact if and only if d has not removed that object. */
    method RacedRequest(m: Message, d: Message, between: Time, now: Time) returns (reply: Reply)
      requires Valid() && Racing(conf, view, m, d)
      modifies this`leases, this`hostsIndex, this`ipIndex, this`view, leasedOffsets, leases
      ensures Base() && Inv(conf, view)
      ensures IndexExact() <==> !GivenUp(GrantedLease(conf, old(view), m), d)
      ensures (view, reply) == Raced(conf, old(view), m, d, between, now)
    {
      var l, needsReply, i := HandleByRequestType(m);
      assert l.Val() == view.leases[i];
      RacedHoldsIff(conf, view, m, d, between, now);
      GrantedIsOwn(conf, view, m);
      PlaceExists(conf, view, i, d, between);
      ghost var at;
      var other;
      other, at := HandleAround(d, between, l, i);
      reply := CommitChecked(l, at, m.hostname, now);
    }

    /** Handles d and says where the lease object l is then. */
    method HandleAround(d: Message, now: Time, l: LeaseRef, ghost i: nat) returns (reply: Reply, ghost at: Option<nat>)
      requires Valid() && IsClientMAC(d.mac) && i < |leases| && leases[i] == l
      modifies this`leases, this`hostsIndex, this`ipIndex, this`view, leasedOffsets, leases
      ensures Valid() && i < |old(view).leases| && at == PlaceAfter(old(view), i, d)
      ensures (view, reply) == Step(conf, old(view), d, now)
      ensures IsAt(l, at) && (at.None? ==> l.Val() == old(l.Val()))
    {
      if d.Release? {
        reply, at := ReleaseAround(d, l, i);
      } else {
        reply := ServeAround(d, now, l, i);
        at := Some(i);
      }
    }

    /** Other messages do not move lease objects. */
    method ServeAround(d: Message, now: Time, l: LeaseRef, ghost i: nat) returns (reply: Reply)
      requires Valid() && !d.Release? && IsClientMAC(d.mac) && i < |leases| && leases[i] == l
      modifies this`leases, this`hostsIndex, this`ipIndex, this`view, leasedOffsets, leases
      ensures Valid() && IsAt(l, Some(i))
      ensures (view, reply) == Step(conf, old(view), d, now)
    {
      match d
      case Discover(mac, probe) => reply := HandleDiscover(mac, probe, now);
      case Request(_, _, _, _, _) => reply := HandleRequest(d, now);
    }

    method ReleaseAround(d: Message, l: LeaseRef, ghost i: nat) returns (reply: Reply, ghost at: Option<nat>)
      requires Valid() && d.Release? && IsClientMAC(d.mac) && i < |leases| && leases[i] == l
      modifies this`leases, this`hostsIndex, this`ipIndex, this`view, leasedOffsets, leases
      ensures Valid() && i < |old(view).leases| && at == PlaceAfter(old(view), i, d)
      ensures (view, reply) == LeaseState.HandleRelease(conf, old(view), d)
      ensures IsAt(l, at) && (at.None? ==> l.Val() == old(l.Val()))
    {
      assert l.Val() == view.leases[i];
      at := PlaceAfter(view, i, d);
      ReleasedPlace(leases, view, d, i);
      reply := HandleRelease(d);
    }

    // ----- Releases -----

    method DropNameOf(l: LeaseRef, ghost i: nat, name: string)
      requires Base() && IndexExact() && i < |leases| && leases[i] == l
      modifies this`view, l
      ensures Base() && IndexExact()
      ensures view == old(view).(leases := old(view).leases[i := DropName(old(view).leases[i], name)])
    {
      assert l.Val() == view.leases[i];
      if l.hostname == name {
        UpdateLease(l, i, l.Val().(hostname := ""));
      } else {
        assert view == view.(leases := view.leases[i := DropName(view.leases[i], name)]);
      }
    }

    /** What holds after k rounds of the loop that removes lease r of the state
        before, whose objects were refs; slots is the array behind the slice. */
    ghost predicate Sweeping(lease: LeaseRef, refs: seq<LeaseRef>, slots: seq<LeaseRef>, before: State, r: nat, k: nat)
      reads this, leasedOffsets, leases, lease
    {
      && Base() && IndexExact()
      && r < |refs| == |before.leases| == |slots|
      && IsAlone(before.leases, r)
      && lease == refs[r] && lease.Val() == before.leases[r]
      && SlotsAt(refs, leases, slots, r, k)
      && SweptTo(before.leases, view.leases, r, before.leases[r].hostname, k)
      && (k <= r ==> view == before.(leases := view.leases))
      && (k > r ==> !lease.isStatic && view == RemoveAt(conf, before, r).(leases := view.leases))
    }

    /** A round for a lease other than the removed one. */
    method PassRound(
      lease: LeaseRef, slots: seq<LeaseRef>, k: nat, ghost refs: seq<LeaseRef>, ghost before: State, ghost r: nat)
      requires Sweeping(lease, refs, slots, before, r, k) && k < |slots| && k != r
      requires slots[k] in leases && slots[k] != lease
      modifies this`view, slots[k]
      ensures Sweeping(lease, refs, slots, before, r, k + 1)
    {
      ghost var i := SlotIsLease(refs, leases, slots, r, k);
      var l := slots[k];
      assert l.Val() == view.leases[i];
      SweptPast(before.leases, view.leases, r, lease.hostname, k, i);
      if !l.isStatic {
        DropNameOf(l, i, lease.hostname);
      } else {
        assert view.leases == view.leases[i := ForgetName(view.leases[i], lease.hostname)];
      }
    }

    /** The first half of the round that removes the lease: the slice shrinks, the
        array behind it is shifted in place and keeps its last slot. */
    method RemoveSlot(lease: LeaseRef, slots: seq<LeaseRef>, k: nat, ghost refs: seq<LeaseRef>, ghost before: State)
      returns (shifted: seq<LeaseRef>)
      requires Sweeping(lease, refs, slots, before, k, k) && !lease.isStatic
      modifies this`leases, this`hostsIndex, this`ipIndex, this`view, leasedOffsets
      ensures Base() && IndexExact()
      ensures view == RemoveAt(conf, before, k).(leases := WithoutAt(old(view).leases, k))
      ensures |shifted| == |slots| && SlotsAt(refs, leases, shifted, k, k + 1)
    {
      SweptMatchAll(before.leases, view.leases, k, lease.hostname);
      RemoveExact(k);
      shifted := leases + slots[|leases|..];
      ShiftedSlots(refs, leases, k);
    }

    /** Removes a lease whose address no other lease has. */
    method RemoveExact(k: nat)
      requires Base() && IndexExact() && k < |leases|
      requires forall j :: 0 <= j < |view.leases| && j != k ==> view.leases[j].ip != view.leases[k].ip
      modifies this`leases, this`hostsIndex, this`ipIndex, this`view, leasedOffsets
      ensures Base() && IndexExact()
      ensures view == RemoveAt(conf, old(view), k) && leases == WithoutAt(old(leases), k)
    {
      RefsWithoutAt(leases, k);
      RmLeaseByIndex(k);
    }

    /** The round that removes the lease. */
    method RemoveRound(lease: LeaseRef, slots: seq<LeaseRef>, k: nat, ghost refs: seq<LeaseRef>, ghost before: State)
      returns (shifted: seq<LeaseRef>)
      requires Sweeping(lease, refs, slots, before, k, k) && !lease.isStatic
      modifies this`leases, this`hostsIndex, this`ipIndex, this`view, leasedOffsets, leases
      ensures Sweeping(lease, refs, shifted, before, k, k + 1)
    {
      SweptOut(before.leases, view.leases, k, lease.hostname);
      RefsWithoutAt(leases, k);
      shifted := RemoveSlot(lease, slots, k, refs, before);
      if k < |leases| {
        DropNameOf(leases[k], k, lease.hostname);
      }
    }

    /** One round; stop says that a static lease is in the way. */
    method Round(
      lease: LeaseRef, slots: seq<LeaseRef>, k: nat, ghost refs: seq<LeaseRef>, ghost before: State, ghost r: nat)
      returns (shifted: seq<LeaseRef>, stop: bool)
      requires Sweeping(lease, refs, slots, before, r, k) && k < |slots|
      modifies this`leases, this`hostsIndex, this`ipIndex, this`view, leasedOffsets, leases
      ensures Sweeping(lease, refs, shifted, before, r, if stop then k else k + 1)
      ensures stop ==> k == r && lease.isStatic
    {
      var l := slots[k];
      ghost var i := SlotIsLease(refs, leases, slots, r, k);
      assert l.Val() == view.leases[i];
      SweptMatch(before.leases, view.leases, r, lease.hostname, k, i);
      shifted, stop := slots, false;
      if l.mac == lease.mac || l.ip == lease.ip {
        if l.isStatic {
          stop := true;
        } else {
          shifted := RemoveRound(lease, slots, k, refs, before);
        }
      } else {
        PassRound(lease, slots, k, refs, before, r);
      }
    }

    /** All rounds over the array behind the slice as it was at the start. */
    method Rounds(lease: LeaseRef, ghost before: State, ghost r: nat)
      returns (ok: bool, ghost slots: seq<LeaseRef>, ghost k: nat)
      requires Sweeping(lease, leases, leases, before, r, 0)
      modifies this`leases, this`hostsIndex, this`ipIndex, this`view, leasedOffsets, leases
      ensures Sweeping(lease, old(leases), slots, before, r, k)
      ensures if ok then k == |slots| else k == r && lease.isStatic
    {
      ghost var refs := leases;
      var behind := leases;
      var i := 0;
      ok := true;
      while ok && i < |behind|
        invariant Sweeping(lease, refs, behind, before, r, i)
        invariant i <= |behind| && (!ok ==> i == r && lease.isStatic)
        decreases |behind| - i, ok
      {
        var stop;
        behind, stop := Round(lease, behind, i, refs, before, r);
        ok := !stop;
        i := if stop then i else i + 1;
      }
      slots, k := behind, i;
    }

    /** Removes a dynamic lease that shares its MAC and its address with no other,
        and takes its name away from other leases. */
    method RmDynamicLease(lease: LeaseRef, ghost r: nat) returns (ok: bool)
      requires Base() && IndexExact() && r < |leases| && leases[r] == lease && IsAlone(view.leases, r)
      modifies this`leases, this`hostsIndex, this`ipIndex, this`view, leasedOffsets, leases
      ensures Base() && IndexExact()
      ensures (view, ok) == RemoveDynamic(conf, old(view), r)
      ensures leases == (if ok then WithoutAt(old(leases), r) else old(leases)) && lease.Val() == old(lease.Val())
    {
      ghost var before := view;
      assert lease.Val() == view.leases[r];
      ghost var slots, k;
      ok, slots, k := Rounds(lease, before, r);
      SweptEnd(conf, before, view, r, k, ok);
    }

    /** The pair of mac and ip is not among the leases from slot k on. */
    ghost predicate Absent(behind: seq<LeaseRef>, k: nat, mac: MAC, ip: Addr)
      reads behind
    {
      forall j :: k <= j < |behind| ==> behind[j].mac != mac || behind[j].ip != ip
    }

    /** Removes the lease in slot k, which holds the pair that is released, and
        returns the shifted array behind the slice. */
    method ReleaseSlot(behind: seq<LeaseRef>, k: nat) returns (shifted: seq<LeaseRef>, ok: bool)
      requires Base() && IndexExact() && behind == leases && k < |leases|
      requires DistinctIPs(view.leases) && IsAlone(view.leases, k)
      modifies this`leases, this`hostsIndex, this`ipIndex, this`view, leasedOffsets, leases
      ensures Base() && IndexExact()
      ensures (view, ok) == RemoveDynamic(conf, old(view), k)
      ensures |shifted| == |behind|
      ensures leases == (if ok then WithoutAt(behind, k) else behind) && behind[k].Val() == old(behind[k].Val())
      ensures forall l :: l in leases ==> l in old(leases)
      ensures ok ==> Absent(shifted, k + 1, old(view).leases[k].mac, old(view).leases[k].ip)
    {
      ghost var before, refs := view, leases;
      assert leases[k].Val() == view.leases[k];
      ok := RmDynamicLease(leases[k], k);
      shifted := leases + behind[|leases|..];
      ShiftedSlots(refs, leases, k);
      if ok {
        ReleasedAbsent(refs, before, k, shifted);
      }
    }

    lemma ReleasedAbsent(refs: seq<LeaseRef>, before: State, k: nat, shifted: seq<LeaseRef>)
      requires k < |refs| == |before.leases| && SlotsAt(refs, leases, shifted, k, k + 1)
      requires Base() && DistinctIPs(before.leases) && RemoveDynamic(conf, before, k) == (view, true)
      ensures Absent(shifted, k + 1, before.leases[k].mac, before.leases[k].ip)
    {
      RemoveDynamicShape(conf, before, k);
      forall j | k + 1 <= j < |shifted|
        ensures shifted[j].ip != before.leases[k].ip
      {
        var i := SlotIsLease(refs, leases, shifted, k, j);
        assert leases[i].Val() == view.leases[i];
        assert SameButName(view.leases[i], before.leases[Behind(k, i)]);
      }
    }

    /** What holds after k rounds of the release loop. */
    ghost predicate Releasing(
      m: Message, ip: Addr, refs: seq<LeaseRef>, before: State, behind: seq<LeaseRef>, k: nat, done: bool, reply: Reply)
      requires m.Release? && k <= |before.leases| == |refs|
      reads this, leasedOffsets, leases, behind, refs
    {
      && Base() && IndexExact() && |behind| == |before.leases|
      && leases == (if done then ReleasedRefs(refs, before, m) else refs)
      && (FindPair(before.leases, m.mac, ip).Some? ==>
            var r := FindPair(before.leases, m.mac, ip).value;
            refs[r].Val() == before.leases[r])
      && (if done then
            && (view, reply) == LeaseState.HandleRelease(conf, before, m)
            && (reply == Released ==> Absent(behind, k, m.mac, ip))
          else
            && leases == behind && view == before && reply == Released
            && FindPair(before.leases, m.mac, ip) == FindPair(before.leases, m.mac, ip, k))
    }

    method ReleaseRound(
      m: Message, ip: Addr, behind: seq<LeaseRef>, k: nat,
      ghost refs: seq<LeaseRef>, ghost before: State, ghost done: bool)
      returns (shifted: seq<LeaseRef>, reply: Reply, ghost done': bool)
      requires m.Release? && ReleasedIP(m.reqIP, m.ciaddr) == Some(ip) && k < |before.leases| == |refs|
      requires Releasing(m, ip, refs, before, behind, k, done, Released)
      requires DistinctIPs(before.leases) && DistinctMACs(before.leases) && !IsBlocklisted(m.mac)
      modifies this`leases, this`hostsIndex, this`ipIndex, this`view, leasedOffsets, leases
      ensures Releasing(m, ip, refs, before, shifted, k + 1, done', reply)
      ensures forall l :: l in leases ==> l in old(leases)
    {
      var l := behind[k];
      assert !done ==> l.Val() == view.leases[k];
      shifted, reply, done' := behind, Released, done;
      if l.mac == m.mac && l.ip == ip {
        var ok;
        shifted, ok := ReleaseSlot(behind, k);
        done' := true;
        reply := if ok then Released else Nak;
      }
    }

    method ReleaseRounds(m: Message, ip: Addr) returns (reply: Reply)
      requires m.Release? && !IsBlocklisted(m.mac) && ReleasedIP(m.reqIP, m.ciaddr) == Some(ip)
      requires Base() && IndexExact() && DistinctIPs(view.leases) && DistinctMACs(view.leases)
      modifies this`leases, this`hostsIndex, this`ipIndex, this`view, leasedOffsets, leases
      ensures Base() && IndexExact()
      ensures (view, reply) == LeaseState.HandleRelease(conf, old(view), m)
      ensures leases == ReleasedRefs(old(leases), old(view), m)
      ensures FindPair(old(view).leases, m.mac, ip).Some? ==>
                var r := FindPair(old(view).leases, m.mac, ip).value;
                old(leases)[r].Val() == old(view).leases[r]
    {
      var behind, k := leases, 0;
      ghost var refs, before, done := leases, view, false;
      reply := Released;
      while reply == Released && k < |behind|
        invariant k <= |before.leases| && Releasing(m, ip, refs, before, behind, k, done, reply)
        invariant forall l :: l in leases ==> l in old(leases)
        decreases |behind| - k
      {
        behind, reply, done := ReleaseRound(m, ip, behind, k, refs, before, done);
        k := k + 1;
      }
      ReleasedNothing(conf, before, m, ip, k);
    }

    method HandleRelease(m: Message) returns (reply: Reply)
      requires Valid() && m.Release? && IsClientMAC(m.mac)
      modifies this`leases, this`hostsIndex, this`ipIndex, this`view, leasedOffsets, leases
      ensures Valid()
      ensures (view, reply) == LeaseState.HandleRelease(conf, old(view), m)
      ensures leases == ReleasedRefs(old(leases), old(view), m)
      ensures forall i :: 0 <= i < old(|leases|) && GivenUp(old(view).leases[i], m) ==>
                old(leases)[i].Val() == old(view).leases[i]
    {
      StepKeepsInv(conf, view, m, 0);
      var ip := ReleasedIP(m.reqIP, m.ciaddr);
      if ip.None? {
        return Untyped;
      }
      reply := ReleaseRounds(m, ip.value);
    }

    /** Handles one message. */
    method Handle(m: Message, now: Time) returns (reply: Reply)
      requires Valid() && IsClientMAC(m.mac)
      modifies this`leases, this`hostsIndex, this`ipIndex, this`view, leasedOffsets, leases
      ensures Valid()
      ensures (view, reply) == Step(conf, old(view), m, now)
    {
      match m
      case Discover(mac, probe) => reply := HandleDiscover(mac, probe, now);
      case Request(_, _, _, _, _) => reply := HandleRequest(m, now);
      case Release(_, _, _) => reply := HandleRelease(m);
    }

    // ----- Loading -----

    /** Adds one stored lease, or skips it if it cannot be added. */
    method LoadLease(l: LeaseRef)
      requires Base() && l !in leases
      modifies this`leases, this`hostsIndex, this`ipIndex, this`view, leasedOffsets, l`hostname
      ensures Base()
      ensures view == ReloadOne(conf, old(view), old(l.Val()))
      ensures (leases == old(leases) && ipIndex == old(ipIndex))
              || (leases == old(leases) + [l] && ipIndex == old(ipIndex)[l.ip := l])
      ensures old(IndexExact()) && old(l.ip !in ipIndex) ==> IndexExact()
    {
      if !l.isStatic {
        l.hostname := conf.validName(l.hostname, l.ip);
      }
      var err := AddLease(l);
    }

    /** The first k leases have been loaded. */
    ghost predicate Loading(input: seq<LeaseRef>, vals: seq<Lease>, k: nat)
      reads this, leasedOffsets, leases, input
    {
      && Base() && LoadedFrom(input, vals, k) && k <= |vals|
      && view == Reload(conf, vals[..k])
      && (DistinctIPs(vals) ==> IndexExact())
    }

    /** Loads the stored lease number k. */
    method LoadNext(input: seq<LeaseRef>, ghost vals: seq<Lease>, k: nat)
      requires Loading(input, vals, k) && k < |input|
      modifies this`leases, this`hostsIndex, this`ipIndex, this`view, leasedOffsets, input
      ensures Loading(input, vals, k + 1)
    {
      ReloadPrefix(conf, vals, k);
      LoadLease(input[k]);
    }

    method LoadAll(input: seq<LeaseRef>, ghost vals: seq<Lease>)
      requires Loading(input, vals, 0)
      modifies this`leases, this`hostsIndex, this`ipIndex, this`view, leasedOffsets, input
      ensures Base() && view == Reload(conf, vals)
      ensures DistinctIPs(vals) ==> IndexExact()
    {
      var k := 0;
      while k < |input|
        invariant k <= |input| && Loading(input, vals, k)
      {
        LoadNext(input, vals, k);
        k := k + 1;
      }
      assert vals[..k] == vals;
    }

    /** Replaces all leases with the given ones.  The index of addresses is exact
        if the given addresses are distinct. */
    method ResetLeases(input: seq<LeaseRef>)
      requires conf.ipRange.Valid() && DistinctRefs(input)
      modifies this, input
      ensures Base() && fresh(leasedOffsets)
      ensures view == Reload(conf, old(Vals(input)))
      ensures DistinctIPs(old(Vals(input))) ==> IndexExact()
    {
      leasedOffsets := new BitSet();
      leases, hostsIndex, ipIndex, view := [], map[], map[], State([], {}, {});
      LoadAll(input, old(Vals(input)));
    }

    /** The first k of the stored leases may be among the leases; the others are
        still as they were stored. */
    ghost predicate LoadedFrom(input: seq<LeaseRef>, vals: seq<Lease>, k: nat)
      reads this, input
    {
      && k <= |input| == |vals| && DistinctRefs(input)
      && (forall j :: k <= j < |input| ==> input[j].Val() == vals[j])
      && (forall j :: 0 <= j < |input| ==> input[j].ip == vals[j].ip)
      && (forall i :: 0 <= i < |leases| ==> leases[i] in input[..k])
    }

  }
}
