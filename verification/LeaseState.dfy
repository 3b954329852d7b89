/** The lease bookkeeping of `internal/dhcpd/v4_unix.go` on values: what each
    operation does to the lease list, to the set of known hostnames and to the
    set of leased offsets. */
module LeaseState {
  import opened Wrappers
  import opened Bytes
  import opened IPRanges
  import opened Subnets

  type Addr = nat

  /** Times are counted from the zero `time.Time`, the expiry of an offer that
      nobody has accepted yet. */
  type Time = nat

  const NEVER: Time := 0

  const HWADDR_LEN := 6

  datatype Lease = Lease(ip: Addr, mac: MAC, expiry: Time, hostname: string, isStatic: bool)

  datatype State = State(leases: seq<Lease>, hosts: set<string>, offsets: set<nat>)

  /** The server's settings.  Hostname normalisation is an oracle: validName is
      what `validHostnameForClient` answers, generated what `GenerateHostname`
      does. */
  datatype Conf = Conf(
    ipRange: IPRange,
    subnet: Subnet,
    leaseTime: nat,
    serverID: Addr,
    validName: (string, Addr) -> string,
    generated: Addr -> string)
  {
    ghost predicate Valid() {
      ipRange.Valid() && subnet.Valid() && leaseTime > 0
    }
  }

  const BLOCKED: MAC := [0, 0, 0, 0, 0, 0]

  predicate IsBlocklisted(mac: MAC) {
    mac != [] && forall i :: 0 <= i < |mac| ==> mac[i] == 0
  }

  predicate Expired(l: Lease, now: Time) {
    !l.isStatic && l.expiry < now
  }

  /** Go's `copy(dst, src)`. */
  function CopyMAC(dst: MAC, src: MAC): (r: MAC)
    ensures |r| == |dst|
  {
    if |src| <= |dst| then src + dst[|src|..] else src[..|dst|]
  }

  // ----- Adding and removing -----

  datatype AddError = OutsideSubnet | OutOfRange | DupHostname

  function AddState(conf: Conf, s: State, l: Lease): State {
    State(
      s.leases + [l],
      if l.hostname != "" then s.hosts + {l.hostname} else s.hosts,
      s.offsets + {conf.ipRange.Offset(l.ip).0})
  }

  /** addLease. */
  function Add(conf: Conf, s: State, l: Lease): Result<State, AddError> {
    if l.isStatic && !conf.subnet.Contains(l.ip) then Err(OutsideSubnet)
    else if !l.isStatic && !conf.ipRange.Contains(l.ip) then Err(OutOfRange)
    else if l.hostname != "" && l.hostname in s.hosts then Err(DupHostname)
    else Ok(AddState(conf, s, l))
  }

  function WithoutAt<T>(xs: seq<T>, i: nat): seq<T>
    requires i < |xs|
  {
    xs[..i] + xs[i + 1..]
  }

  /** rmLeaseByIndex. */
  function RemoveAt(conf: Conf, s: State, i: nat): State
    requires i < |s.leases|
  {
    var l := s.leases[i];
    var (offset, ok) := conf.ipRange.Offset(l.ip);
    State(
      WithoutAt(s.leases, i),
      s.hosts - {l.hostname},
      if ok then s.offsets - {offset} else s.offsets)
  }

  // ----- Looking up -----

  /** findLease: the first lease of mac from index k on. */
  function FindByMAC(leases: seq<Lease>, mac: MAC, k: nat := 0): (r: Option<nat>)
    requires k <= |leases|
    ensures r.Some? ==> k <= r.value < |leases| && leases[r.value].mac == mac
    ensures forall j :: k <= j < |leases| && (r.Some? ==> j < r.value) ==> leases[j].mac != mac
    decreases |leases| - k
  {
    if k == |leases| then None
    else if leases[k].mac == mac then Some(k)
    else FindByMAC(leases, mac, k + 1)
  }

  /** findExpiredLease: the first expired dynamic lease from index k on. */
  function FirstExpired(leases: seq<Lease>, now: Time, k: nat := 0): (r: Option<nat>)
    requires k <= |leases|
    ensures r.Some? ==> k <= r.value < |leases| && Expired(leases[r.value], now)
    ensures forall j :: k <= j < |leases| && (r.Some? ==> j < r.value) ==> !Expired(leases[j], now)
    decreases |leases| - k
  {
    if k == |leases| then None
    else if Expired(leases[k], now) then Some(k)
    else FirstExpired(leases, now, k + 1)
  }

  /** The offset of ip is marked as leased. */
  predicate Marked(r: IPRange, offsets: set<nat>, ip: nat) {
    r.start <= ip && ip - r.start in offsets
  }

  /** nextIP: the least address from a on whose offset is not marked as leased. */
  function NextFrom(r: IPRange, offsets: set<nat>, a: nat): (ip: Option<Addr>)
    requires r.start <= a
    ensures ip.Some? ==> a <= ip.value <= r.end && !Marked(r, offsets, ip.value)
    ensures forall b: nat :: a <= b <= r.end && (ip.Some? ==> b < ip.value) ==> Marked(r, offsets, b)
    decreases r.end + 1 - a
  {
    if a > r.end then None
    else if !Marked(r, offsets, a) then Some(a)
    else NextFrom(r, offsets, a + 1)
  }

  function NextIP(conf: Conf, s: State): Option<Addr> {
    NextFrom(conf.ipRange, s.offsets, conf.ipRange.start)
  }

  // ----- Allocation -----

  function FreshLease(ip: Addr, mac: MAC): Lease {
    Lease(ip, mac, NEVER, "", false)
  }

  /** reserveLease: the new state and the index of the reserved lease. */
  function Reserve(conf: Conf, s: State, mac: MAC, now: Time): (r: Option<(State, nat)>)
    ensures r.Some? ==> r.value.1 < |r.value.0.leases|
  {
    match NextIP(conf, s)
    case Some(ip) => Some((AddState(conf, s, FreshLease(ip, mac)), |s.leases|))
    case None =>
      match FirstExpired(s.leases, now)
      case None => None
      case Some(i) =>
        var l := s.leases[i];
        Some((s.(leases := s.leases[i := l.(mac := CopyMAC(l.mac, mac))]), i))
  }

  /** blocklistLease. */
  function Blocklisted(conf: Conf, l: Lease, now: Time): Lease {
    l.(mac := BLOCKED, hostname := "", expiry := now + conf.leaseTime)
  }

  function BlockAt(conf: Conf, s: State, i: nat, now: Time): State
    requires i < |s.leases|
  {
    s.(leases := s.leases[i := Blocklisted(conf, s.leases[i], now)])
  }

  /** The free addresses of the range from a on, in increasing order. */
  function Free(r: IPRange, offsets: set<nat>, a: nat): seq<Addr>
    requires r.start <= a
    decreases r.end + 1 - a
  {
    if a > r.end then []
    else if !Marked(r, offsets, a) then [a] + Free(r, offsets, a + 1)
    else Free(r, offsets, a + 1)
  }

  /** The addresses of the expired dynamic leases from index k on, in list order. */
  function ExpiredIPs(leases: seq<Lease>, now: Time, k: nat): seq<Addr>
    requires k <= |leases|
    decreases |leases| - k
  {
    if k == |leases| then []
    else if Expired(leases[k], now) then [leases[k].ip] + ExpiredIPs(leases, now, k + 1)
    else ExpiredIPs(leases, now, k + 1)
  }

  function FreeIPs(conf: Conf, s: State): seq<Addr> {
    Free(conf.ipRange, s.offsets, conf.ipRange.start)
  }

  /** Every address that allocation may still try, in the order it tries them:
      the free ones, then those of expired leases. */
  function Candidates(conf: Conf, s: State, now: Time): seq<Addr> {
    FreeIPs(conf, s) + ExpiredIPs(s.leases, now, 0)
  }

  lemma {:induction false} FreeFirst(r: IPRange, offsets: set<nat>, a: nat)
    requires r.start <= a
    ensures var next := NextFrom(r, offsets, a);
            && (next.None? ==> Free(r, offsets, a) == [])
            && (next.Some? ==>
                  && Free(r, offsets, a) != [] && Free(r, offsets, a)[0] == next.value
                  && Free(r, offsets + {next.value - r.start}, a) == Free(r, offsets, a)[1..])
    decreases r.end + 1 - a
  {
    if a <= r.end {
      if !Marked(r, offsets, a) {
        FreeAbove(r, offsets, a + 1, a - r.start);
      } else {
        FreeFirst(r, offsets, a + 1);
      }
    }
  }

  lemma {:induction false} FreeAbove(r: IPRange, offsets: set<nat>, a: nat, o: nat)
    requires r.start + o < a
    ensures Free(r, offsets + {o}, a) == Free(r, offsets, a)
    decreases r.end + 1 - a
  {
    if a <= r.end {
      FreeAbove(r, offsets, a + 1, o);
    }
  }

  lemma {:induction false} ExpiredAppend(leases: seq<Lease>, l: Lease, now: Time, k: nat)
    requires k <= |leases| && !Expired(l, now)
    ensures ExpiredIPs(leases + [l], now, k) == ExpiredIPs(leases, now, k)
    decreases |leases| - k
  {
    if k < |leases| {
      ExpiredAppend(leases, l, now, k + 1);
    }
  }

  lemma {:induction false} ExpiredUntouched(leases: seq<Lease>, i: nat, l: Lease, now: Time, k: nat)
    requires i < k <= |leases|
    ensures ExpiredIPs(leases[i := l], now, k) == ExpiredIPs(leases, now, k)
    decreases |leases| - k
  {
    if k < |leases| {
      ExpiredUntouched(leases, i, l, now, k + 1);
    }
  }

  lemma {:induction false} ExpiredFirst(leases: seq<Lease>, l: Lease, now: Time, k: nat)
    requires k <= |leases| && !Expired(l, now)
    ensures var first := FirstExpired(leases, now, k);
            && (first.None? ==> ExpiredIPs(leases, now, k) == [])
            && (first.Some? ==>
                  && ExpiredIPs(leases, now, k) != [] && ExpiredIPs(leases, now, k)[0] == leases[first.value].ip
                  && ExpiredIPs(leases[first.value := l], now, k) == ExpiredIPs(leases, now, k)[1..])
    decreases |leases| - k
  {
    if k < |leases| {
      if Expired(leases[k], now) {
        ExpiredUntouched(leases, k, l, now, k + 1);
      } else {
        ExpiredFirst(leases, l, now, k + 1);
      }
    }
  }

  /** One attempt reserves the first candidate, and blocklisting it when the
      probe fails drops exactly that candidate. */
  lemma ReserveStep(conf: Conf, s: State, mac: MAC, now: Time)
    ensures var r := Reserve(conf, s, mac, now);
            && (r.None? <==> Candidates(conf, s, now) == [])
            && (r.Some? ==>
                  && r.value.0.leases[r.value.1].ip == Candidates(conf, s, now)[0]
                  && Candidates(conf, BlockAt(conf, r.value.0, r.value.1, now), now) == Candidates(conf, s, now)[1..])
  {
    FreeFirst(conf.ipRange, s.offsets, conf.ipRange.start);
    match NextIP(conf, s)
    case Some(ip) =>
      var l := Blocklisted(conf, FreshLease(ip, mac), now);
      ExpiredAppend(s.leases, l, now, 0);
      var r := Reserve(conf, s, mac, now).value;
      assert BlockAt(conf, r.0, r.1, now).leases == s.leases + [l];
    case None =>
      var first := FirstExpired(s.leases, now);
      if first.Some? {
        var r := Reserve(conf, s, mac, now).value;
        var l := Blocklisted(conf, r.0.leases[r.1], now);
        ExpiredFirst(s.leases, l, now, 0);
        assert BlockAt(conf, r.0, r.1, now).leases == s.leases[first.value := l];
      } else {
        ExpiredFirst(s.leases, Blocklisted(conf, FreshLease(0, mac), now), now, 0);
      }
  }

  /** allocateLease, where probe(k) is the answer of the k-th probe.  It ends for
      every probe because each failed one uses up a candidate. */
  function Allocate(
    conf: Conf, s: State, mac: MAC, now: Time, probe: nat -> bool, k: nat := 0): (r: (State, Option<nat>))
    ensures r.1.Some? ==> r.1.value < |r.0.leases|
    decreases |Candidates(conf, s, now)|
  {
    ReserveStep(conf, s, mac, now);
    match Reserve(conf, s, mac, now)
    case None => (s, None)
    case Some((s1, i)) =>
      if probe(k) then (s1, Some(i))
      else Allocate(conf, BlockAt(conf, s1, i, now), mac, now, probe, k + 1)
  }

  // ----- Messages -----

  datatype Message =
    | Discover(mac: MAC, probe: nat -> bool)
    | Request(mac: MAC, sid: Option<Addr>, reqIP: Option<Addr>, ciaddr: Option<Addr>, hostname: string)
    | Release(mac: MAC, reqIP: Option<Addr>, ciaddr: Option<Addr>)

  /** What the server sends back; Untyped is a reply without a message type. */
  datatype Reply = Silent | Nak | Offer(ip: Addr) | Ack(ip: Addr) | Released | Untyped

  function HandleDiscover(conf: Conf, s: State, mac: MAC, probe: nat -> bool, now: Time): (State, Reply) {
    match FindByMAC(s.leases, mac)
    case Some(i) => (s, Offer(s.leases[i].ip))
    case None =>
      var (s1, i) := Allocate(conf, s, mac, now, probe);
      if i.Some? then (s1, Offer(s1.leases[i.value].ip)) else (s1, Nak)
  }

  predicate IsSpecified(ip: Option<Addr>) {
    ip.Some? && ip.value != 0
  }

  /** What the checks of a request decide: drop it, refuse it or grant a lease. */
  datatype Decision = Drop | Refuse | Grant(index: nat)

  /** checkLease: the first lease of mac decides. */
  function CheckLease(leases: seq<Lease>, mac: MAC, ip: Addr, unknown: Decision): (d: Decision)
    ensures d.Grant? && d != unknown ==> d.index < |leases|
  {
    match FindByMAC(leases, mac)
    case None => unknown
    case Some(i) => if leases[i].ip == ip then Grant(i) else Refuse
  }

  /** handleByRequestType and its three handlers. */
  function Decide(conf: Conf, s: State, m: Message): (d: Decision)
    requires m.Request?
    ensures d.Grant? ==> d.index < |s.leases|
  {
    if IsSpecified(m.sid) then
      // SELECTING
      if m.sid.value != conf.serverID || IsSpecified(m.ciaddr) || m.reqIP.None? then Drop
      else CheckLease(s.leases, m.mac, m.reqIP.value, Refuse)
    else if IsSpecified(m.reqIP) then
      // INIT-REBOOT
      if IsSpecified(m.ciaddr) then Drop
      else if !conf.subnet.Contains(m.reqIP.value) then Refuse
      else CheckLease(s.leases, m.mac, m.reqIP.value, Drop)
    else
      // RENEWING or REBINDING
      if !IsSpecified(m.ciaddr) then Drop
      else CheckLease(s.leases, m.mac, m.ciaddr.value, Drop)
  }

  /** The hostname that commitLease settles on. */
  function CommitName(conf: Conf, s: State, l: Lease, hostname: string): string {
    var wanted := conf.validName(hostname, l.ip);
    if wanted !in s.hosts then wanted
    else if l.hostname == "" then conf.generated(l.ip)
    else l.hostname
  }

  /** The known hostnames after a client called prev is called name. */
  function RenamedHosts(hosts: set<string>, prev: string, name: string): set<string> {
    var others := if prev != "" && prev != name then hosts - {prev} else hosts;
    if name != "" then others + {name} else others
  }

  /** commitLease. */
  function Commit(conf: Conf, s: State, i: nat, hostname: string, now: Time): State
    requires i < |s.leases|
  {
    var l := s.leases[i];
    var name := CommitName(conf, s, l, hostname);
    State(
      s.leases[i := l.(hostname := name, expiry := now + conf.leaseTime)],
      RenamedHosts(s.hosts, l.hostname, name),
      s.offsets)
  }

  function HandleRequest(conf: Conf, s: State, m: Message, now: Time): (State, Reply)
    requires m.Request?
  {
    match Decide(conf, s, m)
    case Drop => (s, Silent)
    case Refuse => (s, Nak)
    case Grant(i) =>
      var l := s.leases[i];
      (if l.isStatic then s else Commit(conf, s, i, m.hostname, now), Ack(l.ip))
  }

  /** The address that a client gives up. */
  function ReleasedIP(reqIP: Option<Addr>, ciaddr: Option<Addr>): Option<Addr> {
    if reqIP.Some? then reqIP else ciaddr
  }

  function FindPair(leases: seq<Lease>, mac: MAC, ip: Addr, k: nat := 0): (r: Option<nat>)
    requires k <= |leases|
    ensures r.Some? ==> k <= r.value < |leases| && leases[r.value].mac == mac && leases[r.value].ip == ip
    ensures forall j :: k <= j < |leases| && (r.Some? ==> j < r.value) ==> leases[j].mac != mac || leases[j].ip != ip
    decreases |leases| - k
  {
    if k == |leases| then None
    else if leases[k].mac == mac && leases[k].ip == ip then Some(k)
    else FindPair(leases, mac, ip, k + 1)
  }

  function DropName(l: Lease, name: string): Lease {
    if l.hostname == name then l.(hostname := "") else l
  }

  /** A dynamic lease loses its name to another one with the same name. */
  function ForgetName(l: Lease, name: string): Lease {
    if l.isStatic then l else DropName(l, name)
  }

  function ForgetNames(leases: seq<Lease>, name: string): (r: seq<Lease>)
    ensures |r| == |leases|
    ensures forall j :: 0 <= j < |leases| ==> r[j] == ForgetName(leases[j], name)
  {
    seq(|leases|, j requires 0 <= j < |leases| => ForgetName(leases[j], name))
  }

  /** The leases behind a removed one.  The first of them has moved into the freed
      slot, where its own static flag is not looked at. */
  function ForgetBehind(leases: seq<Lease>, name: string): (r: seq<Lease>)
    ensures |r| == |leases|
  {
    if leases == [] then []
    else
      [DropName(leases[0], name)] + ForgetNames(leases[1..], name)
  }

  /** rmDynamicLease for a lease that nobody shares a MAC or an address with: a
      static one is an error once the leases before it have lost its name. */
  function RemoveDynamic(conf: Conf, s: State, i: nat): (r: (State, bool))
    requires i < |s.leases|
  {
    var l := s.leases[i];
    var before := ForgetNames(s.leases[..i], l.hostname);
    if l.isStatic then (s.(leases := before + s.leases[i..]), false)
    else (RemoveAt(conf, s, i).(leases := before + ForgetBehind(s.leases[i + 1..], l.hostname)), true)
  }

  function HandleRelease(conf: Conf, s: State, m: Message): (State, Reply)
    requires m.Release?
  {
    match ReleasedIP(m.reqIP, m.ciaddr)
    case None => (s, Untyped)
    case Some(ip) =>
      match FindPair(s.leases, m.mac, ip)
      case None => (s, Released)
      case Some(i) =>
        var (s1, ok) := RemoveDynamic(conf, s, i);
        (s1, if ok then Released else Nak)
  }

  /** One message handled at time now. */
  function Step(conf: Conf, s: State, m: Message, now: Time): (State, Reply) {
    match m
    case Discover(mac, probe) => HandleDiscover(conf, s, mac, probe, now)
    case Request(_, _, _, _, _) => HandleRequest(conf, s, m, now)
    case Release(_, _, _) => HandleRelease(conf, s, m)
  }

  // ----- Loading -----

  /** A stored lease with the name it is loaded with. */
  function Renamed(conf: Conf, l: Lease): Lease {
    if l.isStatic then l else l.(hostname := conf.validName(l.hostname, l.ip))
  }

  /** Re-adds one stored lease, unless addLease refuses it. */
  function ReloadOne(conf: Conf, s: State, l: Lease): State {
    var r := Add(conf, s, Renamed(conf, l));
    if r.Ok? then r.value else s
  }

  /** ResetLeases. */
  function Reload(conf: Conf, input: seq<Lease>): State {
    if input == [] then State([], {}, {})
    else ReloadOne(conf, Reload(conf, input[..|input| - 1]), input[|input| - 1])
  }
}
