/** Storing and reloading the leases of the new DHCP service, `internal/dhcpsvc/db.go`. */
module LeaseDBs {
  import opened Wrappers
  import opened Bytes
  import opened SortedMaps
  import opened LeaseIndexes

  const SECOND: nat := 1_000_000_000

  /** A lease as it is written to the database file. */
  datatype DBLease = DBLease(expiry: string, ip: Addr, hostname: string, hwAddr: string, isStatic: bool)

  /** The conversions to and from text, and the order of hostnames. */
  datatype Text = Text(
    formatTime: Time -> string,
    parseTime: string -> Option<Time>,
    formatMAC: MAC -> string,
    parseMAC: string -> Option<MAC>,
    compare: (string, string) -> int)
  {
    /** Times are written and read as by time.RFC3339, hardware addresses of the three
        lengths survive, and names are ordered. */
    ghost predicate Valid() {
      && (forall t: Time :: parseTime(formatTime(t)) == if FourDigits(t) then Some(ReadBack(t)) else None)
      && (forall m: MAC :: ValidMAC(m) ==> parseMAC(formatMAC(m)) == Some(m))
      && IsOrder(compare)
    }
  }

  // ----- Times as text -----

  /** The first seconds of the years 0 and 10000, from the first one of year 1 on. */
  const YEAR_0: int := -366 * 86_400
  const YEAR_10000: int := 3_652_059 * 86_400

  /** What a clock in the zone shows, in seconds. */
  function LocalSeconds(t: Time): int {
    t.nanos / SECOND + t.offset
  }

  /** The year has four digits in its own zone. */
  predicate FourDigits(t: Time) {
    YEAR_0 <= LocalSeconds(t) < YEAR_10000
  }

  /** The offset without its part of a minute, which time.RFC3339 has no place for. */
  function WholeMinutes(o: Offset): Offset {
    if o >= 0 then o - o % 60 else o + (-o) % 60
  }

  /** The time that is read when t has been written: the same local time, with an
      offset of whole minutes. */
  function ReadBack(t: Time): Time {
    Time((LocalSeconds(t) - WholeMinutes(t.offset)) * SECOND, WholeMinutes(t.offset))
  }

  lemma ReadBackSeconds(t: Time)
    ensures LocalSeconds(ReadBack(t)) == LocalSeconds(t)
    ensures ReadBack(t).nanos - t.nanos == (t.offset - WholeMinutes(t.offset)) * SECOND - t.nanos % SECOND
    ensures -60 < t.offset - WholeMinutes(t.offset) < 60
  {}

  /** An instant survives if and only if it is a whole second and its zone is a whole
      number of minutes from UTC. */
  lemma SurvivesIff(t: Time)
    ensures ReadBack(t).nanos == t.nanos <==> t.nanos % SECOND == 0 && t.offset % 60 == 0
  {
    ReadBackSeconds(t);
  }

  /** It becomes later if and only if its zone is east of UTC by more than a whole
      number of minutes. */
  lemma LaterIff(t: Time)
    ensures ReadBack(t).nanos > t.nanos <==> t.offset > 0 && t.offset % 60 != 0
  {
    ReadBackSeconds(t);
  }

  /** What has been read once survives from then on. */
  lemma ReadBackTwice(t: Time)
    ensures ReadBack(ReadBack(t)) == ReadBack(t)
    ensures FourDigits(ReadBack(t)) <==> FourDigits(t)
  {
    ReadBackSeconds(t);
    assert WholeMinutes(WholeMinutes(t.offset)) == WholeMinutes(t.offset);
  }

  // ----- Leases as text -----

  /** The lease can be read back after it is written. */
  predicate Storable(l: Lease) {
    l.isStatic || FourDigits(l.expiry)
  }

  function ToDBLease(text: Text, l: Lease): DBLease {
    DBLease(if l.isStatic then "" else text.formatTime(l.expiry), l.ip, l.hostname, text.formatMAC(l.mac), l.isStatic)
  }

  function ToInternal(text: Text, dl: DBLease): Option<Lease> {
    var mac := text.parseMAC(dl.hwAddr);
    if mac.None? then None
    else if dl.isStatic then Some(Lease(dl.ip, ZERO_TIME, dl.hostname, mac.value, true))
    else
      var expiry := text.parseTime(dl.expiry);
      if expiry.None? then None else Some(Lease(dl.ip, expiry.value, dl.hostname, mac.value, false))
  }

  /** What is left of a lease after it has been stored and loaded. */
  function Kept(l: Lease): Lease {
    l.(expiry := if l.isStatic then ZERO_TIME else ReadBack(l.expiry))
  }

  /** A lease with a usable hardware address is read back with the expiry that its
      text keeps, or not at all if the year of the expiry has not four digits. */
  lemma ToInternalToDB(text: Text, l: Lease)
    requires text.Valid() && ValidMAC(l.mac)
    ensures ToInternal(text, ToDBLease(text, l)) == if Storable(l) then Some(Kept(l)) else None
  {}

  // ----- Loading -----

  /** One turn of addDBLeases, which skips what cannot be converted or added. */
  function LoadOne(env: Env, text: Text, s: State, dl: DBLease): State {
    var l := ToInternal(text, dl);
    if l.Some? then Next(env, s, AddLease(l.value)) else s
  }

  /** addDBLeases. */
  function Load(env: Env, text: Text, list: seq<DBLease>): State {
    if list == [] then Empty(env)
    else LoadOne(env, text, Load(env, text, list[..|list| - 1]), list[|list| - 1])
  }

  function IPs(list: seq<DBLease>): set<Addr> {
    set dl | dl in list :: dl.ip
  }

  /** The addresses of the leases in the list that can be read back. */
  function LoadableIPs(text: Text, list: seq<DBLease>): set<Addr> {
    set dl | dl in list && ToInternal(text, dl).Some? :: dl.ip
  }

  /** list holds the stored form of leases of s, no two with the same address. */
  ghost predicate StoredFrom(text: Text, s: State, list: seq<DBLease>) {
    && (forall i :: 0 <= i < |list| ==> list[i].ip in s.byAddr && list[i] == ToDBLease(text, s.byAddr[list[i].ip]))
    && (forall i, j :: 0 <= i < j < |list| ==> list[i].ip != list[j].ip)
  }

  /** list is a listing of all leases of s, in any order. */
  ghost predicate IsListing(text: Text, s: State, list: seq<DBLease>) {
    StoredFrom(text, s, list) && s.byAddr.Keys <= IPs(list)
  }

  /** The leases of m with addresses in ips, as they are after loading. */
  function KeptMap<K>(m: map<K, Lease>, ips: set<Addr>): map<K, Lease> {
    map k | k in m && m[k].ip in ips :: Kept(m[k])
  }

  function KeptMaps(ms: seq<map<MAC, Lease>>, ips: set<Addr>): (r: seq<map<MAC, Lease>>)
    ensures |r| == |ms|
    ensures forall i :: 0 <= i < |ms| ==> r[i] == KeptMap(ms[i], ips)
  {
    seq(|ms|, i requires 0 <= i < |ms| => KeptMap(ms[i], ips))
  }

  /** The index with only the leases that have addresses in ips. */
  function KeptState(s: State, ips: set<Addr>): State {
    State(KeptMap(s.byAddr, ips), KeptMap(s.byName, ips), KeptMaps(s.ifaces, ips))
  }

  lemma KeptMapAdd<K>(m: map<K, Lease>, ips: set<Addr>, k: K)
    requires k in m && m[k].ip !in ips && forall j :: j in m && m[j].ip == m[k].ip ==> j == k
    ensures k !in KeptMap(m, ips)
    ensures KeptMap(m, ips + {m[k].ip}) == KeptMap(m, ips)[k := Kept(m[k])]
  {}

  lemma KeptMapsAdd(env: Env, s: State, ips: set<Addr>, l: Lease)
    requires Inv(env, s) && Filed(env, s, l) && l.ip !in ips
    ensures var i := env.ifaceFor(l.ip).value;
            && l.mac !in KeptMaps(s.ifaces, ips)[i]
            && KeptMaps(s.ifaces, ips + {l.ip}) ==
               KeptMaps(s.ifaces, ips)[i := KeptMaps(s.ifaces, ips)[i][l.mac := Kept(l)]]
  {
    var i := env.ifaceFor(l.ip).value;
    KeptMapAdd(s.ifaces[i], ips, l.mac);
    forall j | 0 <= j < |s.ifaces| && j != i
      ensures KeptMap(s.ifaces[j], ips + {l.ip}) == KeptMap(s.ifaces[j], ips)
    {}
  }

  /** Because the index has no duplicates, every stored lease is added again. */
  lemma AddAgain(env: Env, s: State, ips: set<Addr>, l: Lease)
    requires Inv(env, s) && Filed(env, s, l) && l.ip !in ips
    ensures Add(env, KeptState(s, ips), Kept(l)) == Ok(KeptState(s, ips + {l.ip}))
  {
    KeptMapAdd(s.byAddr, ips, l.ip);
    KeptMapAdd(s.byName, ips, env.lower(l.hostname));
    KeptMapsAdd(env, s, ips, l);
  }

  /** Loading one more lease of a listing. */
  lemma LoadsOne(env: Env, text: Text, s: State, ips: set<Addr>, l: Lease)
    requires Inv(env, s) && text.Valid() && Filed(env, s, l) && l.ip !in ips
    ensures LoadOne(env, text, KeptState(s, ips), ToDBLease(text, l))
         == KeptState(s, if Storable(l) then ips + {l.ip} else ips)
    ensures ToInternal(text, ToDBLease(text, l)).Some? <==> Storable(l)
  {
    ToInternalToDB(text, l);
    if Storable(l) {
      AddAgain(env, s, ips, l);
    }
  }

  lemma LoadsLast(env: Env, text: Text, s: State, list: seq<DBLease>)
    requires Inv(env, s) && text.Valid() && StoredFrom(text, s, list) && list != []
    ensures var front, last := list[..|list| - 1], list[|list| - 1];
            LoadOne(env, text, KeptState(s, LoadableIPs(text, front)), last) == KeptState(s, LoadableIPs(text, list))
  {
    var last := list[|list| - 1];
    assert Filed(env, s, s.byAddr[last.ip]);
    LoadableOfFront(text, list);
    LastIsNew(text, s, list);
    LoadsOne(env, text, s, LoadableIPs(text, list[..|list| - 1]), s.byAddr[last.ip]);
  }

  lemma LastIsNew(text: Text, s: State, list: seq<DBLease>)
    requires StoredFrom(text, s, list) && list != []
    ensures list[|list| - 1].ip !in LoadableIPs(text, list[..|list| - 1])
  {}

  /** After any part of a listing the leases that can be read back are loaded. */
  lemma {:induction false} LoadsPrefix(env: Env, text: Text, s: State, list: seq<DBLease>)
    requires Inv(env, s) && text.Valid() && StoredFrom(text, s, list)
    ensures Load(env, text, list) == KeptState(s, LoadableIPs(text, list))
  {
    if list == [] {
      assert KeptMaps(s.ifaces, {}) == Empty(env).ifaces;
    } else {
      LoadsPrefix(env, text, s, list[..|list| - 1]);
      LoadsLast(env, text, s, list);
    }
  }

  lemma LoadableOfFront(text: Text, list: seq<DBLease>)
    requires list != []
    ensures var front, last := list[..|list| - 1], list[|list| - 1];
            LoadableIPs(text, list) ==
              if ToInternal(text, last).Some? then LoadableIPs(text, front) + {last.ip} else LoadableIPs(text, front)
  {
    assert list == list[..|list| - 1] + [list[|list| - 1]];
  }

  /** The map m after a restart: the same leases under the same keys, except for
      those whose expiry cannot be read back. */
  function Restarted<K>(m: map<K, Lease>): map<K, Lease> {
    map k | k in m && Storable(m[k]) :: Kept(m[k])
  }

  /** The leases of m that have an address in ips are those that can be read back. */
  ghost predicate Picks<K(!new)>(m: map<K, Lease>, ips: set<Addr>) {
    forall k :: k in m ==> (m[k].ip in ips <==> Storable(m[k]))
  }

  /** Storing all leases and loading them in any order rebuilds the same index, with
      the expiries that their text keeps and none for static leases, and without the
      leases whose expiry cannot be read back. */
  lemma ReloadRebuilds(env: Env, text: Text, s: State, list: seq<DBLease>)
    requires Inv(env, s) && text.Valid() && IsListing(text, s, list)
    ensures var t := Load(env, text, list);
            && t.byAddr == Restarted(s.byAddr)
            && t.byName == Restarted(s.byName)
            && |t.ifaces| == |s.ifaces|
            && forall i :: 0 <= i < |s.ifaces| ==> t.ifaces[i] == Restarted(s.ifaces[i])
  {
    LoadsPrefix(env, text, s, list);
    var ips := LoadableIPs(text, list);
    forall l | Filed(env, s, l)
      ensures l.ip in ips <==> Storable(l)
    {
      ListedLoadable(env, text, s, list, l);
    }
    KeptIsRestarted(env, s, ips);
  }

  lemma ListedLoadable(env: Env, text: Text, s: State, list: seq<DBLease>, l: Lease)
    requires text.Valid() && IsListing(text, s, list) && Filed(env, s, l)
    ensures l.ip in LoadableIPs(text, list) <==> Storable(l)
  {
    ToInternalToDB(text, l);
    assert l.ip in IPs(list);
    var dl :| dl in list && dl.ip == l.ip;
    assert dl == ToDBLease(text, l);
  }

  lemma KeptIsRestarted(env: Env, s: State, ips: set<Addr>)
    requires Inv(env, s) && forall l :: Filed(env, s, l) ==> (l.ip in ips <==> Storable(l))
    ensures KeptMap(s.byAddr, ips) == Restarted(s.byAddr)
    ensures KeptMap(s.byName, ips) == Restarted(s.byName)
    ensures forall i :: 0 <= i < |s.ifaces| ==> KeptMaps(s.ifaces, ips)[i] == Restarted(s.ifaces[i])
  {
    FiledPicks(env, s, ips);
    forall i | 0 <= i < |s.ifaces|
      ensures KeptMap(s.ifaces[i], ips) == Restarted(s.ifaces[i])
    {}
  }

  lemma FiledPicks(env: Env, s: State, ips: set<Addr>)
    requires Inv(env, s) && forall l :: Filed(env, s, l) ==> (l.ip in ips <==> Storable(l))
    ensures Picks(s.byAddr, ips) && Picks(s.byName, ips)
    ensures forall i :: 0 <= i < |s.ifaces| ==> Picks(s.ifaces[i], ips)
  {}

  /** A lease is there after a restart if and only if it is static or its expiry has
      a year of four digits in its zone. */
  lemma SurvivesRestartIff(env: Env, text: Text, s: State, list: seq<DBLease>, l: Lease)
    requires Inv(env, s) && text.Valid() && IsListing(text, s, list) && Filed(env, s, l)
    ensures l.ip in Load(env, text, list).byAddr <==> l.isStatic || FourDigits(l.expiry)
    ensures l.isStatic || FourDigits(l.expiry) ==> Load(env, text, list).byAddr[l.ip] == Kept(l)
  {
    ReloadRebuilds(env, text, s, list);
  }

  /** A second restart changes nothing more. */
  lemma KeptIsStable(l: Lease)
    ensures Kept(Kept(l)) == Kept(l) && (Storable(Kept(l)) <==> Storable(l))
  {
    ReadBackTwice(l.expiry);
  }

  /** A lease up to the first second of the year 10000 is lost. */
  lemma LostInYear10000(text: Text, mac: MAC)
    requires text.Valid() && ValidMAC(mac)
    ensures var env := TwoIfaces();
            var l := Lease(FIRST_NET + 2, Time(YEAR_10000 * SECOND, 0), "a", mac, false);
            var s := Next(env, Empty(env), AddLease(l));
            && Inv(env, s) && l.ip in s.byAddr
            && IsListing(text, s, [ToDBLease(text, l)])
            && l.ip !in Load(env, text, [ToDBLease(text, l)]).byAddr
  {
    var env := TwoIfaces();
    var l := Lease(FIRST_NET + 2, Time(YEAR_10000 * SECOND, 0), "a", mac, false);
    var s := Next(env, Empty(env), AddLease(l));
    var list := [ToDBLease(text, l)];
    EmptyInv(env);
    AddKeepsInv(env, Empty(env), l);
    assert list[0] in list && s.byAddr == map[l.ip := l];
    assert IPs(list) == {l.ip};
    SurvivesRestartIff(env, text, s, list, l);
  }

  /** In a zone 19 minutes and 32 seconds east of UTC a lease gains 32 seconds. */
  lemma LongerByZone()
    ensures ReadBack(Time(0, 1172)) == Time(32 * SECOND, 1140)
  {}

  // ----- Storing -----

  function Hostnames(list: seq<DBLease>): (names: seq<string>)
    ensures |names| == |list|
    ensures forall i :: 0 <= i < |list| ==> names[i] == list[i].hostname
  {
    seq(|list|, i requires 0 <= i < |list| => list[i].hostname)
  }

  /** What dbStore has put into the list after the names in done. */
  ghost predicate Listed(env: Env, text: Text, s: State, done: set<string>, list: seq<DBLease>) {
    && done <= s.byName.Keys
    && (forall i :: 0 <= i < |list| ==>
          && env.lower(list[i].hostname) in done
          && list[i] == ToDBLease(text, s.byName[env.lower(list[i].hostname)]))
    && (forall n :: n in done ==> HasName(env, list, n))
  }

  ghost predicate HasName(env: Env, list: seq<DBLease>, n: string) {
    exists i :: 0 <= i < |list| && env.lower(list[i].hostname) == n
  }

  lemma InsertKeepsNames(env: Env, list: seq<DBLease>, x: DBLease, i: nat, n: string)
    requires i <= |list| && (HasName(env, list, n) || env.lower(x.hostname) == n)
    ensures HasName(env, list[..i] + [x] + list[i..], n)
  {
    var after := list[..i] + [x] + list[i..];
    if HasName(env, list, n) {
      var j :| 0 <= j < |list| && env.lower(list[j].hostname) == n;
      assert after[if j < i then j else j + 1] == list[j];
    } else {
      assert after[i] == x;
    }
  }

  lemma InsertListed(env: Env, text: Text, s: State, done: set<string>, list: seq<DBLease>, n: string, i: nat)
    requires Inv(env, s) && Listed(env, text, s, done, list) && n in s.byName && i <= |list|
    ensures Listed(env, text, s, done + {n}, list[..i] + [ToDBLease(text, s.byName[n])] + list[i..])
  {
    var x := ToDBLease(text, s.byName[n]);
    var after := list[..i] + [x] + list[i..];
    assert env.lower(x.hostname) == n;
    forall m | m in done + {n}
      ensures HasName(env, after, m)
    {
      InsertKeepsNames(env, list, x, i, m);
    }
  }

  lemma InsertSorted(text: Text, list: seq<DBLease>, x: DBLease, i: nat)
    requires text.Valid() && Sorted(text.compare, Hostnames(list)) && x.hostname !in Hostnames(list)
    requires IsPosition(text.compare, Hostnames(list), x.hostname, i)
    ensures Sorted(text.compare, Hostnames(list[..i] + [x] + list[i..]))
  {
    var names := Hostnames(list);
    InsertKeepsSorted(text.compare, names, x.hostname, i);
    assert Hostnames(list[..i] + [x] + list[i..]) == names[..i] + [x.hostname] + names[i..];
  }

  lemma NameIsNew(env: Env, text: Text, s: State, done: set<string>, list: seq<DBLease>, n: string)
    requires Inv(env, s) && Listed(env, text, s, done, list) && n in s.byName && n !in done
    ensures s.byName[n].hostname !in Hostnames(list)
  {}

  /** One turn of dbStore. */
  lemma InsertNext(env: Env, text: Text, s: State, left: set<string>, list: seq<DBLease>, n: string, i: nat)
    requires Inv(env, s) && text.Valid() && n in left && left <= s.byName.Keys
    requires Listed(env, text, s, s.byName.Keys - left, list) && Sorted(text.compare, Hostnames(list))
    requires IsPosition(text.compare, Hostnames(list), s.byName[n].hostname, i)
    ensures var after := list[..i] + [ToDBLease(text, s.byName[n])] + list[i..];
            Listed(env, text, s, s.byName.Keys - (left - {n}), after) && Sorted(text.compare, Hostnames(after))
  {
    var done := s.byName.Keys - left;
    NameIsNew(env, text, s, done, list, n);
    InsertSorted(text, list, ToDBLease(text, s.byName[n]), i);
    InsertListed(env, text, s, done, list, n, i);
    assert done + {n} == s.byName.Keys - (left - {n});
  }

  /** A full list is a listing. */
  lemma ListedIsListing(env: Env, text: Text, s: State, list: seq<DBLease>)
    requires Inv(env, s) && text.Valid() && Listed(env, text, s, s.byName.Keys, list)
    requires Sorted(text.compare, Hostnames(list))
    ensures IsListing(text, s, list)
  {
    forall i | 0 <= i < |list|
      ensures list[i].ip in s.byAddr && list[i] == ToDBLease(text, s.byAddr[list[i].ip])
    {
      assert Filed(env, s, s.byName[env.lower(list[i].hostname)]);
    }
    forall i, j | 0 <= i < j < |list|
      ensures list[i].ip != list[j].ip
    {
      SortedDistinct(text.compare, Hostnames(list), i, j);
      assert list[i].hostname != list[j].hostname;
    }
    forall a | a in s.byAddr
      ensures a in IPs(list)
    {
      assert Filed(env, s, s.byAddr[a]);
      assert HasName(env, list, env.lower(s.byAddr[a].hostname));
      var i :| 0 <= i < |list| && env.lower(list[i].hostname) == env.lower(s.byAddr[a].hostname);
      assert list[i] in list && list[i].ip == a;
    }
  }

  /** dbStore: builds the list that is written, in the order of hostnames, from the
      leases in whatever order the map gives them. */
  method BuildList(env: Env, text: Text, byName: map<string, Lease>, ghost s: State) returns (list: seq<DBLease>)
    requires Inv(env, s) && text.Valid() && byName == s.byName
    ensures IsListing(text, s, list)
    ensures Sorted(text.compare, Hostnames(list))
  {
    list := [];
    var left := byName.Keys;
    while left != {}
      invariant left <= s.byName.Keys
      invariant Listed(env, text, s, s.byName.Keys - left, list)
      invariant Sorted(text.compare, Hostnames(list))
      decreases left
    {
      var n :| n in left;
      var lease := ToDBLease(text, byName[n]);
      var i, _ := BinarySearch(text.compare, Hostnames(list), lease.hostname);
      InsertNext(env, text, s, left, list, n, i);
      list := list[..i] + [lease] + list[i..];
      left := left - {n};
    }
    assert s.byName.Keys - left == s.byName.Keys;
    ListedIsListing(env, text, s, list);
  }
}
