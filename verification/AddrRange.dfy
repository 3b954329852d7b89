/** The address ranges of the new DHCP service (`internal/dhcpsvc/iprange.go`), over
    addresses of both families as `net/netip` has them. */
module AddrRanges {
  import opened Wrappers

  const TWO32: nat := 0x1_0000_0000
  const TWO64: nat := 0x1_0000_0000_0000_0000
  const TWO128: nat := 0x1_0000_0000_0000_0000_0000_0000_0000_0000

  /** maxRangeLen. */
  const MAX_RANGE_LEN: nat := 0xFFFF_FFFF

  predicate StringLess(s: string, t: string) {
    t != [] && (s == [] || s[0] < t[0] || (s[0] == t[0] && StringLess(s[1..], t[1..])))
  }

  /** A netip.Addr.  The zero Addr is Zero(0), which belongs to no family; going on
      from it leads to the other Zeros. */
  datatype Addr = Zero(n: nat) | V4(n: nat) | V6(n: nat, zone: string) {
    function Size(): nat {
      if V4? then TWO32 else TWO128
    }

    /** What a caller can make. */
    predicate Made() {
      n < Size() && (Zero? ==> n == 0)
    }

    function BitLen(): nat {
      match this
      case Zero(_) => 0
      case V4(_) => 32
      case V6(_, _) => 128
    }

    predicate Less(other: Addr) {
      if BitLen() != other.BitLen() then BitLen() < other.BitLen()
      else if n != other.n then n < other.n
      else V6? && StringLess(zone, other.zone)
    }

    /** The next address, or the zero Addr after the last one. */
    function Next(): Addr {
      if n + 1 < Size() then this.(n := n + 1) else Zero(0)
    }

    /** The last address of the family, in the same zone. */
    function Top(): Addr {
      this.(n := if V4? then TWO32 - 1 else TWO128 - 1)
    }

    /** The low half of the 16-byte form, in which an IPv4 address is mapped. */
    function Low(): nat {
      if V4? then 0xFFFF_0000_0000 + n else n % TWO64
    }

    /** a is this address or one that follows it in its family and zone. */
    predicate Precedes(a: Addr) {
      n <= a.n < Size() && a == this.(n := a.n)
    }
  }

  datatype RangeError = Families | NotBefore | TooLarge

  datatype AddrRange = AddrRange(start: Addr, end: Addr) {
    predicate Contains(ip: Addr) {
      start.V4? == ip.V4? && !ip.Less(start) && !end.Less(ip)
    }

    /** The offset, computed on the low halves with 64-bit wrap-around. */
    function Offset(ip: Addr): Option<nat> {
      if Contains(ip) then Some((ip.Low() - start.Low()) % TWO64) else None
    }

    /** An address that find can come to before it leaves the range. */
    predicate Within(a: Addr) {
      start.Precedes(a) && !end.Less(a)
    }

    /** When find stops: the address space does not end at the range's end, or some
        address in the range satisfies p, or one without a family does, which the
        search goes on to after the last address. */
    ghost predicate Stops(p: Addr -> bool) {
      || end.Less(start.Top())
      || (exists a :: Within(a) && p(a))
      || (exists m: nat :: m < TWO128 && p(Zero(m)))
    }

    /** Returns the least address of the range, in the zone of its start, that
        satisfies p. */
    method Find(p: Addr -> bool) returns (ip: Addr)
      requires start.Made() && end.Made() && start.Less(end) && Stops(p)
      ensures (exists a :: Within(a) && p(a)) ==>
                Within(ip) && p(ip) && forall a :: Within(a) && a.n < ip.n ==> !p(a)
      ensures !(exists a :: Within(a) && p(a)) && end.Less(start.Top()) ==> ip == Zero(0)
      ensures !(exists a :: Within(a) && p(a)) && !end.Less(start.Top()) ==>
                ip.Zero? && p(ip) && forall m: nat :: m < ip.n ==> !p(Zero(m))
    {
      ip := start;
      ghost var wrapped := false;
      while !end.Less(ip)
        invariant !wrapped ==> start.Precedes(ip)
        invariant !wrapped ==> forall a :: start.Precedes(a) && a.n < ip.n ==> !end.Less(a) && !p(a)
        invariant wrapped ==> ip.Zero? && ip.n < TWO128 && !end.Less(start.Top())
        invariant wrapped ==> forall a :: Within(a) ==> !p(a)
        invariant wrapped ==> forall m: nat :: m < ip.n ==> !p(Zero(m))
        decreases !wrapped, ip.Size() - ip.n
      {
        if p(ip) {
          return;
        }
        if ip.n + 1 == ip.Size() {
          assert !wrapped ==> ip == start.Top();
          wrapped := true;
        }
        ip := ip.Next();
      }
      return Zero(0);
    }
  }

  function NewRange(start: Addr, end: Addr): Result<AddrRange, RangeError> {
    if start.V4? != end.V4? then Err(Families)
    else if !start.Less(end) then Err(NotBefore)
    else if !(0 <= end.n - start.n < TWO64) || end.n - start.n > MAX_RANGE_LEN then Err(TooLarge)
    else Ok(AddrRange(start, end))
  }

  /** Two IPv4 addresses, or two IPv6 addresses, make a range if and only if the first
      is before the second by at most 2^32 - 1; addresses of both families make none. */
  lemma NewRangeIff(m: nat, n: nat, zone: string)
    ensures NewRange(V4(m), V4(n)).Ok? <==> m < n <= m + 0xFFFF_FFFF
    ensures NewRange(V6(m, zone), V6(n, zone)).Ok? <==> m < n <= m + 0xFFFF_FFFF
    ensures NewRange(V4(m), V6(n, zone)) == NewRange(V6(m, zone), V4(n)) == Err(Families)
  {
    NotLessItself(zone);
  }

  lemma {:induction false} NotLessItself(s: string)
    ensures !StringLess(s, s)
  {
    if s != [] {
      NotLessItself(s[1..]);
    }
  }

  /** In every accepted range the offset on 64-bit halves is the 128-bit distance
      from the start, and fits 32 bits. */
  lemma OffsetIsDistance(start: Addr, end: Addr, ip: Addr)
    requires start.Made() && end.Made() && ip.Made()
    requires NewRange(start, end).Ok? && NewRange(start, end).value.Contains(ip)
    ensures start.n <= ip.n
    ensures NewRange(start, end).value.Offset(ip) == Some(ip.n - start.n)
    ensures ip.n - start.n < TWO32
  {
    assert start.n <= ip.n <= end.n;
    var d := ip.n - start.n;
    assert d < TWO64;
    if !start.V4? {
      var q, q' := start.n / TWO64, ip.n / TWO64;
      assert start.n == q * TWO64 + start.Low() && ip.n == q' * TWO64 + ip.Low();
      assert ip.Low() - start.Low() == d - (q' - q) * TWO64;
      assert q' == q || q' == q + 1;
    }
  }

  /** Two addresses of an accepted range have one offset exactly when they are one
      number; within a family and a zone they are then the same address. */
  lemma OffsetInjective(start: Addr, end: Addr, a: Addr, b: Addr)
    requires start.Made() && end.Made() && a.Made() && b.Made()
    requires NewRange(start, end).Ok?
    requires NewRange(start, end).value.Contains(a) && NewRange(start, end).value.Contains(b)
    ensures NewRange(start, end).value.Offset(a) == NewRange(start, end).value.Offset(b) <==> a.n == b.n
    ensures a.n == b.n && a.BitLen() == b.BitLen() && (a.V6? ==> a.zone == b.zone) ==> a == b
  {
    OffsetIsDistance(start, end, a);
    OffsetIsDistance(start, end, b);
  }

  /** Zones are not told apart: two addresses of one range can share an offset. */
  lemma ZonesShareOffset()
    ensures var r := NewRange(V6(1, ""), V6(9, ""));
            r.Ok? && r.value.Contains(V6(2, "")) && r.value.Contains(V6(2, "eth0"))
            && r.value.Offset(V6(2, "")) == r.value.Offset(V6(2, "eth0"))
  {}

  // ----- Termination of find -----

  /** The address after k turns of the loop. */
  function After(a: Addr, k: nat): Addr {
    if k == 0 then a else After(a, k - 1).Next()
  }

  lemma {:induction false} AfterInFamily(a: Addr, k: nat)
    requires a.n + k < a.Size()
    ensures After(a, k) == a.(n := a.n + k)
  {
    if k > 0 {
      AfterInFamily(a, k - 1);
    }
  }

  lemma {:induction false} AfterWrapped(a: Addr, m: nat)
    requires a.n < a.Size() && m < TWO128
    ensures After(a, a.Size() - a.n + m) == Zero(m)
  {
    if m == 0 {
      AfterInFamily(a, a.Size() - a.n - 1);
    } else {
      AfterWrapped(a, m - 1);
    }
  }

  lemma {:induction false} AfterIsPassed(r: AddrRange, k: nat)
    requires r.start.Made() && r.end.Made() && r.start.Less(r.end) && !r.end.Less(r.start.Top())
    ensures r.Within(After(r.start, k)) || (After(r.start, k).Zero? && After(r.start, k).n < TWO128)
  {
    if k > 0 {
      AfterIsPassed(r, k - 1);
      var b := After(r.start, k - 1);
      if r.Within(b) && b.n + 1 < b.Size() {
        assert !r.end.Less(b.Next()) || r.end.Less(r.start.Top());
      }
    }
  }

  /** The loop leaves at turn k: by its guard or because p is met. */
  predicate LeavesAt(r: AddrRange, p: Addr -> bool, k: nat) {
    r.end.Less(After(r.start, k)) || p(After(r.start, k))
  }

  /** The search ends if and only if the condition that Find asks for holds. */
  lemma FindEndsIff(r: AddrRange, p: Addr -> bool)
    requires r.start.Made() && r.end.Made() && r.start.Less(r.end)
    ensures r.Stops(p) <==> exists k: nat :: LeavesAt(r, p, k)
  {
    if r.Stops(p) {
      var top := r.start.Top();
      AfterInFamily(r.start, top.n - r.start.n);
      if r.end.Less(top) {
        assert LeavesAt(r, p, top.n - r.start.n);
      } else if a :| r.Within(a) && p(a) {
        AfterInFamily(r.start, a.n - r.start.n);
        assert LeavesAt(r, p, a.n - r.start.n);
      } else {
        var m: nat :| m < TWO128 && p(Zero(m));
        AfterWrapped(r.start, m);
        assert LeavesAt(r, p, r.start.Size() - r.start.n + m);
      }
    } else {
      forall k: nat
        ensures !LeavesAt(r, p, k)
      {
        AfterIsPassed(r, k);
      }
    }
  }

  /** A range up to the last IPv4 address is accepted, and searching it in vain does
      not end. */
  lemma LastAddressNeverEnds(p: Addr -> bool, k: nat)
    requires forall a :: !p(a)
    ensures NewRange(V4(TWO32 - 256), V4(TWO32 - 1)).Ok?
    ensures !LeavesAt(NewRange(V4(TWO32 - 256), V4(TWO32 - 1)).value, p, k)
  {
    var r := NewRange(V4(TWO32 - 256), V4(TWO32 - 1)).value;
    assert !r.Stops(p);
    FindEndsIff(r, p);
  }
}
