/** Validation of the DHCPv4 settings, `internal/dhcpd/config.go`. */
module ServerConfigs {
  import opened Wrappers
  import opened Subnets
  import opened IPRanges

  /** A `netip.Addr`: the invalid zero value, or an address of one family. */
  datatype NetAddr = Invalid | V4(v4: nat) | V6(v6: nat)

  const MAPPED: nat := 0xFFFF_0000_0000

  /** IPv4-mapped IPv6 addresses become IPv4 ones. */
  function Unmap(a: NetAddr): NetAddr {
    if a.V6? && a.v6 >= MAPPED && IsAddr(a.v6 - MAPPED) then V4(a.v6 - MAPPED) else a
  }

  predicate WellFormed(a: NetAddr) {
    a.V4? ==> IsAddr(a.v4)
  }

  datatype ConfError = NotV4 | BadRange(error: RangeError) | GatewayInRange | StartOutside | EndOutside

  function EnsureV4(ip: NetAddr): (r: Result<nat, ConfError>)
    requires WellFormed(ip)
    ensures r.Ok? ==> IsAddr(r.value)
  {
    match Unmap(ip)
    case V4(v) => Ok(v)
    case _ => Err(NotV4)
  }

  /** The number of leading ones of a mask, or 0 when the ones are not all
      leading. */
  function MaskSize(mask: seq<bool>): (n: nat)
    ensures n <= |mask|
  {
    var n := LeadingOnes(mask);
    if forall j :: n <= j < |mask| ==> !mask[j] then n else 0
  }

  function LeadingOnes(mask: seq<bool>): (n: nat)
    ensures n <= |mask|
    ensures forall j :: 0 <= j < n ==> mask[j]
    ensures n < |mask| ==> !mask[n]
  {
    if mask == [] || !mask[0] then 0 else 1 + LeadingOnes(mask[1..])
  }

  /** The ones of the mask are its first n bits. */
  ghost predicate OnesUpTo(mask: seq<bool>, n: nat) {
    n <= |mask| && forall j :: 0 <= j < |mask| ==> (mask[j] <==> j < n)
  }

  /** n ones followed by zeros have the size n. */
  lemma MaskSizeIs(mask: seq<bool>, n: nat)
    requires OnesUpTo(mask, n)
    ensures MaskSize(mask) == n
  {
    LeadingOnesAre(mask, n);
  }

  lemma {:induction false} LeadingOnesAre(mask: seq<bool>, n: nat)
    requires OnesUpTo(mask, n)
    ensures LeadingOnes(mask) == n
  {
    if n > 0 {
      LeadingOnesAre(mask[1..], n - 1);
    }
  }

  /** A one behind a zero makes the size 0. */
  lemma MixedMask(mask: seq<bool>, i: nat, j: nat)
    requires i < j < |mask| && !mask[i] && mask[j]
    ensures MaskSize(mask) == 0
  {}

  lemma {:induction false} OnesToBits(v: nat, n: nat)
    requires v == Pow2(n) - 1
    ensures OnesUpTo(ToBits(v, n), n)
  {
    if n > 0 {
      assert v / 2 == Pow2(n - 1) - 1 && v % 2 == 1;
      OnesToBits(v / 2, n - 1);
    }
  }

  lemma {:induction false} ShiftedToBits(v: nat, n: nat, k: nat, w: nat)
    requires w == v * Pow2(k)
    ensures ToBits(w, n + k) == ToBits(v, n) + seq(k, _ => false)
  {
    if k == 0 {
      assert ToBits(v, n) + [] == ToBits(v, n);
    } else {
      TimesDouble(v, Pow2(k - 1));
      assert w / 2 == v * Pow2(k - 1) && w % 2 == 0;
      ShiftedToBits(v, n, k - 1, w / 2);
      assert seq(k - 1, _ => false) + [false] == seq(k, _ => false);
    }
  }

  /** The mask whose n first bits are ones, of n + k bits, has the size n. */
  lemma PrefixMask(n: nat, k: nat, v: nat, w: nat)
    requires v == Pow2(n) - 1 && w == v * Pow2(k)
    ensures MaskSize(ToBits(w, n + k)) == n
  {
    OnesToBits(v, n);
    ShiftedToBits(v, n, k, w);
    MaskSizeIs(ToBits(w, n + k), n);
  }

  /** 255.255.255.0 has the size 24. */
  lemma ClassCMask()
    ensures MaskSize(ToBits(0xFFFF_FF00, ADDR_BITS)) == 24
  {
    Pow2Step(4, 16);
    Pow2Step(8, 0x100);
    Pow2Step(12, 0x1000);
    Pow2Step(16, 0x1_0000);
    Pow2Step(20, 0x10_0000);
    PrefixMask(24, 8, 0xFF_FFFF, 0xFFFF_FF00);
  }

  lemma Pow2Step(k: nat, p: nat)
    ensures Pow2(k) == p ==> Pow2(k + 4) == 16 * p
    ensures k == 4 ==> Pow2(k) == 16
  {
    assert Pow2(k + 4) == 2 * Pow2(k + 3) && Pow2(k + 3) == 2 * Pow2(k + 2) && Pow2(k + 2) == 2 * Pow2(k + 1);
    assert k == 4 ==> Pow2(1) == 2 && Pow2(2) == 4 && Pow2(3) == 8;
  }

  /** An IPv4 address and its IPv6 form are the same to validation. */
  lemma MappedIsV4(v: nat)
    requires IsAddr(v)
    ensures Unmap(V6(MAPPED + v)) == V4(v) == Unmap(V4(v))
  {}

  /** The settings that validation accepts. */
  ghost predicate Acceptable(gatewayIP: NetAddr, subnetMask: NetAddr, rangeStart: NetAddr, rangeEnd: NetAddr) {
    && Unmap(gatewayIP).V4? && Unmap(subnetMask).V4? && Unmap(rangeStart).V4? && Unmap(rangeEnd).V4?
    && var gateway, mask := Unmap(gatewayIP).v4, Unmap(subnetMask).v4;
       var start, end := Unmap(rangeStart).v4, Unmap(rangeEnd).v4;
       var net := Subnet(gateway, MaskSize(ToBits(mask, ADDR_BITS)));
       && start < end <= start + MAX_RANGE_LEN
       && !(start <= gateway <= end)
       && net.Contains(start) && net.Contains(end)
  }

  class V4ServerConf {
    var gatewayIP: NetAddr
    var subnetMask: NetAddr
    var rangeStart: NetAddr
    var rangeEnd: NetAddr
    var subnet: Subnet
    var broadcastIP: nat
    var ipRange: IPRange

    constructor (gatewayIP: NetAddr, subnetMask: NetAddr, rangeStart: NetAddr, rangeEnd: NetAddr)
      ensures this.gatewayIP == gatewayIP && this.subnetMask == subnetMask
      ensures this.rangeStart == rangeStart && this.rangeEnd == rangeEnd
    {
      this.gatewayIP := gatewayIP;
      this.subnetMask := subnetMask;
      this.rangeStart := rangeStart;
      this.rangeEnd := rangeEnd;
      subnet := Subnet(0, 0);
      broadcastIP := 0;
      ipRange := IPRange(0, 0);
    }

    /** Every address that `find` can produce is fit to be leased: it is in the
        subnet, it is not the gateway, and it does not exceed the broadcast
        address, which is the greatest address of the subnet. */
    ghost predicate Sound()
      reads this
    {
      && subnet.Valid()
      && ipRange.Valid()
      && V4(subnet.addr) == Unmap(gatewayIP)
      && IsBroadcast(subnet, broadcastIP)
      && forall ip: nat :: ipRange.Contains(ip) ==>
           subnet.Contains(ip) && V4(ip) != Unmap(gatewayIP) && ip <= broadcastIP
    }

    method Validate() returns (err: Option<ConfError>)
      requires WellFormed(gatewayIP) && WellFormed(subnetMask) && WellFormed(rangeStart) && WellFormed(rangeEnd)
      modifies this`subnet, this`broadcastIP, this`ipRange
      ensures err.None? <==> Acceptable(gatewayIP, subnetMask, rangeStart, rangeEnd)
      ensures err.None? ==> Sound()
      ensures err.None? ==> V4(ipRange.start) == Unmap(rangeStart) && V4(ipRange.end) == Unmap(rangeEnd)
      ensures err == Some(NotV4) <==>
                !Unmap(gatewayIP).V4? || !Unmap(subnetMask).V4? || !Unmap(rangeStart).V4? || !Unmap(rangeEnd).V4?
    {
      var gateway := EnsureV4(gatewayIP);
      if gateway.Err? {
        return Some(gateway.error);
      }
      var mask := EnsureV4(subnetMask);
      if mask.Err? {
        return Some(mask.error);
      }
      subnet := Subnet(gateway.value, MaskSize(ToBits(mask.value, ADDR_BITS)));
      broadcastIP := BroadcastFromPref(subnet);
      var start := EnsureV4(rangeStart);
      if start.Err? {
        return Some(start.error);
      }
      var end := EnsureV4(rangeEnd);
      if end.Err? {
        return Some(end.error);
      }
      var r := NewIPRange(start.value, end.value);
      if r.Err? {
        return Some(BadRange(r.error));
      }
      ipRange := r.value;
      if ipRange.Contains(gateway.value) {
        return Some(GatewayInRange);
      }
      if !subnet.Contains(start.value) {
        return Some(StartOutside);
      }
      if !subnet.Contains(end.value) {
        return Some(EndOutside);
      }
      forall ip: nat | ipRange.Contains(ip)
        ensures subnet.Contains(ip)
      {
        SubnetConvex(subnet, start.value, ip, end.value);
      }
      return None;
    }
  }
}
