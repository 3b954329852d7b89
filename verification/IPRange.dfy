/** The inclusive address ranges of `internal/dhcpd/iprange.go`.  Addresses are
    the natural numbers their 16-byte forms denote. */
module IPRanges {
  import opened Wrappers

  const MAX_RANGE_LEN: nat := 0xFFFF_FFFF

  datatype RangeError = StartNotBeforeEnd | TooLarge

  datatype IPRange = IPRange(start: nat, end: nat) {
    predicate Contains(ip: nat) {
      start <= ip <= end
    }

    /** The offset of ip from the start, or 0 and false when out of the range. */
    function Offset(ip: nat): (nat, bool) {
      if Contains(ip) then (ip - start, true) else (0, false)
    }

    /** What construction has checked. */
    predicate Valid() {
      start < end && end - start <= MAX_RANGE_LEN
    }

    /** Returns the least address of the range that satisfies p, if any. */
    method Find(p: nat -> bool) returns (ip: Option<nat>)
      ensures ip.Some? ==> Contains(ip.value) && p(ip.value)
      ensures forall a: nat :: Contains(a) && (ip.Some? ==> a < ip.value) ==> !p(a)
    {
      var i := start;
      while i <= end
        invariant start <= i
        invariant forall a: nat :: start <= a < i ==> !p(a)
      {
        if p(i) {
          return Some(i);
        }
        i := i + 1;
      }
      return None;
    }
  }

  function NewIPRange(start: nat, end: nat): (r: Result<IPRange, RangeError>)
    ensures r.Ok? <==> start < end <= start + MAX_RANGE_LEN
    ensures r.Ok? ==> r.value.Valid() && forall ip: nat :: r.value.Contains(ip) <==> start <= ip <= end
  {
    if end <= start then Err(StartNotBeforeEnd)
    else if end - start > MAX_RANGE_LEN then Err(TooLarge)
    else Ok(IPRange(start, end))
  }
}
