/** IPv4 subnets and the broadcast address of `internal/aghnet/net.go`.  An
    address is the number below 2^32 that its four bytes denote, most
    significant bit first. */
module Subnets {
  import opened Bits

  const ADDR_BITS := 32
  const BYTE_BITS := 8

  /** The number v without its k low bits. */
  function Shr(v: nat, k: nat): nat {
    if k == 0 then v else Shr(v / 2, k - 1)
  }

  /** v fits in 32 bits. */
  predicate IsAddr(v: nat) {
    Shr(v, ADDR_BITS) == 0
  }

  datatype Subnet = Subnet(addr: nat, bits: nat) {
    predicate Valid() {
      IsAddr(addr) && bits <= ADDR_BITS
    }

    /** ip has the same first `bits` bits as the subnet's address. */
    predicate Contains(ip: nat) {
      bits <= ADDR_BITS && Shr(ip, ADDR_BITS - bits) == Shr(addr, ADDR_BITS - bits)
    }
  }

  lemma {:induction false} ShrMonotone(x: nat, y: nat, k: nat)
    requires x <= y
    ensures Shr(x, k) <= Shr(y, k)
  {
    if k > 0 {
      ShrMonotone(x / 2, y / 2, k - 1);
    }
  }

  /** A subnet is an interval: it contains everything between two members. */
  lemma SubnetConvex(p: Subnet, lo: nat, ip: nat, hi: nat)
    requires p.Contains(lo) && p.Contains(hi) && lo <= ip <= hi
    ensures p.Contains(ip)
  {
    ShrMonotone(lo, ip, ADDR_BITS - p.bits);
    ShrMonotone(ip, hi, ADDR_BITS - p.bits);
  }

  // ----- Blocks -----

  function Pow2(k: nat): (p: nat)
    ensures p > 0
  {
    if k == 0 then 1 else 2 * Pow2(k - 1)
  }

  /** The block number q of size 2^k contains v. */
  predicate InBlock(k: nat, q: nat, v: nat) {
    q * Pow2(k) <= v < (q + 1) * Pow2(k)
  }

  /** x and y lie in one aligned block of size 2^k. */
  ghost predicate SameBlock(k: nat, x: nat, y: nat) {
    exists q: nat :: InBlock(k, q, x) && InBlock(k, q, y)
  }

  /** The number without its k low bits is the number of its block. */
  lemma {:induction false} ShrIsBlock(v: nat, k: nat)
    ensures InBlock(k, Shr(v, k), v)
  {
    if k > 0 {
      ShrIsBlock(v / 2, k - 1);
      TimesDouble(Shr(v, k), Pow2(k - 1));
      TimesDouble(Shr(v, k) + 1, Pow2(k - 1));
    }
  }

  lemma TimesDouble(q: nat, p: nat)
    ensures q * (2 * p) == 2 * (q * p)
  {}

  /** A number lies in one block only. */
  lemma BlockUnique(k: nat, q: nat, r: nat, v: nat)
    requires InBlock(k, q, v) && InBlock(k, r, v)
    ensures q == r
  {}

  lemma SameBlockIff(k: nat, x: nat, y: nat)
    ensures SameBlock(k, x, y) <==> Shr(x, k) == Shr(y, k)
  {
    ShrIsBlock(x, k);
    ShrIsBlock(y, k);
    if SameBlock(k, x, y) {
      var q: nat :| InBlock(k, q, x) && InBlock(k, q, y);
      BlockUnique(k, q, Shr(x, k), x);
      BlockUnique(k, q, Shr(y, k), y);
    }
  }

  /** A subnet is the block of its address, of the size that its prefix leaves. */
  lemma ContainsIff(p: Subnet, ip: nat)
    requires p.bits <= ADDR_BITS
    ensures p.Contains(ip) <==> SameBlock(ADDR_BITS - p.bits, p.addr, ip)
  {
    SameBlockIff(ADDR_BITS - p.bits, p.addr, ip);
  }

  // ----- Bits and bytes -----

  function Bit(b: bool): nat {
    if b then 1 else 0
  }

  /** The number that a string of bits denotes. */
  function Value(bits: seq<bool>): nat {
    if bits == [] then 0 else 2 * Value(bits[..|bits| - 1]) + Bit(bits[|bits| - 1])
  }

  function ToBits(a: nat, n: nat): (bits: seq<bool>)
    ensures |bits| == n
  {
    if n == 0 then [] else ToBits(a / 2, n - 1) + [a % 2 == 1]
  }

  lemma {:induction false} ValueToBits(a: nat, n: nat)
    requires Shr(a, n) == 0
    ensures Value(ToBits(a, n)) == a
  {
    if n > 0 {
      ValueToBits(a / 2, n - 1);
      assert ToBits(a, n)[..n - 1] == ToBits(a / 2, n - 1);
    }
  }

  /** Without k low bits the first bits are left. */
  lemma {:induction false} ToBitsPrefix(a: nat, n: nat, k: nat)
    requires k <= n
    ensures ToBits(a, n)[..n - k] == ToBits(Shr(a, k), n - k)
  {
    if k == 0 {
      assert ToBits(a, n)[..n] == ToBits(a, n);
    } else {
      ToBitsPrefix(a / 2, n - 1, k - 1);
      assert ToBits(a, n)[..n - 1] == ToBits(a / 2, n - 1);
      assert ToBits(a, n)[..n - k] == ToBits(a / 2, n - 1)[..n - k];
    }
  }

  lemma {:induction false} ToBitsInjective(x: nat, y: nat, n: nat)
    requires Shr(x, n) == 0 && Shr(y, n) == 0
    ensures ToBits(x, n) == ToBits(y, n) <==> x == y
  {
    ValueToBits(x, n);
    ValueToBits(y, n);
  }

  lemma {:induction false} ShrShr(v: nat, j: nat, k: nat)
    ensures Shr(Shr(v, j), k) == Shr(v, j + k)
  {
    if j > 0 {
      ShrShr(v / 2, j - 1, k);
    }
  }

  /** Two numbers of n bits lie in one block of size 2^(n - m) exactly when their first
      m bits agree. */
  lemma SameBlockIffBits(n: nat, m: nat, x: nat, y: nat)
    requires m <= n && Shr(x, n) == 0 && Shr(y, n) == 0
    ensures SameBlock(n - m, x, y) <==> ToBits(x, n)[..m] == ToBits(y, n)[..m]
  {
    SameBlockIff(n - m, x, y);
    FirstBits(x, n, m);
    FirstBits(y, n, m);
    ToBitsInjective(Shr(x, n - m), Shr(y, n - m), m);
  }

  lemma FirstBits(x: nat, n: nat, m: nat)
    requires m <= n && Shr(x, n) == 0
    ensures ToBits(x, n)[..m] == ToBits(Shr(x, n - m), m) && Shr(Shr(x, n - m), m) == 0
  {
    ToBitsPrefix(x, n, n - m);
    ShrShr(x, n - m, m);
  }

  /** The numbers of n bits are those below 2^n. */
  lemma FitsIff(v: nat, n: nat)
    ensures Shr(v, n) == 0 <==> v < Pow2(n)
  {
    ShrIsBlock(v, n);
    if v < Pow2(n) {
      BlockUnique(n, 0, Shr(v, n), v);
    }
  }

  /** A byte, most significant bit first. */
  type Byte = b: seq<bool> | |b| == BYTE_BITS witness ToBits(0, BYTE_BITS)

  /** The byte `1 << s`. */
  function ByteShl(s: nat): Byte {
    OneHot(BYTE_BITS, 7 - s)
  }

  function Flatten(bytes: seq<Byte>): (bits: seq<bool>)
    ensures |bits| == BYTE_BITS * |bytes|
  {
    seq(BYTE_BITS * |bytes|, i requires 0 <= i < BYTE_BITS * |bytes| => bytes[i / BYTE_BITS][i % BYTE_BITS])
  }

  function AsSlice(a: nat): (bytes: seq<Byte>)
    ensures |bytes| == 4 && Flatten(bytes) == ToBits(a, ADDR_BITS)
  {
    var bits := ToBits(a, ADDR_BITS);
    var bytes := [bits[..8], bits[8..16], bits[16..24], bits[24..]];
    assert Flatten(bytes) == bits;
    bytes
  }

  /** `bytes[i / 8] |= 1 << (7 - i % 8)` sets bit i of the address and no other. */
  lemma OrSetsBit(bytes: seq<Byte>, i: nat)
    requires i < BYTE_BITS * |bytes|
    ensures Flatten(bytes[i / 8 := Or(bytes[i / 8], ByteShl(7 - i % 8))]) == Flatten(bytes)[i := true]
  {}

  // ----- The broadcast address -----

  /** All bits from position m on are set. */
  ghost predicate OnesFrom(bits: seq<bool>, m: nat) {
    forall j :: m <= j < |bits| ==> bits[j]
  }

  lemma {:induction false} ShrValue(bits: seq<bool>, m: nat)
    requires m <= |bits|
    ensures Shr(Value(bits), |bits| - m) == Value(bits[..m])
  {
    if m == |bits| {
      assert bits[..m] == bits;
    } else {
      var front := bits[..|bits| - 1];
      ShrValue(front, m);
      assert front[..m] == bits[..m];
    }
  }

  /** Host bits that are all ones make the greatest number with its prefix. */
  lemma {:induction false} OnesAreGreatest(bits: seq<bool>, m: nat, ip: nat)
    requires m <= |bits| && OnesFrom(bits, m)
    requires Shr(ip, |bits| - m) == Value(bits[..m])
    ensures ip <= Value(bits)
  {
    if m == |bits| {
      assert bits[..m] == bits;
    } else {
      var front := bits[..|bits| - 1];
      assert front[..m] == bits[..m];
      OnesAreGreatest(front, m, ip / 2);
    }
  }

  /** bc is the greatest address of the subnet p. */
  ghost predicate IsBroadcast(p: Subnet, bc: nat) {
    p.Contains(bc) && forall ip: nat :: p.Contains(ip) ==> ip <= bc
  }

  lemma OnesAreBroadcast(p: Subnet, bits: seq<bool>)
    requires p.bits <= |bits| == ADDR_BITS && IsAddr(p.addr)
    requires OnesFrom(bits, p.bits) && bits[..p.bits] == ToBits(p.addr, ADDR_BITS)[..p.bits]
    ensures IsBroadcast(p, Value(bits))
  {
    ValueToBits(p.addr, ADDR_BITS);
    ShrValue(ToBits(p.addr, ADDR_BITS), p.bits);
    ShrValue(bits, p.bits);
    forall ip: nat | p.Contains(ip)
      ensures ip <= Value(bits)
    {
      OnesAreGreatest(bits, p.bits, ip);
    }
  }

  /** The bit loop over the byte slice computes the greatest address of p. */
  method BroadcastFromPref(p: Subnet) returns (bc: nat)
    requires p.Valid()
    ensures IsBroadcast(p, bc)
  {
    if p.bits == ADDR_BITS {
      ValueToBits(p.addr, ADDR_BITS);
      OnesAreBroadcast(p, ToBits(p.addr, ADDR_BITS));
      return p.addr;
    }
    var bytes: seq<Byte> := AsSlice(p.addr);
    for i := p.bits to ADDR_BITS
      invariant |bytes| == 4
      invariant Flatten(bytes)[..p.bits] == ToBits(p.addr, ADDR_BITS)[..p.bits]
      invariant forall j :: p.bits <= j < i ==> Flatten(bytes)[j]
    {
      OrSetsBit(bytes, i);
      bytes := bytes[i / 8 := Or(bytes[i / 8], ByteShl(7 - i % 8))];
    }
    OnesAreBroadcast(p, Flatten(bytes));
    return Value(Flatten(bytes));
  }
}
