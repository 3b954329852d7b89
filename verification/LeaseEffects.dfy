/** When the operations of the lease index succeed, and which leases are stored after
    them, in terms of the stored leases alone (`internal/dhcpsvc/leaseindex.go`). */
module LeaseEffects {
  import opened Wrappers
  import opened Bytes
  import opened LeaseIndexes

  ghost predicate OnIface(env: Env, l: Lease, i: nat) {
    env.ifaceFor(l.ip) == Some(i)
  }

  /** The lease can be stored at all: an interface serves its address, and its hardware
      address can be a key. */
  ghost predicate CanFile(env: Env, s: State, l: Lease) {
    (exists i :: 0 <= i < |s.ifaces| && OnIface(env, l, i)) && (|l.mac| == 6 || |l.mac| == 8 || |l.mac| == 20)
  }

  ghost predicate SameIface(env: Env, k: Lease, l: Lease) {
    env.ifaceFor(k.ip) == env.ifaceFor(l.ip)
  }

  lemma FiledByAddr(env: Env, s: State, a: Addr)
    requires Inv(env, s) && a in s.byAddr
    ensures Filed(env, s, s.byAddr[a]) && s.byAddr[a].ip == a
  {}

  /** k has the address of l, its name up to case, or its hardware address on the same
      interface. */
  ghost predicate Conflicts(env: Env, k: Lease, l: Lease) {
    k.ip == l.ip || env.lower(k.hostname) == env.lower(l.hostname) || (SameIface(env, k, l) && k.mac == l.mac)
  }

  /** A lease is added if and only if it can be stored and conflicts with no stored
      lease. */
  lemma AddSucceedsIff(env: Env, s: State, l: Lease)
    requires Inv(env, s)
    ensures Add(env, s, l).Ok? <==> CanFile(env, s, l) && forall k :: Filed(env, s, k) ==> !Conflicts(env, k, l)
  {
    var i := env.ifaceFor(l.ip);
    if l.ip in s.byAddr {
      FiledByAddr(env, s, l.ip);
    }
    assert i.Some? && i.value < |s.ifaces| ==> OnIface(env, l, i.value);
  }

  /** After an addition the stored leases are those of before and the new one. */
  lemma AddStores(env: Env, s: State, l: Lease, k: Lease)
    requires Inv(env, s) && Add(env, s, l).Ok?
    ensures Filed(env, Add(env, s, l).value, k) <==> Filed(env, s, k) || k == l
  {}

  /** A lease is updated if and only if its hardware address has a lease on its
      interface, and no lease of another hardware address has its address or name. */
  lemma UpdateSucceedsIff(env: Env, s: State, l: Lease)
    requires Inv(env, s)
    ensures Update(env, s, l).Ok? <==>
              && CanFile(env, s, l)
              && (exists k :: Filed(env, s, k) && k.mac == l.mac && SameIface(env, k, l))
              && (forall k :: Filed(env, s, k) && k.mac != l.mac ==>
                    k.ip != l.ip && env.lower(k.hostname) != env.lower(l.hostname))
  {
    var i := env.ifaceFor(l.ip);
    if l.ip in s.byAddr {
      FiledByAddr(env, s, l.ip);
    }
    assert i.Some? && i.value < |s.ifaces| ==> OnIface(env, l, i.value);
  }

  /** After a proper update the stored leases are those of before, with the new one in
      the place of the one of its hardware address on its interface. */
  lemma UpdateStores(env: Env, s: State, l: Lease, k: Lease)
    requires Inv(env, s) && Update(env, s, l).Ok? && NameOnSameIface(env, s, l)
    ensures Filed(env, Update(env, s, l).value, k) <==>
              k == l || (Filed(env, s, k) && !(k.mac == l.mac && SameIface(env, k, l)))
  {
    var prev := s.ifaces[env.ifaceFor(l.ip).value][l.mac];
    UpdateFiled(env, s, l, k);
    assert Filed(env, s, prev);
    if Filed(env, s, k) && k.mac == l.mac && SameIface(env, k, l) {
      assert k == prev;
    }
    if k != l && Filed(env, Update(env, s, l).value, k) {
      OldEntry(env, s, l, k);
    }
  }

  lemma OldEntry(env: Env, s: State, l: Lease, k: Lease)
    requires Inv(env, s) && Update(env, s, l).Ok? && NameOnSameIface(env, s, l)
    requires k != l && Filed(env, Update(env, s, l).value, k)
    ensures Filed(env, s, k) && !(k.mac == l.mac && SameIface(env, k, l))
  {
    assert k.ip in s.byAddr && s.byAddr[k.ip] == k;
    FiledByAddr(env, s, k.ip);
  }

  /** A lease is removed if and only if its address, its name and its hardware address on
      its interface are in use. */
  lemma RemoveSucceedsIff(env: Env, s: State, l: Lease)
    requires Inv(env, s)
    ensures Remove(env, s, l).Ok? <==>
              && CanFile(env, s, l)
              && (exists k :: Filed(env, s, k) && k.ip == l.ip)
              && (exists k :: Filed(env, s, k) && env.lower(k.hostname) == env.lower(l.hostname))
              && (exists k :: Filed(env, s, k) && k.mac == l.mac && SameIface(env, k, l))
  {
    var i := env.ifaceFor(l.ip);
    if l.ip in s.byAddr {
      FiledByAddr(env, s, l.ip);
    }
    assert i.Some? && i.value < |s.ifaces| ==> OnIface(env, l, i.value);
  }

  /** After the removal of a stored lease the others are stored. */
  lemma RemoveStores(env: Env, s: State, l: Lease, k: Lease)
    requires Inv(env, s) && Filed(env, s, l)
    ensures Remove(env, s, l).Ok?
    ensures Filed(env, Remove(env, s, l).value, k) <==> Filed(env, s, k) && k != l
  {
    RemoveFiled(env, s, l, k);
  }

  /** Removing by address removes the lease of the address. */
  lemma RemoveByAddrStores(env: Env, s: State, l: Lease, k: Lease)
    requires Inv(env, s) && Filed(env, s, l)
    ensures RemoveByAddr(env, s, l.ip).Ok?
    ensures Filed(env, RemoveByAddr(env, s, l.ip).value, k) <==> Filed(env, s, k) && k != l
  {
    RemoveStores(env, s, l, k);
  }

  /** Which error an addition ends with: the interface is looked at first, then the
      address, the name and the hardware address. */
  lemma AddFailsAs(env: Env, s: State, l: Lease, k: Lease)
    requires Inv(env, s) && Filed(env, s, k)
    ensures (forall i :: 0 <= i < |s.ifaces| ==> !OnIface(env, l, i)) ==> Add(env, s, l) == Err(NoIface)
    ensures k.ip == l.ip ==> Add(env, s, l) == Err(DupAddr)
    ensures Add(env, s, l) == Err(DupMAC) ==>
              exists j :: Filed(env, s, j) && j.mac == l.mac && SameIface(env, j, l)
  {
    var i := env.ifaceFor(l.ip);
    assert i.Some? && i.value < |s.ifaces| ==> OnIface(env, l, i.value);
  }
}
