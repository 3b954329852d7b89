/** The new DHCP service as it runs (`internal/dhcpsvc/server.go`, `leaseindex.go` and
    `interface.go`): a lease index, one lease map per interface, and a database that
    is rewritten after every change. */
module DHCPServers {
  import opened Wrappers
  import opened Bytes
  import opened LeaseIndexes
  import opened LeaseDBs

  class NetInterface {
    var leases: map<MAC, Lease>

    constructor ()
      ensures leases == map[]
    {
      leases := map[];
    }

    method Reset()
      modifies this
      ensures leases == map[]
    {
      leases := map[];
    }

    /** The address can be a key, or macToKey panics. */
    method AddLease(l: Lease) returns (err: Option<IndexError>)
      modifies this
      ensures err == if !ValidMAC(l.mac) then Some(InvalidMAC) else if l.mac in old(leases) then Some(DupMAC) else None
      ensures leases == if err.None? then old(leases)[l.mac := l] else old(leases)
    {
      if !ValidMAC(l.mac) {
        return Some(InvalidMAC);
      }
      if l.mac in leases {
        return Some(DupMAC);
      }
      leases := leases[l.mac := l];
      return None;
    }

    method UpdateLease(l: Lease) returns (prev: Result<Lease, IndexError>)
      modifies this
      ensures prev == if !ValidMAC(l.mac) then Err(InvalidMAC)
                      else if l.mac !in old(leases) then Err(NoMAC)
                      else Ok(old(leases)[l.mac])
      ensures leases == if prev.Ok? then old(leases)[l.mac := l] else old(leases)
    {
      if !ValidMAC(l.mac) {
        return Err(InvalidMAC);
      }
      if l.mac !in leases {
        return Err(NoMAC);
      }
      prev := Ok(leases[l.mac]);
      leases := leases[l.mac := l];
    }

    method RemoveLease(l: Lease) returns (err: Option<IndexError>)
      modifies this
      ensures err == if !ValidMAC(l.mac) then Some(InvalidMAC) else if l.mac !in old(leases) then Some(NoMAC) else None
      ensures leases == if err.None? then old(leases) - {l.mac} else old(leases)
    {
      if !ValidMAC(l.mac) {
        return Some(InvalidMAC);
      }
      if l.mac !in leases {
        return Some(NoMAC);
      }
      leases := leases - {l.mac};
      return None;
    }
  }

  datatype ServerError = IndexFailed(error: IndexError) | WriteFailed

  class DHCPServer {
    const env: Env
    const text: Text
    const interfaces: seq<NetInterface>
    var byAddr: map<Addr, Lease>
    var byName: map<string, Lease>

    /** The leases in the database file. */
    var db: seq<DBLease>

    ghost var view: State

    /** The fields represent the abstract state. */
    ghost predicate Base()
      reads this, interfaces
    {
      && env.Valid() && text.Valid()
      && byAddr == view.byAddr && byName == view.byName
      && |interfaces| == |view.ifaces| == env.ifaces
      && (forall i, j :: 0 <= i < j < |interfaces| ==> interfaces[i] != interfaces[j])
      && (forall i :: 0 <= i < |interfaces| ==> interfaces[i].leases == view.ifaces[i])
    }

    ghost predicate Valid()
      reads this, interfaces
    {
      Base() && Inv(env, view)
    }

    constructor (env: Env, text: Text, interfaces: seq<NetInterface>)
      requires env.Valid() && text.Valid() && |interfaces| == env.ifaces
      requires forall i, j :: 0 <= i < j < |interfaces| ==> interfaces[i] != interfaces[j]
      requires forall i :: 0 <= i < |interfaces| ==> interfaces[i].leases == map[]
      ensures Valid() && view == Empty(env)
    {
      this.env, this.text, this.interfaces := env, text, interfaces;
      byAddr, byName, db := map[], map[], [];
      view := Empty(env);
      EmptyInv(env);
    }

    // ----- The index -----

    /** leaseIndex.add. */
    method AddToIndex(l: Lease, i: nat) returns (err: Option<IndexError>)
      requires Base() && i < |interfaces| && env.ifaceFor(l.ip) == Some(i)
      modifies this`byAddr, this`byName, this`view, interfaces
      ensures Base() && view == Next(env, old(view), Op.AddLease(l))
      ensures err == ErrorOf(Add(env, old(view), l))
    {
      var loweredName := env.lower(l.hostname);
      if l.ip in byAddr {
        return Some(DupAddr);
      } else if loweredName in byName {
        return Some(DupName);
      }
      err := interfaces[i].AddLease(l);
      if err.Some? {
        return;
      }
      byAddr := byAddr[l.ip := l];
      byName := byName[loweredName := l];
      view := Next(env, view, Op.AddLease(l));
      return None;
    }

    /** leaseIndex.remove. */
    method RemoveFromIndex(l: Lease, i: nat) returns (err: Option<IndexError>)
      requires Base() && i < |interfaces| && env.ifaceFor(l.ip) == Some(i)
      modifies this`byAddr, this`byName, this`view, interfaces
      ensures Base() && view == Next(env, old(view), Op.RemoveLease(l))
      ensures err == ErrorOf(Remove(env, old(view), l))
    {
      var loweredName := env.lower(l.hostname);
      if l.ip !in byAddr {
        return Some(NoAddr);
      } else if loweredName !in byName {
        return Some(NoName);
      }
      err := interfaces[i].RemoveLease(l);
      if err.Some? {
        return;
      }
      byAddr := byAddr - {l.ip};
      byName := byName - {loweredName};
      view := Next(env, view, Op.RemoveLease(l));
      return None;
    }

    /** leaseIndex.update. */
    method UpdateIndex(l: Lease, i: nat) returns (err: Option<IndexError>)
      requires Base() && i < |interfaces| && env.ifaceFor(l.ip) == Some(i)
      modifies this`byAddr, this`byName, this`view, interfaces
      ensures Base() && view == Next(env, old(view), Op.UpdateLease(l))
      ensures err == ErrorOf(Update(env, old(view), l))
    {
      var loweredName := env.lower(l.hostname);
      if l.ip in byAddr && byAddr[l.ip].mac != l.mac {
        return Some(DupAddr);
      }
      if loweredName in byName && byName[loweredName].mac != l.mac {
        return Some(DupName);
      }
      var prev := interfaces[i].UpdateLease(l);
      if prev.Err? {
        return Some(prev.error);
      }
      byAddr := (byAddr - {prev.value.ip})[l.ip := l];
      byName := (byName - {env.lower(prev.value.hostname)})[loweredName := l];
      view := Next(env, view, Op.UpdateLease(l));
      return None;
    }

    // ----- The server -----

    /** dbStore: rewrites the database, or leaves it when writing fails. */
    method DBStore(writeOK: bool) returns (ok: bool)
      requires Valid()
      modifies this`db
      ensures ok == writeOK
      ensures if ok then IsListing(text, view, db) else db == old(db)
    {
      var list := BuildList(env, text, byName, view);
      if writeOK {
        db := list;
      }
      return writeOK;
    }

    /** err is what an index operation that failed with the given error, or did not
        fail, and the following write of the database lead to. */
    ghost predicate Answered(failed: Option<IndexError>, writeOK: bool, before: seq<DBLease>, err: Option<ServerError>)
      reads this
    {
      if failed.Some? then err == Some(IndexFailed(failed.value)) && db == before
      else if !writeOK then err == Some(WriteFailed) && db == before
      else err == None && IsListing(text, view, db)
    }

    /** The end of each operation: the database is written if the index took the change. */
    method Conclude(failed: Option<IndexError>, writeOK: bool) returns (err: Option<ServerError>)
      requires Valid()
      modifies this`db
      ensures Answered(failed, writeOK, old(db), err)
    {
      if failed.Some? {
        return Some(IndexFailed(failed.value));
      }
      var stored := DBStore(writeOK);
      return if stored then None else Some(WriteFailed);
    }

    method AddLease(l: Lease, writeOK: bool) returns (err: Option<ServerError>)
      requires Valid()
      modifies this`byAddr, this`byName, this`view, this`db, interfaces
      ensures Valid() && view == Next(env, old(view), Op.AddLease(l))
      ensures Answered(ErrorOf(Add(env, old(view), l)), writeOK, old(db), err)
    {
      NextKeepsInv(env, view, Op.AddLease(l));
      var iface := env.ifaceFor(l.ip);
      if iface.None? {
        return Some(IndexFailed(NoIface));
      }
      var failed := AddToIndex(l, iface.value);
      err := Conclude(failed, writeOK);
    }

    method UpdateStaticLease(l: Lease, writeOK: bool) returns (err: Option<ServerError>)
      requires Valid() && Proper(env, view, Op.UpdateLease(l))
      modifies this`byAddr, this`byName, this`view, this`db, interfaces
      ensures Valid() && view == Next(env, old(view), Op.UpdateLease(l))
      ensures Answered(ErrorOf(Update(env, old(view), l)), writeOK, old(db), err)
    {
      NextKeepsInv(env, view, Op.UpdateLease(l));
      var iface := env.ifaceFor(l.ip);
      if iface.None? {
        return Some(IndexFailed(NoIface));
      }
      var failed := UpdateIndex(l, iface.value);
      err := Conclude(failed, writeOK);
    }

    method RemoveLease(l: Lease, writeOK: bool) returns (err: Option<ServerError>)
      requires Valid() && Proper(env, view, Op.RemoveLease(l))
      modifies this`byAddr, this`byName, this`view, this`db, interfaces
      ensures Valid() && view == Next(env, old(view), Op.RemoveLease(l))
      ensures Answered(ErrorOf(Remove(env, old(view), l)), writeOK, old(db), err)
    {
      NextKeepsInv(env, view, Op.RemoveLease(l));
      var iface := env.ifaceFor(l.ip);
      if iface.None? {
        return Some(IndexFailed(NoIface));
      }
      var failed := RemoveFromIndex(l, iface.value);
      err := Conclude(failed, writeOK);
    }

    /** removeLeaseByAddr. */
    method RemoveLeaseByAddr(ip: Addr, writeOK: bool) returns (err: Option<ServerError>)
      requires Valid()
      modifies this`byAddr, this`byName, this`view, this`db, interfaces
      ensures Valid() && view == Next(env, old(view), Op.RemoveAddr(ip))
      ensures Answered(ErrorOf(RemoveByAddr(env, old(view), ip)), writeOK, old(db), err)
    {
      if env.ifaceFor(ip).None? {
        return Some(IndexFailed(NoIface));
      }
      if ip !in byAddr {
        return Some(IndexFailed(NoAddr));
      }
      assert Filed(env, view, byAddr[ip]);
      err := RemoveLease(byAddr[ip], writeOK);
    }

    /** resetLeases. */
    method ResetLeases()
      requires Base()
      modifies this`byAddr, this`byName, this`view, interfaces
      ensures Valid() && view == Empty(env)
    {
      var i := 0;
      while i < |interfaces|
        invariant i <= |interfaces|
        invariant forall j :: 0 <= j < i ==> interfaces[j].leases == map[]
      {
        interfaces[i].Reset();
        i := i + 1;
      }
      byAddr, byName := map[], map[];
      view := Empty(env);
      EmptyInv(env);
    }

    /** dbLoad and addDBLeases: replaces the leases with those of the file. */
    method DBLoad(list: seq<DBLease>)
      requires Base()
      modifies this`byAddr, this`byName, this`view, interfaces
      ensures Valid() && view == Load(env, text, list)
    {
      ResetLeases();
      var k := 0;
      while k < |list|
        invariant k <= |list|
        invariant Valid() && view == Load(env, text, list[..k])
      {
        assert list[..k + 1][..k] == list[..k];
        LoadLease(list[k]);
        k := k + 1;
      }
      assert list[..k] == list;
    }

    method LoadLease(dl: DBLease)
      requires Valid()
      modifies this`byAddr, this`byName, this`view, interfaces
      ensures Valid()
      ensures view == match ToInternal(text, dl)
                      case Some(l) => Next(env, old(view), Op.AddLease(l))
                      case None => old(view)
    {
      var l := ToInternal(text, dl);
      if l.None? {
        return;
      }
      NextKeepsInv(env, view, Op.AddLease(l.value));
      var iface := env.ifaceFor(dl.ip);
      if iface.None? {
        return;
      }
      var err := AddToIndex(l.value, iface.value);
    }

    /** A server that starts from the database another one has just written has the
        other one's leases, up to what the file does not keep. */
    method Restart(file: seq<DBLease>, ghost before: State)
      requires Base() && Inv(env, before) && IsListing(text, before, file)
      modifies this`byAddr, this`byName, this`view, interfaces
      ensures Valid()
      ensures byAddr == Restarted(before.byAddr) && byName == Restarted(before.byName)
      ensures |interfaces| == |before.ifaces|
      ensures forall i :: 0 <= i < |interfaces| ==> interfaces[i].leases == Restarted(before.ifaces[i])
    {
      DBLoad(file);
      ReloadRebuilds(env, text, before, file);
    }
  }

  function ErrorOf(r: Result<State, IndexError>): Option<IndexError> {
    if r.Err? then Some(r.error) else None
  }
}
