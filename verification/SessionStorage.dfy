/** The session storage (`internal/aghuser/sessionstorage.go`): sessions in memory in
    front of a transactional database. */
module SessionStorages {
  import opened Wrappers
  import opened Bytes
  import opened SessionCodecs

  /** The records of the bucket of sessions. */
  type Bucket = map<Token, seq<byte>>

  /** The logins of the known users, with their IDs. */
  type Users = map<Login, nat>

  /** The sessions in memory and the bucket, which is made by the first session. */
  datatype State = State(sessions: map<Token, Session>, bucket: Option<Bucket>)

  function Records(bucket: Option<Bucket>): Bucket {
    if bucket.Some? then bucket.value else map[]
  }

  function Encoded(sessions: map<Token, Session>): Bucket {
    map t | t in sessions :: Encode(sessions[t])
  }

  /** The database has exactly the records of the sessions in memory. */
  ghost predicate Inv(s: State) {
    && Records(s.bucket) == Encoded(s.sessions)
    && forall t :: t in s.sessions ==> s.sessions[t].token == t
  }

  // ----- Loading -----

  /** The record is decodable, unexpired and of a known user. */
  predicate Live(users: Users, now: int, data: seq<byte>) {
    var s := Decode(data);
    s.Some? && now <= s.value.expire && s.value.login in users
  }

  function Loaded(users: Users, t: Token, data: seq<byte>): Session
    requires Decode(data).Some? && Decode(data).value.login in users
  {
    var s := Decode(data).value;
    s.(token := t, userID := users[s.login])
  }

  /** The sessions that a start at the time now finds in the records. */
  function Reloaded(users: Users, now: int, records: Bucket): map<Token, Session> {
    map t | t in records && Live(users, now, records[t]) :: Loaded(users, t, records[t])
  }

  /** The records that are left in the bucket. */
  function Surviving(sessions: map<Token, Session>, records: Bucket): Bucket {
    map t | t in records && t in sessions :: records[t]
  }

  // ----- Operations -----

  datatype Op =
    | New(session: Session, stored: bool)
    | Find(t: Token, now: int, removed: bool)
    | Delete(t: Token, removed: bool)
    | Restart(users: Users, now: int)

  function Step(s: State, op: Op): State {
    match op
    case New(session, stored) =>
      if !stored then s
      else State(s.sessions[session.token := session], Some(Records(s.bucket)[session.token := Encode(session)]))
    case Find(t, now, removed) =>
      if t in s.sessions && now > s.sessions[t].expire then Removed(s, t, removed) else s
    case Delete(t, removed) => Removed(s, t, removed)
    case Restart(users, now) =>
      var sessions := Reloaded(users, now, Records(s.bucket));
      State(sessions, if s.bucket.None? then None else Some(Surviving(sessions, s.bucket.value)))
  }

  /** The state after a removal, if the transaction goes through. */
  function Removed(s: State, t: Token, removed: bool): State {
    if s.bucket.None? || !removed then s else State(s.sessions - {t}, Some(s.bucket.value - {t}))
  }

  /** What an operation does to the session of the token t.  A new session is there
      once it is stored; a deletion, and a search that finds t expired, take it away if
      the database goes along; nothing else but a restart touches it. */
  lemma StepIs(s: State, op: Op, t: Token)
    requires Inv(s) && !op.Restart?
    ensures var before, after := s.sessions, Step(s, op).sessions;
            if op.New? && op.stored && op.session.token == t then t in after && after[t] == op.session
            else if (op.Delete? || (op.Find? && t in before && op.now > before[t].expire))
                    && op.t == t && op.removed then
              t !in after
            else (t in after <==> t in before) && (t in before ==> after[t] == before[t])
  {
    assert t in Records(s.bucket) <==> t in s.sessions;
  }

  lemma RestartKeepsInv(s: State, users: Users, now: int)
    ensures Inv(Step(s, Restart(users, now)))
  {
    var records := Records(s.bucket);
    var sessions := Reloaded(users, now, records);
    forall t | t in sessions
      ensures Encode(sessions[t]) == records[t]
    {
      EncodeDecode(records[t], t, users[Decode(records[t]).value.login]);
    }
  }

  lemma NewKeepsInv(s: State, session: Session, stored: bool)
    requires Inv(s)
    ensures Inv(Step(s, New(session, stored)))
  {}

  lemma RemovedKeepsInv(s: State, t: Token, removed: bool)
    requires Inv(s)
    ensures Inv(Removed(s, t, removed))
  {}

  lemma StepKeepsInv(s: State, op: Op)
    requires Inv(s)
    ensures Inv(Step(s, op))
  {
    match op
    case New(session, stored) => NewKeepsInv(s, session, stored);
    case Find(t, now, removed) => RemovedKeepsInv(s, t, removed);
    case Delete(t, removed) => RemovedKeepsInv(s, t, removed);
    case Restart(users, now) => RestartKeepsInv(s, users, now);
  }

  // ----- What a restart does to a session -----

  /** A session survives a restart if and only if its login fits its length field, its
      user is known, and the time is not after its expiry as kept. */
  lemma RestartKeepsIff(s: State, users: Users, now: int, t: Token)
    requires Inv(s) && t in s.sessions
    ensures t in Step(s, Restart(users, now)).sessions <==>
      var was := s.sessions[t];
      |was.login| <= MAX_LOGIN && now <= KeptExpire(was.expire) && was.login in users
    ensures t in Step(s, Restart(users, now)).sessions ==>
      var was := s.sessions[t];
      Step(s, Restart(users, now)).sessions[t] == Session(t, users[was.login], was.login, KeptExpire(was.expire))
  {
    assert Records(s.bucket)[t] == Encode(s.sessions[t]);
    DecodeEncode(s.sessions[t]);
  }

  /** A second restart at once, with the same users, changes nothing. */
  lemma RestartTwice(s: State, users: Users, now: int)
    ensures Step(Step(s, Restart(users, now)), Restart(users, now)) == Step(s, Restart(users, now))
  {
    ReloadedAgain(users, now, Records(s.bucket));
  }

  lemma ReloadedAgain(users: Users, now: int, records: Bucket)
    ensures var sessions := Reloaded(users, now, records);
            var left := Surviving(sessions, records);
            Reloaded(users, now, left) == sessions && Surviving(sessions, left) == left
  {}

  // ----- Runs -----

  ghost predicate IsRun(states: seq<State>, ops: seq<Op>) {
    && |states| == |ops| + 1
    && Inv(states[0])
    && forall k :: 0 <= k < |ops| ==> Linked(states[k], ops[k], states[k + 1])
  }

  ghost predicate Linked(s: State, op: Op, s': State) {
    s' == Step(s, op)
  }

  /** In every state of every run the database has exactly the encoded sessions. */
  lemma {:induction false} RunKeepsInv(states: seq<State>, ops: seq<Op>, k: nat)
    requires IsRun(states, ops) && k < |states|
    ensures Inv(states[k])
  {
    if k > 0 {
      RunKeepsInv(states, ops, k - 1);
      assert Linked(states[k - 1], ops[k - 1], states[k]);
      StepKeepsInv(states[k - 1], ops[k - 1]);
    }
  }

  /** No session is made with the token from the step i to the step j. */
  ghost predicate NoneMade(ops: seq<Op>, t: Token, i: nat, j: nat) {
    forall k :: i <= k < j && k < |ops| && ops[k].New? ==> ops[k].session.token != t
  }

  /** How a session may change when it is not made anew. */
  ghost predicate NotLonger(before: State, after: State, t: Token) {
    t in after.sessions ==>
      && t in before.sessions
      && after.sessions[t].login == before.sessions[t].login
      && (before.sessions[t].expire >= 0 ==> 0 <= after.sessions[t].expire <= before.sessions[t].expire)
  }

  lemma StepNotLonger(s: State, op: Op, t: Token)
    requires Inv(s) && (op.New? ==> op.session.token != t)
    ensures NotLonger(s, Step(s, op), t)
  {
    if op.Restart? && t in Step(s, op).sessions {
      RestartKeepsIff(s, op.users, op.now, t);
      KeptNotLonger(s.sessions[t].expire);
    }
  }

  /** Through any operations and restarts, a session that is not made anew is not
      revived, keeps its login and is not lengthened, unless it expires before 1970. */
  lemma {:induction false} NeverRevivedOrLengthened(states: seq<State>, ops: seq<Op>, t: Token, i: nat, j: nat)
    requires IsRun(states, ops) && i <= j < |states| && NoneMade(ops, t, i, j)
    ensures NotLonger(states[i], states[j], t)
  {
    if i < j {
      NeverRevivedOrLengthened(states, ops, t, i, j - 1);
      EventNotLonger(states, ops, t, j - 1);
    }
  }

  lemma EventNotLonger(states: seq<State>, ops: seq<Op>, t: Token, k: nat)
    requires IsRun(states, ops) && k < |ops| && (ops[k].New? ==> ops[k].session.token != t)
    ensures NotLonger(states[k], states[k + 1], t)
  {
    RunKeepsInv(states, ops, k);
    assert Linked(states[k], ops[k], states[k + 1]);
    StepNotLonger(states[k], ops[k], t);
  }

  /** A deleted session stays away, from memory and from the database. */
  lemma DeletedStaysGone(states: seq<State>, ops: seq<Op>, t: Token, i: nat, j: nat)
    requires IsRun(states, ops) && i < |ops| && i < j < |states|
    requires ops[i] == Delete(t, true) && NoneMade(ops, t, i + 1, j)
    ensures t !in states[j].sessions && t !in Records(states[j].bucket)
  {
    RunKeepsInv(states, ops, i);
    RunKeepsInv(states, ops, j);
    assert Linked(states[i], ops[i], states[i + 1]);
    assert states[i].bucket.None? ==> states[i].sessions == map[];
    NeverRevivedOrLengthened(states, ops, t, i + 1, j);
  }

  /** A session that expires before 1970 is lengthened by a restart. */
  lemma EarlyExpiryLengthened(users: Users, t: Token)
    requires [] in users
    ensures var s := State(map[t := Session(t, 0, [], -SECOND)], Some(map[t := Encode(Session(t, 0, [], -SECOND))]));
            && Inv(s)
            && t in Step(s, Restart(users, 0)).sessions
            && Step(s, Restart(users, 0)).sessions[t].expire > s.sessions[t].expire
  {
    var session := Session(t, 0, [], -SECOND);
    var s := State(map[t := session], Some(map[t := Encode(session)]));
    assert Encoded(s.sessions) == map[t := Encode(session)];
    RestartKeepsIff(s, users, 0, t);
  }

  /** A session that has not expired, of a known user, whose restart loses it. */
  ghost predicate LostByRestart(session: Session, users: Users, now: int) {
    var s := State(map[session.token := session], Some(map[session.token := Encode(session)]));
    && Inv(s) && now <= session.expire && session.login in users
    && session.token !in Step(s, Restart(users, now)).sessions
  }

  lemma LostIff(session: Session, users: Users, now: int)
    requires now <= session.expire && session.login in users
    ensures LostByRestart(session, users, now) <==> |session.login| > MAX_LOGIN || KeptExpire(session.expire) < now
  {
    var s := State(map[session.token := session], Some(map[session.token := Encode(session)]));
    assert Encoded(s.sessions) == map[session.token := Encode(session)];
    RestartKeepsIff(s, users, now, session.token);
  }

  /** A login of 65536 bytes loses its sessions. */
  lemma LongLoginLost(login: Login, users: Users, t: Token)
    requires |login| == 65536 && login in users
    ensures LostByRestart(Session(t, 0, login, SECOND), users, 0)
  {
    LostIff(Session(t, 0, login, SECOND), users, 0);
  }

  /** An expiry 2^32 seconds after 1970 wraps around and loses the session. */
  lemma LateExpiryLost(users: Users, t: Token)
    requires [] in users
    ensures LostByRestart(Session(t, 0, [], TWO32 * SECOND), users, SECOND)
  {
    LostIff(Session(t, 0, [], TWO32 * SECOND), users, SECOND);
  }

  // ----- The storage -----

  datatype StorageError = NoBucket | Database

  class SessionStorage {
    var sessions: map<Token, Session>
    var bucket: Option<Bucket>
    const ttl: int

    ghost function Now(): State
      reads this
    {
      State(sessions, bucket)
    }

    ghost predicate Valid()
      reads this
    {
      Inv(Now())
    }

    /** An instance before it has loaded the sessions. */
    constructor (bucket: Option<Bucket>, ttl: int)
      ensures sessions == map[] && this.bucket == bucket && this.ttl == ttl
    {
      sessions := map[];
      this.bucket := bucket;
      this.ttl := ttl;
    }

    /** loadSessions and processSessions. */
    method LoadSessions(users: Users, now: int, begins: bool, commits: bool) returns (ok: bool)
      requires sessions == map[]
      modifies this
      ensures ok ==> Valid() && Now() == Step(old(Now()), Restart(users, now))
      ensures !ok ==> bucket == old(bucket)
    {
      if !begins {
        return false;
      }
      if bucket.None? {
        return true;
      }
      RestartKeepsInv(Now(), users, now);
      var invalid := ReadRecords(users, now, bucket.value);
      var left := DeleteAll(bucket.value, invalid);
      if |invalid| == 0 {
        assert left == bucket.value;
        return true;
      }
      if !commits {
        return false;
      }
      bucket := Some(left);
      return true;
    }

    /** The iteration over the bucket with bboltSessionHandler. */
    method ReadRecords(users: Users, now: int, records: Bucket) returns (invalid: seq<Token>)
      requires sessions == map[]
      modifies this`sessions
      ensures sessions == Reloaded(users, now, records)
      ensures forall t :: t in invalid <==> t in records && !Live(users, now, records[t])
    {
      invalid := [];
      var left := records.Keys;
      while left != {}
        invariant left <= records.Keys
        invariant sessions == Reloaded(users, now, records - left)
        invariant forall t :: t in invalid <==> t in records - left && !Live(users, now, records[t])
        decreases left
      {
        var t :| t in left;
        ReloadedStep(users, now, records, left, t);
        var bad := HandleRecord(users, now, t, records[t]);
        invalid := if bad then invalid + [t] else invalid;
        left := left - {t};
      }
      assert records - {} == records;
    }

    /** One call of the handler. */
    method HandleRecord(users: Users, now: int, t: Token, data: seq<byte>) returns (bad: bool)
      modifies this`sessions
      ensures bad <==> !Live(users, now, data)
      ensures sessions == if bad then old(sessions) else old(sessions)[t := Loaded(users, t, data)]
    {
      var s := Decode(data);
      if s.None? {
        return true;
      }
      if now > s.value.expire {
        return true;
      }
      if s.value.login !in users {
        return true;
      }
      sessions := sessions[t := s.value.(token := t, userID := users[s.value.login])];
      return false;
    }

    /** The session that is new for the user at the time now, if it can be stored. */
    method New(login: Login, userID: nat, now: int, token: Token, stored: bool) returns (s: Option<Session>)
      requires Valid()
      modifies this
      ensures s == if stored then Some(Session(token, userID, login, now + ttl)) else None
      ensures Valid() && Now() == Step(old(Now()), Op.New(Session(token, userID, login, now + ttl), stored))
    {
      var session := Session(token, userID, login, now + ttl);
      StepKeepsInv(Now(), Op.New(session, stored));
      if !stored {
        return None;
      }
      var data := BboltEncode(session);
      bucket := Some(Records(bucket)[token := data[..]]);
      sessions := sessions[token := session];
      return Some(session);
    }

    /** The stored session of the token, unless it has expired; an expired one is
        deleted. */
    method FindByToken(t: Token, now: int, removed: bool) returns (s: Option<Session>, err: Option<StorageError>)
      requires Valid()
      modifies this
      ensures Valid() && Now() == Step(old(Now()), Find(t, now, removed))
      ensures s.Some? <==> t in old(sessions) && now <= old(sessions)[t].expire
      ensures s.Some? ==> s.value == old(sessions)[t] && s.value.token == t && err.None?
      ensures err.Some? <==> t in old(sessions) && now > old(sessions)[t].expire && !removed
    {
      if t !in sessions {
        return None, None;
      }
      assert t in Encoded(sessions);
      if now > sessions[t].expire {
        err := DeleteByToken(t, removed);
        return None, err;
      }
      return Some(sessions[t]), None;
    }

    method DeleteByToken(t: Token, removed: bool) returns (err: Option<StorageError>)
      requires Valid()
      modifies this
      ensures Valid() && Now() == Step(old(Now()), Delete(t, removed))
      ensures err == if old(bucket).None? then Some(NoBucket) else if !removed then Some(Database) else None
      ensures err.None? ==> t !in sessions && t !in Records(bucket)
      ensures err.Some? ==> Now() == old(Now())
    {
      StepKeepsInv(Now(), Delete(t, removed));
      if bucket.None? {
        return Some(NoBucket);
      }
      if !removed {
        return Some(Database);
      }
      bucket := Some(bucket.value - {t});
      sessions := sessions - {t};
      return None;
    }
  }

  /** The loop of processSessions that deletes the invalid records. */
  method DeleteAll(records: Bucket, invalid: seq<Token>) returns (left: Bucket)
    ensures left == records - (set t | t in invalid)
  {
    left := records;
    for k := 0 to |invalid|
      invariant left == records - (set t | t in invalid[..k])
    {
      left := left - {invalid[k]};
    }
    assert invalid[..|invalid|] == invalid;
  }

  lemma ReloadedStep(users: Users, now: int, records: Bucket, left: set<Token>, t: Token)
    requires t in left && left <= records.Keys
    ensures var before, after := Reloaded(users, now, records - left), Reloaded(users, now, records - (left - {t}));
            after == if Live(users, now, records[t]) then before[t := Loaded(users, t, records[t])] else before
  {}

}
