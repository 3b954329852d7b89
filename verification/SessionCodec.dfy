/** The binary form in which web user sessions are stored (`bboltEncode` and
    `bboltDecode` in `internal/aghuser/sessionstorage.go`). */
module SessionCodecs {
  import opened Wrappers
  import opened Bytes

  type Token = seq<byte>
  type Login = seq<byte>

  /** Instants are nanoseconds since the Unix epoch. */
  const SECOND: int := 1_000_000_000
  const TWO32: nat := 0x1_0000_0000
  const MAX_LOGIN: nat := 65535

  const EXPIRE_LEN: nat := 4
  const NAME_LEN: nat := 2

  datatype Session = Session(token: Token, userID: nat, login: Login, expire: int)

  // ----- Big-endian numbers -----

  function Pow256(w: nat): (p: nat)
    ensures p > 0
  {
    if w == 0 then 1 else 256 * Pow256(w - 1)
  }

  /** The w low bytes of n, the highest first. */
  function PutUint(n: nat, w: nat): (bytes: seq<byte>)
    ensures |bytes| == w
  {
    if w == 0 then [] else PutUint(n / 256, w - 1) + [(n % 256) as byte]
  }

  function Uint(bytes: seq<byte>): nat {
    if bytes == [] then 0 else 256 * Uint(bytes[..|bytes| - 1]) + bytes[|bytes| - 1] as nat
  }

  lemma {:induction false} UintPut(n: nat, w: nat)
    requires n < Pow256(w)
    ensures Uint(PutUint(n, w)) == n
  {
    if w > 0 {
      UintPut(n / 256, w - 1);
      assert PutUint(n, w)[..w - 1] == PutUint(n / 256, w - 1);
    }
  }

  lemma {:induction false} PutUintOf(bytes: seq<byte>)
    ensures Uint(bytes) < Pow256(|bytes|)
    ensures PutUint(Uint(bytes), |bytes|) == bytes
  {
    if bytes != [] {
      var front := bytes[..|bytes| - 1];
      PutUintOf(front);
      assert Uint(bytes) / 256 == Uint(front);
      assert bytes == front + [bytes[|bytes| - 1]];
    }
  }

  // ----- Sessions -----

  /** What is stored of the expiry: uint32 of the Unix time. */
  function Seconds(expire: int): (n: nat)
    ensures n < TWO32
  {
    (expire / SECOND) % TWO32
  }

  /** What is stored of the length of the login: uint16 of it. */
  function NameLength(s: Session): (n: nat)
    ensures n <= MAX_LOGIN
  {
    |s.login| % (MAX_LOGIN + 1)
  }

  function Encode(s: Session): seq<byte> {
    PutUint(Seconds(s.expire), EXPIRE_LEN) + PutUint(NameLength(s), NAME_LEN) + s.login
  }

  /** bboltDecode; the token and the user are filled in by the caller. */
  function Decode(data: seq<byte>): Option<Session> {
    if |data| < EXPIRE_LEN + NAME_LEN then None
    else
      var nameData := data[EXPIRE_LEN + NAME_LEN..];
      if |nameData| != Uint(data[EXPIRE_LEN..EXPIRE_LEN + NAME_LEN]) then None
      else Some(Session([], 0, nameData, Uint(data[..EXPIRE_LEN]) * SECOND))
  }

  /** bboltEncode: fills a buffer field by field. */
  method BboltEncode(s: Session) returns (data: array<byte>)
    ensures fresh(data) && data[..] == Encode(s)
  {
    var expire, nameLen := PutUint(Seconds(s.expire), EXPIRE_LEN), PutUint(NameLength(s), NAME_LEN);
    data := new byte[EXPIRE_LEN + NAME_LEN + |s.login|];
    for i := 0 to EXPIRE_LEN
      invariant forall j :: 0 <= j < i ==> data[j] == expire[j]
    {
      data[i] := expire[i];
    }
    for i := 0 to NAME_LEN
      invariant forall j :: 0 <= j < EXPIRE_LEN ==> data[j] == expire[j]
      invariant forall j :: 0 <= j < i ==> data[EXPIRE_LEN + j] == nameLen[j]
    {
      data[EXPIRE_LEN + i] := nameLen[i];
    }
    for i := 0 to |s.login|
      invariant forall j :: 0 <= j < EXPIRE_LEN ==> data[j] == expire[j]
      invariant forall j :: 0 <= j < NAME_LEN ==> data[EXPIRE_LEN + j] == nameLen[j]
      invariant forall j :: 0 <= j < i ==> data[EXPIRE_LEN + NAME_LEN + j] == s.login[j]
    {
      data[EXPIRE_LEN + NAME_LEN + i] := s.login[i];
    }
  }

  /** What is left of an expiry. */
  function KeptExpire(expire: int): int {
    Seconds(expire) * SECOND
  }

  lemma EncodeParts(s: Session)
    ensures var data := Encode(s);
            && |data| == EXPIRE_LEN + NAME_LEN + |s.login|
            && data[..EXPIRE_LEN] == PutUint(Seconds(s.expire), EXPIRE_LEN)
            && data[EXPIRE_LEN..EXPIRE_LEN + NAME_LEN] == PutUint(NameLength(s), NAME_LEN)
            && data[EXPIRE_LEN + NAME_LEN..] == s.login
  {}

  /** Which byte stands where: the seconds of the expiry, the highest byte first, then
      the length of the login, then the login. */
  lemma EncodedBytes(s: Session)
    ensures var data, seconds, length := Encode(s), (s.expire / SECOND) % TWO32, |s.login| % 65536;
            && |data| == 6 + |s.login|
            && data[0] as int == seconds / 0x100_0000 && data[1] as int == seconds / 0x1_0000 % 256
            && data[2] as int == seconds / 0x100 % 256 && data[3] as int == seconds % 256
            && data[4] as int == length / 256 && data[5] as int == length % 256
            && data[6..] == s.login
  {
    EncodeParts(s);
    FourBytes(Seconds(s.expire));
    TwoBytes(NameLength(s));
  }

  lemma FourBytes(n: nat)
    requires n < TWO32
    ensures PutUint(n, 4) ==
              [(n / 0x100_0000) as byte, (n / 0x1_0000 % 256) as byte, (n / 0x100 % 256) as byte, (n % 256) as byte]
  {
    var a, b, c := n / 256, n / 0x1_0000, n / 0x100_0000;
    assert a / 256 == b && b / 256 == c && c / 256 == 0 && c < 256;
    assert PutUint(c, 1) == [c as byte];
    assert PutUint(b, 2) == [c as byte, (b % 256) as byte];
    assert PutUint(a, 3) == [c as byte, (b % 256) as byte, (a % 256) as byte];
  }

  lemma TwoBytes(n: nat)
    requires n < 65536
    ensures PutUint(n, 2) == [(n / 256) as byte, (n % 256) as byte]
  {
    assert PutUint(n / 256, 1) == [(n / 256) as byte];
  }

  /** Decoding an encoded session: it fails if and only if the login is too long for
      its length field, and otherwise gives the login and the kept expiry. */
  lemma DecodeEncode(s: Session)
    ensures Decode(Encode(s)) ==
      if |s.login| <= MAX_LOGIN then Some(Session([], 0, s.login, KeptExpire(s.expire))) else None
  {
    EncodeParts(s);
    UintPut(Seconds(s.expire), EXPIRE_LEN);
    UintPut(NameLength(s), NAME_LEN);
  }

  /** The round trip is exact if and only if the login fits and the expiry is a whole
      second between 0 and 2^32. */
  lemma RoundTripIff(s: Session)
    ensures Decode(Encode(s)) == Some(Session([], 0, s.login, s.expire)) <==>
      |s.login| <= MAX_LOGIN && s.expire % SECOND == 0 && 0 <= s.expire / SECOND < TWO32
  {
    DecodeEncode(s);
  }

  /** Whatever can be decoded is encoded back to the same bytes. */
  lemma EncodeDecode(data: seq<byte>, token: Token, userID: nat)
    requires Decode(data).Some?
    ensures Encode(Decode(data).value.(token := token, userID := userID)) == data
  {
    var expireData, nameLenData := data[..EXPIRE_LEN], data[EXPIRE_LEN..EXPIRE_LEN + NAME_LEN];
    PutUintOf(expireData);
    PutUintOf(nameLenData);
    assert data == expireData + nameLenData + data[EXPIRE_LEN + NAME_LEN..];
  }

  /** Keeping an expiry does not lengthen the session if and only if it does not
      expire before 1970; keeping it again changes nothing. */
  lemma KeptNotLonger(expire: int)
    ensures KeptExpire(expire) <= expire <==> expire >= 0
    ensures KeptExpire(KeptExpire(expire)) == KeptExpire(expire)
  {}
}
