/** Conversions of times and hardware addresses to text and back, and an order of
    names, that meet what `LeaseDBs` asks of those of `internal/dhcpsvc/db.go`. */
module LeaseTexts {
  import opened Wrappers
  import opened Bytes
  import opened SortedMaps
  import opened LeaseIndexes
  import opened LeaseDBs

  function Chars(m: MAC): (s: string)
    ensures |s| == |m| && forall i :: 0 <= i < |m| ==> s[i] == m[i] as int as char
  {
    seq(|m|, i requires 0 <= i < |m| => m[i] as int as char)
  }

  function FromChars(s: string): (r: Option<MAC>)
    ensures r.Some? <==> forall i :: 0 <= i < |s| ==> s[i] as int < 256
    ensures r.Some? ==> |r.value| == |s| && forall i :: 0 <= i < |s| ==> r.value[i] as int == s[i] as int
  {
    if forall i :: 0 <= i < |s| ==> s[i] as int < 256 then
      Some(seq(|s|, i requires 0 <= i < |s| && s[i] as int < 256 => s[i] as int as byte))
    else None
  }

  function Repeat(c: char, n: nat): (s: string)
    ensures |s| == n && forall i :: 0 <= i < n ==> s[i] == c
  {
    seq(n, _ => c)
  }

  function Count(s: string, c: char): nat {
    if s == [] then 0 else (if s[0] == c then 1 else 0) + Count(s[1..], c)
  }

  /** A time as a tally of its local seconds and of the minutes of its offset. */
  function Tally(t: Time): string {
    if !FourDigits(t) then ""
    else Repeat('s', LocalSeconds(t) - YEAR_0) + Repeat('m', WholeMinutes(t.offset) / 60 + 1440)
  }

  function FromTally(s: string): Option<Time> {
    var local, minutes := Count(s, 's') + YEAR_0, Count(s, 'm') - 1440;
    if s == "" || !(-1440 < minutes < 1440) then None
    else Some(Time((local - minutes * 60) * SECOND, minutes * 60))
  }

  lemma {:induction false} CountRepeat(c: char, n: nat, rest: string, d: char)
    ensures Count(Repeat(c, n) + rest, d) == (if c == d then n else 0) + Count(rest, d)
  {
    if n == 0 {
      assert Repeat(c, n) + rest == rest;
    } else {
      CountRepeat(c, n - 1, rest, d);
      assert (Repeat(c, n) + rest)[1..] == Repeat(c, n - 1) + rest;
    }
  }

  lemma TallyReadsBack(t: Time)
    ensures FromTally(Tally(t)) == if FourDigits(t) then Some(ReadBack(t)) else None
  {
    if FourDigits(t) {
      var seconds, minutes := LocalSeconds(t) - YEAR_0, WholeMinutes(t.offset) / 60 + 1440;
      var tail := Repeat('m', minutes);
      assert tail + "" == tail && Tally(t) == Repeat('s', seconds) + tail;
      CountRepeat('s', seconds, tail, 's');
      CountRepeat('s', seconds, tail, 'm');
      CountRepeat('m', minutes, "", 's');
      CountRepeat('m', minutes, "", 'm');
      assert Tally(t)[|Tally(t)| - 1] == 'm';
    }
  }

  /** strings.Compare. */
  function Lexicographic(s: string, t: string): int {
    if s == [] then if t == [] then 0 else -1
    else if t == [] then 1
    else if s[0] != t[0] then if s[0] < t[0] then -1 else 1
    else Lexicographic(s[1..], t[1..])
  }

  lemma {:induction false} LexicographicPair(s: string, t: string)
    ensures Lexicographic(s, t) == 0 <==> s == t
    ensures Lexicographic(s, t) < 0 <==> Lexicographic(t, s) > 0
  {
    if s != [] && t != [] {
      LexicographicPair(s[1..], t[1..]);
      assert s == [s[0]] + s[1..] && t == [t[0]] + t[1..];
    }
  }

  lemma {:induction false} LexicographicTransitive(s: string, t: string, u: string)
    requires Lexicographic(s, t) < 0 && Lexicographic(t, u) < 0
    ensures Lexicographic(s, u) < 0
  {
    if s != [] && t != [] && u != [] && s[0] == t[0] && t[0] == u[0] {
      LexicographicTransitive(s[1..], t[1..], u[1..]);
    }
  }

  /** What is asked of the conversions can be met. */
  lemma TextExists() returns (text: Text)
    ensures text.Valid()
  {
    text := Text(Tally, FromTally, Chars, FromChars, Lexicographic);
    forall s, t
      ensures Lexicographic(s, t) == 0 <==> s == t
      ensures Lexicographic(s, t) < 0 <==> Lexicographic(t, s) > 0
    {
      LexicographicPair(s, t);
    }
    forall s, t, u | Lexicographic(s, t) < 0 && Lexicographic(t, u) < 0
      ensures Lexicographic(s, u) < 0
    {
      LexicographicTransitive(s, t, u);
    }
    forall t: Time
      ensures FromTally(Tally(t)) == if FourDigits(t) then Some(ReadBack(t)) else None
    {
      TallyReadsBack(t);
    }
    forall m: MAC
      ensures text.parseMAC(text.formatMAC(m)) == Some(m)
    {
      assert FromChars(Chars(m)).value == m;
    }
  }
}
