/** Splitting a line of an upstream configuration (`splitConfigLine` in
    `internal/control/routes.go`) and what the line asks for. */
module ConfigLines {
  import opened Wrappers

  /** netutil.ValidateDomainName, strings.ToLower, unicode.IsSpace and whether
      upstream.AddressToUpstream accepts an address. */
  datatype Env = Env(validName: string -> bool, lower: string -> string, isSpace: char -> bool, makes: string -> bool)

  const UNQUALIFIED_NAMES := "unqualified_names"

  datatype Split = Wrong | Parts(upstreams: seq<string>, domains: seq<string>)

  predicate HasPrefix(s: string, prefix: string) {
    |prefix| <= |s| && s[..|prefix|] == prefix
  }

  /** What is left of s without the prefix "*.". */
  function TrimWildcard(s: string): string {
    if HasPrefix(s, "*.") then s[2..] else s
  }

  /** The parts before and after the first "/]", as strings.Cut. */
  function Cut(s: string): Option<(string, string)> {
    if s == [] then None
    else if HasPrefix(s, "/]") then Some(("", s[2..]))
    else
      var rest := Cut(s[1..]);
      if rest.None? then None else Some(([s[0]] + rest.value.0, rest.value.1))
  }

  /** The parts between slashes, as strings.Split. */
  function SplitSlash(s: string): (parts: seq<string>)
    ensures parts != []
  {
    if s == [] then [""]
    else
      var rest := SplitSlash(s[1..]);
      if s[0] == '/' then [""] + rest else [[s[0]] + rest[0]] + rest[1..]
  }

  predicate Blank(isSpace: char -> bool, s: string) {
    forall i :: 0 <= i < |s| ==> isSpace(s[i])
  }

  /** The longest parts without spaces, as strings.Fields. */
  function Fields(isSpace: char -> bool, s: string): (fields: seq<string>)
    ensures fields == [] <==> Blank(isSpace, s)
    ensures forall f :: f in fields ==> f != [] && forall i :: 0 <= i < |f| ==> !isSpace(f[i])
  {
    if s == [] then []
    else
      var rest := Fields(isSpace, s[1..]);
      assert forall i :: 1 <= i < |s| ==> s[i] == s[1..][i - 1];
      if isSpace(s[0]) then rest
      else if |s| == 1 || isSpace(s[1]) then [[s[0]]] + rest
      else [[s[0]] + rest[0]] + rest[1..]
  }

  predicate GoodHost(env: Env, host: string) {
    host == "" || env.validName(TrimWildcard(host))
  }

  function Domain(env: Env, host: string): string {
    if host == "" then UNQUALIFIED_NAMES else env.lower(host + ".")
  }

  function Domains(env: Env, hosts: seq<string>): (domains: seq<string>)
    ensures |domains| == |hosts| && forall i :: 0 <= i < |hosts| ==> domains[i] == Domain(env, hosts[i])
  {
    seq(|hosts|, i requires 0 <= i < |hosts| => Domain(env, hosts[i]))
  }

  function SplitLine(env: Env, line: string): Split {
    if !HasPrefix(line, "[/") then Parts([line], [])
    else
      var cut := Cut(line[2..]);
      if cut.None? || cut.value.1 == "" then Wrong
      else
        var hosts := SplitSlash(cut.value.0);
        if exists i :: 0 <= i < |hosts| && !GoodHost(env, hosts[i]) then Wrong
        else Parts(Fields(env.isSpace, cut.value.1), Domains(env, hosts))
  }

  /** splitConfigLine. */
  method SplitConfigLine(env: Env, line: string) returns (r: Split)
    ensures r == SplitLine(env, line)
  {
    if !HasPrefix(line, "[/") {
      return Parts([line], []);
    }
    var cut := Cut(line[2..]);
    if cut.None? || cut.value.1 == "" {
      return Wrong;
    }
    var hosts := SplitSlash(cut.value.0);
    var domains: seq<string> := [];
    for k := 0 to |hosts|
      invariant forall i :: 0 <= i < k ==> GoodHost(env, hosts[i])
      invariant |domains| == k && forall i :: 0 <= i < k ==> domains[i] == Domain(env, hosts[i])
    {
      if hosts[k] == "" {
        domains := domains + [UNQUALIFIED_NAMES];
        continue;
      }
      if !env.validName(TrimWildcard(hosts[k])) {
        assert !GoodHost(env, hosts[k]);
        return Wrong;
      }
      domains := domains + [env.lower(hosts[k] + ".")];
    }
    assert domains == Domains(env, hosts);
    return Parts(Fields(env.isSpace, cut.value.1), domains);
  }

  // ----- Lines as documented -----

  /** The hosts with slashes between them. */
  function JoinSlash(hosts: seq<string>): string
    requires hosts != []
  {
    if |hosts| == 1 then hosts[0] else hosts[0] + ("/" + JoinSlash(hosts[1..]))
  }

  /** Hosts that can be listed: none has a slash in it, and none but the first closes
      the list. */
  predicate Listable(hosts: seq<string>) {
    && hosts != []
    && (forall i :: 0 <= i < |hosts| ==> '/' !in hosts[i])
    && (forall i :: 0 < i < |hosts| ==> !HasPrefix(hosts[i], "]"))
  }

  lemma {:induction false} CutSkips(host: string, rest: string)
    requires '/' !in host
    ensures Cut(host + rest) == if Cut(rest).None? then None else Some((host + Cut(rest).value.0, Cut(rest).value.1))
  {
    if host == [] {
      assert host + rest == rest;
      if Cut(rest).Some? {
        assert host + Cut(rest).value.0 == Cut(rest).value.0;
      }
    } else {
      CutSkips(host[1..], rest);
      assert (host + rest)[1..] == host[1..] + rest && (host + rest)[0] == host[0];
      assert host[0] in host;
      assert [host[0]] + host[1..] == host;
      if Cut(rest).Some? {
        assert [host[0]] + (host[1..] + Cut(rest).value.0) == host + Cut(rest).value.0;
      }
    }
  }

  lemma CutOne(host: string, rest: string)
    requires '/' !in host
    ensures Cut(host + ("/]" + rest)) == Some((host, rest))
  {
    CutSkips(host, "/]" + rest);
    assert ("/]" + rest)[2..] == rest;
    assert host + "" == host;
  }

  /** A slash between two hosts does not end the list. */
  lemma CutMore(host: string, tail: string, rest: string)
    requires '/' !in host && !HasPrefix(tail, "]")
    requires Cut(tail + ("/]" + rest)) == Some((tail, rest))
    ensures Cut(host + ("/" + (tail + ("/]" + rest)))) == Some((host + ("/" + tail), rest))
  {
    var after := tail + ("/]" + rest);
    var slashed := "/" + after;
    assert slashed[1..] == after;
    assert slashed[1] == if tail == [] then '/' else tail[0];
    assert tail != [] ==> tail[..1] == [tail[0]];
    assert slashed[..2][1] == slashed[1];
    CutSkips(host, slashed);
  }

  /** The list of hosts ends where it was written to end. */
  lemma {:induction false} CutJoined(hosts: seq<string>, rest: string)
    requires Listable(hosts)
    ensures Cut(JoinSlash(hosts) + ("/]" + rest)) == Some((JoinSlash(hosts), rest))
  {
    if |hosts| == 1 {
      CutOne(hosts[0], rest);
    } else {
      var tail := JoinSlash(hosts[1..]);
      CutJoined(hosts[1..], rest);
      JoinedNotClosing(hosts[1..]);
      CutMore(hosts[0], tail, rest);
      Regroup(hosts[0], "/", tail, "/]" + rest);
    }
  }

  lemma Regroup(a: string, b: string, c: string, d: string)
    ensures (a + (b + c)) + d == a + (b + (c + d))
  {}

  lemma JoinedNotClosing(hosts: seq<string>)
    requires hosts != [] && !HasPrefix(hosts[0], "]")
    ensures !HasPrefix(JoinSlash(hosts), "]")
  {
    var joined := JoinSlash(hosts);
    if joined != [] {
      assert joined[0] == if hosts[0] == [] then '/' else hosts[0][0];
      assert joined[..1] == [joined[0]] && (hosts[0] != [] ==> hosts[0][..1] == [hosts[0][0]]);
    }
  }

  lemma {:induction false} SplitSkips(host: string, rest: string)
    requires '/' !in host
    ensures SplitSlash(host + rest) == [host + SplitSlash(rest)[0]] + SplitSlash(rest)[1..]
  {
    if host == [] {
      assert host + rest == rest && host + SplitSlash(rest)[0] == SplitSlash(rest)[0];
    } else {
      SplitSkips(host[1..], rest);
      assert (host + rest)[1..] == host[1..] + rest && (host + rest)[0] == host[0];
      assert host[0] in host;
      assert [host[0]] + (host[1..] + SplitSlash(rest)[0]) == host + SplitSlash(rest)[0];
    }
  }

  lemma {:induction false} SplitJoined(hosts: seq<string>)
    requires Listable(hosts)
    ensures SplitSlash(JoinSlash(hosts)) == hosts
  {
    if |hosts| == 1 {
      SplitSkips(hosts[0], "");
      assert hosts[0] + "" == hosts[0];
      assert SplitSlash("") == [""];
    } else {
      var tail := JoinSlash(hosts[1..]);
      SplitJoined(hosts[1..]);
      SplitSkips(hosts[0], "/" + tail);
      assert ("/" + tail)[1..] == tail;
      assert JoinSlash(hosts) == hosts[0] + ("/" + tail);
      assert SplitSlash("/" + tail) == [""] + hosts[1..];
      assert hosts[0] + "" == hosts[0];
    }
  }

  /** A line in the documented form. */
  function Line(hosts: seq<string>, ups: string): string
    requires hosts != []
  {
    "[/" + (JoinSlash(hosts) + ("/]" + ups))
  }

  /** The line is written in the documented form, with hosts that are valid. */
  ghost predicate IsLine(env: Env, line: string, hosts: seq<string>, ups: string) {
    && Listable(hosts) && ups != "" && line == Line(hosts, ups)
    && forall i :: 0 <= i < |hosts| ==> GoodHost(env, hosts[i])
  }

  /** A line written in the documented form is read back as the hosts and the
      upstreams it was written from. */
  lemma LineReadsBack(env: Env, line: string, hosts: seq<string>, ups: string)
    requires IsLine(env, line, hosts, ups)
    ensures HasPrefix(line, "[/") && SplitLine(env, line) == Parts(Fields(env.isSpace, ups), Domains(env, hosts))
  {
    CutJoined(hosts, ups);
    SplitJoined(hosts);
  }

  lemma {:induction false} CutInverse(s: string)
    requires Cut(s).Some?
    ensures s == Cut(s).value.0 + ("/]" + Cut(s).value.1)
  {
    if HasPrefix(s, "/]") {
      assert s == s[..2] + s[2..];
    } else {
      CutInverse(s[1..]);
      var a := Cut(s[1..]).value.0;
      assert [s[0]] + (a + ("/]" + Cut(s[1..]).value.1)) == ([s[0]] + a) + ("/]" + Cut(s[1..]).value.1);
    }
  }

  lemma {:induction false} JoinSplit(s: string)
    ensures JoinSlash(SplitSlash(s)) == s
    ensures forall i :: 0 <= i < |SplitSlash(s)| ==> '/' !in SplitSlash(s)[i]
  {
    if s != [] {
      JoinSplit(s[1..]);
      var rest := SplitSlash(s[1..]);
      var parts := SplitSlash(s);
      if s[0] == '/' {
        assert parts[1..] == rest;
      } else {
        assert parts[1..] == rest[1..];
        if |rest| > 1 {
          assert ([s[0]] + rest[0]) + ("/" + JoinSlash(rest[1..])) == [s[0]] + (rest[0] + ("/" + JoinSlash(rest[1..])));
        }
      }
    }
  }

  /** A list that is cut at the first place where it can end has no other such
      place. */
  lemma {:induction false} CutListable(s: string)
    requires Cut(s).Some?
    ensures Listable(SplitSlash(Cut(s).value.0))
  {
    var a := Cut(s).value.0;
    JoinSplit(a);
    if !HasPrefix(s, "/]") {
      CutListable(s[1..]);
      CutInverse(s[1..]);
      var a' := Cut(s[1..]).value.0;
      assert a[1..] == a' && a[0] == s[0];
      if s[0] == '/' {
        FirstPart(a');
        assert s[..2] == [s[0], s[1]];
      }
    }
  }

  lemma FirstPart(s: string)
    ensures HasPrefix(SplitSlash(s)[0], "]") ==> s != [] && s[0] == ']'
  {
    if HasPrefix(SplitSlash(s)[0], "]") {
      assert SplitSlash(s)[0][0] == SplitSlash(s)[0][..1][0];
    }
  }

  /** Only lines in the documented form are read as lists. */
  lemma ListIsLine(env: Env, line: string) returns (hosts: seq<string>, ups: string)
    requires HasPrefix(line, "[/") && SplitLine(env, line).Parts?
    ensures IsLine(env, line, hosts, ups)
  {
    var s := line[2..];
    hosts, ups := SplitSlash(Cut(s).value.0), Cut(s).value.1;
    CutInverse(s);
    CutListable(s);
    JoinSplit(Cut(s).value.0);
    assert line == "[/" + s;
  }

  // ----- What lines ask for -----

  /** A host of a list: a domain with its subdomains, or the subdomains only. */
  datatype Key = Key(name: string, wild: bool)

  function KeyOf(domain: string): Key {
    Key(TrimWildcard(domain), HasPrefix(domain, "*."))
  }

  datatype Event = Default(u: string) | Include(u: string, key: Key) | Exclude(key: Key)

  datatype LineResult = Fine | Failed | Panicked

  /** How many of the upstreams are made before one is refused. */
  function MadeCount(env: Env, ups: seq<string>): (k: nat)
    ensures k <= |ups| && forall i :: 0 <= i < k ==> env.makes(ups[i])
    ensures k < |ups| ==> !env.makes(ups[k])
  {
    if ups == [] || !env.makes(ups[0]) then 0 else 1 + MadeCount(env, ups[1..])
  }

  function IncludeEvents(u: string, domains: seq<string>): (events: seq<Event>) {
    if domains == [] then [Default(u)]
    else seq(|domains|, i requires 0 <= i < |domains| => Include(u, KeyOf(domains[i])))
  }

  function ExcludeEvents(domains: seq<string>): (events: seq<Event>) {
    seq(|domains|, i requires 0 <= i < |domains| => Exclude(KeyOf(domains[i])))
  }

  function AllEvents(ups: seq<string>, domains: seq<string>): seq<Event> {
    if ups == [] then [] else AllEvents(ups[..|ups| - 1], domains) + IncludeEvents(ups[|ups| - 1], domains)
  }

  predicate Skipped(line: string) {
    line == "" || line[0] == '#'
  }

  /** What a line asks for; when an upstream is refused, the ones before it in the
      line stay. */
  function LineEvents(env: Env, line: string): seq<Event> {
    var split := SplitLine(env, line);
    if Skipped(line) || split.Wrong? || split.upstreams == [] then []
    else if split.upstreams[0] == "#" && split.domains != [] then ExcludeEvents(split.domains)
    else AllEvents(split.upstreams[..MadeCount(env, split.upstreams)], split.domains)
  }

  /** A line with a list of hosts and nothing but blanks after it is indexed out of
      range. */
  function Outcome(env: Env, line: string): LineResult {
    var split := SplitLine(env, line);
    if Skipped(line) then Fine
    else if split.Wrong? then Failed
    else if split.upstreams == [] then Panicked
    else if split.upstreams[0] == "#" && split.domains != [] then Fine
    else if MadeCount(env, split.upstreams) < |split.upstreams| then Failed
    else Fine
  }

  /** The line lists valid hosts and has only blanks for upstreams. */
  ghost predicate HasNoUpstream(env: Env, line: string) {
    exists hosts, ups :: IsLine(env, line, hosts, ups) && Blank(env.isSpace, ups)
  }

  /** A line is indexed out of range if and only if it has a list of valid hosts
      followed by nothing but blanks. */
  lemma PanicsIff(env: Env, line: string)
    ensures Outcome(env, line) == Panicked <==> HasNoUpstream(env, line)
  {
    if HasNoUpstream(env, line) {
      var hosts, ups :| IsLine(env, line, hosts, ups) && Blank(env.isSpace, ups);
      LineReadsBack(env, line, hosts, ups);
      assert line[0] == line[..2][0];
    }
    if Outcome(env, line) == Panicked {
      var hosts, ups := ListIsLine(env, line);
      LineReadsBack(env, line, hosts, ups);
    }
  }

  /** The documented list of one host, with a blank for an upstream. */
  lemma BlankPanics(env: Env)
    requires env.validName("a") && env.isSpace(' ')
    ensures Outcome(env, "[/a/] ") == Panicked
  {
    assert "[/a/] " == Line(["a"], " ");
    assert IsLine(env, "[/a/] ", ["a"], " ");
    PanicsIff(env, "[/a/] ");
  }

  function Events(env: Env, lines: seq<string>): seq<Event> {
    if lines == [] then [] else Events(env, lines[..|lines| - 1]) + LineEvents(env, lines[|lines| - 1])
  }

  function Outcomes(env: Env, lines: seq<string>): (results: seq<LineResult>)
    ensures |results| == |lines|
  {
    if lines == [] then [] else Outcomes(env, lines[..|lines| - 1]) + [Outcome(env, lines[|lines| - 1])]
  }

  lemma {:induction false} OutcomesAt(env: Env, lines: seq<string>, i: nat)
    requires i < |lines|
    ensures Outcomes(env, lines)[i] == Outcome(env, lines[i])
  {
    if i < |lines| - 1 {
      OutcomesAt(env, lines[..|lines| - 1], i);
    }
  }

  lemma PanickedIff(env: Env, lines: seq<string>)
    ensures Panicked in Outcomes(env, lines) <==> exists k :: 0 <= k < |lines| && HasNoUpstream(env, lines[k])
  {
    forall k | 0 <= k < |lines|
      ensures Outcomes(env, lines)[k] == Panicked <==> HasNoUpstream(env, lines[k])
    {
      OutcomesAt(env, lines, k);
      PanicsIff(env, lines[k]);
    }
  }

  // ----- The meaning of a configuration -----

  predicate Names(e: Event, key: Key) {
    !e.Default? && e.key == key
  }

  ghost predicate Named(log: seq<Event>, key: Key) {
    exists i :: 0 <= i < |log| && Names(log[i], key)
  }

  /** The position after the last exclusion of the key. */
  function AfterExclude(log: seq<Event>, key: Key): (k: nat)
    ensures k <= |log|
    ensures k > 0 ==> log[k - 1] == Exclude(key)
    ensures forall i :: k <= i < |log| ==> log[i] != Exclude(key)
  {
    if log == [] then 0
    else if log[|log| - 1] == Exclude(key) then |log|
    else AfterExclude(log[..|log| - 1], key)
  }

  /** The upstreams that the events include for the key, in order. */
  function Included(log: seq<Event>, key: Key): seq<string> {
    if log == [] then []
    else
      var front, e := Included(log[..|log| - 1], key), log[|log| - 1];
      if e.Include? && e.key == key then front + [e.u] else front
  }

  /** The upstreams of a key: those included after its last exclusion. */
  function ListFor(log: seq<Event>, key: Key): seq<string> {
    Included(log[AfterExclude(log, key)..], key)
  }

  /** The upstreams that are given without hosts, in order. */
  function Defaults(log: seq<Event>): seq<string> {
    if log == [] then []
    else
      var front, e := Defaults(log[..|log| - 1]), log[|log| - 1];
      if e.Default? then front + [e.u] else front
  }

  lemma NamedStep(log: seq<Event>, e: Event, key: Key)
    ensures Named(log + [e], key) <==> Named(log, key) || Names(e, key)
  {
    var log' := log + [e];
    if Named(log, key) {
      var i :| 0 <= i < |log| && Names(log[i], key);
      assert Names(log'[i], key);
    }
    if Names(e, key) {
      assert Names(log'[|log|], key);
    }
  }

  /** What one more event does to the list of a key. */
  lemma ListForStep(log: seq<Event>, e: Event, key: Key)
    ensures e == Exclude(key) ==> ListFor(log + [e], key) == []
    ensures e.Include? && e.key == key ==> ListFor(log + [e], key) == ListFor(log, key) + [e.u]
    ensures !Names(e, key) ==> ListFor(log + [e], key) == ListFor(log, key)
    ensures Named(log + [e], key) <==> Named(log, key) || Names(e, key)
  {
    NamedStep(log, e, key);
    if e != Exclude(key) {
      var k := AfterExclude(log, key);
      assert (log + [e])[k..] == log[k..] + [e];
    }
  }

  /** Two configurations mean the same for a key if they agree on the events that
      name it. */
  lemma {:induction false} OnlyNamingEventsMatter(log: seq<Event>, key: Key)
    ensures ListFor(log, key) == ListFor(Naming(log, key), key)
  {
    if log != [] {
      var front, e := log[..|log| - 1], log[|log| - 1];
      OnlyNamingEventsMatter(front, key);
      assert log == front + [e];
      ListForStep(front, e, key);
      if Names(e, key) {
        ListForStep(Naming(front, key), e, key);
      }
    }
  }

  function Naming(log: seq<Event>, key: Key): seq<Event> {
    if log == [] then []
    else
      var front := Naming(log[..|log| - 1], key);
      if Names(log[|log| - 1], key) then front + [log[|log| - 1]] else front
  }
}
