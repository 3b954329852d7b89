/** The parser of upstream configurations (`configParser` in
    `internal/control/routes.go`), proved to compute the declared meaning of the
    lines it is given. */
module ConfigParsers {
  import opened Wrappers
  import opened ConfigLines
  import opened ConfigTexts

  /** An upstream made by the number-th successful call of AddressToUpstream. */
  datatype Upstream = Upstream(number: nat, made: string)

  type UpstreamMap = map<string, seq<Upstream>>

  datatype UpstreamConfig = UpstreamConfig(
    upstreams: seq<Upstream>,
    reserved: UpstreamMap,
    specified: UpstreamMap,
    exclusions: set<string>)

  /** The fields of the parser. */
  datatype State = State(
    index: map<string, Upstream>,
    count: nat,
    reserved: UpstreamMap,
    specified: UpstreamMap,
    subdomains: UpstreamMap,
    exclusions: set<string>,
    upstreams: seq<Upstream>)

  const INITIAL := State(map[], 0, map[], map[], map[], {}, [])

  // ----- Steps -----

  /** The state in which the upstream for u is in the index. */
  function Prepared(s: State, u: string): (r: State)
    ensures u in r.index
  {
    if u in s.index then s else s.(index := s.index[u := Upstream(s.count, u)], count := s.count + 1)
  }

  function Appended(m: UpstreamMap, h: string, up: Upstream): UpstreamMap {
    m[h := (if h in m then m[h] else []) + [up]]
  }

  function Apply(state: State, e: Event): State {
    match e
    case Default(u) =>
      var s := Prepared(state, u);
      s.(upstreams := s.upstreams + [s.index[u]])
    case Include(u, key) =>
      var s := Prepared(state, u);
      var h, up := key.name, s.index[u];
      if key.wild then
        s.(exclusions := s.exclusions + {h},
           subdomains := Appended(s.subdomains, h, up),
           reserved := Appended(s.reserved, h, up))
      else
        s.(specified := Appended(s.specified, h, up), reserved := Appended(s.reserved, h, up))
    case Exclude(key) =>
      var h := key.name;
      if key.wild then state.(exclusions := state.exclusions + {h}, subdomains := state.subdomains[h := []])
      else state.(specified := state.specified[h := []], reserved := state.reserved[h := []])
  }

  function Run(s: State, log: seq<Event>): State {
    if log == [] then s else Apply(Run(s, log[..|log| - 1]), log[|log| - 1])
  }

  lemma {:induction false} RunConcat(s: State, a: seq<Event>, b: seq<Event>)
    ensures Run(Run(s, a), b) == Run(s, a + b)
  {
    if b == [] {
      assert a + b == a;
    } else {
      var b', e := b[..|b| - 1], b[|b| - 1];
      RunConcat(s, a, b');
      assert (a + b)[..|a + b| - 1] == a + b' && (a + b)[|a + b| - 1] == e;
    }
  }

  /** Making an upstream before it is included is the same as making it then. */
  lemma {:induction false} RunPrepared(s: State, u: string, domains: seq<string>, k: nat)
    requires 0 < k <= |IncludeEvents(u, domains)|
    ensures Run(Prepared(s, u), IncludeEvents(u, domains)[..k]) == Run(s, IncludeEvents(u, domains)[..k])
  {
    var log := IncludeEvents(u, domains)[..k];
    var front := IncludeEvents(u, domains)[..k - 1];
    assert log[..k - 1] == front;
    if k > 1 {
      RunPrepared(s, u, domains, k - 1);
    } else {
      assert front == [];
    }
  }

  // ----- Lists and the log -----

  /** The list holds the upstreams that the index has for the strings. */
  ghost predicate Holds(index: map<string, Upstream>, list: seq<Upstream>, us: seq<string>) {
    |list| == |us| && forall i :: 0 <= i < |us| ==> us[i] in index && index[us[i]] == list[i]
  }

  /** Each string was made into an upstream once. */
  ghost predicate MadeOnce(index: map<string, Upstream>, count: nat) {
    && (forall u :: u in index ==> index[u].made == u && index[u].number < count)
    && (forall u, v :: u in index && v in index && index[u].number == index[v].number ==> u == v)
    && |index| == count
  }

  /** The map has the list of the key, if the log names it. */
  ghost predicate Tracks(index: map<string, Upstream>, m: UpstreamMap, log: seq<Event>, key: Key) {
    && (key.name in m <==> Named(log, key))
    && (key.name in m ==> Holds(index, m[key.name], ListFor(log, key)))
  }

  /** What the log has told about the host h. */
  ghost predicate Host(s: State, log: seq<Event>, h: string) {
    && Tracks(s.index, s.specified, log, Key(h, false))
    && Tracks(s.index, s.subdomains, log, Key(h, true))
    && (h in s.exclusions <==> Named(log, Key(h, true)))
    && (h !in s.exclusions ==> Tracks(s.index, s.reserved, log, Key(h, false)))
  }

  lemma {:induction false} NotNamedIsEmpty(log: seq<Event>, key: Key)
    requires !Named(log, key)
    ensures ListFor(log, key) == []
  {
    if log != [] {
      var front, e := log[..|log| - 1], log[|log| - 1];
      assert log == front + [e];
      ListForStep(front, e, key);
      NotNamedIsEmpty(front, key);
    }
  }

  lemma TracksInclude(index: map<string, Upstream>, m: UpstreamMap, log: seq<Event>, key: Key, u: string)
    requires Tracks(index, m, log, key) && u in index
    ensures Tracks(index, Appended(m, key.name, index[u]), log + [Include(u, key)], key)
  {
    ListForStep(log, Include(u, key), key);
    if key.name !in m {
      NotNamedIsEmpty(log, key);
    }
  }

  lemma TracksExclude(index: map<string, Upstream>, m: UpstreamMap, log: seq<Event>, key: Key)
    requires Tracks(index, m, log, key)
    ensures Tracks(index, m[key.name := []], log + [Exclude(key)], key)
  {
    ListForStep(log, Exclude(key), key);
  }

  /** Events that do not name the key do not matter, nor does a map that differs
      elsewhere. */
  lemma TracksOther(index: map<string, Upstream>, m: UpstreamMap, m': UpstreamMap, log: seq<Event>, e: Event, key: Key)
    requires Tracks(index, m, log, key) && !Names(e, key)
    requires key.name in m <==> key.name in m'
    requires key.name in m ==> m[key.name] == m'[key.name]
    ensures Tracks(index, m', log + [e], key)
  {
    ListForStep(log, e, key);
  }

  lemma PreparedOnce(s: State, u: string)
    requires MadeOnce(s.index, s.count)
    ensures MadeOnce(Prepared(s, u).index, Prepared(s, u).count)
  {
    if u !in s.index {
      MadeOnceMore(s.index, s.count, u);
    }
  }

  lemma MadeOnceMore(index: map<string, Upstream>, count: nat, u: string)
    requires MadeOnce(index, count) && u !in index
    ensures MadeOnce(index[u := Upstream(count, u)], count + 1)
  {
    OneKeyMore(index, u, Upstream(count, u));
    var index' := index[u := Upstream(count, u)];
    forall v, w | v in index' && w in index' && index'[v].number == index'[w].number
      ensures v == w
    {
      assert v != u ==> v in index && index[v].number < count;
      assert w != u ==> w in index && index[w].number < count;
    }
  }

  lemma OneKeyMore<K, V>(m: map<K, V>, k: K, v: V)
    requires k !in m
    ensures |m[k := v]| == |m| + 1
  {
    assert m[k := v].Keys == m.Keys + {k};
    assert |m[k := v].Keys| == |m.Keys| + 1;
  }

  lemma ApplyHost(s: State, log: seq<Event>, e: Event, h: string)
    requires Host(s, log, h) && (!e.Exclude? ==> e.u in s.index)
    ensures Host(Apply(s, e), log + [e], h)
  {
    if Names(e, Key(h, false)) {
      NamesPlain(s, log, e, h);
    } else if Names(e, Key(h, true)) {
      NamesWild(s, log, e, h);
    } else {
      NamesNeither(s, log, e, h);
    }
  }

  lemma NamesNeither(s: State, log: seq<Event>, e: Event, h: string)
    requires Host(s, log, h) && (!e.Exclude? ==> e.u in s.index) && (e.Default? || e.key.name != h)
    ensures Host(Apply(s, e), log + [e], h)
  {
    var s' := Apply(s, e);
    var plain, wild := Key(h, false), Key(h, true);
    ApplyElsewhere(s, e, h);
    TracksOther(s.index, s.specified, s'.specified, log, e, plain);
    TracksOther(s.index, s.subdomains, s'.subdomains, log, e, wild);
    ListForStep(log, e, wild);
    if h !in s.exclusions {
      TracksOther(s.index, s.reserved, s'.reserved, log, e, plain);
    }
  }

  ghost predicate SameAt(m: UpstreamMap, m': UpstreamMap, h: string) {
    (h in m <==> h in m') && (h in m ==> m[h] == m'[h])
  }

  /** An event that does not name h changes nothing about h. */
  lemma ApplyElsewhere(s: State, e: Event, h: string)
    requires (!e.Exclude? ==> e.u in s.index) && (e.Default? || e.key.name != h)
    ensures var s' := Apply(s, e);
            && s'.index == s.index && (h in s'.exclusions <==> h in s.exclusions)
            && SameAt(s.specified, s'.specified, h) && SameAt(s.subdomains, s'.subdomains, h)
            && SameAt(s.reserved, s'.reserved, h)
  {}

  lemma NamesWild(s: State, log: seq<Event>, e: Event, h: string)
    requires Host(s, log, h) && Names(e, Key(h, true)) && (!e.Exclude? ==> e.u in s.index)
    ensures Host(Apply(s, e), log + [e], h)
  {
    var plain, wild := Key(h, false), Key(h, true);
    TracksOther(s.index, s.specified, s.specified, log, e, plain);
    ListForStep(log, e, wild);
    if e.Include? {
      TracksInclude(s.index, s.subdomains, log, wild, e.u);
    } else {
      TracksExclude(s.index, s.subdomains, log, wild);
    }
  }

  lemma NamesPlain(s: State, log: seq<Event>, e: Event, h: string)
    requires Host(s, log, h) && Names(e, Key(h, false)) && (!e.Exclude? ==> e.u in s.index)
    ensures Host(Apply(s, e), log + [e], h)
  {
    var plain, wild := Key(h, false), Key(h, true);
    ListForStep(log, e, wild);
    TracksOther(s.index, s.subdomains, s.subdomains, log, e, wild);
    if e.Include? {
      TracksInclude(s.index, s.specified, log, plain, e.u);
      if h !in s.exclusions {
        TracksInclude(s.index, s.reserved, log, plain, e.u);
      }
    } else {
      TracksExclude(s.index, s.specified, log, plain);
      if h !in s.exclusions {
        TracksExclude(s.index, s.reserved, log, plain);
      }
    }
  }

  /** After any interleaving of inclusions and exclusions, the parser knows about
      each host what the log declares. */
  lemma {:induction false} RunHost(log: seq<Event>, h: string)
    ensures Host(Run(INITIAL, log), log, h)
  {
    if log != [] {
      var front, e := log[..|log| - 1], log[|log| - 1];
      RunHost(front, h);
      var s := Run(INITIAL, front);
      assert log == front + [e];
      if e.Exclude? {
        ApplyHost(s, front, e, h);
      } else {
        ApplyHost(Prepared(s, e.u), front, e, h);
      }
    }
  }

  /** No string is made into an upstream twice. */
  lemma {:induction false} RunOnce(log: seq<Event>)
    ensures MadeOnce(Run(INITIAL, log).index, Run(INITIAL, log).count)
  {
    if log != [] {
      var front, e := log[..|log| - 1], log[|log| - 1];
      RunOnce(front);
      var s := Run(INITIAL, front);
      if !e.Exclude? {
        PreparedOnce(s, e.u);
      }
    }
  }

  lemma {:induction false} RunDefaults(log: seq<Event>)
    ensures Holds(Run(INITIAL, log).index, Run(INITIAL, log).upstreams, Defaults(log))
  {
    if log != [] {
      var front, e := log[..|log| - 1], log[|log| - 1];
      RunDefaults(front);
      var s := Run(INITIAL, front);
      if !e.Exclude? {
        PreparedHolds(s, s.upstreams, Defaults(front), e.u);
      }
    }
  }

  lemma PreparedHolds(s: State, list: seq<Upstream>, us: seq<string>, u: string)
    requires Holds(s.index, list, us)
    ensures Holds(Prepared(s, u).index, list, us)
  {}

  // ----- The meaning -----

  /** The key whose list a host gets in the end: wildcards override. */
  ghost function Decisive(log: seq<Event>, h: string): Key {
    Key(h, Named(log, Key(h, true)))
  }

  /** The configuration gives the host what the log declares. */
  ghost predicate Means(index: map<string, Upstream>, log: seq<Event>, conf: UpstreamConfig, h: string) {
    && Tracks(index, conf.specified, log, Key(h, false))
    && (h in conf.exclusions <==> Named(log, Key(h, true)))
    && Tracks(index, conf.reserved, log, Decisive(log, h))
  }

  /** The lists of wildcards replace the others. */
  function Final(s: State): UpstreamConfig {
    UpstreamConfig(s.upstreams, s.reserved + s.subdomains, s.specified, s.exclusions)
  }

  lemma FinalMeans(log: seq<Event>, h: string)
    ensures Means(Run(INITIAL, log).index, log, Final(Run(INITIAL, log)), h)
  {
    RunHost(log, h);
  }

  /** The configuration gives the host what the text of the entries says. */
  ghost predicate Gives(
    env: Env, index: map<string, Upstream>, entries: seq<Entry>, conf: UpstreamConfig, h: string)
  {
    var plain, wild := Touched(env, entries, h, false), Touched(env, entries, h, true);
    && (h in conf.specified <==> plain)
    && (plain ==> Holds(index, conf.specified[h], ListOf(env, entries, h, false)))
    && (h in conf.exclusions <==> wild)
    && (h in conf.reserved <==> plain || wild)
    && (wild ==> Holds(index, conf.reserved[h], ListOf(env, entries, h, true)))
    && (plain && !wild ==> Holds(index, conf.reserved[h], ListOf(env, entries, h, false)))
  }

  lemma MeansGives(
    env: Env, index: map<string, Upstream>, entries: seq<Entry>, lines: seq<string>, conf: UpstreamConfig, h: string)
    requires Spells(env, entries, lines) && Means(index, Events(env, lines), conf, h)
    ensures Gives(env, index, entries, conf, h)
  {
    LogMeansText(env, entries, lines, h, false);
    LogMeansText(env, entries, lines, h, true);
  }

  /** The numbers are those of the entries in error. */
  ghost predicate ReportsText(env: Env, entries: seq<Entry>, errs: seq<nat>) {
    (forall i: nat :: i in errs <==> i < |entries| && Errs(env, entries[i])) && Increasing(errs)
  }

  /** What a parsed configuration is, told from the text of its lines. */
  ghost predicate Parsed(
    env: Env, index: map<string, Upstream>, entries: seq<Entry>, conf: UpstreamConfig, errs: seq<nat>)
  {
    && Holds(index, conf.upstreams, DefaultsOf(env, entries))
    && (forall h :: Gives(env, index, entries, conf, h))
    && ReportsText(env, entries, errs)
  }

  lemma MeansText(
    env: Env, index: map<string, Upstream>, entries: seq<Entry>, lines: seq<string>, conf: UpstreamConfig,
    errs: seq<nat>)
    requires Spells(env, entries, lines) && Panicked !in Outcomes(env, lines)
    requires Holds(index, conf.upstreams, Defaults(Events(env, lines))) && Reports(Outcomes(env, lines), errs)
    requires forall h :: Means(index, Events(env, lines), conf, h)
    ensures Parsed(env, index, entries, conf, errs)
  {
    LogMeansText(env, entries, lines, "", false);
    OutcomesMeanText(env, entries, lines);
    forall h
      ensures Gives(env, index, entries, conf, h)
    {
      MeansGives(env, index, entries, lines, conf, h);
    }
  }

  class ConfigParser {
    const env: Env
    var index: map<string, Upstream>
    var count: nat
    var reserved: UpstreamMap
    var specified: UpstreamMap
    var subdomains: UpstreamMap
    var exclusions: set<string>
    var upstreams: seq<Upstream>

    ghost function Fields(): State
      reads this
    {
      State(index, count, reserved, specified, subdomains, exclusions, upstreams)
    }

    constructor (env: Env)
      ensures Fields() == INITIAL && this.env == env
    {
      this.env := env;
      index, count, upstreams, exclusions := map[], 0, [], {};
      reserved, specified, subdomains := map[], map[], map[];
    }

    method ExcludeFromReserved(domains: seq<string>)
      modifies this
      ensures Fields() == Run(old(Fields()), ExcludeEvents(domains))
    {
      ghost var events := ExcludeEvents(domains);
      for k := 0 to |domains|
        invariant Fields() == Run(old(Fields()), events[..k])
      {
        assert events[..k + 1][..k] == events[..k] && events[k] == Exclude(KeyOf(domains[k]));
        var host := domains[k];
        var trimmed := TrimWildcard(host);
        if trimmed != host {
          exclusions := exclusions + {trimmed};
          subdomains := subdomains[trimmed := []];
          continue;
        }
        reserved := reserved[host := []];
        specified := specified[host := []];
      }
      assert events[..|domains|] == events;
    }

    /** One turn of includeToReserved. */
    method IncludeHost(up: Upstream, domain: string, ghost u: string)
      requires u in index && index[u] == up
      modifies this
      ensures Fields() == Apply(old(Fields()), Include(u, KeyOf(domain)))
    {
      var host := domain;
      if HasPrefix(host, "*.") {
        host := host[2..];
        exclusions := exclusions + {host};
        subdomains := Appended(subdomains, host, up);
      } else {
        specified := Appended(specified, host, up);
      }
      reserved := Appended(reserved, host, up);
    }

    method IncludeToReserved(up: Upstream, domains: seq<string>, ghost u: string)
      requires u in index && index[u] == up && domains != []
      modifies this
      ensures Fields() == Run(old(Fields()), IncludeEvents(u, domains))
    {
      ghost var events := IncludeEvents(u, domains);
      for k := 0 to |domains|
        invariant Fields() == Run(old(Fields()), events[..k]) && index == old(index)
      {
        assert events[..k + 1][..k] == events[..k] && events[k] == Include(u, KeyOf(domains[k]));
        IncludeHost(up, domains[k], u);
      }
      assert events[..|domains|] == events;
    }

    method SpecifyUpstream(domains: seq<string>, u: string) returns (ok: bool)
      modifies this
      ensures ok == (u in old(index) || env.makes(u))
      ensures Fields() == if ok then Run(old(Fields()), IncludeEvents(u, domains)) else old(Fields())
    {
      ok := u in index || env.makes(u);
      if !ok {
        return;
      }
      if u !in index {
        index, count := index[u := Upstream(count, u)], count + 1;
      }
      assert Fields() == Prepared(old(Fields()), u);
      ghost var events := IncludeEvents(u, domains);
      RunPrepared(old(Fields()), u, domains, |events|);
      assert events[..|events|] == events;
      if domains == [] {
        assert events[..0] == [];
        upstreams := upstreams + [index[u]];
      } else {
        IncludeToReserved(index[u], domains, u);
      }
    }

    /** The first k upstreams of a line have been specified, from the state s on. */
    ghost predicate Specified(s: State, ups: seq<string>, k: nat, domains: seq<string>)
      requires k <= |ups|
      reads this
    {
      Indexed() && Fields() == Run(s, AllEvents(ups[..k], domains))
    }

    /** One turn of the loop of parseLine over the upstreams of a line. */
    method SpecifyNext(domains: seq<string>, ups: seq<string>, k: nat, ghost s: State) returns (ok: bool)
      requires k < |ups| && Specified(s, ups, k, domains)
      modifies this
      ensures ok == env.makes(ups[k])
      ensures Specified(s, ups, if ok then k + 1 else k, domains)
    {
      PrefixStep(ups, k);
      AllEventsStep(s, ups[..k], ups[k], domains);
      ghost var before := Fields();
      ok := SpecifyUpstream(domains, ups[k]);
      if ok {
        RunIndexed(env, before, ups[k], domains);
      }
    }

    /** The loop; it gets through the first k upstreams. */
    method SpecifyAll(domains: seq<string>, ups: seq<string>) returns (ok: bool, k: nat)
      requires Indexed()
      modifies this
      ensures k <= |ups| && Specified(old(Fields()), ups, k, domains)
      ensures forall i :: 0 <= i < k ==> env.makes(ups[i])
      ensures if ok then k == |ups| else k < |ups| && !env.makes(ups[k])
    {
      ghost var s := Fields();
      assert ups[..0] == [];
      k, ok := 0, true;
      assert Specified(s, ups, k, domains);
      while k < |ups|
        invariant k <= |ups| && Specified(s, ups, k, domains)
        invariant forall i :: 0 <= i < k ==> env.makes(ups[i])
      {
        ok := SpecifyNext(domains, ups, k, s);
        if !ok {
          return;
        }
        k := k + 1;
      }
      ok := true;
    }

    /** Only what can be made is in the index. */
    ghost predicate Indexed()
      reads this
    {
      forall u :: u in index ==> env.makes(u)
    }

    method ParseLine(line: string) returns (r: LineResult)
      requires Indexed()
      modifies this
      ensures Indexed()
      ensures Fields() == Run(old(Fields()), LineEvents(env, line)) && r == Outcome(env, line)
    {
      if Skipped(line) {
        return Fine;
      }
      var split := SplitConfigLine(env, line);
      if split.Wrong? {
        return Failed;
      }
      if split.upstreams == [] {
        return Panicked;
      }
      if split.upstreams[0] == "#" && split.domains != [] {
        RunExclude(Fields(), split.domains);
        ExcludeFromReserved(split.domains);
        return Fine;
      }
      var ok, k := SpecifyAll(split.domains, split.upstreams);
      return if ok then Fine else Failed;
    }

    /** parse: reads all lines and, unless one of them panics, returns the
        configuration and the numbers of the lines in error. */
    method Parse(lines: seq<string>) returns (conf: Option<UpstreamConfig>, errs: seq<nat>)
      requires Fields() == INITIAL
      modifies this
      ensures conf.None? <==> exists k :: 0 <= k < |lines| && HasNoUpstream(env, lines[k])
      ensures conf.Some? ==> MadeOnce(index, count)
      ensures conf.Some? ==> Holds(index, conf.value.upstreams, Defaults(Events(env, lines)))
      ensures conf.Some? ==> forall h :: Means(index, Events(env, lines), conf.value, h)
      ensures conf.Some? ==> Reports(Outcomes(env, lines), errs)
      ensures conf.Some? ==> forall entries :: Spells(env, entries, lines) ==>
                Parsed(env, index, entries, conf.value, errs)
    {
      PanickedIff(env, lines);
      var ok;
      ok, errs := ReadLines(lines);
      if !ok {
        return None, errs;
      }
      RunOnce(Events(env, lines));
      RunDefaults(Events(env, lines));
      forall h
        ensures Means(index, Events(env, lines), Final(Fields()), h)
      {
        FinalMeans(Events(env, lines), h);
      }
      var all := OverrideReserved();
      conf := Some(all);
      forall entries | Spells(env, entries, lines)
        ensures Parsed(env, index, entries, all, errs)
      {
        MeansText(env, index, entries, lines, all, errs);
      }
    }

    /** The lines are read and the errors collected. */
    ghost predicate Read(lines: seq<string>, errs: seq<nat>)
      reads this
    {
      && Indexed() && Fields() == Run(INITIAL, Events(env, lines))
      && Reports(Outcomes(env, lines), errs)
    }

    /** One turn of the loop of parse over the lines. */
    method ReadNext(ghost lines: seq<string>, line: string, k: nat, errs: seq<nat>) returns (ok: bool, errs': seq<nat>)
      requires Read(lines, errs) && k == |lines|
      modifies this
      ensures Outcomes(env, lines + [line]) == Outcomes(env, lines) + [Outcome(env, line)]
      ensures ok <==> !Outcome(env, line).Panicked?
      ensures if ok then Read(lines + [line], errs') else errs' == errs
    {
      var r := ParseLine(line);
      EventsStep(env, lines, line);
      ReportsStep(Outcomes(env, lines), r, errs);
      ok := !r.Panicked?;
      errs' := if r.Failed? then errs + [k] else errs;
    }

    /** The loop of parse over the lines. */
    method ReadLines(lines: seq<string>) returns (ok: bool, errs: seq<nat>)
      requires Fields() == INITIAL
      modifies this
      ensures ok <==> Panicked !in Outcomes(env, lines)
      ensures ok ==> Read(lines, errs)
    {
      errs, ok := [], true;
      var k := 0;
      ghost var done: seq<string> := [];
      while k < |lines|
        invariant k <= |lines| && done == lines[..k]
        invariant Read(done, errs)
        invariant Panicked !in Outcomes(env, done)
      {
        PrefixStep(lines, k);
        ok, errs := ReadNext(done, lines[k], k, errs);
        if !ok {
          OutcomesAt(env, lines, k);
          return;
        }
        done := done + [lines[k]];
        k := k + 1;
      }
      ok := true;
      WholePrefix(lines);
    }

    /** The loop at the end of parse. */
    method OverrideReserved() returns (conf: UpstreamConfig)
      modifies this`reserved
      ensures conf == Final(old(Fields()))
    {
      var left := subdomains.Keys;
      while left != {}
        invariant left <= subdomains.Keys
        invariant reserved == old(reserved) + (subdomains - left)
        decreases left
      {
        var host :| host in left;
        reserved := reserved[host := subdomains[host]];
        left := left - {host};
      }
      assert subdomains - {} == subdomains;
      return UpstreamConfig(upstreams, reserved, specified, exclusions);
    }
  }

  lemma WholePrefix<T>(s: seq<T>)
    ensures s[..|s|] == s
  {}

  lemma PrefixStep<T>(s: seq<T>, k: nat)
    requires k < |s|
    ensures s[..k + 1] == s[..k] + [s[k]]
  {}

  ghost predicate Increasing(s: seq<nat>) {
    forall i, j :: 0 <= i < j < |s| ==> s[i] < s[j]
  }

  /** The numbers are those of the lines in error, in order. */
  ghost predicate Reports(results: seq<LineResult>, errs: seq<nat>) {
    (forall i: nat :: i in errs <==> i < |results| && results[i].Failed?) && Increasing(errs)
  }

  lemma ReportsStep(results: seq<LineResult>, r: LineResult, errs: seq<nat>)
    requires Reports(results, errs)
    ensures Reports(results + [r], if r.Failed? then errs + [|results|] else errs)
  {
    forall i | 0 <= i < |errs|
      ensures errs[i] < |results|
    {
      assert errs[i] in errs;
    }
  }

  lemma EventsStep(env: Env, lines: seq<string>, line: string)
    ensures Run(Run(INITIAL, Events(env, lines)), LineEvents(env, line)) == Run(INITIAL, Events(env, lines + [line]))
    ensures Outcomes(env, lines + [line]) == Outcomes(env, lines) + [Outcome(env, line)]
  {
    assert (lines + [line])[..|lines|] == lines;
    RunConcat(INITIAL, Events(env, lines), LineEvents(env, line));
  }

  lemma AllEventsStep(s: State, ups: seq<string>, u: string, domains: seq<string>)
    ensures Run(Run(s, AllEvents(ups, domains)), IncludeEvents(u, domains)) == Run(s, AllEvents(ups + [u], domains))
  {
    assert (ups + [u])[..|ups|] == ups;
    RunConcat(s, AllEvents(ups, domains), IncludeEvents(u, domains));
  }

  lemma {:induction false} RunIndexed(env: Env, s: State, u: string, domains: seq<string>)
    requires (forall v :: v in s.index ==> env.makes(v)) && env.makes(u)
    ensures forall v :: v in Run(s, IncludeEvents(u, domains)).index ==> env.makes(v)
  {
    RunIndex(s, IncludeEvents(u, domains));
  }

  /** Only strings of the log get into the index. */
  lemma {:induction false} RunIndex(s: State, log: seq<Event>)
    ensures forall v :: v in Run(s, log).index && v !in s.index ==>
              exists i :: 0 <= i < |log| && !log[i].Exclude? && log[i].u == v
  {
    if log != [] {
      RunIndex(s, log[..|log| - 1]);
    }
  }

  lemma {:induction false} RunExclude(s: State, domains: seq<string>)
    ensures Run(s, ExcludeEvents(domains)).index == s.index
  {
    if domains != [] {
      var front := domains[..|domains| - 1];
      RunExclude(s, front);
      assert ExcludeEvents(domains)[..|domains| - 1] == ExcludeEvents(front);
    }
  }
}
