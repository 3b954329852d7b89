/** What the text of an upstream configuration means, told from the text alone: each
    line is a note, a default upstream, or a list of hosts with their upstreams
    (`internal/control/routes.go`). */
module ConfigTexts {
  import opened Wrappers
  import opened ConfigLines

  datatype Entry =
    | Note(text: string)
    | Server(u: string)
    | ForHosts(hosts: seq<string>, ups: string)
    | Malformed(text: string)

  function TextOf(e: Entry): string
    requires e.ForHosts? ==> e.hosts != []
  {
    match e
    case Note(text) => text
    case Server(u) => u
    case ForHosts(hosts, ups) => "[/" + (JoinSlash(hosts) + ("/]" + ups))
    case Malformed(text) => text
  }

  /** The host is empty or valid without its wildcard. */
  predicate ValidHost(env: Env, host: string) {
    host == "" || env.validName(if |host| >= 2 && host[0] == '*' && host[1] == '.' then host[2..] else host)
  }

  /** Hosts that can stand between slashes: no slash in them, and only the first may
      begin with a bracket. */
  predicate CanList(hosts: seq<string>) {
    && hosts != []
    && (forall i :: 0 <= i < |hosts| ==> '/' !in hosts[i])
    && (forall i :: 0 < i < |hosts| && hosts[i] != "" ==> hosts[i][0] != ']')
  }

  ghost predicate IsForHosts(env: Env, hosts: seq<string>, ups: string) {
    CanList(hosts) && ups != "" && forall i :: 0 <= i < |hosts| ==> ValidHost(env, hosts[i])
  }

  predicate Opens(text: string) {
    |text| >= 2 && text[0] == '[' && text[1] == '/'
  }

  /** The text reads as a list of hosts with their upstreams. */
  ghost predicate ReadsAs(env: Env, text: string, hosts: seq<string>, ups: string) {
    IsForHosts(env, hosts, ups) && text == TextOf(ForHosts(hosts, ups))
  }

  /** The entry is what its constructor says. */
  ghost predicate Fits(env: Env, e: Entry) {
    match e
    case Note(text) => text == "" || text[0] == '#'
    case Server(u) => u != "" && u[0] != '#' && !Opens(u)
    case ForHosts(hosts, ups) => IsForHosts(env, hosts, ups)
    case Malformed(text) => Opens(text) && forall hosts, ups :: !ReadsAs(env, text, hosts, ups)
  }

  /** Every line is an entry. */
  lemma EveryLineFits(env: Env, line: string) returns (e: Entry)
    ensures Fits(env, e) && TextOf(e) == line
  {
    OpensIff(line);
    if line == "" || line[0] == '#' {
      e := Note(line);
    } else if !Opens(line) {
      e := Server(line);
    } else if SplitLine(env, line).Parts? {
      var hosts, ups := ListIsLine(env, line);
      ReadsAsIff(env, line, hosts, ups);
      e := ForHosts(hosts, ups);
    } else {
      forall hosts, ups
        ensures !ReadsAs(env, line, hosts, ups)
      {
        ReadsAsIff(env, line, hosts, ups);
        if IsLine(env, line, hosts, ups) {
          LineReadsBack(env, line, hosts, ups);
        }
      }
      e := Malformed(line);
    }
  }

  lemma OpensIff(text: string)
    ensures Opens(text) <==> HasPrefix(text, "[/")
  {
    if |text| >= 2 {
      assert text[..2] == [text[0], text[1]];
    }
  }

  lemma PrefixIs(s: string, c: char)
    ensures HasPrefix(s, [c]) <==> s != "" && s[0] == c
  {
    if s != "" {
      assert s[..1] == [s[0]];
    }
  }

  lemma ReadsAsIff(env: Env, text: string, hosts: seq<string>, ups: string)
    ensures ReadsAs(env, text, hosts, ups) <==> IsLine(env, text, hosts, ups)
  {
    forall i | 0 <= i < |hosts|
      ensures ValidHost(env, hosts[i]) <==> GoodHost(env, hosts[i])
      ensures HasPrefix(hosts[i], "]") <==> hosts[i] != "" && hosts[i][0] == ']'
    {
      WildcardIs(hosts[i]);
      PrefixIs(hosts[i], ']');
    }
  }

  lemma WildcardIs(s: string)
    ensures HasPrefix(s, "*.") <==> |s| >= 2 && s[0] == '*' && s[1] == '.'
    ensures HasPrefix(s, "*.") ==> s == "*." + s[2..]
  {
    if |s| >= 2 {
      assert s[..2] == [s[0], s[1]];
    }
  }

  // ----- Fields -----

  /** Blanks between fields do not matter. */
  lemma {:induction false} FieldsSkip(isSpace: char -> bool, blank: string, rest: string)
    requires Blank(isSpace, blank)
    ensures Fields(isSpace, blank + rest) == Fields(isSpace, rest)
  {
    if blank == "" {
      assert blank + rest == rest;
    } else {
      FieldsSkip(isSpace, blank[1..], rest);
      assert (blank + rest)[1..] == blank[1..] + rest && (blank + rest)[0] == blank[0];
    }
  }

  lemma FieldsStart(isSpace: char -> bool, c: char, s: string)
    requires !isSpace(c)
    ensures Fields(isSpace, [c] + s) ==
              if s == "" || isSpace(s[0]) then [[c]] + Fields(isSpace, s)
              else [[c] + Fields(isSpace, s)[0]] + Fields(isSpace, s)[1..]
  {
    var t := [c] + s;
    assert t[1..] == s && t[0] == c;
    assert s != "" ==> t[1] == s[0];
  }

  /** A word that a blank or the end follows is a field as it is. */
  lemma {:induction false} FieldsWord(isSpace: char -> bool, word: string, rest: string)
    requires word != "" && forall i :: 0 <= i < |word| ==> !isSpace(word[i])
    requires rest == "" || isSpace(rest[0])
    ensures Fields(isSpace, word + rest) == [word] + Fields(isSpace, rest)
  {
    var tail := word[1..];
    assert word + rest == [word[0]] + (tail + rest);
    FieldsStart(isSpace, word[0], tail + rest);
    if tail == "" {
      assert tail + rest == rest && [word[0]] == word;
    } else {
      FieldsWord(isSpace, tail, rest);
      assert (tail + rest)[0] == word[1];
      WordGrows(word, Fields(isSpace, rest));
    }
  }

  lemma WordGrows(word: string, rest: seq<string>)
    requires word != ""
    ensures var fields := [word[1..]] + rest;
            [[word[0]] + fields[0]] + fields[1..] == [word] + rest
  {
    assert [word[0]] + word[1..] == word;
  }

  // ----- What entries mean -----

  /** The host stands for h itself, or for the subdomains of h only. */
  predicate NamesHost(env: Env, host: string, h: string, wild: bool) {
    var domain := if host == "" then "unqualified_names" else env.lower(host + ".");
    if wild then domain == "*." + h
    else domain == h && !(|domain| >= 2 && domain[0] == '*' && domain[1] == '.')
  }

  /** How often the hosts name h. */
  function Times(env: Env, hosts: seq<string>, h: string, wild: bool): nat {
    if hosts == [] then 0
    else Times(env, hosts[..|hosts| - 1], h, wild) + if NamesHost(env, hosts[|hosts| - 1], h, wild) then 1 else 0
  }

  /** Each of the strings n times. */
  function Each(us: seq<string>, n: nat): seq<string> {
    if us == [] then [] else Each(us[..|us| - 1], n) + seq(n, _ => us[|us| - 1])
  }

  /** The upstreams of an entry that are made: those before the first that cannot be. */
  function Made(env: Env, ups: string): seq<string> {
    Fields(env.isSpace, ups)[..MadeCount(env, Fields(env.isSpace, ups))]
  }

  predicate IsExclusion(env: Env, ups: string) {
    Fields(env.isSpace, ups) != [] && Fields(env.isSpace, ups)[0] == "#"
  }

  /** The upstreams of h after one more entry: an exclusion that names h leaves none;
      an inclusion adds its upstreams, in order, for each time it names h. */
  function After(env: Env, before: seq<string>, e: Entry, h: string, wild: bool): seq<string> {
    if !e.ForHosts? then before
    else
      var times := Times(env, e.hosts, h, wild);
      if IsExclusion(env, e.ups) then if times > 0 then [] else before
      else before + Each(Made(env, e.ups), times)
  }

  /** The upstreams of h, or of its subdomains only. */
  function ListOf(env: Env, entries: seq<Entry>, h: string, wild: bool): seq<string> {
    if entries == [] then []
    else After(env, ListOf(env, entries[..|entries| - 1], h, wild), entries[|entries| - 1], h, wild)
  }

  /** The entry names h and excludes it or has an upstream for it. */
  predicate Touches(env: Env, e: Entry, h: string, wild: bool) {
    e.ForHosts? && Times(env, e.hosts, h, wild) > 0 && (IsExclusion(env, e.ups) || Made(env, e.ups) != [])
  }

  ghost predicate Touched(env: Env, entries: seq<Entry>, h: string, wild: bool) {
    exists k :: 0 <= k < |entries| && Touches(env, entries[k], h, wild)
  }

  function DefaultsOf(env: Env, entries: seq<Entry>): seq<string> {
    if entries == [] then []
    else
      var e := entries[|entries| - 1];
      DefaultsOf(env, entries[..|entries| - 1]) + if e.Server? && env.makes(e.u) then [e.u] else []
  }

  /** The line is reported. */
  predicate Errs(env: Env, e: Entry) {
    match e
    case Note(_) => false
    case Server(u) => !env.makes(u)
    case ForHosts(_, ups) => !IsExclusion(env, ups) && Made(env, ups) != Fields(env.isSpace, ups)
    case Malformed(_) => true
  }

  // ----- The log means the same -----

  lemma NamesHostIff(env: Env, host: string, h: string, wild: bool)
    ensures NamesHost(env, host, h, wild) <==> KeyOf(Domain(env, host)) == Key(h, wild)
  {
    WildcardIs(Domain(env, host));
    assert ("*." + h)[2..] == h;
  }

  /** How many of the domains have the key. */
  function TimesKey(domains: seq<string>, key: Key): nat {
    if domains == [] then 0
    else TimesKey(domains[..|domains| - 1], key) + if KeyOf(domains[|domains| - 1]) == key then 1 else 0
  }

  lemma {:induction false} TimesAre(env: Env, hosts: seq<string>, h: string, wild: bool)
    ensures Times(env, hosts, h, wild) == TimesKey(Domains(env, hosts), Key(h, wild))
  {
    if hosts != [] {
      var front := hosts[..|hosts| - 1];
      TimesAre(env, front, h, wild);
      NamesHostIff(env, hosts[|hosts| - 1], h, wild);
      assert Domains(env, hosts)[..|hosts| - 1] == Domains(env, front);
    }
  }

  /** The list of a key after more events, and whether they name it. */
  ghost predicate Leads(log: seq<Event>, events: seq<Event>, key: Key, list: seq<string>, named: bool) {
    && ListFor(log + events, key) == list
    && (Named(log + events, key) <==> Named(log, key) || named)
    && Defaults(log + events) == Defaults(log)
  }

  lemma LeadsNothing(log: seq<Event>, key: Key)
    ensures Leads(log, [], key, ListFor(log, key), false)
  {
    assert log + [] == log;
  }

  lemma LeadsStep(log: seq<Event>, events: seq<Event>, e: Event, key: Key, list: seq<string>, named: bool)
    requires Leads(log, events, key, list, named) && !e.Default?
    ensures Leads(log, events + [e], key,
                  if e.key != key then list else if e.Exclude? then [] else list + [e.u], named || e.key == key)
  {
    assert log + (events + [e]) == (log + events) + [e];
    ListForStep(log + events, e, key);
    assert ((log + events) + [e])[..|log + events|] == log + events;
  }

  lemma {:induction false} ExcludeLeads(log: seq<Event>, domains: seq<string>, key: Key)
    ensures var times := TimesKey(domains, key);
            Leads(log, ExcludeEvents(domains), key, if times > 0 then [] else ListFor(log, key), times > 0)
  {
    if domains == [] {
      LeadsNothing(log, key);
      assert ExcludeEvents(domains) == [];
    } else {
      var front, last := domains[..|domains| - 1], domains[|domains| - 1];
      ExcludeLeads(log, front, key);
      ExclusionLeads(log, front, last, key);
      assert front + [last] == domains;
    }
  }

  lemma ExclusionLeads(log: seq<Event>, front: seq<string>, last: string, key: Key)
    requires var times := TimesKey(front, key);
             Leads(log, ExcludeEvents(front), key, if times > 0 then [] else ListFor(log, key), times > 0)
    ensures var times := TimesKey(front + [last], key);
            Leads(log, ExcludeEvents(front + [last]), key, if times > 0 then [] else ListFor(log, key), times > 0)
  {
    var times := TimesKey(front, key);
    LeadsStep(log, ExcludeEvents(front), Exclude(KeyOf(last)), key,
              if times > 0 then [] else ListFor(log, key), times > 0);
    assert (front + [last])[..|front|] == front;
    assert ExcludeEvents(front + [last]) == ExcludeEvents(front) + [Exclude(KeyOf(last))];
  }

  function Inclusions(u: string, domains: seq<string>): seq<Event> {
    if domains == [] then []
    else Inclusions(u, domains[..|domains| - 1]) + [Include(u, KeyOf(domains[|domains| - 1]))]
  }

  lemma {:induction false} InclusionsAre(u: string, domains: seq<string>)
    ensures |Inclusions(u, domains)| == |domains|
    ensures forall i :: 0 <= i < |domains| ==> Inclusions(u, domains)[i] == Include(u, KeyOf(domains[i]))
  {
    if domains != [] {
      InclusionsAre(u, domains[..|domains| - 1]);
    }
  }

  lemma SameInclusions(u: string, domains: seq<string>)
    requires domains != []
    ensures Inclusions(u, domains) == IncludeEvents(u, domains)
  {
    InclusionsAre(u, domains);
  }

  lemma Regrouped<T>(a: seq<T>, b: seq<T>, c: seq<T>)
    ensures (a + b) + c == a + (b + c)
  {}

  lemma {:induction false} InclusionsLead(log: seq<Event>, u: string, domains: seq<string>, key: Key)
    ensures var times := TimesKey(domains, key);
            Leads(log, Inclusions(u, domains), key, ListFor(log, key) + seq(times, _ => u), times > 0)
  {
    if domains == [] {
      LeadsNothing(log, key);
      assert ListFor(log, key) + [] == ListFor(log, key);
    } else {
      var front, last := domains[..|domains| - 1], domains[|domains| - 1];
      InclusionsLead(log, u, front, key);
      InclusionLeads(log, u, front, last, key);
    }
  }

  lemma InclusionLeads(log: seq<Event>, u: string, front: seq<string>, last: string, key: Key)
    requires Leads(log, Inclusions(u, front), key, ListFor(log, key) + seq(TimesKey(front, key), _ => u),
                   TimesKey(front, key) > 0)
    ensures var n := TimesKey(front, key) + if KeyOf(last) == key then 1 else 0;
            Leads(log, Inclusions(u, front) + [Include(u, KeyOf(last))], key,
                  ListFor(log, key) + seq(n, _ => u), n > 0)
  {
    var list, times := ListFor(log, key), TimesKey(front, key);
    LeadsStep(log, Inclusions(u, front), Include(u, KeyOf(last)), key, list + seq(times, _ => u), times > 0);
  }

  lemma {:induction false} AllLead(log: seq<Event>, ups: seq<string>, domains: seq<string>, key: Key)
    requires domains != []
    ensures var times := TimesKey(domains, key);
            Leads(log, AllEvents(ups, domains), key, ListFor(log, key) + Each(ups, times), times > 0 && ups != [])
  {
    if ups == [] {
      LeadsNothing(log, key);
      assert ListFor(log, key) + [] == ListFor(log, key);
    } else {
      AllLead(log, ups[..|ups| - 1], domains, key);
      OneLeads(log, ups[..|ups| - 1], ups[|ups| - 1], domains, key);
    }
  }

  lemma OneLeads(log: seq<Event>, front: seq<string>, u: string, domains: seq<string>, key: Key)
    requires domains != []
    requires Leads(log, AllEvents(front, domains), key, ListFor(log, key) + Each(front, TimesKey(domains, key)),
                   TimesKey(domains, key) > 0 && front != [])
    ensures var times := TimesKey(domains, key);
            Leads(log, AllEvents(front, domains) + IncludeEvents(u, domains), key,
                  ListFor(log, key) + (Each(front, times) + seq(times, _ => u)), times > 0)
  {
    var times, first := TimesKey(domains, key), AllEvents(front, domains);
    var list := ListFor(log, key);
    SameInclusions(u, domains);
    InclusionsLead(log + first, u, domains, key);
    Regrouped(list, Each(front, times), seq(times, _ => u));
    LeadsOn(log, first, IncludeEvents(u, domains), key, list + Each(front, times), seq(times, _ => u),
            times > 0 && front != [], times > 0);
  }

  lemma LeadsOn(
    log: seq<Event>, first: seq<Event>, second: seq<Event>, key: Key, list: seq<string>, more: seq<string>,
    named: bool, named': bool)
    requires Leads(log, first, key, list, named) && Leads(log + first, second, key, list + more, named')
    ensures Leads(log, first + second, key, list + more, named || named')
  {
    assert log + (first + second) == (log + first) + second;
  }

  // ----- Lines -----

  /** What one line adds to the log. */
  lemma EntryLeads(env: Env, log: seq<Event>, e: Entry, h: string, wild: bool)
    requires Fits(env, e)
    ensures var key := Key(h, wild);
            var log' := log + LineEvents(env, TextOf(e));
            && ListFor(log', key) == After(env, ListFor(log, key), e, h, wild)
            && (Named(log', key) <==> Named(log, key) || Touches(env, e, h, wild))
            && Defaults(log') == Defaults(log) + if e.Server? && env.makes(e.u) then [e.u] else []
  {
    OpensIff(TextOf(e));
    match e
    case Note(_) => LeadsNothing(log, Key(h, wild));
    case Server(u) => ServerLeads(env, log, u, Key(h, wild));
    case ForHosts(hosts, ups) => ForHostsLeads(env, log, hosts, ups, h, wild);
    case Malformed(text) => MalformedLeads(env, log, text, Key(h, wild));
  }

  lemma MalformedLeads(env: Env, log: seq<Event>, text: string, key: Key)
    requires Fits(env, Malformed(text))
    ensures SplitLine(env, text).Wrong? && log + LineEvents(env, text) == log
  {
    OpensIff(text);
    if SplitLine(env, text).Parts? {
      var hosts, ups := ListIsLine(env, text);
      ReadsAsIff(env, text, hosts, ups);
    }
  }

  lemma ServerEvents(env: Env, u: string)
    requires Fits(env, Server(u))
    ensures LineEvents(env, u) == if env.makes(u) then [Default(u)] else []
    ensures Outcome(env, u) == if env.makes(u) then Fine else LineResult.Failed
  {
    OpensIff(u);
    assert AllEvents([u], []) == [Default(u)];
  }

  lemma ServerLeads(env: Env, log: seq<Event>, u: string, key: Key)
    requires Fits(env, Server(u))
    ensures var log' := log + LineEvents(env, u);
            && ListFor(log', key) == ListFor(log, key) && (Named(log', key) <==> Named(log, key))
            && Defaults(log') == Defaults(log) + if env.makes(u) then [u] else []
    ensures Outcome(env, u) == if env.makes(u) then Fine else LineResult.Failed
  {
    ServerEvents(env, u);
    if env.makes(u) {
      ListForStep(log, Default(u), key);
      assert (log + [Default(u)])[..|log|] == log;
    } else {
      LeadsNothing(log, key);
    }
  }

  /** The log of a line that lists hosts. */
  lemma ForHostsEvents(env: Env, hosts: seq<string>, ups: string)
    requires Fits(env, ForHosts(hosts, ups))
    ensures var domains, fields := Domains(env, hosts), Fields(env.isSpace, ups);
            && domains != []
            && LineEvents(env, TextOf(ForHosts(hosts, ups))) ==
                 if fields == [] then [] else if fields[0] == "#" then ExcludeEvents(domains)
                 else AllEvents(Made(env, ups), domains)
  {
    var text := TextOf(ForHosts(hosts, ups));
    ReadsAsIff(env, text, hosts, ups);
    LineReadsBack(env, text, hosts, ups);
    OpensIff(text);
    EventsOfList(env, text, Fields(env.isSpace, ups), Domains(env, hosts));
  }

  lemma EventsOfList(env: Env, text: string, fields: seq<string>, domains: seq<string>)
    requires SplitLine(env, text) == Parts(fields, domains) && domains != [] && Opens(text)
    ensures LineEvents(env, text) ==
              if fields == [] then [] else if fields[0] == "#" then ExcludeEvents(domains)
              else AllEvents(fields[..MadeCount(env, fields)], domains)
    ensures Outcome(env, text) ==
              if fields == [] then Panicked
              else if fields[0] == "#" || MadeCount(env, fields) == |fields| then Fine
              else LineResult.Failed
  {}

  lemma ForHostsLeads(env: Env, log: seq<Event>, hosts: seq<string>, ups: string, h: string, wild: bool)
    requires Fits(env, ForHosts(hosts, ups))
    ensures var key, e := Key(h, wild), ForHosts(hosts, ups);
            Leads(log, LineEvents(env, TextOf(e)), key, After(env, ListFor(log, key), e, h, wild),
                  Touches(env, e, h, wild))
  {
    var key, domains, fields := Key(h, wild), Domains(env, hosts), Fields(env.isSpace, ups);
    ForHostsEvents(env, hosts, ups);
    TimesAre(env, hosts, h, wild);
    if fields == [] {
      LeadsNothing(log, key);
    } else if fields[0] == "#" {
      ExcludeLeads(log, domains, key);
    } else {
      AllLead(log, Made(env, ups), domains, key);
    }
  }

  /** The lines spell the entries. */
  ghost predicate Spells(env: Env, entries: seq<Entry>, lines: seq<string>) {
    |entries| == |lines| && forall k :: 0 <= k < |lines| ==> Fits(env, entries[k]) && TextOf(entries[k]) == lines[k]
  }

  /** The log of any lines declares for each host what their text says. */
  lemma {:induction false} LogMeansText(env: Env, entries: seq<Entry>, lines: seq<string>, h: string, wild: bool)
    requires Spells(env, entries, lines)
    ensures ListFor(Events(env, lines), Key(h, wild)) == ListOf(env, entries, h, wild)
    ensures Named(Events(env, lines), Key(h, wild)) <==> Touched(env, entries, h, wild)
    ensures Defaults(Events(env, lines)) == DefaultsOf(env, entries)
  {
    if lines != [] {
      var n := |lines| - 1;
      LogMeansText(env, entries[..n], lines[..n], h, wild);
      EntryLeads(env, Events(env, lines[..n]), entries[n], h, wild);
      TouchedStep(env, entries[..n], entries[n], h, wild);
      assert entries[..n] + [entries[n]] == entries;
    }
  }

  lemma TouchedStep(env: Env, entries: seq<Entry>, e: Entry, h: string, wild: bool)
    ensures Touched(env, entries + [e], h, wild) <==> Touched(env, entries, h, wild) || Touches(env, e, h, wild)
  {
    var all := entries + [e];
    if Touched(env, entries, h, wild) {
      var k :| 0 <= k < |entries| && Touches(env, entries[k], h, wild);
      assert Touches(env, all[k], h, wild);
    }
    if Touches(env, e, h, wild) {
      assert Touches(env, all[|entries|], h, wild);
    }
  }

  /** A line that can be read at all is reported exactly when its text is in error. */
  lemma OutcomeMeansText(env: Env, e: Entry)
    requires Fits(env, e) && Outcome(env, TextOf(e)) != Panicked
    ensures Outcome(env, TextOf(e)).Failed? <==> Errs(env, e)
  {
    OpensIff(TextOf(e));
    match e
    case Note(_) =>
    case Server(u) => ServerLeads(env, [], u, Key("", false));
    case ForHosts(hosts, ups) => ForHostsOutcome(env, hosts, ups);
    case Malformed(text) => MalformedLeads(env, [], text, Key("", false));
  }

  lemma ForHostsOutcome(env: Env, hosts: seq<string>, ups: string)
    requires Fits(env, ForHosts(hosts, ups)) && Outcome(env, TextOf(ForHosts(hosts, ups))) != Panicked
    ensures Outcome(env, TextOf(ForHosts(hosts, ups))).Failed? <==> Errs(env, ForHosts(hosts, ups))
  {
    var text, fields := TextOf(ForHosts(hosts, ups)), Fields(env.isSpace, ups);
    ReadsAsIff(env, text, hosts, ups);
    LineReadsBack(env, text, hosts, ups);
    OpensIff(text);
    EventsOfList(env, text, fields, Domains(env, hosts));
    PrefixWhole(fields, MadeCount(env, fields));
  }

  lemma PrefixWhole<T>(s: seq<T>, n: nat)
    requires n <= |s|
    ensures s[..n] == s <==> n == |s|
  {}

  lemma OutcomesMeanText(env: Env, entries: seq<Entry>, lines: seq<string>)
    requires Spells(env, entries, lines) && Panicked !in Outcomes(env, lines)
    ensures forall k :: 0 <= k < |lines| ==> (Outcomes(env, lines)[k].Failed? <==> Errs(env, entries[k]))
  {
    forall k | 0 <= k < |lines|
      ensures Outcomes(env, lines)[k].Failed? <==> Errs(env, entries[k])
    {
      OutcomesAt(env, lines, k);
      OutcomeMeansText(env, entries[k]);
    }
  }
}
