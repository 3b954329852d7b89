/** The cache of custom upstream configurations, `internal/client/upstreammanager.go`:
    built lazily, rebuilt when the client or the common settings have changed, and
    owning the configurations it has opened. */
module UpstreamManagers {
  import opened Wrappers
  import opened Clients

  type Time = nat

  /** The settings shared by all custom configurations. */
  datatype CommonConf = CommonConf(
    bootstrap: string,
    timeout: nat,
    preferIPv6: bool,
    ednsClientSubnet: bool,
    http3: bool)

  /** The part of a client that its configuration is built from. */
  datatype Settings = Settings(upstreams: seq<string>, cacheSize: nat, cacheEnabled: bool)

  function SettingsOf(c: Persistent): Settings {
    Settings(c.upstreams, c.upstreamsCacheSize, c.upstreamsCacheEnabled)
  }

  predicate IsCommentOrEmpty(line: string) {
    line == "" || line[0] == '#'
  }

  function FilterOut(lines: seq<string>): (r: seq<string>)
    ensures forall i :: 0 <= i < |r| ==> !IsCommentOrEmpty(r[i])
    ensures r == [] <==> forall i :: 0 <= i < |lines| ==> IsCommentOrEmpty(lines[i])
  {
    if lines == [] then []
    else
      var rest := FilterOut(lines[1..]);
      assert forall i :: 1 <= i < |lines| ==> lines[i] == lines[1..][i - 1];
      if IsCommentOrEmpty(lines[0]) then rest else [lines[0]] + rest
  }

  /** The contents of an upstream configuration. */
  datatype Built = Built(upstreams: seq<string>, cacheEnabled: bool, cacheSize: nat, common: CommonConf)

  /** What a build would give now; None for a client without own upstreams. */
  function FreshBuild(settings: Settings, common: Option<CommonConf>): Option<Built>
    requires CanBuild(settings, common)
  {
    var upstreams := FilterOut(settings.upstreams);
    if upstreams == [] then None
    else Some(Built(upstreams, settings.cacheEnabled, settings.cacheSize, common.value))
  }

  /** Own upstreams cannot be built before the common settings are known. */
  predicate CanBuild(settings: Settings, common: Option<CommonConf>) {
    common.Some? || FilterOut(settings.upstreams) == []
  }

  /** Filtering keeps the other lines, in order. */
  lemma {:induction false} FilterOutAppend(lines: seq<string>, line: string)
    ensures FilterOut(lines + [line]) == FilterOut(lines) + if line == "" || line[0] == '#' then [] else [line]
  {
    if lines == [] {
      assert [] + [line] == [line] && [line][1..] == [];
    } else {
      FilterOutAppend(lines[1..], line);
      assert (lines + [line])[1..] == lines[1..] + [line];
    }
  }

  /** What is built: the client's upstreams without comments, its cache settings, and
      the common settings; nothing for a client that has only comments. */
  lemma FreshBuildIs(c: Persistent, common: CommonConf)
    ensures var b := FreshBuild(SettingsOf(c), Some(common));
            && (b.None? <==> forall i :: 0 <= i < |c.upstreams| ==> c.upstreams[i] == "" || c.upstreams[i][0] == '#')
            && (b.Some? ==>
                  && b.value.upstreams == FilterOut(c.upstreams) && b.value.common == common
                  && b.value.cacheEnabled == c.upstreamsCacheEnabled && b.value.cacheSize == c.upstreamsCacheSize)
  {}

  /** An upstream configuration, which holds resources until it is closed. */
  class ProxyConf {
    const built: Built
    var closed: bool

    constructor (built: Built)
      ensures this.built == built && !closed
    {
      this.built := built;
      closed := false;
    }

    method Close()
      requires !closed
      modifies this
      ensures closed
    {
      closed := true;
    }
  }

  datatype Entry = Entry(proxyConf: ProxyConf?, commonConfUpdate: Time, settings: Settings, isChanged: bool)

  predicate NeedsBuild(e: Entry, confUpdate: Time) {
    confUpdate != e.commonConfUpdate || e.isChanged
  }

  ghost predicate Shows(conf: ProxyConf?, b: Option<Built>) {
    if conf == null then b.None? else b == Some(conf.built)
  }

  ghost predicate Stores(confs: map<UID, Entry>, u: UID, h: ProxyConf) {
    u in confs && confs[u].proxyConf == h
  }

  class UpstreamManager {
    var uidToCustomConf: map<UID, Entry>
    var commonConf: Option<CommonConf>
    var confUpdate: Time

    /** Every configuration that was ever opened. */
    ghost var made: set<ProxyConf>

    /** The configurations that are open are exactly the stored ones, and each is
        stored once. */
    ghost predicate Owned()
      reads this, made
    {
      && (forall u :: u in uidToCustomConf && uidToCustomConf[u].proxyConf != null ==>
            uidToCustomConf[u].proxyConf in made && !uidToCustomConf[u].proxyConf.closed)
      && (forall h :: h in made && !h.closed ==> exists u :: Stores(uidToCustomConf, u, h))
      && (forall u, v :: u in uidToCustomConf && v in uidToCustomConf && u != v ==>
            uidToCustomConf[u].proxyConf == null || uidToCustomConf[u].proxyConf != uidToCustomConf[v].proxyConf)
    }

    /** Every configuration that would be returned without a rebuild is what a
        fresh build would give. */
    ghost predicate UpToDate()
      reads this
    {
      forall u :: u in uidToCustomConf ==> EntryUpToDate(uidToCustomConf[u])
    }

    ghost predicate EntryUpToDate(e: Entry)
      reads this
    {
      && e.commonConfUpdate <= confUpdate
      && (!NeedsBuild(e, confUpdate) ==>
            CanBuild(e.settings, commonConf) && Shows(e.proxyConf, FreshBuild(e.settings, commonConf)))
    }

    constructor ()
      ensures Owned() && UpToDate() && uidToCustomConf == map[] && made == {}
    {
      uidToCustomConf, commonConf, confUpdate := map[], None, 0;
      made := {};
    }

    /** Common settings that come with the time now are told from the current ones, or
        do not matter to any configuration that would be returned without a rebuild. */
    ghost predicate Noticed(conf: CommonConf, now: Time)
      reads this
    {
      confUpdate < now
      || forall u :: u in uidToCustomConf ==>
           NeedsBuild(uidToCustomConf[u], now)
           || FilterOut(uidToCustomConf[u].settings.upstreams) == []
           || commonConf == Some(conf)
    }

    /** Takes new common settings over.  With a clock that does not go back, the cache
        stays up to date if and only if the change is noticed. */
    method UpdateCommonUpstreamConfig(conf: CommonConf, now: Time)
      requires Owned()
      modifies this`commonConf, this`confUpdate
      ensures Owned() && commonConf == Some(conf) && confUpdate == now
      ensures old(UpToDate()) && old(confUpdate) <= now ==> (UpToDate() <==> old(Noticed(conf, now)))
    {
      commonConf := Some(conf);
      confUpdate := now;
    }

    /** Records the settings of a new or changed client. */
    method UpdateCustomUpstreamConfig(c: Persistent)
      requires Owned()
      modifies this`uidToCustomConf
      ensures Owned() && (old(UpToDate()) ==> UpToDate())
      ensures uidToCustomConf.Keys == old(uidToCustomConf).Keys + {c.uid}
      ensures uidToCustomConf[c.uid].settings == SettingsOf(c) && uidToCustomConf[c.uid].isChanged
      ensures forall u :: u in old(uidToCustomConf) && u != c.uid ==> uidToCustomConf[u] == old(uidToCustomConf)[u]
    {
      var e := if c.uid in uidToCustomConf then uidToCustomConf[c.uid]
               else Entry(null, confUpdate, Settings([], 0, false), false);
      uidToCustomConf := uidToCustomConf[c.uid := e.(settings := SettingsOf(c), isChanged := true)];
      assert forall u, h :: Stores(old(uidToCustomConf), u, h) ==> Stores(uidToCustomConf, u, h);
    }

    /** Returns the configuration of a client.  While the cache is up to date it is
        what a fresh build would give, and it is open. */
    method CustomUpstreamConfig(uid: UID) returns (conf: ProxyConf?)
      requires Owned()
      requires uid in uidToCustomConf && NeedsBuild(uidToCustomConf[uid], confUpdate) ==>
                 CanBuild(uidToCustomConf[uid].settings, commonConf)
      modifies this`uidToCustomConf, this`made, made
      ensures Owned() && old(made) <= made && fresh(made - old(made))
      ensures uid !in old(uidToCustomConf) ==> conf == null && uidToCustomConf == old(uidToCustomConf)
      ensures conf != null ==> !conf.closed && Stores(uidToCustomConf, uid, conf)
      ensures uid in old(uidToCustomConf) ==>
                var e := old(uidToCustomConf)[uid];
                if NeedsBuild(e, confUpdate) then
                  && Shows(conf, FreshBuild(e.settings, commonConf))
                  && uidToCustomConf == old(uidToCustomConf)[uid := Entry(conf, confUpdate, e.settings, false)]
                else conf == e.proxyConf && uidToCustomConf == old(uidToCustomConf)
      ensures old(UpToDate()) ==> UpToDate()
      ensures old(UpToDate()) && uid in old(uidToCustomConf) ==>
                var settings := old(uidToCustomConf)[uid].settings;
                CanBuild(settings, commonConf) && Shows(conf, FreshBuild(settings, commonConf))
    {
      if uid !in uidToCustomConf {
        return null;
      }
      var e := uidToCustomConf[uid];
      if !NeedsBuild(e, confUpdate) {
        return e.proxyConf;
      }
      conf := Rebuild(uid);
    }

    /** Closes the configuration of a client and builds it anew. */
    method Rebuild(uid: UID) returns (conf: ProxyConf?)
      requires Owned() && uid in uidToCustomConf && CanBuild(uidToCustomConf[uid].settings, commonConf)
      modifies this`uidToCustomConf, this`made, made
      ensures Owned() && old(made) <= made && fresh(made - old(made))
      ensures conf != null ==> !conf.closed
      ensures Shows(conf, FreshBuild(old(uidToCustomConf)[uid].settings, commonConf))
      ensures uidToCustomConf == old(uidToCustomConf)[uid :=
                Entry(conf, confUpdate, old(uidToCustomConf)[uid].settings, false)]
    {
      var e := uidToCustomConf[uid];
      if e.proxyConf != null {
        e.proxyConf.Close();
      }
      var build := FreshBuild(e.settings, commonConf);
      conf := null;
      if build.Some? {
        conf := new ProxyConf(build.value);
        made := made + {conf};
      }
      e := e.(proxyConf := conf, commonConfUpdate := confUpdate, isChanged := false);
      uidToCustomConf := uidToCustomConf[uid := e];
      forall h | h in made && !h.closed
        ensures exists u :: Stores(uidToCustomConf, u, h)
      {
        if h == conf {
          assert Stores(uidToCustomConf, uid, h);
        } else {
          var u :| Stores(old(uidToCustomConf), u, h);
          assert Stores(uidToCustomConf, u, h);
        }
      }
    }

    /** Forgets a client and closes its configuration. */
    method Remove(uid: UID) returns (ok: bool)
      requires Owned()
      modifies this`uidToCustomConf, made
      ensures Owned() && (old(UpToDate()) ==> UpToDate())
      ensures ok <==> uid in old(uidToCustomConf)
      ensures uidToCustomConf == old(uidToCustomConf) - {uid}
      ensures ok && old(uidToCustomConf)[uid].proxyConf != null ==> old(uidToCustomConf)[uid].proxyConf.closed
    {
      if uid !in uidToCustomConf {
        assert uidToCustomConf - {uid} == uidToCustomConf;
        return false;
      }
      var e := uidToCustomConf[uid];
      uidToCustomConf := uidToCustomConf - {uid};
      if e.proxyConf != null {
        e.proxyConf.Close();
      }
      forall h | h in made && !h.closed
        ensures exists u :: Stores(uidToCustomConf, u, h)
      {
        var u :| Stores(old(uidToCustomConf), u, h);
        assert Stores(uidToCustomConf, u, h);
      }
      return true;
    }

    /** Shuts down: closes every open configuration, each once. */
    method CloseAll()
      requires Owned()
      modifies made
      ensures forall h :: h in made ==> h.closed
    {
      var left := uidToCustomConf.Keys;
      while left != {}
        invariant left <= uidToCustomConf.Keys
        invariant forall u :: u in left && uidToCustomConf[u].proxyConf != null ==>
                    uidToCustomConf[u].proxyConf in made && !uidToCustomConf[u].proxyConf.closed
        invariant forall h :: h in made && !h.closed ==> exists u :: u in left && Stores(uidToCustomConf, u, h)
        decreases left
      {
        var u :| u in left;
        ghost var before := left;
        left := left - {u};
        var conf := uidToCustomConf[u].proxyConf;
        if conf != null {
          conf.Close();
        }
        forall h | h in made && !h.closed
          ensures exists v :: v in left && Stores(uidToCustomConf, v, h)
        {
          var v :| v in before && Stores(uidToCustomConf, v, h);
          assert v in left;
        }
      }
    }
  }

  // ----- Timestamps -----

  /** When the common settings change twice at one instant, a client whose upstreams
      were built in between is served what it was served before: the first
      settings. */
  method ServeStale(
    c: Persistent, first: CommonConf, second: CommonConf, now: Time)
    returns (served: ProxyConf?, m: UpstreamManager)
    requires first != second && FilterOut(c.upstreams) != []
    ensures m.Owned() && !m.UpToDate() && m.commonConf == Some(second)
    ensures Shows(served, FreshBuild(SettingsOf(c), Some(first)))
    ensures !Shows(served, FreshBuild(SettingsOf(c), m.commonConf))
  {
    m := new UpstreamManager();
    m.UpdateCommonUpstreamConfig(first, now);
    m.UpdateCustomUpstreamConfig(c);
    var built := m.CustomUpstreamConfig(c.uid);
    m.UpdateCommonUpstreamConfig(second, now);
    served := m.CustomUpstreamConfig(c.uid);
  }
}
