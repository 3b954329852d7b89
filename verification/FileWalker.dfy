/** The file walker (`internal/aghos/filewalker.go`): a list of files that grows while
    it is being walked. */
module FileWalkers {
  import opened Wrappers
  import opened Collections

  datatype Kind = Missing | Unopenable | Unstattable | Directory | Regular

  /** What the callback answers for a file. */
  datatype Reply = Reply(patterns: seq<string>, cont: bool, failed: bool)

  /** A file system and a callback.  A pattern that cannot be parsed has no matches. */
  datatype FileSystem = FileSystem(
    glob: string -> Option<seq<string>>,
    kind: string -> Kind,
    closes: string -> bool,
    callback: string -> Reply,
    names: set<string>)
  {
    /** Only the names of existing files match. */
    ghost predicate Valid() {
      forall p :: glob(p).Some? ==> forall m :: m in glob(p).value ==> m in names
    }
  }

  // ----- Steps -----

  /** checkFile: the answer for a path, or None on an error. */
  function CheckFile(fs: FileSystem, path: string): Option<Reply> {
    match fs.kind(path)
    case Missing => Some(Reply([], true, false))
    case Unopenable => None
    case Unstattable => None
    case Directory => if fs.closes(path) then Some(Reply([], true, false)) else None
    case Regular =>
      var r := fs.callback(path);
      if r.failed || !fs.closes(path) then None else Some(r)
  }

  predicate Distinct(s: seq<string>) {
    forall i, j :: 0 <= i < j < |s| ==> s[i] != s[j]
  }

  ghost predicate GoodPatterns(fs: FileSystem, patterns: seq<string>) {
    forall p :: p in patterns ==> fs.glob(p).Some?
  }

  /** The name is matched by one of the patterns. */
  ghost predicate Matched(fs: FileSystem, patterns: seq<string>, name: string) {
    exists p :: p in patterns && fs.glob(p).Some? && name in fs.glob(p).value
  }

  /** The elements of xs that are not in seen, each at its first occurrence. */
  function Unseen(seen: set<string>, xs: seq<string>): seq<string> {
    if xs == [] then []
    else
      var front, x := Unseen(seen, xs[..|xs| - 1]), xs[|xs| - 1];
      if x in seen || x in front then front else front + [x]
  }

  lemma {:induction false} UnseenElems(seen: set<string>, xs: seq<string>)
    ensures Distinct(Unseen(seen, xs))
    ensures Elems(Unseen(seen, xs)) == Elems(xs) - seen
  {
    if xs != [] {
      var xs', x := xs[..|xs| - 1], xs[|xs| - 1];
      UnseenElems(seen, xs');
      var front := Unseen(seen, xs');
      assert xs == xs' + [x];
      assert Elems(xs) == Elems(xs') + {x};
      assert Elems(front + [x]) == Elems(front) + {x};
      assert x in front <==> x in Elems(front);
    }
  }

  lemma {:induction false} UnseenConcat(seen: set<string>, xs: seq<string>, ys: seq<string>)
    ensures Unseen(seen, xs + ys) == Unseen(seen, xs) + Unseen(seen + Elems(xs), ys)
  {
    if ys == [] {
      assert xs + ys == xs;
    } else {
      var ys', y := ys[..|ys| - 1], ys[|ys| - 1];
      UnseenConcat(seen, xs, ys');
      assert (xs + ys)[..|xs + ys| - 1] == xs + ys';
      UnseenElems(seen, xs);
      assert y in Unseen(seen, xs) <==> y in Elems(Unseen(seen, xs));
    }
  }

  /** All matches of the patterns, in order. */
  function AllMatches(fs: FileSystem, patterns: seq<string>): seq<string> {
    if patterns == [] then []
    else
      var matches := fs.glob(patterns[|patterns| - 1]);
      AllMatches(fs, patterns[..|patterns| - 1]) + if matches.Some? then matches.value else []
  }

  lemma {:induction false} AllMatchesMatched(fs: FileSystem, patterns: seq<string>, name: string)
    ensures name in AllMatches(fs, patterns) <==> Matched(fs, patterns, name)
  {
    if patterns != [] {
      var front, p := patterns[..|patterns| - 1], patterns[|patterns| - 1];
      AllMatchesMatched(fs, front, name);
      assert patterns == front + [p];
    }
  }

  lemma MatchesStep(fs: FileSystem, patterns: seq<string>, k: nat, seen: set<string>)
    requires k < |patterns| && fs.glob(patterns[k]).Some?
    ensures var done, matches := AllMatches(fs, patterns[..k]), fs.glob(patterns[k]).value;
            && Unseen(seen, AllMatches(fs, patterns[..k + 1])) ==
               Unseen(seen, done) + Unseen(seen + Elems(done), matches)
            && Elems(AllMatches(fs, patterns[..k + 1])) == Elems(done) + Elems(matches)
  {
    var done, matches := AllMatches(fs, patterns[..k]), fs.glob(patterns[k]).value;
    assert patterns[..k + 1][..k] == patterns[..k];
    UnseenConcat(seen, done, matches);
    assert Elems(done + matches) == Elems(done) + Elems(matches);
  }

  /** The set of names that handlePatterns is given, and adds to. */
  class SourceSet {
    var names: set<string>

    constructor ()
      ensures names == {}
    {
      names := {};
    }
  }

  /** The inner loop of handlePatterns. */
  method HandleMatches(srcSet: SourceSet, matches: seq<string>, ghost seen: set<string>) returns (sub: seq<string>)
    requires seen == srcSet.names
    modifies srcSet
    ensures sub == Unseen(seen, matches)
    ensures srcSet.names == seen + Elems(matches)
  {
    sub := [];
    for k := 0 to |matches|
      invariant sub == Unseen(seen, matches[..k])
      invariant srcSet.names == seen + Elems(matches[..k])
    {
      var m := matches[k];
      assert matches[..k + 1][..k] == matches[..k];
      assert Elems(matches[..k + 1]) == Elems(matches[..k]) + {m};
      UnseenElems(seen, matches[..k]);
      assert m in sub <==> m in Elems(sub);
      if m !in srcSet.names {
        srcSet.names := srcSet.names + {m};
        sub := sub + [m];
      }
    }
    assert matches[..|matches|] == matches;
  }

  /** handlePatterns: the new matches of the patterns, or a pattern that is bad. */
  method HandlePatterns(
    fs: FileSystem, srcSet: SourceSet, patterns: seq<string>)
    returns (sub: seq<string>, bad: Option<string>)
    modifies srcSet
    ensures bad.None? <==> GoodPatterns(fs, patterns)
    ensures bad.None? ==> sub == Unseen(old(srcSet.names), AllMatches(fs, patterns))
    ensures bad.None? ==> srcSet.names == old(srcSet.names) + Elems(AllMatches(fs, patterns))
    ensures bad.Some? ==> bad.value in patterns && fs.glob(bad.value).None? && sub == []
  {
    sub := [];
    ghost var seen := srcSet.names;
    for k := 0 to |patterns|
      invariant forall i :: 0 <= i < k ==> fs.glob(patterns[i]).Some?
      invariant sub == Unseen(seen, AllMatches(fs, patterns[..k]))
      invariant srcSet.names == seen + Elems(AllMatches(fs, patterns[..k]))
    {
      var matches := fs.glob(patterns[k]);
      if matches.None? {
        return [], Some(patterns[k]);
      }
      MatchesStep(fs, patterns, k, seen);
      var more := HandleMatches(srcSet, matches.value, srcSet.names);
      sub := sub + more;
    }
    assert patterns[..|patterns|] == patterns;
    bad := None;
  }

  // ----- What a walk can reach -----

  /** The callback is called for f, and everything goes well. */
  predicate Visits(fs: FileSystem, f: string) {
    fs.kind(f).Regular? && !fs.callback(f).failed && fs.closes(f)
  }

  /** Walking f leads to g: the callback returns a pattern that matches g. */
  ghost predicate LeadsTo(fs: FileSystem, f: string, g: string) {
    Visits(fs, f) && Matched(fs, fs.callback(f).patterns, g)
  }

  ghost predicate IsPath(fs: FileSystem, initial: seq<string>, path: seq<string>) {
    && path != [] && Matched(fs, initial, path[0])
    && forall i :: 0 < i < |path| ==> LeadsTo(fs, path[i - 1], path[i])
  }

  /** f is in the closure of the initial patterns under returned patterns. */
  ghost predicate Reachable(fs: FileSystem, initial: seq<string>, f: string) {
    exists path :: IsPath(fs, initial, path) && path[|path| - 1] == f
  }

  lemma ReachFirst(fs: FileSystem, initial: seq<string>, f: string)
    requires Matched(fs, initial, f)
    ensures Reachable(fs, initial, f)
  {
    assert IsPath(fs, initial, [f]);
  }

  lemma ReachNext(fs: FileSystem, initial: seq<string>, f: string, g: string)
    requires Reachable(fs, initial, f) && LeadsTo(fs, f, g)
    ensures Reachable(fs, initial, g)
  {
    var path :| IsPath(fs, initial, path) && path[|path| - 1] == f;
    var longer := path + [g];
    forall i | 0 < i < |longer|
      ensures LeadsTo(fs, longer[i - 1], longer[i])
    {
      assert i < |path| ==> longer[i] == path[i];
    }
    assert IsPath(fs, initial, longer);
  }

  /** The file ends the walk, because the callback says so. */
  ghost predicate Stops(fs: FileSystem, f: string) {
    Visits(fs, f) && !fs.callback(f).cont
  }

  /** The file ends the walk with an error: it cannot be opened, examined or closed, the
      callback fails, or the callback goes on with a bad pattern. */
  ghost predicate Fails(fs: FileSystem, f: string) {
    match fs.kind(f)
    case Missing => false
    case Unopenable => true
    case Unstattable => true
    case Directory => !fs.closes(f)
    case Regular =>
      var r := fs.callback(f);
      r.failed || !fs.closes(f) || (r.cont && !GoodPatterns(fs, r.patterns))
  }

  /** checkFile answers as the file is. */
  lemma CheckFileIs(fs: FileSystem, f: string)
    ensures CheckFile(fs, f).Some? && !CheckFile(fs, f).value.cont <==> Stops(fs, f)
    ensures Fails(fs, f) <==>
              CheckFile(fs, f).None?
              || (CheckFile(fs, f).value.cont && !GoodPatterns(fs, CheckFile(fs, f).value.patterns))
    ensures CheckFile(fs, f).Some? ==>
              forall g :: LeadsTo(fs, f, g) <==> Matched(fs, CheckFile(fs, f).value.patterns, g)
  {}

  /** The set has the initial matches and what its elements lead to. */
  ghost predicate Closed(fs: FileSystem, initial: seq<string>, s: set<string>) {
    && (forall f :: Matched(fs, initial, f) ==> f in s)
    && (forall f, g :: f in s && LeadsTo(fs, f, g) ==> g in s)
  }

  lemma {:induction false} ClosedHasPath(fs: FileSystem, initial: seq<string>, s: set<string>, path: seq<string>)
    requires Closed(fs, initial, s) && IsPath(fs, initial, path)
    ensures path[|path| - 1] in s
    decreases |path|
  {
    if |path| > 1 {
      ClosedHasPath(fs, initial, s, path[..|path| - 1]);
    }
  }

  /** The closure is the least closed set. */
  lemma ClosedHasReachable(fs: FileSystem, initial: seq<string>, s: set<string>, f: string)
    requires Closed(fs, initial, s) && Reachable(fs, initial, f)
    ensures f in s
  {
    var path :| IsPath(fs, initial, path) && path[|path| - 1] == f;
    ClosedHasPath(fs, initial, s, path);
  }

  // ----- The walk -----

  datatype Outcome = Stopped | Finished | BadPattern(pattern: string) | Failed(file: string)

  ghost predicate Found(fs: FileSystem, initial: seq<string>, src: seq<string>) {
    forall f :: f in src ==> f in fs.names && Reachable(fs, initial, f)
  }

  ghost predicate Started(fs: FileSystem, initial: seq<string>, src: seq<string>) {
    forall f :: Matched(fs, initial, f) ==> f in src
  }

  ghost predicate Followed(fs: FileSystem, src: seq<string>, f: string) {
    !Stops(fs, f) && !Fails(fs, f) && forall g :: LeadsTo(fs, f, g) ==> g in src
  }

  /** The first k sources have been walked. */
  ghost predicate Walked(fs: FileSystem, initial: seq<string>, src: seq<string>, k: nat) {
    && k <= |src| && Distinct(src) && Found(fs, initial, src) && Started(fs, initial, src)
    && forall i :: 0 <= i < k ==> Followed(fs, src, src[i])
  }

  lemma WalkedFirst(fs: FileSystem, initial: seq<string>)
    requires fs.Valid() && GoodPatterns(fs, initial)
    ensures Walked(fs, initial, Unseen({}, AllMatches(fs, initial)), 0)
    ensures Elems(Unseen({}, AllMatches(fs, initial))) == Elems(AllMatches(fs, initial))
  {
    var matches := AllMatches(fs, initial);
    var src := Unseen({}, matches);
    UnseenElems({}, matches);
    forall f
      ensures f in src <==> Matched(fs, initial, f)
    {
      AllMatchesMatched(fs, initial, f);
      assert f in src <==> f in Elems(src);
    }
    forall f | f in src
      ensures f in fs.names && Reachable(fs, initial, f)
    {
      ReachFirst(fs, initial, f);
    }
  }

  /** The new sources that walking f gives. */
  ghost function Sub(fs: FileSystem, src: seq<string>, f: string): seq<string>
    requires CheckFile(fs, f).Some?
  {
    Unseen(Elems(src), AllMatches(fs, CheckFile(fs, f).value.patterns))
  }

  lemma SubElems(fs: FileSystem, src: seq<string>, f: string)
    requires CheckFile(fs, f).Some?
    ensures Distinct(Sub(fs, src, f))
    ensures forall g :: g in Sub(fs, src, f) <==> g !in src && LeadsTo(fs, f, g)
    ensures Elems(src + Sub(fs, src, f)) == Elems(src) + Elems(AllMatches(fs, CheckFile(fs, f).value.patterns))
  {
    CheckFileIs(fs, f);
    var matches := AllMatches(fs, CheckFile(fs, f).value.patterns);
    var sub := Sub(fs, src, f);
    UnseenElems(Elems(src), matches);
    forall g
      ensures g in sub <==> g !in src && LeadsTo(fs, f, g)
    {
      AllMatchesMatched(fs, CheckFile(fs, f).value.patterns, g);
      assert g in sub <==> g in Elems(sub);
    }
    assert Elems(src + sub) == Elems(src) + Elems(sub);
  }

  lemma FoundNext(fs: FileSystem, initial: seq<string>, src: seq<string>, f: string, sub: seq<string>)
    requires fs.Valid() && Found(fs, initial, src) && f in src && forall g :: g in sub ==> LeadsTo(fs, f, g)
    ensures Found(fs, initial, src + sub)
  {
    forall g | g in sub
      ensures g in fs.names && Reachable(fs, initial, g)
    {
      assert LeadsTo(fs, f, g);
      ReachNext(fs, initial, f, g);
    }
  }

  lemma WalkedNext(fs: FileSystem, initial: seq<string>, src: seq<string>, k: nat)
    requires fs.Valid() && k < |src| && Walked(fs, initial, src, k) && !Stops(fs, src[k]) && !Fails(fs, src[k])
    ensures Walked(fs, initial, src + Sub(fs, src, src[k]), k + 1)
  {
    var sub := Sub(fs, src, src[k]);
    SubElems(fs, src, src[k]);
    AppendDistinct(src, sub);
    FoundNext(fs, initial, src, src[k], sub);
    FollowedNext(fs, src, k, sub);
  }

  lemma FollowedNext(fs: FileSystem, src: seq<string>, k: nat, sub: seq<string>)
    requires k < |src| && !Stops(fs, src[k]) && !Fails(fs, src[k])
    requires forall i :: 0 <= i < k ==> Followed(fs, src, src[i])
    requires forall g :: LeadsTo(fs, src[k], g) ==> g in src || g in sub
    ensures forall i :: 0 <= i < k + 1 ==> Followed(fs, src + sub, (src + sub)[i])
  {
    forall i | 0 <= i < k + 1
      ensures Followed(fs, src + sub, (src + sub)[i])
    {
      assert (src + sub)[i] == src[i];
    }
  }

  lemma AppendDistinct(s: seq<string>, t: seq<string>)
    requires Distinct(s) && Distinct(t) && forall x :: x in t ==> x !in s
    ensures Distinct(s + t)
  {
    forall i, j | 0 <= i < j < |s + t|
      ensures (s + t)[i] != (s + t)[j]
    {
      if i < |s| <= j {
        assert t[j - |s|] in t;
      }
    }
  }

  lemma WalkedAll(fs: FileSystem, initial: seq<string>, src: seq<string>, f: string)
    requires Walked(fs, initial, src, |src|)
    ensures f in src <==> Reachable(fs, initial, f)
  {
    if Reachable(fs, initial, f) {
      assert Closed(fs, initial, Elems(src)) by {
        forall f, g | f in Elems(src) && LeadsTo(fs, f, g)
          ensures g in Elems(src)
        {
          var i :| 0 <= i < |src| && src[i] == f;
          assert Followed(fs, src, src[i]);
        }
      }
      ClosedHasReachable(fs, initial, Elems(src), f);
    }
  }

  /** How a walk that has come to its result has gone: no file is visited twice or
      without being reachable, and the walk ends at the first file that stops it or
      fails. */
  ghost predicate Result(fs: FileSystem, initial: seq<string>, outcome: Outcome, visited: seq<string>) {
    && Distinct(visited)
    && (forall f :: f in visited ==> Reachable(fs, initial, f))
    && (forall i :: 0 <= i < |visited| - 1 ==> !Stops(fs, visited[i]) && !Fails(fs, visited[i]))
    && match outcome
       case Finished =>
         && GoodPatterns(fs, initial)
         && (forall f :: Reachable(fs, initial, f) ==> f in visited && !Stops(fs, f) && !Fails(fs, f))
       case Stopped => visited != [] && Stops(fs, visited[|visited| - 1])
       case Failed(file) => visited != [] && file == visited[|visited| - 1] && Fails(fs, file)
       case BadPattern(p) => visited == [] && p in initial && fs.glob(p).None?
  }

  lemma ResultEnded(fs: FileSystem, initial: seq<string>, src: seq<string>, k: nat, outcome: Outcome)
    requires k < |src| && Walked(fs, initial, src, k) && EndsAt(fs, src[k], outcome)
    ensures Result(fs, initial, outcome, src[..k + 1])
  {}

  lemma ResultFinished(fs: FileSystem, initial: seq<string>, src: seq<string>)
    requires Walked(fs, initial, src, |src|) && GoodPatterns(fs, initial)
    ensures Result(fs, initial, Finished, src)
  {
    forall f | Reachable(fs, initial, f)
      ensures f in src && !Stops(fs, f) && !Fails(fs, f)
    {
      WalkedAll(fs, initial, src, f);
      var i :| 0 <= i < |src| && src[i] == f;
      assert Followed(fs, src, src[i]);
    }
    forall i | 0 <= i < |src|
      ensures !Stops(fs, src[i]) && !Fails(fs, src[i])
    {
      assert Followed(fs, src, src[i]);
    }
  }

  /** The file ends the walk. */
  ghost predicate EndsAt(fs: FileSystem, f: string, outcome: Outcome) {
    || (outcome == Stopped && Stops(fs, f))
    || (outcome == Failed(f) && Fails(fs, f))
  }

  /** One turn of Walk, at a file that does not end it or does. */
  method WalkFile(fs: FileSystem, ghost initial: seq<string>, srcSet: SourceSet, src: seq<string>, i: nat)
      returns (end: Option<Outcome>, src': seq<string>)
    requires fs.Valid() && i < |src| && Walked(fs, initial, src, i) && srcSet.names == Elems(src)
    modifies srcSet
    ensures end.Some? ==> EndsAt(fs, src[i], end.value)
    ensures end.None? ==> Walked(fs, initial, src', i + 1) && srcSet.names == Elems(src')
    ensures end.None? ==> src <= src' && (src' == src || old(srcSet.names) < srcSet.names)
  {
    src' := src;
    CheckFileIs(fs, src[i]);
    var reply := CheckFile(fs, src[i]);
    if reply.None? {
      return Some(Failed(src[i])), src;
    }
    if !reply.value.cont {
      return Some(Stopped), src;
    }
    var sub, bad := HandlePatterns(fs, srcSet, reply.value.patterns);
    if bad.Some? {
      return Some(Failed(src[i])), src;
    }
    WalkedNext(fs, initial, src, i);
    SubElems(fs, src, src[i]);
    src' := src + sub;
    end := None;
    assert sub != [] ==> sub[0] in sub && sub[0] in Elems(src + sub);
  }

  /** Walk.  The files that are checked are recorded in the order they are. */
  method Walk(fs: FileSystem, initial: seq<string>) returns (outcome: Outcome, visited: seq<string>)
    requires fs.Valid()
    ensures Result(fs, initial, outcome, visited)
  {
    var srcSet := new SourceSet();
    var src, bad := HandlePatterns(fs, srcSet, initial);
    if bad.Some? {
      return BadPattern(bad.value), [];
    }
    WalkedFirst(fs, initial);
    var i := 0;
    while i < |src|
      invariant Walked(fs, initial, src, i)
      invariant srcSet.names == Elems(src)
      decreases fs.names - srcSet.names, |src| - i
    {
      var end, src' := WalkFile(fs, initial, srcSet, src, i);
      if end.Some? {
        ResultEnded(fs, initial, src, i, end.value);
        return end.value, src[..i + 1];
      }
      src := src';
      i := i + 1;
    }
    ResultFinished(fs, initial, src);
    return Finished, src;
  }

  /** On a file system without errors a walk that has ended was stopped if and only if
      some reachable file says stop; otherwise it has visited exactly the closure. */
  lemma StoppedIff(fs: FileSystem, initial: seq<string>, outcome: Outcome, visited: seq<string>)
    requires Result(fs, initial, outcome, visited)
    requires GoodPatterns(fs, initial) && forall f :: Reachable(fs, initial, f) ==> !Fails(fs, f)
    ensures outcome == Stopped || outcome == Finished
    ensures outcome == Stopped <==> exists f :: Reachable(fs, initial, f) && Stops(fs, f)
    ensures outcome == Finished ==> forall f :: f in visited <==> Reachable(fs, initial, f)
  {}
}
