/**
 * The query service: the cache-through policy in front of the graph cache
 * and the live walker. Each service call first finds the repository host,
 * clones, and resolves the references. It then reads the cache with the
 * resolved ids and returns a non-empty result as it is. On an empty result
 * it walks live, saves the walked list and returns it. Any fault inside
 * that sequence falls back to one more live walk, whose result, or error,
 * is what the caller gets.
 *
 * The collaborators' faults are parameters: `source` is the cloned
 * repository (None when the clone fails), `readFails` and `saveFails` say
 * whether the cache read or the save raises. The by-depth and first-commit
 * walkers are given as their outcomes.
 */
module Query {
  import opened GitModel
  import opened CacheGraph
  import opened Db
  import opened Factory
  import Refs
  import Walker

  /** What a service call returns: rows read from the cache, or records walked live. */
  datatype Answer = Cached(rows: seq<Row>) | Live(records: seq<Record>)

  /** A call the service makes to a collaborator. */
  datatype Event =
    | ReadBetween(url: Url, startId: Id, endId: Id)
    | ReadByDepth(url: Url, startId: Id, maxDepth: int)
    | WalkBetween(url: Url, startRef: string, endRef: string)
    | WalkByDepth(url: Url, startRef: string, maxDepth: int)
    | WalkFirst(url: Url)
    | Save(url: Url, commits: seq<Record>)

  /** The outcome of one service call: its answer, the store after it, and the calls it made in order. */
  datatype Served<A> = Served(answer: Result<A, GitError>, store: Store, calls: seq<Event>)

  /** The live between-walk, including the clone it starts with. */
  function LiveBetween(source: Option<GitRepo>, startRef: string, endRef: string): Result<seq<Record>, GitError>
    requires source.Some? ==> WellFormed(source.value)
  {
    if source.None? then Err(SourceUnavailable) else Walker.CommitsBetween(source.value, startRef, endRef)
  }

  function LiveAnswer(walk: Result<seq<Record>, GitError>): (r: Result<Answer, GitError>)
    ensures walk.Ok? <==> r.Ok?
    ensures walk.Ok? ==> r.value == Live(walk.value)
    ensures walk.Err? ==> r.error == walk.error
  {
    match walk
    case Ok(cs) => Ok(Live(cs))
    case Err(e) => Err(e)
  }

  /** Both references resolved in the cloned repository, the start first. */
  function ResolveBoth(repo: GitRepo, startRef: string, endRef: string): Result<(Id, Id), GitError> {
    match Refs.ResolveRef(repo, startRef)
    case Err(e) => Err(e)
    case Ok(startId) =>
      match Refs.ResolveRef(repo, endRef)
      case Err(e) => Err(e)
      case Ok(endId) => Ok((startId, endId))
  }

  /**
   * The part of the policy both reads share, once the references are
   * resolved: the cache read `read`, whose result is `rows` unless it
   * raises, then on an empty result the live walk `live`, whose outcome is
   * `walk`, and the save of the walked list. A fault in the read, the walk
   * or the save leads to one more live walk, whose outcome is the answer.
   */
  function CacheThrough(s: Store, url: Url, read: Event, rows: seq<Row>, readFails: bool,
                        live: Event, walk: Result<seq<Record>, GitError>, saveFails: bool): (v: Served<Answer>)
  {
    if readFails then Served(LiveAnswer(walk), s, [read, live])
    else if rows != [] then Served(Ok(Cached(rows)), s, [read])
    else if walk.Err? then Served(LiveAnswer(walk), s, [read, live, live])
    else if saveFails then Served(LiveAnswer(walk), s, [read, live, Save(url, walk.value), live])
    else Served(Ok(Live(walk.value)), SaveAll(s, url, walk.value), [read, live, Save(url, walk.value)])
  }

  /**
   * The policy of get_commits_between. When the host cannot be found, the
   * fallback finds its repository operations unbound; when the clone or a
   * resolution fails, the fallback walk is all that happens.
   */
  function ServeBetween(s: Store, url: Url, startRef: string, endRef: string,
                        source: Option<GitRepo>, readFails: bool, saveFails: bool): (v: Served<Answer>)
    requires source.Some? ==> WellFormed(source.value)
  {
    var walk := LiveBetween(source, startRef, endRef);
    var live := WalkBetween(url, startRef, endRef);
    if ExtractDomain(url).Err? then Served(Err(OperationsUnbound), s, [])
    else if source.None? then Served(LiveAnswer(walk), s, [live])
    else
      match ResolveBoth(source.value, startRef, endRef)
      case Err(_) => Served(LiveAnswer(walk), s, [live])
      case Ok((startId, endId)) =>
        CacheThrough(s, url, ReadBetween(url, startId, endId), Between(s, url, startId, endId), readFails,
                     live, walk, saveFails)
  }

  /** The policy of get_commits_by_depth, with the by-depth walker's outcome as `walk`. */
  function ServeByDepth(s: Store, url: Url, startRef: string, maxDepth: int, source: Option<GitRepo>,
                        readFails: bool, saveFails: bool, walk: Result<seq<Record>, GitError>): (v: Served<Answer>)
  {
    var live := WalkByDepth(url, startRef, maxDepth);
    if ExtractDomain(url).Err? then Served(Err(OperationsUnbound), s, [])
    else if source.None? then Served(LiveAnswer(walk), s, [live])
    else
      match Refs.ResolveRef(source.value, startRef)
      case Err(_) => Served(LiveAnswer(walk), s, [live])
      case Ok(startId) =>
        CacheThrough(s, url, ReadByDepth(url, startId, maxDepth), ByDepth(s, url, startId, maxDepth), readFails,
                     live, walk, saveFails)
  }

  /** The policy of get_first_commit, with the first-commit walker's outcome as `walk`. */
  function ServeFirst(s: Store, url: Url, walk: Result<Record, GitError>, saveFails: bool): (v: Served<Record>)
  {
    match ExtractDomain(url)
    case Err(e) => Served(Err(FirstCommitFailed(e)), s, [])
    case Ok(_) =>
      match walk
      case Err(e) => Served(Err(FirstCommitFailed(e)), s, [WalkFirst(url)])
      case Ok(c) =>
        var calls := [WalkFirst(url), Save(url, [c])];
        if saveFails then Served(Err(FirstCommitFailed(StoreUnavailable)), s, calls)
        else Served(Ok(c), SaveAll(s, url, [c]), calls)
  }

  class GitQueryService {
    const db: GitDatabase
    ghost var trace: seq<Event>

    ghost predicate Valid()
      reads this, db
    {
      db.Valid()
    }

    /** A service over a database connection to the store `s0`, with no calls made yet. */
    constructor(s0: Store)
      requires CacheGraph.Valid(s0)
      ensures Valid() && fresh(db) && db.Snapshot() == s0 && trace == []
    {
      db := new GitDatabase(s0);
      trace := [];
    }

    /** One live between-walk, recorded in the trace. */
    method WalkLive(url: Url, startRef: string, endRef: string, source: Option<GitRepo>)
      returns (walk: Result<seq<Record>, GitError>)
      requires source.Some? ==> WellFormed(source.value)
      modifies this
      ensures walk == LiveBetween(source, startRef, endRef)
      ensures trace == old(trace) + [WalkBetween(url, startRef, endRef)]
    {
      trace := trace + [WalkBetween(url, startRef, endRef)];
      if source.None? {
        walk := Err(SourceUnavailable);
      } else {
        walk := Walker.GetCommitsBetween(source.value, startRef, endRef);
      }
    }

    /** The cache-through part of get_commits_between, once both ids are resolved. */
    method BetweenResolved(url: Url, startRef: string, endRef: string, source: Option<GitRepo>,
                           startId: Id, endId: Id, readFails: bool, saveFails: bool)
      returns (r: Result<Answer, GitError>)
      requires Valid() && (source.Some? ==> WellFormed(source.value))
      modifies this, db
      ensures Valid()
      ensures var s := old(db.Snapshot());
        var v := CacheThrough(s, url, ReadBetween(url, startId, endId), Between(s, url, startId, endId), readFails,
                              WalkBetween(url, startRef, endRef), LiveBetween(source, startRef, endRef), saveFails);
        r == v.answer && db.Snapshot() == v.store && trace == old(trace) + v.calls
    {
      trace := trace + [ReadBetween(url, startId, endId)];
      if readFails {
        var walk := WalkLive(url, startRef, endRef, source);
        return LiveAnswer(walk);
      }
      var rows := db.GetCommitsBetween(url, startId, endId);
      if rows != [] {
        return Ok(Cached(rows));
      }
      var walk := WalkLive(url, startRef, endRef, source);
      if walk.Err? {
        walk := WalkLive(url, startRef, endRef, source);
        return LiveAnswer(walk);
      }
      trace := trace + [Save(url, walk.value)];
      if saveFails {
        walk := WalkLive(url, startRef, endRef, source);
        return LiveAnswer(walk);
      }
      db.SaveCommits(url, walk.value);
      r := Ok(Live(walk.value));
    }

    /** get_commits_between under the cache-through policy. */
    method GetCommitsBetween(url: Url, startRef: string, endRef: string,
                             source: Option<GitRepo>, readFails: bool, saveFails: bool)
      returns (r: Result<Answer, GitError>)
      requires Valid() && (source.Some? ==> WellFormed(source.value))
      modifies this, db
      ensures Valid()
      ensures var v := ServeBetween(old(db.Snapshot()), url, startRef, endRef, source, readFails, saveFails);
        r == v.answer && db.Snapshot() == v.store && trace == old(trace) + v.calls
    {
      var domain := ExtractDomain(url);
      if domain.Err? {
        return Err(OperationsUnbound);
      }
      var ids: Result<(Id, Id), GitError> := Err(SourceUnavailable);
      if source.Some? {
        ids := ResolveBoth(source.value, startRef, endRef);
      }
      if ids.Err? {
        var walk := WalkLive(url, startRef, endRef, source);
        return LiveAnswer(walk);
      }
      r := BetweenResolved(url, startRef, endRef, source, ids.value.0, ids.value.1, readFails, saveFails);
    }

    /** The cache-through part of get_commits_by_depth, once the start id is resolved. */
    method ByDepthResolved(url: Url, startRef: string, maxDepth: int, startId: Id,
                           readFails: bool, saveFails: bool, walk: Result<seq<Record>, GitError>)
      returns (r: Result<Answer, GitError>)
      requires Valid()
      modifies this, db
      ensures Valid()
      ensures var s := old(db.Snapshot());
        var v := CacheThrough(s, url, ReadByDepth(url, startId, maxDepth), ByDepth(s, url, startId, maxDepth), readFails,
                              WalkByDepth(url, startRef, maxDepth), walk, saveFails);
        r == v.answer && db.Snapshot() == v.store && trace == old(trace) + v.calls
    {
      var live := WalkByDepth(url, startRef, maxDepth);
      trace := trace + [ReadByDepth(url, startId, maxDepth)];
      if readFails {
        trace := trace + [live];
        return LiveAnswer(walk);
      }
      var rows := db.GetCommitsByDepth(url, startId, maxDepth);
      if rows != [] {
        return Ok(Cached(rows));
      }
      trace := trace + [live];
      if walk.Err? {
        trace := trace + [live];
        return LiveAnswer(walk);
      }
      trace := trace + [Save(url, walk.value)];
      if saveFails {
        trace := trace + [live];
        return LiveAnswer(walk);
      }
      db.SaveCommits(url, walk.value);
      r := Ok(Live(walk.value));
    }

    /** get_commits_by_depth under the same policy; `walk` is the by-depth walker's outcome. */
    method GetCommitsByDepth(url: Url, startRef: string, maxDepth: int, source: Option<GitRepo>,
                             readFails: bool, saveFails: bool, walk: Result<seq<Record>, GitError>)
      returns (r: Result<Answer, GitError>)
      requires Valid()
      modifies this, db
      ensures Valid()
      ensures var v := ServeByDepth(old(db.Snapshot()), url, startRef, maxDepth, source, readFails, saveFails, walk);
        r == v.answer && db.Snapshot() == v.store && trace == old(trace) + v.calls
    {
      var domain := ExtractDomain(url);
      if domain.Err? {
        return Err(OperationsUnbound);
      }
      var start: Result<Id, GitError> := Err(SourceUnavailable);
      if source.Some? {
        start := Refs.ResolveRef(source.value, startRef);
      }
      if start.Err? {
        trace := trace + [WalkByDepth(url, startRef, maxDepth)];
        return LiveAnswer(walk);
      }
      r := ByDepthResolved(url, startRef, maxDepth, start.value, readFails, saveFails, walk);
    }

    /** get_first_commit: always walks live and saves the single commit; every failure is wrapped. */
    method GetFirstCommit(url: Url, walk: Result<Record, GitError>, saveFails: bool)
      returns (r: Result<Record, GitError>)
      requires Valid()
      modifies this, db
      ensures Valid()
      ensures var v := ServeFirst(old(db.Snapshot()), url, walk, saveFails);
        r == v.answer && db.Snapshot() == v.store && trace == old(trace) + v.calls
    {
      var domain := ExtractDomain(url);
      if domain.Err? {
        return Err(FirstCommitFailed(domain.error));
      }
      trace := trace + [WalkFirst(url)];
      if walk.Err? {
        return Err(FirstCommitFailed(walk.error));
      }
      trace := trace + [Save(url, [walk.value])];
      if saveFails {
        return Err(FirstCommitFailed(StoreUnavailable));
      }
      db.SaveCommits(url, [walk.value]);
      r := Ok(walk.value);
    }
  }

  // ---------------------------------------------------------------------
  // The cache-through policy.

  /** A non-empty cache result is returned unchanged, with no live walk and no save. */
  lemma CacheHit(s: Store, url: Url, read: Event, rows: seq<Row>, live: Event,
                 walk: Result<seq<Record>, GitError>, saveFails: bool)
    requires rows != []
    ensures CacheThrough(s, url, read, rows, false, live, walk, saveFails) == Served(Ok(Cached(rows)), s, [read])
  {
  }

  /** An empty cache result leads to exactly one live walk and one save of the walked list, which is returned. */
  lemma CacheMiss(s: Store, url: Url, read: Event, live: Event, cs: seq<Record>)
    ensures CacheThrough(s, url, read, [], false, live, Ok(cs), false) ==
              Served(Ok(Live(cs)), SaveAll(s, url, cs), [read, live, Save(url, cs)])
  {
  }

  /** When the cache read raises, the live walk's outcome is the answer and nothing is saved. */
  lemma ReadFailure(s: Store, url: Url, read: Event, rows: seq<Row>, live: Event,
                    walk: Result<seq<Record>, GitError>, saveFails: bool)
    ensures var v := CacheThrough(s, url, read, rows, true, live, walk, saveFails);
      v.answer == LiveAnswer(walk) && v.store == s && v.calls == [read, live]
  {
  }

  /** When the save raises after a miss, the walk runs a second time and its list is returned; the save error is not surfaced. */
  lemma SaveFailure(s: Store, url: Url, read: Event, live: Event, cs: seq<Record>)
    ensures var v := CacheThrough(s, url, read, [], false, live, Ok(cs), true);
      v.answer == Ok(Live(cs)) && v.store == s && v.calls == [read, live, Save(url, cs), live]
  {
  }

  /** The answer comes from the cache exactly when the read succeeds with a non-empty result, and a walk error reaches the caller otherwise. */
  lemma CacheThroughAnswer(s: Store, url: Url, read: Event, rows: seq<Row>, readFails: bool, live: Event,
                           walk: Result<seq<Record>, GitError>, saveFails: bool)
    ensures var v := CacheThrough(s, url, read, rows, readFails, live, walk, saveFails);
      && ((v.answer.Ok? && v.answer.value.Cached?) <==> !readFails && rows != [])
      && (v.answer.Ok? && v.answer.value.Cached? ==> v.answer.value.rows == rows)
      && (!(v.answer.Ok? && v.answer.value.Cached?) ==> v.answer == LiveAnswer(walk))
      && v.calls[0] == read
  {
  }

  /**
   * The store changes only by a save of the walked list, which the calls
   * record; a save keeps the constraints and only adds to the store.
   */
  lemma CacheThroughStore(s: Store, url: Url, read: Event, rows: seq<Row>, readFails: bool, live: Event,
                          walk: Result<seq<Record>, GitError>, saveFails: bool)
    requires Valid(s)
    ensures var v := CacheThrough(s, url, read, rows, readFails, live, walk, saveFails);
      && Valid(v.store) && Extends(s, v.store)
      && (v.store == s || (walk.Ok? && Save(url, walk.value) in v.calls && v.store == SaveAll(s, url, walk.value)))
  {
    var v := CacheThrough(s, url, read, rows, readFails, live, walk, saveFails);
    if v.store != s {
      SaveAllValid(s, url, walk.value);
      SaveAllEffect(s, url, walk.value);
    } else {
      assert Extends(s, s);
    }
  }

  // ---------------------------------------------------------------------
  // The three service calls.

  /** Without a host in the URL the call fails before any collaborator is used. */
  lemma UnparsableUrlUnbound(s: Store, url: Url, startRef: string, endRef: string, maxDepth: int,
                             source: Option<GitRepo>, readFails: bool, saveFails: bool,
                             walk: Result<seq<Record>, GitError>)
    requires ExtractDomain(url).Err?
    requires source.Some? ==> WellFormed(source.value)
    ensures ServeBetween(s, url, startRef, endRef, source, readFails, saveFails) == Served(Err(OperationsUnbound), s, [])
    ensures ServeByDepth(s, url, startRef, maxDepth, source, readFails, saveFails, walk) == Served(Err(OperationsUnbound), s, [])
  {
  }

  /**
   * The cache is read with the ids the references resolve to, never with
   * the names; every live walk is asked for the names as given; the
   * answer, unless it comes from the cache, is the live walk's outcome.
   */
  lemma BetweenCalls(s: Store, url: Url, startRef: string, endRef: string,
                     source: Option<GitRepo>, readFails: bool, saveFails: bool)
    requires source.Some? ==> WellFormed(source.value)
    requires ExtractDomain(url).Ok?
    ensures var v := ServeBetween(s, url, startRef, endRef, source, readFails, saveFails);
      && (forall e :: e in v.calls && e.ReadBetween? ==>
            e.url == url && source.Some? && ResolveBoth(source.value, startRef, endRef) == Ok((e.startId, e.endId)))
      && (forall e :: e in v.calls && e.WalkBetween? ==> e == WalkBetween(url, startRef, endRef))
      && (!(v.answer.Ok? && v.answer.value.Cached?) ==> v.answer == LiveAnswer(LiveBetween(source, startRef, endRef)))
  {
    var v := ServeBetween(s, url, startRef, endRef, source, readFails, saveFails);
    if source.Some? && ResolveBoth(source.value, startRef, endRef).Ok? {
      var (startId, endId) := ResolveBoth(source.value, startRef, endRef).value;
      CacheThroughAnswer(s, url, ReadBetween(url, startId, endId), Between(s, url, startId, endId), readFails,
                         WalkBetween(url, startRef, endRef), LiveBetween(source, startRef, endRef), saveFails);
    }
  }

  /** A reference that does not resolve is re-raised by the fallback walk and reaches the caller. */
  lemma BetweenResolutionFailure(s: Store, url: Url, startRef: string, endRef: string,
                                 repo: GitRepo, readFails: bool, saveFails: bool)
    requires WellFormed(repo) && ExtractDomain(url).Ok?
    requires ResolveBoth(repo, startRef, endRef).Err?
    ensures ServeBetween(s, url, startRef, endRef, Some(repo), readFails, saveFails) ==
              Served(Err(ResolveBoth(repo, startRef, endRef).error), s, [WalkBetween(url, startRef, endRef)])
  {
  }

  /** The by-depth call reads the cache with the resolved start id and hands `maxDepth` unchanged to the read and to the walker. */
  lemma ByDepthCalls(s: Store, url: Url, startRef: string, maxDepth: int, source: Option<GitRepo>,
                     readFails: bool, saveFails: bool, walk: Result<seq<Record>, GitError>)
    requires ExtractDomain(url).Ok?
    ensures var v := ServeByDepth(s, url, startRef, maxDepth, source, readFails, saveFails, walk);
      && (forall e :: e in v.calls && e.ReadByDepth? ==>
            e.url == url && e.maxDepth == maxDepth && source.Some? && Refs.ResolveRef(source.value, startRef) == Ok(e.startId))
      && (forall e :: e in v.calls && e.WalkByDepth? ==> e == WalkByDepth(url, startRef, maxDepth))
      && (!(v.answer.Ok? && v.answer.value.Cached?) ==> v.answer == LiveAnswer(walk))
  {
    var v := ServeByDepth(s, url, startRef, maxDepth, source, readFails, saveFails, walk);
    if source.Some? && Refs.ResolveRef(source.value, startRef).Ok? {
      var startId := Refs.ResolveRef(source.value, startRef).value;
      CacheThroughAnswer(s, url, ReadByDepth(url, startId, maxDepth), ByDepth(s, url, startId, maxDepth), readFails,
                         WalkByDepth(url, startRef, maxDepth), walk, saveFails);
    }
  }

  /** Every service call keeps the store's constraints and only adds to it. */
  lemma ServeKeepsStore(s: Store, url: Url, startRef: string, endRef: string, maxDepth: int,
                        source: Option<GitRepo>, readFails: bool, saveFails: bool,
                        walk: Result<seq<Record>, GitError>, first: Result<Record, GitError>)
    requires Valid(s) && (source.Some? ==> WellFormed(source.value))
    ensures var t := ServeBetween(s, url, startRef, endRef, source, readFails, saveFails).store;
      Valid(t) && Extends(s, t)
    ensures var t := ServeByDepth(s, url, startRef, maxDepth, source, readFails, saveFails, walk).store;
      Valid(t) && Extends(s, t)
    ensures var t := ServeFirst(s, url, first, saveFails).store;
      Valid(t) && Extends(s, t)
  {
    assert Extends(s, s);
    if ExtractDomain(url).Ok? && source.Some? {
      if ResolveBoth(source.value, startRef, endRef).Ok? {
        var (startId, endId) := ResolveBoth(source.value, startRef, endRef).value;
        CacheThroughStore(s, url, ReadBetween(url, startId, endId), Between(s, url, startId, endId), readFails,
                          WalkBetween(url, startRef, endRef), LiveBetween(source, startRef, endRef), saveFails);
      }
      if Refs.ResolveRef(source.value, startRef).Ok? {
        var startId := Refs.ResolveRef(source.value, startRef).value;
        CacheThroughStore(s, url, ReadByDepth(url, startId, maxDepth), ByDepth(s, url, startId, maxDepth), readFails,
                          WalkByDepth(url, startRef, maxDepth), walk, saveFails);
      }
    }
    if first.Ok? {
      SaveAllValid(s, url, [first.value]);
      SaveAllEffect(s, url, [first.value]);
    }
  }

  /**
   * After a miss whose walk and save succeed, the same request is served
   * from the cache: the end commit was saved as a member of the repository.
   */
  lemma MissThenHit(s: Store, url: Url, startRef: string, endRef: string, repo: GitRepo, saveFails: bool)
    requires Valid(s) && WellFormed(repo) && ExtractDomain(url).Ok?
    requires ResolveBoth(repo, startRef, endRef).Ok?
    requires Between(s, url, ResolveBoth(repo, startRef, endRef).value.0, ResolveBoth(repo, startRef, endRef).value.1) == []
    requires Walker.CommitsBetween(repo, startRef, endRef).Ok?
    ensures var v := ServeBetween(s, url, startRef, endRef, Some(repo), false, false);
      var w := ServeBetween(v.store, url, startRef, endRef, Some(repo), false, saveFails);
      && v.answer == Ok(Live(Walker.CommitsBetween(repo, startRef, endRef).value))
      && w.answer.Ok? && w.answer.value.Cached? && w.store == v.store
      && w.calls == [ReadBetween(url, ResolveBoth(repo, startRef, endRef).value.0, ResolveBoth(repo, startRef, endRef).value.1)]
  {
    var (startId, endId) := ResolveBoth(repo, startRef, endRef).value;
    var g := Commits(repo);
    var cs := Walker.CommitsBetween(repo, startRef, endRef).value;
    assert startId in g && Walker.WalkFrom(g, startId, endId) == Ok(cs);
    Walker.WalkShape(g, startId, endId);
    var t := SaveAll(s, url, cs);
    assert cs[|cs| - 1] in cs;
    SaveAllLinks(s, url, cs);
    SaveAllValid(s, url, cs);
    assert endId in Members(t, url);
    BetweenContents(t, url, startId, endId);
    assert endId in Ids(Between(t, url, startId, endId));
  }

  /**
   * The first-commit call always walks live; it succeeds exactly when the
   * host is found, the walk succeeds and the save does; a success returns
   * the walked commit, saved as a member of the repository; every failure
   * is wrapped and leaves the store as it was.
   */
  lemma FirstCommitOutcome(s: Store, url: Url, walk: Result<Record, GitError>, saveFails: bool)
    requires Valid(s)
    ensures var v := ServeFirst(s, url, walk, saveFails);
      && (ExtractDomain(url).Ok? ==> v.calls[0] == WalkFirst(url))
      && (v.answer.Ok? <==> ExtractDomain(url).Ok? && walk.Ok? && !saveFails)
      && (v.answer.Ok? ==> v.answer == walk && v.store == SaveAll(s, url, [walk.value])
                           && walk.value.id in v.store.nodes && walk.value.id in Members(v.store, url))
      && (v.answer.Err? ==> v.answer.error.FirstCommitFailed? && v.store == s)
      && (walk.Err? && ExtractDomain(url).Ok? ==> v.answer == Err(FirstCommitFailed(walk.error)))
  {
    if walk.Ok? {
      SaveAllLinks(s, url, [walk.value]);
    }
  }
}
