/**
 * The live ancestry walker: a breadth-first search from a start commit over
 * parent edges, with a FIFO queue of (commit, depth) entries and a visited
 * set, that stops as soon as the end commit is dequeued.
 */
module Walker {
  import opened GitModel
  import Refs

  /** A queue entry: a commit id and the depth at which it was enqueued. */
  datatype Entry = Entry(id: Id, depth: nat)

  /** The entries appended for the parents of a commit, in parent order. */
  function Entries(parents: seq<Id>, depth: nat): (r: seq<Entry>)
    ensures |r| == |parents|
    ensures forall i :: 0 <= i < |parents| ==> r[i] == Entry(parents[i], depth)
  {
    seq(|parents|, i requires 0 <= i < |parents| => Entry(parents[i], depth))
  }

  ghost predicate InGraph(g: CommitGraph, queue: seq<Entry>) {
    forall j :: 0 <= j < |queue| ==> queue[j].id in g
  }

  /**
   * The walk loop from a given state: one dequeue per step. A visited commit
   * is skipped; otherwise it is recorded, the walk stops if it is the end
   * commit, and its parents are enqueued one level deeper. An empty queue
   * means the end commit was never dequeued.
   */
  function Walk(g: CommitGraph, end: Id, queue: seq<Entry>, visited: set<Id>, commits: seq<Record>)
    : Result<seq<Record>, GitError>
    requires Closed(g) && InGraph(g, queue) && visited <= g.Keys
    decreases g.Keys - visited, |queue|
  {
    if queue == [] then Err(TargetUnreachable)
    else
      var e := queue[0];
      if e.id in visited then Walk(g, end, queue[1..], visited, commits)
      else
        var commits' := commits + [RecordOf(g, e.id, e.depth)];
        if e.id == end then Ok(commits')
        else
          assert g.Keys - (visited + {e.id}) < g.Keys - visited by {
            assert e.id in g.Keys - visited;
          }
          Walk(g, end, queue[1..] + Entries(g[e.id].parents, e.depth + 1), visited + {e.id}, commits')
  }

  /** The walk from `start`, as the source begins it: one entry at depth 0, nothing visited. */
  function WalkFrom(g: CommitGraph, start: Id, end: Id): Result<seq<Record>, GitError>
    requires Closed(g) && start in g
  {
    Walk(g, end, [Entry(start, 0)], {}, [])
  }

  /** The breadth-first loop itself, over the commit graph. */
  method BreadthFirst(g: CommitGraph, start: Id, end: Id) returns (r: Result<seq<Record>, GitError>)
    requires Closed(g) && start in g
    ensures r == WalkFrom(g, start, end)
  {
    var commits: seq<Record> := [];
    var visited: set<Id> := {};
    var queue := [Entry(start, 0)];
    var foundEnd := false;
    while queue != [] && !foundEnd
      invariant InGraph(g, queue) && visited <= g.Keys
      invariant foundEnd ==> WalkFrom(g, start, end) == Ok(commits)
      invariant !foundEnd ==> WalkFrom(g, start, end) == Walk(g, end, queue, visited, commits)
      decreases g.Keys - visited, |queue|
    {
      ghost var before := visited;
      var entry := queue[0];
      queue := queue[1..];
      if entry.id in visited {
        continue;
      }
      visited := visited + {entry.id};
      assert g.Keys - visited < g.Keys - before by {
        assert entry.id in g.Keys - before;
      }
      commits := commits + [RecordOf(g, entry.id, entry.depth)];
      if entry.id == end {
        foundEnd := true;
      } else {
        var parents := g[entry.id].parents;
        ghost var rest := queue;
        for i := 0 to |parents|
          invariant queue == rest + Entries(parents[..i], entry.depth + 1)
        {
          assert Entries(parents[..i + 1], entry.depth + 1)
              == Entries(parents[..i], entry.depth + 1) + [Entry(parents[i], entry.depth + 1)];
          queue := queue + [Entry(parents[i], entry.depth + 1)];
        }
        assert parents[..|parents|] == parents;
      }
    }
    if foundEnd {
      r := Ok(commits);
    } else {
      r := Err(TargetUnreachable);
    }
  }

  /** Resolve both references, then walk from the start commit to the end commit. */
  function CommitsBetween(repo: GitRepo, startRef: string, endRef: string): Result<seq<Record>, GitError>
    requires WellFormed(repo)
  {
    match Refs.ResolveRef(repo, startRef)
    case Err(e) => Err(e)
    case Ok(startId) =>
      match Refs.ResolveRef(repo, endRef)
      case Err(e) => Err(e)
      case Ok(endId) =>
        if startId in Commits(repo) then WalkFrom(Commits(repo), startId, endId)
        else Err(NotACommit(startId))
  }

  /**
   * get_commits_between: a resolution error of the start, then of the end,
   * is the result; a start that is no commit is rejected; otherwise the
   * walk succeeds exactly when the end is an ancestor of the start, and a
   * success has the shape and the depths the walk lemmas below describe.
   */
  method GetCommitsBetween(repo: GitRepo, startRef: string, endRef: string) returns (r: Result<seq<Record>, GitError>)
    requires WellFormed(repo)
    ensures r == CommitsBetween(repo, startRef, endRef)
    ensures var s, e, g := Refs.ResolveRef(repo, startRef), Refs.ResolveRef(repo, endRef), Commits(repo);
      && (s.Err? ==> r == Err(s.error))
      && (s.Ok? && e.Err? ==> r == Err(e.error))
      && (s.Ok? && e.Ok? && s.value !in g ==> r == Err(NotACommit(s.value)))
      && (r.Ok? <==> s.Ok? && e.Ok? && s.value in g && Reachable(g, s.value, e.value))
      && (s.Ok? && e.Ok? && s.value in g && !Reachable(g, s.value, e.value) ==> r == Err(TargetUnreachable))
    ensures var s, e, g := Refs.ResolveRef(repo, startRef), Refs.ResolveRef(repo, endRef), Commits(repo);
      r.Ok? ==> && |r.value| > 0 && r.value[0] == RecordOf(g, s.value, 0)
                && r.value[|r.value| - 1].id == e.value
                && DistinctIds(r.value) && FaithfulRecords(g, r.value)
                && DepthsSorted(r.value) && ShortestDepths(g, s.value, r.value) && ParentWitnesses(r.value)
  {
    var startCommit := Refs.ResolveRef(repo, startRef);
    if startCommit.Err? {
      return Err(startCommit.error);
    }
    var endCommit := Refs.ResolveRef(repo, endRef);
    if endCommit.Err? {
      return Err(endCommit.error);
    }
    var g := Commits(repo);
    if startCommit.value !in g {
      return Err(NotACommit(startCommit.value));
    }
    r := BreadthFirst(g, startCommit.value, endCommit.value);
    WalkShape(g, startCommit.value, endCommit.value);
    WalkDepths(g, startCommit.value, endCommit.value);
    WalkFailsIffUnreachable(g, startCommit.value, endCommit.value);
  }

  // ---------------------------------------------------------------------
  // What the walk emits.

  ghost predicate DistinctIds(out: seq<Record>) {
    forall i, j :: 0 <= i < j < |out| ==> out[i].id != out[j].id
  }

  ghost predicate DepthsSorted(out: seq<Record>) {
    forall i, j :: 0 <= i < j < |out| ==> out[i].depth <= out[j].depth
  }

  /** Every record carries the fields and the ordered parent list of its commit. */
  ghost predicate FaithfulRecords(g: CommitGraph, out: seq<Record>) {
    forall i :: 0 <= i < |out| ==> out[i].id in g && out[i] == RecordOf(g, out[i].id, out[i].depth)
  }

  /** Every record's depth is its commit's shortest parent-edge distance from the start. */
  ghost predicate ShortestDepths(g: CommitGraph, start: Id, out: seq<Record>) {
    forall i :: 0 <= i < |out| ==> ShortestDepth(g, start, out[i].id, out[i].depth)
  }

  /** Every record after the first is one level below an earlier record that lists it as a parent. */
  ghost predicate ParentWitnesses(out: seq<Record>) {
    forall i :: 0 < i < |out| ==> HasParentWitness(out, i)
  }

  /** Some record before position `i` is one level shallower and lists record `i` as a parent. */
  ghost predicate HasParentWitness(out: seq<Record>, i: int)
    requires 0 <= i < |out|
  {
    exists j :: 0 <= j < i && out[j].depth + 1 == out[i].depth && out[i].id in out[j].parents
  }

  ghost predicate Emitted(g: CommitGraph, start: Id, out: seq<Record>)
    requires start in g
  {
    && |out| > 0 && out[0] == RecordOf(g, start, 0)
    && DistinctIds(out) && DepthsSorted(out) && FaithfulRecords(g, out)
    && ShortestDepths(g, start, out) && ParentWitnesses(out)
  }

  /** What a finished walk promises. */
  ghost predicate WalkOutcome(g: CommitGraph, start: Id, end: Id, r: Result<seq<Record>, GitError>)
    requires start in g
  {
    && (r.Ok? ==> Emitted(g, start, r.value) && r.value[|r.value| - 1].id == end)
    && (r.Err? ==> r.error == TargetUnreachable && forall k: nat :: end !in Ball(g, start, k))
  }

  // ---------------------------------------------------------------------
  // The loop invariant, with the depth at which each visited commit was recorded.

  /** The ids listed as parents by the records at depth `d`. */
  ghost function ParentsAtDepth(out: seq<Record>, d: nat): set<Id>
    decreases |out|
  {
    if out == [] then {}
    else
      var last := out[|out| - 1];
      ParentsAtDepth(out[..|out| - 1], d) + (if last.depth == d then (set p | p in last.parents) else {})
  }

  lemma ParentsAtDepthAppend(out: seq<Record>, r: Record, d: nat)
    ensures ParentsAtDepth(out + [r], d) == ParentsAtDepth(out, d) + (if r.depth == d then (set p | p in r.parents) else {})
  {
    assert (out + [r])[..|out|] == out;
  }

  lemma {:induction false} ParentsAtDepthWitness(out: seq<Record>, d: nat, x: Id)
    requires x in ParentsAtDepth(out, d)
    ensures exists j :: 0 <= j < |out| && out[j].depth == d && x in out[j].parents
    decreases |out|
  {
    var init := out[..|out| - 1];
    if x in ParentsAtDepth(init, d) {
      ParentsAtDepthWitness(init, d, x);
      var j :| 0 <= j < |init| && init[j].depth == d && x in init[j].parents;
      assert out[j] == init[j];
    } else {
      assert out[|out| - 1].depth == d && x in out[|out| - 1].parents;
    }
  }

  /** A queue entry was put there for the start, or for a parent of an earlier record one level shallower. */
  ghost predicate QueuedFor(out: seq<Record>, start: Id, e: Entry) {
    (e.depth == 0 && e.id == start) || (e.depth > 0 && e.id in ParentsAtDepth(out, e.depth - 1))
  }

  /** Each parent of a visited commit is visited at most one level deeper, or still queued one level deeper. */
  ghost predicate Frontier(g: CommitGraph, dist: map<Id, nat>, queue: seq<Entry>) {
    forall v, i :: v in dist && v in g && 0 <= i < |g[v].parents| ==>
      (g[v].parents[i] in dist && dist[g[v].parents[i]] <= dist[v] + 1)
      || Entry(g[v].parents[i], dist[v] + 1) in queue
  }

  ghost predicate QueueOrdered(queue: seq<Entry>) {
    && (forall i, j :: 0 <= i < j < |queue| ==> queue[i].depth <= queue[j].depth)
    && (forall j :: 0 <= j < |queue| ==> queue[j].depth <= queue[0].depth + 1)
  }

  /** The visited set, the recorded depths and the records agree. */
  ghost predicate Recorded(g: CommitGraph, start: Id, end: Id, queue: seq<Entry>, visited: set<Id>,
                           out: seq<Record>, dist: map<Id, nat>)
  {
    && start in g && InGraph(g, queue) && visited <= g.Keys
    && visited == dist.Keys && end !in visited
    && (forall i :: 0 <= i < |out| ==> out[i].id in visited && dist[out[i].id] == out[i].depth)
    && (out == [] ==> visited == {} && queue == [Entry(start, 0)])
    && (out != [] ==> out[0] == RecordOf(g, start, 0))
  }

  ghost predicate GoodRecords(g: CommitGraph, out: seq<Record>) {
    DistinctIds(out) && DepthsSorted(out) && FaithfulRecords(g, out) && ParentWitnesses(out)
  }

  ghost predicate ShortestVisited(g: CommitGraph, start: Id, dist: map<Id, nat>) {
    forall v :: v in dist ==> ShortestDepth(g, start, v, dist[v])
  }

  /** No visited commit was recorded deeper than any queued entry. */
  ghost predicate NotDeeperThanQueue(dist: map<Id, nat>, queue: seq<Entry>) {
    forall v, j :: v in dist && 0 <= j < |queue| ==> dist[v] <= queue[j].depth
  }

  /** Every queued entry's commit is within its depth of the start. */
  ghost predicate QueueSound(g: CommitGraph, start: Id, queue: seq<Entry>) {
    forall j :: 0 <= j < |queue| ==> queue[j].id in Ball(g, start, queue[j].depth)
  }

  ghost predicate QueueWitnessed(out: seq<Record>, start: Id, queue: seq<Entry>) {
    forall j :: 0 <= j < |queue| ==> QueuedFor(out, start, queue[j])
  }

  ghost predicate Inv(g: CommitGraph, start: Id, end: Id, queue: seq<Entry>, visited: set<Id>,
                      out: seq<Record>, dist: map<Id, nat>)
  {
    && Recorded(g, start, end, queue, visited, out, dist)
    && GoodRecords(g, out) && ShortestVisited(g, start, dist)
    && QueueOrdered(queue) && NotDeeperThanQueue(dist, queue)
    && QueueSound(g, start, queue) && QueueWitnessed(out, start, queue)
    && Frontier(g, dist, queue)
  }

  /** The entries appended for the parents of `id` at one level below `depth`. */
  ghost predicate ParentEntries(g: CommitGraph, id: Id, depth: nat, added: seq<Entry>)
    requires id in g
  {
    |added| == |g[id].parents| && forall k :: 0 <= k < |added| ==> added[k] == Entry(g[id].parents[k], depth + 1)
  }

  /**
   * While every queued entry is at depth D or deeper, every commit within
   * k < D edges of the start has been visited, at depth at most k.
   */
  lemma {:induction false} LayersVisited(g: CommitGraph, start: Id, dist: map<Id, nat>, queue: seq<Entry>, d: nat, k: nat)
    requires start in dist && dist[start] == 0 && dist.Keys <= g.Keys
    requires Frontier(g, dist, queue)
    requires forall j :: 0 <= j < |queue| ==> d <= queue[j].depth
    requires k < d
    ensures forall y :: y in Ball(g, start, k) ==> y in dist && dist[y] <= k
  {
    if k > 0 {
      LayersVisited(g, start, dist, queue, d, k - 1);
      forall y | y in Ball(g, start, k)
        ensures y in dist && dist[y] <= k
      {
        if y !in Ball(g, start, k - 1) {
          assert y in Step(g, Ball(g, start, k - 1));
          var x, i :| x in Ball(g, start, k - 1) && x in g && 0 <= i < |g[x].parents| && g[x].parents[i] == y;
          assert dist[x] + 1 <= k;
        }
      }
    }
  }

  lemma InvInit(g: CommitGraph, start: Id, end: Id)
    requires start in g
    ensures Inv(g, start, end, [Entry(start, 0)], {}, [], map[])
  {
    assert Ball(g, start, 0) == {start};
  }

  /** Dequeuing an already visited commit keeps the invariant. */
  lemma StepSkip(g: CommitGraph, start: Id, end: Id, queue: seq<Entry>, visited: set<Id>,
                 out: seq<Record>, dist: map<Id, nat>)
    requires Inv(g, start, end, queue, visited, out, dist)
    requires queue != [] && queue[0].id in visited
    ensures Inv(g, start, end, queue[1..], visited, out, dist)
  {
    var q := queue[1..];
    forall v, i | v in dist && v in g && 0 <= i < |g[v].parents|
      ensures (g[v].parents[i] in dist && dist[g[v].parents[i]] <= dist[v] + 1)
              || Entry(g[v].parents[i], dist[v] + 1) in q
    {
      var p := g[v].parents[i];
      if Entry(p, dist[v] + 1) in queue && Entry(p, dist[v] + 1) !in q {
        assert queue[0] == Entry(p, dist[v] + 1);
        assert dist[p] <= queue[0].depth;
      }
    }
    assert QueueOrdered(q) by {
      forall j | 0 <= j < |q| ensures q[j].depth <= q[0].depth + 1 {
        assert queue[0].depth <= queue[1].depth;
      }
    }
  }

  /**
   * A queue head that is not yet visited, is within its depth of the start
   * and is no deeper than any other entry sits at its shortest depth.
   */
  lemma HeadAtShortestDepth(g: CommitGraph, start: Id, dist: map<Id, nat>, queue: seq<Entry>)
    requires start in dist && dist[start] == 0 && dist.Keys <= g.Keys
    requires Frontier(g, dist, queue)
    requires queue != [] && queue[0].id !in dist && queue[0].id in Ball(g, start, queue[0].depth)
    requires forall j :: 0 <= j < |queue| ==> queue[0].depth <= queue[j].depth
    ensures ShortestDepth(g, start, queue[0].id, queue[0].depth)
  {
    if queue[0].depth > 0 {
      LayersVisited(g, start, dist, queue, queue[0].depth, queue[0].depth - 1);
    }
  }

  /** The commit dequeued for the first time sits at its shortest depth. */
  lemma DequeuedAtShortestDepth(g: CommitGraph, start: Id, end: Id, queue: seq<Entry>, visited: set<Id>,
                                out: seq<Record>, dist: map<Id, nat>)
    requires Recorded(g, start, end, queue, visited, out, dist)
    requires QueueOrdered(queue) && QueueSound(g, start, queue) && Frontier(g, dist, queue)
    requires queue != [] && queue[0].id !in visited
    ensures ShortestDepth(g, start, queue[0].id, queue[0].depth)
  {
    if out == [] {
      assert queue[0] == Entry(start, 0);
    } else {
      assert out[0].id == start;
      HeadAtShortestDepth(g, start, dist, queue);
    }
  }

  /** Records whose depths are the recorded shortest depths are at shortest depth. */
  lemma OutShortest(g: CommitGraph, start: Id, out: seq<Record>, dist: map<Id, nat>)
    requires forall i :: 0 <= i < |out| ==> out[i].id in dist && dist[out[i].id] == out[i].depth
    requires ShortestVisited(g, start, dist)
    ensures ShortestDepths(g, start, out)
  {
  }

  lemma AppendDistinct(out: seq<Record>, r: Record)
    requires DistinctIds(out) && forall i :: 0 <= i < |out| ==> out[i].id != r.id
    ensures DistinctIds(out + [r])
  {
    var out' := out + [r];
    forall i, j | 0 <= i < j < |out'| ensures out'[i].id != out'[j].id {
      assert out'[i] == out[i];
      if j < |out| {
        assert out'[j] == out[j];
      }
    }
  }

  lemma AppendSorted(out: seq<Record>, r: Record)
    requires DepthsSorted(out) && forall i :: 0 <= i < |out| ==> out[i].depth <= r.depth
    ensures DepthsSorted(out + [r])
  {
    var out' := out + [r];
    forall i, j | 0 <= i < j < |out'| ensures out'[i].depth <= out'[j].depth {
      assert out'[i] == out[i];
      if j < |out| {
        assert out'[j] == out[j];
      }
    }
  }

  lemma AppendFaithful(g: CommitGraph, out: seq<Record>, id: Id, depth: nat)
    requires FaithfulRecords(g, out) && id in g
    ensures FaithfulRecords(g, out + [RecordOf(g, id, depth)])
  {
    var out' := out + [RecordOf(g, id, depth)];
    forall i | 0 <= i < |out'| ensures out'[i].id in g && out'[i] == RecordOf(g, out'[i].id, out'[i].depth) {
      if i < |out| {
        assert out'[i] == out[i];
      }
    }
  }

  lemma AppendWitnessed(out: seq<Record>, r: Record)
    requires ParentWitnesses(out)
    requires out != [] ==> exists j :: 0 <= j < |out| && out[j].depth + 1 == r.depth && r.id in out[j].parents
    ensures ParentWitnesses(out + [r])
  {
    var out' := out + [r];
    forall i | 0 < i < |out'| ensures HasParentWitness(out', i) {
      if i < |out| {
        assert HasParentWitness(out, i);
        var j :| 0 <= j < i && out[j].depth + 1 == out[i].depth && out[i].id in out[j].parents;
        assert out'[j] == out[j] && out'[i] == out[i];
      } else {
        var j :| 0 <= j < |out| && out[j].depth + 1 == r.depth && r.id in out[j].parents;
        assert out'[j] == out[j] && out'[i] == r;
      }
    }
  }

  /** The records after a first-time dequeue keep their promises. */
  lemma StepRecord(g: CommitGraph, start: Id, end: Id, queue: seq<Entry>, visited: set<Id>,
                   out: seq<Record>, dist: map<Id, nat>)
    requires Recorded(g, start, end, queue, visited, out, dist)
    requires GoodRecords(g, out) && QueueWitnessed(out, start, queue) && NotDeeperThanQueue(dist, queue)
    requires queue != [] && queue[0].id !in visited
    ensures GoodRecords(g, out + [RecordOf(g, queue[0].id, queue[0].depth)])
  {
    var e := queue[0];
    var r := RecordOf(g, e.id, e.depth);
    AppendDistinct(out, r);
    assert forall i :: 0 <= i < |out| ==> out[i].depth <= r.depth by {
      forall i | 0 <= i < |out| ensures out[i].depth <= r.depth {
        assert dist[out[i].id] <= queue[0].depth;
      }
    }
    AppendSorted(out, r);
    AppendFaithful(g, out, e.id, e.depth);
    if out != [] {
      assert e.id != start;
      assert QueuedFor(out, start, queue[0]);
      ParentsAtDepthWitness(out, e.depth - 1, e.id);
    }
    AppendWitnessed(out, r);
  }

  /** The visited commits, the recorded depths and the records still agree after a first-time dequeue. */
  lemma StepAgree(g: CommitGraph, start: Id, end: Id, queue: seq<Entry>, visited: set<Id>,
                  out: seq<Record>, dist: map<Id, nat>)
    requires Recorded(g, start, end, queue, visited, out, dist)
    requires queue != [] && queue[0].id !in visited
    ensures var out' := out + [RecordOf(g, queue[0].id, queue[0].depth)];
      && out'[0] == RecordOf(g, start, 0)
      && forall i :: 0 <= i < |out'| ==>
           (out'[i].id in dist[queue[0].id := queue[0].depth]
            && dist[queue[0].id := queue[0].depth][out'[i].id] == out'[i].depth)
  {
    var e := queue[0];
    var out' := out + [RecordOf(g, e.id, e.depth)];
    var dist' := dist[e.id := e.depth];
    forall i | 0 <= i < |out'| ensures out'[i].id in dist' && dist'[out'[i].id] == out'[i].depth {
      if i < |out| {
        assert out'[i] == out[i];
      }
    }
  }

  /** Adding a commit at its shortest depth keeps every recorded depth shortest. */
  lemma VisitShortest(g: CommitGraph, start: Id, dist: map<Id, nat>, id: Id, depth: nat)
    requires ShortestVisited(g, start, dist) && ShortestDepth(g, start, id, depth)
    ensures ShortestVisited(g, start, dist[id := depth])
  {
  }

  lemma VisitOrdered(queue: seq<Entry>, added: seq<Entry>)
    requires QueueOrdered(queue) && queue != []
    requires forall k :: 0 <= k < |added| ==> added[k].depth == queue[0].depth + 1
    ensures QueueOrdered(queue[1..] + added)
  {
    var q := queue[1..] + added;
    var n := |queue| - 1;
    forall i, j | 0 <= i < j < |q| ensures q[i].depth <= q[j].depth {
      if j < n {
        assert q[i] == queue[i + 1] && q[j] == queue[j + 1];
      } else if i < n {
        assert q[i] == queue[i + 1] && q[j] == added[j - n];
      } else {
        assert q[i] == added[i - n] && q[j] == added[j - n];
      }
    }
    forall j | 0 <= j < |q| ensures q[j].depth <= q[0].depth + 1 {
      if n > 0 {
        assert q[0] == queue[1];
        assert queue[0].depth <= queue[1].depth;
        if j < n {
          assert q[j] == queue[j + 1];
        } else {
          assert q[j] == added[j - n];
        }
      } else {
        assert q[0] == added[0] && q[j] == added[j];
      }
    }
  }

  lemma VisitNotDeeper(dist: map<Id, nat>, queue: seq<Entry>, added: seq<Entry>)
    requires NotDeeperThanQueue(dist, queue) && QueueOrdered(queue) && queue != []
    requires forall k :: 0 <= k < |added| ==> added[k].depth == queue[0].depth + 1
    ensures NotDeeperThanQueue(dist[queue[0].id := queue[0].depth], queue[1..] + added)
  {
    var q := queue[1..] + added;
    var n := |queue| - 1;
    var dist' := dist[queue[0].id := queue[0].depth];
    forall v, j | v in dist' && 0 <= j < |q| ensures dist'[v] <= q[j].depth {
      if j < n {
        assert q[j] == queue[j + 1];
        assert queue[0].depth <= queue[j + 1].depth;
      } else {
        assert q[j] == added[j - n];
        if v != queue[0].id {
          assert dist[v] <= queue[0].depth;
        }
      }
    }
  }

  lemma VisitSound(g: CommitGraph, start: Id, queue: seq<Entry>, added: seq<Entry>)
    requires QueueSound(g, start, queue) && queue != [] && queue[0].id in g
    requires ParentEntries(g, queue[0].id, queue[0].depth, added)
    ensures QueueSound(g, start, queue[1..] + added)
  {
    var q := queue[1..] + added;
    var n := |queue| - 1;
    forall j | 0 <= j < |q| ensures q[j].id in Ball(g, start, q[j].depth) {
      if j < n {
        assert q[j] == queue[j + 1];
      } else {
        assert q[j] == added[j - n];
        ParentInNextBall(g, start, queue[0].depth, queue[0].id, j - n);
      }
    }
  }

  lemma VisitWitnessed(g: CommitGraph, out: seq<Record>, start: Id, queue: seq<Entry>, added: seq<Entry>)
    requires QueueWitnessed(out, start, queue) && queue != [] && queue[0].id in g
    requires ParentEntries(g, queue[0].id, queue[0].depth, added)
    ensures QueueWitnessed(out + [RecordOf(g, queue[0].id, queue[0].depth)], start, queue[1..] + added)
  {
    var q := queue[1..] + added;
    var n := |queue| - 1;
    var out' := out + [RecordOf(g, queue[0].id, queue[0].depth)];
    forall j | 0 <= j < |q| ensures QueuedFor(out', start, q[j]) {
      ParentsAtDepthAppend(out, out'[|out|], if q[j].depth > 0 then q[j].depth - 1 else 0);
      if j < n {
        assert q[j] == queue[j + 1];
        assert QueuedFor(out, start, queue[j + 1]);
      } else {
        assert q[j] == added[j - n];
        assert q[j].id in g[queue[0].id].parents;
      }
    }
  }

  lemma VisitFrontier(g: CommitGraph, dist: map<Id, nat>, queue: seq<Entry>, added: seq<Entry>)
    requires Frontier(g, dist, queue) && queue != [] && queue[0].id in g && queue[0].id !in dist
    requires ParentEntries(g, queue[0].id, queue[0].depth, added)
    ensures Frontier(g, dist[queue[0].id := queue[0].depth], queue[1..] + added)
  {
    var e := queue[0];
    var q := queue[1..] + added;
    var n := |queue| - 1;
    var dist' := dist[e.id := e.depth];
    forall v, i | v in dist' && v in g && 0 <= i < |g[v].parents|
      ensures (g[v].parents[i] in dist' && dist'[g[v].parents[i]] <= dist'[v] + 1)
              || Entry(g[v].parents[i], dist'[v] + 1) in q
    {
      var p := g[v].parents[i];
      if v == e.id {
        assert q[n + i] == added[i];
      } else if !(p in dist && dist[p] <= dist[v] + 1) {
        assert Entry(p, dist[v] + 1) in queue;
        var j :| 0 <= j < |queue| && queue[j] == Entry(p, dist[v] + 1);
        if j == 0 {
          assert p == e.id && dist'[p] == e.depth;
        } else {
          assert q[j - 1] == queue[j];
        }
      }
    }
  }

  lemma VisitRecorded(g: CommitGraph, start: Id, end: Id, queue: seq<Entry>, visited: set<Id>,
                      out: seq<Record>, dist: map<Id, nat>, added: seq<Entry>)
    requires Closed(g) && Recorded(g, start, end, queue, visited, out, dist)
    requires queue != [] && queue[0].id !in visited && queue[0].id != end
    requires ParentEntries(g, queue[0].id, queue[0].depth, added)
    requires var out' := out + [RecordOf(g, queue[0].id, queue[0].depth)];
      && out'[0] == RecordOf(g, start, 0)
      && forall i :: 0 <= i < |out'| ==>
           (out'[i].id in dist[queue[0].id := queue[0].depth]
            && dist[queue[0].id := queue[0].depth][out'[i].id] == out'[i].depth)
    ensures Recorded(g, start, end, queue[1..] + added, visited + {queue[0].id},
                     out + [RecordOf(g, queue[0].id, queue[0].depth)], dist[queue[0].id := queue[0].depth])
  {
    var q := queue[1..] + added;
    var n := |queue| - 1;
    forall j | 0 <= j < |q| ensures q[j].id in g {
      if j < n {
        assert q[j] == queue[j + 1];
      } else {
        assert q[j] == added[j - n];
      }
    }
  }

  /** Recording a commit other than the end commit keeps the queue half of the invariant. */
  lemma StepVisitQueue(g: CommitGraph, start: Id, end: Id, queue: seq<Entry>, visited: set<Id>,
                       out: seq<Record>, dist: map<Id, nat>)
    requires Recorded(g, start, end, queue, visited, out, dist)
    requires QueueOrdered(queue) && NotDeeperThanQueue(dist, queue)
    requires QueueSound(g, start, queue) && QueueWitnessed(out, start, queue)
    requires queue != [] && queue[0].id !in visited && queue[0].id != end
    ensures var e := queue[0]; var q := queue[1..] + Entries(g[e.id].parents, e.depth + 1);
      var out' := out + [RecordOf(g, e.id, e.depth)]; var dist' := dist[e.id := e.depth];
      && QueueOrdered(q) && NotDeeperThanQueue(dist', q)
      && QueueSound(g, start, q) && QueueWitnessed(out', start, q)
  {
    var e := queue[0];
    var added := Entries(g[e.id].parents, e.depth + 1);
    VisitOrdered(queue, added);
    VisitNotDeeper(dist, queue, added);
    VisitSound(g, start, queue, added);
    VisitWitnessed(g, out, start, queue, added);
  }

  /** Recording a commit other than the end commit keeps every recorded depth shortest. */
  lemma StepVisitShortest(g: CommitGraph, start: Id, end: Id, queue: seq<Entry>, visited: set<Id>,
                          out: seq<Record>, dist: map<Id, nat>)
    requires Recorded(g, start, end, queue, visited, out, dist)
    requires QueueOrdered(queue) && QueueSound(g, start, queue) && Frontier(g, dist, queue)
    requires ShortestVisited(g, start, dist)
    requires queue != [] && queue[0].id !in visited
    ensures ShortestVisited(g, start, dist[queue[0].id := queue[0].depth])
  {
    DequeuedAtShortestDepth(g, start, end, queue, visited, out, dist);
    VisitShortest(g, start, dist, queue[0].id, queue[0].depth);
  }

  /** Recording a commit other than the end commit keeps the records and their agreement with the visited set. */
  lemma StepVisitRecords(g: CommitGraph, start: Id, end: Id, queue: seq<Entry>, visited: set<Id>,
                         out: seq<Record>, dist: map<Id, nat>)
    requires Closed(g) && Recorded(g, start, end, queue, visited, out, dist)
    requires GoodRecords(g, out) && QueueWitnessed(out, start, queue) && NotDeeperThanQueue(dist, queue)
    requires queue != [] && queue[0].id !in visited && queue[0].id != end
    ensures var e := queue[0]; var q := queue[1..] + Entries(g[e.id].parents, e.depth + 1);
      var out' := out + [RecordOf(g, e.id, e.depth)];
      GoodRecords(g, out') && Recorded(g, start, end, q, visited + {e.id}, out', dist[e.id := e.depth])
  {
    var e := queue[0];
    StepRecord(g, start, end, queue, visited, out, dist);
    StepAgree(g, start, end, queue, visited, out, dist);
    VisitRecorded(g, start, end, queue, visited, out, dist, Entries(g[e.id].parents, e.depth + 1));
  }

  /** Recording a commit other than the end commit and enqueuing its parents keeps the invariant. */
  lemma StepVisit(g: CommitGraph, start: Id, end: Id, queue: seq<Entry>, visited: set<Id>,
                  out: seq<Record>, dist: map<Id, nat>)
    requires Closed(g) && Inv(g, start, end, queue, visited, out, dist)
    requires queue != [] && queue[0].id !in visited && queue[0].id != end
    ensures var e := queue[0];
      Inv(g, start, end, queue[1..] + Entries(g[e.id].parents, e.depth + 1), visited + {e.id},
          out + [RecordOf(g, e.id, e.depth)], dist[e.id := e.depth])
  {
    StepVisitQueue(g, start, end, queue, visited, out, dist);
    VisitFrontier(g, dist, queue, Entries(g[queue[0].id].parents, queue[0].depth + 1));
    StepVisitShortest(g, start, end, queue, visited, out, dist);
    StepVisitRecords(g, start, end, queue, visited, out, dist);
  }

  /** An emptied queue means every ancestor was visited without meeting the end commit. */
  lemma EmptyQueueOutcome(g: CommitGraph, start: Id, end: Id, visited: set<Id>,
                          out: seq<Record>, dist: map<Id, nat>)
    requires Closed(g) && Inv(g, start, end, [], visited, out, dist)
    ensures WalkOutcome(g, start, end, Walk(g, end, [], visited, out))
  {
    assert out != [];
    forall k: nat ensures end !in Ball(g, start, k) {
      BallInClosedSet(g, start, visited, k);
    }
  }

  /** Dequeuing the end commit for the first time ends the walk with the promised records. */
  lemma EndOutcome(g: CommitGraph, start: Id, end: Id, queue: seq<Entry>, visited: set<Id>,
                   out: seq<Record>, dist: map<Id, nat>)
    requires Closed(g) && Inv(g, start, end, queue, visited, out, dist)
    requires queue != [] && queue[0].id == end
    ensures WalkOutcome(g, start, end, Walk(g, end, queue, visited, out))
  {
    var e := queue[0];
    StepRecord(g, start, end, queue, visited, out, dist);
    StepAgree(g, start, end, queue, visited, out, dist);
    DequeuedAtShortestDepth(g, start, end, queue, visited, out, dist);
    VisitShortest(g, start, dist, e.id, e.depth);
    OutShortest(g, start, out + [RecordOf(g, e.id, e.depth)], dist[e.id := e.depth]);
  }

  /** One loop step that records a commit other than the end commit and enqueues its parents. */
  lemma WalkVisitStep(g: CommitGraph, end: Id, queue: seq<Entry>, visited: set<Id>, commits: seq<Record>)
    requires Closed(g) && InGraph(g, queue) && visited <= g.Keys
    requires queue != [] && queue[0].id !in visited && queue[0].id != end
    ensures var e := queue[0]; var q := queue[1..] + Entries(g[e.id].parents, e.depth + 1);
      InGraph(g, q) && visited + {e.id} <= g.Keys
      && Walk(g, end, queue, visited, commits) == Walk(g, end, q, visited + {e.id}, commits + [RecordOf(g, e.id, e.depth)])
  {
    var e := queue[0];
    var added := Entries(g[e.id].parents, e.depth + 1);
    var q := queue[1..] + added;
    var n := |queue| - 1;
    forall j | 0 <= j < |q| ensures q[j].id in g {
      if j < n {
        assert q[j] == queue[j + 1];
      } else {
        assert q[j] == added[j - n];
      }
    }
  }

  /** One loop step that skips an already visited commit. */
  lemma WalkSkipStep(g: CommitGraph, end: Id, queue: seq<Entry>, visited: set<Id>, commits: seq<Record>)
    requires Closed(g) && InGraph(g, queue) && visited <= g.Keys
    requires queue != [] && queue[0].id in visited
    ensures InGraph(g, queue[1..])
    ensures Walk(g, end, queue, visited, commits) == Walk(g, end, queue[1..], visited, commits)
  {
  }

  /**
   * The walk from the start keeps its promises: the loop is replayed step by
   * step with the invariant, until the queue empties or the end commit is
   * dequeued for the first time.
   */
  lemma WalkKeepsPromises(g: CommitGraph, start: Id, end: Id)
    requires Closed(g) && start in g
    ensures WalkOutcome(g, start, end, WalkFrom(g, start, end))
  {
    var queue: seq<Entry>, visited: set<Id>, out: seq<Record>, dist: map<Id, nat> := [Entry(start, 0)], {}, [], map[];
    InvInit(g, start, end);
    while queue != [] && (queue[0].id in visited || queue[0].id != end)
      invariant Inv(g, start, end, queue, visited, out, dist)
      invariant Walk(g, end, queue, visited, out) == WalkFrom(g, start, end)
      decreases g.Keys - visited, |queue|
    {
      var e := queue[0];
      if e.id in visited {
        StepSkip(g, start, end, queue, visited, out, dist);
        WalkSkipStep(g, end, queue, visited, out);
        queue := queue[1..];
      } else {
        StepVisit(g, start, end, queue, visited, out, dist);
        WalkVisitStep(g, end, queue, visited, out);
        assert g.Keys - (visited + {e.id}) < g.Keys - visited by {
          assert e.id in g.Keys - visited;
        }
        var depth: nat := e.depth;
        queue, visited, out, dist :=
          queue[1..] + Entries(g[e.id].parents, depth + 1), visited + {e.id},
          out + [RecordOf(g, e.id, depth)], dist[e.id := depth];
      }
    }
    if queue == [] {
      EmptyQueueOutcome(g, start, end, visited, out, dist);
    } else {
      EndOutcome(g, start, end, queue, visited, out, dist);
    }
  }

  /**
   * A successful walk emits the start commit first at depth 0 and the end
   * commit last, each commit once, with the commit's own fields and parent
   * ids in their original order.
   */
  lemma WalkShape(g: CommitGraph, start: Id, end: Id)
    requires Closed(g) && start in g
    ensures var r := WalkFrom(g, start, end);
      r.Ok? ==> && |r.value| > 0 && r.value[0] == RecordOf(g, start, 0)
                && r.value[|r.value| - 1].id == end
                && DistinctIds(r.value) && FaithfulRecords(g, r.value)
  {
    WalkKeepsPromises(g, start, end);
  }

  /**
   * Depths along a successful walk never decrease, each is the commit's
   * shortest parent-edge distance from the start, and each record after the
   * first is one deeper than an earlier record that lists it as a parent.
   */
  lemma WalkDepths(g: CommitGraph, start: Id, end: Id)
    requires Closed(g) && start in g
    ensures var r := WalkFrom(g, start, end);
      r.Ok? ==> DepthsSorted(r.value) && ShortestDepths(g, start, r.value) && ParentWitnesses(r.value)
  {
    WalkKeepsPromises(g, start, end);
  }

  /** The walk fails, with TargetUnreachable, exactly when the end commit is not an ancestor of the start. */
  lemma WalkFailsIffUnreachable(g: CommitGraph, start: Id, end: Id)
    requires Closed(g) && start in g
    ensures WalkFrom(g, start, end).Err? <==> !Reachable(g, start, end)
    ensures WalkFrom(g, start, end).Err? ==> WalkFrom(g, start, end).error == TargetUnreachable
  {
    WalkKeepsPromises(g, start, end);
    var r := WalkFrom(g, start, end);
    if r.Ok? {
      var last := r.value[|r.value| - 1];
      assert ShortestDepth(g, start, last.id, last.depth);
    }
  }
}
