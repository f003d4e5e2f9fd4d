/**
 * Shared vocabulary: commit identifiers, repository objects and references,
 * the commit graph seen through parent edges, and its breadth-first layers.
 */
module GitModel {

  datatype Option<T> = None | Some(value: T)

  datatype Result<T, E> = Ok(value: T) | Err(error: E)

  /** A commit identifier (a hexadecimal object id in the repository). */
  type Id = string

  /** The errors the walker, the resolver and the service raise. */
  datatype GitError =
    | InvalidReference(name: string)     // no candidate path could be chosen
    | ReferenceNotFound(name: string)    // the chosen path is no reference and the name is no commit
    | TargetUnreachable                  // the walk emptied its queue without dequeuing the end commit
    | NotACommit(id: Id)                 // a resolved object has no parents to walk
    | SourceUnavailable                  // the live repository could not be materialised
    | TagNotFound(name: string)
    | NotCommitOrTag(id: Id)
    | UnparsableUrl(url: string)
    | StoreUnavailable                   // the graph store raised
    | OperationsUnbound                  // the fallback ran before the repository operations were created
    | FirstCommitFailed(cause: GitError) // the wrapping error of the first-commit lookup

  /** The content of a commit object: message, author name, commit time and ordered parent ids. */
  datatype Commit = Commit(message: string, author: string, time: int, parents: seq<Id>)

  /** The object kinds the core distinguishes. */
  datatype GitObject =
    | CommitObject(commit: Commit)
    | TagObject(target: Id)   // an annotated tag pointing at another object
    | OtherObject             // a tree or a blob

  /** A materialised repository: its object store and its references (full names such as refs/heads/main). */
  datatype GitRepo = GitRepo(objects: map<Id, GitObject>, refs: map<string, Id>)

  /** The commit graph: every commit object with its content. */
  type CommitGraph = map<Id, Commit>

  function Commits(repo: GitRepo): (g: CommitGraph)
    ensures forall id :: id in g <==> id in repo.objects && repo.objects[id].CommitObject?
  {
    map id | id in repo.objects && repo.objects[id].CommitObject? :: repo.objects[id].commit
  }

  /** Every parent id of every commit names a commit again (the integrity git guarantees). */
  ghost predicate Closed(g: CommitGraph) {
    forall x, i :: x in g && 0 <= i < |g[x].parents| ==> g[x].parents[i] in g
  }

  ghost predicate WellFormed(repo: GitRepo) {
    Closed(Commits(repo))
  }

  /** The record the walkers emit for a commit: its fields, its parent ids in order, and a depth. */
  datatype Record = Record(id: Id, message: string, author: string, time: int, parents: seq<Id>, depth: nat)

  function RecordOf(g: CommitGraph, id: Id, depth: nat): (r: Record)
    requires id in g
    ensures r.id == id && r.depth == depth && r.parents == g[id].parents
    ensures r.message == g[id].message && r.author == g[id].author && r.time == g[id].time
  {
    Record(id, g[id].message, g[id].author, g[id].time, g[id].parents, depth)
  }

  /** The parents of the commits in `s`. */
  ghost function Step(g: CommitGraph, s: set<Id>): set<Id> {
    set x, i | x in s && x in g && 0 <= i < |g[x].parents| :: g[x].parents[i]
  }

  /** The commits at most `k` parent edges away from `start`. */
  ghost function Ball(g: CommitGraph, start: Id, k: nat): set<Id> {
    if k == 0 then {start} else Ball(g, start, k - 1) + Step(g, Ball(g, start, k - 1))
  }

  ghost predicate Reachable(g: CommitGraph, start: Id, x: Id) {
    exists k: nat :: x in Ball(g, start, k)
  }

  /** `d` is the length of a shortest parent path from `start` to `x`. */
  ghost predicate ShortestDepth(g: CommitGraph, start: Id, x: Id, d: nat) {
    x in Ball(g, start, d) && (d == 0 || x !in Ball(g, start, d - 1))
  }

  lemma ParentInNextBall(g: CommitGraph, start: Id, k: nat, x: Id, i: int)
    requires x in Ball(g, start, k) && x in g && 0 <= i < |g[x].parents|
    ensures g[x].parents[i] in Ball(g, start, k + 1)
  {
    assert g[x].parents[i] in Step(g, Ball(g, start, k));
  }

  lemma {:induction false} BallGrows(g: CommitGraph, start: Id, j: nat, k: nat)
    requires j <= k
    ensures Ball(g, start, j) <= Ball(g, start, k)
    decreases k
  {
    if j < k {
      BallGrows(g, start, j, k - 1);
    }
  }

  /** Every layer stays inside any set that holds `start` and is closed under parents. */
  lemma {:induction false} BallInClosedSet(g: CommitGraph, start: Id, s: set<Id>, k: nat)
    requires start in s
    requires forall x, i :: x in s && x in g && 0 <= i < |g[x].parents| ==> g[x].parents[i] in s
    ensures Ball(g, start, k) <= s
  {
    if k > 0 {
      BallInClosedSet(g, start, s, k - 1);
    }
  }

  /** A parent of an ancestor is an ancestor. */
  lemma ReachableParent(g: CommitGraph, start: Id, x: Id, i: int)
    requires Reachable(g, start, x) && x in g && 0 <= i < |g[x].parents|
    ensures Reachable(g, start, g[x].parents[i])
  {
    var k: nat :| x in Ball(g, start, k);
    ParentInNextBall(g, start, k, x, i);
  }

  function StartsWith(s: string, prefix: string): bool {
    |prefix| <= |s| && s[..|prefix|] == prefix
  }
}
