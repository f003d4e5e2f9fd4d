/**
 * The ancestor enumeration of a tag: the tag reference is looked up and
 * peeled to a commit, then a depth-first walk with an explicit stack and a
 * visited set emits every ancestor of that commit exactly once.
 */
module TagAncestors {
  import opened GitModel

  /** The information emitted for one ancestor: its id, fields and ordered parent ids. */
  datatype Ancestor = Ancestor(id: Id, message: string, author: string, time: int, parents: seq<Id>)

  function AncestorOf(g: CommitGraph, id: Id): (a: Ancestor)
    requires id in g
    ensures a.id == id && a.parents == g[id].parents
    ensures a.message == g[id].message && a.author == g[id].author && a.time == g[id].time
  {
    Ancestor(id, g[id].message, g[id].author, g[id].time, g[id].parents)
  }

  /** The commit a tag designates: the reference must exist, and an annotated tag is followed to its target. */
  function TagTarget(repo: GitRepo, tagName: string): (r: Result<Id, GitError>)
    ensures r.Ok? ==> r.value in Commits(repo)
    ensures "refs/tags/" + tagName !in repo.refs ==> r == Err(TagNotFound(tagName))
  {
    var path := "refs/tags/" + tagName;
    if path !in repo.refs then Err(TagNotFound(tagName))
    else
      var obj := repo.refs[path];
      if obj in repo.objects && repo.objects[obj].TagObject? then
        var target := repo.objects[obj].target;
        if target in repo.objects && repo.objects[target].CommitObject? then Ok(target)
        else Err(NotACommit(target))
      else if obj in repo.objects && repo.objects[obj].CommitObject? then Ok(obj)
      else Err(NotCommitOrTag(obj))
  }

  /** A tag reference that points straight at a commit designates that commit. */
  lemma LightweightTagTarget(repo: GitRepo, tagName: string)
    requires "refs/tags/" + tagName in repo.refs
    requires var obj := repo.refs["refs/tags/" + tagName]; obj in repo.objects && repo.objects[obj].CommitObject?
    ensures TagTarget(repo, tagName) == Ok(repo.refs["refs/tags/" + tagName])
  {
  }

  /**
   * An annotated tag is peeled once more to its target, and a reference
   * target that is neither a commit nor a tag object is rejected.
   */
  lemma TagTargetPeeled(repo: GitRepo, tagName: string)
    requires "refs/tags/" + tagName in repo.refs
    ensures var obj := repo.refs["refs/tags/" + tagName];
      && (obj in repo.objects && repo.objects[obj].TagObject? ==>
            var t := repo.objects[obj].target;
            TagTarget(repo, tagName) == if t in Commits(repo) then Ok(t) else Err(NotACommit(t)))
      && (!(obj in repo.objects && (repo.objects[obj].TagObject? || repo.objects[obj].CommitObject?)) ==>
            TagTarget(repo, tagName) == Err(NotCommitOrTag(obj)))
  {
  }

  ghost function IdSet(out: seq<Ancestor>): set<Id> {
    set i | 0 <= i < |out| :: out[i].id
  }

  ghost predicate Distinct(out: seq<Ancestor>) {
    forall i, j :: 0 <= i < j < |out| ==> out[i].id != out[j].id
  }

  ghost predicate Faithful(g: CommitGraph, out: seq<Ancestor>) {
    forall i :: 0 <= i < |out| ==> out[i].id in g && out[i] == AncestorOf(g, out[i].id)
  }

  /** Each parent of a visited commit is visited or still on the stack. */
  ghost predicate StackCovers(g: CommitGraph, visited: set<Id>, stack: seq<Id>) {
    forall v, i :: v in visited && v in g && 0 <= i < |g[v].parents| ==>
      g[v].parents[i] in visited || g[v].parents[i] in stack
  }

  ghost predicate AllReachable(g: CommitGraph, target: Id, s: seq<Id>) {
    forall j :: 0 <= j < |s| ==> s[j] in g && Reachable(g, target, s[j])
  }

  lemma AppendAncestor(g: CommitGraph, out: seq<Ancestor>, id: Id)
    requires Distinct(out) && Faithful(g, out) && id in g && id !in IdSet(out)
    ensures Distinct(out + [AncestorOf(g, id)]) && Faithful(g, out + [AncestorOf(g, id)])
    ensures IdSet(out + [AncestorOf(g, id)]) == IdSet(out) + {id}
  {
    var out' := out + [AncestorOf(g, id)];
    forall i, j | 0 <= i < j < |out'| ensures out'[i].id != out'[j].id {
      assert out'[i] == out[i];
      if j < |out| {
        assert out'[j] == out[j];
      } else {
        assert out[i].id in IdSet(out);
      }
    }
    forall i | 0 <= i < |out'| ensures out'[i].id in g && out'[i] == AncestorOf(g, out'[i].id) {
      if i < |out| {
        assert out'[i] == out[i];
      }
    }
    forall x | x in IdSet(out') ensures x in IdSet(out) + {id} {
      var i :| 0 <= i < |out'| && out'[i].id == x;
      if i < |out| {
        assert out'[i] == out[i];
      }
    }
    forall x | x in IdSet(out) + {id} ensures x in IdSet(out') {
      if x == id {
        assert out'[|out|].id == id;
      } else {
        var i :| 0 <= i < |out| && out[i].id == x;
        assert out'[i] == out[i];
      }
    }
  }

  lemma PushParents(g: CommitGraph, target: Id, rest: seq<Id>, id: Id)
    requires Closed(g) && AllReachable(g, target, rest) && id in g && Reachable(g, target, id)
    ensures AllReachable(g, target, rest + g[id].parents)
  {
    var s := rest + g[id].parents;
    forall j | 0 <= j < |s| ensures s[j] in g && Reachable(g, target, s[j]) {
      if j < |rest| {
        assert s[j] == rest[j];
      } else {
        assert s[j] == g[id].parents[j - |rest|];
        ReachableParent(g, target, id, j - |rest|);
      }
    }
  }

  lemma CoverAfterVisit(g: CommitGraph, visited: set<Id>, stack: seq<Id>, id: Id)
    requires StackCovers(g, visited, stack + [id]) && id in g
    ensures StackCovers(g, visited + {id}, stack + g[id].parents)
  {
    var s := stack + g[id].parents;
    forall v, i | v in visited + {id} && v in g && 0 <= i < |g[v].parents|
      ensures g[v].parents[i] in visited + {id} || g[v].parents[i] in s
    {
      var p := g[v].parents[i];
      if v == id {
        assert s[|stack| + i] == p;
      } else if p !in visited && p != id {
        assert p in stack + [id];
        var j :| 0 <= j < |stack + [id]| && (stack + [id])[j] == p;
        assert j < |stack| && s[j] == p;
      }
    }
  }

  /** Popping the last entry keeps the rest reachable, and loses no parent when the entry was visited. */
  lemma PopStack(g: CommitGraph, target: Id, visited: set<Id>, stack: seq<Id>)
    requires stack != [] && AllReachable(g, target, stack) && StackCovers(g, visited, stack)
    ensures var rest, top := stack[..|stack| - 1], stack[|stack| - 1];
      && stack == rest + [top] && AllReachable(g, target, rest)
      && top in g && Reachable(g, target, top)
      && (top in visited ==> StackCovers(g, visited, rest))
  {
    var rest, top := stack[..|stack| - 1], stack[|stack| - 1];
    assert stack == rest + [top];
    forall j | 0 <= j < |rest| ensures rest[j] in g && Reachable(g, target, rest[j]) {
      assert rest[j] == stack[j];
    }
    if top in visited {
      forall v, i | v in visited && v in g && 0 <= i < |g[v].parents|
        ensures g[v].parents[i] in visited || g[v].parents[i] in rest
      {
        assert g[v].parents[i] in visited || g[v].parents[i] in rest + [top];
      }
    }
  }

  /**
   * The depth-first walk: pop the last stack entry, skip it if visited,
   * otherwise emit it and push its parents in order.
   */
  method Ancestors(g: CommitGraph, target: Id) returns (out: seq<Ancestor>)
    requires Closed(g) && target in g
    ensures |out| > 0 && out[0] == AncestorOf(g, target)
    ensures Distinct(out) && Faithful(g, out)
    ensures forall x :: x in IdSet(out) <==> Reachable(g, target, x)
  {
    out := [];
    var visited: set<Id> := {};
    var stack := [target];
    assert target in Ball(g, target, 0);
    while stack != []
      invariant visited == IdSet(out) && visited <= g.Keys
      invariant Distinct(out) && Faithful(g, out)
      invariant AllReachable(g, target, stack)
      invariant forall v :: v in visited ==> Reachable(g, target, v)
      invariant StackCovers(g, visited, stack)
      invariant out == [] ==> stack == [target]
      invariant out != [] ==> out[0] == AncestorOf(g, target)
      decreases g.Keys - visited, |stack|
    {
      var commit := stack[|stack| - 1];
      PopStack(g, target, visited, stack);
      stack := stack[..|stack| - 1];
      if commit in visited {
        continue;
      }
      ghost var before := visited;
      AppendAncestor(g, out, commit);
      CoverAfterVisit(g, visited, stack, commit);
      PushParents(g, target, stack, commit);
      visited := visited + {commit};
      out := out + [AncestorOf(g, commit)];
      assert g.Keys - visited < g.Keys - before by {
        assert commit in g.Keys - before;
      }
      stack := stack + g[commit].parents;
    }
    assert target in visited;
    forall x | Reachable(g, target, x) ensures x in IdSet(out) {
      var k: nat :| x in Ball(g, target, k);
      BallInClosedSet(g, target, visited, k);
    }
  }

  /** Look the tag up, peel it to a commit, and enumerate that commit's ancestors. */
  method FetchTagAncestors(repo: GitRepo, tagName: string) returns (r: Result<seq<Ancestor>, GitError>)
    requires WellFormed(repo)
    ensures r.Err? <==> TagTarget(repo, tagName).Err?
    ensures r.Err? ==> r.error == TagTarget(repo, tagName).error
    ensures r.Ok? ==>
      var g, target := Commits(repo), TagTarget(repo, tagName).value;
      && |r.value| > 0 && r.value[0] == AncestorOf(g, target)
      && Distinct(r.value) && Faithful(g, r.value)
      && forall x :: x in IdSet(r.value) <==> Reachable(g, target, x)
  {
    var target := TagTarget(repo, tagName);
    if target.Err? {
      return Err(target.error);
    }
    var out := Ancestors(Commits(repo), target.value);
    r := Ok(out);
  }
}
