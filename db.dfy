/**
 * The graph database client: an object holding the Commit and Repository
 * nodes and the edges between them, updated in place by a save and read by
 * the two ancestry queries. Its state at any moment is the `Store` value
 * of the cache model, and each method is proved against the function over
 * that value.
 */
module Db {
  import opened GitModel
  import opened CacheGraph

  class GitDatabase {
    var nodes: map<Id, Option<Content>>
    var created: seq<Id>
    var repos: set<Url>
    var parentEdges: set<(Id, Id)>
    var memberEdges: set<(Id, Url)>

    /** The store these fields hold. */
    function Snapshot(): Store
      reads this
    {
      Store(nodes, created, repos, parentEdges, memberEdges)
    }

    /** The uniqueness constraints and the edge integrity of the store. */
    ghost predicate Valid()
      reads this
    {
      CacheGraph.Valid(Snapshot())
    }

    /**
     * A connection to a store that already holds `s0`, which keeps the
     * uniqueness constraints; `Empty` is a new store.
     */
    constructor(s0: Store)
      requires CacheGraph.Valid(s0)
      ensures Snapshot() == s0 && Valid()
    {
      nodes, created, repos, parentEdges, memberEdges := s0.nodes, s0.created, s0.repos, s0.parentEdges, s0.memberEdges;
    }

    /** MERGE on a Commit node, writing `content` only when the node is created. */
    method MergeCommit(id: Id, content: Option<Content>)
      modifies this
      ensures Snapshot() == MergeNode(old(Snapshot()), id, content)
    {
      if id !in nodes {
        nodes := nodes[id := content];
        created := created + [id];
      }
    }

    /**
     * save_commits: MERGE the Repository node, then for each commit in list
     * order MERGE its node, its BELONGS_TO edge, a stub node for each
     * unknown parent and a PARENT edge to each parent. Constraints keep
     * holding, and the new state is the fold `SaveAll` of the old one.
     */
    method SaveCommits(url: Url, commits: seq<Record>)
      requires Valid()
      modifies this
      ensures Valid()
      ensures Snapshot() == SaveAll(old(Snapshot()), url, commits)
    {
      ghost var s0 := MergeRepo(Snapshot(), url);
      SaveAllValid(Snapshot(), url, commits);
      repos := repos + {url};
      for i := 0 to |commits|
        invariant Snapshot() == SaveEach(s0, url, commits[..i])
      {
        assert commits[..i + 1][..i] == commits[..i];
        var c := commits[i];
        if url in repos {
          MergeCommit(c.id, Some(ContentOf(c)));
          memberEdges := memberEdges + {(c.id, url)};
          ghost var t := Snapshot();
          for j := 0 to |c.parents|
            invariant Snapshot() == SaveParents(t, c.id, c.parents[..j])
          {
            assert c.parents[..j + 1][..j] == c.parents[..j];
            var p := c.parents[j];
            MergeCommit(p, None);
            parentEdges := parentEdges + {(c.id, p)};
          }
          assert c.parents[..|c.parents|] == c.parents;
        }
      }
      assert commits[..|commits|] == commits;
    }

    /**
     * get_commits_between: the cached rows between two commit ids. The
     * result is empty when the end commit is not cached; otherwise it holds
     * exactly the cached members of the repository that are the end commit
     * or reachable from the start, each once, ordered by stored depth.
     */
    method GetCommitsBetween(url: Url, startId: Id, endId: Id) returns (rows: seq<Row>)
      ensures rows == Between(Snapshot(), url, startId, endId)
      ensures endId !in nodes ==> rows == []
      ensures Valid() && endId in nodes ==>
        && (forall x :: x in Ids(rows) <==> (x == endId || x in Reach(Snapshot(), startId)) && x in Members(Snapshot(), url))
        && CacheGraph.DistinctIds(rows) && SortedByDepth(rows)
    {
      rows := Between(Snapshot(), url, startId, endId);
      if Valid() && endId in nodes {
        BetweenContents(Snapshot(), url, startId, endId);
      }
    }

    /**
     * get_commits_by_depth: the cached members of the repository reachable
     * from the start whose stored depth is at most `maxDepth` (any, including
     * none, for -1), each once, ordered by stored depth.
     */
    method GetCommitsByDepth(url: Url, startId: Id, maxDepth: int) returns (rows: seq<Row>)
      ensures rows == ByDepth(Snapshot(), url, startId, maxDepth)
      ensures Valid() ==>
        && (startId !in nodes ==> rows == [])
        && (forall x :: x in Ids(rows) <==>
              x in Reach(Snapshot(), startId) && x in Members(Snapshot(), url) && x in nodes && DepthPasses(nodes[x], maxDepth))
        && CacheGraph.DistinctIds(rows) && SortedByDepth(rows)
    {
      rows := ByDepth(Snapshot(), url, startId, maxDepth);
      if Valid() {
        ByDepthContents(Snapshot(), url, startId, maxDepth);
      }
    }
  }
}
