/**
 * The graph cache as a value: Commit nodes keyed by id, each with content
 * or none (a stub created only because some commit named it as a parent),
 * Repository nodes keyed by url, PARENT edges between commits and
 * BELONGS_TO edges from commits to repositories. The upsert loop and the
 * two read queries are functions over this value.
 */
module CacheGraph {
  import opened GitModel

  type Url = string

  /** The properties written on a Commit node when it is created by a save. */
  datatype Content = Content(message: string, author: string, time: int, depth: int)

  /**
   * The store. `created` lists the Commit node ids in creation order; it
   * fixes the order in which rows of equal stored depth are returned.
   */
  datatype Store = Store(
    nodes: map<Id, Option<Content>>,
    created: seq<Id>,
    repos: set<Url>,
    parentEdges: set<(Id, Id)>,
    memberEdges: set<(Id, Url)>)

  const Empty := Store(map[], [], {}, {}, {})

  /**
   * Node ids are unique (the uniqueness constraints on Commit ids and
   * Repository urls), and every edge joins existing nodes.
   */
  ghost predicate Valid(s: Store) {
    && (forall i, j :: 0 <= i < j < |s.created| ==> s.created[i] != s.created[j])
    && (forall id :: id in s.nodes <==> id in s.created)
    && (forall e :: e in s.parentEdges ==> e.0 in s.nodes && e.1 in s.nodes)
    && (forall e :: e in s.memberEdges ==> e.0 in s.nodes && e.1 in s.repos)
  }

  function ContentOf(r: Record): Content {
    Content(r.message, r.author, r.time, r.depth)
  }

  // ---------------------------------------------------------------------
  // Saving.

  /** MERGE on a Repository node. */
  function MergeRepo(s: Store, url: Url): (t: Store)
    ensures t.repos == s.repos + {url}
    ensures t.nodes == s.nodes && t.created == s.created
    ensures t.parentEdges == s.parentEdges && t.memberEdges == s.memberEdges
  {
    s.(repos := s.repos + {url})
  }

  /** MERGE on a Commit node: `content` is written only when the node is created. */
  function MergeNode(s: Store, id: Id, content: Option<Content>): (t: Store)
    ensures id in s.nodes ==> t == s
    ensures id !in s.nodes ==> t.nodes == s.nodes[id := content] && t.created == s.created + [id]
    ensures t.repos == s.repos && t.parentEdges == s.parentEdges && t.memberEdges == s.memberEdges
  {
    if id in s.nodes then s
    else s.(nodes := s.nodes[id := content], created := s.created + [id])
  }

  /** The UNWIND over the parent ids: a stub node per unknown parent and a PARENT edge to each. */
  function SaveParents(s: Store, child: Id, parents: seq<Id>): Store
    decreases |parents|
  {
    if parents == [] then s
    else
      var t := SaveParents(s, child, parents[..|parents| - 1]);
      var p := parents[|parents| - 1];
      var u := MergeNode(t, p, None);
      u.(parentEdges := u.parentEdges + {(child, p)})
  }

  /** One iteration of the save loop; nothing happens when the repository node is missing. */
  function SaveOne(s: Store, url: Url, r: Record): Store {
    if url !in s.repos then s
    else
      var t := MergeNode(s, r.id, Some(ContentOf(r)));
      SaveParents(t.(memberEdges := t.memberEdges + {(r.id, url)}), r.id, r.parents)
  }

  /** The save loop over the commit list, in list order. */
  function SaveEach(s: Store, url: Url, commits: seq<Record>): Store
    decreases |commits|
  {
    if commits == [] then s
    else SaveOne(SaveEach(s, url, commits[..|commits| - 1]), url, commits[|commits| - 1])
  }

  /** A whole save: the repository node first, then every commit in order. */
  function SaveAll(s: Store, url: Url, commits: seq<Record>): Store {
    SaveEach(MergeRepo(s, url), url, commits)
  }

  /** `t` only adds to `s`: existing nodes keep their content, nothing is removed. */
  ghost predicate Extends(s: Store, t: Store) {
    && s.nodes.Keys <= t.nodes.Keys
    && (forall id :: id in s.nodes ==> t.nodes[id] == s.nodes[id])
    && |s.created| <= |t.created| && t.created[..|s.created|] == s.created
    && s.repos <= t.repos && s.parentEdges <= t.parentEdges && s.memberEdges <= t.memberEdges
  }

  lemma ExtendsTrans(s: Store, t: Store, u: Store)
    requires Extends(s, t) && Extends(t, u)
    ensures Extends(s, u)
  {
    assert u.created[..|s.created|] == u.created[..|t.created|][..|s.created|];
  }

  /** The ids a record names: its own and its parents'. */
  function Named(r: Record): set<Id> {
    {r.id} + (set p | p in r.parents)
  }

  function AllNamed(commits: seq<Record>): set<Id> {
    set r, x | r in commits && x in Named(r) :: x
  }

  function AllMembers(commits: seq<Record>, url: Url): set<(Id, Url)> {
    set r | r in commits :: (r.id, url)
  }

  function AllParentEdges(commits: seq<Record>): set<(Id, Id)> {
    set r, p | r in commits && p in r.parents :: (r.id, p)
  }

  lemma {:induction false} SaveParentsSets(s: Store, child: Id, parents: seq<Id>)
    ensures var t := SaveParents(s, child, parents);
      && t.repos == s.repos && t.memberEdges == s.memberEdges
      && t.parentEdges == s.parentEdges + (set p | p in parents :: (child, p))
      && t.nodes.Keys == s.nodes.Keys + (set p | p in parents)
    decreases |parents|
  {
    if parents != [] {
      var init := parents[..|parents| - 1];
      SaveParentsSets(s, child, init);
      assert parents == init + [parents[|parents| - 1]];
    }
  }

  lemma {:induction false} SaveParentsKeeps(s: Store, child: Id, parents: seq<Id>)
    ensures var t := SaveParents(s, child, parents);
      && Extends(s, t)
      && (forall id :: id in t.nodes && id !in s.nodes ==> t.nodes[id] == None)
    decreases |parents|
  {
    if parents != [] {
      var init := parents[..|parents| - 1];
      var p := parents[|parents| - 1];
      SaveParentsKeeps(s, child, init);
      var t := SaveParents(s, child, init);
      var u := MergeNode(t, p, None);
      assert Extends(t, u.(parentEdges := u.parentEdges + {(child, p)})) by {
        if p !in t.nodes {
          assert u.created[..|t.created|] == t.created;
        }
      }
      ExtendsTrans(s, t, u.(parentEdges := u.parentEdges + {(child, p)}));
    }
  }

  /** The parent loop adds a stub for each unknown parent and an edge to every parent, and nothing else. */
  lemma SaveParentsEffect(s: Store, child: Id, parents: seq<Id>)
    ensures var t := SaveParents(s, child, parents);
      && Extends(s, t)
      && t.repos == s.repos && t.memberEdges == s.memberEdges
      && t.parentEdges == s.parentEdges + (set p | p in parents :: (child, p))
      && t.nodes.Keys == s.nodes.Keys + (set p | p in parents)
      && (forall id :: id in t.nodes && id !in s.nodes ==> t.nodes[id] == None)
  {
    SaveParentsSets(s, child, parents);
    SaveParentsKeeps(s, child, parents);
  }

  lemma SaveOneEffect(s: Store, url: Url, r: Record)
    requires url in s.repos
    ensures var t := SaveOne(s, url, r);
      && Extends(s, t)
      && t.repos == s.repos
      && t.memberEdges == s.memberEdges + {(r.id, url)}
      && t.parentEdges == s.parentEdges + (set p | p in r.parents :: (r.id, p))
      && t.nodes.Keys == s.nodes.Keys + Named(r)
      && (forall id :: id in t.nodes && id !in s.nodes ==>
            t.nodes[id] == if id == r.id then Some(ContentOf(r)) else None)
  {
    var t := MergeNode(s, r.id, Some(ContentOf(r)));
    var t' := t.(memberEdges := t.memberEdges + {(r.id, url)});
    SaveParentsEffect(t', r.id, r.parents);
    assert Extends(s, t') by {
      if r.id !in s.nodes {
        assert t'.created[..|s.created|] == s.created;
      }
    }
    ExtendsTrans(s, t', SaveParents(t', r.id, r.parents));
  }

  lemma AllNamedSnoc(commits: seq<Record>, r: Record)
    ensures AllNamed(commits + [r]) == AllNamed(commits) + Named(r)
  {
    var cs := commits + [r];
    forall x | x in AllNamed(cs) ensures x in AllNamed(commits) + Named(r) {
      var r', y :| r' in cs && y in Named(r') && y == x;
      if r' != r {
        assert r' in commits;
      }
    }
  }

  lemma SnocSets(commits: seq<Record>, r: Record, url: Url)
    ensures AllNamed(commits + [r]) == AllNamed(commits) + Named(r)
    ensures AllMembers(commits + [r], url) == AllMembers(commits, url) + {(r.id, url)}
    ensures AllParentEdges(commits + [r]) == AllParentEdges(commits) + (set p | p in r.parents :: (r.id, p))
  {
    AllNamedSnoc(commits, r);
    var cs := commits + [r];
    forall e | e in AllMembers(cs, url) ensures e in AllMembers(commits, url) + {(r.id, url)} {
      var r' :| r' in cs && e == (r'.id, url);
      if r' != r {
        assert r' in commits;
      }
    }
    forall e | e in AllParentEdges(cs) ensures e in AllParentEdges(commits) + (set p | p in r.parents :: (r.id, p)) {
      var r', p :| r' in cs && p in r'.parents && e == (r'.id, p);
      if r' != r {
        assert r' in commits;
      }
    }
  }

  /**
   * The content a save writes on a node it creates: that of the first record
   * naming the id if the record names it as its own id, none (a stub) if
   * the first record naming it lists it only as a parent.
   */
  function FirstContent(commits: seq<Record>, id: Id): Option<Content>
    decreases |commits|
  {
    if commits == [] then None
    else
      var init, last := commits[..|commits| - 1], commits[|commits| - 1];
      if id in AllNamed(init) then FirstContent(init, id)
      else if last.id == id then Some(ContentOf(last))
      else None
  }

  lemma {:induction false} SaveEachSets(s: Store, url: Url, commits: seq<Record>)
    requires url in s.repos
    ensures var t := SaveEach(s, url, commits);
      && t.repos == s.repos
      && t.memberEdges == s.memberEdges + AllMembers(commits, url)
      && t.parentEdges == s.parentEdges + AllParentEdges(commits)
      && t.nodes.Keys == s.nodes.Keys + AllNamed(commits)
    decreases |commits|
  {
    if commits != [] {
      var init, last := commits[..|commits| - 1], commits[|commits| - 1];
      assert commits == init + [last];
      SaveEachSets(s, url, init);
      SaveOneEffect(SaveEach(s, url, init), url, last);
      SnocSets(init, last, url);
    }
  }

  lemma {:induction false} SaveEachKeeps(s: Store, url: Url, commits: seq<Record>)
    requires url in s.repos
    ensures var t := SaveEach(s, url, commits);
      && Extends(s, t)
      && (forall id :: id in t.nodes && id !in s.nodes ==> t.nodes[id] == FirstContent(commits, id))
    decreases |commits|
  {
    if commits != [] {
      var init, last := commits[..|commits| - 1], commits[|commits| - 1];
      SaveEachKeeps(s, url, init);
      SaveEachSets(s, url, init);
      var t := SaveEach(s, url, init);
      SaveOneEffect(t, url, last);
      ExtendsTrans(s, t, SaveOne(t, url, last));
    }
  }

  lemma SaveEachEffect(s: Store, url: Url, commits: seq<Record>)
    requires url in s.repos
    ensures var t := SaveEach(s, url, commits);
      && Extends(s, t)
      && t.repos == s.repos
      && t.memberEdges == s.memberEdges + AllMembers(commits, url)
      && t.parentEdges == s.parentEdges + AllParentEdges(commits)
      && t.nodes.Keys == s.nodes.Keys + AllNamed(commits)
      && (forall id :: id in t.nodes && id !in s.nodes ==> t.nodes[id] == FirstContent(commits, id))
  {
    SaveEachSets(s, url, commits);
    SaveEachKeeps(s, url, commits);
  }

  /** The exact effect of a whole save on each part of the store. */
  lemma SaveAllEffect(s: Store, url: Url, commits: seq<Record>)
    ensures var t := SaveAll(s, url, commits);
      && Extends(s, t)
      && t.repos == s.repos + {url}
      && t.memberEdges == s.memberEdges + AllMembers(commits, url)
      && t.parentEdges == s.parentEdges + AllParentEdges(commits)
      && t.nodes.Keys == s.nodes.Keys + AllNamed(commits)
      && (forall id :: id in t.nodes && id !in s.nodes ==> t.nodes[id] == FirstContent(commits, id))
  {
    SaveEachEffect(MergeRepo(s, url), url, commits);
  }

  /**
   * After a save every listed commit is a node belonging to the repository,
   * even with no parents, and every listed parent is a node with a PARENT
   * edge from the child.
   */
  lemma SaveAllLinks(s: Store, url: Url, commits: seq<Record>)
    ensures var t := SaveAll(s, url, commits);
      forall r :: r in commits ==>
        && r.id in t.nodes && (r.id, url) in t.memberEdges
        && forall p :: p in r.parents ==> p in t.nodes && (r.id, p) in t.parentEdges
  {
    SaveAllEffect(s, url, commits);
    forall r, p | r in commits && p in r.parents
      ensures p in AllNamed(commits) && (r.id, p) in AllParentEdges(commits)
    {
      assert p in Named(r);
    }
    forall r | r in commits ensures r.id in AllNamed(commits) {
      assert r.id in Named(r);
    }
  }

  /** A stub keeps no content even when its commit is saved later. */
  lemma StubStaysStub(s: Store, url: Url, commits: seq<Record>, id: Id)
    requires id in s.nodes && s.nodes[id] == None
    ensures var t := SaveAll(s, url, commits); id in t.nodes && t.nodes[id] == None
  {
    SaveAllEffect(s, url, commits);
  }

  lemma {:induction false} SaveParentsValid(s: Store, child: Id, parents: seq<Id>)
    requires Valid(s) && child in s.nodes
    ensures Valid(SaveParents(s, child, parents))
    decreases |parents|
  {
    if parents != [] {
      var t := SaveParents(s, child, parents[..|parents| - 1]);
      SaveParentsValid(s, child, parents[..|parents| - 1]);
      SaveParentsEffect(s, child, parents[..|parents| - 1]);
      var p := parents[|parents| - 1];
      var u := MergeNode(t, p, None);
      if p !in t.nodes {
        forall i, j | 0 <= i < j < |u.created| ensures u.created[i] != u.created[j] {
          if j == |t.created| {
            assert u.created[i] == t.created[i];
          }
        }
      }
    }
  }

  lemma SaveOneValid(s: Store, url: Url, r: Record)
    requires Valid(s)
    ensures Valid(SaveOne(s, url, r))
  {
    if url in s.repos {
      var t := MergeNode(s, r.id, Some(ContentOf(r)));
      if r.id !in s.nodes {
        forall i, j | 0 <= i < j < |t.created| ensures t.created[i] != t.created[j] {
          if j == |s.created| {
            assert t.created[i] == s.created[i];
          }
        }
      }
      SaveParentsValid(t.(memberEdges := t.memberEdges + {(r.id, url)}), r.id, r.parents);
    }
  }

  lemma {:induction false} SaveEachValid(s: Store, url: Url, commits: seq<Record>)
    requires Valid(s)
    ensures Valid(SaveEach(s, url, commits))
    decreases |commits|
  {
    if commits != [] {
      SaveEachValid(s, url, commits[..|commits| - 1]);
      SaveOneValid(SaveEach(s, url, commits[..|commits| - 1]), url, commits[|commits| - 1]);
    }
  }

  /** A save keeps ids unique and every edge between existing nodes. */
  lemma SaveAllValid(s: Store, url: Url, commits: seq<Record>)
    requires Valid(s)
    ensures Valid(SaveAll(s, url, commits))
  {
    SaveEachValid(MergeRepo(s, url), url, commits);
  }

  /** Everything a save of `commits` writes is already in `s`. */
  ghost predicate Holds(s: Store, url: Url, commits: seq<Record>) {
    && url in s.repos
    && AllNamed(commits) <= s.nodes.Keys
    && AllMembers(commits, url) <= s.memberEdges
    && AllParentEdges(commits) <= s.parentEdges
  }

  lemma {:induction false} SaveParentsNoop(s: Store, child: Id, parents: seq<Id>)
    requires forall i :: 0 <= i < |parents| ==> parents[i] in s.nodes && (child, parents[i]) in s.parentEdges
    ensures SaveParents(s, child, parents) == s
    decreases |parents|
  {
    if parents != [] {
      SaveParentsNoop(s, child, parents[..|parents| - 1]);
      var p := parents[|parents| - 1];
      assert s.parentEdges + {(child, p)} == s.parentEdges;
    }
  }

  lemma {:induction false} SaveEachNoop(s: Store, url: Url, commits: seq<Record>)
    requires Holds(s, url, commits)
    ensures SaveEach(s, url, commits) == s
    decreases |commits|
  {
    if commits != [] {
      var init, r := commits[..|commits| - 1], commits[|commits| - 1];
      assert commits == init + [r];
      SnocSets(init, r, url);
      SaveEachNoop(s, url, init);
      assert r.id in s.nodes;
      assert s.memberEdges + {(r.id, url)} == s.memberEdges;
      assert s.(memberEdges := s.memberEdges + {(r.id, url)}) == s;
      forall i | 0 <= i < |r.parents| ensures r.parents[i] in s.nodes && (r.id, r.parents[i]) in s.parentEdges {
        assert r.parents[i] in Named(r);
        assert (r.id, r.parents[i]) in (set p | p in r.parents :: (r.id, p));
      }
      SaveParentsNoop(s, r.id, r.parents);
    }
  }

  /** Saving the same list a second time changes nothing at all. */
  lemma SaveAllIdempotent(s: Store, url: Url, commits: seq<Record>)
    ensures SaveAll(SaveAll(s, url, commits), url, commits) == SaveAll(s, url, commits)
  {
    var t := SaveAll(s, url, commits);
    SaveAllEffect(s, url, commits);
    assert t.repos + {url} == t.repos;
    assert MergeRepo(t, url) == t;
    SaveEachNoop(t, url, commits);
  }

  // ---------------------------------------------------------------------
  // Reading.

  /** The targets of the edges leaving `ids`. */
  function Successors(edges: set<(Id, Id)>, ids: set<Id>): set<Id> {
    set e | e in edges && e.0 in ids :: e.1
  }

  function Targets(edges: set<(Id, Id)>): set<Id> {
    set e | e in edges :: e.1
  }

  lemma ClosureProgress(edges: set<(Id, Id)>, acc: set<Id>)
    requires acc + Successors(edges, acc) != acc
    ensures Targets(edges) - (acc + Successors(edges, acc)) < Targets(edges) - acc
  {
    var x :| x in Successors(edges, acc) && x !in acc;
    var e :| e in edges && e.0 in acc && e.1 == x;
    assert x in Targets(edges);
  }

  /** The commits reachable from `acc` along `edges`: iterate one step at a time until nothing is added. */
  function Closure(edges: set<(Id, Id)>, acc: set<Id>): (r: set<Id>)
    ensures acc <= r
    ensures forall e :: e in edges && e.0 in r ==> e.1 in r
    decreases Targets(edges) - acc
  {
    var next := acc + Successors(edges, acc);
    if next == acc then
      assert forall e :: e in edges && e.0 in acc ==> e.1 in Successors(edges, acc);
      acc
    else
      ClosureProgress(edges, acc);
      Closure(edges, next)
  }

  /** The closure is the least set holding `acc` that is closed under the edges. */
  lemma {:induction false} ClosureLeast(edges: set<(Id, Id)>, acc: set<Id>, c: set<Id>)
    requires acc <= c
    requires forall e :: e in edges && e.0 in c ==> e.1 in c
    ensures Closure(edges, acc) <= c
    decreases Targets(edges) - acc
  {
    var next := acc + Successors(edges, acc);
    if next != acc {
      ClosureProgress(edges, acc);
      ClosureLeast(edges, next, c);
    }
  }

  /** What `(start)-[*0..]->(c:Commit)` matches: nothing if the start node is absent. */
  function Reach(s: Store, start: Id): set<Id> {
    if start in s.nodes then Closure(s.parentEdges, {start}) else {}
  }

  /** The commits with a BELONGS_TO edge to the repository. */
  function Members(s: Store, url: Url): set<Id> {
    set e | e in s.memberEdges && e.1 == url :: e.0
  }

  /** One returned row: the stored fields (none for a stub) and the set of parent ids. */
  datatype Row = Row(id: Id, content: Option<Content>, parents: set<Id>)

  function RowOf(s: Store, id: Id): (r: Row)
    requires id in s.nodes
    ensures r.id == id && r.content == s.nodes[id]
    ensures forall p :: p in r.parents <==> (id, p) in s.parentEdges
  {
    Row(id, s.nodes[id], set e | e in s.parentEdges && e.0 == id :: e.1)
  }

  /** ORDER BY stored depth, ascending, with a missing depth sorting last. */
  predicate RowLe(a: Row, b: Row) {
    match a.content
    case None => b.content.None?
    case Some(x) => b.content.None? || x.depth <= b.content.value.depth
  }

  ghost predicate SortedByDepth(rows: seq<Row>) {
    forall i, j :: 0 <= i < j < |rows| ==> RowLe(rows[i], rows[j])
  }

  ghost predicate DistinctIds(rows: seq<Row>) {
    forall i, j :: 0 <= i < j < |rows| ==> rows[i].id != rows[j].id
  }

  ghost function Ids(rows: seq<Row>): set<Id> {
    set r | r in rows :: r.id
  }

  function Insert(r: Row, rows: seq<Row>): (out: seq<Row>)
    ensures multiset(out) == multiset(rows) + multiset{r}
  {
    if rows == [] then [r]
    else if RowLe(r, rows[0]) then [r] + rows
    else
      assert rows == [rows[0]] + rows[1..];
      [rows[0]] + Insert(r, rows[1..])
  }

  function SortByDepth(rows: seq<Row>): (out: seq<Row>)
    ensures multiset(out) == multiset(rows)
  {
    if rows == [] then []
    else
      assert rows == [rows[0]] + rows[1..];
      Insert(rows[0], SortByDepth(rows[1..]))
  }

  lemma {:induction false} InsertSorted(r: Row, rows: seq<Row>)
    requires SortedByDepth(rows)
    ensures SortedByDepth(Insert(r, rows))
    decreases |rows|
  {
    if rows != [] && !RowLe(r, rows[0]) {
      var rest := Insert(r, rows[1..]);
      InsertSorted(r, rows[1..]);
      forall j | 0 <= j < |rest| ensures RowLe(rows[0], rest[j]) {
        assert rest[j] in multiset(rest);
        if rest[j] != r {
          assert rest[j] in rows[1..];
          var k :| 0 <= k < |rows[1..]| && rows[1..][k] == rest[j];
          assert rows[k + 1] == rest[j];
        }
      }
      var out := [rows[0]] + rest;
      forall i, j | 0 <= i < j < |out| ensures RowLe(out[i], out[j]) {
        if i > 0 {
          assert out[i] == rest[i - 1] && out[j] == rest[j - 1];
        } else {
          assert out[j] == rest[j - 1];
        }
      }
    }
  }

  lemma {:induction false} SortSorted(rows: seq<Row>)
    ensures SortedByDepth(SortByDepth(rows))
    decreases |rows|
  {
    if rows != [] {
      SortSorted(rows[1..]);
      InsertSorted(rows[0], SortByDepth(rows[1..]));
    }
  }

  /** Ids stay distinct under any reordering of the rows. */
  lemma PermutedDistinct(rows: seq<Row>, out: seq<Row>)
    requires multiset(out) == multiset(rows) && DistinctIds(rows)
    ensures DistinctIds(out)
  {
    forall i, j | 0 <= i < j < |out| ensures out[i].id != out[j].id {
      if out[i].id == out[j].id {
        PermutedDistinctPair(rows, out, i, j);
      }
    }
  }

  lemma PermutedDistinctPair(rows: seq<Row>, out: seq<Row>, i: int, j: int)
    requires multiset(out) == multiset(rows) && DistinctIds(rows)
    requires 0 <= i < j < |out|
    ensures out[i].id != out[j].id
  {
    if out[i] == out[j] {
      var m := multiset(out);
      assert out == out[..i] + [out[i]] + out[i + 1..j] + [out[j]] + out[j + 1..];
      assert multiset(out) == multiset(out[..i]) + multiset{out[i]} + multiset(out[i + 1..j]) + multiset{out[j]} + multiset(out[j + 1..]);
      assert m[out[i]] >= 2;
      DistinctCountsOne(rows, out[i]);
    } else {
      assert out[i] in multiset(rows) && out[j] in multiset(rows);
      var a :| 0 <= a < |rows| && rows[a] == out[i];
      var b :| 0 <= b < |rows| && rows[b] == out[j];
    }
  }

  lemma {:induction false} DistinctCountsOne(rows: seq<Row>, x: Row)
    requires DistinctIds(rows)
    ensures multiset(rows)[x] <= 1
    decreases |rows|
  {
    if rows != [] {
      var init, last := rows[..|rows| - 1], rows[|rows| - 1];
      assert rows == init + [last];
      assert DistinctIds(init) by {
        forall i, j | 0 <= i < j < |init| ensures init[i].id != init[j].id {
          assert init[i] == rows[i] && init[j] == rows[j];
        }
      }
      DistinctCountsOne(init, x);
      if last == x {
        forall i | 0 <= i < |init| ensures init[i] != x {
          assert init[i] == rows[i];
        }
        assert x !in multiset(init);
      }
    }
  }

  /** The rows of the ids in `ids` that are nodes and lie in `keep`, in the order of `ids`. */
  function Select(s: Store, ids: seq<Id>, keep: set<Id>): (rows: seq<Row>)
    ensures forall r :: r in rows ==> r.id in s.nodes && r.id in keep && r == RowOf(s, r.id)
    decreases |ids|
  {
    if ids == [] then []
    else if ids[0] in s.nodes && ids[0] in keep then [RowOf(s, ids[0])] + Select(s, ids[1..], keep)
    else Select(s, ids[1..], keep)
  }

  lemma {:induction false} SelectIds(s: Store, ids: seq<Id>, keep: set<Id>)
    ensures forall x :: x in Ids(Select(s, ids, keep)) <==> x in ids && x in s.nodes && x in keep
    decreases |ids|
  {
    if ids != [] {
      SelectIds(s, ids[1..], keep);
      assert forall x :: x in ids <==> x == ids[0] || x in ids[1..];
      var rest := Select(s, ids[1..], keep);
      if ids[0] in s.nodes && ids[0] in keep {
        var rows := [RowOf(s, ids[0])] + rest;
        assert forall r :: r in rows <==> r == RowOf(s, ids[0]) || r in rest;
      }
    }
  }

  lemma {:induction false} SelectNone(s: Store, ids: seq<Id>)
    ensures Select(s, ids, {}) == []
    decreases |ids|
  {
    if ids != [] {
      SelectNone(s, ids[1..]);
    }
  }

  ghost predicate NoDuplicates(ids: seq<Id>) {
    forall i, j :: 0 <= i < j < |ids| ==> ids[i] != ids[j]
  }

  lemma {:induction false} SelectDistinct(s: Store, ids: seq<Id>, keep: set<Id>)
    requires NoDuplicates(ids)
    ensures DistinctIds(Select(s, ids, keep))
    decreases |ids|
  {
    if ids != [] {
      var tail := ids[1..];
      assert NoDuplicates(tail) by {
        forall i, j | 0 <= i < j < |tail| ensures tail[i] != tail[j] {
          assert tail[i] == ids[i + 1] && tail[j] == ids[j + 1];
        }
      }
      SelectDistinct(s, tail, keep);
      SelectIds(s, tail, keep);
      var rest := Select(s, tail, keep);
      if ids[0] in s.nodes && ids[0] in keep {
        assert ids[0] !in tail by {
          forall k | 0 <= k < |tail| ensures tail[k] != ids[0] {
            assert tail[k] == ids[k + 1];
          }
        }
        var rows := [RowOf(s, ids[0])] + rest;
        forall i, j | 0 <= i < j < |rows| ensures rows[i].id != rows[j].id {
          assert rows[j] == rest[j - 1] && rows[j] in rest;
          if i > 0 {
            assert rows[i] == rest[i - 1];
          }
        }
      }
    }
  }

  lemma PermutedIds(rows: seq<Row>, out: seq<Row>)
    requires multiset(out) == multiset(rows)
    ensures Ids(out) == Ids(rows)
    ensures forall r :: r in out <==> r in rows
  {
    assert forall r :: r in out <==> r in multiset(out);
    assert forall r :: r in rows <==> r in multiset(rows);
  }

  /** Under validity every reachable id and every member is a node. */
  lemma ReachInNodes(s: Store, start: Id, url: Url)
    requires Valid(s)
    ensures Reach(s, start) <= s.nodes.Keys
    ensures Members(s, url) <= s.nodes.Keys
  {
    if start in s.nodes {
      ClosureLeast(s.parentEdges, {start}, s.nodes.Keys);
    }
  }

  /** The rows of `keep`, in creation order, then ordered by stored depth. */
  function RowsFor(s: Store, keep: set<Id>): (rows: seq<Row>)
    ensures forall r :: r in rows ==> r.id in s.nodes && r.id in keep && r == RowOf(s, r.id)
  {
    var picked := Select(s, s.created, keep);
    var rows := SortByDepth(picked);
    PermutedIds(picked, rows);
    rows
  }

  lemma RowsForShape(s: Store, keep: set<Id>)
    requires Valid(s) && keep <= s.nodes.Keys
    ensures forall x :: x in Ids(RowsFor(s, keep)) <==> x in keep
    ensures DistinctIds(RowsFor(s, keep)) && SortedByDepth(RowsFor(s, keep))
  {
    var picked := Select(s, s.created, keep);
    SelectIds(s, s.created, keep);
    SelectDistinct(s, s.created, keep);
    PermutedIds(picked, SortByDepth(picked));
    PermutedDistinct(picked, SortByDepth(picked));
    SortSorted(picked);
  }

  /**
   * get_commits_between: the member commits reachable from the start node
   * other than the end, then the end node itself, each once, by stored depth;
   * nothing when the end node is absent.
   */
  function Between(s: Store, url: Url, start: Id, end: Id): (rows: seq<Row>)
    ensures end !in s.nodes ==> rows == []
    ensures forall r :: r in rows ==> r.id in s.nodes && r.id in Members(s, url) && r == RowOf(s, r.id)
  {
    if end !in s.nodes then []
    else RowsFor(s, (Reach(s, start) - {end} + {end}) * Members(s, url))
  }

  /** Whether a stored depth passes `c.depth <= max OR max = -1`; a missing depth compares as null. */
  predicate DepthPasses(content: Option<Content>, maxDepth: int) {
    maxDepth == -1 || (content.Some? && content.value.depth <= maxDepth)
  }

  /** get_commits_by_depth: the member commits reachable from the start whose stored depth passes, by stored depth. */
  function ByDepth(s: Store, url: Url, start: Id, maxDepth: int): (rows: seq<Row>)
    ensures forall r :: r in rows ==> r.id in s.nodes && r.id in Members(s, url) && r == RowOf(s, r.id) && DepthPasses(r.content, maxDepth)
  {
    RowsFor(s, set x | x in Reach(s, start) && x in Members(s, url) && x in s.nodes && DepthPasses(s.nodes[x], maxDepth))
  }

  /** Exactly which commits the between read returns, once each and in depth order. */
  lemma BetweenContents(s: Store, url: Url, start: Id, end: Id)
    requires Valid(s) && end in s.nodes
    ensures var rows := Between(s, url, start, end);
      && (forall x :: x in Ids(rows) <==> (x == end || x in Reach(s, start)) && x in Members(s, url))
      && DistinctIds(rows) && SortedByDepth(rows)
  {
    ReachInNodes(s, start, url);
    RowsForShape(s, (Reach(s, start) - {end} + {end}) * Members(s, url));
  }

  /** The between read is not cut off at the end: ancestors of the end commit are returned too. */
  lemma BetweenNotCutOff(s: Store, url: Url, start: Id, end: Id, x: Id)
    requires Valid(s) && end in Reach(s, start) && x in Reach(s, end) && x in Members(s, url)
    ensures x in Ids(Between(s, url, start, end))
  {
    ClosureLeast(s.parentEdges, {end}, Reach(s, start));
    BetweenContents(s, url, start, end);
  }

  /** Exactly which commits the by-depth read returns, once each and in depth order. */
  lemma ByDepthContents(s: Store, url: Url, start: Id, maxDepth: int)
    requires Valid(s)
    ensures var rows := ByDepth(s, url, start, maxDepth);
      && (forall x :: x in Ids(rows) <==>
            x in Reach(s, start) && x in Members(s, url) && DepthPasses(s.nodes[x], maxDepth))
      && DistinctIds(rows) && SortedByDepth(rows)
      && (start !in s.nodes ==> rows == [])
  {
    ReachInNodes(s, start, url);
    var keep := set x | x in Reach(s, start) && x in Members(s, url) && x in s.nodes && DepthPasses(s.nodes[x], maxDepth);
    RowsForShape(s, keep);
    if start !in s.nodes {
      assert keep == {};
      SelectNone(s, s.created);
    }
  }

  /** A larger depth bound returns more. */
  lemma ByDepthMonotone(s: Store, url: Url, start: Id, d1: int, d2: int)
    requires Valid(s) && 0 <= d1 <= d2
    ensures Ids(ByDepth(s, url, start, d1)) <= Ids(ByDepth(s, url, start, d2))
  {
    ByDepthContents(s, url, start, d1);
    ByDepthContents(s, url, start, d2);
  }

  /** No bound (-1) returns every member reachable from the start, whatever its stored depth. */
  lemma ByDepthUnbounded(s: Store, url: Url, start: Id, d: int)
    requires Valid(s)
    ensures Ids(ByDepth(s, url, start, -1)) == Reach(s, start) * Members(s, url)
    ensures Ids(ByDepth(s, url, start, d)) <= Ids(ByDepth(s, url, start, -1))
  {
    ByDepthContents(s, url, start, d);
    ByDepthContents(s, url, start, -1);
  }

  lemma {:induction false} DistinctIdsCount(rows: seq<Row>)
    requires DistinctIds(rows)
    ensures |Ids(rows)| == |rows|
    decreases |rows|
  {
    if rows != [] {
      var init, last := rows[..|rows| - 1], rows[|rows| - 1];
      assert rows == init + [last];
      assert DistinctIds(init) by {
        forall i, j | 0 <= i < j < |init| ensures init[i].id != init[j].id {
          assert init[i] == rows[i] && init[j] == rows[j];
        }
      }
      DistinctIdsCount(init);
      assert Ids(rows) == Ids(init) + {last.id};
      assert last.id !in Ids(init) by {
        forall k | 0 <= k < |init| ensures init[k].id != last.id {
          assert init[k] == rows[k];
        }
      }
    }
  }

  lemma LinkedPairNames(url: Url, c1: Record, c2: Record)
    requires c1.parents == [] && c2.parents == [c1.id]
    ensures AllNamed([c1, c2]) == {c1.id, c2.id}
    ensures (c2.id, c1.id) in AllParentEdges([c1, c2])
    ensures (c1.id, url) in AllMembers([c1, c2], url) && (c2.id, url) in AllMembers([c1, c2], url)
  {
    var cs := [c1, c2];
    assert [c1] + [c2] == cs;
    SnocSets([c1], c2, url);
    assert [] + [c1] == [c1];
    SnocSets([], c1, url);
    assert Named(c1) == {c1.id};
    assert Named(c2) == {c2.id, c1.id};
  }

  lemma LinkedPairContent(c1: Record, c2: Record)
    requires c1.parents == [] && c2.parents == [c1.id] && c1.id != c2.id
    ensures FirstContent([c1, c2], c1.id) == Some(ContentOf(c1))
    ensures FirstContent([c1, c2], c2.id) == Some(ContentOf(c2))
  {
    var cs := [c1, c2];
    assert cs[..1] == [c1] && [c1][..0] == [];
    assert [] + [c1] == [c1];
    SnocSets([], c1, "");
    assert Named(c1) == {c1.id};
  }

  lemma LinkedPairSaved(url: Url, c1: Record, c2: Record)
    requires c1.parents == [] && c2.parents == [c1.id] && c1.id != c2.id
    ensures var t := SaveAll(Empty, url, [c1, c2]);
      && Valid(t)
      && t.nodes.Keys == {c1.id, c2.id}
      && t.nodes[c1.id] == Some(ContentOf(c1)) && t.nodes[c2.id] == Some(ContentOf(c2))
      && (c2.id, c1.id) in t.parentEdges
      && c1.id in Members(t, url) && c2.id in Members(t, url)
  {
    var t := SaveAll(Empty, url, [c1, c2]);
    SaveAllEffect(Empty, url, [c1, c2]);
    SaveAllValid(Empty, url, [c1, c2]);
    LinkedPairNames(url, c1, c2);
    LinkedPairContent(c1, c2);
    assert (c1.id, url) in t.memberEdges && (c2.id, url) in t.memberEdges;
  }

  /**
   * Two linked commits saved into an empty store and read back unbounded
   * from the child give two rows, and by stored depth the parent, saved with
   * the smaller depth, comes first.
   */
  lemma LinkedPairReadBack(url: Url, c1: Record, c2: Record)
    requires c1.parents == [] && c2.parents == [c1.id] && c1.id != c2.id && c1.depth < c2.depth
    ensures var rows := ByDepth(SaveAll(Empty, url, [c1, c2]), url, c2.id, -1);
      |rows| == 2 && rows[0].id == c1.id && rows[1].id == c2.id
  {
    var t := SaveAll(Empty, url, [c1, c2]);
    LinkedPairSaved(url, c1, c2);
    ParentReached(t, c2.id, c1.id);
    ByDepthContents(t, url, c2.id, -1);
    TwoRowsInOrder(t, ByDepth(t, url, c2.id, -1), c1.id, c2.id);
  }

  lemma ParentReached(s: Store, child: Id, parent: Id)
    requires child in s.nodes && (child, parent) in s.parentEdges
    ensures child in Reach(s, child) && parent in Reach(s, child)
  {
  }

  /** Two distinct rows sorted by depth, the first stored with the smaller depth, come in that order. */
  lemma TwoRowsInOrder(s: Store, rows: seq<Row>, a: Id, b: Id)
    requires Ids(rows) == {a, b} && a != b && DistinctIds(rows) && SortedByDepth(rows)
    requires forall r :: r in rows ==> r.id in s.nodes && r == RowOf(s, r.id)
    requires a in s.nodes && b in s.nodes && s.nodes[a].Some? && s.nodes[b].Some?
    requires s.nodes[a].value.depth < s.nodes[b].value.depth
    ensures |rows| == 2 && rows[0].id == a && rows[1].id == b
  {
    DistinctIdsCount(rows);
    assert rows[0] in rows && rows[1] in rows;
    assert RowLe(rows[0], rows[1]);
  }

  /** The fixture pair: commit2 lists commit1 as its parent. */
  lemma SaveTwoReadBack()
    ensures var url := "https://github.com/test/repo.git";
      var c1 := Record("commit1", "First commit", "Test Author", 1234567890, [], 0);
      var c2 := Record("commit2", "Second commit", "Test Author", 1234567891, ["commit1"], 1);
      var rows := ByDepth(SaveAll(Empty, url, [c1, c2]), url, "commit2", -1);
      |rows| == 2 && rows[0].id == "commit1" && rows[1].id == "commit2"
  {
    var url := "https://github.com/test/repo.git";
    var c1 := Record("commit1", "First commit", "Test Author", 1234567890, [], 0);
    var c2 := Record("commit2", "Second commit", "Test Author", 1234567891, ["commit1"], 1);
    LinkedPairReadBack(url, c1, c2);
  }
}
