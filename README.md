# git-query-service core, modelled in Dafny

The service answers ancestry questions about a Git repository: the
commits between two references, and the commits up to a depth below a
reference. Answers come from a graph cache (Neo4j) when it holds them. When
it does not, the service walks the cloned repository live and writes the
walked list back. This project models the core of that service and proves
what it promises:

- `git_model.dfy` (`GitModel`): commits, repository objects and
  references, the commit graph, its breadth-first layers (`Ball`),
  reachability and shortest depth.
- `refs.dfy` (`Refs`): the reference-resolution cascade of
  `_get_commit_object`, both as written and as evidently intended (see
  Findings).
- `walker.dfy` (`Walker`): the breadth-first walk of `get_commits_between`.
  It is a `while` loop over a FIFO queue, a visited set and an output list,
  proved equal to a recursive specification `Walk`. A successful walk starts
  at the start commit at depth 0 and ends at the end commit. It emits each
  commit once, with its parents in order, at its shortest parent distance,
  in non-decreasing depth. The walk fails exactly when the end commit is not
  an ancestor of the start.
- `tag_ancestors.dfy` (`TagAncestors`): the tag lookup, the peel, and the
  depth-first walk of `fetch_tag_ancestors`, with a stack and a visited
  set. It emits the tag's commit first and every ancestor exactly once:
  the emitted set equals the set of commits reachable from the tag.
- `cache_graph.dfy` (`CacheGraph`): the graph store as a value:
  - Commit nodes with optional content (a stub has none), kept in creation
    order;
  - Repository nodes;
  - PARENT and BELONGS_TO edges.

  The save is a fold of MERGE upserts. The two Cypher reads are functions
  over PARENT reachability, repository membership, a stored-depth filter
  and an ordering by stored depth.
- `db.dfy` (`Db`): the `GitDatabase` class. Its fields are the store, its
  save is a nested `for` loop proved equal to the fold, and its reads return
  the two read functions of the current state.
- `factory.dfy` (`Factory`): `_extract_domain` reproduces `re.search` on
  the two fixed patterns by scanning positions. `_get_token_for_domain` is
  the fixed domain map over an explicit environment.
- `query.dfy` (`Query`): the cache-through policy of `GitQueryService`.
  Each service call is a function from the old store and the collaborators'
  outcomes to the answer, the new store and the calls made. The class
  methods, which hold the database and a ghost trace of the calls, are
  proved equal to those functions.

Modelling choices, in the system's own terms:

- Reference names, object ids and URLs are strings.
- A cloned repository is a map of objects plus a map of references.
- The environment is a map parameter.
- The faults of the clone, the cache read and the save are parameters of
  the service methods.
- The by-depth and first-commit walkers that the service calls have no
  implementation in the repository. They enter as their outcomes (oracle
  values).
- The two cache reads are modelled on their Cypher (git_query/db.py:85-102
  and 118-131):
  - The between read returns every cached member of the repository that is
    reachable from the start over PARENT edges, plus the end, ordered by the
    depth stored on each node.
  - The by-depth read filters on the stored depth and orders by it. It does
    not measure the hop count from the start.
- The service and the walker resolve references with the corrected cascade
  `Refs.ResolveRef` (see Findings and Left out).

## Model

| member | source | states |
|---|---|---|
| Refs.FirstCandidateAsWritten | git_query/git_operations.py:51-54 | as written, the chosen candidate is a reference, or the name itself is an object, and no earlier candidate is a reference; an object name always picks the first candidate; nothing is chosen exactly when the list is empty or the name is no object and no candidate is a reference |
| Refs.FirstCandidate | git_query/git_operations.py:46-54 | as intended, the chosen candidate is a reference or an object and no earlier candidate is either; nothing is chosen exactly when no candidate is either |
| Refs.ResolveRefAsWritten | git_query/git_operations.py:42-69 | as written, a short name tries refs/tags/X; a name that is an object id then goes to the raw id (ReferenceNotFound unless a commit), skipping its branch; any other name tries refs/heads/X, then X as a reference, else InvalidReference |
| Refs.ResolveRef | git_query/git_operations.py:46-61 | as evidently intended, a short name with a branch and no tag of that name resolves through the branch to its peeled target, whatever objects exist |
| Refs.FullPathUsedAsIs | git_query/git_operations.py:42-43 | a name starting with refs/ is looked up as that path only: the peeled reference target, else the name as a commit id, else ReferenceNotFound |
| Refs.TagObjectPeeled | git_query/git_operations.py:56-61 | a reference to an annotated tag resolves to the tag's target, one hop further |
| Refs.ShortNameCascade | git_query/git_operations.py:44-69 | as intended, a short name tries refs/tags/X, refs/heads/X, X as a reference, then X as a commit id; a non-commit object gives ReferenceNotFound and no candidate gives InvalidReference |
| Refs.AsWrittenObjectShadowsBranch | git_query/git_operations.py:51-54 | as written, a short name that is also an object id never reaches its branch |
| Refs.AsWrittenAgreesUnlessObject | git_query/git_operations.py:42-69 | for a full reference path, or a short name that is no object id, the cascade as written resolves as the corrected one does |
| Refs.AsWrittenBranchCounterexample | git_query/git_operations.py:51-61 | a branch b2 pointing at a1 where b2 is also a commit id: as written b2 resolves to itself, as intended to a1 |
| Walker.BreadthFirst | git_query/git_operations.py:92-124 | the while loop with its FIFO queue, visited set and found flag computes the walk `WalkFrom` |
| Walker.GetCommitsBetween | git_query/git_operations.py:85-126 | a start resolution error, then an end resolution error, is the result; a start that is no commit gives NotACommit; otherwise success exactly when the end is an ancestor of the start, else TargetUnreachable; a success starts at the start at depth 0, ends at the end, has distinct ids, faithful records, and non-decreasing shortest depths with parent witnesses |
| Walker.WalkShape | git_query/git_operations.py:94-117 | on success the first record is the start at depth 0, the last is the end commit, no id repeats, and every record carries its commit's fields and parents in order |
| Walker.WalkDepths | git_query/git_operations.py:98-121 | depths never decrease, each is the shortest parent distance from the start, and each later record is one deeper than an earlier record listing it as a parent |
| Walker.WalkFailsIffUnreachable | git_query/git_operations.py:97-124 | the walk fails, with TargetUnreachable, exactly when the end commit is not an ancestor of the start |
| TagAncestors.TagTarget | test.py:26-39 | a missing refs/tags reference gives TagNotFound; a success is always a commit |
| TagAncestors.LightweightTagTarget | test.py:36-37 | a tag reference pointing at a commit designates that commit |
| TagAncestors.TagTargetPeeled | test.py:32-39 | an annotated tag is peeled to its target, which must be a commit; a target neither commit nor tag is rejected |
| TagAncestors.Ancestors | test.py:42-61 | the depth-first walk emits the target first, each commit once with its fields and parents in order, and exactly the commits reachable from the target |
| TagAncestors.FetchTagAncestors | test.py:25-63 | fails exactly when the tag lookup fails, with its error; otherwise returns the ancestors as above |
| CacheGraph.SaveAllEffect | git_query/db.py:45-72 | a save only adds: existing nodes keep their content; it adds the repository, a BELONGS_TO edge per commit, a PARENT edge per listed parent, and a node per named id whose content is that of the first record for it, or none for a parent-only stub |
| CacheGraph.SaveAllLinks | git_query/db.py:59-63 | after a save every listed commit is a node with a BELONGS_TO edge, even without parents, and every listed parent is a node with a PARENT edge from the child |
| CacheGraph.StubStaysStub | git_query/db.py:53-62 | a content-less stub stays content-less even when its commit is saved later |
| CacheGraph.SaveAllValid | git_query/db.py:21-30 | a save keeps ids unique and every edge between existing nodes |
| CacheGraph.SaveAllIdempotent | git_query/db.py:45-63 | saving the same list a second time changes nothing |
| CacheGraph.Closure | git_query/db.py:85 | the variable-length match contains its seed and is closed under PARENT edges |
| CacheGraph.ClosureLeast | git_query/db.py:85 | it is the least such set: every closed set holding the seed holds it |
| CacheGraph.SortByDepth | git_query/db.py:102 | the ordering is a permutation of the selected rows |
| CacheGraph.SortSorted | git_query/db.py:102 | the ordering is by stored depth, rows without a depth last |
| CacheGraph.Between | git_query/db.py:84-105 | nothing when the end node is absent; only repository members, each as stored |
| CacheGraph.ByDepth | git_query/db.py:117-139 | only repository members whose stored depth passes the bound, each as stored |
| CacheGraph.BetweenContents | git_query/db.py:85-102 | with the end node present: exactly the members that are the end or reachable from the start, once each, by stored depth |
| CacheGraph.BetweenNotCutOff | git_query/db.py:85-89 | ancestors of the end commit are returned too |
| CacheGraph.ByDepthContents | git_query/db.py:118-131 | exactly the reachable members whose stored depth is at most the bound (any for -1), once each, by stored depth; nothing for an absent start |
| CacheGraph.ByDepthMonotone | git_query/db.py:119 | a larger bound returns a superset |
| CacheGraph.ByDepthUnbounded | git_query/db.py:119 | the bound -1 returns every reachable member, and every bound returns a subset of that |
| CacheGraph.LinkedPairReadBack | tests/test_db.py:4-12 | two linked commits saved and read unbounded from the child give two rows, the parent (smaller stored depth) first |
| CacheGraph.SaveTwoReadBack | tests/conftest.py:63-83 | for the fixture commit1 and commit2 the unbounded read gives exactly these two |
| Db.GitDatabase.constructor | git_query/db.py:6-15 | a connection holds the store as it already is, which keeps the constraints |
| Db.GitDatabase.MergeCommit | git_query/db.py:53-58 | MERGE on a Commit node writes its content only when it creates the node |
| Db.GitDatabase.SaveCommits | git_query/db.py:36-72 | the upsert loop keeps the constraints and leaves the store equal to the save fold of the old store |
| Db.GitDatabase.GetCommitsBetween | git_query/db.py:74-105 | returns the between read of the current store, with its exact contents, uniqueness and order |
| Db.GitDatabase.GetCommitsByDepth | git_query/db.py:107-139 | returns the by-depth read of the current store, with its exact contents, uniqueness and order |
| Factory.HttpPos | git_query/factory.py:38-43 | the HTTP(S) pattern's search position is its leftmost match |
| Factory.SshPos | git_query/factory.py:39-43 | the SSH pattern's search position is its leftmost match |
| Factory.ExtractDomain | git_query/factory.py:29-47 | the only error is UnparsableUrl naming the URL |
| Factory.ExtractDomainCases | git_query/factory.py:37-47 | the leftmost HTTP(S) match wins; the SSH pattern is used only when the HTTP(S) pattern matches nowhere; the error arises exactly when neither matches anywhere |
| Factory.HttpMatchShape | git_query/factory.py:38 | an HTTP(S) match is a non-empty run without slash after :// or ://www., ending at a slash or at the end |
| Factory.SshMatchShape | git_query/factory.py:39 | an SSH match is a non-empty run without colon between git@ and a colon |
| Factory.DomainShape | git_query/factory.py:38-39 | a domain is non-empty, with no slash in the HTTP(S) case and no colon in the SSH case |
| Factory.HttpHost | git_query/factory.py:38 | scheme, host and path give the host, less a leading www. that something follows |
| Factory.SshHost | git_query/factory.py:39 | git@, host, colon and path give the host |
| Factory.WwwDropped | git_query/factory.py:38 | https://www.gitee.com/user/repo.git gives gitee.com |
| Factory.WwwKept | git_query/factory.py:38 | http://www./x gives www., since only a slash follows the www. |
| Factory.HttpsExample | tests/test_factory.py:5-9 | https://github.com/user/repo.git gives github.com |
| Factory.SshExample | tests/test_factory.py:11-15 | git@github.com:user/repo.git gives github.com |
| Factory.TokenVar | git_query/factory.py:10-14 | exactly the three hosts have a token variable |
| Factory.TokenForDomain | git_query/factory.py:49-60 | a token is always the value of the host's own variable |
| Factory.TokenCases | git_query/factory.py:57-60 | each mapped host reads its variable, unset gives none, and any other host has none |
| Factory.TokenExamples | tests/test_factory.py:17-39 | github.com reads GITHUB_TOKEN; unsupported.com is its URL's domain and has no token |
| Query.GitQueryService.constructor | git_query/query.py:7-12 | a new service holds a new connection to the existing store and has called nothing |
| Query.GitQueryService.WalkLive | git_query/query.py:44-48 | one live walk, recorded, whose outcome is the clone followed by the walker |
| Query.GitQueryService.BetweenResolved | git_query/query.py:33-60 | after resolution the method's answer, store and calls are those of the shared cache-through policy with the between read and walk |
| Query.GitQueryService.GetCommitsBetween | git_query/query.py:24-60 | the answer, new store and calls are those of the between policy |
| Query.GitQueryService.ByDepthResolved | git_query/query.py:80-107 | after resolution, the shared cache-through policy with the by-depth read and walk |
| Query.GitQueryService.GetCommitsByDepth | git_query/query.py:72-107 | the answer, new store and calls are those of the by-depth policy |
| Query.GitQueryService.GetFirstCommit | git_query/query.py:114-126 | the answer, new store and calls are those of the first-commit policy |
| Query.CacheHit | git_query/query.py:34-41 | a non-empty cache result is returned unchanged, with no walk and no save |
| Query.CacheMiss | git_query/query.py:43-52 | an empty cache result leads to exactly one walk and one save of the walked list, which is returned |
| Query.ReadFailure | git_query/query.py:54-60 | when the read raises, the live walk's outcome is the answer, and nothing is saved |
| Query.SaveFailure | git_query/query.py:51-60 | when the save raises, the walk runs again and its list is returned; the save error is not surfaced and the store is unchanged |
| Query.CacheThroughAnswer | git_query/query.py:34-60 | the answer is cached exactly when the read succeeds non-empty; otherwise it is the walk's outcome, errors included |
| Query.CacheThroughStore | git_query/query.py:43-52 | the store changes only by a recorded save of the walked list, keeping the constraints and only adding |
| Query.UnparsableUrlUnbound | git_query/query.py:24-60 | without a host in the URL the fallback finds no repository operations: an error, with no call and no change |
| Query.BetweenCalls | git_query/query.py:29-60 | the cache is read with the resolved ids, walks get the names as given, and a non-cached answer is the live walk's outcome |
| Query.BetweenResolutionFailure | git_query/query.py:29-60 | an unresolvable reference is re-raised by the fallback walk and reaches the caller, after one walk and no read |
| Query.ByDepthCalls | git_query/query.py:77-107 | the cache is read with the resolved start id; max_depth is passed unchanged to the read and the walker |
| Query.ServeKeepsStore | git_query/query.py:51-122 | every service call keeps the store's constraints and only adds to it |
| Query.MissThenHit | tests/test_with_cache.py:65-89 | after a miss whose walk and save succeed, the same request is served from the cache with a single read and no walk or save |
| Query.FirstCommitOutcome | git_query/query.py:114-126 | always walks live; succeeds exactly when the host, walk and save succeed, returning the saved commit as a member; every failure is wrapped and changes nothing |

## Left out

- Cloning, the temporary directory and its cleanup (git_query/git_operations.py:10-37, test.py:14-23) are filesystem and network work. A clone is a repository value, or None when it fails.
- pygit2 internals. `repo.get` is modelled as an exact lookup in the object map.
- Refs.ResolveRefAsWritten, Refs.FirstCandidateAsWritten and Refs.AsWrittenAgreesUnlessObject: `repo.get` is taken to be that exact lookup. In pygit2 it is a lookup by hexadecimal id prefix, which the model does not capture. This has two consequences. (a) For a short name that is not hexadecimal and has no refs/tags/X, `repo.get(ref_name)` at git_query/git_operations.py:53 raises ValueError. That is not StopIteration, so it passes the except at line 68, and the code as written fails there. The model instead goes on to refs/heads/X. (b) An abbreviated hexadecimal id of four or more characters resolves by prefix at lines 53 and 64. The model gives InvalidReference for it.
- Nested annotated tags are not modelled. pygit2's `peel()` follows a chain of tags to the first object that is no tag. Refs.Peel and TagAncestors.TagTarget follow one tag only, so for a tag of a tag the model gives NotACommit or NotCommitOrTag where the code reaches the commit.
- The Neo4j driver, sessions, constraint creation and close/enter/exit (git_query/db.py:6-34, 141-145). The uniqueness constraints are the store invariant `Valid`.
- `[*0..]` follows relationships of any type. Repository nodes have no outgoing edges, so the model follows PARENT edges only.
- Cypher artefacts are left out: duplicate parent ids when a node is reached along several paths, and the order in which COLLECT gathers parents. The `parents` of a returned row is a set.
- Rows of equal stored depth come back in creation order. Neo4j does not fix that order; the model follows one order so that the reads are functions.
- A save that raises is modelled as writing nothing. Writes made before the failure are not modelled.
- Concurrency: overlapping upserts and duplicated cold-cache work.
- `GitOperationsFactory.create` passes the token to a constructor that takes none (git_query/factory.py:26 against git_query/git_operations.py:10). The model takes the creation to succeed whenever the host is found, and does not use the token. When the host is not found, the except path meets an unbound `git_ops`; this is the error OperationsUnbound.
- The by-depth and first-commit walkers (git_query/query.py:91, 103, 119) have no implementation in the repository. They enter the service as their outcomes. For the by-depth call this outcome cannot be tied to the resolution errors it would re-raise.
- Query.GitQueryService.GetCommitsBetween: a start reference that resolves to an object that is not a commit is still used as an id for the cache read, as the code does. The live walk then fails with NotACommit. The code instead fails when it reads the first commit attribute the object lacks (`commit.message`, git_query/git_operations.py:106).
- Walker.GetCommitsBetween: resolves both references with the corrected cascade Refs.ResolveRef, not the cascade as written (Refs.ResolveRefAsWritten, see Findings). In the model the two differ only for a short name that is also an object id (Refs.AsWrittenAgreesUnlessObject). With pygit2's `repo.get` they also differ for the names in the Refs.ResolveRefAsWritten line above. For the Findings repository, get_commits_between(b2, b2) walks from b2 in the code and from a1 in the model.
- Query.GitQueryService.GetCommitsBetween: reads the cache with the ids of the corrected cascade, so for a short name that is also an object id it reads with the branch target (a1 above) where the code reads with the name (b2). The same holds for Walker.CommitsBetween, Query.LiveBetween, Query.ResolveBoth and Query.ServeBetween, which it is proved equal to.
- Query.GitQueryService.GetCommitsByDepth: resolves the start with the corrected cascade, with the same difference, as does Query.ServeByDepth, which it is proved equal to.
- The HTTP front end (git_query/api.py), `sync_commit_history`, printing and `__main__` (test.py:66-81), and setup.py.
- tests/test_db.py:14-16, 82-90, 93-94 and 97-100 assert orders and depths that ordering by stored depth does not produce, and are not used. CacheGraph.SaveTwoReadBack proves the order the code gives instead: commit1 has stored depth 0, so it comes first. In the between test at lines 82-100, the depth-0 rows commit_old_2 and commit_new_2 come first.
- Environment reads are a map parameter of Factory.TokenForDomain.
- Factory: regular-expression matching is modelled only for the two fixed patterns, by direct scanning. No general regex engine is modelled.

## Findings

| source | as written | input that shows it | evidently intended | confidence | as-written member | corrected member |
|---|---|---|---|---|---|---|
| git_query/git_operations.py:51-54 | a candidate is taken when `ref in repo.references or repo.get(ref_name)`: the second test looks at the name, not the candidate, so a name that is an object id selects refs/tags/X even when no such tag exists, and the cascade then falls through to the raw id | a repository with commits a1 and b2 and a branch refs/heads/b2 pointing at a1: resolving b2 gives b2 | each candidate is tested on its own (`ref in repo.references or repo.get(ref)`), so b2 resolves through its branch to a1 | not executed | Refs.AsWrittenBranchCounterexample | Refs.ResolveRef |
