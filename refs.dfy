/**
 * Resolution of a reference name (full reference path, tag, branch or raw
 * commit id) to the object it designates, as the walker does before it walks.
 */
module Refs {
  import opened GitModel

  /** The candidate paths tried for a name that does not start with refs/, in order. */
  function Candidates(name: string): seq<string> {
    ["refs/tags/" + name, "refs/heads/" + name, name]
  }

  /**
   * The first candidate the walker's generator expression picks, exactly as
   * written: a candidate is taken when it is a reference OR when the NAME
   * itself is an object, so an object id shadows every later candidate.
   */
  function FirstCandidateAsWritten(repo: GitRepo, name: string, cands: seq<string>): (r: Option<string>)
    ensures r.Some? ==>
      exists k :: 0 <= k < |cands| && cands[k] == r.value
        && (cands[k] in repo.refs || name in repo.objects)
        && forall j :: 0 <= j < k ==> cands[j] !in repo.refs
    ensures r.None? <==> cands == [] || (name !in repo.objects && forall c :: c in cands ==> c !in repo.refs)
    ensures name in repo.objects && cands != [] ==> r == Some(cands[0])
  {
    if cands == [] then None
    else if cands[0] in repo.refs || name in repo.objects then Some(cands[0])
    else FirstCandidateAsWritten(repo, name, cands[1..])
  }

  /** The first candidate that is itself a reference or an object id. */
  function FirstCandidate(repo: GitRepo, cands: seq<string>): (r: Option<string>)
    ensures r.Some? ==>
      exists k :: 0 <= k < |cands| && cands[k] == r.value
        && (cands[k] in repo.refs || cands[k] in repo.objects)
        && forall j :: 0 <= j < k ==> cands[j] !in repo.refs && cands[j] !in repo.objects
    ensures r.None? <==> forall c :: c in cands ==> c !in repo.refs && c !in repo.objects
  {
    if cands == [] then None
    else if cands[0] in repo.refs || cands[0] in repo.objects then Some(cands[0])
    else FirstCandidate(repo, cands[1..])
  }

  /** Peeling a reference target: an annotated tag is peeled once more (one tag only; nested tags are not followed). */
  function Peel(repo: GitRepo, id: Id): Id {
    if id in repo.objects && repo.objects[id].TagObject? then repo.objects[id].target else id
  }

  /** What happens once a path has been chosen (or none could be). */
  function ResolvePath(repo: GitRepo, name: string, path: Option<string>): Result<Id, GitError> {
    match path
    case None => Err(InvalidReference(name))
    case Some(p) =>
      if p in repo.refs then Ok(Peel(repo, repo.refs[p]))
      else if name in repo.objects && repo.objects[name].CommitObject? then Ok(name)
      else Err(ReferenceNotFound(name))
  }

  /**
   * The resolution cascade exactly as written. For a short name that is no
   * object id it tries refs/tags/X, refs/heads/X and X as references, in
   * that order; a short name that is an object id takes refs/tags/X when it
   * exists and otherwise falls to the raw id, skipping its branch.
   */
  function ResolveRefAsWritten(repo: GitRepo, name: string): (r: Result<Id, GitError>)
    ensures var tag, head := "refs/tags/" + name, "refs/heads/" + name;
      !StartsWith(name, "refs/") ==>
        r == if tag in repo.refs then Ok(Peel(repo, repo.refs[tag]))
             else if name in repo.objects then
               (if repo.objects[name].CommitObject? then Ok(name) else Err(ReferenceNotFound(name)))
             else if head in repo.refs then Ok(Peel(repo, repo.refs[head]))
             else if name in repo.refs then Ok(Peel(repo, repo.refs[name]))
             else Err(InvalidReference(name))
  {
    var cands := Candidates(name);
    assert cands[0] == "refs/tags/" + name && cands[1..][0] == "refs/heads/" + name && cands[1..][1..] == [name];
    ResolvePath(repo, name,
      if StartsWith(name, "refs/") then Some(name)
      else FirstCandidateAsWritten(repo, name, Candidates(name)))
  }

  /** The resolution cascade as evidently intended: tag, then branch, then raw id. */
  function ResolveRef(repo: GitRepo, name: string): (r: Result<Id, GitError>)
    ensures var tag, head := "refs/tags/" + name, "refs/heads/" + name;
      !StartsWith(name, "refs/") && tag !in repo.refs && tag !in repo.objects && head in repo.refs ==>
        r == Ok(Peel(repo, repo.refs[head]))
  {
    var cands, head := Candidates(name), "refs/heads/" + name;
    assert cands[1..] == [head, name];
    assert head in repo.refs ==> FirstCandidate(repo, cands[1..]) == Some(head);
    ResolvePath(repo, name,
      if StartsWith(name, "refs/") then Some(name)
      else FirstCandidate(repo, Candidates(name)))
  }

  /** A name that starts with refs/ is looked up as that reference path and nothing else. */
  lemma FullPathUsedAsIs(repo: GitRepo, name: string)
    requires StartsWith(name, "refs/")
    ensures name in repo.refs ==> ResolveRef(repo, name) == Ok(Peel(repo, repo.refs[name]))
    ensures name !in repo.refs && name in repo.objects && repo.objects[name].CommitObject? ==>
              ResolveRef(repo, name) == Ok(name)
    ensures name !in repo.refs && !(name in repo.objects && repo.objects[name].CommitObject?) ==>
              ResolveRef(repo, name) == Err(ReferenceNotFound(name))
  {
  }

  /** A reference to an annotated tag resolves to the tag's target, one hop further. */
  lemma TagObjectPeeled(repo: GitRepo, name: string, path: string)
    requires path in repo.refs && repo.refs[path] in repo.objects && repo.objects[repo.refs[path]].TagObject?
    requires path == name || (!StartsWith(name, "refs/") && FirstCandidate(repo, Candidates(name)) == Some(path))
    requires StartsWith(name, "refs/") <==> path == name
    ensures ResolveRef(repo, name) == Ok(repo.objects[repo.refs[path]].target)
  {
  }

  /**
   * For a short name the cascade tries refs/tags/X, then refs/heads/X, then
   * a reference literally named X, then X as a raw commit id; a raw object
   * that is not a commit gives ReferenceNotFound and no candidate at all
   * gives InvalidReference. Reference paths are never object ids.
   */
  lemma ShortNameCascade(repo: GitRepo, name: string)
    requires !StartsWith(name, "refs/")
    requires forall id :: id in repo.objects ==> !StartsWith(id, "refs/")
    ensures var tag, head := "refs/tags/" + name, "refs/heads/" + name;
      ResolveRef(repo, name) ==
        if tag in repo.refs then Ok(Peel(repo, repo.refs[tag]))
        else if head in repo.refs then Ok(Peel(repo, repo.refs[head]))
        else if name in repo.refs then Ok(Peel(repo, repo.refs[name]))
        else if name in repo.objects && repo.objects[name].CommitObject? then Ok(name)
        else if name in repo.objects then Err(ReferenceNotFound(name))
        else Err(InvalidReference(name))
  {
    var tag, head := "refs/tags/" + name, "refs/heads/" + name;
    assert StartsWith(tag, "refs/") && StartsWith(head, "refs/") by {
      assert tag[..5] == "refs/";
      assert head[..5] == "refs/";
    }
    assert tag !in repo.objects && head !in repo.objects;
    var cands := Candidates(name);
    assert cands[0] == tag && cands[1..][0] == head && cands[1..][1..] == [name];
    assert FirstCandidate(repo, cands) ==
      if tag in repo.refs then Some(tag)
      else if head in repo.refs then Some(head)
      else FirstCandidate(repo, [name]);
  }

  /**
   * As written, a short name that is also an object id never reaches its
   * branch: the branch candidate is skipped and the raw object is used.
   */
  lemma AsWrittenObjectShadowsBranch(repo: GitRepo, name: string)
    requires !StartsWith(name, "refs/") && name in repo.objects
    requires "refs/tags/" + name !in repo.refs
    ensures ResolveRefAsWritten(repo, name) ==
      (if repo.objects[name].CommitObject? then Ok(name) else Err(ReferenceNotFound(name)))
  {
  }

  /**
   * Off that input the two cascades agree: for a full reference path, or a
   * short name that is no object id, the code as written resolves as
   * intended (reference paths are never object ids).
   */
  lemma AsWrittenAgreesUnlessObject(repo: GitRepo, name: string)
    requires StartsWith(name, "refs/") || name !in repo.objects
    requires forall id :: id in repo.objects ==> !StartsWith(id, "refs/")
    ensures ResolveRefAsWritten(repo, name) == ResolveRef(repo, name)
  {
    if !StartsWith(name, "refs/") {
      ShortNameCascade(repo, name);
    }
  }

  /** The input that shows the discrepancy: a branch whose name is also a commit id. */
  lemma AsWrittenBranchCounterexample()
    ensures var a := Commit("on branch", "dev", 1, []);
      var b := Commit("named like the branch", "dev", 2, []);
      var repo := GitRepo(map["a1" := CommitObject(a), "b2" := CommitObject(b)], map["refs/heads/b2" := "a1"]);
      ResolveRefAsWritten(repo, "b2") == Ok("b2") && ResolveRef(repo, "b2") == Ok("a1")
  {
    var a := Commit("on branch", "dev", 1, []);
    var b := Commit("named like the branch", "dev", 2, []);
    var repo := GitRepo(map["a1" := CommitObject(a), "b2" := CommitObject(b)], map["refs/heads/b2" := "a1"]);
    assert !StartsWith("b2", "refs/");
    assert Candidates("b2")[0] == "refs/tags/b2" && "refs/tags/b2" !in repo.refs;
    assert Candidates("b2")[1..][0] == "refs/heads/b2";
  }
}
