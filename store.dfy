/**
  The on-disk store of a sit repository (SitRepository): the `.sit`
  directory, blobs under `.sit/objects`, commit records under
  `.sit/commits`, ref files such as `.sit/refs/heads/main` (keyed here by
  their path below `.sit`), the HEAD file, the index and the working tree.
 */
module Store {
  import opened Wrappers
  import opened Text
  import opened CommitFormat

  /** The whole store as a value. `head` is the HEAD file's content, `None` when the file is absent. */
  datatype RepoState = RepoState(
    initialized: bool,
    objects: map<string, string>,
    commits: map<string, string>,
    refs: map<string, string>,
    head: Option<string>,
    index: seq<Entry>,
    working: map<string, string>)

  /**
    `getCurrentBranch`: `None` without a HEAD file; otherwise the trimmed
    content with a leading `ref: ` removed (attached), or the trimmed content
    itself (a detached HEAD holding a commit id).
   */
  function CurrentBranch(head: Option<string>): Option<string> {
    match head
    case None => None
    case Some(content) =>
      var t := Trim(content);
      if "ref: " <= t then Some(t[5..]) else Some(t)
  }

  /**
    `getHeadCommitId`: the trimmed content of the file `.sit/<ref>` named by
    the current branch, `None` when there is no HEAD or that file is absent.
   */
  function HeadCommitId(s: RepoState): Option<string> {
    match CurrentBranch(s.head)
    case None => None
    case Some(ref) => if ref in s.refs then Some(Trim(s.refs[ref])) else None
  }

  /** `updateHead`: the state after writing `commitId` to the current branch ref when it starts with `refs/`. */
  function AdvanceHead(s: RepoState, commitId: string): RepoState {
    match CurrentBranch(s.head)
    case Some(ref) => if "refs/" <= ref then s.(refs := s.refs[ref := commitId]) else s
    case None => s
  }

  /** An attached HEAD `ref: <ref>` followed by any trailing white space names `ref`. */
  lemma AttachedHead(ref: string, tail: string)
    requires ref != [] && !IsTrimmable(ref[|ref| - 1])
    requires forall k :: 0 <= k < |tail| ==> IsTrimmable(tail[k])
    ensures CurrentBranch(Some("ref: " + ref + tail)) == Some(ref)
  {
    var t := "ref: " + ref;
    assert t[0] == 'r' && t[|t| - 1] == ref[|ref| - 1];
    assert "ref: " + ref + tail == t + tail;
    TrimDropsTail(t, tail);
    assert "ref: " <= t && t[5..] == ref;
  }

  /** A detached HEAD holding a bare id names that id, and a HEAD commit exists only if a file of that name does. */
  lemma DetachedHead(s: RepoState, id: string)
    requires s.head == Some(id) && IsTrimmed(id) && !("ref: " <= id)
    ensures CurrentBranch(s.head) == Some(id)
    ensures HeadCommitId(s).Some? <==> id in s.refs
  {
    TrimOfTrimmed(id);
  }

  /** On a branch under `refs/`, advancing the head and reading it back gives the new id (when it has no surrounding white space). */
  lemma AdvanceThenRead(s: RepoState, commitId: string)
    requires CurrentBranch(s.head).Some? && "refs/" <= CurrentBranch(s.head).value
    requires IsTrimmed(commitId)
    ensures HeadCommitId(AdvanceHead(s, commitId)) == Some(commitId)
  {
    TrimOfTrimmed(commitId);
  }

  /** Advancing the head writes at most the current branch's ref; a HEAD not naming a `refs/` path leaves everything. */
  lemma AdvanceHeadFrame(s: RepoState, commitId: string)
    ensures AdvanceHead(s, commitId) == s.(refs := AdvanceHead(s, commitId).refs)
    ensures forall k :: k in s.refs && Some(k) != CurrentBranch(s.head) ==> k in AdvanceHead(s, commitId).refs && AdvanceHead(s, commitId).refs[k] == s.refs[k]
    ensures AdvanceHead(s, commitId).refs.Keys <= s.refs.Keys + (if CurrentBranch(s.head).Some? then {CurrentBranch(s.head).value} else {})
    ensures CurrentBranch(s.head).Some? && "refs/" <= CurrentBranch(s.head).value ==>
      CurrentBranch(s.head).value in AdvanceHead(s, commitId).refs && AdvanceHead(s, commitId).refs[CurrentBranch(s.head).value] == commitId
    ensures !(CurrentBranch(s.head).Some? && "refs/" <= CurrentBranch(s.head).value) ==> AdvanceHead(s, commitId) == s
  {
  }

  /** The mutable store. */
  class Repository {
    var initialized: bool
    var objects: map<string, string>
    var commits: map<string, string>
    var refs: map<string, string>
    var head: Option<string>
    var index: seq<Entry>
    var working: map<string, string>

    /** The index maps each path to one hash. */
    ghost predicate Valid()
      reads this
    {
      UniquePaths(index)
    }

    function State(): RepoState
      reads this
    {
      RepoState(initialized, objects, commits, refs, head, index, working)
    }

    /** A directory holding `working` and no `.sit` directory. */
    constructor (working: map<string, string>)
      ensures Valid()
      ensures State() == RepoState(false, map[], map[], map[], None, [], working)
    {
      initialized := false;
      objects := map[];
      commits := map[];
      refs := map[];
      head := None;
      index := [];
      this.working := working;
    }

    /** `saveObject`: (over)writes the blob stored under `hash`; nothing else changes. */
    method SaveObject(hash: string, data: string)
      modifies this
      ensures State() == old(State()).(objects := old(objects)[hash := data])
    {
      objects := objects[hash := data];
    }

    /** `saveCommit`: (over)writes the commit record stored under `hash`; nothing else changes. */
    method SaveCommit(hash: string, content: string)
      modifies this
      ensures State() == old(State()).(commits := old(commits)[hash := content])
    {
      commits := commits[hash := content];
    }

    /** `updateHead`: writes `commitId` to the current branch's ref file if the branch is a `refs/` path. */
    method UpdateHead(commitId: string)
      modifies this
      ensures State() == AdvanceHead(old(State()), commitId)
    {
      var current := CurrentBranch(head);
      if current.Some? && "refs/" <= current.value {
        refs := refs[current.value := commitId];
      }
    }
  }
}
