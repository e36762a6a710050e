/** BranchService: listing the branches under `refs/heads` and creating a new one at the head commit. */
module Branches {
  import opened Wrappers
  import opened Text
  import opened Store

  const HeadsPrefix: string := "refs/heads/"

  datatype BranchError = NotARepository | HeadUnreadable | AlreadyExists | NoCommitsYet

  /** One listed branch; `current` is the `* ` mark. */
  datatype BranchLine = BranchLine(name: string, current: bool)

  /** `listBranches`' current branch: the trimmed HEAD without `ref: refs/heads/`, or "" when it lacks that prefix. */
  function CurrentBranchName(headContent: string): string {
    var t := Trim(headContent);
    if "ref: refs/heads/" <= t then t[16..] else ""
  }

  /** The entries of `.sit/refs/heads`: the names of the refs stored below it. */
  function BranchNames(refs: map<string, string>): set<string> {
    set k | k in refs && HeadsPrefix <= k :: k[|HeadsPrefix|..]
  }

  /** HEAD as written by init or checkout names its branch. */
  lemma AttachedBranchName(name: string, tail: string)
    requires name != [] && !IsTrimmable(name[|name| - 1])
    requires forall k :: 0 <= k < |tail| ==> IsTrimmable(tail[k])
    ensures CurrentBranchName("ref: refs/heads/" + name + tail) == name
  {
    var t := "ref: refs/heads/" + name;
    assert t[0] == 'r' && t[|t| - 1] == name[|name| - 1];
    assert "ref: refs/heads/" + name + tail == t + tail;
    TrimDropsTail(t, tail);
    assert "ref: refs/heads/" <= t && t[16..] == name;
  }

  /** A detached HEAD marks no branch. */
  lemma DetachedBranchName(id: string)
    requires IsTrimmed(id) && !("ref: refs/heads/" <= id)
    ensures CurrentBranchName(id) == ""
  {
    TrimOfTrimmed(id);
  }

  /**
    `listBranches`: every branch once, marked exactly when its name is the
    current branch name. A missing HEAD file makes the read fail.
   */
  method ListBranches(r: Repository) returns (out: Result<set<BranchLine>, BranchError>)
    ensures !r.initialized ==> out == Failure(NotARepository)
    ensures r.initialized && r.head.None? ==> out == Failure(HeadUnreadable)
    ensures r.initialized && r.head.Some? ==> out.Success?
    ensures out.Success? ==> forall l :: l in out.value <==>
      l.name in BranchNames(r.refs) && l.current == (l.name == CurrentBranchName(r.head.value))
  {
    if !r.initialized {
      return Failure(NotARepository);
    }
    if r.head.None? {
      return Failure(HeadUnreadable);
    }
    var currentBranch := CurrentBranchName(r.head.value);
    var branches := BranchNames(r.refs);
    var remaining := branches;
    var lines: set<BranchLine> := {};
    while remaining != {}
      invariant remaining <= branches
      invariant forall l :: l in lines <==> l.name in branches - remaining && l.current == (l.name == currentBranch)
      decreases remaining
    {
      var name :| name in remaining;
      lines := lines + {BranchLine(name, name == currentBranch)};
      remaining := remaining - {name};
    }
    out := Success(lines);
  }

  /** `createBranch` as a function of the state: the outcome (the id the new branch points at) and the new state. */
  function BranchCreation(s: RepoState, name: string): (Result<string, BranchError>, RepoState) {
    if !s.initialized then (Failure(NotARepository), s)
    else if HeadsPrefix + name in s.refs then (Failure(AlreadyExists), s)
    else match HeadCommitId(s)
      case None => (Failure(NoCommitsYet), s)
      case Some(id) => (Success(id), s.(refs := s.refs[HeadsPrefix + name := id]))
  }

  /** `createBranch`. */
  method CreateBranch(r: Repository, name: string) returns (out: Result<string, BranchError>)
    modifies r
    ensures (out, r.State()) == BranchCreation(old(r.State()), name)
  {
    if !r.initialized {
      return Failure(NotARepository);
    }
    var branchFile := HeadsPrefix + name;
    if branchFile in r.refs {
      return Failure(AlreadyExists);
    }
    var currentCommitId := HeadCommitId(r.State());
    if currentCommitId.None? {
      return Failure(NoCommitsYet);
    }
    r.refs := r.refs[branchFile := currentCommitId.value];
    out := Success(currentCommitId.value);
  }

  /**
    An existing branch is refused before the head commit is looked at, and
    every refusal leaves the state as it was.
   */
  lemma CreateRefusals(s: RepoState, name: string)
    ensures var (out, t) := BranchCreation(s, name);
      && (out.Failure? ==> t == s)
      && (s.initialized && HeadsPrefix + name in s.refs ==> out == Failure(AlreadyExists))
      && (s.initialized && HeadsPrefix + name !in s.refs && HeadCommitId(s).None? ==> out == Failure(NoCommitsYet))
  {
  }

  /** Adding the ref of a new branch adds exactly its name to the listing. */
  lemma BranchNamesInsert(refs: map<string, string>, name: string, id: string)
    ensures BranchNames(refs[HeadsPrefix + name := id]) == BranchNames(refs) + {name}
  {
    var key := HeadsPrefix + name;
    var after := refs[key := id];
    assert key[|HeadsPrefix|..] == name;
    assert HeadsPrefix <= key;
    assert name in BranchNames(after);
    forall n | n in BranchNames(after) ensures n in BranchNames(refs) + {name} {
      var k :| k in after && HeadsPrefix <= k && k[|HeadsPrefix|..] == n;
      if k != key {
        assert k in refs;
      }
    }
    forall n | n in BranchNames(refs) ensures n in BranchNames(after) {
      var k :| k in refs && HeadsPrefix <= k && k[|HeadsPrefix|..] == n;
      assert k in after;
    }
  }

  /**
    A created branch points at the head commit; it is the only ref that
    changes, HEAD and the head commit stay, and the listing gains exactly it.
   */
  lemma CreateAddsOneBranch(s: RepoState, name: string)
    requires BranchCreation(s, name).0.Success?
    ensures var (out, t) := BranchCreation(s, name);
      && Some(out.value) == HeadCommitId(s)
      && HeadsPrefix + name !in s.refs
      && t == s.(refs := s.refs[HeadsPrefix + name := out.value])
      && HeadCommitId(t) == HeadCommitId(s)
      && BranchNames(t.refs) == BranchNames(s.refs) + {name}
  {
    var id := HeadCommitId(s).value;
    BranchNamesInsert(s.refs, name, id);
  }
}
