/** RepositoryInitService: creating the `.sit` directory with an attached HEAD on `main`. */
module RepositoryInit {
  import opened Wrappers
  import opened Text
  import opened Store

  /** The HEAD file written by a fresh init. */
  const InitialHead: string := "ref: refs/heads/main\n"

  /**
    The state after `init`: unchanged when `.sit` exists; otherwise a new
    `.sit` with empty object, commit and `refs/heads` directories, the initial
    HEAD and no index file. The working tree is never touched.
   */
  function Initialized(s: RepoState): RepoState {
    if s.initialized then s
    else s.(initialized := true, objects := map[], commits := map[], refs := map[],
            head := Some(InitialHead), index := [])
  }

  /**
    `init`. Reports whether the repository already existed ("Reinitialized")
    and changes nothing in that case.
   */
  method Init(r: Repository) returns (reinitialised: bool)
    requires r.Valid()
    modifies r
    ensures reinitialised == old(r.initialized)
    ensures r.State() == Initialized(old(r.State()))
    ensures r.Valid()
  {
    if r.initialized {
      reinitialised := true;
      return;
    }
    reinitialised := false;
    r.initialized := true;
    r.objects := map[];
    r.commits := map[];
    r.refs := map[];
    r.head := Some(InitialHead);
    r.index := [];
  }

  /** A fresh init attaches HEAD to `refs/heads/main`, which has no commit yet, and leaves every store empty. */
  lemma FreshInit(s: RepoState)
    requires !s.initialized
    ensures var t := Initialized(s);
      && t.initialized
      && CurrentBranch(t.head) == Some("refs/heads/main")
      && HeadCommitId(t) == None
      && t.objects == map[] && t.commits == map[] && t.refs == map[] && t.index == []
      && t.working == s.working
  {
    var ref := "refs/heads/main";
    assert InitialHead == "ref: " + ref + "\n";
    AttachedHead(ref, "\n");
  }

  /** A second `init` changes nothing. */
  lemma InitIsIdempotent(s: RepoState)
    ensures Initialized(Initialized(s)) == Initialized(s)
    ensures s.initialized ==> Initialized(s) == s
  {
  }
}
