/**
  MergeService: fast-forward merges only. The target branch's commit must
  descend from the current one, which a breadth-first search over the
  `parent:` lines decides.
 */
module Merge {
  import opened Wrappers
  import opened Text
  import opened CommitFormat
  import opened Store
  import opened Worktree
  import Commits

  const HeadsPrefix: string := "refs/heads/"

  /* ----------------------------------------------------------- ancestry */

  /** `getParents`: the trimmed `parent:` values before the first blank line; none for a missing record. */
  function ParentsOf(commits: map<string, string>, id: string): seq<string> {
    if id in commits then ReadParents(Lines(commits[id])) else []
  }

  /** The loop of `getParents`. */
  method GetParents(r: Repository, commitId: string) returns (parents: seq<string>)
    ensures parents == ParentsOf(r.commits, commitId)
  {
    parents := [];
    if commitId !in r.commits {
      return;
    }
    var lines := Lines(r.commits[commitId]);
    for i := 0 to |lines|
      invariant parents + ReadParents(lines[i..]) == ParentsOf(r.commits, commitId)
    {
      var line := lines[i];
      ghost var tail := lines[i + 1..];
      assert lines[i..][0] == line && lines[i..][1..] == tail;
      if line == [] {
        assert parents + [] == parents;
        return;
      }
      ghost var found: seq<string> := if "parent: " <= line then [Trim(line[8..])] else [];
      assert ReadParents(lines[i..]) == found + ReadParents(tail);
      ConcatAssoc(parents, found, ReadParents(tail));
      if "parent: " <= line {
        parents := parents + [Trim(line[8..])];
      } else {
        assert parents + found == parents;
      }
    }
    assert lines[|lines|..] == [];
    assert parents + [] == parents;
  }

  /** `c` is a walk along parent edges: each id after the first is a parent of the one before. */
  ghost predicate IsChain(commits: map<string, string>, c: seq<string>) {
    |c| > 0 && forall k :: 0 <= k < |c| - 1 ==> c[k + 1] in ParentsOf(commits, c[k])
  }

  /** `to` is `from` or one of its ancestors. */
  ghost predicate Reaches(commits: map<string, string>, from: string, to: string) {
    exists c :: IsChain(commits, c) && c[0] == from && c[|c| - 1] == to
  }

  /** Every commit is its own ancestor. */
  lemma ReachesSelf(commits: map<string, string>, x: string)
    ensures Reaches(commits, x, x)
  {
    assert IsChain(commits, [x]);
  }

  /** An ancestor's parent is an ancestor. */
  lemma ReachesParent(commits: map<string, string>, from: string, v: string, p: string)
    requires Reaches(commits, from, v) && p in ParentsOf(commits, v)
    ensures Reaches(commits, from, p)
  {
    var c :| IsChain(commits, c) && c[0] == from && c[|c| - 1] == v;
    var c' := c + [p];
    forall k | 0 <= k < |c'| - 1 ensures c'[k + 1] in ParentsOf(commits, c'[k]) {
      if k < |c| - 1 {
        assert c'[k] == c[k] && c'[k + 1] == c[k + 1];
      } else {
        assert c'[k] == v && c'[k + 1] == p;
      }
    }
    assert c'[0] == from && c'[|c'| - 1] == p;
  }

  /** A set holding `from` and closed under parents holds every id on a chain from `from`. */
  lemma {:induction false} ChainStaysInside(commits: map<string, string>, seen: set<string>, c: seq<string>, k: nat)
    requires IsChain(commits, c) && c[0] in seen && k < |c|
    requires forall v, p :: v in seen && p in ParentsOf(commits, v) ==> p in seen
    ensures c[k] in seen
  {
    if k > 0 {
      ChainStaysInside(commits, seen, c, k - 1);
    }
  }

  /** Every id the search can reach: the start and every parent named anywhere. */
  ghost function Universe(commits: map<string, string>, start: string): set<string> {
    {start} + set v, p | v in commits && p in ParentsOf(commits, v) :: p
  }

  lemma FewerLeft(u: set<string>, a: set<string>, b: set<string>)
    requires a < b <= u
    ensures |u - b| < |u - a|
  {
    assert |b| == |a| + |b - a|;
    assert b - a != {};
    assert |u| == |u - a| + |a| && |u| == |u - b| + |b|;
  }

  /** The inner loop of `isAncestor`: each parent not yet visited is marked visited and queued. */
  method EnqueueParents(parents: seq<string>, queue: seq<string>, visited: set<string>)
    returns (queue': seq<string>, visited': set<string>)
    ensures visited' == visited + (set p | p in parents)
    ensures forall x :: x in queue' <==> x in queue || (x in parents && x !in visited)
    ensures visited' == visited ==> queue' == queue
  {
    queue', visited' := queue, visited;
    for k := 0 to |parents|
      invariant visited' == visited + (set p | p in parents[..k])
      invariant forall x :: x in queue' <==> x in queue || (x in parents[..k] && x !in visited)
      invariant visited' == visited ==> queue' == queue
    {
      var parent := parents[k];
      assert parents[..k + 1] == parents[..k] + [parent];
      if parent !in visited' {
        visited' := visited' + {parent};
        queue' := queue' + [parent];
      }
    }
    assert parents[..|parents|] == parents;
  }

  /**
    The invariant of the search from `start`: `visited` holds what was
    queued so far, `done` the ids already expanded, and every visited id is
    an ancestor of `start`; `target` has not been expanded.
   */
  ghost predicate Searching(commits: map<string, string>, start: string, target: string,
                            visited: set<string>, done: set<string>, queue: seq<string>)
  {
    && visited <= Universe(commits, start) && start in visited
    && (forall x :: x in visited <==> x in done || x in queue)
    && (forall v :: v in visited ==> Reaches(commits, start, v))
    && target !in done
    && (forall v, p :: v in done && p in ParentsOf(commits, v) ==> p in visited)
  }

  /** Expanding the head of the queue keeps the invariant and shrinks the measure. */
  lemma SearchStep(commits: map<string, string>, start: string, target: string,
                   visited: set<string>, done: set<string>, queue: seq<string>,
                   parents: seq<string>, queue': seq<string>, visited': set<string>)
    requires Searching(commits, start, target, visited, done, queue)
    requires queue != [] && queue[0] != target && parents == ParentsOf(commits, queue[0])
    requires visited' == visited + (set p | p in parents)
    requires forall x :: x in queue' <==> x in queue[1..] || (x in parents && x !in visited)
    requires visited' == visited ==> queue' == queue[1..]
    ensures Searching(commits, start, target, visited', done + {queue[0]}, queue')
    ensures var u := Universe(commits, start);
      |u - visited'| < |u - visited| || (visited' == visited && |queue'| < |queue|)
  {
    var current := queue[0];
    StepReaches(commits, start, visited, current, visited');
    forall x | x in visited' ensures x in done + {current} || x in queue' {
      if x in visited && x != current && x !in done {
        assert x in queue[1..];
      }
    }
    if visited' != visited {
      FewerLeft(Universe(commits, start), visited, visited');
    }
  }

  /** The parents of a reachable id are reachable and inside the search's universe. */
  lemma StepReaches(commits: map<string, string>, start: string, visited: set<string>, current: string, visited': set<string>)
    requires visited <= Universe(commits, start) && current in visited
    requires forall v :: v in visited ==> Reaches(commits, start, v)
    requires visited' == visited + (set p | p in ParentsOf(commits, current))
    ensures visited' <= Universe(commits, start)
    ensures forall v :: v in visited' ==> Reaches(commits, start, v)
  {
    forall v | v in visited' && v !in visited ensures Reaches(commits, start, v) && v in Universe(commits, start) {
      ReachesParent(commits, start, current, v);
      assert current in commits;
    }
  }

  /** When the queue runs empty, everything reachable from `start` was expanded, so `target` is not reachable. */
  lemma SearchEnd(commits: map<string, string>, start: string, target: string, visited: set<string>, done: set<string>)
    requires Searching(commits, start, target, visited, done, [])
    ensures !Reaches(commits, start, target)
  {
    if Reaches(commits, start, target) {
      var c :| IsChain(commits, c) && c[0] == start && c[|c| - 1] == target;
      ChainStaysInside(commits, done, c, |c| - 1);
    }
  }

  /**
    `isAncestor`: a breadth-first search from `commitId` over parent edges
    with a visited set, answering whether `potentialAncestor` is met.
   */
  method IsAncestor(r: Repository, potentialAncestor: string, commitId: string) returns (found: bool)
    ensures found <==> Reaches(r.commits, commitId, potentialAncestor)
  {
    var queue := [commitId];
    var visited := {commitId};
    ghost var done: set<string> := {};
    ghost var universe := Universe(r.commits, commitId);
    ReachesSelf(r.commits, commitId);
    while queue != []
      invariant Searching(r.commits, commitId, potentialAncestor, visited, done, queue)
      decreases |universe - visited|, |queue|
    {
      ghost var queue0, visited0 := queue, visited;
      var current := queue[0];
      queue := queue[1..];
      if current == potentialAncestor {
        assert current in visited;
        return true;
      }
      var parents := GetParents(r, current);
      queue, visited := EnqueueParents(parents, queue, visited);
      SearchStep(r.commits, commitId, potentialAncestor, visited0, done, queue0, parents, queue, visited);
      done := done + {current};
    }
    SearchEnd(r.commits, commitId, potentialAncestor, visited, done);
    found := false;
  }

  /* ----------------------------------------------------------- restoring */

  /** `restoreWorkingTree`: the working tree with the commit's files restored; a missing record aborts before any write. */
  function RestoredTree(s: RepoState, commitId: string): map<string, string> {
    if commitId in s.commits then Restore(s.working, BodyEntries(Lines(s.commits[commitId]), false, false), s.objects)
    else s.working
  }

  /** `restoreWorkingTree`. Only the working tree changes. */
  method RestoreWorkingTree(r: Repository, commitId: string)
    modifies r
    ensures r.State() == old(r.State()).(working := RestoredTree(old(r.State()), commitId))
  {
    if commitId !in r.commits {
      return;
    }
    var lines := Lines(r.commits[commitId]);
    ghost var s := r.State();
    ghost var es := BodyEntries(lines, false, false);
    var headerEnded := false;
    for i := 0 to |lines|
      invariant r.State() == s.(working := r.working)
      invariant Restore(r.working, BodyEntries(lines[i..], headerEnded, false), r.objects) == Restore(s.working, es, s.objects)
    {
      var line := lines[i];
      assert lines[i..][1..] == lines[i + 1..];
      if line == [] {
        headerEnded := true;
        continue;
      }
      if !headerEnded {
        continue;
      }
      var separator := LastIndexOf(line, ':');
      if separator.None? {
        assert [] + BodyEntries(lines[i + 1..], true, false) == BodyEntries(lines[i + 1..], true, false);
        continue;
      }
      var path := line[..separator.value];
      var hash := line[separator.value + 1..];
      var e := Entry(path, hash);
      assert SplitEntry(line, false) == Some(e);
      var rest := BodyEntries(lines[i + 1..], true, false);
      assert ([e] + rest)[0] == e && ([e] + rest)[1..] == rest;
      if hash in r.objects {
        r.working := r.working[path := r.objects[hash]];
      }
    }
  }

  /* -------------------------------------------------------------- merging */

  datatype MergeOutcome =
    | NotARepository
    | BranchNotFound
    | NotOnBranch
    | DetachedHead
    | UpToDate
    | FastForward(from: string, to: string)
    | NotFastForward

  /**
    The head commit exists whenever `handleMerge` reads it: on an attached
    `refs/heads/` branch once the target branch was found. (Otherwise the
    code dereferences a missing id.)
   */
  predicate HeadCommitWhenReached(s: RepoState, target: string) {
    (s.initialized && HeadsPrefix + target in s.refs && CurrentBranch(s.head).Some? && HeadsPrefix <= CurrentBranch(s.head).value)
    ==> HeadCommitId(s).Some?
  }

  /** The state after a fast-forward of branch `current` to `targetId`: the branch ref first, then the working tree. */
  function FastForwarded(s: RepoState, current: string, targetId: string): RepoState
    requires HeadsPrefix <= current
  {
    var moved := s.(refs := s.refs[HeadsPrefix + current[|HeadsPrefix|..] := targetId]);
    moved.(working := RestoredTree(moved, targetId))
  }

  /** `handleMerge` as a function of the state. */
  ghost function MergeOf(s: RepoState, target: string): (MergeOutcome, RepoState)
    requires HeadCommitWhenReached(s, target)
  {
    if !s.initialized then (NotARepository, s)
    else if HeadsPrefix + target !in s.refs then (BranchNotFound, s)
    else
      var targetId := Trim(s.refs[HeadsPrefix + target]);
      match CurrentBranch(s.head)
      case None => (NotOnBranch, s)
      case Some(current) =>
        if !(HeadsPrefix <= current) then (DetachedHead, s)
        else
          var currentId := HeadCommitId(s).value;
          if currentId == targetId then (UpToDate, s)
          else if Reaches(s.commits, targetId, currentId) then (FastForward(currentId, targetId), FastForwarded(s, current, targetId))
          else (NotFastForward, s)
  }

  /** `handleMerge`. */
  method HandleMerge(r: Repository, targetBranchName: string) returns (out: MergeOutcome)
    requires HeadCommitWhenReached(r.State(), targetBranchName)
    modifies r
    ensures (out, r.State()) == MergeOf(old(r.State()), targetBranchName)
  {
    if !r.initialized {
      return NotARepository;
    }
    var targetBranchFile := HeadsPrefix + targetBranchName;
    if targetBranchFile !in r.refs {
      return BranchNotFound;
    }
    var targetCommitId := Trim(r.refs[targetBranchFile]);
    var currentBranch := CurrentBranch(r.head);
    if currentBranch.None? {
      return NotOnBranch;
    }
    if !(HeadsPrefix <= currentBranch.value) {
      return DetachedHead;
    }
    var currentBranchName := currentBranch.value[|HeadsPrefix|..];
    var currentCommitId := HeadCommitId(r.State()).value;
    if currentCommitId == targetCommitId {
      return UpToDate;
    }
    var ancestor := IsAncestor(r, currentCommitId, targetCommitId);
    if ancestor {
      r.refs := r.refs[HeadsPrefix + currentBranchName := targetCommitId];
      RestoreWorkingTree(r, targetCommitId);
      out := FastForward(currentCommitId, targetCommitId);
    } else {
      out := NotFastForward;
    }
  }

  /** Every outcome but a fast-forward leaves the state as it was. */
  lemma MergeRefusals(s: RepoState, target: string)
    requires HeadCommitWhenReached(s, target)
    ensures !MergeOf(s, target).0.FastForward? ==> MergeOf(s, target).1 == s
    ensures (s.initialized && HeadsPrefix + target in s.refs && CurrentBranch(s.head).Some? && HeadsPrefix <= CurrentBranch(s.head).value
             && HeadCommitId(s).value == Trim(s.refs[HeadsPrefix + target]))
            ==> MergeOf(s, target).0 == UpToDate
  {
  }

  /** A commit other than `from` that `from` reaches has a stored record (it has a parent). */
  lemma StoredIfReachesOther(commits: map<string, string>, from: string, to: string)
    requires Reaches(commits, from, to) && from != to
    ensures from in commits
  {
    var c :| IsChain(commits, c) && c[0] == from && c[|c| - 1] == to;
    assert |c| > 1 && c[1] in ParentsOf(commits, c[0]);
  }

  /**
    A fast-forward moves only the current branch ref, to a stored commit
    descending from the current one: HEAD, the index, objects and commits
    stay, and the head commit becomes the target.
   */
  lemma FastForwardEffect(s: RepoState, target: string)
    requires HeadCommitWhenReached(s, target) && MergeOf(s, target).0.FastForward?
    ensures var (out, t) := MergeOf(s, target);
      && out.to in s.commits && Reaches(s.commits, out.to, out.from) && Some(out.from) == HeadCommitId(s)
      && t.refs == s.refs[CurrentBranch(s.head).value := out.to]
      && t.head == s.head && t.index == s.index && t.objects == s.objects && t.commits == s.commits
      && HeadCommitId(t) == Some(out.to)
      && t.working == Restore(s.working, BodyEntries(Lines(s.commits[out.to]), false, false), s.objects)
  {
    var (out, t) := MergeOf(s, target);
    var targetId := Trim(s.refs[HeadsPrefix + target]);
    var current := CurrentBranch(s.head).value;
    var currentId := HeadCommitId(s).value;
    assert out == FastForward(currentId, targetId) && t == FastForwarded(s, current, targetId);
    StoredIfReachesOther(s.commits, targetId, currentId);
    FastForwardedState(s, current, targetId);
  }

  /** The fast-forwarded state, on its own. */
  lemma FastForwardedState(s: RepoState, current: string, targetId: string)
    requires HeadsPrefix <= current && CurrentBranch(s.head) == Some(current)
    requires targetId in s.commits && IsTrimmed(targetId)
    ensures var t := FastForwarded(s, current, targetId);
      && t.refs == s.refs[current := targetId]
      && t.head == s.head && t.index == s.index && t.objects == s.objects && t.commits == s.commits
      && HeadCommitId(t) == Some(targetId)
      && t.working == Restore(s.working, BodyEntries(Lines(s.commits[targetId]), false, false), s.objects)
  {
    assert HeadsPrefix + current[|HeadsPrefix|..] == current;
    TrimOfTrimmed(targetId);
  }

  /** A fast-forward leaves the files the target commit does not name as they were. */
  lemma FastForwardKeepsOtherFiles(s: RepoState, target: string, p: string)
    requires HeadCommitWhenReached(s, target) && MergeOf(s, target).0.FastForward?
    ensures var (out, t) := MergeOf(s, target);
      out.to in s.commits &&
      ((forall e :: e in BodyEntries(Lines(s.commits[out.to]), false, false) ==> e.path != p) ==>
         (p in t.working <==> p in s.working) && (p in s.working ==> t.working[p] == s.working[p]))
  {
    FastForwardEffect(s, target);
    var (out, t) := MergeOf(s, target);
    var es := BodyEntries(Lines(s.commits[out.to]), false, false);
    if forall e :: e in es ==> e.path != p {
      RestoreFrame(s.working, es, s.objects, p);
    }
  }

  /**
    A new commit descends from the previous head commit: merging the branch
    that received it into a branch still at the old head is a fast-forward
    candidate.
   */
  lemma CommitDescendsFromHead(s: RepoState, message: string, date: string, sha1: string -> string)
    requires s.initialized && s.index != [] && HeadCommitId(s).Some?
    requires Serialisable(HeadCommitId(s), date, message, s.index)
    ensures var (out, t) := Commits.Commit(s, message, date, sha1);
      out.Committed? && Reaches(t.commits, out.id, HeadCommitId(s).value)
  {
    var parent := HeadCommitId(s);
    var text := CommitText(parent, date, message, s.index);
    var id := sha1(text);
    var stored := s.(commits := s.commits[id := text]);
    assert Commits.Commit(s, message, date, sha1) == (Commits.Committed(id, parent), AdvanceHead(stored, id));
    AdvanceHeadFrame(stored, id);
    ParentsRoundTrip(parent, date, message, s.index);
    TrimOfTrimmed(parent.value);
    ParentEdge(AdvanceHead(stored, id).commits, id, parent.value);
  }

  /** A stored commit whose record names `p` as parent reaches `p`. */
  lemma ParentEdge(commits: map<string, string>, id: string, p: string)
    requires p in ParentsOf(commits, id)
    ensures Reaches(commits, id, p)
  {
    var c := [id, p];
    assert c[1] in ParentsOf(commits, c[0]);
    assert IsChain(commits, c);
  }
}
