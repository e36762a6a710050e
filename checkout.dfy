/**
  CheckoutService: switching to a branch by restoring its commit's files,
  replacing the index with the commit's entries and attaching HEAD to it.
 */
module Checkout {
  import opened Wrappers
  import opened Text
  import opened CommitFormat
  import opened Store
  import opened Worktree

  const HeadsPrefix: string := "refs/heads/"

  datatype CheckoutOutcome = NotARepository | BranchNotFound | MissingCommit(id: string) | Switched(id: string)

  /** The entries of a stored commit as checkout reads them: after the first blank line, split at the last colon, hash untrimmed. */
  function CommitEntries(commits: map<string, string>, id: string): seq<Entry>
    requires id in commits
  {
    BodyEntries(Lines(commits[id]), false, false)
  }

  /**
    `handleCheckout` relates `s` to the outcome `out` and the state `t`:
    every error leaves the state; a switch restores the commit's files,
    makes the index hold exactly the commit's entries (a later entry for a
    path wins; the order of the index written from the map is not fixed)
    and attaches HEAD to the branch. Refs, objects and commits never change.
   */
  predicate CheckedOut(s: RepoState, name: string, out: CheckoutOutcome, t: RepoState) {
    if !s.initialized then out == NotARepository && t == s
    else if HeadsPrefix + name !in s.refs then out == BranchNotFound && t == s
    else
      var id := Trim(s.refs[HeadsPrefix + name]);
      if id !in s.commits then out == MissingCommit(id) && t == s
      else
        var es := CommitEntries(s.commits, id);
        && out == Switched(id)
        && UniquePaths(t.index) && ToMap(t.index) == ToMap(es)
        && t == s.(working := Restore(s.working, es, s.objects), index := t.index, head := Some("ref: " + HeadsPrefix + name))
  }

  /** `restoreFile`: writes the blob to the path if the blob exists, and otherwise only warns. */
  method RestoreFile(r: Repository, path: string, hash: string)
    modifies r
    ensures r.State() == old(r.State()).(working := RestoreOne(old(r.working), Entry(path, hash), r.objects))
  {
    if hash !in r.objects {
      return;
    }
    var content := r.objects[hash];
    r.working := r.working[path := content];
  }

  /** `idx` lists each key of `m` not in `todo` once, with its value, and nothing else. */
  predicate Lists(idx: seq<Entry>, m: map<string, string>, todo: set<string>) {
    && todo <= m.Keys
    && UniquePaths(idx)
    && (forall i :: 0 <= i < |idx| ==> idx[i].path in m && idx[i].path !in todo && idx[i].hash == m[idx[i].path])
    && (forall k :: k in m && k !in todo ==> exists i :: 0 <= i < |idx| && idx[i].path == k)
  }

  lemma ListOne(idx: seq<Entry>, m: map<string, string>, todo: set<string>, path: string)
    requires Lists(idx, m, todo) && path in todo
    ensures Lists(idx + [Entry(path, m[path])], m, todo - {path})
  {
    var idx' := idx + [Entry(path, m[path])];
    forall i, j | 0 <= i < j < |idx'| ensures idx'[i].path != idx'[j].path {
      assert idx'[i] == idx[i];
      if j < |idx| {
        assert idx'[j] == idx[j];
      }
    }
    forall k | k in m && k !in todo - {path} ensures exists i :: 0 <= i < |idx'| && idx'[i].path == k {
      if k == path {
        assert idx'[|idx|].path == k;
      } else {
        var i :| 0 <= i < |idx| && idx[i].path == k;
        assert idx'[i].path == k;
      }
    }
  }

  lemma ListsAll(idx: seq<Entry>, m: map<string, string>)
    requires Lists(idx, m, {})
    ensures UniquePaths(idx) && ToMap(idx) == m
  {
    PutAllKeys(map[], idx);
    forall i | 0 <= i < |idx| ensures ToMap(idx)[idx[i].path] == m[idx[i].path] {
      PutAllUnique(map[], idx, i);
    }
  }

  /** The index written from the map `newIndexState`: one entry per key, in an unspecified order. */
  method IndexEntries(newIndexState: map<string, string>) returns (idx: seq<Entry>)
    ensures UniquePaths(idx) && ToMap(idx) == newIndexState
  {
    idx := [];
    var todo := newIndexState.Keys;
    while todo != {}
      invariant Lists(idx, newIndexState, todo)
      decreases todo
    {
      var path :| path in todo;
      ListOne(idx, newIndexState, todo, path);
      idx := idx + [Entry(path, newIndexState[path])];
      todo := todo - {path};
    }
    ListsAll(idx, newIndexState);
  }

  /** `handleCheckout`. */
  method HandleCheckout(r: Repository, branchName: string) returns (out: CheckoutOutcome)
    requires r.Valid()
    modifies r
    ensures r.Valid()
    ensures CheckedOut(old(r.State()), branchName, out, r.State())
  {
    if !r.initialized {
      return NotARepository;
    }
    var branchFile := HeadsPrefix + branchName;
    if branchFile !in r.refs {
      return BranchNotFound;
    }
    var targetCommitId := Trim(r.refs[branchFile]);
    if targetCommitId !in r.commits {
      return MissingCommit(targetCommitId);
    }
    var lines := Lines(r.commits[targetCommitId]);
    ghost var es := BodyEntries(lines, false, false);
    ghost var s := r.State();
    var newIndexState: map<string, string> := map[];
    var headerEnded := false;
    for i := 0 to |lines|
      invariant r.State() == s.(working := r.working)
      invariant Restore(r.working, BodyEntries(lines[i..], headerEnded, false), r.objects) == Restore(s.working, es, s.objects)
      invariant PutAll(newIndexState, BodyEntries(lines[i..], headerEnded, false)) == ToMap(es)
    {
      var line := lines[i];
      assert lines[i..][1..] == lines[i + 1..];
      if line == [] {
        headerEnded := true;
        continue;
      }
      if !headerEnded {
        continue;
      }
      var separator := LastIndexOf(line, ':');
      if separator.None? {
        assert [] + BodyEntries(lines[i + 1..], true, false) == BodyEntries(lines[i + 1..], true, false);
        continue;
      }
      var path := line[..separator.value];
      var hash := line[separator.value + 1..];
      var e := Entry(path, hash);
      assert SplitEntry(line, false) == Some(e);
      var rest := BodyEntries(lines[i + 1..], true, false);
      assert ([e] + rest)[0] == e && ([e] + rest)[1..] == rest;
      RestoreFile(r, path, hash);
      newIndexState := newIndexState[path := hash];
    }
    r.index := IndexEntries(newIndexState);
    r.head := Some("ref: " + HeadsPrefix + branchName);
    out := Switched(targetCommitId);
  }

  /** Only a switch changes anything. */
  lemma CheckoutRefusals(s: RepoState, name: string, out: CheckoutOutcome, t: RepoState)
    requires CheckedOut(s, name, out, t)
    ensures !out.Switched? ==> t == s
    ensures out.Switched? <==> s.initialized && HeadsPrefix + name in s.refs && Trim(s.refs[HeadsPrefix + name]) in s.commits
  {
  }

  /**
    After a switch HEAD names the branch and the head commit is the branch's
    commit; refs, objects and commits are as before, and every path the
    commit names is in the index, a missing blob notwithstanding.
   */
  lemma CheckoutSwitches(s: RepoState, name: string, out: CheckoutOutcome, t: RepoState)
    requires CheckedOut(s, name, out, t) && out.Switched?
    requires name == [] || !IsTrimmable(name[|name| - 1])
    ensures CurrentBranch(t.head) == Some(HeadsPrefix + name)
    ensures HeadCommitId(t) == Some(out.id)
    ensures t.refs == s.refs && t.objects == s.objects && t.commits == s.commits
    ensures var es := CommitEntries(s.commits, out.id);
      forall k :: 0 <= k < |es| ==> es[k].path in ToMap(t.index)
  {
    var ref := HeadsPrefix + name;
    BranchHead(name);
    assert t.head == Some("ref: " + HeadsPrefix + name) && t.refs == s.refs;
    assert ref in t.refs && Trim(t.refs[ref]) == out.id;
    PutAllKeys(map[], CommitEntries(s.commits, out.id));
  }

  /** The HEAD content checkout writes names the branch's ref. */
  lemma BranchHead(name: string)
    requires name == [] || !IsTrimmable(name[|name| - 1])
    ensures CurrentBranch(Some("ref: " + HeadsPrefix + name)) == Some(HeadsPrefix + name)
  {
    var ref := HeadsPrefix + name;
    assert ref[|ref| - 1] == if name == [] then '/' else name[|name| - 1];
    assert "ref: " + ref + "" == "ref: " + HeadsPrefix + name;
    AttachedHead(ref, "");
  }

  /**
    The working tree after a switch: paths the commit does not name are as
    they were; with one entry per path, each path whose blob exists holds
    the blob and each path whose blob is missing is as it was.
   */
  lemma CheckoutWorkingTree(s: RepoState, name: string, out: CheckoutOutcome, t: RepoState, p: string)
    requires CheckedOut(s, name, out, t) && out.Switched?
    ensures var es := CommitEntries(s.commits, out.id);
      && ((forall k :: 0 <= k < |es| ==> es[k].path != p) ==>
            (p in t.working <==> p in s.working) && (p in s.working ==> t.working[p] == s.working[p]))
      && (UniquePaths(es) ==> forall k :: 0 <= k < |es| && es[k].path == p && es[k].hash in s.objects ==>
            p in t.working && t.working[p] == s.objects[es[k].hash])
  {
    var es := CommitEntries(s.commits, out.id);
    if forall k :: 0 <= k < |es| ==> es[k].path != p {
      RestoreFrame(s.working, es, s.objects, p);
    }
    if UniquePaths(es) {
      forall k | 0 <= k < |es| && es[k].path == p && es[k].hash in s.objects
        ensures p in t.working && t.working[p] == s.objects[es[k].hash]
      {
        RestoreEntry(s.working, es, s.objects, k);
      }
    }
  }

  /**
    Checking out a branch whose commit was written from an index (paths and
    hashes free of line feeds, hashes free of colons) brings that index back.
   */
  lemma CheckoutRestoresCommittedIndex(s: RepoState, name: string, out: CheckoutOutcome, t: RepoState,
                                       parent: Option<string>, date: string, message: string, idx: seq<Entry>)
    requires CheckedOut(s, name, out, t) && out.Switched?
    requires s.commits[out.id] == CommitText(parent, date, message, idx)
    requires Serialisable(parent, date, message, idx)
    ensures ToMap(t.index) == ToMap(idx)
  {
    EntriesRoundTrip(parent, date, message, idx, false);
  }
}
