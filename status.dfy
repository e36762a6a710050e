/**
  StatusService: comparing the head commit's entries, the index and the
  hashes of the working files, and sorting paths into staged, modified,
  deleted and untracked.
 */
module Status {
  import opened Wrappers
  import opened Text
  import opened CommitFormat
  import opened Store

  /* ------------------------------------------------------ head entries */

  /**
    `getHeadFiles`: the entries after the first blank line of the head
    commit, split at the last colon with the hash trimmed; empty without a
    head commit or its record.
   */
  function HeadFiles(s: RepoState): map<string, string> {
    match HeadCommitId(s)
    case None => map[]
    case Some(id) => if id in s.commits then ToMap(BodyEntries(Lines(s.commits[id]), false, true)) else map[]
  }

  /** The loop of `getHeadFiles` over the lines of the head commit. */
  method GetHeadFiles(r: Repository) returns (files: map<string, string>)
    ensures files == HeadFiles(r.State())
  {
    files := map[];
    var headCommitId := HeadCommitId(r.State());
    if headCommitId.None? || headCommitId.value !in r.commits {
      return;
    }
    var lines := Lines(r.commits[headCommitId.value]);
    var parsingFiles := false;
    for i := 0 to |lines|
      invariant PutAll(files, BodyEntries(lines[i..], parsingFiles, true)) == HeadFiles(r.State())
    {
      var line := lines[i];
      assert lines[i..][1..] == lines[i + 1..];
      if line == [] {
        parsingFiles := true;
        continue;
      }
      if parsingFiles {
        var separator := LastIndexOf(line, ':');
        if separator.Some? {
          var e := Entry(line[..separator.value], Trim(line[separator.value + 1..]));
          assert SplitEntry(line, true) == Some(e);
          var rest := BodyEntries(lines[i + 1..], true, true);
          assert ([e] + rest)[0] == e && ([e] + rest)[1..] == rest;
          files := files[e.path := e.hash];
        } else {
          assert [] + BodyEntries(lines[i + 1..], true, true) == BodyEntries(lines[i + 1..], true, true);
        }
      }
    }
  }

  /** After a commit on a branch, the head entries are the committed index. */
  lemma HeadFilesAfterCommit(s: RepoState, t: RepoState, id: string, parent: Option<string>, date: string, message: string)
    requires Serialisable(parent, date, message, s.index)
    requires forall i :: 0 <= i < |s.index| ==> IsTrimmed(s.index[i].hash)
    requires HeadCommitId(t) == Some(id) && id in t.commits && t.commits[id] == CommitText(parent, date, message, s.index)
    ensures HeadFiles(t) == ToMap(s.index)
  {
    EntriesRoundTrip(parent, date, message, s.index, true);
  }

  /* --------------------------------------------------------- working tree */

  /** The relative path with `\` turned into `/`. */
  function ReplaceBackslashes(p: string): (q: string)
    ensures |q| == |p|
    ensures forall i :: 0 <= i < |p| ==> q[i] == if p[i] == '\\' then '/' else p[i]
  {
    if p == [] then []
    else [if p[0] == '\\' then '/' else p[0]] + ReplaceBackslashes(p[1..])
  }

  /** `getRelativePath`: separators made `/`, then one leading `./` dropped. */
  function RelativePath(p: string): (rel: string)
    ensures '\\' !in rel
    ensures var q := ReplaceBackslashes(p); rel == q || q == "./" + rel
    ensures |p| >= 2 && p[0] == '.' && (p[1] == '/' || p[1] == '\\') ==> |rel| == |p| - 2
    ensures !(|p| >= 2 && p[0] == '.' && (p[1] == '/' || p[1] == '\\')) ==> |rel| == |p|
  {
    var q := ReplaceBackslashes(p);
    if "./" <= q then q[2..] else q
  }

  /** Only one leading `./` goes: `./././a` becomes `././a`. */
  lemma RelativePathStripsOnce()
    ensures RelativePath(".\\./a") == "./a"
  {
    var q := ReplaceBackslashes(".\\./a");
    assert q == "././a";
  }

  /** The hash of every working file, keyed by its relative path. */
  function WorkingHashes(working: map<string, string>, sha1: string -> string): map<string, string> {
    map p | p in working :: sha1(working[p])
  }

  /** The first loop of `handleStatus`: hashing every working file. */
  method HashWorkingTree(working: map<string, string>, sha1: string -> string) returns (workingFiles: map<string, string>)
    ensures workingFiles == WorkingHashes(working, sha1)
  {
    workingFiles := map[];
    var todo := working.Keys;
    while todo != {}
      invariant todo <= working.Keys
      invariant workingFiles == map p | p in working && p !in todo :: sha1(working[p])
      decreases todo
    {
      var path :| path in todo;
      workingFiles := workingFiles[path := sha1(working[path])];
      todo := todo - {path};
    }
  }

  /* ----------------------------------------------------- classification */

  datatype StatusReport = StatusReport(staged: set<string>, modified: set<string>, deleted: set<string>, untracked: set<string>)

  datatype StatusOutcome = NotARepository | Report(report: StatusReport)

  /**
    When an index path counts as staged: off disk, when the head has it
    with another hash; on disk, when the head lacks it or has another hash.
   */
  predicate StagedPath(head: map<string, string>, idx: map<string, string>, wh: map<string, string>, p: string)
    requires p in idx
  {
    if p !in wh then p in head && head[p] != idx[p]
    else p !in head || head[p] != idx[p]
  }

  /** The four sets of `handleStatus`, given the head entries, the index and the working hashes. */
  function Classify(head: map<string, string>, idx: map<string, string>, wh: map<string, string>): StatusReport {
    StatusReport(
      set p | p in idx && StagedPath(head, idx, wh, p),
      set p | p in idx && p in wh && wh[p] != idx[p],
      (set p | p in idx && p !in wh) + (set p | p in head && p !in wh && p !in idx),
      set p | p in wh && p !in idx)
  }

  predicate Clean(rep: StatusReport) {
    rep.staged == {} && rep.modified == {} && rep.deleted == {} && rep.untracked == {}
  }

  /** The three loops of `handleStatus` over the index, the working files and the head entries. */
  method ClassifyPaths(head: map<string, string>, idx: map<string, string>, wh: map<string, string>) returns (rep: StatusReport)
    ensures rep == Classify(head, idx, wh)
  {
    var staged: set<string> := {};
    var modified: set<string> := {};
    var deleted: set<string> := {};
    var untracked: set<string> := {};
    var todo := idx.Keys;
    while todo != {}
      invariant todo <= idx.Keys
      invariant staged == set p | p in idx && p !in todo && StagedPath(head, idx, wh, p)
      invariant modified == set p | p in idx && p !in todo && p in wh && wh[p] != idx[p]
      invariant deleted == set p | p in idx && p !in todo && p !in wh
      decreases todo
    {
      var path :| path in todo;
      var indexHash := idx[path];
      if path !in wh {
        if path in head && head[path] != indexHash {
          staged := staged + {path};
        }
        deleted := deleted + {path};
      } else {
        if path !in head {
          staged := staged + {path};
        } else if head[path] != indexHash {
          staged := staged + {path};
        }
        if indexHash != wh[path] {
          modified := modified + {path};
        }
      }
      todo := todo - {path};
    }
    todo := wh.Keys;
    while todo != {}
      invariant todo <= wh.Keys
      invariant untracked == set p | p in wh && p !in todo && p !in idx
      decreases todo
    {
      var path :| path in todo;
      if path !in idx {
        untracked := untracked + {path};
      }
      todo := todo - {path};
    }
    todo := head.Keys;
    ghost var offDisk := deleted;
    while todo != {}
      invariant todo <= head.Keys
      invariant deleted == offDisk + set p | p in head && p !in todo && p !in wh && p !in idx
      decreases todo
    {
      var path :| path in todo;
      if path !in wh && path !in idx {
        deleted := deleted + {path};
      }
      todo := todo - {path};
    }
    rep := StatusReport(staged, modified, deleted, untracked);
  }

  /** `handleStatus` as a function of the state; `sha1` hashes working files. */
  function StatusOf(s: RepoState, sha1: string -> string): StatusOutcome {
    if !s.initialized then NotARepository
    else Report(Classify(HeadFiles(s), ToMap(s.index), WorkingHashes(s.working, sha1)))
  }

  /** `handleStatus`. */
  method HandleStatus(r: Repository, sha1: string -> string) returns (out: StatusOutcome)
    ensures out == StatusOf(r.State(), sha1)
  {
    if !r.initialized {
      return NotARepository;
    }
    var headFiles := GetHeadFiles(r);
    var indexFiles := ToMap(r.index);
    var workingFiles := HashWorkingTree(r.working, sha1);
    var report := ClassifyPaths(headFiles, indexFiles, workingFiles);
    out := Report(report);
  }

  /**
    Where the sets lie: modified paths are tracked and on disk, untracked
    paths are neither staged nor modified nor deleted, deleted paths are off
    disk, and staged paths are in the index.
   */
  lemma ClassifyShape(head: map<string, string>, idx: map<string, string>, wh: map<string, string>)
    ensures var rep := Classify(head, idx, wh);
      && rep.staged <= idx.Keys
      && rep.modified <= idx.Keys * wh.Keys
      && rep.untracked == wh.Keys - idx.Keys
      && rep.untracked * (rep.staged + rep.modified + rep.deleted) == {}
      && rep.deleted * wh.Keys == {}
      && rep.deleted == (idx.Keys + head.Keys) - wh.Keys
  {
    var rep := Classify(head, idx, wh);
    assert rep.untracked * (rep.staged + rep.modified + rep.deleted) == {} by {
      forall p | p in rep.untracked ensures p !in rep.staged + rep.modified + rep.deleted { }
    }
  }

  /** The tree is reported clean exactly when the working hashes and the head entries both equal the index. */
  lemma CleanIff(head: map<string, string>, idx: map<string, string>, wh: map<string, string>)
    ensures Clean(Classify(head, idx, wh)) <==> wh == idx && head == idx
  {
    var rep := Classify(head, idx, wh);
    if Clean(rep) {
      assert wh.Keys == idx.Keys by {
        forall p | p in wh ensures p in idx {
          assert p !in rep.untracked;
        }
        forall p | p in idx ensures p in wh {
          assert p !in rep.deleted;
        }
      }
      forall p | p in idx ensures p in wh && wh[p] == idx[p] && p in head && head[p] == idx[p] {
        assert p !in rep.modified && p !in rep.staged;
      }
      forall p | p in head ensures p in idx {
        assert p !in rep.deleted;
      }
    }
  }

  /**
    Right after a commit of the whole index, nothing is staged; and when the
    working files hash to the index, the tree is clean.
   */
  lemma NothingStagedAfterCommit(s: RepoState, t: RepoState, id: string, parent: Option<string>, date: string, message: string, sha1: string -> string)
    requires Serialisable(parent, date, message, s.index)
    requires forall i :: 0 <= i < |s.index| ==> IsTrimmed(s.index[i].hash)
    requires HeadCommitId(t) == Some(id) && id in t.commits && t.commits[id] == CommitText(parent, date, message, s.index)
    requires t.initialized && t.index == s.index
    ensures StatusOf(t, sha1).report.staged == {}
    ensures WorkingHashes(t.working, sha1) == ToMap(t.index) ==> Clean(StatusOf(t, sha1).report)
  {
    HeadFilesAfterCommit(s, t, id, parent, date, message);
    var idx := ToMap(t.index);
    var rep := StatusOf(t, sha1).report;
    forall p | p in idx ensures !StagedPath(idx, idx, WorkingHashes(t.working, sha1), p) { }
    assert rep.staged == {};
    if WorkingHashes(t.working, sha1) == idx {
      CleanIff(idx, idx, idx);
    }
  }
}
