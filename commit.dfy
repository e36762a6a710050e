/**
  CommitService: snapshotting the index into a commit record, storing it
  under the hash of its text and advancing the current branch.
 */
module Commits {
  import opened Wrappers
  import opened Text
  import opened CommitFormat
  import opened Store

  datatype CommitOutcome =
    | NotARepository
    | NothingToCommit
    | Committed(id: string, parent: Option<string>)

  /**
    `handleCommit` as a function of the state. `date` stands for the clock
    reading and `sha1` for the digest of the commit text.
   */
  function Commit(s: RepoState, message: string, date: string, sha1: string -> string): (CommitOutcome, RepoState) {
    if !s.initialized then (NotARepository, s)
    else if s.index == [] then (NothingToCommit, s)
    else
      var parent := HeadCommitId(s);
      var text := CommitText(parent, date, message, s.index);
      var id := sha1(text);
      (Committed(id, parent), AdvanceHead(s.(commits := s.commits[id := text]), id))
  }

  /** Appending one line and a line feed to the builder appends one line to the text. */
  lemma UnlinesSnoc(ls: seq<string>, l: string)
    ensures Unlines(ls + [l]) == Unlines(ls) + l + "\n"
  {
    UnlinesAppend(ls, [l]);
    assert [l][1..] == [];
  }

  /** The `StringBuilder` part of `handleCommit`: header, separator, then one `path:hash` line per entry. */
  method BuildCommitText(parentId: Option<string>, date: string, message: string, fileHashes: seq<Entry>)
    returns (content: string)
    ensures content == CommitText(parentId, date, message, fileHashes)
  {
    content := "";
    ghost var written: seq<string> := [];
    if parentId.Some? {
      var line := "parent: " + parentId.value;
      UnlinesSnoc(written, line);
      content, written := content + line + "\n", written + [line];
    }
    var author := "author: " + Author;
    UnlinesSnoc(written, author);
    content, written := content + author + "\n", written + [author];
    var dateLine := "date: " + date;
    UnlinesSnoc(written, dateLine);
    content, written := content + dateLine + "\n", written + [dateLine];
    var messageLine := "message: " + message;
    UnlinesSnoc(written, messageLine);
    content, written := content + messageLine + "\n", written + [messageLine];
    UnlinesSnoc(written, "");
    content, written := content + "" + "\n", written + [""];
    ghost var header := written;
    assert header == HeaderLines(parentId, date, message) + [""];
    assert header + EntryLines(fileHashes[..0]) == header;
    for i := 0 to |fileHashes|
      invariant content == Unlines(header + EntryLines(fileHashes[..i]))
    {
      var line := fileHashes[i].path + ":" + fileHashes[i].hash;
      assert header + EntryLines(fileHashes[..i + 1]) == header + EntryLines(fileHashes[..i]) + [line];
      UnlinesSnoc(header + EntryLines(fileHashes[..i]), line);
      content := content + line + "\n";
    }
    assert fileHashes[..|fileHashes|] == fileHashes;
  }

  /** `handleCommit`. */
  method HandleCommit(r: Repository, message: string, date: string, sha1: string -> string) returns (out: CommitOutcome)
    requires r.Valid()
    modifies r
    ensures r.Valid()
    ensures (out, r.State()) == Commit(old(r.State()), message, date, sha1)
  {
    if !r.initialized {
      return NotARepository;
    }
    var fileHashes := r.index;
    if fileHashes == [] {
      return NothingToCommit;
    }
    var parentId := HeadCommitId(r.State());
    var content := BuildCommitText(parentId, date, message, fileHashes);
    var commitHash := sha1(content);
    r.SaveCommit(commitHash, content);
    r.UpdateHead(commitHash);
    out := Committed(commitHash, parentId);
  }

  /**
    A commit stores, under the hash of its text, a record whose header names
    the previous head commit as parent and whose entries read back as the
    index, in index order.
   */
  lemma CommitRecordsIndex(s: RepoState, message: string, date: string, sha1: string -> string)
    requires s.initialized && s.index != []
    requires Serialisable(HeadCommitId(s), date, message, s.index)
    ensures var (out, t) := Commit(s, message, date, sha1);
      && out.Committed? && out.parent == HeadCommitId(s)
      && out.id in t.commits && sha1(t.commits[out.id]) == out.id
      && ParseHeader(Lines(t.commits[out.id])) == Header(HeadCommitId(s), Author, date, message)
      && BodyEntries(Lines(t.commits[out.id]), false, false) == s.index
  {
    HeaderRoundTrip(HeadCommitId(s), date, message, s.index);
    EntriesRoundTrip(HeadCommitId(s), date, message, s.index, false);
  }

  /**
    A commit touches only the commit store and the current branch ref:
    objects, index, working tree and HEAD stay, the only record written is
    the new one, every other ref keeps its value and no other ref appears,
    and on an attached branch the head commit becomes the new commit. An
    empty index changes nothing.
   */
  lemma CommitFrame(s: RepoState, message: string, date: string, sha1: string -> string)
    ensures var (out, t) := Commit(s, message, date, sha1);
      && t.objects == s.objects && t.index == s.index && t.working == s.working && t.head == s.head
      && (out.Committed? <==> s.initialized && s.index != [])
      && (!out.Committed? ==> t == s)
      && ((out.Committed? && CurrentBranch(s.head).Some? && "refs/" <= CurrentBranch(s.head).value && IsTrimmed(out.id))
            ==> HeadCommitId(t) == Some(out.id))
    ensures var (out, t) := Commit(s, message, date, sha1);
      out.Committed? ==> t.commits == s.commits[out.id := CommitText(HeadCommitId(s), date, message, s.index)]
    ensures var (out, t) := Commit(s, message, date, sha1);
      && (forall k :: k in s.refs && Some(k) != CurrentBranch(s.head) ==> k in t.refs && t.refs[k] == s.refs[k])
      && t.refs.Keys <= s.refs.Keys + (if CurrentBranch(s.head).Some? then {CurrentBranch(s.head).value} else {})
  {
    var (out, t) := Commit(s, message, date, sha1);
    if out.Committed? {
      AdvanceHeadFrame(s.(commits := s.commits[out.id := CommitText(HeadCommitId(s), date, message, s.index)]), out.id);
    }
    if out.Committed? && CurrentBranch(s.head).Some? && "refs/" <= CurrentBranch(s.head).value && IsTrimmed(out.id) {
      var text := CommitText(HeadCommitId(s), date, message, s.index);
      AdvanceThenRead(s.(commits := s.commits[out.id := text]), out.id);
    }
  }
}
