/**
  LogService: walking the history from the head commit along the `parent:`
  line of each commit record.
 */
module History {
  import opened Wrappers
  import opened Text
  import opened CommitFormat
  import opened Store
  import Commits

  /** What `handleLog` shows of one commit. */
  datatype LogEntry = LogEntry(id: string, author: string, date: string, message: string)

  /** The commits shown, newest first, and the id whose record was missing when the walk stopped at one. */
  datatype Walked = Walked(entries: seq<LogEntry>, missing: Option<string>)

  datatype LogOutcome = NotARepository | NoCommitsYet | Shown(walked: Walked)

  /** The parent a log reader sees: the last `parent:` value of the header, untrimmed. */
  function ParentOf(commits: map<string, string>, id: string): Option<string>
    requires id in commits
  {
    ParseHeader(Lines(commits[id])).parent
  }

  /**
    Following parents from `id` reaches a missing record or a commit without
    parent after at most `n` stored commits. Without such a bound the walk in
    `handleLog` does not end.
   */
  predicate EndsWithin(commits: map<string, string>, id: string, n: nat)
    decreases n
  {
    id !in commits ||
    (n > 0 && (ParentOf(commits, id).None? || EndsWithin(commits, ParentOf(commits, id).value, n - 1)))
  }

  /** The walk of `handleLog` from `id`. */
  function Walk(commits: map<string, string>, id: string, n: nat): Walked
    requires EndsWithin(commits, id, n)
    decreases n
  {
    if id !in commits then Walked([], Some(id))
    else
      var h := ParseHeader(Lines(commits[id]));
      var e := LogEntry(id, h.author, h.date, h.message);
      if h.parent.None? then Walked([e], None)
      else
        var rest := Walk(commits, h.parent.value, n - 1);
        Walked([e] + rest.entries, rest.missing)
  }

  /** `handleLog` as a function of the state, given a bound on the history's length. */
  function LogOf(s: RepoState, n: nat): LogOutcome
    requires s.initialized && HeadCommitId(s).Some? ==> EndsWithin(s.commits, HeadCommitId(s).value, n)
  {
    if !s.initialized then NotARepository
    else match HeadCommitId(s)
      case None => NoCommitsYet
      case Some(id) => Shown(Walk(s.commits, id, n))
  }

  /** The header loop of `handleLog`: each field line overwrites the field, a blank line ends the header. */
  method ReadCommitHeader(lines: seq<string>) returns (h: Header)
    ensures h == ParseHeader(lines)
  {
    h := NoHeader;
    var i := 0;
    while i < |lines|
      invariant 0 <= i <= |lines|
      invariant ReadHeader(lines[i..], h) == ParseHeader(lines)
    {
      var line := lines[i];
      assert lines[i..][1..] == lines[i + 1..];
      if "parent: " <= line {
        h := h.(parent := Some(line[8..]));
      } else if "author: " <= line {
        h := h.(author := line[8..]);
      } else if "date: " <= line {
        h := h.(date := line[6..]);
      } else if "message: " <= line {
        h := h.(message := line[9..]);
      } else if line == [] {
        break;
      }
      i := i + 1;
    }
  }

  /** `w` shown after `entries`. */
  function Append(entries: seq<LogEntry>, w: Walked): Walked {
    Walked(entries + w.entries, w.missing)
  }

  /** One step of the walk from a stored commit. */
  lemma WalkStep(commits: map<string, string>, id: string, n: nat, entries: seq<LogEntry>)
    requires EndsWithin(commits, id, n) && id in commits
    ensures var h := ParseHeader(Lines(commits[id]));
      var shown := entries + [LogEntry(id, h.author, h.date, h.message)];
      && (h.parent.None? ==> Append(entries, Walk(commits, id, n)) == Walked(shown, None))
      && (h.parent.Some? ==>
            (n > 0 && EndsWithin(commits, h.parent.value, n - 1)
             && Append(entries, Walk(commits, id, n)) == Append(shown, Walk(commits, h.parent.value, n - 1))))
  {
    var h := ParseHeader(Lines(commits[id]));
    var e := LogEntry(id, h.author, h.date, h.message);
    if h.parent.Some? {
      var rest := Walk(commits, h.parent.value, n - 1);
      assert entries + ([e] + rest.entries) == entries + [e] + rest.entries;
    }
  }

  /** The loop of `handleLog`: show the commit, move to its parent, stop at a root or a missing record. */
  method WalkFrom(commits: map<string, string>, start: string, ghost n: nat) returns (w: Walked)
    requires EndsWithin(commits, start, n)
    ensures w == Walk(commits, start, n)
  {
    var currentCommitId: Option<string> := Some(start);
    var entries: seq<LogEntry> := [];
    ghost var fuel := n;
    while currentCommitId.Some?
      invariant currentCommitId.Some? ==> EndsWithin(commits, currentCommitId.value, fuel)
      invariant currentCommitId.Some? ==> (Walk(commits, start, n) == Append(entries, Walk(commits, currentCommitId.value, fuel)))
      invariant currentCommitId.None? ==> Walk(commits, start, n) == Walked(entries, None)
      decreases if currentCommitId.Some? then fuel + 1 else 0
    {
      var id := currentCommitId.value;
      if id !in commits {
        assert entries + [] == entries;
        return Walked(entries, Some(id));
      }
      var h := ReadCommitHeader(Lines(commits[id]));
      WalkStep(commits, id, fuel, entries);
      entries := entries + [LogEntry(id, h.author, h.date, h.message)];
      if h.parent.Some? {
        fuel := fuel - 1;
      }
      currentCommitId := h.parent;
    }
    w := Walked(entries, None);
  }

  /** `handleLog`. `bound` is a ghost bound on the number of commits the walk visits. */
  method HandleLog(r: Repository, ghost bound: nat) returns (out: LogOutcome)
    requires r.initialized && HeadCommitId(r.State()).Some? ==> EndsWithin(r.commits, HeadCommitId(r.State()).value, bound)
    ensures out == LogOf(r.State(), bound)
  {
    if !r.initialized {
      return NotARepository;
    }
    var currentCommitId := HeadCommitId(r.State());
    if currentCommitId.None? {
      return NoCommitsYet;
    }
    var walked := WalkFrom(r.commits, currentCommitId.value, bound);
    out := Shown(walked);
  }

  /**
    The `--oneline` form of an entry: the first seven characters of the id, a
    space and the message. This is presentation only; its contract just names
    the three parts of the line.
   */
  function Oneline(e: LogEntry): (line: string)
    requires |e.id| >= 7
    ensures |line| == 8 + |e.message| && line[..7] == e.id[..7] && line[7] == ' ' && line[8..] == e.message
  {
    e.id[..7] + " " + e.message
  }

  /** The walk does not depend on the bound chosen. */
  lemma {:induction false} WalkBoundIrrelevant(commits: map<string, string>, id: string, n: nat, m: nat)
    requires EndsWithin(commits, id, n) && EndsWithin(commits, id, m)
    ensures Walk(commits, id, n) == Walk(commits, id, m)
    decreases n
  {
    if id in commits && ParentOf(commits, id).Some? {
      WalkBoundIrrelevant(commits, ParentOf(commits, id).value, n - 1, m - 1);
    }
  }

  /** A commit naming itself as parent has no bounded history: `handleLog` would not end on it. */
  lemma {:induction false} SelfParentNeverEnds(commits: map<string, string>, id: string, n: nat)
    requires id in commits && ParentOf(commits, id) == Some(id)
    ensures !EndsWithin(commits, id, n)
    decreases n
  {
    if n > 0 {
      SelfParentNeverEnds(commits, id, n - 1);
    }
  }

  /** `e` is what the log shows of a stored commit record. */
  predicate ShowsRecord(commits: map<string, string>, e: LogEntry) {
    e.id in commits &&
    var h := ParseHeader(Lines(commits[e.id]));
    e == LogEntry(e.id, h.author, h.date, h.message)
  }

  /**
    The walk shows stored commits, starting at `id`, each followed by its
    parent, with the fields of its header; it ends at a root or at the
    first missing record.
   */
  lemma {:induction false} WalkFollowsParents(commits: map<string, string>, id: string, n: nat)
    requires EndsWithin(commits, id, n)
    ensures var w := Walk(commits, id, n);
      && (w.entries == [] <==> id !in commits)
      && (w.entries != [] ==> w.entries[0].id == id)
      && (forall i :: 0 <= i < |w.entries| ==> ShowsRecord(commits, w.entries[i]))
      && (forall i :: 0 <= i < |w.entries| - 1 ==> ParentOf(commits, w.entries[i].id) == Some(w.entries[i + 1].id))
      && (w.missing.Some? ==> w.missing.value !in commits)
      && (w.entries != [] ==> ParentOf(commits, w.entries[|w.entries| - 1].id) == w.missing)
    decreases n
  {
    if id in commits && ParentOf(commits, id).Some? {
      var p := ParentOf(commits, id).value;
      WalkFollowsParents(commits, p, n - 1);
      var rest := Walk(commits, p, n - 1);
      if rest.entries == [] {
        assert rest.missing == Some(p);
      }
    }
  }

  /** Storing a record under an id the walk never meets leaves the walk as it was. */
  lemma {:induction false} WalkUnaffected(commits: map<string, string>, id: string, n: nat, k: string, v: string)
    requires EndsWithin(commits, id, n)
    requires k !in commits && Walk(commits, id, n).missing != Some(k)
    ensures EndsWithin(commits[k := v], id, n)
    ensures Walk(commits[k := v], id, n) == Walk(commits, id, n)
    decreases n
  {
    if id in commits && ParentOf(commits, id).Some? {
      assert ParentOf(commits[k := v], id) == ParentOf(commits, id);
      WalkUnaffected(commits, ParentOf(commits, id).value, n - 1, k, v);
    }
  }

  /**
    After a commit on a branch, the log shows the new commit (with its
    message and date) followed by the history shown before it.
   */
  lemma LogAfterCommit(s: RepoState, message: string, date: string, sha1: string -> string, n: nat)
    requires s.initialized && s.index != []
    requires CurrentBranch(s.head).Some? && "refs/" <= CurrentBranch(s.head).value
    requires Serialisable(HeadCommitId(s), date, message, s.index)
    requires IsTrimmed(sha1(CommitText(HeadCommitId(s), date, message, s.index)))
    requires sha1(CommitText(HeadCommitId(s), date, message, s.index)) !in s.commits
    requires HeadCommitId(s).Some? ==> EndsWithin(s.commits, HeadCommitId(s).value, n)
    requires HeadCommitId(s).Some? ==>
      (Walk(s.commits, HeadCommitId(s).value, n).missing != Some(sha1(CommitText(HeadCommitId(s), date, message, s.index))))
    ensures var (out, t) := Commits.Commit(s, message, date, sha1);
      && out.Committed?
      && HeadCommitId(t) == Some(out.id)
      && EndsWithin(t.commits, out.id, n + 1)
      && LogOf(t, n + 1) == Shown(
           if HeadCommitId(s).Some?
           then Walked([LogEntry(out.id, Author, date, message)] + LogOf(s, n).walked.entries, LogOf(s, n).walked.missing)
           else Walked([LogEntry(out.id, Author, date, message)], None))
  {
    var (out, t) := Commits.Commit(s, message, date, sha1);
    var text := CommitText(HeadCommitId(s), date, message, s.index);
    Commits.CommitFrame(s, message, date, sha1);
    Commits.CommitRecordsIndex(s, message, date, sha1);
    assert t.commits == s.commits[out.id := text];
    assert ParentOf(t.commits, out.id) == HeadCommitId(s);
    if HeadCommitId(s).Some? {
      WalkUnaffected(s.commits, HeadCommitId(s).value, n, out.id, text);
    }
  }

  /** The lines of a commit record before its first empty line. */
  function HeaderLines(ls: seq<string>): (r: seq<string>)
    ensures r <= ls
    ensures forall k :: 0 <= k < |r| ==> r[k] != []
    ensures |r| < |ls| ==> ls[|r|] == []
  {
    if ls == [] || ls[0] == [] then [] else [ls[0]] + HeaderLines(ls[1..])
  }

  /** The remainder of the last line of `ls` that starts with `prefix`, looking from the end. */
  function LastField(prefix: string, ls: seq<string>): Option<string> {
    if ls == [] then None
    else
      var l := ls[|ls| - 1];
      if prefix <= l then Some(l[|prefix|..]) else LastField(prefix, ls[..|ls| - 1])
  }

  /** There is no last field line exactly when no line starts with `prefix`. */
  lemma {:induction false} LastFieldNone(prefix: string, ls: seq<string>)
    ensures LastField(prefix, ls).None? <==> forall k :: 0 <= k < |ls| ==> !(prefix <= ls[k])
  {
    if ls != [] {
      LastFieldNone(prefix, ls[..|ls| - 1]);
    }
  }

  /** `value` when present, `otherwise` when not. */
  function GetOr(o: Option<string>, otherwise: string): string {
    if o.Some? then o.value else otherwise
  }

  /** The last field line of `[x] + r` is the last one of `r`, or `x` itself when `r` has none. */
  lemma {:induction false} LastFieldCons(prefix: string, x: string, r: seq<string>)
    ensures LastField(prefix, [x] + r) ==
      if LastField(prefix, r).Some? then LastField(prefix, r)
      else if prefix <= x then Some(x[|prefix|..]) else None
    decreases |r|
  {
    var xs := [x] + r;
    if r == [] {
      assert xs[..|xs| - 1] == [];
    } else {
      assert xs[|xs| - 1] == r[|r| - 1];
      assert xs[..|xs| - 1] == [x] + r[..|r| - 1];
      LastFieldCons(prefix, x, r[..|r| - 1]);
    }
  }

  /** What one non-empty header line does to the fields read so far. */
  function ReadLine(h: Header, l: string): Header {
    if "parent: " <= l then h.(parent := Some(l[8..]))
    else if "author: " <= l then h.(author := l[8..])
    else if "date: " <= l then h.(date := l[6..])
    else if "message: " <= l then h.(message := l[9..])
    else h
  }

  /** The reader consumes a non-empty first line and goes on with the rest. */
  lemma HeaderStep(ls: seq<string>, h: Header)
    requires ls != [] && ls[0] != []
    ensures ReadHeader(ls, h) == ReadHeader(ls[1..], ReadLine(h, ls[0]))
    ensures HeaderLines(ls) == [ls[0]] + HeaderLines(ls[1..])
  {
  }

  /** The parent read is that of the last `parent: ` line of the header, or `h`'s when there is none. */
  lemma {:induction false} ReadParent(ls: seq<string>, h: Header)
    ensures var last := LastField("parent: ", HeaderLines(ls));
      ReadHeader(ls, h).parent == if last.Some? then last else h.parent
  {
    if ls != [] && ls[0] != [] {
      HeaderStep(ls, h);
      ReadParent(ls[1..], ReadLine(h, ls[0]));
      LastFieldCons("parent: ", ls[0], HeaderLines(ls[1..]));
    }
  }

  /** The author read is that of the last `author: ` line of the header, or `h`'s when there is none. */
  lemma {:induction false} ReadAuthor(ls: seq<string>, h: Header)
    ensures ReadHeader(ls, h).author == GetOr(LastField("author: ", HeaderLines(ls)), h.author)
  {
    if ls != [] && ls[0] != [] {
      HeaderStep(ls, h);
      ReadAuthor(ls[1..], ReadLine(h, ls[0]));
      LastFieldCons("author: ", ls[0], HeaderLines(ls[1..]));
      FieldPrefixesDisjoint(ls[0]);
    }
  }

  /** The date read is that of the last `date: ` line of the header, or `h`'s when there is none. */
  lemma {:induction false} ReadDate(ls: seq<string>, h: Header)
    ensures ReadHeader(ls, h).date == GetOr(LastField("date: ", HeaderLines(ls)), h.date)
  {
    if ls != [] && ls[0] != [] {
      HeaderStep(ls, h);
      ReadDate(ls[1..], ReadLine(h, ls[0]));
      LastFieldCons("date: ", ls[0], HeaderLines(ls[1..]));
      FieldPrefixesDisjoint(ls[0]);
    }
  }

  /** The message read is that of the last `message: ` line of the header, or `h`'s when there is none. */
  lemma {:induction false} ReadMessage(ls: seq<string>, h: Header)
    ensures ReadHeader(ls, h).message == GetOr(LastField("message: ", HeaderLines(ls)), h.message)
  {
    if ls != [] && ls[0] != [] {
      HeaderStep(ls, h);
      ReadMessage(ls[1..], ReadLine(h, ls[0]));
      LastFieldCons("message: ", ls[0], HeaderLines(ls[1..]));
      FieldPrefixesDisjoint(ls[0]);
      assert ReadLine(h, ls[0]).message == if "message: " <= ls[0] then ls[0][9..] else h.message;
    }
  }

  /**
    The header reader started from `h` ends with, for each field, the
    remainder of the last line before the first empty line that starts with
    that field's prefix, and `h`'s value where there is no such line.
   */
  lemma ReadHeaderIsLastFields(ls: seq<string>, h: Header)
    ensures var hl := HeaderLines(ls);
      ReadHeader(ls, h) == Header(
        if LastField("parent: ", hl).Some? then LastField("parent: ", hl) else h.parent,
        GetOr(LastField("author: ", hl), h.author),
        GetOr(LastField("date: ", hl), h.date),
        GetOr(LastField("message: ", hl), h.message))
  {
    ReadParent(ls, h);
    ReadAuthor(ls, h);
    ReadDate(ls, h);
    ReadMessage(ls, h);
  }

  /** A line starts with at most one of the four field prefixes. */
  lemma FieldPrefixesDisjoint(l: string)
    ensures "parent: " <= l ==> !("author: " <= l) && !("date: " <= l) && !("message: " <= l)
    ensures "author: " <= l ==> !("date: " <= l) && !("message: " <= l)
    ensures "date: " <= l ==> !("message: " <= l)
  {
    if l != [] {
      assert "parent: " <= l ==> l[0] == 'p';
      assert "author: " <= l ==> l[0] == 'a';
      assert "date: " <= l ==> l[0] == 'd';
      assert "message: " <= l ==> l[0] == 'm';
    }
  }

  /**
    The parent the log reads is the untrimmed remainder of the last `parent: `
    line before the first empty line, and `None` when there is no such line.
   */
  lemma LastParentWins(ls: seq<string>)
    ensures ParseHeader(ls).parent == LastField("parent: ", HeaderLines(ls))
    ensures ParseHeader(ls).parent.None? <==> forall k :: 0 <= k < |HeaderLines(ls)| ==> !("parent: " <= HeaderLines(ls)[k])
  {
    ReadParent(ls, NoHeader);
    LastFieldNone("parent: ", HeaderLines(ls));
  }

  /** Lines after the first empty line never change the header. */
  lemma HeaderIgnoresBody(head: seq<string>, body: seq<string>)
    requires forall k :: 0 <= k < |head| ==> head[k] != []
    ensures ParseHeader(head + [""] + body) == ParseHeader(head)
  {
    HeaderLinesOfHead(head, body);
    ReadHeaderIsLastFields(head + [""] + body, NoHeader);
    ReadHeaderIsLastFields(head, NoHeader);
  }

  /** The header part of `head + [""] + body`, and of `head` alone, is `head`. */
  lemma {:induction false} HeaderLinesOfHead(head: seq<string>, body: seq<string>)
    requires forall k :: 0 <= k < |head| ==> head[k] != []
    ensures HeaderLines(head + [""] + body) == head
    ensures HeaderLines(head) == head
  {
    if head != [] {
      assert (head + [""] + body)[1..] == head[1..] + [""] + body;
      HeaderLinesOfHead(head[1..], body);
    } else {
      assert (head + [""] + body)[0] == "";
    }
  }

  /** An example: the last of two `parent:` lines wins with its trailing space, and a `parent:` line after the blank line is ignored. */
  lemma LastParentExample()
    ensures ParseHeader(["parent: a", "message: m", "parent: b ", "", "parent: c"]).parent == Some("b ")
  {
    var ls := ["parent: a", "message: m", "parent: b ", "", "parent: c"];
    var hl := ["parent: a", "message: m", "parent: b "];
    assert ls == hl + [""] + ["parent: c"];
    HeaderLinesOfHead(hl, ["parent: c"]);
    LastParentWins(ls);
    assert hl[2][..8] == "parent: " && hl[2][8..] == "b ";
  }
}
