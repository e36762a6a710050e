/**
  The commit record text and the three ways the services read it back.

  A commit record is a header (`parent: <id>` when there is a parent, then
  `author:`, `date:` and `message:`), one empty line, and one `path:hash`
  line per index entry. LogService reads the whole header, MergeService
  only the `parent:` lines, StatusService and CheckoutService only the
  entries after the first empty line, split at the last colon.
 */
module CommitFormat {
  import opened Wrappers
  import opened Text

  /** One index or commit entry: a repository-relative path and the hash of its blob. */
  datatype Entry = Entry(path: string, hash: string)

  /** The author line CommitService writes into every commit. */
  const Author: string := "User <user@example.com>"

  /** No two entries name the same path (the index is a map from path to hash). */
  predicate UniquePaths(es: seq<Entry>) {
    forall i, j :: 0 <= i < j < |es| ==> es[i].path != es[j].path
  }

  /** Putting the entries into a map one after the other; a later entry for a path wins. */
  function PutAll(m: map<string, string>, es: seq<Entry>): map<string, string>
    decreases |es|
  {
    if es == [] then m else PutAll(m[es[0].path := es[0].hash], es[1..])
  }

  function ToMap(es: seq<Entry>): map<string, string> {
    PutAll(map[], es)
  }

  /** The keys of the map are the old keys and the entries' paths; a key no entry names keeps its value. */
  lemma {:induction false} PutAllKeys(m: map<string, string>, es: seq<Entry>)
    ensures forall k :: k in PutAll(m, es) <==> k in m || exists i :: 0 <= i < |es| && es[i].path == k
    ensures forall k :: k in m && (forall i :: 0 <= i < |es| ==> es[i].path != k) ==> PutAll(m, es)[k] == m[k]
    decreases |es|
  {
    if es != [] {
      var m' := m[es[0].path := es[0].hash];
      assert PutAll(m, es) == PutAll(m', es[1..]);
      PutAllKeys(m', es[1..]);
      forall k | k in PutAll(m, es) ensures k in m || exists i :: 0 <= i < |es| && es[i].path == k {
        if k !in m && k != es[0].path {
          var i :| 0 <= i < |es| - 1 && es[1..][i].path == k;
          assert es[i + 1].path == k;
        }
      }
      forall k | k in m || exists i :: 0 <= i < |es| && es[i].path == k ensures k in PutAll(m, es) {
        if k !in m && k != es[0].path {
          var i :| 0 <= i < |es| && es[i].path == k;
          assert es[1..][i - 1].path == k;
        }
      }
    }
  }

  /** With unique paths, each entry's hash is what the map holds for its path. */
  lemma {:induction false} PutAllUnique(m: map<string, string>, es: seq<Entry>, i: nat)
    requires UniquePaths(es) && i < |es|
    ensures es[i].path in PutAll(m, es) && PutAll(m, es)[es[i].path] == es[i].hash
    decreases |es|
  {
    var m' := m[es[0].path := es[0].hash];
    if i == 0 {
      PutAllKeys(m', es[1..]);
    } else {
      PutAllUnique(m', es[1..], i - 1);
    }
  }

  /* ---------------------------------------------------------------- writing */

  function HeaderLines(parent: Option<string>, date: string, message: string): seq<string> {
    (match parent case Some(p) => ["parent: " + p] case None => [])
    + ["author: " + Author, "date: " + date, "message: " + message]
  }

  function EntryLine(e: Entry): string {
    e.path + ":" + e.hash
  }

  function EntryLines(es: seq<Entry>): seq<string> {
    seq(|es|, k requires 0 <= k < |es| => EntryLine(es[k]))
  }

  /** The lines of a commit record: header, one empty line, then the entries in order. */
  function CommitLines(parent: Option<string>, date: string, message: string, es: seq<Entry>): seq<string> {
    HeaderLines(parent, date, message) + [""] + EntryLines(es)
  }

  function CommitText(parent: Option<string>, date: string, message: string, es: seq<Entry>): string {
    Unlines(CommitLines(parent, date, message, es))
  }

  /**
    The conditions under which the text format can be read back: no field
    holds a line feed, and no hash holds a colon (paths may hold colons,
    which is why readers split at the last one).
   */
  predicate Serialisable(parent: Option<string>, date: string, message: string, es: seq<Entry>) {
    && (parent.Some? ==> '\n' !in parent.value)
    && '\n' !in date && '\n' !in message
    && forall i :: 0 <= i < |es| ==> '\n' !in es[i].path && '\n' !in es[i].hash && ':' !in es[i].hash
  }

  lemma CommitLinesHaveNoNewline(parent: Option<string>, date: string, message: string, es: seq<Entry>)
    requires Serialisable(parent, date, message, es)
    ensures forall i :: 0 <= i < |CommitLines(parent, date, message, es)| ==> '\n' !in CommitLines(parent, date, message, es)[i]
  {
    var ls := CommitLines(parent, date, message, es);
    var h := HeaderLines(parent, date, message);
    forall i | 0 <= i < |ls| ensures '\n' !in ls[i] {
      if i > |h| {
        var e := es[i - |h| - 1];
        assert ls[i] == e.path + ":" + e.hash;
      } else if i < |h| && parent.Some? && i == 0 {
        assert ls[i] == "parent: " + parent.value;
      }
    }
  }

  /** The lines after the optional parent line: author, date, message, the empty line and the entries. */
  function FieldLines(date: string, message: string, es: seq<Entry>): seq<string> {
    ["author: " + Author, "date: " + date, "message: " + message, ""] + EntryLines(es)
  }

  lemma CommitLinesShape(parent: Option<string>, date: string, message: string, es: seq<Entry>)
    ensures parent.None? ==> CommitLines(parent, date, message, es) == FieldLines(date, message, es)
    ensures parent.Some? ==>
      var ls := CommitLines(parent, date, message, es);
      ls[0] == "parent: " + parent.value && ls[1..] == FieldLines(date, message, es)
  {
  }

  /** Reading the lines of a written commit gives back the lines that were written. */
  lemma ReadCommitLines(parent: Option<string>, date: string, message: string, es: seq<Entry>)
    requires Serialisable(parent, date, message, es)
    ensures Lines(CommitText(parent, date, message, es)) == CommitLines(parent, date, message, es)
  {
    CommitLinesHaveNoNewline(parent, date, message, es);
    LinesOfUnlines(CommitLines(parent, date, message, es));
  }

  /** A written parent line and what the readers take from it. */
  lemma ParentLine(p: string)
    ensures var l := "parent: " + p; l != [] && "parent: " <= l && l[8..] == p
  {
  }

  /* ------------------------------------------------- reading the header */

  /** What LogService keeps of a header: the last `parent:` line's remainder (untrimmed) and the other fields. */
  datatype Header = Header(parent: Option<string>, author: string, date: string, message: string)

  const NoHeader: Header := Header(None, "", "", "")

  /** LogService's scan of a commit's lines, starting from the values read so far and stopping at the first empty line. */
  function ReadHeader(lines: seq<string>, h: Header): Header {
    if lines == [] then h
    else
      var l := lines[0];
      if "parent: " <= l then ReadHeader(lines[1..], h.(parent := Some(l[8..])))
      else if "author: " <= l then ReadHeader(lines[1..], h.(author := l[8..]))
      else if "date: " <= l then ReadHeader(lines[1..], h.(date := l[6..]))
      else if "message: " <= l then ReadHeader(lines[1..], h.(message := l[9..]))
      else if l == [] then h
      else ReadHeader(lines[1..], h)
  }

  function ParseHeader(lines: seq<string>): Header {
    ReadHeader(lines, NoHeader)
  }

  /** The three fixed header lines, as plain facts about their prefixes. */
  lemma FieldLinePrefixes(date: string, message: string)
    ensures var la := "author: " + Author;
      la != [] && !("parent: " <= la) && "author: " <= la && la[8..] == Author
    ensures var ld := "date: " + date;
      ld != [] && !("parent: " <= ld) && !("author: " <= ld) && "date: " <= ld && ld[6..] == date
    ensures var lm := "message: " + message;
      && lm != [] && !("parent: " <= lm) && !("author: " <= lm) && !("date: " <= lm)
      && "message: " <= lm && lm[9..] == message
  {
    var la := "author: " + Author;
    assert la[0] == 'a';
    var ld := "date: " + date;
    assert ld[0] == 'd';
    var lm := "message: " + message;
    assert lm[0] == 'm';
  }

  lemma ReadHeaderFields(h: Header, date: string, message: string, tail: seq<string>)
    ensures ReadHeader(["author: " + Author, "date: " + date, "message: " + message, ""] + tail, h)
         == h.(author := Author, date := date, message := message)
  {
    FieldLinePrefixes(date, message);
    var ls := ["author: " + Author, "date: " + date, "message: " + message, ""] + tail;
    var h1 := h.(author := Author);
    var h2 := h1.(date := date);
    var h3 := h2.(message := message);
    assert ls[1..] == ["date: " + date, "message: " + message, ""] + tail;
    assert ReadHeader(ls, h) == ReadHeader(ls[1..], h1);
    assert ls[1..][1..] == ["message: " + message, ""] + tail;
    assert ReadHeader(ls[1..], h1) == ReadHeader(ls[1..][1..], h2);
    assert ls[1..][1..][1..] == [""] + tail;
    assert ReadHeader(ls[1..][1..], h2) == ReadHeader(ls[1..][1..][1..], h3);
    assert ReadHeader(ls[1..][1..][1..], h3) == h3;
  }

  /** The header of a written commit reads back as the parent, author, date and message that went in. */
  lemma HeaderRoundTrip(parent: Option<string>, date: string, message: string, es: seq<Entry>)
    requires Serialisable(parent, date, message, es)
    ensures ParseHeader(Lines(CommitText(parent, date, message, es))) == Header(parent, Author, date, message)
  {
    ReadCommitLines(parent, date, message, es);
    CommitLinesShape(parent, date, message, es);
    var ls := CommitLines(parent, date, message, es);
    var h := Header(parent, "", "", "");
    ReadHeaderFields(h, date, message, EntryLines(es));
    if parent.Some? {
      ParentLine(parent.value);
      assert ReadHeader(ls, NoHeader) == ReadHeader(ls[1..], h);
    }
  }

  /* ------------------------------------------------ reading the parents */

  /** MergeService's `getParents`: every `parent:` line before the first empty line, remainder trimmed. */
  function ReadParents(lines: seq<string>): seq<string> {
    if lines == [] || lines[0] == [] then []
    else (if "parent: " <= lines[0] then [Trim(lines[0][8..])] else []) + ReadParents(lines[1..])
  }

  lemma ReadParentsFields(date: string, message: string, tail: seq<string>)
    ensures ReadParents(["author: " + Author, "date: " + date, "message: " + message, ""] + tail) == []
  {
    FieldLinePrefixes(date, message);
    var ls := ["author: " + Author, "date: " + date, "message: " + message, ""] + tail;
    assert ls[1..][1..][1..] == [""] + tail;
    assert ReadParents(ls[1..][1..][1..]) == [];
    assert ReadParents(ls[1..][1..]) == [];
    assert ReadParents(ls[1..]) == [];
  }

  /** A written commit has exactly its parent (trimmed) as parent list, and a root commit none. */
  lemma ParentsRoundTrip(parent: Option<string>, date: string, message: string, es: seq<Entry>)
    requires Serialisable(parent, date, message, es)
    ensures ReadParents(Lines(CommitText(parent, date, message, es)))
         == (match parent case Some(p) => [Trim(p)] case None => [])
  {
    ReadCommitLines(parent, date, message, es);
    CommitLinesShape(parent, date, message, es);
    ReadParentsFields(date, message, EntryLines(es));
    if parent.Some? {
      var ls := CommitLines(parent, date, message, es);
      ParentLine(parent.value);
      assert ReadParents(ls) == [Trim(parent.value)] + ReadParents(ls[1..]);
    }
  }

  /* ------------------------------------------------ reading the entries */

  /** Splitting an entry line at its last colon; `trimHash` trims the part after it (StatusService does, CheckoutService does not). */
  function SplitEntry(line: string, trimHash: bool): (e: Option<Entry>)
    ensures e.None? <==> ':' !in line
    ensures e.Some? ==> |e.value.path| < |line|
    ensures e.Some? ==> line == e.value.path + ":" + (if trimHash then line[|e.value.path| + 1..] else e.value.hash)
    ensures e.Some? && trimHash ==> e.value.hash == Trim(line[|e.value.path| + 1..])
    ensures e.Some? ==> ':' !in line[|e.value.path| + 1..]
  {
    match LastIndexOf(line, ':')
    case None => None
    case Some(k) =>
      assert line == line[..k] + ":" + line[k + 1..];
      Some(Entry(line[..k], if trimHash then Trim(line[k + 1..]) else line[k + 1..]))
  }

  lemma SplitEntryLine(e: Entry, trimHash: bool)
    requires ':' !in e.hash
    requires trimHash ==> IsTrimmed(e.hash)
    ensures SplitEntry(EntryLine(e), trimHash) == Some(e)
  {
    var line := EntryLine(e);
    assert line[|e.path|] == ':';
    assert line[|e.path| + 1..] == e.hash;
    assert line[..|e.path|] == e.path;
    assert LastIndexOf(line, ':') == Some(|e.path|) by {
      assert forall j :: |e.path| < j < |line| ==> line[j] == e.hash[j - |e.path| - 1];
    }
    if trimHash {
      TrimOfTrimmed(e.hash);
    }
  }

  /**
    The entries of a commit's lines: nothing counts until an empty line has
    been seen (`inBody`), empty lines are skipped, lines without a colon are
    skipped, and every other line is split at its last colon.
   */
  function BodyEntries(lines: seq<string>, inBody: bool, trimHash: bool): seq<Entry> {
    if lines == [] then []
    else if lines[0] == [] then BodyEntries(lines[1..], true, trimHash)
    else if !inBody then BodyEntries(lines[1..], false, trimHash)
    else (match SplitEntry(lines[0], trimHash) case Some(e) => [e] case None => [])
         + BodyEntries(lines[1..], true, trimHash)
  }

  lemma {:induction false} BodyEntriesOfEntryLines(es: seq<Entry>, trimHash: bool)
    requires forall i :: 0 <= i < |es| ==> ':' !in es[i].hash && (trimHash ==> IsTrimmed(es[i].hash))
    ensures BodyEntries(EntryLines(es), true, trimHash) == es
  {
    if es != [] {
      FirstEntryLine(es, trimHash);
      BodyEntriesOfEntryLines(es[1..], trimHash);
      assert [es[0]] + es[1..] == es;
    }
  }

  lemma FirstEntryLine(es: seq<Entry>, trimHash: bool)
    requires es != [] && ':' !in es[0].hash && (trimHash ==> IsTrimmed(es[0].hash))
    ensures BodyEntries(EntryLines(es), true, trimHash) == [es[0]] + BodyEntries(EntryLines(es[1..]), true, trimHash)
  {
    var ls := EntryLines(es);
    var e := es[0];
    assert ls[0] == EntryLine(e) && |EntryLine(e)| > 0;
    SplitEntryLine(e, trimHash);
    assert ls[1..] == EntryLines(es[1..]);
  }

  /**
    Round trip: reading the entries back from a written commit gives the
    index entries that were written, in order.
   */
  lemma EntriesRoundTrip(parent: Option<string>, date: string, message: string, es: seq<Entry>, trimHash: bool)
    requires Serialisable(parent, date, message, es)
    requires trimHash ==> forall i :: 0 <= i < |es| ==> IsTrimmed(es[i].hash)
    ensures BodyEntries(Lines(CommitText(parent, date, message, es)), false, trimHash) == es
  {
    ReadCommitLines(parent, date, message, es);
    CommitLinesShape(parent, date, message, es);
    SkipFields(date, message, es, trimHash);
    if parent.Some? {
      var ls := CommitLines(parent, date, message, es);
      ParentLine(parent.value);
      assert BodyEntries(ls, false, trimHash) == BodyEntries(ls[1..], false, trimHash);
    }
    BodyEntriesOfEntryLines(es, trimHash);
  }

  /** The entry readers skip the author, date and message lines and start at the empty line. */
  lemma SkipFields(date: string, message: string, es: seq<Entry>, trimHash: bool)
    ensures BodyEntries(FieldLines(date, message, es), false, trimHash) == BodyEntries(EntryLines(es), true, trimHash)
  {
    FieldLinePrefixes(date, message);
    var ls := FieldLines(date, message, es);
    assert ls[1..][1..][1..] == [""] + EntryLines(es);
    assert ([""] + EntryLines(es))[1..] == EntryLines(es);
    assert BodyEntries(ls[1..][1..][1..], false, trimHash) == BodyEntries(EntryLines(es), true, trimHash);
    assert BodyEntries(ls[1..][1..], false, trimHash) == BodyEntries(ls[1..][1..][1..], false, trimHash);
    assert BodyEntries(ls[1..], false, trimHash) == BodyEntries(ls[1..][1..], false, trimHash);
  }
}
