# sit, modelled in Dafny

sit is a small version-control engine. A repository is a `.sit` directory that holds:

- blobs under `.sit/objects`;
- commit records under `.sit/commits`, each a plain-text header (`parent:`, `author:`, `date:`, `message:`), then a blank line, then one `path:hash` line per file;
- branch refs under `.sit/refs/heads`;
- a `HEAD` file that is either attached (`ref: refs/heads/<name>`) or detached (a bare commit id);
- an index (the staging area).

The working tree is the directory around `.sit`.

This project models the core of sit: the repository store and the command services (init, commit, branch, log, status, diff, checkout, merge). The whole on-disk store is one value, `Store.RepoState`: `initialized`, `objects`, `commits`, `refs` (ref files keyed by their path below `.sit`), `head` (the content of the `HEAD` file, if present), `index` and `working`. The mutable counterpart is the class `Store.Repository`, whose fields are the same seven components.

Each service is written as a `method` that follows the loops and branches of its Java source. Its `ensures` ties its outcome and the new state to a specification function over `RepoState`: `Commits.Commit`, `Branches.BranchCreation`, `History.LogOf`, `Status.StatusOf`, `Diff.DiffOf`, `Checkout.CheckedOut` and `Merge.MergeOf`. The lemmas then prove the properties sit promises about those functions:

- round trips of the commit text format;
- the refusals that change nothing;
- the frame of each operation;
- the classification rules of `status`;
- that the diff aligns both files and keeps a longest common subsequence, with the source's exact tie-break;
- that the merge search answers reachability over parent edges.

Modules follow the source:

| module | file | source |
|---|---|---|
| `Text` | text.dfy | Java string operations used by the services: `trim`, `lastIndexOf`, `readAllLines` |
| `CommitFormat` | commit_format.dfy | the commit text written by CommitService and read by Log, Status, Checkout and Merge |
| `Store` | store.dfy | SitRepository |
| `RepositoryInit` | init.dfy | RepositoryInitService |
| `Commits` | commit.dfy | CommitService |
| `Branches` | branch.dfy | BranchService |
| `History` | log.dfy | LogService |
| `Status` | status.dfy | StatusService |
| `Diff` | diff.dfy | DiffService |
| `Worktree` | worktree.dfy | the file restoring shared by CheckoutService and MergeService |
| `Checkout` | checkout.dfy | CheckoutService |
| `Merge` | merge.dfy | MergeService |

Some behaviours of the code that the model keeps as they are:

- A missing commit record stops `log`; it does not skip it and go on (LogService.java:37-40).
- `merge` rejects a HEAD that is not on `refs/heads/` before it compares the two commit ids (MergeService.java:40-47).
- A working file missing from disk gets only a deletion header in `diff`, not a whole-file removal (DiffService.java:42-48).
- The index written by `checkout` is built in a `HashMap`, so its order is not fixed (CheckoutService.java:52, 74-79).
- In `status`, an index entry whose file is missing from disk is staged only when HEAD has a hash for its path and that hash differs from the index hash (StatusService.java:63-69).

## Model

| member | source | states |
|---|---|---|
| CommitFormat.SplitEntry | src/main/java/com/abhishek/sit/service/StatusService.java:140-145 | an entry line is split at its LAST colon: none iff the line has no colon, the line is path + ":" + rest, no colon follows the split, and the hash is the trimmed rest when trimming is asked for |
| CommitFormat.SplitEntryLine | src/main/java/com/abhishek/sit/service/CommitService.java:61 | a written `path:hash` line splits back into that entry when the hash has no colon (and is already trimmed, for the trimming readers) |
| CommitFormat.BodyEntriesOfEntryLines | src/main/java/com/abhishek/sit/service/StatusService.java:132-147 | reading written entry lines after the blank line gives back the written entries, in order |
| CommitFormat.EntriesRoundTrip | src/main/java/com/abhishek/sit/service/CommitService.java:43-62 | the entries read back from a whole commit text (skipping the header up to the first blank line) are exactly the index entries written, in index order |
| CommitFormat.ReadCommitLines | src/main/java/com/abhishek/sit/service/LogService.java:42 | reading the lines of a written commit record gives back exactly the lines that were written |
| CommitFormat.HeaderRoundTrip | src/main/java/com/abhishek/sit/service/LogService.java:48-59 | the header read back from a commit text has the written parent (present iff there was a head commit), the fixed author, the date and the message |
| CommitFormat.ParentsRoundTrip | src/main/java/com/abhishek/sit/service/MergeService.java:114-129 | the parent list read back from a commit text is the written parent, trimmed, or empty for a root commit |
| CommitFormat.PutAllKeys | src/main/java/com/abhishek/sit/service/CheckoutService.java:52-76 | putting entries into a map one by one: the keys are the old keys plus every entry path, and a key no entry names keeps its value |
| CommitFormat.PutAllUnique | src/main/java/com/abhishek/sit/service/CheckoutService.java:75 | with one entry per path, each entry's hash is what the map holds for its path |
| Store.AttachedHead | src/main/java/com/abhishek/sit/repository/SitRepository.java:30-36 | an attached HEAD `ref: <ref>` followed by white space names `<ref>` |
| Store.DetachedHead | src/main/java/com/abhishek/sit/repository/SitRepository.java:37-49 | a detached HEAD names the raw id, and a head commit exists only if a ref file of that name exists |
| Store.AdvanceThenRead | src/main/java/com/abhishek/sit/repository/SitRepository.java:40-59 | on a branch under `refs/`, advancing the head and reading it back gives the new id (for an id without surrounding white space) |
| Store.AdvanceHeadFrame | src/main/java/com/abhishek/sit/repository/SitRepository.java:52-59 | advancing the head changes only `refs`: every other ref keeps its value, no key other than the current branch is added, the current `refs/` branch then holds the new id, and nothing changes at all when HEAD does not name a `refs/` path |
| Store.Repository.constructor | src/main/java/com/abhishek/sit/repository/SitRepository.java:18-20 | a directory without `.sit`: not initialized, empty stores, the given working tree |
| Store.Repository.SaveObject | src/main/java/com/abhishek/sit/repository/SitRepository.java:22-24 | overwrites exactly the blob keyed by the hash; nothing else changes |
| Store.Repository.SaveCommit | src/main/java/com/abhishek/sit/repository/SitRepository.java:26-28 | overwrites exactly the commit record keyed by the hash; nothing else changes |
| Store.Repository.UpdateHead | src/main/java/com/abhishek/sit/repository/SitRepository.java:52-59 | the new state is the head advanced on the current `refs/` branch, else unchanged |
| RepositoryInit.Init | src/main/java/com/abhishek/sit/service/RepositoryInitService.java:15-40 | reports reinitialisation iff `.sit` existed and then changes nothing; otherwise creates the initial state |
| RepositoryInit.FreshInit | src/main/java/com/abhishek/sit/service/RepositoryInitService.java:24-31 | a fresh init attaches HEAD to `refs/heads/main`, which has no commit, leaves objects, commits, refs and index empty and the working tree as it was |
| RepositoryInit.InitIsIdempotent | src/main/java/com/abhishek/sit/service/RepositoryInitService.java:16-20 | a second init is a no-op |
| Commits.BuildCommitText | src/main/java/com/abhishek/sit/service/CommitService.java:43-62 | the builder produces the commit text: optional parent line, author, date, message, blank line, one `path:hash` line per index entry in order |
| Commits.HandleCommit | src/main/java/com/abhishek/sit/service/CommitService.java:26-78 | outcome and new state are the commit specification: not a repository, nothing to commit for an empty index, else the record stored under the hash of its text and the branch advanced |
| Commits.CommitRecordsIndex | src/main/java/com/abhishek/sit/service/CommitService.java:42-67 | the stored record hashes to its id, names the previous head commit as parent and reads back as the index |
| Commits.CommitFrame | src/main/java/com/abhishek/sit/service/CommitService.java:36-70 | objects, index, working tree and HEAD never change; a commit happens iff the repository exists and the index is non-empty; otherwise nothing changes; the commit store gains exactly the new record and keeps every other one; every ref but the current branch keeps its value and no other ref appears; on a branch the head commit becomes the new id |
| Branches.AttachedBranchName | src/main/java/com/abhishek/sit/service/BranchService.java:41-45 | the current branch name of `ref: refs/heads/<name>` (plus white space) is `<name>` |
| Branches.DetachedBranchName | src/main/java/com/abhishek/sit/service/BranchService.java:41-45 | without the `ref: refs/heads/` prefix the current branch name is empty |
| Branches.ListBranches | src/main/java/com/abhishek/sit/service/BranchService.java:37-68 | every branch listed once, marked current exactly when its name equals the current branch name; errors without a repository or HEAD |
| Branches.CreateBranch | src/main/java/com/abhishek/sit/service/BranchService.java:70-90 | outcome and new state are the creation specification |
| Branches.CreateRefusals | src/main/java/com/abhishek/sit/service/BranchService.java:72-82 | an existing branch is refused before the head commit is looked at; every refusal leaves the state unchanged |
| Branches.CreateAddsOneBranch | src/main/java/com/abhishek/sit/service/BranchService.java:78-85 | a created branch holds the head commit id; it is the only ref that changes; HEAD and the head commit stay; the listing gains exactly the new name |
| Branches.BranchNamesInsert | src/main/java/com/abhishek/sit/service/BranchService.java:54-62 | writing a new ref under `refs/heads/` adds exactly its name to the listing |
| History.ReadCommitHeader | src/main/java/com/abhishek/sit/service/LogService.java:48-59 | the header loop computes the header reading: each field line overwrites its field, a blank line ends the header |
| History.LastParentWins | src/main/java/com/abhishek/sit/service/LogService.java:48-59 | for every line list, the parent read is the untrimmed remainder of the last `parent: ` line before the first empty line, and none exactly when no line before it starts with `parent: ` |
| History.ReadHeaderIsLastFields | src/main/java/com/abhishek/sit/service/LogService.java:48-59 | each header field ends as the remainder of the last line before the first empty line that starts with its prefix, keeping its earlier value when there is none |
| History.ReadParent | src/main/java/com/abhishek/sit/service/LogService.java:48-50 | the parent read is the remainder of the last `parent: ` line before the first empty line, or the earlier value when there is none |
| History.ReadAuthor | src/main/java/com/abhishek/sit/service/LogService.java:48-52 | the author read is the remainder of the last `author: ` line before the first empty line, or the earlier value when there is none |
| History.ReadDate | src/main/java/com/abhishek/sit/service/LogService.java:48-54 | the date read is the remainder of the last `date: ` line before the first empty line, or the earlier value when there is none |
| History.ReadMessage | src/main/java/com/abhishek/sit/service/LogService.java:48-56 | the message read is the remainder of the last `message: ` line before the first empty line, or the earlier value when there is none |
| History.HeaderIgnoresBody | src/main/java/com/abhishek/sit/service/LogService.java:48-59 | lines after the first empty line never change the header |
| History.LastParentExample | src/main/java/com/abhishek/sit/service/LogService.java:48-59 | an illustration: of two `parent:` lines the later wins with its trailing space, and a `parent:` line after the blank line is ignored |
| History.WalkStep | src/main/java/com/abhishek/sit/service/LogService.java:36-72 | one step of the walk: a stored commit is shown and the walk goes on at its parent, or stops at a root |
| History.WalkFrom | src/main/java/com/abhishek/sit/service/LogService.java:35-73 | the walk loop shows exactly the specified history |
| History.HandleLog | src/main/java/com/abhishek/sit/service/LogService.java:22-78 | not a repository; no commits yet without a head commit; else the walk from the head commit |
| History.WalkFollowsParents | src/main/java/com/abhishek/sit/service/LogService.java:35-72 | the walk shows stored commits starting at the head, each followed by its parent, with its header fields, ending at a root or at the first missing record |
| History.WalkBoundIrrelevant | src/main/java/com/abhishek/sit/service/LogService.java:35-73 | the history shown does not depend on the length bound chosen |
| History.SelfParentNeverEnds | src/main/java/com/abhishek/sit/service/LogService.java:35-73 | a commit naming itself as parent has no bounded history (the walk would not end) |
| History.WalkUnaffected | src/main/java/com/abhishek/sit/service/LogService.java:36-40 | storing a record under an id the walk never meets leaves the walk unchanged |
| History.LogAfterCommit | src/main/java/com/abhishek/sit/service/LogService.java:29-72 | after a commit on a branch, the log shows the new commit (author, date, message) followed by the previous history |
| History.Oneline | src/main/java/com/abhishek/sit/service/LogService.java:61-62 | the one-line form is the first seven characters of the id, a space, the message |
| Status.GetHeadFiles | src/main/java/com/abhishek/sit/service/StatusService.java:108-149 | the head entries: empty without head commit or record, else the entries after the first blank line split at the last colon with the hash trimmed |
| Status.HeadFilesAfterCommit | src/main/java/com/abhishek/sit/service/StatusService.java:132-147 | right after a commit the head entries are the committed index (for trimmed hashes) |
| Status.ReplaceBackslashes | src/main/java/com/abhishek/sit/service/StatusService.java:152 | every `\` becomes `/` and nothing else changes |
| Status.RelativePath | src/main/java/com/abhishek/sit/service/StatusService.java:151-157 | no `\` remains, and one leading `./` (or `.\`) is dropped |
| Status.RelativePathStripsOnce | src/main/java/com/abhishek/sit/service/StatusService.java:153-155 | only one leading `./` is dropped |
| Status.HashWorkingTree | src/main/java/com/abhishek/sit/service/StatusService.java:48-54 | every working file's hash, keyed by its path |
| Status.ClassifyPaths | src/main/java/com/abhishek/sit/service/StatusService.java:42-99 | the three loops compute the four sets of the classification |
| Status.HandleStatus | src/main/java/com/abhishek/sit/service/StatusService.java:25-106 | not a repository, or the classification of head entries, index and working hashes |
| Status.ClassifyShape | src/main/java/com/abhishek/sit/service/StatusService.java:56-99 | staged paths are in the index; modified paths are in index and working tree; untracked is exactly working minus index and disjoint from the other sets; deleted is exactly index plus head minus working |
| Status.CleanIff | src/main/java/com/abhishek/sit/service/StatusService.java:162-165 | clean iff the working hashes and the head entries both equal the index |
| Status.NothingStagedAfterCommit | src/main/java/com/abhishek/sit/service/StatusService.java:72-78 | right after a commit nothing is staged, and the tree is clean when the working files hash to the index |
| Diff.DpSteps | src/main/java/com/abhishek/sit/service/DiffService.java:80-88 | one more line raises a table entry by zero or one, and `dp[i][j] <= min(i, j)` |
| Diff.CommonSubseqBound | src/main/java/com/abhishek/sit/service/DiffService.java:77-88 | no common subsequence of the prefixes is longer than `dp[i][j]` |
| Diff.LcsTable | src/main/java/com/abhishek/sit/service/DiffService.java:77-88 | the filled array holds the recurrence at every cell |
| Diff.Changes | src/main/java/com/abhishek/sit/service/DiffService.java:94-106 | only additions and removals are printed |
| Diff.AlignmentParts | src/main/java/com/abhishek/sit/service/DiffService.java:94-106 | an alignment splits its source into kept and removed lines and its target into kept and added lines, each an in-order subsequence |
| Diff.BacktrackAligns | src/main/java/com/abhishek/sit/service/DiffService.java:94-106 | the backtrack aligns `original[..i]` with `revised[..j]` and keeps exactly `dp[i][j]` lines |
| Diff.DiffIsMinimal | src/main/java/com/abhishek/sit/service/DiffService.java:90-105 | applying the script to the original gives the revised; the removals (`n - dp[n][m]`) and the additions (`m - dp[n][m]`) are in-order subsequences; the kept lines form a longest common subsequence |
| Diff.ChangesParts | src/main/java/com/abhishek/sit/service/DiffService.java:94-106 | the printed lines remove exactly the alignment's removed lines and add exactly its added lines, in order, and keep nothing |
| Diff.PrintedDiffIsMinimal | src/main/java/com/abhishek/sit/service/DiffService.java:90-106 | the printed removals are the original lines not in a longest common subsequence, in order, and the printed additions the revised lines not in it; no common subsequence is longer |
| Diff.ReplaceMiddleLine | src/main/java/com/abhishek/sit/service/DiffService.java:99-105 | `[a,b,c]` against `[a,x,c]` prints exactly `- b` then `+ x` |
| Diff.EmptyOriginal | src/main/java/com/abhishek/sit/service/DiffService.java:60-64 | against an empty original (a missing staged blob) every revised line is an addition, in order |
| Diff.EmptyRevised | src/main/java/com/abhishek/sit/service/DiffService.java:102-104 | against an empty revision every original line is a removal, in order |
| Diff.IdenticalPrintsNothing | src/main/java/com/abhishek/sit/service/DiffService.java:95-96 | identical line sequences print nothing |
| Diff.PrintDiffBacktrack | src/main/java/com/abhishek/sit/service/DiffService.java:94-106 | the recursive backtrack over the filled table prints the specified changes, with the exact tie-break |
| Diff.KeepChanges | src/main/java/com/abhishek/sit/service/DiffService.java:95-98 | a matching line steps diagonally and prints nothing |
| Diff.AddChanges | src/main/java/com/abhishek/sit/service/DiffService.java:99-101 | when `dp[i][j-1] >= dp[i-1][j]` (or the original is used up) the step prints `+ line` after the earlier changes |
| Diff.RemoveChanges | src/main/java/com/abhishek/sit/service/DiffService.java:102-104 | otherwise the step prints `- line` after the earlier changes |
| Diff.PrintDiff | src/main/java/com/abhishek/sit/service/DiffService.java:75-92 | the table then the backtrack: the changes of the alignment |
| Diff.HandleDiff | src/main/java/com/abhishek/sit/service/DiffService.java:28-73 | one report per index entry, in index order, as the per-entry selection specifies |
| Diff.EntryDiffsReport | src/main/java/com/abhishek/sit/service/DiffService.java:37-69 | every report belongs to an entry whose file is missing or hashes differently: a deletion header exactly for a missing file, otherwise the printed line diff of its staged and working lines; every such entry gets a report; with one entry per path, an unchanged entry's path is in no report; all entries unchanged gives no report |
| Diff.EntryDiffsSound | src/main/java/com/abhishek/sit/service/DiffService.java:37-69 | each report is that of a changed entry: its path, a deletion exactly when the file is missing, else the line diff of its staged and working lines |
| Diff.EntryDiffsComplete | src/main/java/com/abhishek/sit/service/DiffService.java:37-69 | each entry whose file is missing or hashes differently gets a report naming its path |
| Worktree.RestoreFrame | src/main/java/com/abhishek/sit/service/CheckoutService.java:92-107 | a path no entry names keeps its file or its absence |
| Worktree.RestoreEntry | src/main/java/com/abhishek/sit/service/CheckoutService.java:92-107 | with one entry per path: an entry with a blob leaves its path holding the blob; an entry whose blob is missing leaves its path as it was |
| Worktree.RestoreKeepsFiles | src/main/java/com/abhishek/sit/service/CheckoutService.java:92-107 | restoring never deletes a file |
| Checkout.RestoreFile | src/main/java/com/abhishek/sit/service/CheckoutService.java:92-108 | writes the blob to the path when the blob exists, else changes nothing |
| Checkout.IndexEntries | src/main/java/com/abhishek/sit/service/CheckoutService.java:78-79 | the index written from the map has one entry per key and reads back as the map |
| Checkout.HandleCheckout | src/main/java/com/abhishek/sit/service/CheckoutService.java:27-90 | outcome and new state satisfy the checkout relation |
| Checkout.CheckoutRefusals | src/main/java/com/abhishek/sit/service/CheckoutService.java:34-49 | only a switch changes anything; it happens iff the repository, the branch and its commit record exist |
| Checkout.CheckoutSwitches | src/main/java/com/abhishek/sit/service/CheckoutService.java:51-83 | after a switch HEAD names the branch and the head commit is the branch's commit; refs, objects and commits are unchanged; every path the commit names is in the index, even with its blob missing |
| Checkout.CheckoutWorkingTree | src/main/java/com/abhishek/sit/service/CheckoutService.java:55-76 | paths the commit does not name are unchanged; with one entry per path, a path whose blob exists holds the blob |
| Checkout.CheckoutRestoresCommittedIndex | src/main/java/com/abhishek/sit/service/CheckoutService.java:51-79 | checking out a commit written from an index brings that index back as a map |
| Merge.GetParents | src/main/java/com/abhishek/sit/service/MergeService.java:114-129 | the trimmed `parent:` values before the first blank line; none for a missing record |
| Merge.ReachesSelf | src/main/java/com/abhishek/sit/service/MergeService.java:93-99 | every commit is its own ancestor |
| Merge.ReachesParent | src/main/java/com/abhishek/sit/service/MergeService.java:103-109 | an ancestor's parent is an ancestor |
| Merge.ChainStaysInside | src/main/java/com/abhishek/sit/service/MergeService.java:96-111 | a set holding the start and closed under parents holds every id reachable from it |
| Merge.EnqueueParents | src/main/java/com/abhishek/sit/service/MergeService.java:103-109 | every parent not yet visited is marked visited and queued; a step that visits nothing new leaves the queue as it was |
| Merge.SearchStep | src/main/java/com/abhishek/sit/service/MergeService.java:96-110 | expanding the head of the queue keeps the search invariant (everything visited is an ancestor, expanded ids have their parents visited, the target is not expanded) and shrinks the unvisited part or the queue |
| Merge.SearchEnd | src/main/java/com/abhishek/sit/service/MergeService.java:111 | an empty queue means the candidate is not reachable |
| Merge.IsAncestor | src/main/java/com/abhishek/sit/service/MergeService.java:89-112 | the search answers true iff the candidate is reachable from the commit along parent edges, and it ends on any parent graph, cycles included |
| Merge.RestoreWorkingTree | src/main/java/com/abhishek/sit/service/MergeService.java:132-159 | only the working tree changes: the commit's files with existing blobs are restored |
| Merge.HandleMerge | src/main/java/com/abhishek/sit/service/MergeService.java:23-87 | outcome and new state are the merge specification |
| Merge.MergeRefusals | src/main/java/com/abhishek/sit/service/MergeService.java:31-54 | every outcome other than a fast-forward leaves the state unchanged; equal ids are up to date |
| Merge.StoredIfReachesOther | src/main/java/com/abhishek/sit/service/MergeService.java:103-118 | a commit with an ancestor other than itself has a stored record |
| Merge.FastForwardEffect | src/main/java/com/abhishek/sit/service/MergeService.java:57-77 | a fast-forward moves only the current branch ref, to a stored descendant of the current commit; HEAD, index, objects and commits stay; the head commit becomes the target; the working tree is the target's files restored |
| Merge.FastForwardedState | src/main/java/com/abhishek/sit/service/MergeService.java:63-77 | the fast-forwarded state on its own: one ref moved, the working tree restored, everything else unchanged |
| Merge.FastForwardKeepsOtherFiles | src/main/java/com/abhishek/sit/service/MergeService.java:132-158 | files the target commit does not name are unchanged by a fast-forward |
| Merge.CommitDescendsFromHead | src/main/java/com/abhishek/sit/service/MergeService.java:124-125 | a new commit descends from the previous head commit through its `parent:` line |

## Left out

- `isInitialized` is the `initialized` field: whether `.sit` exists. There is no file system, so it has no member of its own.
- Blobs and working files are Java byte arrays; here they are strings. SHA-1 is the parameter `sha1`, and the date (`LocalDateTime.now()`) is the parameter `date`.
- `Files.readAllLines` also ends lines at `\r` and `\r\n`; here lines end at `\n` only.
- IndexService (`loadIndex`, `saveIndex`, `add`) and the directory scan are not part of this model. The index is given as a sequence of entries in its iteration order. The working tree is given as a map from relative path to content, and is taken to hold only the files the scan visits: nothing under `.sit`, `.git`, `build`, `gradle`, `target`, `.gradle` or `.idea`. The existence checks of `diff` and the writes of `checkout` and `merge` use the same map. `getRelativePath` is modelled, but the scanned file names it would be applied to are not.
- Ref files: every file below `.sit` that HEAD may name is in `refs`, keyed by its path. Nested branch names (`a/b`) and directories inside `refs/heads` are not modelled. The listing order of `refs/heads` is not modelled either, so the listing is a set.
- I/O failures (`IOException`), `mkdirs`, and a working path that is a directory are not modelled.
- Presentation is returned as data, not printed: console text, ANSI colours, the "new file"/"deleted" labels of `printStatus`, the full `log` form, and the banner of `commit` with its literal `main`.
- The banners of `commit` and `merge` take `substring(0, 7)` of commit ids. A shorter id would throw there. In `merge` the banner comes before the ref write, so in Java a short id aborts a fast-forward before anything changes, where the model goes on with it. This is not modelled because ids are SHA-1 digests.
- `handleBranch` only dispatches. `Branches.ListBranches` and `Branches.CreateBranch` each check for a repository themselves.
- History.HandleLog: requires a ghost bound on the length of the parent chain. On a parent cycle the Java loop never ends, and the model does not describe that run.
- History.Oneline: requires an id of at least seven characters, where the Java `substring` would throw.
- Merge.HandleMerge: requires a head commit whenever the code reads one. Without it the Java code dereferences `null`.
- Checkout.HandleCheckout: the new index is fixed only as a map. Its order, taken from a `HashMap`, is left open.
- Checkout.CheckoutWorkingTree: the final content of a path is stated only for commits with one entry per path. With duplicate paths, the last entry whose blob exists wins, and no contract states that.
- Commits.CommitRecordsIndex: the round trip is stated only for paths, hashes, date and message without line feeds, and hashes without colons. Otherwise the text format cannot be read back.
