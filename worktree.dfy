/**
  Restoring committed files into the working tree, shared by
  CheckoutService (`restoreFile`) and MergeService (`restoreWorkingTree`):
  each entry whose blob exists overwrites its path with the blob; an entry
  whose blob is missing is passed over.
 */
module Worktree {
  import opened Wrappers
  import opened CommitFormat

  /** One entry restored: the path gets the blob's content when the blob exists. */
  function RestoreOne(w: map<string, string>, e: Entry, objects: map<string, string>): map<string, string> {
    if e.hash in objects then w[e.path := objects[e.hash]] else w
  }

  /** The entries restored in order. */
  function Restore(w: map<string, string>, es: seq<Entry>, objects: map<string, string>): map<string, string>
    decreases |es|
  {
    if es == [] then w else Restore(RestoreOne(w, es[0], objects), es[1..], objects)
  }

  /** A path no entry names keeps its file (or its absence). */
  lemma {:induction false} RestoreFrame(w: map<string, string>, es: seq<Entry>, objects: map<string, string>, p: string)
    requires forall k :: 0 <= k < |es| ==> es[k].path != p
    ensures p in Restore(w, es, objects) <==> p in w
    ensures p in w ==> Restore(w, es, objects)[p] == w[p]
    decreases |es|
  {
    if es != [] {
      RestoreFrame(RestoreOne(w, es[0], objects), es[1..], objects, p);
    }
  }

  /**
    With one entry per path: an entry with a blob leaves its path holding the
    blob, and an entry without one leaves its path as it was.
   */
  lemma {:induction false} RestoreEntry(w: map<string, string>, es: seq<Entry>, objects: map<string, string>, k: nat)
    requires UniquePaths(es) && k < |es|
    ensures es[k].hash in objects ==>
      es[k].path in Restore(w, es, objects) && Restore(w, es, objects)[es[k].path] == objects[es[k].hash]
    ensures es[k].hash !in objects ==>
      (es[k].path in Restore(w, es, objects) <==> es[k].path in w)
      && (es[k].path in w ==> Restore(w, es, objects)[es[k].path] == w[es[k].path])
    decreases |es|
  {
    var w' := RestoreOne(w, es[0], objects);
    if k == 0 {
      RestoreFrame(w', es[1..], objects, es[0].path);
    } else {
      RestoreEntry(w', es[1..], objects, k - 1);
    }
  }

  /** Restoring only adds or overwrites files: nothing is deleted. */
  lemma {:induction false} RestoreKeepsFiles(w: map<string, string>, es: seq<Entry>, objects: map<string, string>)
    ensures w.Keys <= Restore(w, es, objects).Keys
    decreases |es|
  {
    if es != [] {
      RestoreKeepsFiles(RestoreOne(w, es[0], objects), es[1..], objects);
    }
  }
}
