/**
  DiffService: the line diff of a staged blob against its working file, by
  a longest-common-subsequence table and a backtrack over it.
 */
module Diff {
  import opened Wrappers
  import opened Text
  import opened CommitFormat
  import opened Store

  /** One step of an alignment; only additions and removals are printed. */
  datatype Edit<T> = Keep(line: T) | Add(line: T) | Remove(line: T)

  /* ------------------------------------------------------------ the table */

  /** The recurrence the table is filled by: `dp[i][j]` for `original[..i]` and `revised[..j]`. */
  function Dp<T(==)>(a: seq<T>, b: seq<T>, i: nat, j: nat): nat
    requires i <= |a| && j <= |b|
    decreases i + j
  {
    if i == 0 || j == 0 then 0
    else if a[i - 1] == b[j - 1] then Dp(a, b, i - 1, j - 1) + 1
    else
      var up := Dp(a, b, i - 1, j);
      var left := Dp(a, b, i, j - 1);
      if up >= left then up else left
  }

  /** `c` occurs in `s` in order, not necessarily contiguously. */
  predicate IsSubseq<T(==)>(c: seq<T>, s: seq<T>)
    decreases |s|
  {
    c == [] ||
    (s != [] &&
     ((c[|c| - 1] == s[|s| - 1] && IsSubseq(c[..|c| - 1], s[..|s| - 1])) || IsSubseq(c, s[..|s| - 1])))
  }

  /** One more line on either side raises the table entry by zero or one. */
  lemma {:induction false} DpSteps<T>(a: seq<T>, b: seq<T>, i: nat, j: nat)
    requires i <= |a| && j <= |b|
    ensures i > 0 ==> Dp(a, b, i - 1, j) <= Dp(a, b, i, j) <= Dp(a, b, i - 1, j) + 1
    ensures j > 0 ==> Dp(a, b, i, j - 1) <= Dp(a, b, i, j) <= Dp(a, b, i, j - 1) + 1
    ensures Dp(a, b, i, j) <= i && Dp(a, b, i, j) <= j
    decreases i + j
  {
    if i > 0 && j > 0 {
      DpSteps(a, b, i - 1, j);
      DpSteps(a, b, i, j - 1);
      DpSteps(a, b, i - 1, j - 1);
    }
  }

  /** No common subsequence of `original[..i]` and `revised[..j]` is longer than `dp[i][j]`. */
  lemma {:induction false} CommonSubseqBound<T>(a: seq<T>, b: seq<T>, i: nat, j: nat, c: seq<T>)
    requires i <= |a| && j <= |b|
    requires IsSubseq(c, a[..i]) && IsSubseq(c, b[..j])
    ensures |c| <= Dp(a, b, i, j)
    decreases i + j
  {
    if c != [] {
      assert i > 0 && j > 0;
      assert a[..i][..i - 1] == a[..i - 1] && a[..i][i - 1] == a[i - 1];
      assert b[..j][..j - 1] == b[..j - 1] && b[..j][j - 1] == b[j - 1];
      DpSteps(a, b, i, j);
      if IsSubseq(c, a[..i - 1]) {
        CommonSubseqBound(a, b, i - 1, j, c);
      } else if IsSubseq(c, b[..j - 1]) {
        CommonSubseqBound(a, b, i, j - 1, c);
      } else {
        CommonSubseqBound(a, b, i - 1, j - 1, c[..|c| - 1]);
      }
    }
  }

  /** The cells `dp[i'][j']` already filled when the loops are at row `i`, column `j`: earlier rows, the first column and this row up to `j`. */
  predicate Filled(i': int, j': int, i: int, j: int) {
    i' < i || j' == 0 || (i' == i && j' < j)
  }

  /** `printDiff`'s table: `dp[i][j]` is the recurrence, filled row by row over a zeroed array. */
  method LcsTable<T(==)>(a: seq<T>, b: seq<T>) returns (dp: array2<int>)
    ensures fresh(dp) && dp.Length0 == |a| + 1 && dp.Length1 == |b| + 1
    ensures forall i, j :: 0 <= i <= |a| && 0 <= j <= |b| ==> dp[i, j] == Dp(a, b, i, j)
  {
    dp := new int[|a| + 1, |b| + 1]((_, _) => 0);
    for i := 1 to |a| + 1
      invariant forall i', j' :: 0 <= i' <= |a| && 0 <= j' <= |b| && Filled(i', j', i, 1) ==> dp[i', j'] == Dp(a, b, i', j')
    {
      for j := 1 to |b| + 1
        invariant forall i', j' :: 0 <= i' <= |a| && 0 <= j' <= |b| && Filled(i', j', i, j) ==> dp[i', j'] == Dp(a, b, i', j')
      {
        var cell := if a[i - 1] == b[j - 1] then dp[i - 1, j - 1] + 1
                    else if dp[i - 1, j] >= dp[i, j - 1] then dp[i - 1, j] else dp[i, j - 1];
        assert cell == Dp(a, b, i, j);
        label Before:
        dp[i, j] := cell;
        forall i', j' | 0 <= i' <= |a| && 0 <= j' <= |b| && Filled(i', j', i, j + 1)
          ensures dp[i', j'] == Dp(a, b, i', j')
        {
          if i' != i || j' != j {
            assert Filled(i', j', i, j) && dp[i', j'] == old@Before(dp[i', j']);
          }
        }
      }
    }
  }

  /* ------------------------------------------------------- the backtrack */

  /**
    `printDiffBacktrack` with the lines it passes over kept as `Keep`: a
    match steps diagonally; otherwise an addition when `dp[i][j-1] >=
    dp[i-1][j]` (or the original is used up), else a removal.
   */
  function Backtrack<T(==)>(a: seq<T>, b: seq<T>, i: nat, j: nat): seq<Edit<T>>
    requires i <= |a| && j <= |b|
    decreases i + j
  {
    if i > 0 && j > 0 && a[i - 1] == b[j - 1] then Backtrack(a, b, i - 1, j - 1) + [Keep(a[i - 1])]
    else if j > 0 && (i == 0 || Dp(a, b, i, j - 1) >= Dp(a, b, i - 1, j)) then Backtrack(a, b, i, j - 1) + [Add(b[j - 1])]
    else if i > 0 && (j == 0 || Dp(a, b, i, j - 1) < Dp(a, b, i - 1, j)) then Backtrack(a, b, i - 1, j) + [Remove(a[i - 1])]
    else []
  }

  /** The lines an alignment takes from the original. */
  function Source<T>(es: seq<Edit<T>>): seq<T> {
    if es == [] then []
    else Source(es[..|es| - 1]) + (if es[|es| - 1].Add? then [] else [es[|es| - 1].line])
  }

  /** The lines an alignment produces. */
  function Target<T>(es: seq<Edit<T>>): seq<T> {
    if es == [] then []
    else Target(es[..|es| - 1]) + (if es[|es| - 1].Remove? then [] else [es[|es| - 1].line])
  }

  function Kept<T>(es: seq<Edit<T>>): seq<T> {
    if es == [] then [] else Kept(es[..|es| - 1]) + (if es[|es| - 1].Keep? then [es[|es| - 1].line] else [])
  }

  function Removed<T>(es: seq<Edit<T>>): seq<T> {
    if es == [] then [] else Removed(es[..|es| - 1]) + (if es[|es| - 1].Remove? then [es[|es| - 1].line] else [])
  }

  function Added<T>(es: seq<Edit<T>>): seq<T> {
    if es == [] then [] else Added(es[..|es| - 1]) + (if es[|es| - 1].Add? then [es[|es| - 1].line] else [])
  }

  /** What `printDiffBacktrack` prints: the additions and removals, in order. */
  function Changes<T>(es: seq<Edit<T>>): (cs: seq<Edit<T>>)
    ensures forall k :: 0 <= k < |cs| ==> !cs[k].Keep?
  {
    if es == [] then [] else Changes(es[..|es| - 1]) + (if es[|es| - 1].Keep? then [] else [es[|es| - 1]])
  }

  /** The removed and added lines of an alignment with one more step. */
  lemma LastStepParts<T>(init: seq<Edit<T>>, e: Edit<T>)
    ensures var es := init + [e];
      && Removed(es) == Removed(init) + (if e.Remove? then [e.line] else [])
      && Added(es) == Added(init) + (if e.Add? then [e.line] else [])
  {
    var es := init + [e];
    assert es[..|es| - 1] == init;
  }

  /** The printed changes remove exactly the alignment's removed lines and add exactly its added lines, in order. */
  lemma {:induction false} ChangesParts<T>(es: seq<Edit<T>>)
    ensures Removed(Changes(es)) == Removed(es) && Added(Changes(es)) == Added(es) && Kept(Changes(es)) == []
  {
    if es != [] {
      var init := es[..|es| - 1];
      var e := es[|es| - 1];
      assert es == init + [e];
      ChangesParts(init);
      LastStep(init, e);
      LastStepParts(init, e);
      if e.Keep? {
        assert Changes(es) == Changes(init);
      } else {
        assert Changes(es) == Changes(init) + [e];
        LastStep(Changes(init), e);
        LastStepParts(Changes(init), e);
      }
    }
  }

  /** The alignment functions on an alignment with one more step. */
  lemma LastStep<T>(init: seq<Edit<T>>, e: Edit<T>)
    ensures var es := init + [e];
      && Source(es) == Source(init) + (if e.Add? then [] else [e.line])
      && Target(es) == Target(init) + (if e.Remove? then [] else [e.line])
      && Kept(es) == Kept(init) + (if e.Keep? then [e.line] else [])
      && Changes(es) == Changes(init) + (if e.Keep? then [] else [e])
  {
    var es := init + [e];
    assert es[..|es| - 1] == init;
  }

  /** Every alignment splits its source into kept and removed lines and its target into kept and added ones, in order. */
  lemma {:induction false} AlignmentParts<T>(es: seq<Edit<T>>)
    ensures |Source(es)| == |Kept(es)| + |Removed(es)| && |Target(es)| == |Kept(es)| + |Added(es)|
    ensures IsSubseq(Kept(es), Source(es)) && IsSubseq(Removed(es), Source(es))
    ensures IsSubseq(Kept(es), Target(es)) && IsSubseq(Added(es), Target(es))
  {
    if es != [] {
      var init := es[..|es| - 1];
      AlignmentParts(init);
      var e := es[|es| - 1];
      SubseqSnoc(Kept(init), Source(init), e.line, e.Keep?, !e.Add?);
      SubseqSnoc(Removed(init), Source(init), e.line, e.Remove?, !e.Add?);
      SubseqSnoc(Kept(init), Target(init), e.line, e.Keep?, !e.Remove?);
      SubseqSnoc(Added(init), Target(init), e.line, e.Add?, !e.Remove?);
    }
  }

  /** Extending the sequence (and maybe the subsequence) by one line keeps the subsequence relation. */
  lemma SubseqSnoc<T>(c: seq<T>, s: seq<T>, x: T, both: bool, grow: bool)
    requires IsSubseq(c, s) && (both ==> grow)
    ensures IsSubseq(c + (if both then [x] else []), s + (if grow then [x] else []))
  {
    var s' := s + (if grow then [x] else []);
    var c' := c + (if both then [x] else []);
    if !grow {
      assert s' == s && c' == c;
    } else {
      assert s'[..|s'| - 1] == s;
      if both {
        assert c'[..|c'| - 1] == c;
      } else {
        assert c' == c;
      }
    }
  }

  /** The backtrack from `(i, j)` aligns `original[..i]` with `revised[..j]` and keeps exactly `dp[i][j]` lines. */
  predicate Aligned<T(==)>(a: seq<T>, b: seq<T>, i: nat, j: nat)
    requires i <= |a| && j <= |b|
  {
    var es := Backtrack(a, b, i, j);
    Source(es) == a[..i] && Target(es) == b[..j] && |Kept(es)| == Dp(a, b, i, j)
  }

  lemma {:induction false} BacktrackAligns<T>(a: seq<T>, b: seq<T>, i: nat, j: nat)
    requires i <= |a| && j <= |b|
    ensures Aligned(a, b, i, j)
    decreases i + j
  {
    if i > 0 && j > 0 && a[i - 1] == b[j - 1] {
      BacktrackAligns(a, b, i - 1, j - 1);
      KeepStep(a, b, i, j);
    } else if j > 0 && (i == 0 || Dp(a, b, i, j - 1) >= Dp(a, b, i - 1, j)) {
      BacktrackAligns(a, b, i, j - 1);
      AddStep(a, b, i, j);
    } else if i > 0 {
      BacktrackAligns(a, b, i - 1, j);
      RemoveStep(a, b, i, j);
    } else {
      assert Backtrack(a, b, i, j) == [] && a[..i] == [] && b[..j] == [];
    }
  }

  lemma KeepStep<T>(a: seq<T>, b: seq<T>, i: nat, j: nat)
    requires 0 < i <= |a| && 0 < j <= |b| && a[i - 1] == b[j - 1]
    requires Aligned(a, b, i - 1, j - 1)
    ensures Aligned(a, b, i, j)
  {
    var init := Backtrack(a, b, i - 1, j - 1);
    assert Backtrack(a, b, i, j) == init + [Keep(a[i - 1])];
    ExtendAlignment(init, Keep(a[i - 1]), a, b, i, j);
  }

  lemma AddStep<T>(a: seq<T>, b: seq<T>, i: nat, j: nat)
    requires i <= |a| && 0 < j <= |b|
    requires !(i > 0 && a[i - 1] == b[j - 1]) && (i == 0 || Dp(a, b, i, j - 1) >= Dp(a, b, i - 1, j))
    requires Aligned(a, b, i, j - 1)
    ensures Aligned(a, b, i, j)
  {
    var init := Backtrack(a, b, i, j - 1);
    assert Backtrack(a, b, i, j) == init + [Add(b[j - 1])];
    assert Dp(a, b, i, j) == Dp(a, b, i, j - 1);
    ExtendAlignment(init, Add(b[j - 1]), a, b, i, j);
  }

  lemma RemoveStep<T>(a: seq<T>, b: seq<T>, i: nat, j: nat)
    requires 0 < i <= |a| && j <= |b|
    requires !(j > 0 && a[i - 1] == b[j - 1]) && (j == 0 || Dp(a, b, i, j - 1) < Dp(a, b, i - 1, j))
    requires Aligned(a, b, i - 1, j)
    ensures Aligned(a, b, i, j)
  {
    var init := Backtrack(a, b, i - 1, j);
    assert Backtrack(a, b, i, j) == init + [Remove(a[i - 1])];
    assert Dp(a, b, i, j) == Dp(a, b, i - 1, j);
    ExtendAlignment(init, Remove(a[i - 1]), a, b, i, j);
  }

  /** One backtrack step extends an alignment of shorter prefixes to one of `a[..i]` and `b[..j]`. */
  lemma ExtendAlignment<T>(init: seq<Edit<T>>, e: Edit<T>, a: seq<T>, b: seq<T>, i: nat, j: nat)
    requires i <= |a| && j <= |b|
    requires e.Add? ==> j > 0 && e.line == b[j - 1]
    requires e.Remove? ==> i > 0 && e.line == a[i - 1]
    requires e.Keep? ==> i > 0 && j > 0 && e.line == a[i - 1] && e.line == b[j - 1]
    requires Source(init) == a[..if e.Add? then i else i - 1]
    requires Target(init) == b[..if e.Remove? then j else j - 1]
    requires |Kept(init)| + (if e.Keep? then 1 else 0) == Dp(a, b, i, j)
    ensures Source(init + [e]) == a[..i] && Target(init + [e]) == b[..j] && |Kept(init + [e])| == Dp(a, b, i, j)
  {
    LastStep(init, e);
    if !e.Add? {
      assert a[..i] == a[..i - 1] + [a[i - 1]];
    }
    if !e.Remove? {
      assert b[..j] == b[..j - 1] + [b[j - 1]];
    }
  }

  /**
    The diff's guarantees: the removals are the original lines not kept, in
    order, the additions the revised lines not kept, in order, and the kept
    lines are a longest common subsequence of the two.
   */
  lemma DiffIsMinimal<T>(a: seq<T>, b: seq<T>)
    ensures var es := Backtrack(a, b, |a|, |b|);
      && Source(es) == a && Target(es) == b
      && IsSubseq(Removed(es), a) && |Removed(es)| == |a| - Dp(a, b, |a|, |b|)
      && IsSubseq(Added(es), b) && |Added(es)| == |b| - Dp(a, b, |a|, |b|)
      && IsSubseq(Kept(es), a) && IsSubseq(Kept(es), b) && |Kept(es)| == Dp(a, b, |a|, |b|)
      && (forall c :: IsSubseq(c, a) && IsSubseq(c, b) ==> |c| <= |Kept(es)|)
  {
    var es := Backtrack(a, b, |a|, |b|);
    BacktrackAligns(a, b, |a|, |b|);
    AlignmentParts(es);
    assert a[..|a|] == a && b[..|b|] == b;
    forall c | IsSubseq(c, a) && IsSubseq(c, b) ensures |c| <= |Kept(es)| {
      CommonSubseqBound(a, b, |a|, |b|, c);
    }
  }
  /**
    What is printed is minimal: the removal lines are original lines in order,
    the addition lines revised lines in order, and each is as few as a longest
    common subsequence allows.
   */
  lemma PrintedDiffIsMinimal<T>(a: seq<T>, b: seq<T>)
    ensures var cs := Changes(Backtrack(a, b, |a|, |b|));
      && IsSubseq(Removed(cs), a) && |Removed(cs)| == |a| - Dp(a, b, |a|, |b|)
      && IsSubseq(Added(cs), b) && |Added(cs)| == |b| - Dp(a, b, |a|, |b|)
      && (forall c :: IsSubseq(c, a) && IsSubseq(c, b) ==> |c| <= Dp(a, b, |a|, |b|))
  {
    DiffIsMinimal(a, b);
    ChangesParts(Backtrack(a, b, |a|, |b|));
  }


  /** The source's own example: `[a, b, c]` against `[a, x, c]` prints `- b` then `+ x`. */
  lemma ReplaceMiddleLine()
    ensures Changes(Backtrack(["a", "b", "c"], ["a", "x", "c"], 3, 3)) == [Remove("b"), Add("x")]
  {
    var a: seq<string> := ["a", "b", "c"];
    var b: seq<string> := ["a", "x", "c"];
    assert a[0] == b[0] && a[1] != b[0] && a[1] != b[1] && a[2] == b[2];
    assert Dp(a, b, 1, 1) == 1 && Dp(a, b, 2, 0) == 0;
    assert Dp(a, b, 2, 1) == 1 && Dp(a, b, 1, 2) == 1;
    KeepChanges(a, b, 3, 3);
    AddChanges(a, b, 2, 2);
    RemoveChanges(a, b, 2, 1);
    KeepChanges(a, b, 1, 1);
    assert Backtrack(a, b, 0, 0) == [];
  }

  /** Against an empty original (a missing staged blob) every revised line is an addition, in order. */
  lemma {:induction false} EmptyOriginal<T>(b: seq<T>, j: nat)
    requires j <= |b|
    ensures Changes(Backtrack([], b, 0, j)) == seq(j, k requires 0 <= k < j => Add(b[k]))
  {
    if j > 0 {
      var es := Backtrack([], b, 0, j);
      EmptyOriginal(b, j - 1);
      assert es[..|es| - 1] == Backtrack([], b, 0, j - 1);
    }
  }

  /** Against an empty working file every original line is a removal, in order. */
  lemma {:induction false} EmptyRevised<T>(a: seq<T>, i: nat)
    requires i <= |a|
    ensures Changes(Backtrack(a, [], i, 0)) == seq(i, k requires 0 <= k < i => Remove(a[k]))
  {
    if i > 0 {
      var es := Backtrack(a, [], i, 0);
      EmptyRevised(a, i - 1);
      assert es[..|es| - 1] == Backtrack(a, [], i - 1, 0);
    }
  }

  /** Identical line sequences print nothing. */
  lemma {:induction false} IdenticalPrintsNothing<T>(a: seq<T>, i: nat)
    requires i <= |a|
    ensures Changes(Backtrack(a, a, i, i)) == []
  {
    if i > 0 {
      var es := Backtrack(a, a, i, i);
      IdenticalPrintsNothing(a, i - 1);
      assert es[..|es| - 1] == Backtrack(a, a, i - 1, i - 1);
    }
  }

  /** `dp` is the filled table of `original` against `revised`. */
  predicate HoldsTable<T(==)>(dp: array2<int>, a: seq<T>, b: seq<T>)
    reads dp
  {
    dp.Length0 == |a| + 1 && dp.Length1 == |b| + 1 &&
    forall i', j' :: 0 <= i' <= |a| && 0 <= j' <= |b| ==> dp[i', j'] == Dp(a, b, i', j')
  }

  /** `printDiffBacktrack` over the filled table: recurse first, then print this step's line. */
  method PrintDiffBacktrack<T(==)>(dp: array2<int>, a: seq<T>, b: seq<T>, i: nat, j: nat) returns (ops: seq<Edit<T>>)
    requires HoldsTable(dp, a, b) && i <= |a| && j <= |b|
    ensures ops == Changes(Backtrack(a, b, i, j))
    decreases i + j
  {
    if i > 0 && j > 0 && a[i - 1] == b[j - 1] {
      ops := PrintDiffBacktrack(dp, a, b, i - 1, j - 1);
      KeepChanges(a, b, i, j);
    } else if j > 0 && (i == 0 || dp[i, j - 1] >= dp[i - 1, j]) {
      ops := PrintDiffBacktrack(dp, a, b, i, j - 1);
      AddChanges(a, b, i, j);
      ops := ops + [Add(b[j - 1])];
    } else if i > 0 && (j == 0 || dp[i, j - 1] < dp[i - 1, j]) {
      ops := PrintDiffBacktrack(dp, a, b, i - 1, j);
      RemoveChanges(a, b, i, j);
      ops := ops + [Remove(a[i - 1])];
    } else {
      ops := [];
    }
  }

  /** A matching line prints nothing. */
  lemma KeepChanges<T>(a: seq<T>, b: seq<T>, i: nat, j: nat)
    requires 0 < i <= |a| && 0 < j <= |b| && a[i - 1] == b[j - 1]
    ensures Changes(Backtrack(a, b, i, j)) == Changes(Backtrack(a, b, i - 1, j - 1))
  {
    LastStep(Backtrack(a, b, i - 1, j - 1), Keep(a[i - 1]));
  }

  /** An addition step prints `+ line` after the changes before it. */
  lemma AddChanges<T>(a: seq<T>, b: seq<T>, i: nat, j: nat)
    requires i <= |a| && 0 < j <= |b|
    requires !(i > 0 && a[i - 1] == b[j - 1]) && (i == 0 || Dp(a, b, i, j - 1) >= Dp(a, b, i - 1, j))
    ensures Changes(Backtrack(a, b, i, j)) == Changes(Backtrack(a, b, i, j - 1)) + [Add(b[j - 1])]
  {
    LastStep(Backtrack(a, b, i, j - 1), Add(b[j - 1]));
  }

  /** A removal step prints `- line` after the changes before it. */
  lemma RemoveChanges<T>(a: seq<T>, b: seq<T>, i: nat, j: nat)
    requires 0 < i <= |a| && j <= |b|
    requires !(j > 0 && a[i - 1] == b[j - 1]) && (j == 0 || Dp(a, b, i, j - 1) < Dp(a, b, i - 1, j))
    ensures Changes(Backtrack(a, b, i, j)) == Changes(Backtrack(a, b, i - 1, j)) + [Remove(a[i - 1])]
  {
    LastStep(Backtrack(a, b, i - 1, j), Remove(a[i - 1]));
  }

  /** `printDiff`: the additions and removals turning `original` into `revised`. */
  method PrintDiff<T(==)>(original: seq<T>, revised: seq<T>) returns (ops: seq<Edit<T>>)
    ensures ops == Changes(Backtrack(original, revised, |original|, |revised|))
  {
    var dp := LcsTable(original, revised);
    ops := PrintDiffBacktrack(dp, original, revised, |original|, |revised|);
  }

  /* -------------------------------------------------------- per entry */

  /** What `handleDiff` prints for one index entry. */
  datatype FileDiff = DeletedFile(path: string) | ChangedFile(path: string, ops: seq<Edit<string>>)

  datatype DiffOutcome = NotARepository | Diffs(files: seq<FileDiff>)

  /** The staged lines of a blob: empty when the blob is missing. */
  function StagedLines(objects: map<string, string>, hash: string): seq<string> {
    if hash in objects then Lines(objects[hash]) else []
  }

  /**
    The report for one entry: a deletion header for a missing working file,
    nothing when the working file hashes to the staged hash, else the line
    diff of the staged blob against the working file.
   */
  function EntryDiff(s: RepoState, e: Entry, sha1: string -> string): seq<FileDiff> {
    if e.path !in s.working then [DeletedFile(e.path)]
    else if e.hash == sha1(s.working[e.path]) then []
    else [ChangedFile(e.path, LineDiff(s, e))]
  }

  /** The printed line diff of an entry's staged blob against its working file. */
  function LineDiff(s: RepoState, e: Entry): seq<Edit<string>>
    requires e.path in s.working
  {
    var original := StagedLines(s.objects, e.hash);
    var revised := Lines(s.working[e.path]);
    Changes(Backtrack(original, revised, |original|, |revised|))
  }

  /** The working file of `e` exists and hashes to the staged hash. */
  predicate Unchanged(s: RepoState, e: Entry, sha1: string -> string) {
    e.path in s.working && e.hash == sha1(s.working[e.path])
  }

  /** The reports for the index entries `es`, in index order. */
  function EntryDiffs(s: RepoState, es: seq<Entry>, sha1: string -> string): seq<FileDiff> {
    if es == [] then [] else EntryDiffs(s, es[..|es| - 1], sha1) + EntryDiff(s, es[|es| - 1], sha1)
  }

  function DiffOf(s: RepoState, sha1: string -> string): DiffOutcome {
    if !s.initialized then NotARepository else Diffs(EntryDiffs(s, s.index, sha1))
  }

  /** `handleDiff`. */
  method HandleDiff(r: Repository, sha1: string -> string) returns (out: DiffOutcome)
    ensures out == DiffOf(r.State(), sha1)
  {
    if !r.initialized {
      return NotARepository;
    }
    var index := r.index;
    var files: seq<FileDiff> := [];
    for k := 0 to |index|
      invariant files == EntryDiffs(r.State(), index[..k], sha1)
    {
      assert index[..k + 1][..k] == index[..k];
      var path := index[k].path;
      var stagedHash := index[k].hash;
      if path !in r.working {
        files := files + [DeletedFile(path)];
      } else {
        var workingHash := sha1(r.working[path]);
        if stagedHash != workingHash {
          var stagedLines: seq<string> := [];
          if stagedHash in r.objects {
            stagedLines := Lines(r.objects[stagedHash]);
          }
          var workingLines := Lines(r.working[path]);
          var ops := PrintDiff(stagedLines, workingLines);
          files := files + [ChangedFile(path, ops)];
        } else {
          assert files + [] == files;
        }
      }
    }
    assert index[..|index|] == index;
    out := Diffs(files);
  }

  /**
    Every report of `handleDiff` belongs to a changed entry: a deletion header
    exactly when its working file is missing, otherwise the line diff of its
    staged and working lines. Every changed entry gets a report, and with one
    entry per path an unchanged entry's path is in no report.
   */
  lemma EntryDiffsReport(s: RepoState, es: seq<Entry>, sha1: string -> string)
    ensures (forall k :: 0 <= k < |es| ==> Unchanged(s, es[k], sha1)) ==> EntryDiffs(s, es, sha1) == []
    ensures forall d :: d in EntryDiffs(s, es, sha1) ==> ReportsEntry(s, es, sha1, d)
    ensures forall k :: 0 <= k < |es| && !Unchanged(s, es[k], sha1) ==>
      exists d :: d in EntryDiffs(s, es, sha1) && d.path == es[k].path
    ensures UniquePaths(es) ==> forall k, d :: 0 <= k < |es| && Unchanged(s, es[k], sha1) && d in EntryDiffs(s, es, sha1) ==>
      d.path != es[k].path
  {
    EntryDiffsSound(s, es, sha1);
    EntryDiffsComplete(s, es, sha1);
    if UniquePaths(es) {
      forall k, d | 0 <= k < |es| && Unchanged(s, es[k], sha1) && d in EntryDiffs(s, es, sha1)
        ensures d.path != es[k].path
      {
        var k' :| 0 <= k' < |es| && ReportsAt(s, es[k'], sha1, d);
        assert k' != k;
      }
    }
  }

  /** Every report belongs to a changed entry and is the report that entry calls for. */
  lemma {:induction false} EntryDiffsSound(s: RepoState, es: seq<Entry>, sha1: string -> string)
    ensures forall d :: d in EntryDiffs(s, es, sha1) ==> ReportsEntry(s, es, sha1, d)
  {
    if es != [] {
      var init := es[..|es| - 1];
      EntryDiffsSound(s, init, sha1);
      forall d | d in EntryDiffs(s, es, sha1)
        ensures ReportsEntry(s, es, sha1, d)
      {
        if d in EntryDiffs(s, init, sha1) {
          ReportsPrefix(s, es, sha1, d);
        } else {
          assert ReportsAt(s, es[|es| - 1], sha1, d);
        }
      }
    }
  }

  /** Every changed entry gets a report naming its path. */
  lemma {:induction false} EntryDiffsComplete(s: RepoState, es: seq<Entry>, sha1: string -> string)
    ensures forall k :: 0 <= k < |es| && !Unchanged(s, es[k], sha1) ==>
      exists d :: d in EntryDiffs(s, es, sha1) && d.path == es[k].path
  {
    if es != [] {
      var init := es[..|es| - 1];
      var e := es[|es| - 1];
      EntryDiffsComplete(s, init, sha1);
      forall k | 0 <= k < |es| && !Unchanged(s, es[k], sha1)
        ensures exists d :: d in EntryDiffs(s, es, sha1) && d.path == es[k].path
      {
        if k < |init| {
          assert es[k] == init[k];
          var d :| d in EntryDiffs(s, init, sha1) && d.path == init[k].path;
          assert d in EntryDiffs(s, es, sha1);
        } else {
          assert EntryDiff(s, e, sha1)[0] in EntryDiffs(s, es, sha1);
        }
      }
    }
  }

  /** `d` is the report of the changed entry `e`. */
  predicate ReportsAt(s: RepoState, e: Entry, sha1: string -> string, d: FileDiff) {
    && !Unchanged(s, e, sha1)
    && e.path == d.path
    && (d.DeletedFile? <==> e.path !in s.working)
    && (d.ChangedFile? ==> e.path in s.working && d.ops == LineDiff(s, e))
  }

  /** `d` is the report of some changed entry of `es`. */
  predicate ReportsEntry(s: RepoState, es: seq<Entry>, sha1: string -> string, d: FileDiff) {
    exists k :: 0 <= k < |es| && ReportsAt(s, es[k], sha1, d)
  }

  /** A report of the entries but the last is a report of all of them. */
  lemma ReportsPrefix(s: RepoState, es: seq<Entry>, sha1: string -> string, d: FileDiff)
    requires es != [] && ReportsEntry(s, es[..|es| - 1], sha1, d)
    ensures ReportsEntry(s, es, sha1, d)
  {
    var init := es[..|es| - 1];
    var k :| 0 <= k < |init| && ReportsAt(s, init[k], sha1, d);
    assert es[k] == init[k];
  }
}
