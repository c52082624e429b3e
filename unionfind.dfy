/** Union-find over runs: a disjoint-set forest in which each run holds the
    index of its parent run, and the merge sweep that joins the runs of
    vertically adjacent, horizontally overlapping intervals. */
module UnionFind {
  import opened Runs

  // ---------------------------------------------------------------------
  // The forest as a sequence of parent indices
  // ---------------------------------------------------------------------

  /** Every run's parent is itself (a root) or a run earlier in scan order.
      This rules out cycles: following parents strictly decreases the index. */
  ghost predicate IsForest(parent: seq<int>) {
    forall k :: 0 <= k < |parent| ==> 0 <= parent[k] <= k
  }

  /** The root reached from `k` by following parents. */
  ghost function RootOf(parent: seq<int>, k: int): (r: int)
    requires IsForest(parent) && 0 <= k < |parent|
    ensures 0 <= r <= k && parent[r] == r
    decreases k
  {
    if parent[k] == k then k else RootOf(parent, parent[k])
  }

  /** The root of every run, in run order. */
  ghost function Roots(parent: seq<int>): (roots: seq<int>)
    requires IsForest(parent)
    ensures |roots| == |parent|
    ensures forall m :: 0 <= m < |parent| ==> roots[m] == RootOf(parent, m)
  {
    seq(|parent|, m requires 0 <= m < |parent| && IsForest(parent) => RootOf(parent, m))
  }

  /** Path halving at `k` (its parent becomes its grandparent) keeps the
      forest a forest and leaves the root of every run unchanged. */
  lemma {:induction false} HalvingKeepsRoot(parent: seq<int>, k: int, m: int)
    requires IsForest(parent) && 0 <= k < |parent| && 0 <= m < |parent|
    ensures IsForest(parent[k := parent[parent[k]]])
    ensures RootOf(parent[k := parent[parent[k]]], m) == RootOf(parent, m)
    decreases m
  {
    var halved := parent[k := parent[parent[k]]];
    if halved[m] != m && parent[m] != m {
      HalvingKeepsRoot(parent, k, halved[m]);
      if m == k && parent[parent[k]] != parent[k] {
        assert RootOf(parent, parent[k]) == RootOf(parent, parent[parent[k]]);
      }
    }
  }

  /** Hanging root `child` under the earlier root `newParent` keeps the
      forest a forest; exactly the runs whose root was `child` change root,
      to `newParent`. */
  lemma {:induction false} LinkMovesOneTree(parent: seq<int>, child: int, newParent: int, m: int)
    requires IsForest(parent) && 0 <= newParent < child < |parent| && 0 <= m < |parent|
    requires parent[child] == child && parent[newParent] == newParent
    ensures IsForest(parent[child := newParent])
    ensures RootOf(parent[child := newParent], m) ==
      if RootOf(parent, m) == child then newParent else RootOf(parent, m)
    decreases m
  {
    if parent[m] != m {
      LinkMovesOneTree(parent, child, newParent, parent[m]);
    }
  }

  // ---------------------------------------------------------------------
  // Adjacency between runs and walks along it
  // ---------------------------------------------------------------------

  /** `a` lies on the row above `b` and their intervals overlap in at least
      one column; intervals that only touch do not count. */
  predicate Adjacent(a: Run, b: Run) {
    a.xStart < b.xEnd && b.xStart < a.xEnd && a.y + 1 == b.y
  }

  /** `a` is positionally earlier than `b`: higher up, or on the same row and further left. */
  predicate PosBefore(a: Run, b: Run) {
    a.y < b.y || (a.y == b.y && a.xStart < b.xStart)
  }

  /** One step of a walk: stay, or move to an adjacent run above or below. */
  ghost predicate Step(runs: seq<Run>, a: int, b: int)
    requires 0 <= a < |runs| && 0 <= b < |runs|
  {
    a == b || Adjacent(runs[a], runs[b]) || Adjacent(runs[b], runs[a])
  }

  /** `w` is a walk over `runs` from run `a` to run `b` along adjacency. */
  ghost predicate IsWalk(runs: seq<Run>, w: seq<int>, a: int, b: int) {
    |w| > 0 && w[0] == a && w[|w| - 1] == b &&
    (forall k :: 0 <= k < |w| ==> 0 <= w[k] < |runs|) &&
    (forall k :: 0 <= k < |w| - 1 ==> Step(runs, w[k], w[k + 1]))
  }

  /** Runs `a` and `b` belong to one connected region. */
  ghost predicate Connected(runs: seq<Run>, a: int, b: int) {
    exists w :: IsWalk(runs, w, a, b)
  }

  ghost function Reverse(w: seq<int>): seq<int> {
    seq(|w|, k requires 0 <= k < |w| => w[|w| - 1 - k])
  }

  lemma WalkReverse(runs: seq<Run>, w: seq<int>, a: int, b: int)
    requires IsWalk(runs, w, a, b)
    ensures IsWalk(runs, Reverse(w), b, a)
  {
    var r := Reverse(w);
    forall k | 0 <= k < |r| - 1
      ensures Step(runs, r[k], r[k + 1])
    {
      assert r[k] == w[|w| - 1 - k] && r[k + 1] == w[|w| - 2 - k];
      assert Step(runs, w[|w| - 2 - k], w[|w| - 1 - k]);
    }
  }

  lemma WalkJoin(runs: seq<Run>, v: seq<int>, a: int, b: int, w: seq<int>, c: int, d: int)
    requires IsWalk(runs, v, a, b) && IsWalk(runs, w, c, d)
    requires 0 <= b < |runs| && 0 <= c < |runs| && Step(runs, b, c)
    ensures IsWalk(runs, v + w, a, d)
  {
    var j := v + w;
    forall k | 0 <= k < |j| - 1
      ensures Step(runs, j[k], j[k + 1])
    {
      if k < |v| - 1 {
        assert j[k] == v[k] && j[k + 1] == v[k + 1];
      } else if k == |v| - 1 {
        assert j[k] == b && j[k + 1] == c;
      } else {
        assert j[k] == w[k - |v|] && j[k + 1] == w[k - |v| + 1];
      }
    }
  }

  /** `walks[m]` is a walk from run `m` to its root `roots[m]`, for every run. */
  ghost predicate WalksToRoots(runs: seq<Run>, walks: seq<seq<int>>, roots: seq<int>) {
    |walks| == |runs| && |roots| == |runs| &&
    forall m :: 0 <= m < |runs| ==> IsWalk(runs, walks[m], m, roots[m])
  }

  /** Runs joined by a walk whose every step has equal roots share their root. */
  lemma {:induction false} WalkKeepsRoot(runs: seq<Run>, parent: seq<int>, w: seq<int>, a: int, b: int)
    requires IsForest(parent) && |parent| == |runs|
    requires forall i, j :: 0 <= i < |runs| && 0 <= j < |runs| && Adjacent(runs[i], runs[j]) ==>
      RootOf(parent, i) == RootOf(parent, j)
    requires IsWalk(runs, w, a, b)
    ensures RootOf(parent, a) == RootOf(parent, b)
    decreases |w|
  {
    if |w| > 1 {
      var rest := w[..|w| - 1];
      assert IsWalk(runs, rest, a, w[|w| - 2]);
      WalkKeepsRoot(runs, parent, rest, a, w[|w| - 2]);
      assert Step(runs, w[|w| - 2], w[|w| - 1]);
    }
  }

  /** After a merge of the adjacent runs `j` and `i`, every run again has
      a walk to its (possibly new) root: a run of the losing tree walks to
      its old root, back down to `j` or `i`, across to the other one and up
      to the winning root. */
  lemma WalksAfterMerge(runs: seq<Run>, walks: seq<seq<int>>, oldRoot: seq<int>, newRoot: seq<int>, j: int, i: int)
    returns (next: seq<seq<int>>)
    requires WalksToRoots(runs, walks, oldRoot) && |newRoot| == |runs|
    requires 0 <= j < |runs| && 0 <= i < |runs| && Adjacent(runs[j], runs[i])
    requires newRoot[j] == oldRoot[j] || newRoot[j] == oldRoot[i]
    requires forall m :: 0 <= m < |runs| ==>
      newRoot[m] == if oldRoot[m] == oldRoot[j] || oldRoot[m] == oldRoot[i] then newRoot[j] else oldRoot[m]
    ensures WalksToRoots(runs, next, newRoot)
  {
    var viaJ := Reverse(walks[j]) + walks[i];
    var viaI := Reverse(walks[i]) + walks[j];
    WalkReverse(runs, walks[j], j, oldRoot[j]);
    WalkReverse(runs, walks[i], i, oldRoot[i]);
    WalkJoin(runs, Reverse(walks[j]), oldRoot[j], j, walks[i], i, oldRoot[i]);
    WalkJoin(runs, Reverse(walks[i]), oldRoot[i], i, walks[j], j, oldRoot[j]);
    next := seq(|runs|, m requires 0 <= m < |runs| =>
      if newRoot[m] == oldRoot[m] then walks[m]
      else if oldRoot[m] == oldRoot[j] then walks[m] + viaJ
      else walks[m] + viaI);
    forall m | 0 <= m < |runs|
      ensures IsWalk(runs, next[m], m, newRoot[m])
    {
      if newRoot[m] != oldRoot[m] {
        if oldRoot[m] == oldRoot[j] {
          WalkJoin(runs, walks[m], m, oldRoot[m], viaJ, oldRoot[j], oldRoot[i]);
        } else {
          WalkJoin(runs, walks[m], m, oldRoot[m], viaI, oldRoot[i], oldRoot[j]);
        }
      }
    }
  }

  /** The state the sweep keeps between steps, over a snapshot `roots` of
      the root of every run: every adjacent pair whose lower run is before
      the leading index `i` shares a root; no run before the trailing index
      `j` overlaps a run after `i`; and every run before `j` overlapping run
      `i` already shares its root. */
  ghost predicate SweptUpTo(runs: seq<Run>, roots: seq<int>, i: int, j: int) {
    |roots| == |runs| && 0 <= j <= i <= |runs| &&
    (forall a, b :: 0 <= a < |runs| && 0 <= b < i && Adjacent(runs[a], runs[b]) ==> roots[a] == roots[b]) &&
    (forall a, b :: 0 <= a < j && i < b < |runs| ==> !Adjacent(runs[a], runs[b])) &&
    (i < |runs| ==> forall a :: 0 <= a < j && Adjacent(runs[a], runs[i]) ==> roots[a] == roots[i])
  }

  /** One step of the sweep keeps `SweptUpTo`: the roots after the step
      keep every pair that shared a root, and join `j` with `i` when their
      runs are adjacent; then `j` advances when its run can no longer meet
      run `i` or a later one, and `i` advances otherwise. */
  lemma SweepStep(runs: seq<Run>, before: seq<int>, after: seq<int>, i: int, j: int)
    requires ScanOrdered(runs) && SweptUpTo(runs, before, i, j) && i < |runs|
    requires |after| == |runs|
    requires forall a, b :: 0 <= a < |runs| && 0 <= b < |runs| && before[a] == before[b] ==> after[a] == after[b]
    requires Adjacent(runs[j], runs[i]) ==> after[j] == after[i]
    ensures if runs[j].y + 1 < runs[i].y || (runs[j].y + 1 == runs[i].y && runs[j].xEnd < runs[i].xEnd)
      then SweptUpTo(runs, after, i, j + 1)
      else SweptUpTo(runs, after, i + 1, j)
  {
    if runs[j].y + 1 < runs[i].y || (runs[j].y + 1 == runs[i].y && runs[j].xEnd < runs[i].xEnd) {
      TrailingAdvance(runs, before, after, i, j);
    } else {
      LeadingAdvance(runs, before, after, i, j);
    }
  }

  /** Run `j` lies too far up or too far left to meet run `i` or any later
      run, so the trailing index may pass it. */
  lemma TrailingAdvance(runs: seq<Run>, before: seq<int>, after: seq<int>, i: int, j: int)
    requires ScanOrdered(runs) && SweptUpTo(runs, before, i, j) && i < |runs|
    requires |after| == |runs|
    requires forall a, b :: 0 <= a < |runs| && 0 <= b < |runs| && before[a] == before[b] ==> after[a] == after[b]
    requires Adjacent(runs[j], runs[i]) ==> after[j] == after[i]
    requires runs[j].y + 1 < runs[i].y || (runs[j].y + 1 == runs[i].y && runs[j].xEnd < runs[i].xEnd)
    ensures SweptUpTo(runs, after, i, j + 1)
  {
    assert forall b :: i < b < |runs| ==> !Adjacent(runs[j], runs[b]);
  }

  /** Run `j` reaches at least as far right as run `i` on the row above it,
      so no run from `j` onwards but `j` itself can meet run `i`: run `i`
      is finished and the leading index may pass it. */
  lemma LeadingAdvance(runs: seq<Run>, before: seq<int>, after: seq<int>, i: int, j: int)
    requires ScanOrdered(runs) && SweptUpTo(runs, before, i, j) && i < |runs|
    requires |after| == |runs|
    requires forall a, b :: 0 <= a < |runs| && 0 <= b < |runs| && before[a] == before[b] ==> after[a] == after[b]
    requires Adjacent(runs[j], runs[i]) ==> after[j] == after[i]
    requires !(runs[j].y + 1 < runs[i].y || (runs[j].y + 1 == runs[i].y && runs[j].xEnd < runs[i].xEnd))
    ensures SweptUpTo(runs, after, i + 1, j)
  {
    assert forall a :: j < a < |runs| ==> !Adjacent(runs[a], runs[i]);
    forall a, b | 0 <= a < |runs| && 0 <= b < i + 1 && Adjacent(runs[a], runs[b])
      ensures after[a] == after[b]
    {
      if b < i || a < j {
        assert before[a] == before[b];
      }
    }
  }

  /** Once adjacent runs share their root and every run has a walk to its
      root, sharing a root is the same as being connected. */
  lemma SameRootIsConnected(runs: seq<Run>, parent: seq<int>, walks: seq<seq<int>>)
    requires IsForest(parent) && |parent| == |runs| && WalksToRoots(runs, walks, Roots(parent))
    requires forall a, b :: 0 <= a < |runs| && 0 <= b < |runs| && Adjacent(runs[a], runs[b]) ==>
      RootOf(parent, a) == RootOf(parent, b)
    ensures forall a, b :: 0 <= a < |runs| && 0 <= b < |runs| ==>
      (RootOf(parent, a) == RootOf(parent, b) <==> Connected(runs, a, b))
  {
    forall a, b | 0 <= a < |runs| && 0 <= b < |runs|
      ensures RootOf(parent, a) == RootOf(parent, b) <==> Connected(runs, a, b)
    {
      if RootOf(parent, a) == RootOf(parent, b) {
        WalkReverse(runs, walks[b], b, RootOf(parent, b));
        WalkJoin(runs, walks[a], a, RootOf(parent, a), Reverse(walks[b]), RootOf(parent, b), b);
      }
      if Connected(runs, a, b) {
        var w :| IsWalk(runs, w, a, b);
        WalkKeepsRoot(runs, parent, w, a, b);
      }
    }
  }

  // ---------------------------------------------------------------------
  // The forest object
  // ---------------------------------------------------------------------

  /** The runs of one image together with their parent links. */
  class RunForest {
    const runs: seq<Run>
    const parent: array<int>

    ghost predicate Valid()
      reads parent
    {
      parent.Length == |runs| && IsForest(parent[..])
    }

    /** The current root of run `k`. */
    ghost function Root(k: int): int
      reads parent
      requires Valid() && 0 <= k < |runs|
    {
      RootOf(parent[..], k)
    }

    /** Every run starts as its own parent: the forest of singletons. */
    constructor (runs: seq<Run>)
      requires ScanOrdered(runs)
      ensures Valid() && fresh(parent) && this.runs == runs
      ensures forall k :: 0 <= k < |runs| ==> parent[k] == k && Root(k) == k
    {
      this.runs := runs;
      parent := new int[|runs|](k => k);
    }

    /** Returns the root of run `k`, replacing each parent on the path by
        its grandparent (path halving). */
    method GetRoot(k: int) returns (r: int)
      requires Valid() && 0 <= k < |runs|
      modifies parent
      ensures Valid()
      ensures r == old(Root(k)) && parent[r] == r
      ensures forall m :: 0 <= m < |runs| ==> Root(m) == old(Root(m))
      ensures Roots(parent[..]) == old(Roots(parent[..]))
      decreases k
    {
      if parent[k] == k {
        return k;
      }
      ghost var before := parent[..];
      parent[k] := parent[parent[k]];
      assert parent[..] == before[k := before[before[k]]];
      forall m | 0 <= m < |runs|
        ensures RootOf(parent[..], m) == RootOf(before, m)
      {
        HalvingKeepsRoot(before, k, m);
      }
      r := GetRoot(parent[k]);
    }

    /** Unites the sets of runs `a` and `b`: the root of the positionally
        later run is hung under the root of the positionally earlier one. */
    method Merge(a: int, b: int)
      requires Valid() && ScanOrdered(runs) && 0 <= a < |runs| && 0 <= b < |runs|
      modifies parent
      ensures Valid()
      ensures Root(a) == Root(b)
      ensures Root(a) == if PosBefore(runs[old(Root(a))], runs[old(Root(b))]) then old(Root(a)) else old(Root(b))
      ensures Root(a) <= old(Root(a)) && Root(a) <= old(Root(b))
      ensures forall m :: 0 <= m < |runs| ==>
        Root(m) == if old(Root(m)) == old(Root(a)) || old(Root(m)) == old(Root(b)) then Root(a) else old(Root(m))
    {
      var root1 := GetRoot(a);
      var root2 := GetRoot(b);
      if runs[root1].y < runs[root2].y || (runs[root1].y == runs[root2].y && runs[root1].xStart < runs[root2].xStart) {
        var child := GetRoot(b);
        var newParent := GetRoot(a);
        Link(child, newParent);
      } else {
        var child := GetRoot(a);
        var newParent := GetRoot(b);
        Link(child, newParent);
      }
    }

    /** `parent[child] := newParent` for two roots, the new parent not later
        in scan order than the child. */
    method Link(child: int, newParent: int)
      requires Valid() && 0 <= child < |runs| && 0 <= newParent < |runs|
      requires parent[child] == child && parent[newParent] == newParent
      requires newParent <= child
      modifies parent
      ensures Valid()
      ensures forall m :: 0 <= m < |runs| ==>
        Root(m) == if old(Root(m)) == child then newParent else old(Root(m))
    {
      ghost var before := parent[..];
      parent[child] := newParent;
      if newParent < child {
        assert parent[..] == before[child := newParent];
        forall m | 0 <= m < |runs|
          ensures RootOf(parent[..], m) == if RootOf(before, m) == child then newParent else RootOf(before, m)
        {
          LinkMovesOneTree(before, child, newParent, m);
        }
      } else {
        assert parent[..] == before;
      }
    }

    /** `Merge(j, i)` for adjacent runs, seen through root snapshots: runs
        that shared a root still do, `j` and `i` now do, and the ghost walks
        are extended so that every run again walks to its root. */
    method MergeTracked(j: int, i: int, ghost walks: seq<seq<int>>) returns (ghost next: seq<seq<int>>)
      requires Valid() && ScanOrdered(runs) && 0 <= j < |runs| && 0 <= i < |runs| && Adjacent(runs[j], runs[i])
      requires WalksToRoots(runs, walks, Roots(parent[..]))
      modifies parent
      ensures Valid()
      ensures forall a, b :: 0 <= a < |runs| && 0 <= b < |runs| && old(Roots(parent[..]))[a] == old(Roots(parent[..]))[b] ==>
        Roots(parent[..])[a] == Roots(parent[..])[b]
      ensures Roots(parent[..])[j] == Roots(parent[..])[i]
      ensures WalksToRoots(runs, next, Roots(parent[..]))
    {
      ghost var before := Roots(parent[..]);
      Merge(j, i);
      ghost var after := Roots(parent[..]);
      forall m | 0 <= m < |runs|
        ensures after[m] == if before[m] == before[j] || before[m] == before[i] then after[j] else before[m]
      {
        assert after[m] == Root(m) && after[j] == Root(j);
        assert before[m] == old(Root(m)) && before[j] == old(Root(j)) && before[i] == old(Root(i));
      }
      next := WalksAfterMerge(runs, walks, before, after, j, i);
    }

    /** One step of the sweep: merges runs `j` and `i` when their intervals
        overlap on adjacent rows, then advances `j` when its run can no
        longer meet run `i` or a later one, and `i` otherwise. */
    method SweepOnce(i: int, j: int, ghost walks: seq<seq<int>>) returns (i': int, j': int, ghost walks': seq<seq<int>>)
      requires Valid() && ScanOrdered(runs) && i < |runs|
      requires SweptUpTo(runs, Roots(parent[..]), i, j) && WalksToRoots(runs, walks, Roots(parent[..]))
      modifies parent
      ensures Valid() && SweptUpTo(runs, Roots(parent[..]), i', j')
      ensures WalksToRoots(runs, walks', Roots(parent[..]))
      ensures (i', j') == (i + 1, j) || (i', j') == (i, j + 1)
    {
      ghost var before := Roots(parent[..]);
      walks' := walks;
      if runs[j].xStart < runs[i].xEnd && runs[i].xStart < runs[j].xEnd && runs[j].y + 1 == runs[i].y {
        walks' := MergeTracked(j, i, walks);
      }
      SweepStep(runs, before, Roots(parent[..]), i, j);
      if runs[j].y + 1 < runs[i].y || (runs[j].y + 1 == runs[i].y && runs[j].xEnd < runs[i].xEnd) {
        i', j' := i, j + 1;
      } else {
        i', j' := i + 1, j;
      }
    }

    /** The two-index sweep over the scan-ordered runs: the trailing index
        `j` visits the runs of the row above the leading index `i`; a pair
        whose intervals overlap on adjacent rows is merged, then `j`
        advances while its run can no longer meet run `i` or a later one,
        and otherwise `i` advances. */
    method MergeSweep() returns (ghost iterations: nat)
      requires Valid() && ScanOrdered(runs)
      requires forall k :: 0 <= k < |runs| ==> parent[k] == k
      modifies parent
      ensures Valid()
      ensures forall a, b :: 0 <= a < |runs| && 0 <= b < |runs| && Adjacent(runs[a], runs[b]) ==>
        Root(a) == Root(b)
      ensures forall a, b :: 0 <= a < |runs| && 0 <= b < |runs| ==>
        (Root(a) == Root(b) <==> Connected(runs, a, b))
      ensures iterations <= 2 * |runs|
    {
      var i := 0;
      var j := 0;
      iterations := 0;
      ghost var walks: seq<seq<int>> := seq(|runs|, m requires 0 <= m < |runs| => [m]);
      while i < |runs|
        invariant Valid()
        invariant iterations == i + j
        invariant SweptUpTo(runs, Roots(parent[..]), i, j)
        invariant WalksToRoots(runs, walks, Roots(parent[..]))
        decreases 2 * |runs| - i - j
      {
        i, j, walks := SweepOnce(i, j, walks);
        iterations := iterations + 1;
      }
      SameRootIsConnected(runs, parent[..], walks);
    }
  }
}
