/** The commit graph behind `findSplitPoint` (Main.java): commits linked to
    their parents by hash, ancestry over all parent edges, and the two-phase
    split-point search. The source keeps no visited set and relies on the
    graph being acyclic to stop; here every walk carries fuel instead. */
module CommitGraph {
  import opened Outcomes
  import opened Commits

  type Graph = map<Hash, Commit>

  /** `to` is `from` or is reached from it in at most `n` parent steps. */
  ghost predicate ReachesWithin(g: Graph, from: Hash, to: Hash, n: nat)
    decreases n
  {
    || from == to
    || (n > 0 && from in g &&
        exists i :: 0 <= i < |g[from].parents| && ReachesWithin(g, g[from].parents[i], to, n - 1))
  }

  /** `anc` is `desc` itself or one of its ancestors along any parent edge. */
  ghost predicate IsAncestor(g: Graph, desc: Hash, anc: Hash) {
    exists n :: ReachesWithin(g, desc, anc, n)
  }

  /** Every member is stored and has all its parents in the set. */
  ghost predicate Closed(g: Graph, s: seq<Hash>) {
    forall x :: x in s ==> x in g && forall i :: 0 <= i < |g[x].parents| ==> g[x].parents[i] in s
  }

  lemma IsAncestorOfSelf(g: Graph, h: Hash)
    ensures IsAncestor(g, h, h)
  {
    assert ReachesWithin(g, h, h, 0);
  }

  lemma {:induction false} ReachesExtend(g: Graph, a: Hash, q: Hash, i: nat, n: nat)
    requires q in g && i < |g[q].parents|
    requires ReachesWithin(g, a, q, n)
    ensures ReachesWithin(g, a, g[q].parents[i], n + 1)
    decreases n
  {
    var p := g[q].parents[i];
    if a == q {
      assert ReachesWithin(g, p, p, n);
    } else {
      var j :| 0 <= j < |g[a].parents| && ReachesWithin(g, g[a].parents[j], q, n - 1);
      ReachesExtend(g, g[a].parents[j], q, i, n - 1);
    }
  }

  /** A parent of an ancestor is an ancestor. */
  lemma AncestorOfParent(g: Graph, a: Hash, q: Hash, i: nat)
    requires q in g && i < |g[q].parents|
    requires IsAncestor(g, a, q)
    ensures IsAncestor(g, a, g[q].parents[i])
  {
    var n: nat :| ReachesWithin(g, a, q, n);
    ReachesExtend(g, a, q, i, n);
  }

  /** A proper ancestor of `a` is an ancestor of one of `a`'s parents. */
  lemma AncestorThroughParent(g: Graph, a: Hash, x: Hash)
    requires IsAncestor(g, a, x) && a != x
    ensures a in g
    ensures exists i :: 0 <= i < |g[a].parents| && IsAncestor(g, g[a].parents[i], x)
  {
    var n: nat :| ReachesWithin(g, a, x, n);
    var i :| 0 <= i < |g[a].parents| && ReachesWithin(g, g[a].parents[i], x, n - 1);
    assert IsAncestor(g, g[a].parents[i], x);
  }

  lemma {:induction false} ClosedContainsReached(g: Graph, s: seq<Hash>, a: Hash, x: Hash, n: nat)
    requires Closed(g, s) && a in s
    requires ReachesWithin(g, a, x, n)
    ensures x in s
    decreases n
  {
    if a != x {
      var i :| 0 <= i < |g[a].parents| && ReachesWithin(g, g[a].parents[i], x, n - 1);
      ClosedContainsReached(g, s, g[a].parents[i], x, n - 1);
    }
  }

  /** A closed set holding `a` holds every ancestor of `a`. */
  lemma ClosedContainsAncestors(g: Graph, s: seq<Hash>, a: Hash, x: Hash)
    requires Closed(g, s) && a in s && IsAncestor(g, a, x)
    ensures x in s
  {
    var n: nat :| ReachesWithin(g, a, x, n);
    ClosedContainsReached(g, s, a, x, n);
  }

  // ------------------------------------------------ phase 1: breadth first

  /** The first loop of `findSplitPoint`: take hashes from the front of the
      queue, record each in `branchCommits`, and queue all its parents at
      the back. Duplicates are recorded as often as they are reached. */
  function Bfs(g: Graph, queue: seq<Hash>, seen: seq<Hash>, fuel: nat): Result<seq<Hash>>
    decreases fuel
  {
    if queue == [] then Ok(seen)
    else if fuel == 0 then Err(OutOfFuel)
    else if queue[0] !in g then Err(Crash(MissingFile))
    else Bfs(g, queue[1..] + g[queue[0]].parents, seen + [queue[0]], fuel - 1)
  }

  /** Whatever was seen or queued ends up recorded, and the result is closed
      under parents, provided every seen hash had its parents seen or queued. */
  lemma {:induction false} BfsClosed(g: Graph, queue: seq<Hash>, seen: seq<Hash>, fuel: nat)
    requires forall x :: x in seen ==> x in g && forall i :: 0 <= i < |g[x].parents| ==>
      g[x].parents[i] in seen || g[x].parents[i] in queue
    ensures Bfs(g, queue, seen, fuel).Ok? ==>
      && Closed(g, Bfs(g, queue, seen, fuel).value)
      && (forall x :: x in seen ==> x in Bfs(g, queue, seen, fuel).value)
      && (forall x :: x in queue ==> x in Bfs(g, queue, seen, fuel).value)
    decreases fuel
  {
    if queue != [] && fuel > 0 && queue[0] in g {
      var q := queue[0];
      var queue' := queue[1..] + g[q].parents;
      var seen' := seen + [q];
      forall x | x in seen'
        ensures x in g && forall i :: 0 <= i < |g[x].parents| ==> g[x].parents[i] in seen' || g[x].parents[i] in queue'
      {
        forall i | 0 <= i < |g[x].parents|
          ensures g[x].parents[i] in seen' || g[x].parents[i] in queue'
        {
          var p := g[x].parents[i];
          if x == q {
            assert p == queue'[|queue[1..]| + i];
          } else if p in queue && p != q {
            var k :| 0 <= k < |queue| && queue[k] == p;
            assert p == queue'[k - 1];
          }
        }
      }
      BfsClosed(g, queue', seen', fuel - 1);
      forall x | x in queue && x != q ensures x in queue' {
        var k :| 0 <= k < |queue| && queue[k] == x;
        assert x == queue'[k - 1];
      }
    }
  }

  /** Everything recorded is an ancestor of `start`, provided everything seen
      or queued already is. */
  lemma {:induction false} BfsSound(g: Graph, start: Hash, queue: seq<Hash>, seen: seq<Hash>, fuel: nat)
    requires forall x :: x in seen ==> IsAncestor(g, start, x)
    requires forall x :: x in queue ==> IsAncestor(g, start, x)
    ensures Bfs(g, queue, seen, fuel).Ok? ==> forall x :: x in Bfs(g, queue, seen, fuel).value ==> IsAncestor(g, start, x)
    decreases fuel
  {
    if queue != [] && fuel > 0 && queue[0] in g {
      var q := queue[0];
      var queue' := queue[1..] + g[q].parents;
      forall x | x in queue' ensures IsAncestor(g, start, x) {
        var k :| 0 <= k < |queue'| && queue'[k] == x;
        if k < |queue[1..]| {
          assert x == queue[k + 1];
        } else {
          AncestorOfParent(g, start, q, k - |queue[1..]|);
        }
      }
      BfsSound(g, start, queue', seen + [q], fuel - 1);
    }
  }

  // ------------------------------------------------ phase 2: last in, first out

  /** The second loop of `findSplitPoint`: pop the most recently pushed hash;
      the first one recorded by phase 1 is the split point; otherwise push its
      parents. An exhausted stack gives null. */
  function Lifo(g: Graph, branchCommits: seq<Hash>, stack: seq<Hash>, fuel: nat): Result<Option<Hash>>
    decreases fuel
  {
    if stack == [] then Ok(None)
    else
      var top := stack[|stack| - 1];
      if top in branchCommits then Ok(Some(top))
      else if fuel == 0 then Err(OutOfFuel)
      else if top !in g then Err(Crash(MissingFile))
      else Lifo(g, branchCommits, stack[..|stack| - 1] + g[top].parents, fuel - 1)
  }

  /** What the search returns was recorded by phase 1 and is an ancestor of
      `head`, provided everything on the stack is. */
  lemma {:induction false} LifoSound(g: Graph, branchCommits: seq<Hash>, head: Hash, stack: seq<Hash>, fuel: nat)
    requires forall x :: x in stack ==> IsAncestor(g, head, x)
    ensures Lifo(g, branchCommits, stack, fuel).Ok? && Lifo(g, branchCommits, stack, fuel).value.Some? ==>
      Lifo(g, branchCommits, stack, fuel).value.value in branchCommits &&
      IsAncestor(g, head, Lifo(g, branchCommits, stack, fuel).value.value)
    decreases fuel
  {
    if stack != [] {
      var top := stack[|stack| - 1];
      if top !in branchCommits && fuel > 0 && top in g {
        var stack' := stack[..|stack| - 1] + g[top].parents;
        forall x | x in stack' ensures IsAncestor(g, head, x) {
          var k :| 0 <= k < |stack'| && stack'[k] == x;
          if k < |stack| - 1 {
            assert x == stack[k];
          } else {
            AncestorOfParent(g, head, top, k - (|stack| - 1));
          }
        }
        LifoSound(g, branchCommits, head, stack', fuel - 1);
      }
    }
  }

  /** The search never gives null while some recorded hash is an ancestor of a
      hash on the stack: without a visited set it explores every path. */
  lemma {:induction false} LifoFindsCovered(g: Graph, branchCommits: seq<Hash>, stack: seq<Hash>, fuel: nat, x: Hash, j: nat)
    requires x in branchCommits
    requires j < |stack| && IsAncestor(g, stack[j], x)
    ensures Lifo(g, branchCommits, stack, fuel) != Ok(None)
    decreases fuel
  {
    var top := stack[|stack| - 1];
    if top !in branchCommits && fuel > 0 && top in g {
      var stack' := stack[..|stack| - 1] + g[top].parents;
      if j < |stack| - 1 {
        assert stack'[j] == stack[j];
        LifoFindsCovered(g, branchCommits, stack', fuel - 1, x, j);
      } else {
        AncestorThroughParent(g, top, x);
        var i :| 0 <= i < |g[top].parents| && IsAncestor(g, g[top].parents[i], x);
        assert stack'[|stack| - 1 + i] == g[top].parents[i];
        LifoFindsCovered(g, branchCommits, stack', fuel - 1, x, |stack| - 1 + i);
      }
    }
  }

  // ------------------------------------------------ the split point

  /** `findSplitPoint`: the breadth-first ancestor list of the branch head,
      then the last-in-first-out search from the current head. Null (`None`)
      means the two heads share no ancestor. */
  function FindSplitPoint(g: Graph, head: Hash, branchHead: Hash, fuel: nat): (r: Result<Option<Hash>>)
    ensures r.Ok? && r.value.Some? ==>
      r.value.value in g && IsAncestor(g, branchHead, r.value.value) && IsAncestor(g, head, r.value.value)
    ensures r.Ok? && r.value.None? ==> forall x :: !(IsAncestor(g, head, x) && IsAncestor(g, branchHead, x))
    ensures r.Ok? && IsAncestor(g, branchHead, head) ==> r.value == Some(head)
  {
    SplitPointFacts(g, head, branchHead, fuel);
    match Bfs(g, [branchHead], [], fuel)
    case Err(e) => Err(e)
    case Ok(branchCommits) => Lifo(g, branchCommits, [head], fuel)
  }

  lemma SplitPointFacts(g: Graph, head: Hash, branchHead: Hash, fuel: nat)
    ensures Bfs(g, [branchHead], [], fuel).Ok? ==>
      var b := Bfs(g, [branchHead], [], fuel).value;
      var r := Lifo(g, b, [head], fuel);
      && (r.Ok? && r.value.Some? ==>
           r.value.value in g && IsAncestor(g, branchHead, r.value.value) && IsAncestor(g, head, r.value.value))
      && (r.Ok? && r.value.None? ==> forall x :: !(IsAncestor(g, head, x) && IsAncestor(g, branchHead, x)))
      && (IsAncestor(g, branchHead, head) ==> r == Ok(Some(head)))
  {
    IsAncestorOfSelf(g, branchHead);
    IsAncestorOfSelf(g, head);
    BfsClosed(g, [branchHead], [], fuel);
    BfsSound(g, branchHead, [branchHead], [], fuel);
    if Bfs(g, [branchHead], [], fuel).Ok? {
      var b := Bfs(g, [branchHead], [], fuel).value;
      LifoSound(g, b, head, [head], fuel);
      forall x | IsAncestor(g, head, x) && IsAncestor(g, branchHead, x)
        ensures Lifo(g, b, [head], fuel) != Ok(None)
      {
        ClosedContainsAncestors(g, b, branchHead, x);
        LifoFindsCovered(g, b, [head], fuel, x, 0);
      }
      if IsAncestor(g, branchHead, head) {
        ClosedContainsAncestors(g, b, branchHead, head);
      }
    }
  }

  /** Every stored commit's parents are stored. */
  ghost predicate ParentsStored(g: Graph) {
    forall k :: k in g ==> forall i :: 0 <= i < |g[k].parents| ==> g[k].parents[i] in g
  }

  lemma {:induction false} BfsFindsEveryCommit(g: Graph, queue: seq<Hash>, seen: seq<Hash>, fuel: nat)
    requires ParentsStored(g) && forall x :: x in queue ==> x in g
    ensures Bfs(g, queue, seen, fuel).Err? ==> Bfs(g, queue, seen, fuel).error == OutOfFuel
    decreases fuel
  {
    if queue != [] && fuel > 0 {
      var q := queue[0];
      var queue' := queue[1..] + g[q].parents;
      forall x | x in queue' ensures x in g {
        var k :| 0 <= k < |queue'| && queue'[k] == x;
        if k < |queue[1..]| { assert x == queue[k + 1]; } else { assert x == g[q].parents[k - |queue[1..]|]; }
      }
      BfsFindsEveryCommit(g, queue', seen + [q], fuel - 1);
    }
  }

  lemma {:induction false} LifoFindsEveryCommit(g: Graph, branchCommits: seq<Hash>, stack: seq<Hash>, fuel: nat)
    requires ParentsStored(g) && forall x :: x in stack ==> x in g
    ensures Lifo(g, branchCommits, stack, fuel).Err? ==> Lifo(g, branchCommits, stack, fuel).error == OutOfFuel
    decreases fuel
  {
    if stack != [] {
      var top := stack[|stack| - 1];
      if top !in branchCommits && fuel > 0 {
        var stack' := stack[..|stack| - 1] + g[top].parents;
        forall x | x in stack' ensures x in g {
          var k :| 0 <= k < |stack'| && stack'[k] == x;
          if k < |stack| - 1 { assert x == stack[k]; } else { assert x == g[top].parents[k - (|stack| - 1)]; }
        }
        LifoFindsEveryCommit(g, branchCommits, stack', fuel - 1);
      }
    }
  }

  /** When every parent is stored, the search can only run out of fuel:
      reading a commit never fails. */
  lemma SplitPointOnlyRunsOutOfFuel(g: Graph, head: Hash, branchHead: Hash, fuel: nat)
    requires ParentsStored(g) && head in g && branchHead in g
    ensures FindSplitPoint(g, head, branchHead, fuel).Err? ==> FindSplitPoint(g, head, branchHead, fuel).error == OutOfFuel
  {
    BfsFindsEveryCommit(g, [branchHead], [], fuel);
    if Bfs(g, [branchHead], [], fuel).Ok? {
      LifoFindsEveryCommit(g, Bfs(g, [branchHead], [], fuel).value, [head], fuel);
    }
  }

  // ------------------------------------------------ an ancestor hidden by a merge

  /** A history with one ordinary merge: R is the root, A and X each have R
      as parent, and M merges X into A. */
  function MergedHistory(): (g: Graph)
    ensures g.Keys == {"R", "A", "X", "M"}
    ensures g["M"].parents == ["A", "X"] && g["A"].parents == ["R"] && g["X"].parents == ["R"] && g["R"].parents == []
  {
    var c := NewCommit("", 0);
    map["R" := c, "A" := c.(parents := ["R"]), "X" := c.(parents := ["R"]), "M" := c.(parents := ["A", "X"])]
  }

  lemma BfsStep(g: Graph, queue: seq<Hash>, seen: seq<Hash>, fuel: nat)
    requires queue != [] && fuel > 0 && queue[0] in g
    ensures Bfs(g, queue, seen, fuel) == Bfs(g, queue[1..] + g[queue[0]].parents, seen + [queue[0]], fuel - 1)
  {
  }

  lemma LifoStep(g: Graph, branchCommits: seq<Hash>, stack: seq<Hash>, fuel: nat)
    requires stack != [] && stack[|stack| - 1] !in branchCommits && fuel > 0 && stack[|stack| - 1] in g
    ensures Lifo(g, branchCommits, stack, fuel) ==
      Lifo(g, branchCommits, stack[..|stack| - 1] + g[stack[|stack| - 1]].parents, fuel - 1)
  {
  }

  /** After one ordinary merge the search misses a given branch that is an
      ancestor of the head. With the head at M and the given branch at A,
      phase 1 records A and R; phase 2 pops M, pushes A then X, pops X and
      reaches R before A. So `findSplitPoint` answers R, `checkMergeExceptions`
      does not report the ancestor, and `merge` goes on to a three-way merge. */
  lemma AncestorHiddenByMerge()
    ensures IsAncestor(MergedHistory(), "M", "A")
    ensures FindSplitPoint(MergedHistory(), "M", "A", 10) == Ok(Some("R"))
  {
    var g := MergedHistory();
    assert ReachesWithin(g, "A", "A", 0);
    assert ReachesWithin(g, "M", "A", 1) by { assert g["M"].parents[0] == "A"; }
    BfsStep(g, ["A"], [], 10);
    assert ["A"][1..] + g["A"].parents == ["R"] && [] + ["A"] == ["A"];
    BfsStep(g, ["R"], ["A"], 9);
    assert ["R"][1..] + g["R"].parents == [] && ["A"] + ["R"] == ["A", "R"];
    assert Bfs(g, ["A"], [], 10) == Ok(["A", "R"]);
    LifoStep(g, ["A", "R"], ["M"], 10);
    assert ["M"][..0] + g["M"].parents == ["A", "X"];
    LifoStep(g, ["A", "R"], ["A", "X"], 9);
    assert ["A", "X"][..1] + g["X"].parents == ["A", "R"];
    assert Lifo(g, ["A", "R"], ["A", "R"], 8) == Ok(Some("R"));
  }

  /** A completed breadth-first walk from `start` lists exactly the
      ancestors of `start`. */
  lemma BfsListsAncestors(g: Graph, start: Hash, fuel: nat)
    ensures Bfs(g, [start], [], fuel).Ok? ==>
      forall x :: x in Bfs(g, [start], [], fuel).value <==> IsAncestor(g, start, x)
  {
    IsAncestorOfSelf(g, start);
    BfsClosed(g, [start], [], fuel);
    BfsSound(g, start, [start], [], fuel);
    if Bfs(g, [start], [], fuel).Ok? {
      var listed := Bfs(g, [start], [], fuel).value;
      forall x | IsAncestor(g, start, x) ensures x in listed {
        ClosedContainsAncestors(g, listed, start, x);
      }
    }
  }

  /** The merge base the ancestor check evidently wants: the given branch's
      head itself when it is among the head's ancestors, and otherwise the
      answer of `findSplitPoint`. */
  function MergeBase(g: Graph, head: Hash, branchHead: Hash, fuel: nat): (r: Result<Option<Hash>>)
    ensures r.Ok? && r.value.Some? ==>
      r.value.value in g && IsAncestor(g, branchHead, r.value.value) && IsAncestor(g, head, r.value.value)
    ensures r.Ok? && r.value.None? ==> forall x :: !(IsAncestor(g, head, x) && IsAncestor(g, branchHead, x))
    ensures r.Ok? ==> (r.value == Some(branchHead) <==> IsAncestor(g, head, branchHead))
    ensures r.Ok? && IsAncestor(g, branchHead, head) && !IsAncestor(g, head, branchHead) ==> r.value == Some(head)
    ensures r.Ok? && r.value != Some(branchHead) ==> r == FindSplitPoint(g, head, branchHead, fuel)
  {
    BfsListsAncestors(g, head, fuel);
    IsAncestorOfSelf(g, branchHead);
    BfsClosed(g, [head], [], fuel);
    match Bfs(g, [head], [], fuel)
    case Err(e) => Err(e)
    case Ok(headCommits) =>
      if branchHead in headCommits then Ok(Some(branchHead))
      else FindSplitPoint(g, head, branchHead, fuel)
  }

  /** With every parent stored, computing the merge base can only run out of
      fuel. */
  lemma MergeBaseOnlyRunsOutOfFuel(g: Graph, head: Hash, branchHead: Hash, fuel: nat)
    requires ParentsStored(g) && head in g && branchHead in g
    ensures MergeBase(g, head, branchHead, fuel).Err? ==> MergeBase(g, head, branchHead, fuel).error == OutOfFuel
  {
    BfsFindsEveryCommit(g, [head], [], fuel);
    SplitPointOnlyRunsOutOfFuel(g, head, branchHead, fuel);
  }

  /** On the history above the merge base is the given branch's head. */
  lemma MergeBaseFindsHiddenAncestor()
    ensures MergeBase(MergedHistory(), "M", "A", 10) == Ok(Some("A"))
  {
    var g := MergedHistory();
    BfsStep(g, ["M"], [], 10);
    assert ["M"][1..] + g["M"].parents == ["A", "X"] && [] + ["M"] == ["M"];
    BfsStep(g, ["A", "X"], ["M"], 9);
    assert ["A", "X"][1..] + g["A"].parents == ["X", "R"] && ["M"] + ["A"] == ["M", "A"];
    BfsStep(g, ["X", "R"], ["M", "A"], 8);
    assert ["X", "R"][1..] + g["X"].parents == ["R", "R"] && ["M", "A"] + ["X"] == ["M", "A", "X"];
    BfsStep(g, ["R", "R"], ["M", "A", "X"], 7);
    assert ["R", "R"][1..] + g["R"].parents == ["R"] && ["M", "A", "X"] + ["R"] == ["M", "A", "X", "R"];
    BfsStep(g, ["R"], ["M", "A", "X", "R"], 6);
    assert ["R"][1..] + g["R"].parents == [] && ["M", "A", "X", "R"] + ["R"] == ["M", "A", "X", "R", "R"];
    assert Bfs(g, ["M"], [], 10) == Ok(["M", "A", "X", "R", "R"]);
    assert "A" in ["M", "A", "X", "R", "R"];
  }
}
