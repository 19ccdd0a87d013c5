/** The dining philosophers' resource graph and its deadlock detector.

    The graph is a `numProc × numRes` matrix: cell `[p][r]` is 1 when process p
    requests resource r (an arc p → r), -1 when p holds r (an arc r → p), and 0
    otherwise. `deadlockCheck` runs a depth-first search from every unvisited
    process, alternating `processDFS` (follow p's requests) and `resourceDFS`
    (follow r to its holders), and reports a cycle when it meets a process that is
    still on the recursion stack. The C++ `visited` and `recStack` arrays are
    threaded through the search as values; each `for` loop is a function over the
    loop index. */
module DiningPhilosophers {
  import opened Arith

  // ---------------------------------------------------------------------------
  // Chopsticks
  // ---------------------------------------------------------------------------

  /** `left(philNum)`: the stick shared with the next philosopher round the table. */
  function Left(numPhil: nat, philNum: nat): (s: nat)
    requires numPhil > 0
    ensures s < numPhil
  {
    (philNum + 1) % numPhil
  }

  /** `right(philNum)`: the stick with the philosopher's own number. */
  function Right(numPhil: nat, philNum: nat): (s: nat)
    requires philNum < numPhil
    ensures s < numPhil
  {
    philNum
  }

  /** A philosopher's two sticks are distinct when there are at least two, and a
      philosopher's left stick is the next philosopher's right stick, so every
      stick is shared by exactly two neighbours. */
  lemma SticksOfPhilosopher(numPhil: nat, philNum: nat)
    requires philNum < numPhil
    ensures numPhil > 1 ==> Left(numPhil, philNum) != Right(numPhil, philNum)
    ensures Left(numPhil, philNum) == Right(numPhil, (philNum + 1) % numPhil)
  {
    if philNum + 1 < numPhil {
      ModBelow(philNum + 1, numPhil);
    } else {
      ModOnce(philNum + 1, numPhil);
    }
  }

  /** Every stick is the left stick of the philosopher before it. */
  lemma LeftOwner(numPhil: nat, stick: nat)
    requires stick < numPhil
    ensures Left(numPhil, (stick + numPhil - 1) % numPhil) == stick
  {
    if stick == 0 {
      ModBelow(numPhil - 1, numPhil);
      ModOnce(numPhil, numPhil);
    } else {
      ModOnce(stick + numPhil - 1, numPhil);
      ModBelow(stick, numPhil);
    }
  }

  // ---------------------------------------------------------------------------
  // The resource graph
  // ---------------------------------------------------------------------------

  /** `resourceGraph`, with its dimensions. */
  datatype Graph = Graph(numProc: nat, numRes: nat, cells: seq<seq<int>>)
  {
    predicate Valid()
    {
      |cells| == numProc && forall p :: 0 <= p < |cells| ==> |cells[p]| == numRes
    }
  }

  /** The cell values: a request arc, a holding arc, no arc. */
  const Requested: int := 1
  const Acquired: int := -1
  const Free: int := 0

  /** The all-zero graph the program starts from. */
  function Empty(numProc: nat, numRes: nat): (g: Graph)
    ensures g.Valid() && g.numProc == numProc && g.numRes == numRes
    ensures forall p, r :: 0 <= p < numProc && 0 <= r < numRes ==> g.cells[p][r] == Free
  {
    Graph(numProc, numRes, seq(numProc, _ => seq(numRes, _ => Free)))
  }

  /** A node of the bipartite graph. */
  datatype Node = Proc(id: nat) | Res(id: nat)

  /** The arcs: p → r for a request, r → p for a holding. */
  predicate Arc(g: Graph, a: Node, b: Node)
    requires g.Valid()
  {
    match a
    case Proc(p) => b.Res? && p < g.numProc && b.id < g.numRes && g.cells[p][b.id] == Requested
    case Res(r) => b.Proc? && b.id < g.numProc && r < g.numRes && g.cells[b.id][r] == Acquired
  }

  predicate IsPath(g: Graph, path: seq<Node>)
    requires g.Valid()
  {
    |path| >= 1 && forall i :: 0 <= i < |path| - 1 ==> Arc(g, path[i], path[i + 1])
  }

  /** A path of at least one arc that ends where it starts. */
  predicate IsCycle(g: Graph, path: seq<Node>)
    requires g.Valid()
  {
    IsPath(g, path) && |path| >= 2 && path[0] == path[|path| - 1]
  }

  /** The graph has a directed cycle: the deadlock the detector looks for. */
  ghost predicate HasCycle(g: Graph)
    requires g.Valid()
  {
    exists path :: IsCycle(g, path)
  }

  // ---------------------------------------------------------------------------
  // The search
  // ---------------------------------------------------------------------------

  /** The verdict of a search and the `visited` and `recStack` arrays after it. */
  datatype Search = Search(found: bool, visited: seq<bool>, recStack: seq<bool>)

  /** The number of processes not yet visited: the measure of the search. */
  function Unvisited(v: seq<bool>): nat
  {
    if |v| == 0 then 0 else (if v[0] then 0 else 1) + Unvisited(v[1..])
  }

  /** `w` is `v` with possibly more entries set. */
  predicate Grows(v: seq<bool>, w: seq<bool>)
  {
    |w| == |v| && forall i :: 0 <= i < |v| && v[i] ==> w[i]
  }

  lemma {:induction false} GrowsUnvisited(v: seq<bool>, w: seq<bool>)
    requires Grows(v, w)
    ensures Unvisited(w) <= Unvisited(v)
  {
    if |v| > 0 {
      assert Grows(v[1..], w[1..]);
      GrowsUnvisited(v[1..], w[1..]);
    }
  }

  lemma {:induction false} MarkUnvisited(v: seq<bool>, i: nat)
    requires i < |v| && !v[i]
    ensures Unvisited(v[i := true]) == Unvisited(v) - 1
  {
    if i > 0 {
      assert v[i := true][1..] == v[1..][i - 1 := true];
      MarkUnvisited(v[1..], i - 1);
    } else {
      assert v[i := true][1..] == v[1..];
    }
  }

  /** The arrays match the graph's process count. */
  predicate Sized(g: Graph, visited: seq<bool>, recStack: seq<bool>)
  {
    |visited| == g.numProc && |recStack| == g.numProc
  }

  /** `processDFS(proc, visited, recStack)`. */
  function ProcessDFS(g: Graph, proc: nat, visited: seq<bool>, recStack: seq<bool>): (r: Search)
    requires g.Valid() && Sized(g, visited, recStack) && proc < g.numProc
    ensures Sized(g, r.visited, r.recStack) && Grows(visited, r.visited)
    ensures !r.found ==> r.recStack == recStack && r.visited[proc]
    ensures recStack[proc] ==> r == Search(true, visited, recStack)
    ensures !recStack[proc] && visited[proc] ==> r == Search(false, visited, recStack)
    decreases Unvisited(visited), 0, 0
  {
    if recStack[proc] then Search(true, visited, recStack)
    else if visited[proc] then Search(false, visited, recStack)
    else
      MarkUnvisited(visited, proc);
      var r := ResourceEdges(g, proc, 0, visited[proc := true], recStack[proc := true]);
      if r.found then r
      else Search(false, r.visited, r.recStack[proc := false])
  }

  /** The loop of `processDFS` from resource `res` on: search every resource proc
      requests. */
  function ResourceEdges(g: Graph, proc: nat, res: nat, visited: seq<bool>, recStack: seq<bool>): (r: Search)
    requires g.Valid() && Sized(g, visited, recStack) && proc < g.numProc && res <= g.numRes
    ensures Sized(g, r.visited, r.recStack) && Grows(visited, r.visited)
    ensures !r.found ==> r.recStack == recStack
    decreases Unvisited(visited), 3, g.numRes - res
  {
    if res == g.numRes then Search(false, visited, recStack)
    else if g.cells[proc][res] == Requested then
      var r := ResourceDFS(g, res, visited, recStack);
      if r.found then r
      else
        GrowsUnvisited(visited, r.visited);
        ResourceEdges(g, proc, res + 1, r.visited, r.recStack)
    else ResourceEdges(g, proc, res + 1, visited, recStack)
  }

  /** `resourceDFS(res, visited, recStack)`. */
  function ResourceDFS(g: Graph, res: nat, visited: seq<bool>, recStack: seq<bool>): (r: Search)
    requires g.Valid() && Sized(g, visited, recStack) && res < g.numRes
    ensures Sized(g, r.visited, r.recStack) && Grows(visited, r.visited)
    ensures !r.found ==> r.recStack == recStack
    decreases Unvisited(visited), 2, 0
  {
    ProcessEdges(g, res, 0, visited, recStack)
  }

  /** The loop of `resourceDFS` from process `proc` on: search every holder of res. */
  function ProcessEdges(g: Graph, res: nat, proc: nat, visited: seq<bool>, recStack: seq<bool>): (r: Search)
    requires g.Valid() && Sized(g, visited, recStack) && res < g.numRes && proc <= g.numProc
    ensures Sized(g, r.visited, r.recStack) && Grows(visited, r.visited)
    ensures !r.found ==> r.recStack == recStack
    decreases Unvisited(visited), 1, g.numProc - proc
  {
    if proc == g.numProc then Search(false, visited, recStack)
    else if g.cells[proc][res] == Acquired then
      var r := ProcessDFS(g, proc, visited, recStack);
      if r.found then r
      else
        GrowsUnvisited(visited, r.visited);
        ProcessEdges(g, res, proc + 1, r.visited, r.recStack)
    else ProcessEdges(g, res, proc + 1, visited, recStack)
  }

  /** The loop of `deadlockCheck` from process `proc` on. */
  function CheckFrom(g: Graph, proc: nat, visited: seq<bool>, recStack: seq<bool>): bool
    requires g.Valid() && Sized(g, visited, recStack) && proc <= g.numProc
    decreases g.numProc - proc
  {
    if proc == g.numProc then false
    else if !visited[proc] then
      var r := ProcessDFS(g, proc, visited, recStack);
      r.found || CheckFrom(g, proc + 1, r.visited, r.recStack)
    else CheckFrom(g, proc + 1, visited, recStack)
  }

  function NoneSet(n: nat): (v: seq<bool>)
    ensures |v| == n && forall i :: 0 <= i < n ==> !v[i]
  {
    seq(n, _ => false)
  }

  /** `deadlockCheck()`: 1 when a search finds a cycle, else 0. */
  function DeadlockCheck(g: Graph): (r: int)
    requires g.Valid()
    ensures r == 0 || r == 1
  {
    if CheckFrom(g, 0, NoneSet(g.numProc), NoneSet(g.numProc)) then 1 else 0
  }

  // ---------------------------------------------------------------------------
  // Soundness: a reported cycle exists
  // ---------------------------------------------------------------------------

  ghost predicate ReachPlus(g: Graph, a: Node, b: Node)
    requires g.Valid()
  {
    exists path :: IsPath(g, path) && |path| >= 2 && path[0] == a && path[|path| - 1] == b
  }

  /** Every process on the recursion stack reaches `target` by at least one arc. */
  ghost predicate StackReaches(g: Graph, recStack: seq<bool>, target: Node)
    requires g.Valid()
  {
    forall x :: 0 <= x < |recStack| && recStack[x] ==> ReachPlus(g, Proc(x), target)
  }

  /** Every process on the recursion stack is `proc` or reaches it. */
  ghost predicate StackReachesOrIs(g: Graph, recStack: seq<bool>, proc: nat)
    requires g.Valid()
  {
    forall x :: 0 <= x < |recStack| && recStack[x] ==> x == proc || ReachPlus(g, Proc(x), Proc(proc))
  }

  /** Appending a node the path's end has an arc to gives a path. */
  lemma ExtendPath(g: Graph, path: seq<Node>, c: Node)
    requires g.Valid() && IsPath(g, path)
    ensures Arc(g, path[|path| - 1], c) ==> IsPath(g, path + [c])
    ensures (path + [c])[0] == path[0] && (path + [c])[|path|] == c
  {
    var q := path + [c];
    if Arc(g, path[|path| - 1], c) {
      forall i | 0 <= i < |q| - 1 ensures Arc(g, q[i], q[i + 1]) {
        if i < |path| - 1 { assert q[i] == path[i] && q[i + 1] == path[i + 1]; }
      }
    }
  }

  /** Reaching a and taking the arc a → c reaches c. */
  lemma ReachArc(g: Graph, x: Node, a: Node, c: Node)
    requires g.Valid() && (x == a || ReachPlus(g, x, a)) && Arc(g, a, c)
    ensures ReachPlus(g, x, c)
  {
    if x == a {
      assert IsPath(g, [a, c]);
    } else {
      var path :| IsPath(g, path) && |path| >= 2 && path[0] == x && path[|path| - 1] == a;
      ExtendPath(g, path, c);
    }
  }

  lemma {:induction false} ProcessDFSSound(g: Graph, proc: nat, visited: seq<bool>, recStack: seq<bool>)
    requires g.Valid() && Sized(g, visited, recStack) && proc < g.numProc
    requires StackReaches(g, recStack, Proc(proc))
    ensures ProcessDFS(g, proc, visited, recStack).found ==> HasCycle(g)
    decreases Unvisited(visited), 0, 0
  {
    if recStack[proc] {
      var path :| IsPath(g, path) && |path| >= 2 && path[0] == Proc(proc) && path[|path| - 1] == Proc(proc);
      assert IsCycle(g, path);
    } else if !visited[proc] {
      MarkUnvisited(visited, proc);
      var rs := recStack[proc := true];
      assert StackReachesOrIs(g, rs, proc);
      ResourceEdgesSound(g, proc, 0, visited[proc := true], rs);
    }
  }

  lemma {:induction false} ResourceEdgesSound(g: Graph, proc: nat, res: nat, visited: seq<bool>, recStack: seq<bool>)
    requires g.Valid() && Sized(g, visited, recStack) && proc < g.numProc && res <= g.numRes
    requires StackReachesOrIs(g, recStack, proc)
    ensures ResourceEdges(g, proc, res, visited, recStack).found ==> HasCycle(g)
    decreases Unvisited(visited), 3, g.numRes - res
  {
    if res < g.numRes {
      if g.cells[proc][res] == Requested {
        forall x | 0 <= x < |recStack| && recStack[x] ensures ReachPlus(g, Proc(x), Res(res)) {
          ReachArc(g, Proc(x), Proc(proc), Res(res));
        }
        ResourceDFSSound(g, res, visited, recStack);
        var r := ResourceDFS(g, res, visited, recStack);
        if !r.found {
          GrowsUnvisited(visited, r.visited);
          ResourceEdgesSound(g, proc, res + 1, r.visited, r.recStack);
        }
      } else {
        ResourceEdgesSound(g, proc, res + 1, visited, recStack);
      }
    }
  }

  lemma {:induction false} ResourceDFSSound(g: Graph, res: nat, visited: seq<bool>, recStack: seq<bool>)
    requires g.Valid() && Sized(g, visited, recStack) && res < g.numRes
    requires StackReaches(g, recStack, Res(res))
    ensures ResourceDFS(g, res, visited, recStack).found ==> HasCycle(g)
    decreases Unvisited(visited), 2, 0
  {
    ProcessEdgesSound(g, res, 0, visited, recStack);
  }

  lemma {:induction false} ProcessEdgesSound(g: Graph, res: nat, proc: nat, visited: seq<bool>, recStack: seq<bool>)
    requires g.Valid() && Sized(g, visited, recStack) && res < g.numRes && proc <= g.numProc
    requires StackReaches(g, recStack, Res(res))
    ensures ProcessEdges(g, res, proc, visited, recStack).found ==> HasCycle(g)
    decreases Unvisited(visited), 1, g.numProc - proc
  {
    if proc < g.numProc {
      if g.cells[proc][res] == Acquired {
        forall x | 0 <= x < |recStack| && recStack[x] ensures ReachPlus(g, Proc(x), Proc(proc)) {
          ReachArc(g, Proc(x), Res(res), Proc(proc));
        }
        ProcessDFSSound(g, proc, visited, recStack);
        var r := ProcessDFS(g, proc, visited, recStack);
        if !r.found {
          GrowsUnvisited(visited, r.visited);
          ProcessEdgesSound(g, res, proc + 1, r.visited, r.recStack);
        }
      } else {
        ProcessEdgesSound(g, res, proc + 1, visited, recStack);
      }
    }
  }

  lemma {:induction false} CheckFromSound(g: Graph, proc: nat, visited: seq<bool>, recStack: seq<bool>)
    requires g.Valid() && Sized(g, visited, recStack) && proc <= g.numProc
    requires forall x :: 0 <= x < |recStack| ==> !recStack[x]
    ensures CheckFrom(g, proc, visited, recStack) ==> HasCycle(g)
    decreases g.numProc - proc
  {
    if proc < g.numProc {
      if !visited[proc] {
        ProcessDFSSound(g, proc, visited, recStack);
        var r := ProcessDFS(g, proc, visited, recStack);
        if !r.found { CheckFromSound(g, proc + 1, r.visited, r.recStack); }
      } else {
        CheckFromSound(g, proc + 1, visited, recStack);
      }
    }
  }

  // ---------------------------------------------------------------------------
  // Completeness: a search that finds nothing leaves no cycle behind
  // ---------------------------------------------------------------------------

  /** Visited and off the stack: the search from p has finished. */
  predicate Done(visited: seq<bool>, recStack: seq<bool>, p: nat)
    requires p < |visited| && p < |recStack|
  {
    visited[p] && !recStack[p]
  }

  /** Every process a finished process waits for (through a resource) has
      finished too. */
  ghost predicate Closed(g: Graph, visited: seq<bool>, recStack: seq<bool>)
    requires g.Valid() && Sized(g, visited, recStack)
  {
    forall p, r, q :: 0 <= p < g.numProc && 0 <= r < g.numRes && 0 <= q < g.numProc ==>
      (g.cells[p][r] == Requested && g.cells[q][r] == Acquired && Done(visited, recStack, p) ==>
         Done(visited, recStack, q))
  }

  /** No cycle passes through p. */
  ghost predicate NoCycleThrough(g: Graph, p: nat)
    requires g.Valid()
  {
    forall path :: IsPath(g, path) && |path| >= 2 && path[0] == Proc(p) ==> path[|path| - 1] != Proc(p)
  }

  /** The search invariant: the stack is visited, finished processes are closed
      under waiting, and no cycle passes through a finished process. */
  ghost predicate Colouring(g: Graph, visited: seq<bool>, recStack: seq<bool>)
    requires g.Valid()
  {
    && Sized(g, visited, recStack)
    && (forall p :: 0 <= p < g.numProc && recStack[p] ==> visited[p])
    && Closed(g, visited, recStack)
    && (forall p :: 0 <= p < g.numProc && Done(visited, recStack, p) ==> NoCycleThrough(g, p))
  }

  /** In a closed colouring, every process on a path from a finished process has
      finished. */
  lemma {:induction false} ClosedReach(g: Graph, visited: seq<bool>, recStack: seq<bool>, path: seq<Node>)
    requires g.Valid() && Sized(g, visited, recStack) && Closed(g, visited, recStack)
    requires IsPath(g, path) && path[0].Proc? && path[0].id < g.numProc && Done(visited, recStack, path[0].id)
    ensures forall i :: 0 <= i < |path| && path[i].Proc? ==> path[i].id < g.numProc && Done(visited, recStack, path[i].id)
    ensures forall i :: 0 < i < |path| && path[i].Res? ==> path[i - 1].Proc? && Done(visited, recStack, path[i - 1].id)
    decreases |path|
  {
    if |path| > 1 {
      var prefix := path[..|path| - 1];
      assert IsPath(g, prefix) by {
        forall i | 0 <= i < |prefix| - 1 ensures Arc(g, prefix[i], prefix[i + 1]) {
          assert Arc(g, path[i], path[i + 1]);
        }
      }
      ClosedReach(g, visited, recStack, prefix);
      var k := |path| - 1;
      assert Arc(g, path[k - 1], path[k]);
      if path[k].Proc? {
        assert path[k - 1].Res? && k - 1 > 0;
        assert Arc(g, path[k - 2], path[k - 1]);
      }
    }
  }

  /** A search that ends with every process finished leaves the graph acyclic. */
  lemma AllDoneAcyclic(g: Graph, visited: seq<bool>, recStack: seq<bool>)
    requires g.Valid() && Colouring(g, visited, recStack)
    requires forall p :: 0 <= p < g.numProc ==> Done(visited, recStack, p)
    ensures !HasCycle(g)
  {
    forall path: seq<Node> | IsPath(g, path) && |path| >= 2 ensures path[0] != path[|path| - 1] {
      assert Arc(g, path[0], path[1]);
      if path[0].Proc? {
        assert Done(visited, recStack, path[0].id) && NoCycleThrough(g, path[0].id);
      } else {
        // A cycle through a resource passes through the process it leads to.
        var q := path[1].id;
        assert Done(visited, recStack, q) && NoCycleThrough(g, q);
        var tail := path[1..];
        assert IsPath(g, tail) by {
          forall i | 0 <= i < |tail| - 1 ensures Arc(g, tail[i], tail[i + 1]) {
            assert Arc(g, path[i + 1], path[i + 2]);
          }
        }
        ExtendPath(g, tail, path[1]);
        var c := tail + [path[1]];
        assert |c| >= 2 && c[0] == Proc(q) && c[|c| - 1] == Proc(q);
        assert tail[|tail| - 1] == path[|path| - 1];
      }
    }
  }

  /** Finishing proc after all it waits for has finished keeps the colouring. */
  lemma FinishProcess(g: Graph, proc: nat, visited: seq<bool>, recStack: seq<bool>)
    requires g.Valid() && Colouring(g, visited, recStack) && proc < g.numProc
    requires visited[proc] && recStack[proc] && HoldersDone(g, proc, g.numRes, visited, recStack)
    ensures Colouring(g, visited, recStack[proc := false])
    ensures Done(visited, recStack[proc := false], proc)
  {
    var rs := recStack[proc := false];
    forall path | IsPath(g, path) && |path| >= 2 && path[0] == Proc(proc)
      ensures path[|path| - 1] != Proc(proc)
    {
      assert Arc(g, path[0], path[1]);
      if |path| > 2 {
        assert Arc(g, path[1], path[2]);
        var tail := path[2..];
        assert IsPath(g, tail) by {
          forall i | 0 <= i < |tail| - 1 ensures Arc(g, tail[i], tail[i + 1]) {
            assert Arc(g, path[i + 2], path[i + 3]);
          }
        }
        ClosedReach(g, visited, recStack, tail);
        assert tail[|tail| - 1] == path[|path| - 1];
      }
    }
  }

  lemma {:induction false} ProcessDFSComplete(g: Graph, proc: nat, visited: seq<bool>, recStack: seq<bool>)
    requires g.Valid() && Colouring(g, visited, recStack) && proc < g.numProc
    ensures var r := ProcessDFS(g, proc, visited, recStack);
      !r.found ==> Colouring(g, r.visited, r.recStack) && Done(r.visited, r.recStack, proc)
    decreases Unvisited(visited), 0, 0
  {
    if !recStack[proc] && !visited[proc] {
      MarkUnvisited(visited, proc);
      var v, rs := visited[proc := true], recStack[proc := true];
      ResourceEdgesComplete(g, proc, 0, v, rs);
      var r := ResourceEdges(g, proc, 0, v, rs);
      if !r.found {
        FinishProcess(g, proc, r.visited, r.recStack);
        assert rs[proc := false] == recStack;
      }
    }
  }

  /** Every holder of every resource in [0, res) that proc requests has finished. */
  predicate HoldersDone(g: Graph, proc: nat, res: nat, visited: seq<bool>, recStack: seq<bool>)
    requires g.Valid() && Sized(g, visited, recStack) && proc < g.numProc && res <= g.numRes
  {
    forall r, q :: 0 <= r < res && 0 <= q < g.numProc ==>
      (g.cells[proc][r] == Requested && g.cells[q][r] == Acquired ==> Done(visited, recStack, q))
  }

  /** Searching a requested resource finishes its holders, and growing `visited`
      keeps the earlier holders finished. */
  lemma HoldersExtend(g: Graph, proc: nat, res: nat, visited: seq<bool>, recStack: seq<bool>, visited': seq<bool>)
    requires g.Valid() && Sized(g, visited, recStack) && proc < g.numProc && res < g.numRes
    requires Grows(visited, visited') && HoldersDone(g, proc, res, visited, recStack)
    requires forall q :: 0 <= q < g.numProc && g.cells[q][res] == Acquired ==> Done(visited', recStack, q)
    ensures HoldersDone(g, proc, res + 1, visited', recStack)
  {
    forall r, q | 0 <= r < res + 1 && 0 <= q < g.numProc
      ensures g.cells[proc][r] == Requested && g.cells[q][r] == Acquired ==> Done(visited', recStack, q)
    {
      if r < res && g.cells[proc][r] == Requested && g.cells[q][r] == Acquired {
        assert Done(visited, recStack, q);
      }
    }
  }

  /** A resource proc does not request adds no holders to wait for. */
  lemma HoldersSkip(g: Graph, proc: nat, res: nat, visited: seq<bool>, recStack: seq<bool>)
    requires g.Valid() && Sized(g, visited, recStack) && proc < g.numProc && res < g.numRes
    requires HoldersDone(g, proc, res, visited, recStack) && g.cells[proc][res] != Requested
    ensures HoldersDone(g, proc, res + 1, visited, recStack)
  {
  }

  lemma {:induction false} ResourceEdgesComplete(g: Graph, proc: nat, res: nat, visited: seq<bool>, recStack: seq<bool>)
    requires g.Valid() && Colouring(g, visited, recStack) && proc < g.numProc && res <= g.numRes
    requires visited[proc] && recStack[proc]
    requires HoldersDone(g, proc, res, visited, recStack)
    ensures var s := ResourceEdges(g, proc, res, visited, recStack);
      !s.found ==> Colouring(g, s.visited, s.recStack) && HoldersDone(g, proc, g.numRes, s.visited, s.recStack)
    decreases Unvisited(visited), 3, g.numRes - res
  {
    if res < g.numRes {
      if g.cells[proc][res] == Requested {
        ResourceDFSComplete(g, res, visited, recStack);
        var s := ResourceDFS(g, res, visited, recStack);
        if !s.found {
          assert s.recStack == recStack && Grows(visited, s.visited);
          HoldersExtend(g, proc, res, visited, recStack, s.visited);
          GrowsUnvisited(visited, s.visited);
          ResourceEdgesComplete(g, proc, res + 1, s.visited, s.recStack);
          assert ResourceEdges(g, proc, res, visited, recStack) == ResourceEdges(g, proc, res + 1, s.visited, s.recStack);
        }
      } else {
        HoldersSkip(g, proc, res, visited, recStack);
        ResourceEdgesComplete(g, proc, res + 1, visited, recStack);
      }
    }
  }

  lemma {:induction false} ResourceDFSComplete(g: Graph, res: nat, visited: seq<bool>, recStack: seq<bool>)
    requires g.Valid() && Colouring(g, visited, recStack) && res < g.numRes
    ensures var s := ResourceDFS(g, res, visited, recStack);
      !s.found ==>
        && Colouring(g, s.visited, s.recStack)
        && forall q :: 0 <= q < g.numProc && g.cells[q][res] == Acquired ==> Done(s.visited, s.recStack, q)
    decreases Unvisited(visited), 2, 0
  {
    ProcessEdgesComplete(g, res, 0, visited, recStack);
  }

  lemma {:induction false} ProcessEdgesComplete(g: Graph, res: nat, proc: nat, visited: seq<bool>, recStack: seq<bool>)
    requires g.Valid() && Colouring(g, visited, recStack) && res < g.numRes && proc <= g.numProc
    requires forall q :: 0 <= q < proc && g.cells[q][res] == Acquired ==> Done(visited, recStack, q)
    ensures var s := ProcessEdges(g, res, proc, visited, recStack);
      !s.found ==>
        && Colouring(g, s.visited, s.recStack)
        && forall q :: 0 <= q < g.numProc && g.cells[q][res] == Acquired ==> Done(s.visited, s.recStack, q)
    decreases Unvisited(visited), 1, g.numProc - proc
  {
    if proc < g.numProc {
      if g.cells[proc][res] == Acquired {
        ProcessDFSComplete(g, proc, visited, recStack);
        var s := ProcessDFS(g, proc, visited, recStack);
        if !s.found {
          GrowsUnvisited(visited, s.visited);
          ProcessEdgesComplete(g, res, proc + 1, s.visited, s.recStack);
        }
      } else {
        ProcessEdgesComplete(g, res, proc + 1, visited, recStack);
      }
    }
  }

  lemma {:induction false} CheckFromComplete(g: Graph, proc: nat, visited: seq<bool>, recStack: seq<bool>)
    requires g.Valid() && Colouring(g, visited, recStack) && proc <= g.numProc
    requires forall x :: 0 <= x < g.numProc ==> !recStack[x]
    requires forall x :: 0 <= x < proc ==> visited[x]
    ensures !CheckFrom(g, proc, visited, recStack) ==> !HasCycle(g)
    decreases g.numProc - proc
  {
    if proc == g.numProc {
      AllDoneAcyclic(g, visited, recStack);
    } else if !visited[proc] {
      ProcessDFSComplete(g, proc, visited, recStack);
      var r := ProcessDFS(g, proc, visited, recStack);
      if !r.found { CheckFromComplete(g, proc + 1, r.visited, r.recStack); }
    } else {
      CheckFromComplete(g, proc + 1, visited, recStack);
    }
  }

  /** `deadlockCheck` returns 1 exactly when the resource graph has a cycle. */
  lemma DeadlockCheckCorrect(g: Graph)
    requires g.Valid()
    ensures DeadlockCheck(g) == 1 <==> HasCycle(g)
  {
    var none := NoneSet(g.numProc);
    CheckFromSound(g, 0, none, none);
    CheckFromComplete(g, 0, none, none);
  }

  /** A path of two or more nodes starts with an arc. */
  lemma FirstArc(g: Graph, path: seq<Node>)
    requires g.Valid() && IsPath(g, path)
    ensures |path| >= 2 ==> Arc(g, path[0], path[1])
  {
  }

  /** With no requests and no holdings there is nothing to report. */
  lemma EmptyGraphNoDeadlock(numProc: nat, numRes: nat)
    ensures DeadlockCheck(Empty(numProc, numRes)) == 0
  {
    var g := Empty(numProc, numRes);
    assert forall a, b :: !Arc(g, a, b);
    forall path: seq<Node> | IsPath(g, path) ensures |path| == 1 {
      FirstArc(g, path);
    }
    assert !HasCycle(g);
    DeadlockCheckCorrect(g);
  }

  // ---------------------------------------------------------------------------
  // Every philosopher holding the left stick and requesting the right one
  // ---------------------------------------------------------------------------

  /** The graph when each philosopher p has acquired `left(p)` and requested
      `right(p)`, with one process and one resource per philosopher. */
  function AllHoldLeft(numPhil: nat): (g: Graph)
    requires numPhil > 0
    ensures g.Valid() && g.numProc == numPhil && g.numRes == numPhil
  {
    Graph(numPhil, numPhil, seq(numPhil, p requires 0 <= p < numPhil =>
      seq(numPhil, r requires 0 <= r < numPhil =>
        if r == Right(numPhil, p) then Requested else if r == Left(numPhil, p) then Acquired else Free)))
  }

  /** The philosopher visited k steps round the table backwards from 0. */
  function Back(numPhil: nat, k: nat): (p: nat)
    requires 0 < numPhil && k <= numPhil
    ensures p < numPhil
  {
    if k == 0 || k == numPhil then 0 else numPhil - k
  }

  /** The cells of that graph. */
  lemma AllHoldLeftCell(numPhil: nat, p: nat, r: nat)
    requires 0 <= p < numPhil && 0 <= r < numPhil
    ensures AllHoldLeft(numPhil).cells[p][r]
      == if r == Right(numPhil, p) then Requested else if r == Left(numPhil, p) then Acquired else Free
  {
  }

  /** Philosopher `Back(k)` requests stick `Back(k)`, its right stick. */
  lemma RequestArc(numPhil: nat, k: nat)
    requires numPhil >= 2 && k <= numPhil
    ensures Arc(AllHoldLeft(numPhil), Proc(Back(numPhil, k)), Res(Back(numPhil, k)))
  {
    var p := Back(numPhil, k);
    AllHoldLeftCell(numPhil, p, p);
  }

  /** Stick `Back(k)` is held by the philosopher one further back, as its left
      stick. */
  lemma HoldArc(numPhil: nat, k: nat)
    requires numPhil >= 2 && k < numPhil
    ensures Arc(AllHoldLeft(numPhil), Res(Back(numPhil, k)), Proc(Back(numPhil, k + 1)))
  {
    var n := numPhil;
    var p := Back(n, k + 1);
    var r := Back(n, k);
    if k == 0 {
      assert p == n - 1 && r == 0;
      ModOnce(n, n);
    } else if k + 1 == n {
      assert p == 0 && r == 1;
      ModBelow(1, n);
    } else {
      assert p == n - k - 1 && r == n - k;
      ModBelow(n - k, n);
    }
    assert Left(n, p) == r && Right(n, p) != r;
    AllHoldLeftCell(n, p, r);
  }

  /** With two or more philosophers that state is a deadlock: philosopher p waits
      for stick p, which philosopher p - 1 holds, and so on round the table. */
  lemma AllHoldLeftDeadlock(numPhil: nat)
    requires numPhil >= 2
    ensures HasCycle(AllHoldLeft(numPhil))
    ensures DeadlockCheck(AllHoldLeft(numPhil)) == 1
  {
    var n := numPhil;
    var g := AllHoldLeft(n);
    var path := seq(2 * n + 1, j requires 0 <= j < 2 * n + 1 =>
      if j % 2 == 0 then Proc(Back(n, j / 2)) else Res(Back(n, j / 2)));
    forall i | 0 <= i < |path| - 1 ensures Arc(g, path[i], path[i + 1]) {
      var k := i / 2;
      if i % 2 == 0 {
        assert path[i] == Proc(Back(n, k)) && path[i + 1] == Res(Back(n, k));
        RequestArc(n, k);
      } else {
        assert path[i] == Res(Back(n, k)) && path[i + 1] == Proc(Back(n, k + 1));
        HoldArc(n, k);
      }
    }
    assert IsCycle(g, path);
    DeadlockCheckCorrect(g);
  }

  // ---------------------------------------------------------------------------
  // The graph updates of rgAcquire and rgRelease
  // ---------------------------------------------------------------------------

  /** `resourceGraph[proc][res] = value`. */
  function SetCell(g: Graph, proc: nat, res: nat, value: int): (g': Graph)
    requires g.Valid() && proc < g.numProc && res < g.numRes
    ensures g'.Valid() && g'.numProc == g.numProc && g'.numRes == g.numRes
    ensures g'.cells[proc][res] == value
    ensures forall p, r :: 0 <= p < g.numProc && 0 <= r < g.numRes && (p != proc || r != res) ==>
      g'.cells[p][r] == g.cells[p][r]
  {
    g.(cells := g.cells[proc := g.cells[proc][res := value]])
  }

  /** `rgAcquire(proc, res, sem)` without the semaphore: record the request, run the
      deadlock check on the graph with the request (reporting whether it found
      one), then record the holding once the semaphore is granted. */
  function RgAcquire(g: Graph, proc: nat, res: nat): (r: (Graph, bool))
    requires g.Valid() && proc < g.numProc && res < g.numRes
    ensures r.1 <==> HasCycle(SetCell(g, proc, res, Requested))
    ensures r.0.Valid() && r.0.numProc == g.numProc && r.0.numRes == g.numRes
    ensures r.0.cells[proc][res] == Acquired
    ensures forall p, q :: 0 <= p < g.numProc && 0 <= q < g.numRes && (p != proc || q != res) ==>
      r.0.cells[p][q] == g.cells[p][q]
  {
    var requested := SetCell(g, proc, res, Requested);
    DeadlockCheckCorrect(requested);
    (SetCell(requested, proc, res, Acquired), DeadlockCheck(requested) == 1)
  }

  /** `rgRelease(proc, res, sem)` without the semaphore: clear the cell. */
  function RgRelease(g: Graph, proc: nat, res: nat): (g': Graph)
    requires g.Valid() && proc < g.numProc && res < g.numRes
    ensures g'.Valid() && g'.numProc == g.numProc && g'.numRes == g.numRes
    ensures g'.cells[proc][res] == Free
    ensures forall p, q :: 0 <= p < g.numProc && 0 <= q < g.numRes && (p != proc || q != res) ==>
      g'.cells[p][q] == g.cells[p][q]
  {
    SetCell(g, proc, res, Free)
  }

  /** Acquiring a free resource and releasing it restores the graph. */
  lemma ReleaseUndoesAcquire(g: Graph, proc: nat, res: nat)
    requires g.Valid() && proc < g.numProc && res < g.numRes && g.cells[proc][res] == Free
    ensures RgRelease(RgAcquire(g, proc, res).0, proc, res) == g
  {
    var g' := RgRelease(RgAcquire(g, proc, res).0, proc, res);
    assert forall p :: 0 <= p < g.numProc ==> g'.cells[p] == g.cells[p];
  }
}
