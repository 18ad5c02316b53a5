/**
 * A node of the search tree: one board, its costs g, h and f = g + h, the
 * blank's index found by the heuristic scan, and the link to the state it was
 * reached from. A State never changes after construction, so its fields are
 * constants. The key that identifies a state (its code) is the board itself.
 */
module States {
  import opened Puzzle

  /**
   * What the heuristic scan leaves in spaceIndex after the first k cells: the
   * index of the last blank seen, or 0 (the field's initial value) if none.
   */
  ghost predicate BlankScanned(b: seq<int>, k: nat, spaceIndex: int)
    requires k <= |b|
  {
    if Blank in b[..k] then
      0 <= spaceIndex < k && b[spaceIndex] == Blank && forall j :: spaceIndex < j < k ==> b[j] != Blank
    else
      spaceIndex == 0
  }

  /** On a well-formed board the scan finds the one blank. */
  lemma BlankScannedFindsBlank(b: seq<int>, spaceIndex: int)
    requires WellFormed(b) && BlankScanned(b, |b|, spaceIndex)
    ensures 0 <= spaceIndex < |b| && b[spaceIndex] == Blank
  {
    assert b[..|b|] == b;
  }

  /** The misplaced-tiles scan: counts misplaced cells and records the blank's index. */
  method GetMisplacedTilesCost(nodes: array<int>) returns (cost: nat, spaceIndex: int)
    ensures cost == MisplacedTilesCost(nodes[..])
    ensures BlankScanned(nodes[..], nodes.Length, spaceIndex)
  {
    cost, spaceIndex := 0, 0;
    for i := 0 to nodes.Length
      invariant cost == MisplacedUpTo(nodes[..], i)
      invariant BlankScanned(nodes[..], i, spaceIndex)
    {
      assert nodes[..][..i + 1] == nodes[..][..i] + [nodes[i]];
      var value := nodes[i] - 1;
      if value == -2 {
        value := nodes.Length - 1;
        spaceIndex := i;
      }
      if value != i {
        cost := cost + 1;
      }
    }
  }

  /** The Manhattan-distance scan: sums the distances of misplaced cells and records the blank's index. */
  method GetManhattanDistanceCost(nodes: array<int>) returns (cost: nat, spaceIndex: int)
    requires InRange(nodes[..])
    ensures cost == ManhattanDistanceCost(nodes[..])
    ensures BlankScanned(nodes[..], nodes.Length, spaceIndex)
  {
    cost, spaceIndex := 0, 0;
    var gridX := GridSide(nodes.Length);
    for i := 0 to nodes.Length
      invariant cost == ManhattanUpTo(nodes[..], i)
      invariant BlankScanned(nodes[..], i, spaceIndex)
    {
      assert nodes[..][..i + 1] == nodes[..][..i] + [nodes[i]];
      var value := nodes[i] - 1;
      if value == -2 {
        value := nodes.Length - 1;
        spaceIndex := i;
      }
      if value != i {
        var idealX := value % gridX;
        var idealY := value / gridX;
        var currentX := i % gridX;
        var currentY := i / gridX;
        cost := cost + (Abs(idealY - currentY) + Abs(idealX - currentX));
      }
    }
  }

  /** Dispatches to the scan of the selected heuristic. */
  method GetHeuristicCost(nodes: array<int>, heuristic: HeuristicMethod) returns (cost: nat, spaceIndex: int)
    requires InRange(nodes[..])
    ensures cost == HeuristicCost(heuristic, nodes[..])
    ensures BlankScanned(nodes[..], nodes.Length, spaceIndex)
  {
    if heuristic == ManhattanDistance {
      cost, spaceIndex := GetManhattanDistanceCost(nodes);
    } else {
      cost, spaceIndex := GetMisplacedTilesCost(nodes);
    }
  }

  /** The costs of a state on the given board reached from parent (null for the root). */
  method CalculateCost(parent: State?, nodes: array<int>, heuristic: HeuristicMethod)
    returns (g: nat, h: nat, f: nat, spaceIndex: int)
    requires InRange(nodes[..])
    ensures g == if parent == null then 0 else parent.CostG + 1
    ensures h == HeuristicCost(heuristic, nodes[..])
    ensures f == g + h
    ensures BlankScanned(nodes[..], nodes.Length, spaceIndex)
  {
    if parent == null {
      g := 0;
    } else {
      g := parent.CostG + 1;
    }
    h, spaceIndex := GetHeuristicCost(nodes, heuristic);
    f := h + g;
  }

  /** Exchanges two cells of a board in place. */
  method Swap(nodes: array<int>, i: int, j: int)
    requires 0 <= i < nodes.Length && 0 <= j < nodes.Length
    modifies nodes
    ensures nodes[..] == Swapped(old(nodes[..]), i, j)
  {
    var t := nodes[i];
    nodes[i] := nodes[j];
    nodes[j] := t;
  }

  class State {
    const Nodes: seq<int>
    const SpaceIndex: int
    const CostG: nat
    const CostH: nat
    const CostF: nat
    const Heuristic: HeuristicMethod
    const Parent: State?

    /**
     * The parent links end at a root, and g counts them: 0 at a root, one more
     * than the parent's below it.
     */
    ghost predicate Chained()
      decreases CostG
    {
      if Parent == null then CostG == 0 else CostG == Parent.CostG + 1 && Parent.Chained()
    }

    /**
     * A consistent state: a well-formed board with the blank at SpaceIndex,
     * h the selected heuristic of the board, f = g + h, g counting the links to
     * a root, and below a root the board one blank move away from the parent's
     * and the parent consistent too.
     */
    ghost predicate Valid()
      decreases CostG
    {
      && WellFormed(Nodes)
      && 0 <= SpaceIndex < |Nodes| && Nodes[SpaceIndex] == Blank
      && CostH == HeuristicCost(Heuristic, Nodes)
      && CostF == CostG + CostH
      && Chained()
      && (Parent != null ==>
            && Parent.Valid()
            && Nodes in SuccessorBoards(Parent.Nodes, Parent.SpaceIndex))
    }

    /** The public constructor: a root when parent is null. */
    constructor (parent: State?, nodes: array<int>, heuristic: HeuristicMethod)
      requires WellFormed(nodes[..])
      ensures Nodes == nodes[..] && Parent == parent && Heuristic == heuristic
      ensures CostG == if parent == null then 0 else parent.CostG + 1
      ensures parent == null ==> Valid()
      ensures (parent != null && parent.Valid() &&
               nodes[..] in SuccessorBoards(parent.Nodes, parent.SpaceIndex)) ==> Valid()
    {
      var g, h, f, spaceIndex := CalculateCost(parent, nodes, heuristic);
      BlankScannedFindsBlank(nodes[..], spaceIndex);
      Nodes := nodes[..];
      Parent := parent;
      Heuristic := heuristic;
      CostG, CostH, CostF, SpaceIndex := g, h, f, spaceIndex;
    }

    /** The constructor for a successor: the heuristic is inherited from the parent. */
    constructor Derived(parent: State, nodes: array<int>)
      requires WellFormed(nodes[..])
      ensures Nodes == nodes[..] && Parent == parent && Heuristic == parent.Heuristic
      ensures CostG == parent.CostG + 1
      ensures (parent.Valid() &&
               nodes[..] in SuccessorBoards(parent.Nodes, parent.SpaceIndex)) ==> Valid()
    {
      var g, h, f, spaceIndex := CalculateCost(parent, nodes, parent.Heuristic);
      BlankScannedFindsBlank(nodes[..], spaceIndex);
      Nodes := nodes[..];
      Parent := parent;
      Heuristic := parent.Heuristic;
      CostG, CostH, CostF, SpaceIndex := g, h, f, spaceIndex;
    }

    /** The key used for equality, hashing and the open/closed bookkeeping. */
    function GetStateCode(): seq<int> {
      Nodes
    }

    /** Two states are equal when their keys are, whatever their parents and costs. */
    predicate Equals(that: State)
      ensures Equals(that) <==> Nodes == that.Nodes
    {
      GetStateCode() == that.GetStateCode()
    }

    /** Orders states by f, as the priority queue compares them. */
    function CompareTo(that: State): (r: int)
      ensures r < 0 <==> CostF < that.CostF
      ensures r == 0 <==> CostF == that.CostF
      ensures r > 0 <==> CostF > that.CostF
    {
      if CostF < that.CostF then -1 else if CostF == that.CostF then 0 else 1
    }

    /** Duplicate resolution compares path costs g only, strictly. */
    predicate IsCostlierThan(that: State) {
      CostG > that.CostG
    }

    predicate IsFinalState() {
      CostH == 0
    }

    /** A copy of the board. */
    method GetState() returns (state: array<int>)
      ensures fresh(state) && state[..] == Nodes
    {
      state := new int[|Nodes|](k requires 0 <= k < |Nodes| => Nodes[k]);
    }

    /** This state's parent is p, a consistent state, and its board is one blank move from p's. */
    ghost predicate Follows(p: State) {
      Parent == p && p.Valid() && Nodes in SuccessorBoards(p.Nodes, p.SpaceIndex)
    }

    /** s is a consistent successor of this state: one step further, same heuristic. */
    ghost predicate IsChild(s: State) {
      s.Parent == this && s.Heuristic == Heuristic && s.CostG == CostG + 1 && s.Valid()
    }

    /** The successor reached by moving the blank in the given direction, or null when that leaves the grid. */
    method GetNextState(direction: Direction) returns (next: State?)
      requires Valid()
      ensures MoveBoard(Nodes, SpaceIndex, direction) == if next == null then [] else [next.Nodes]
      ensures next != null ==> fresh(next) && IsChild(next)
    {
      var (ok, position) := CanMove(direction, SpaceIndex, |Nodes|);
      if ok {
        var nodes := new int[|Nodes|](k requires 0 <= k < |Nodes| => Nodes[k]);
        assert nodes[..] == Nodes;
        Swap(nodes, SpaceIndex, position);
        SwapKeepsWellFormed(Nodes, SpaceIndex, position);
        MoveIsSuccessor(Nodes, SpaceIndex, direction);
        assert nodes[..] in SuccessorBoards(Nodes, SpaceIndex);
        next := new State.Derived(this, nodes);
      } else {
        next := null;
      }
    }

    /** One successor per legal move, in the order Up, Down, Left, Right. */
    method GetNextStates() returns (nextStates: seq<State>)
      requires Valid()
      ensures BoardsOf(nextStates) == SuccessorBoards(Nodes, SpaceIndex)
      ensures forall s :: s in nextStates ==> fresh(s) && IsChild(s)
    {
      nextStates := [];
      for d := 0 to |Directions|
        invariant BoardsOf(nextStates) == SuccessorsUpTo(Nodes, SpaceIndex, d)
        invariant forall s :: s in nextStates ==> fresh(s) && IsChild(s)
      {
        nextStates := AddNextState(nextStates, d);
      }
    }

    /** One round of GetNextStates' loop: found, extended by the successor for Directions[d] if there is one. */
    method AddNextState(found: seq<State>, d: nat) returns (nextStates: seq<State>)
      requires Valid() && d < |Directions|
      requires forall s :: s in found ==> IsChild(s)
      ensures BoardsOf(nextStates) == BoardsOf(found) + MoveBoard(Nodes, SpaceIndex, Directions[d])
      ensures forall s :: s in nextStates ==> (s in found || fresh(s)) && IsChild(s)
    {
      var state := GetNextState(Directions[d]);
      nextStates := found;
      if state != null {
        BoardsOfAppend(found, state);
        nextStates := nextStates + [state];
      }
    }
  }

  /** The boards of a sequence of states, in order. */
  ghost function BoardsOf(ss: seq<State>): (r: seq<seq<int>>)
    ensures |r| == |ss|
  {
    if ss == [] then [] else BoardsOf(ss[..|ss| - 1]) + [ss[|ss| - 1].Nodes]
  }

  /** The k-th board is the k-th state's board. */
  lemma {:induction false} BoardsOfIndex(ss: seq<State>)
    ensures forall k :: 0 <= k < |ss| ==> BoardsOf(ss)[k] == ss[k].Nodes
  {
    if ss != [] {
      BoardsOfIndex(ss[..|ss| - 1]);
    }
  }

  lemma BoardsOfAppend(ss: seq<State>, s: State)
    ensures BoardsOf(ss + [s]) == BoardsOf(ss) + [s.Nodes]
  {
    assert (ss + [s])[..|ss|] == ss;
  }

  /** The states from the root to s, following parent links. */
  ghost function PathTo(s: State): (p: seq<State>)
    requires s.Chained()
    ensures |p| == s.CostG + 1 && p[|p| - 1] == s
    decreases s.CostG
  {
    if s.Parent == null then [s] else PathTo(s.Parent) + [s]
  }

  /**
   * The path to a consistent state starts at a root, the k-th state has g = k,
   * and each state is one blank move from the one before it, which is its parent.
   */
  lemma {:induction false} PathToIsChain(s: State)
    requires s.Valid()
    ensures PathTo(s)[0].Parent == null
    ensures forall k :: 0 <= k < |PathTo(s)| ==> PathTo(s)[k].Valid() && PathTo(s)[k].CostG == k
    ensures forall k :: 0 <= k < |PathTo(s)| - 1 ==> PathTo(s)[k + 1].Follows(PathTo(s)[k])
    decreases s.CostG
  {
    if s.Parent != null {
      PathToIsChain(s.Parent);
      var p := PathTo(s.Parent);
      assert PathTo(s) == p + [s];
      assert s.Follows(p[|p| - 1]);
    }
  }

  /** Under either heuristic a consistent state is final exactly when its board is solved. */
  lemma FinalStateIffSolved(s: State)
    requires s.Valid()
    ensures s.IsFinalState() <==> s.Nodes == Solved(|s.Nodes|)
  {
    HeuristicZeroIffSolved(s.Heuristic, s.Nodes);
  }
}
