/**
 * The A* search over puzzle states: an open list (the priority queue plus the
 * set of keys it holds), a closed dictionary from keys to expanded states, and
 * the walk back along parent links that turns a final state into a path.
 */
module AStar {
  import opened Puzzle
  import opened States
  import opened PriorityQueue

  /**
   * What Run returns: the path from the start state to a final state, or no
   * solution when the open list runs empty. OutOfFuel stands for a search cut
   * short by the bound on the number of expansions.
   */
  datatype Outcome = Found(path: seq<State>) | NoSolution | OutOfFuel

  /** The keys (boards) of the queued states. */
  ghost function Keys(c: seq<State?>): set<seq<int>> {
    set s | s in c && s != null :: s.Nodes
  }

  /** A state the search may hold: consistent, under the chosen heuristic, and descended from root. */
  ghost predicate Reached(s: State?, root: State, heuristic: HeuristicMethod) {
    s != null && s.Valid() && s.Heuristic == heuristic && PathTo(s)[0] == root && |s.Nodes| == |root.Nodes|
  }

  ghost predicate AllReached(c: seq<State?>, root: State, heuristic: HeuristicMethod) {
    forall s :: s in c ==> Reached(s, root, heuristic)
  }

  /** No two queued entries share a key: each queued state occurs once, and no other queued state has its board. */
  ghost predicate UniqueKeys(c: seq<State?>) {
    && (forall s :: s in c ==> multiset(c)[s] == 1)
    && (forall s, t :: s in c && t in c && s != null && t != null && s.Nodes == t.Nodes ==> s == t)
  }

  /**
   * Adding x to the queue adds its key, keeps every queued state reached, and
   * keeps the keys unique when x's key was not queued yet.
   */
  lemma QueueAdd(c: seq<State?>, c2: seq<State?>, x: State, root: State, heuristic: HeuristicMethod)
    requires multiset(c2) == multiset(c) + multiset{x}
    ensures Keys(c2) == Keys(c) + {x.Nodes}
    ensures AllReached(c, root, heuristic) && Reached(x, root, heuristic) ==> AllReached(c2, root, heuristic)
    ensures UniqueKeys(c) && x.Nodes !in Keys(c) ==> UniqueKeys(c2)
  {
    forall s | s in c2 ensures s in c || s == x {
      assert s in multiset(c2);
    }
    forall s | s in c ensures s in c2 {
      assert s in multiset(c);
      assert s in multiset(c2);
    }
    assert x in multiset(c2);
    if UniqueKeys(c) && x.Nodes !in Keys(c) {
      assert x !in c;
      forall s | s in c2 ensures multiset(c2)[s] == 1 {
        if s != x {
          assert s in c;
        }
      }
    }
  }

  /**
   * Taking x out of the queue keeps every other key (other states may share
   * x's key) and keeps every remaining state reached; when the keys are
   * unique they stay unique, and exactly x's key goes.
   */
  lemma QueueRemove(c: seq<State?>, c2: seq<State?>, x: State, root: State, heuristic: HeuristicMethod)
    requires multiset(c2) == multiset(c) - multiset{x}
    ensures Keys(c) - {x.Nodes} <= Keys(c2) <= Keys(c)
    ensures AllReached(c, root, heuristic) ==> AllReached(c2, root, heuristic)
    ensures UniqueKeys(c) && x in c ==> UniqueKeys(c2) && Keys(c2) == Keys(c) - {x.Nodes}
  {
    forall s | s in c2 ensures s in c {
      assert s in multiset(c2);
    }
    forall s | s in c && s != x ensures s in c2 {
      assert s in multiset(c);
      assert s in multiset(c2);
    }
    if UniqueKeys(c) && x in c {
      forall s | s in c2 ensures s != x && multiset(c2)[s] == 1 {
        assert s in multiset(c2);
      }
    }
  }

  /** A child of a state reached from root is reached from root too. */
  lemma ChildReached(p: State, s: State, root: State, heuristic: HeuristicMethod)
    requires Reached(p, root, heuristic) && p.IsChild(s)
    ensures Reached(s, root, heuristic) && s.Nodes != p.Nodes
  {
    assert PathTo(s) == PathTo(p) + [s];
    SuccessorBoardsWellFormed(p.Nodes, p.SpaceIndex, |Directions|);
  }

  /**
   * The path returned for a final state: the states from the root down to
   * state, root first, as the stack the walk along parent links builds.
   */
  method GetFinalPath(state: State) returns (path: seq<State>)
    requires state.Valid()
    ensures path == PathTo(state)
  {
    var s: State? := state;
    path := [];
    while s != null
      invariant s != null ==> s.Chained() && PathTo(s) + path == PathTo(state)
      invariant s == null ==> path == PathTo(state)
      decreases if s == null then 0 else s.CostG + 1
    {
      var t: State := s;
      assert PathTo(t) == if t.Parent == null then [t] else PathTo(t.Parent) + [t];
      path := [t] + path;
      s := t.Parent;
    }
  }

  /**
   * The open list: the queue holds states reached from root, no two with the
   * same key, and openStates is exactly the set of their keys. Heap order is not
   * part of it: removing a replaced open state can break it.
   */
  ghost predicate OpenList(queue: MinPriorityQueue, openStates: set<seq<int>>, root: State, heuristic: HeuristicMethod)
    reads queue, queue.mArray
  {
    && queue.Valid()
    && AllReached(queue.Contents(), root, heuristic)
    && UniqueKeys(queue.Contents())
    && openStates == Keys(queue.Contents())
  }

  /** The closed dictionary maps each key to a state with that board. */
  ghost predicate ClosedKeyed(closed: map<seq<int>, State>) {
    forall k :: k in closed ==> closed[k].Nodes == k
  }

  /**
   * Duplicate resolution never raises a path cost: every state in after whose
   * key was already queued in before stands for a state of that key in before
   * that is at least as costly in g.
   */
  ghost predicate NoneRaised(before: seq<State?>, after: seq<State?>) {
    forall x :: x in after && x != null && x.Nodes in Keys(before) ==>
      exists y :: y in before && y != null && y.Nodes == x.Nodes && !x.IsCostlierThan(y)
  }

  /**
   * Replacing a queued duplicate only when it is costlier raises no g, and
   * leaves nextState's key held by a state no costlier than nextState.
   */
  lemma ReplaceRaisesNone(before: seq<State?>, after: seq<State?>, o: State, nextState: State,
                          closed: map<seq<int>, State>)
    requires o in before && o.Nodes == nextState.Nodes
    requires if o.IsCostlierThan(nextState)
      then multiset(after) == multiset(before) - multiset{o} + multiset{nextState}
      else after == before
    ensures NoneRaised(before, after)
    ensures Held(after, closed, nextState.Nodes, nextState.CostG)
  {
    if o.IsCostlierThan(nextState) {
      assert nextState in multiset(after);
    } else {
      assert o in after;
    }
    forall x | x in after && x != null && x.Nodes in Keys(before)
      ensures exists y :: y in before && y != null && y.Nodes == x.Nodes && !x.IsCostlierThan(y)
    {
      if x !in before {
        assert x in multiset(after);
        assert x == nextState && o.IsCostlierThan(nextState);
      }
    }
  }

  /** Taking a state out of the queue raises no g. */
  lemma TakeRaisesNone(before: seq<State?>, after: seq<State?>, x: State)
    requires multiset(after) == multiset(before) - multiset{x}
    ensures NoneRaised(before, after)
  {
    forall y | y in after && y != null && y.Nodes in Keys(before)
      ensures exists z :: z in before && z != null && z.Nodes == y.Nodes && !y.IsCostlierThan(z)
    {
      assert y in multiset(after);
      assert y in before;
    }
  }

  /** Queuing a state of a key not queued before raises no g, and holds that key by the state itself. */
  lemma AddRaisesNone(before: seq<State?>, after: seq<State?>, nextState: State, closed: map<seq<int>, State>)
    requires nextState.Nodes !in Keys(before) && multiset(after) == multiset(before) + multiset{nextState}
    ensures NoneRaised(before, after)
    ensures Held(after, closed, nextState.Nodes, nextState.CostG)
  {
    assert nextState in multiset(after);
    forall x | x in after && x != null && x.Nodes in Keys(before)
      ensures exists y :: y in before && y != null && y.Nodes == x.Nodes && !x.IsCostlierThan(y)
    {
      assert x in multiset(after);
      assert x in before;
    }
  }

  /**
   * Key k is held by a state with g at most g: a queued state with that key,
   * or the closed entry under it.
   */
  ghost predicate Held(c: seq<State?>, closed: map<seq<int>, State>, k: seq<int>, g: int) {
    (exists q :: q in c && q != null && q.Nodes == k && q.CostG <= g) || (k in closed && closed[k].CostG <= g)
  }

  /**
   * A key stays held across a step that drops no queued key, raises no queued g
   * and raises no closed g.
   */
  lemma HeldKept(c1: seq<State?>, c2: seq<State?>, closed1: map<seq<int>, State>, closed2: map<seq<int>, State>,
                 k: seq<int>, g: int)
    requires Held(c1, closed1, k, g) && UniqueKeys(c1)
    requires NoneRaised(c1, c2) && Keys(c1) <= Keys(c2)
    requires closed1.Keys <= closed2.Keys && forall k :: k in closed1 ==> !closed2[k].IsCostlierThan(closed1[k])
    ensures Held(c2, closed2, k, g)
  {
    if q :| q in c1 && q != null && q.Nodes == k && q.CostG <= g {
      assert k in Keys(c2);
      var x :| x in c2 && x != null && x.Nodes == k;
      var y :| y in c1 && y != null && y.Nodes == x.Nodes && !x.IsCostlierThan(y);
      assert y == q;
    }
  }

  /**
   * What the three cases of ProcessSuccessor have in common: the open keys only
   * grow, by the successor's key at most; the closed keys stay; the successor's
   * key ends up open or closed; and a closed state is only ever replaced by the
   * successor when it is costlier.
   */
  lemma OutcomeOfSuccessor(openStates: set<seq<int>>, closed: map<seq<int>, State>, nextState: State,
                           newOpen: set<seq<int>>, newClosed: map<seq<int>, State>)
    requires nextState.Nodes in openStates ==> newOpen == openStates && newClosed == closed
    requires nextState.Nodes !in openStates && nextState.Nodes in closed ==>
      && newOpen == openStates
      && newClosed == if closed[nextState.Nodes].IsCostlierThan(nextState)
                      then closed[nextState.Nodes := nextState] else closed
    requires nextState.Nodes !in openStates && nextState.Nodes !in closed ==>
      newOpen == openStates + {nextState.Nodes} && newClosed == closed
    ensures openStates <= newOpen <= openStates + {nextState.Nodes} && newClosed.Keys == closed.Keys
    ensures nextState.Nodes in newOpen || nextState.Nodes in newClosed
    ensures openStates !! closed.Keys ==> newOpen !! newClosed.Keys
    ensures newClosed == closed ||
      (nextState.Nodes in closed && closed[nextState.Nodes].IsCostlierThan(nextState) &&
       newClosed == closed[nextState.Nodes := nextState])
    ensures forall k :: k in closed ==> !newClosed[k].IsCostlierThan(closed[k])
  {
  }

  /**
   * One successor of the expanded state. Its key already open: the open state
   * with that key is replaced by nextState when its g is strictly larger.
   * Otherwise its key already closed: the closed entry is replaced under the same
   * condition, and nextState is not opened. Otherwise nextState is opened.
   */
  method ProcessSuccessor(queue: MinPriorityQueue, openStates: set<seq<int>>, closed: map<seq<int>, State>,
                          nextState: State, ghost root: State, ghost heuristic: HeuristicMethod)
    returns (newOpen: set<seq<int>>, newClosed: map<seq<int>, State>)
    requires OpenList(queue, openStates, root, heuristic) && ClosedKeyed(closed)
    requires Reached(nextState, root, heuristic)
    modifies queue, queue.mArray
    ensures OpenList(queue, newOpen, root, heuristic) && ClosedKeyed(newClosed)
    ensures queue.mArray == old(queue.mArray) || fresh(queue.mArray)
    ensures openStates <= newOpen <= openStates + {nextState.Nodes} && newClosed.Keys == closed.Keys
    ensures nextState.Nodes in newOpen || nextState.Nodes in newClosed
    ensures openStates !! closed.Keys ==> newOpen !! newClosed.Keys
    ensures newClosed == closed ||
      (nextState.Nodes in closed && closed[nextState.Nodes].IsCostlierThan(nextState) &&
       newClosed == closed[nextState.Nodes := nextState])
    ensures forall k :: k in closed ==> !newClosed[k].IsCostlierThan(closed[k])
    ensures NoneRaised(old(queue.Contents()), queue.Contents())
    ensures Held(queue.Contents(), newClosed, nextState.Nodes, nextState.CostG)
    ensures nextState.Nodes in openStates ==>
      && newOpen == openStates && newClosed == closed
      && exists o :: o in old(queue.Contents()) && o != null && o.Nodes == nextState.Nodes &&
           if o.IsCostlierThan(nextState)
           then multiset(queue.Contents()) == old(multiset(queue.Contents())) - multiset{o} + multiset{nextState}
           else multiset(queue.Contents()) == old(multiset(queue.Contents()))
    ensures nextState.Nodes !in openStates && nextState.Nodes in closed ==>
      && newOpen == openStates && queue.Contents() == old(queue.Contents())
      && newClosed == if closed[nextState.Nodes].IsCostlierThan(nextState)
                      then closed[nextState.Nodes := nextState] else closed
    ensures nextState.Nodes !in openStates && nextState.Nodes !in closed ==>
      && newOpen == openStates + {nextState.Nodes} && newClosed == closed
      && multiset(queue.Contents()) == old(multiset(queue.Contents())) + multiset{nextState}
  {
    newOpen, newClosed := openStates, closed;
    var closedState: State? := null;
    var openState: State? := null;

    ghost var before := queue.Contents();
    if nextState.GetStateCode() in openStates {
      openState := UpdateOpen(queue, openStates, nextState, root, heuristic);
      ReplaceRaisesNone(before, queue.Contents(), openState, nextState, newClosed);
    } else {
      var stateCode := nextState.GetStateCode();
      if stateCode in newClosed {
        closedState := newClosed[stateCode];
        if closedState.IsCostlierThan(nextState) {
          newClosed := newClosed - {stateCode};
          newClosed := newClosed[stateCode := nextState];
        }
      }
    }

    if openState == null && closedState == null {
      newOpen := OpenNew(queue, newOpen, nextState, root, heuristic);
      AddRaisesNone(before, queue.Contents(), nextState, newClosed);
    }
    OutcomeOfSuccessor(openStates, closed, nextState, newOpen, newClosed);
  }

  /**
   * The open-key case of ProcessSuccessor: finds the queued state with
   * nextState's key and replaces it by nextState when its g is strictly larger.
   */
  method UpdateOpen(queue: MinPriorityQueue, openStates: set<seq<int>>, nextState: State,
                    ghost root: State, ghost heuristic: HeuristicMethod)
    returns (openState: State)
    requires OpenList(queue, openStates, root, heuristic) && Reached(nextState, root, heuristic)
    requires nextState.Nodes in openStates
    modifies queue, queue.mArray
    ensures OpenList(queue, openStates, root, heuristic)
    ensures queue.mArray == old(queue.mArray) || fresh(queue.mArray)
    ensures openState in old(queue.Contents()) && openState.Nodes == nextState.Nodes
    ensures if openState.IsCostlierThan(nextState)
      then multiset(queue.Contents()) == old(multiset(queue.Contents())) - multiset{openState} + multiset{nextState}
      else queue.Contents() == old(queue.Contents())
  {
    var found, openStateIndex := queue.Find(nextState);
    openState := found;
    if openState.IsCostlierThan(nextState) {
      ReplaceOpen(queue, openStates, openStateIndex, nextState, root, heuristic);
    }
  }

  /** Replaces the queued state at slot index by nextState, which has the same key. */
  method ReplaceOpen(queue: MinPriorityQueue, openStates: set<seq<int>>, index: int, nextState: State,
                     ghost root: State, ghost heuristic: HeuristicMethod)
    requires OpenList(queue, openStates, root, heuristic) && Reached(nextState, root, heuristic)
    requires 1 <= index <= queue.mCount && queue.mArray[index].Nodes == nextState.Nodes
    modifies queue, queue.mArray
    ensures OpenList(queue, openStates, root, heuristic)
    ensures queue.mArray == old(queue.mArray) || fresh(queue.mArray)
    ensures multiset(queue.Contents()) ==
      old(multiset(queue.Contents())) - multiset{old(queue.mArray[index])} + multiset{nextState}
  {
    ghost var o := queue.mArray[index];
    assert o == queue.Contents()[index - 1];
    assert nextState.Nodes in openStates;
    ghost var between := DropOpen(queue, index, root, heuristic);
    queue.Enqueue(nextState);
    QueueAdd(between, queue.Contents(), nextState, root, heuristic);
  }

  /**
   * Takes the queued state at slot index out of the queue: its key leaves the
   * queued keys, and the rest stay reached from root with unique keys.
   */
  method DropOpen(queue: MinPriorityQueue, index: int, ghost root: State, ghost heuristic: HeuristicMethod)
    returns (ghost between: seq<State?>)
    requires queue.Valid() && AllReached(queue.Contents(), root, heuristic) && UniqueKeys(queue.Contents())
    requires 1 <= index <= queue.mCount
    modifies queue, queue.mArray
    ensures queue.Valid() && queue.mArray == old(queue.mArray) && between == queue.Contents()
    ensures AllReached(between, root, heuristic) && UniqueKeys(between)
    ensures Keys(between) == old(Keys(queue.Contents())) - {old(queue.mArray[index]).Nodes}
    ensures multiset(between) == old(multiset(queue.Contents())) - multiset{old(queue.mArray[index])}
  {
    ghost var before := queue.Contents();
    ghost var o := queue.mArray[index];
    assert o == before[index - 1];
    queue.Remove(index);
    between := queue.Contents();
    QueueRemove(before, between, o, root, heuristic);
  }

  /** Opens nextState, whose key is not open yet: queues it and adds its key. */
  method OpenNew(queue: MinPriorityQueue, openStates: set<seq<int>>, nextState: State,
                 ghost root: State, ghost heuristic: HeuristicMethod)
    returns (newOpen: set<seq<int>>)
    requires OpenList(queue, openStates, root, heuristic) && Reached(nextState, root, heuristic)
    requires nextState.Nodes !in openStates
    modifies queue, queue.mArray
    ensures OpenList(queue, newOpen, root, heuristic) && newOpen == openStates + {nextState.Nodes}
    ensures queue.mArray == old(queue.mArray) || fresh(queue.mArray)
    ensures multiset(queue.Contents()) == old(multiset(queue.Contents())) + multiset{nextState}
  {
    ghost var before := queue.Contents();
    queue.Enqueue(nextState);
    QueueAdd(before, queue.Contents(), nextState, root, heuristic);
    newOpen := openStates + {nextState.GetStateCode()};
  }

  /**
   * Takes the next state off the open list: the queue's first state, which is
   * one of least f when the heap is in order, and drops its key from the open keys.
   */
  method TakeOpen(queue: MinPriorityQueue, openStates: set<seq<int>>, ghost root: State, ghost heuristic: HeuristicMethod)
    returns (currentState: State, newOpen: set<seq<int>>)
    requires OpenList(queue, openStates, root, heuristic) && !queue.IsEmpty()
    modifies queue, queue.mArray
    ensures OpenList(queue, newOpen, root, heuristic) && queue.mArray == old(queue.mArray)
    ensures Reached(currentState, root, heuristic) && currentState == old(queue.Contents())[0]
    ensures multiset(queue.Contents()) == old(multiset(queue.Contents())) - multiset{currentState}
    ensures currentState.Nodes in openStates && newOpen == openStates - {currentState.Nodes}
    ensures old(queue.HeapOrdered()) ==> Least(currentState, old(queue.Contents()))
  {
    ghost var c := queue.Contents();
    assert c[0] == queue.mArray[1];
    var state := queue.Dequeue();
    currentState := state;
    QueueRemove(c, queue.Contents(), currentState, root, heuristic);
    newOpen := openStates - {currentState.GetStateCode()};
  }

  /**
   * How the closed dictionary may change while currentState's successors are
   * processed: no key is lost, no key but currentState's is added, and an entry
   * is either kept or replaced by a child of currentState with strictly smaller g.
   */
  ghost predicate ClosedLowered(closed: map<seq<int>, State>, newClosed: map<seq<int>, State>, currentState: State) {
    && closed.Keys <= newClosed.Keys
    && forall k :: k in newClosed && k != currentState.Nodes ==>
      && k in closed
      && (newClosed[k] == closed[k] || (currentState.IsChild(newClosed[k]) && closed[k].IsCostlierThan(newClosed[k])))
  }

  /** Replacing a closed entry by a child of currentState with strictly smaller g keeps ClosedLowered. */
  lemma LowerClosed(closed: map<seq<int>, State>, mid: map<seq<int>, State>, next: map<seq<int>, State>,
                    currentState: State, nextState: State)
    requires ClosedLowered(closed, mid, currentState) && currentState.IsChild(nextState)
    requires next == mid ||
      (nextState.Nodes in mid && mid[nextState.Nodes].IsCostlierThan(nextState) && next == mid[nextState.Nodes := nextState])
    ensures ClosedLowered(closed, next, currentState)
  {
  }

  /**
   * What expanding currentState does to the keys:
   * - every successor board ends up open or closed;
   * - open keys are kept, and every new one is a successor board;
   * - the closed keys gain exactly currentState's key, which maps to currentState;
   * - every other closed state stays or is replaced by a child of currentState
   *   that it is costlier than (ClosedLowered);
   * - open and closed keys stay apart when they were apart and currentState's
   *   key was not open.
   */
  ghost predicate Expansion(openStates: set<seq<int>>, closed: map<seq<int>, State>, currentState: State,
                            newOpen: set<seq<int>>, newClosed: map<seq<int>, State>)
    requires currentState.Valid()
  {
    && (forall b :: b in SuccessorBoards(currentState.Nodes, currentState.SpaceIndex) ==> b in newOpen || b in newClosed)
    && openStates <= newOpen
    && (forall k :: k in newOpen ==> k in openStates || k in SuccessorBoards(currentState.Nodes, currentState.SpaceIndex))
    && currentState.Nodes in newClosed && newClosed[currentState.Nodes] == currentState
    && newClosed.Keys == closed.Keys + {currentState.Nodes}
    && ClosedLowered(closed, newClosed, currentState)
    && (openStates !! closed.Keys && currentState.Nodes !in openStates ==> newOpen !! newClosed.Keys)
  }

  /**
   * The keys after the successor loop and the closing of the expanded state:
   * every successor board is open or closed, only successor boards were
   * opened, the closed keys gain exactly the expanded key, other closed
   * states are only lowered, and open and closed keys stay apart.
   */
  lemma ClosingExpanded(openStates: set<seq<int>>, closed: map<seq<int>, State>, currentState: State,
                        nextStates: seq<State>, newOpen: set<seq<int>>, mid: map<seq<int>, State>)
    requires currentState.Valid()
    requires BoardsOf(nextStates) == SuccessorBoards(currentState.Nodes, currentState.SpaceIndex)
    requires Covered(nextStates, |nextStates|, newOpen, mid)
    requires OpenedOnly(openStates, nextStates, |nextStates|, newOpen)
    requires Progressed(openStates, closed, currentState, newOpen, mid)
    ensures Expansion(openStates, closed, currentState, newOpen, mid[currentState.Nodes := currentState])
  {
    SuccessorsCovered(newOpen, mid, currentState, nextStates);
    SuccessorsBound(openStates, newOpen, currentState, nextStates);
    CloseKeepsLowered(closed, mid, currentState);
  }

  /**
   * Every successor board of currentState is held by a state with g at most
   * currentState's g + 1, the g of any of its successors: a cheaper successor
   * displaced what was stored under its key.
   */
  ghost predicate SuccessorsHeld(c: seq<State?>, closed: map<seq<int>, State>, currentState: State)
    requires currentState.Valid()
  {
    forall b :: b in SuccessorBoards(currentState.Nodes, currentState.SpaceIndex) ==>
      Held(c, closed, b, currentState.CostG + 1)
  }

  /** Closing currentState after the successor loop leaves every successor board held. */
  lemma ClosingHeld(c: seq<State?>, mid: map<seq<int>, State>, currentState: State, nextStates: seq<State>)
    requires currentState.Valid()
    requires BoardsOf(nextStates) == SuccessorBoards(currentState.Nodes, currentState.SpaceIndex)
    requires forall s :: s in nextStates ==> currentState.IsChild(s)
    requires HeldUpTo(nextStates, |nextStates|, c, mid)
    ensures SuccessorsHeld(c, mid[currentState.Nodes := currentState], currentState)
  {
    SuccessorBoardsHeld(c, mid, currentState, nextStates);
    NotOwnSuccessor(currentState);
    forall b | b in SuccessorBoards(currentState.Nodes, currentState.SpaceIndex)
      ensures Held(c, mid[currentState.Nodes := currentState], b, currentState.CostG + 1)
    {
      HeldElsewhere(c, mid, b, currentState.CostG + 1, currentState.Nodes, currentState);
    }
  }

  /** When every processed successor is held, so is every successor board, at g + 1. */
  lemma SuccessorBoardsHeld(c: seq<State?>, mid: map<seq<int>, State>, currentState: State, nextStates: seq<State>)
    requires currentState.Valid()
    requires BoardsOf(nextStates) == SuccessorBoards(currentState.Nodes, currentState.SpaceIndex)
    requires forall s :: s in nextStates ==> currentState.IsChild(s)
    requires HeldUpTo(nextStates, |nextStates|, c, mid)
    ensures SuccessorsHeld(c, mid, currentState)
  {
    BoardsOfIndex(nextStates);
    forall b | b in SuccessorBoards(currentState.Nodes, currentState.SpaceIndex)
      ensures Held(c, mid, b, currentState.CostG + 1)
    {
      var j :| 0 <= j < |nextStates| && BoardsOf(nextStates)[j] == b;
      assert nextStates[j] in nextStates;
    }
  }

  /** A state's board is not among its own successor boards. */
  lemma NotOwnSuccessor(s: State)
    requires s.Valid()
    ensures s.Nodes !in SuccessorBoards(s.Nodes, s.SpaceIndex)
  {
    SuccessorBoardsWellFormed(s.Nodes, s.SpaceIndex, |Directions|);
  }

  /** Storing a state under another key leaves a held key held. */
  lemma HeldElsewhere(c: seq<State?>, closed: map<seq<int>, State>, k: seq<int>, g: int, key: seq<int>, v: State)
    requires Held(c, closed, k, g) && k != key
    ensures Held(c, closed[key := v], k, g)
  {
  }

  /**
   * The branch taken when there are successors: each is processed in order,
   * and then the expanded state is closed under its own key.
   */
  method ExpandSuccessors(queue: MinPriorityQueue, openStates: set<seq<int>>, closed: map<seq<int>, State>,
                          currentState: State, nextStates: seq<State>, ghost root: State, ghost heuristic: HeuristicMethod)
    returns (newOpen: set<seq<int>>, newClosed: map<seq<int>, State>)
    requires OpenList(queue, openStates, root, heuristic) && ClosedKeyed(closed)
    requires Reached(currentState, root, heuristic)
    requires BoardsOf(nextStates) == SuccessorBoards(currentState.Nodes, currentState.SpaceIndex)
    requires forall s :: s in nextStates ==> currentState.IsChild(s)
    modifies queue, queue.mArray
    ensures OpenList(queue, newOpen, root, heuristic) && ClosedKeyed(newClosed)
    ensures queue.mArray == old(queue.mArray) || fresh(queue.mArray)
    ensures NoneRaised(old(queue.Contents()), queue.Contents())
    ensures Expansion(openStates, closed, currentState, newOpen, newClosed)
    ensures SuccessorsHeld(queue.Contents(), newClosed, currentState)
  {
    newOpen, newClosed := ProcessSuccessors(queue, openStates, closed, currentState, nextStates, root, heuristic);
    ghost var mid := newClosed;
    ClosingExpanded(openStates, closed, currentState, nextStates, newOpen, mid);
    ClosingHeld(queue.Contents(), mid, currentState, nextStates);
    newClosed := newClosed[currentState.GetStateCode() := currentState];
    assert newClosed == mid[currentState.Nodes := currentState];
  }

  /**
   * Expanding currentState: each of its successors, in order, is processed
   * against the open list and the closed dictionary, and then currentState is
   * closed. It always has successors, so it is always closed.
   */
  method ExpandState(queue: MinPriorityQueue, openStates: set<seq<int>>, closed: map<seq<int>, State>,
                     currentState: State, ghost root: State, ghost heuristic: HeuristicMethod)
    returns (newOpen: set<seq<int>>, newClosed: map<seq<int>, State>)
    requires OpenList(queue, openStates, root, heuristic) && ClosedKeyed(closed)
    requires Reached(currentState, root, heuristic)
    modifies queue, queue.mArray
    ensures OpenList(queue, newOpen, root, heuristic) && ClosedKeyed(newClosed)
    ensures queue.mArray == old(queue.mArray) || fresh(queue.mArray)
    ensures NoneRaised(old(queue.Contents()), queue.Contents())
    ensures Expansion(openStates, closed, currentState, newOpen, newClosed)
    ensures SuccessorsHeld(queue.Contents(), newClosed, currentState)
  {
    newOpen, newClosed := openStates, closed;
    var nextStates := currentState.GetNextStates();
    SuccessorCount(currentState.Nodes, currentState.SpaceIndex);
    if |nextStates| > 0 {
      newOpen, newClosed := ExpandSuccessors(queue, openStates, closed, currentState, nextStates, root, heuristic);
    }
  }


  /** Every open key is one that was open before or the board of one of the first n successors. */
  ghost predicate OpenedOnly(openStates: set<seq<int>>, ss: seq<State>, n: int, newOpen: set<seq<int>>)
    requires 0 <= n <= |ss|
  {
    forall k :: k in newOpen ==> k in openStates || exists j :: 0 <= j < n && ss[j].Nodes == k
  }

  /** Processing successor n opens at most its own key. */
  lemma OpenedOnlyGrows(openStates: set<seq<int>>, ss: seq<State>, n: int, open1: set<seq<int>>, open2: set<seq<int>>)
    requires 0 <= n < |ss| && OpenedOnly(openStates, ss, n, open1)
    requires open2 <= open1 + {ss[n].Nodes}
    ensures OpenedOnly(openStates, ss, n + 1, open2)
  {
    forall k | k in open2 && k !in openStates
      ensures exists j :: 0 <= j < n + 1 && ss[j].Nodes == k
    {
      if k == ss[n].Nodes {
        assert ss[n].Nodes == k;
      } else {
        var j :| 0 <= j < n && ss[j].Nodes == k;
        assert 0 <= j < n + 1;
      }
    }
  }

  /** A queue raises no g against itself. */
  lemma NoneRaisedSelf(c: seq<State?>)
    ensures NoneRaised(c, c)
  {
    forall x | x in c && x != null && x.Nodes in Keys(c)
      ensures exists y :: y in c && y != null && y.Nodes == x.Nodes && !x.IsCostlierThan(y)
    {
      assert x in c && !x.IsCostlierThan(x);
    }
  }

  /** Raising no g chains across two steps when every key queued before and after was queued in between. */
  lemma NoneRaisedChains(c0: seq<State?>, c1: seq<State?>, c2: seq<State?>)
    requires NoneRaised(c0, c1) && NoneRaised(c1, c2) && Keys(c0) * Keys(c2) <= Keys(c1)
    ensures NoneRaised(c0, c2)
  {
    forall x | x in c2 && x != null && x.Nodes in Keys(c0)
      ensures exists z :: z in c0 && z != null && z.Nodes == x.Nodes && !x.IsCostlierThan(z)
    {
      assert x.Nodes in Keys(c2);
      var y :| y in c1 && y != null && y.Nodes == x.Nodes && !x.IsCostlierThan(y);
      assert y.Nodes in Keys(c0);
      var z :| z in c0 && z != null && z.Nodes == y.Nodes && !y.IsCostlierThan(z);
      assert !x.IsCostlierThan(z);
    }
  }

  /** When the successors are exactly the successor boards, the open keys are the old ones or successor boards. */
  lemma SuccessorsBound(openStates: set<seq<int>>, newOpen: set<seq<int>>, currentState: State, nextStates: seq<State>)
    requires currentState.Valid()
    requires BoardsOf(nextStates) == SuccessorBoards(currentState.Nodes, currentState.SpaceIndex)
    requires OpenedOnly(openStates, nextStates, |nextStates|, newOpen)
    ensures forall k :: k in newOpen ==> k in openStates || k in SuccessorBoards(currentState.Nodes, currentState.SpaceIndex)
  {
    BoardsOfIndex(nextStates);
    forall k | k in newOpen && k !in openStates
      ensures k in SuccessorBoards(currentState.Nodes, currentState.SpaceIndex)
    {
      var j :| 0 <= j < |nextStates| && nextStates[j].Nodes == k;
      assert BoardsOf(nextStates)[j] == k;
    }
  }

  /** The successors processed are all the successor boards, so each of those is open or closed. */
  lemma SuccessorsCovered(newOpen: set<seq<int>>, closed: map<seq<int>, State>, currentState: State, nextStates: seq<State>)
    requires currentState.Valid()
    requires BoardsOf(nextStates) == SuccessorBoards(currentState.Nodes, currentState.SpaceIndex)
    requires Covered(nextStates, |nextStates|, newOpen, closed)
    ensures forall b :: b in SuccessorBoards(currentState.Nodes, currentState.SpaceIndex) ==> b in newOpen || b in closed
  {
    BoardsOfIndex(nextStates);
  }

  /** Closing currentState adds its key and keeps ClosedLowered, which leaves that key free. */
  lemma CloseKeepsLowered(closed: map<seq<int>, State>, mid: map<seq<int>, State>, currentState: State)
    requires ClosedLowered(closed, mid, currentState) && mid.Keys == closed.Keys
    ensures ClosedLowered(closed, mid[currentState.Nodes := currentState], currentState)
    ensures mid[currentState.Nodes := currentState].Keys == closed.Keys + {currentState.Nodes}
  {
  }

  /** The first n states of ss have keys that are open or closed. */
  ghost predicate Covered(ss: seq<State>, n: int, openStates: set<seq<int>>, closed: map<seq<int>, State>)
    requires 0 <= n <= |ss|
  {
    forall j :: 0 <= j < n ==> ss[j].Nodes in openStates || ss[j].Nodes in closed
  }

  /** Keys stay open or closed as both grow, and one more processed state is covered. */
  lemma CoveredGrows(ss: seq<State>, n: int, openStates: set<seq<int>>, closed: map<seq<int>, State>,
                     newOpen: set<seq<int>>, newClosed: map<seq<int>, State>)
    requires 0 <= n < |ss| && Covered(ss, n, openStates, closed)
    requires openStates <= newOpen && closed.Keys <= newClosed.Keys
    requires ss[n].Nodes in newOpen || ss[n].Nodes in newClosed
    ensures Covered(ss, n + 1, newOpen, newClosed)
  {
  }

  /**
   * How far the open keys and the closed dictionary have moved while the
   * successors of currentState are processed: open keys only grow, never by
   * currentState's own key; closed keys stay, with their states lowered to
   * children; and open and closed keys stay apart.
   */
  ghost predicate Progressed(openStates: set<seq<int>>, closed: map<seq<int>, State>, currentState: State,
                             newOpen: set<seq<int>>, newClosed: map<seq<int>, State>) {
    && openStates <= newOpen && ClosedLowered(closed, newClosed, currentState) && newClosed.Keys == closed.Keys
    && (currentState.Nodes !in openStates ==> currentState.Nodes !in newOpen)
    && (openStates !! closed.Keys ==> newOpen !! newClosed.Keys)
  }

  /** One processed successor keeps Progressed. */
  lemma ProgressedStep(openStates: set<seq<int>>, closed: map<seq<int>, State>, currentState: State, nextState: State,
                       open1: set<seq<int>>, closed1: map<seq<int>, State>,
                       open2: set<seq<int>>, closed2: map<seq<int>, State>)
    requires Progressed(openStates, closed, currentState, open1, closed1)
    requires currentState.IsChild(nextState) && nextState.Nodes != currentState.Nodes
    requires open1 <= open2 <= open1 + {nextState.Nodes} && closed2.Keys == closed1.Keys
    requires open1 !! closed1.Keys ==> open2 !! closed2.Keys
    requires closed2 == closed1 ||
      (nextState.Nodes in closed1 && closed1[nextState.Nodes].IsCostlierThan(nextState) &&
       closed2 == closed1[nextState.Nodes := nextState])
    ensures Progressed(openStates, closed, currentState, open2, closed2)
  {
    LowerClosed(closed, closed1, closed2, currentState, nextState);
  }

  /** Each of the first n states of ss has its key held by a state no costlier than it. */
  ghost predicate HeldUpTo(ss: seq<State>, n: int, c: seq<State?>, closed: map<seq<int>, State>)
    requires 0 <= n <= |ss|
  {
    forall j :: 0 <= j < n ==> Held(c, closed, ss[j].Nodes, ss[j].CostG)
  }

  /** Processing successor n keeps the earlier successors held and holds successor n. */
  lemma HeldGrows(ss: seq<State>, n: int, c1: seq<State?>, c2: seq<State?>,
                  closed1: map<seq<int>, State>, closed2: map<seq<int>, State>)
    requires 0 <= n < |ss| && HeldUpTo(ss, n, c1, closed1) && UniqueKeys(c1)
    requires NoneRaised(c1, c2) && Keys(c1) <= Keys(c2)
    requires closed1.Keys <= closed2.Keys && forall k :: k in closed1 ==> !closed2[k].IsCostlierThan(closed1[k])
    requires Held(c2, closed2, ss[n].Nodes, ss[n].CostG)
    ensures HeldUpTo(ss, n + 1, c2, closed2)
  {
    forall j | 0 <= j < n ensures Held(c2, closed2, ss[j].Nodes, ss[j].CostG) {
      HeldKept(c1, c2, closed1, closed2, ss[j].Nodes, ss[j].CostG);
    }
  }

  /**
   * The account the successor loop keeps after the first i successors ss[..i]
   * of currentState, from the queue start, open keys openStates and closed
   * dictionary closed to the queue c, open keys newOpen and closed newClosed:
   * - each of them is open or closed (Covered);
   * - every open key was open before or is one of their boards (OpenedOnly);
   * - no queued g rose (NoneRaised);
   * - each of their keys is held by a state no costlier than it (HeldUpTo);
   * - open keys only grew, closed states were only lowered to children of
   *   currentState, and keys stayed disjoint (Progressed).
   */
  ghost predicate SuccessorsSoFar(openStates: set<seq<int>>, closed: map<seq<int>, State>, currentState: State,
                                  ss: seq<State>, i: int, start: seq<State?>, c: seq<State?>,
                                  newOpen: set<seq<int>>, newClosed: map<seq<int>, State>)
    requires 0 <= i <= |ss|
  {
    && Covered(ss, i, newOpen, newClosed)
    && OpenedOnly(openStates, ss, i, newOpen)
    && NoneRaised(start, c)
    && HeldUpTo(ss, i, c, newClosed)
    && Progressed(openStates, closed, currentState, newOpen, newClosed)
  }

  /** What ProcessSuccessor promises for successor i keeps the loop's account for the first i + 1 successors. */
  lemma SuccessorProcessed(openStates: set<seq<int>>, closed: map<seq<int>, State>, currentState: State,
                           ss: seq<State>, i: int, start: seq<State?>, c1: seq<State?>, c2: seq<State?>,
                           open1: set<seq<int>>, closed1: map<seq<int>, State>,
                           open2: set<seq<int>>, closed2: map<seq<int>, State>)
    requires 0 <= i < |ss| && currentState.IsChild(ss[i]) && ss[i].Nodes != currentState.Nodes
    requires SuccessorsSoFar(openStates, closed, currentState, ss, i, start, c1, open1, closed1)
    requires Keys(start) == openStates && Keys(c1) == open1 && Keys(c2) == open2 && UniqueKeys(c1)
    requires open1 <= open2 <= open1 + {ss[i].Nodes} && closed2.Keys == closed1.Keys
    requires ss[i].Nodes in open2 || ss[i].Nodes in closed2
    requires open1 !! closed1.Keys ==> open2 !! closed2.Keys
    requires closed2 == closed1 ||
      (ss[i].Nodes in closed1 && closed1[ss[i].Nodes].IsCostlierThan(ss[i]) && closed2 == closed1[ss[i].Nodes := ss[i]])
    requires forall k :: k in closed1 ==> !closed2[k].IsCostlierThan(closed1[k])
    requires NoneRaised(c1, c2) && Held(c2, closed2, ss[i].Nodes, ss[i].CostG)
    ensures SuccessorsSoFar(openStates, closed, currentState, ss, i + 1, start, c2, open2, closed2)
  {
    NoneRaisedChains(start, c1, c2);
    HeldGrows(ss, i, c1, c2, closed1, closed2);
    OpenedOnlyGrows(openStates, ss, i, open1, open2);
    ProgressedStep(openStates, closed, currentState, ss[i], open1, closed1, open2, closed2);
    CoveredGrows(ss, i, open1, closed1, open2, closed2);
  }

  /** The loop over the successors of currentState, each handled by ProcessSuccessor. */
  method ProcessSuccessors(queue: MinPriorityQueue, openStates: set<seq<int>>, closed: map<seq<int>, State>,
                           currentState: State, nextStates: seq<State>, ghost root: State, ghost heuristic: HeuristicMethod)
    returns (newOpen: set<seq<int>>, newClosed: map<seq<int>, State>)
    requires OpenList(queue, openStates, root, heuristic) && ClosedKeyed(closed)
    requires Reached(currentState, root, heuristic)
    requires forall s :: s in nextStates ==> currentState.IsChild(s)
    modifies queue, queue.mArray
    ensures OpenList(queue, newOpen, root, heuristic) && ClosedKeyed(newClosed)
    ensures queue.mArray == old(queue.mArray) || fresh(queue.mArray)
    ensures SuccessorsSoFar(openStates, closed, currentState, nextStates, |nextStates|,
                            old(queue.Contents()), queue.Contents(), newOpen, newClosed)
  {
    newOpen, newClosed := openStates, closed;
    ghost var start := queue.Contents();
    NoneRaisedSelf(start);
    for i := 0 to |nextStates|
      invariant OpenList(queue, newOpen, root, heuristic) && ClosedKeyed(newClosed)
      invariant queue.mArray == old(queue.mArray) || fresh(queue.mArray)
      invariant SuccessorsSoFar(openStates, closed, currentState, nextStates, i, start, queue.Contents(), newOpen, newClosed)
    {
      ChildReached(currentState, nextStates[i], root, heuristic);
      ghost var openBefore, closedBefore, queued := newOpen, newClosed, queue.Contents();
      newOpen, newClosed := ProcessSuccessor(queue, newOpen, newClosed, nextStates[i], root, heuristic);
      SuccessorProcessed(openStates, closed, currentState, nextStates, i, start, queued, queue.Contents(),
                         openBefore, closedBefore, newOpen, newClosed);
    }
  }

  /**
   * What the search has settled: every closed key is an unsolved board
   * reachable from start, and every move from it leads to a key that is open
   * or closed.
   */
  ghost predicate Explored(openStates: set<seq<int>>, closed: map<seq<int>, State>, start: seq<int>) {
    forall k :: k in closed ==>
      && k != Solved(|k|) && Reachable(start, k)
      && forall b :: Step(k, b) ==> b in openStates || b in closed
  }

  /** The board of a state reached from root is reachable from root's board: its parent chain is a walk. */
  lemma ReachedIsReachable(s: State, root: State, heuristic: HeuristicMethod)
    requires Reached(s, root, heuristic)
    ensures Reachable(root.Nodes, s.Nodes)
  {
    PathToIsChain(s);
    var path := PathTo(s);
    var p := BoardsOf(path);
    BoardsOfIndex(path);
    forall i | 0 <= i < |p| - 1 ensures Step(p[i], p[i + 1]) {
      assert path[i + 1].Follows(path[i]);
      assert path[i].Nodes[path[i].SpaceIndex] == Blank;
    }
    assert Walk(p) && p[0] == root.Nodes && p[|p| - 1] == s.Nodes;
  }

  /** The closed boards of an explored search are that many unsolved boards reachable from the start board. */
  lemma ExploredKeysUnsolved(openStates: set<seq<int>>, closed: map<seq<int>, State>, start: seq<int>)
    requires Explored(openStates, closed, start)
    ensures exists S :: |S| == |closed.Keys| && UnsolvedReachable(S, start)
  {
    assert UnsolvedReachable(closed.Keys, start);
  }

  /**
   * An explored search with no open key left and the start board closed has
   * shown the puzzle unsolvable: no walk of blank moves from the start board
   * ends at the solved board.
   */
  lemma ExhaustedIsUnsolvable(closed: map<seq<int>, State>, start: seq<int>)
    requires Explored({}, closed, start) && start in closed
    ensures forall p :: Walk(p) && 1 <= |p| && p[0] == start ==> p[|p| - 1] != Solved(|start|)
  {
    forall p | Walk(p) && 1 <= |p| && p[0] == start ensures p[|p| - 1] != Solved(|start|) {
      WalkStaysIn(closed.Keys, p, |p| - 1);
    }
  }

  /**
   * One expansion keeps the search explored: currentState, unsolved, leaves the
   * open keys for the closed ones with all its successor boards open or closed,
   * and no other key leaves.
   */
  lemma ExploredGrows(openStates: set<seq<int>>, closed: map<seq<int>, State>, currentState: State,
                      newOpen: set<seq<int>>, newClosed: map<seq<int>, State>, start: seq<int>)
    requires Explored(openStates, closed, start)
    requires currentState.Valid() && currentState.Nodes != Solved(|currentState.Nodes|)
    requires Reachable(start, currentState.Nodes)
    requires openStates - {currentState.Nodes} <= newOpen && closed.Keys <= newClosed.Keys
    requires currentState.Nodes in newClosed
    requires forall k :: k in newClosed && k != currentState.Nodes ==> k in closed
    requires forall b :: b in SuccessorBoards(currentState.Nodes, currentState.SpaceIndex) ==> b in newOpen || b in newClosed
    ensures Explored(newOpen, newClosed, start)
  {
    forall k, b | k in newClosed && Step(k, b) ensures b in newOpen || b in newClosed {
      if k == currentState.Nodes {
        StepIsSuccessor(currentState.Nodes, currentState.SpaceIndex, b);
      } else {
        assert b in openStates || b in closed;
      }
    }
  }

  /**
   * A solution for board: the states from a root holding board to one holding
   * the solved board, the k-th at g = k, each one move from the one before.
   */
  ghost predicate SolutionPath(p: seq<State>, board: seq<int>) {
    && |p| >= 1
    && p[0].Parent == null && p[0].Nodes == board
    && p[|p| - 1].Nodes == Solved(|board|)
    && (forall k :: 0 <= k < |p| ==> p[k].Valid() && p[k].CostG == k)
    && (forall k :: 0 <= k < |p| - 1 ==> p[k + 1].Follows(p[k]))
  }

  /** The path to a final state reached from a root is a solution for the root's board. */
  lemma FinalPathIsSolution(s: State, root: State, heuristic: HeuristicMethod)
    requires Reached(s, root, heuristic) && s.IsFinalState()
    ensures SolutionPath(PathTo(s), root.Nodes)
  {
    FinalStateIffSolved(s);
    PathToIsChain(s);
  }

  /** The path the search reports for a final state it has reached: a solution for the root's board. */
  /** A state reached from itself is the root of the search: its g is 0, so its path is itself alone. */
  lemma ReachedFromItself(root: State, heuristic: HeuristicMethod)
    requires Reached(root, root, heuristic)
    ensures root.CostG == 0 && |PathTo(root)| == 1
  {
    PathToIsChain(root);
  }

  method SolutionFrom(final: State, ghost root: State, ghost heuristic: HeuristicMethod) returns (path: seq<State>)
    requires Reached(final, root, heuristic) && final.IsFinalState()
    ensures path == PathTo(final) && SolutionPath(path, root.Nodes)
  {
    FinalPathIsSolution(final, root, heuristic);
    path := GetFinalPath(final);
  }

  /**
   * The search invariant: the open list and the closed dictionary hold states
   * reached from root, no key is both open and closed, the search is explored,
   * and the start board is open or closed.
   */
  ghost predicate Searching(queue: MinPriorityQueue, openStates: set<seq<int>>, closed: map<seq<int>, State>,
                            root: State, heuristic: HeuristicMethod)
    reads queue, queue.mArray
  {
    && OpenList(queue, openStates, root, heuristic) && ClosedKeyed(closed)
    && openStates !! closed.Keys
    && Explored(openStates, closed, root.Nodes)
    && (root.Nodes in openStates || root.Nodes in closed)
  }

  /** Number of states in the closed list. */
  ghost function ClosedCount(closed: map<seq<int>, State>): nat {
    |closed.Keys|
  }

  /**
   * What one expansion of s, which turned the queue before into c, did: s's
   * key was closed and no other; every open key was open before, other than
   * s's, or is one of s's successor boards; no queued g rose; and every
   * successor board is held, in c or the closed dictionary, by a state with g
   * at most s's g + 1.
   */
  ghost predicate ExpandedInto(openStates: set<seq<int>>, closed: map<seq<int>, State>, s: State?,
                               newOpen: set<seq<int>>, newClosed: map<seq<int>, State>,
                               before: seq<State?>, c: seq<State?>)
    reads s
  {
    && s != null && s.Valid()
    && NoneRaised(before, c)
    && newClosed.Keys == closed.Keys + {s.Nodes}
    && (forall k :: k in newOpen ==> k in openStates - {s.Nodes} || k in SuccessorBoards(s.Nodes, s.SpaceIndex))
    && SuccessorsHeld(c, newClosed, s)
  }

  /** A search whose open list has run empty has shown that no walk of blank moves solves the root's board. */
  lemma ExhaustedSearch(queue: MinPriorityQueue, openStates: set<seq<int>>, closed: map<seq<int>, State>,
                        root: State, heuristic: HeuristicMethod)
    requires Searching(queue, openStates, closed, root, heuristic) && queue.Contents() == []
    ensures forall p :: Walk(p) && 1 <= |p| && p[0] == root.Nodes ==> p[|p| - 1] != Solved(|root.Nodes|)
  {
    assert openStates == {};
    ExhaustedIsUnsolvable(closed, root.Nodes);
  }

  /**
   * One round of the search loop: takes the next open state, returns it when it
   * is final, and otherwise expands it, which closes one more key, and returns null.
   */
  method SearchStep(queue: MinPriorityQueue, openStates: set<seq<int>>, closed: map<seq<int>, State>,
                    ghost root: State, ghost heuristic: HeuristicMethod)
    returns (final: State?, newOpen: set<seq<int>>, newClosed: map<seq<int>, State>)
    requires Searching(queue, openStates, closed, root, heuristic) && !queue.IsEmpty()
    modifies queue, queue.mArray
    ensures queue.mArray == old(queue.mArray) || fresh(queue.mArray)
    ensures final != null ==> final == old(queue.Contents())[0] && Reached(final, root, heuristic) && final.IsFinalState()
    ensures final != null ==> queue.Valid() && multiset(queue.Contents()) == old(multiset(queue.Contents())) - multiset{final}
    ensures final == null ==> !old(queue.Contents())[0].IsFinalState()
    ensures final == null ==> Searching(queue, newOpen, newClosed, root, heuristic) && ClosedCount(newClosed) == ClosedCount(closed) + 1
    ensures final == null ==>
      ExpandedInto(openStates, closed, old(queue.Contents())[0], newOpen, newClosed, old(queue.Contents()), queue.Contents())
  {
    var currentState;
    ghost var before := queue.Contents();
    currentState, newOpen := TakeOpen(queue, openStates, root, heuristic);
    newClosed := closed;
    if currentState.IsFinalState() {
      return currentState, newOpen, newClosed;
    }
    ghost var taken := queue.Contents();
    newOpen, newClosed := ExpandExplored(queue, openStates, newOpen, closed, currentState, root, heuristic);
    TakeRaisesNone(before, taken, currentState);
    NoneRaisedChains(before, taken, queue.Contents());
    final := null;
  }

  /**
   * Expands a state just taken off the open list that is not final: its key
   * is closed, which was not closed before, and the search invariant is kept.
   */
  method ExpandExplored(queue: MinPriorityQueue, openStates: set<seq<int>>, takenOpen: set<seq<int>>,
                        closed: map<seq<int>, State>, currentState: State,
                        ghost root: State, ghost heuristic: HeuristicMethod)
    returns (newOpen: set<seq<int>>, newClosed: map<seq<int>, State>)
    requires OpenList(queue, takenOpen, root, heuristic) && ClosedKeyed(closed)
    requires Reached(currentState, root, heuristic) && !currentState.IsFinalState()
    requires currentState.Nodes in openStates && takenOpen == openStates - {currentState.Nodes}
    requires openStates !! closed.Keys && Explored(openStates, closed, root.Nodes)
    requires root.Nodes in openStates || root.Nodes in closed
    modifies queue, queue.mArray
    ensures queue.mArray == old(queue.mArray) || fresh(queue.mArray)
    ensures Searching(queue, newOpen, newClosed, root, heuristic) && ClosedCount(newClosed) == ClosedCount(closed) + 1
    ensures newClosed.Keys == closed.Keys + {currentState.Nodes}
    ensures forall k :: k in newOpen ==> k in takenOpen || k in SuccessorBoards(currentState.Nodes, currentState.SpaceIndex)
    ensures NoneRaised(old(queue.Contents()), queue.Contents())
    ensures SuccessorsHeld(queue.Contents(), newClosed, currentState)
  {
    FinalStateIffSolved(currentState);
    ReachedIsReachable(currentState, root, heuristic);
    newOpen, newClosed := ExpandState(queue, takenOpen, closed, currentState, root, heuristic);
    ExploredGrows(openStates, closed, currentState, newOpen, newClosed, root.Nodes);
  }

  /** A queue whose multiset is one state holds exactly that state. */
  lemma SingleQueued(c: seq<State?>, s: State)
    requires multiset(c) == multiset{s}
    ensures c == [s]
  {
    assert |c| == |multiset(c)| == 1;
    assert c[0] in multiset(c);
  }

  /**
   * The set-up before the loop: a root state for the board, queued alone and
   * opened, with nothing closed; the search invariant holds from the start.
   */
  method StartSearch(nodes: array<int>, heuristic: HeuristicMethod)
    returns (openedQueue: MinPriorityQueue, openStates: set<seq<int>>, closedQueue: map<seq<int>, State>, root: State)
    requires WellFormed(nodes[..])
    ensures fresh(openedQueue) && fresh(openedQueue.mArray)
    ensures root.Valid() && root.Parent == null && root.Nodes == nodes[..] && root.Heuristic == heuristic
    ensures Searching(openedQueue, openStates, closedQueue, root, heuristic)
    ensures openedQueue.Contents() == [root] && openStates == {root.Nodes} && closedQueue == map[]
  {
    openStates := {};
    openedQueue := new MinPriorityQueue(nodes.Length);
    closedQueue := map[];

    root := new State(null, nodes, heuristic);
    assert PathTo(root) == [root];
    QueueAdd(openedQueue.Contents(), [root], root, root, heuristic);
    openedQueue.Enqueue(root);
    SingleQueued(openedQueue.Contents(), root);
    openStates := openStates + {root.GetStateCode()};
  }

  /**
   * A* from the board nodes under the given heuristic. Each expansion takes the
   * first state of the open list (one of least f while the heap is in order);
   * a final state ends the search with its path. Otherwise each successor is
   * handled by key: one already open replaces the open one only when that
   * one's g is strictly larger; one already closed replaces the closed entry
   * under the same condition and is not reopened; a new one is opened. The
   * expanded state is then closed. At most fuel expansions are made.
   */
  method Run(nodes: array<int>, heuristic: HeuristicMethod, fuel: nat) returns (result: Outcome)
    requires WellFormed(nodes[..])
    ensures result.Found? ==> SolutionPath(result.path, nodes[..])
    ensures result.NoSolution? ==>
      forall p :: Walk(p) && 1 <= |p| && p[0] == nodes[..] ==> p[|p| - 1] != Solved(nodes.Length)
    ensures result.OutOfFuel? ==> exists S :: |S| == fuel && UnsolvedReachable(S, nodes[..])
    ensures nodes[..] == Solved(nodes.Length) && fuel > 0 ==> result.Found? && |result.path| == 1
  {
    var openedQueue, openStates, closedQueue, root := StartSearch(nodes, heuristic);
    FinalStateIffSolved(root);
    result := Search(openedQueue, openStates, closedQueue, root, heuristic, fuel);
  }

  /**
   * The search loop of Run from a given open list and closed dictionary. It
   * stops with the path of the first final state taken, with no solution once
   * the open list is empty, or out of fuel after fuel expansions.
   */
  method Search(openedQueue: MinPriorityQueue, openStates: set<seq<int>>, closedQueue: map<seq<int>, State>,
                ghost root: State, ghost heuristic: HeuristicMethod, fuel: nat) returns (result: Outcome)
    requires Searching(openedQueue, openStates, closedQueue, root, heuristic)
    modifies openedQueue, openedQueue.mArray
    ensures result.Found? ==> SolutionPath(result.path, root.Nodes)
    ensures result.NoSolution? ==> openedQueue.Valid() && openedQueue.Contents() == []
    ensures result.NoSolution? ==>
      forall p :: Walk(p) && 1 <= |p| && p[0] == root.Nodes ==> p[|p| - 1] != Solved(|root.Nodes|)
    ensures result.OutOfFuel? ==> exists S :: |S| == |closedQueue.Keys| + fuel && UnsolvedReachable(S, root.Nodes)
    ensures old(openedQueue.Contents()) != [] && old(openedQueue.Contents())[0] == root && root.IsFinalState() && fuel > 0 ==>
      result.Found? && |result.path| == 1
  {
    ghost var closedAtStart := ClosedCount(closedQueue);
    var openStates := openStates;
    var closedQueue := closedQueue;
    ghost var rootFirst := openedQueue.Contents() != [] && openedQueue.Contents()[0] == root && root.IsFinalState() && fuel > 0;
    var steps := 0;
    while !openedQueue.IsEmpty()
      invariant openedQueue.mArray == old(openedQueue.mArray) || fresh(openedQueue.mArray)
      invariant Searching(openedQueue, openStates, closedQueue, root, heuristic)
      invariant rootFirst ==> steps == 0 && openedQueue.Contents() != [] && openedQueue.Contents()[0] == root
      invariant steps <= fuel && ClosedCount(closedQueue) == closedAtStart + steps
      decreases fuel - steps
    {
      if steps == fuel {
        ExploredKeysUnsolved(openStates, closedQueue, root.Nodes);
        return OutOfFuel;
      }
      steps := steps + 1;

      var final;
      final, openStates, closedQueue := SearchStep(openedQueue, openStates, closedQueue, root, heuristic);
      if final != null {
        var path := SolutionFrom(final, root, heuristic);
        if rootFirst {
          ReachedFromItself(final, heuristic);
        }
        return Found(path);
      }
    }
    ExhaustedSearch(openedQueue, openStates, closedQueue, root, heuristic);
    return NoSolution;
  }
}
