// The colouring that the depth-first searches with a recursion stack keep.
module DepthFirst {
  import opened Reachability

  /** White, grey and black vertices of a depth-first search. */
  ghost predicate Colours<T(!new)>(g: Digraph<T>, visited: set<T>, recStack: set<T>,
                          stack: seq<T>, order: seq<T>)
  {
    && Distinct(stack) && Distinct(order)
    && (forall k :: k in recStack <==> k in stack)
    && (forall k :: k in visited <==> k in stack || k in order)
    && (forall k | k in stack :: k !in order)
    && (stack != [] ==> IsWalk(g, stack))
    && SuccessorsFirst(g, order)
  }

  lemma OpenVertex<T(!new)>(g: Digraph<T>, visited: set<T>, recStack: set<T>,
                   stack: seq<T>, order: seq<T>, key: T)
    requires Colours(g, visited, recStack, stack, order) && key !in visited
    requires stack != [] ==> Edge(g, stack[|stack| - 1], key)
    ensures Colours(g, visited + {key}, recStack + {key}, stack + [key], order)
  {
  }

  lemma CloseVertex<T(!new)>(g: Digraph<T>, visited: set<T>, recStack: set<T>,
                    stack: seq<T>, order: seq<T>, key: T)
    requires Colours(g, visited, recStack, stack + [key], order)
    requires forall d | Edge(g, key, d) :: d in order
    ensures Colours(g, visited, recStack - {key}, stack, order + [key])
  {
    var order', stack' := order + [key], stack + [key];
    assert stack'[|stack|] == key;
    assert forall i | 0 <= i < |stack| :: stack[i] == stack'[i];
    assert key in stack' && forall i | 0 <= i < |order| :: order[i] == order'[i];
    forall i, v | 0 <= i < |order'| && Edge(g, order'[i], v) ensures v in order'[..i] {
      assert order'[..i] == if i < |order| then order[..i] else order;
    }
    forall i | 0 <= i < |stack| - 1 ensures Edge(g, stack[i], stack[i + 1]) {
      assert Edge(g, stack'[i], stack'[i + 1]);
    }
  }

  /** after extends before by vertices that key reaches. */
  ghost predicate GrewFrom<T(!new)>(g: Digraph<T>, key: T, before: seq<T>, after: seq<T>) {
    before <= after && forall k | k in after[|before|..] :: Reaches(g, key, k)
  }

  lemma GrewThrough<T(!new)>(g: Digraph<T>, key: T, dep: T, a: seq<T>, b: seq<T>, c: seq<T>)
    requires GrewFrom(g, key, a, b) && GrewFrom(g, dep, b, c) && Edge(g, key, dep)
    ensures GrewFrom(g, key, a, c)
  {
    forall k | k in c[|a|..] ensures Reaches(g, key, k) {
      if k in c[|b|..] {
        EdgeThenReaches(g, key, dep, k);
      } else {
        assert k in b[|a|..];
      }
    }
  }

  lemma GrewFromStart<T(!new)>(g: Digraph<T>, key: T, order: seq<T>)
    ensures GrewFrom(g, key, order, order)
  {
  }

  lemma GrewByItself<T(!new)>(g: Digraph<T>, key: T, before: seq<T>, after: seq<T>)
    requires GrewFrom(g, key, before, after)
    ensures GrewFrom(g, key, before, after + [key])
  {
    ReachesSelf(g, key);
  }

  /** What a search with a recursion stack keeps; stack is the chain of open calls, order lists the
      vertices in the order in which their calls return. */
  datatype Search<!T(==)> = Search(visited: set<T>, recStack: set<T>, stack: seq<T>, order: seq<T>)

  ghost predicate Coloured<T(!new)>(g: Digraph<T>, s: Search<T>) {
    Colours(g, s.visited, s.recStack, s.stack, s.order)
  }

  /** key may be searched next: it is the start, or a successor of the vertex that is open. */
  ghost predicate Next<T(!new)>(g: Digraph<T>, s: Search<T>, key: T) {
    s.stack != [] ==> Edge(g, s.stack[|s.stack| - 1], key)
  }

  /** The call for key has returned: key is finished, and so is only what it reaches. */
  ghost predicate Done<T(!new)>(g: Digraph<T>, key: T, s0: Search<T>, s: Search<T>) {
    && Coloured(g, s) && s.stack == s0.stack && s0.visited <= s.visited
    && key in s.order && GrewFrom(g, key, s0.order, s.order)
  }

  /** key is open and the first i of its successors are finished. */
  ghost predicate Open<T(!new)>(g: Digraph<T>, key: T, deps: seq<T>, i: nat, s0: Search<T>, s: Search<T>) {
    && Coloured(g, s) && s.stack == s0.stack + [key] && s0.visited + {key} <= s.visited
    && GrewFrom(g, key, s0.order, s.order)
    && i <= |deps| && forall j | 0 <= j < i :: deps[j] in s.order
  }

  function Opened<T>(s: Search<T>, key: T): Search<T> {
    Search(s.visited + {key}, s.recStack + {key}, s.stack + [key], s.order)
  }

  lemma OpenStarts<T(!new)>(g: Digraph<T>, key: T, deps: seq<T>, s: Search<T>)
    requires Coloured(g, s) && key !in s.visited && Next(g, s, key)
    ensures Open(g, key, deps, 0, s, Opened(s, key))
  {
    OpenVertex(g, s.visited, s.recStack, s.stack, s.order, key);
    GrewFromStart(g, key, s.order);
    hide Colours;
  }

  lemma OpenHolds<T(!new)>(g: Digraph<T>, key: T, deps: seq<T>, i: nat, s0: Search<T>, s: Search<T>)
    requires Open(g, key, deps, i, s0, s) && i < |deps| && Edge(g, key, deps[i])
    ensures Coloured(g, s) && Next(g, s, deps[i]) && s0.visited + {key} <= s.visited
  {
    hide Coloured, GrewFrom;
  }

  lemma OpenContinues<T(!new)>(g: Digraph<T>, key: T, deps: seq<T>, i: nat, s0: Search<T>, s: Search<T>, s': Search<T>)
    requires Open(g, key, deps, i, s0, s) && i < |deps| && Edge(g, key, deps[i]) && Done(g, deps[i], s, s')
    ensures Open(g, key, deps, i + 1, s0, s')
  {
    GrewThrough(g, key, deps[i], s0.order, s.order, s'.order);
    assert s.order <= s'.order;
    assert forall x | x in s.order :: x in s'.order;
    hide Coloured, Edge;
  }

  lemma OpenEnds<T(!new)>(g: Digraph<T>, key: T, deps: seq<T>, s0: Search<T>, s: Search<T>)
    requires Open(g, key, deps, |deps|, s0, s) && forall d | Edge(g, key, d) :: d in deps
    ensures Done(g, key, s0, Search(s.visited, s.recStack - {key}, s0.stack, s.order + [key]))
    ensures s.stack != [] && s.stack[..|s.stack| - 1] == s0.stack
    ensures Coloured(g, Search(s.visited, s.recStack - {key}, s0.stack, s.order + [key])) && s0.visited <= s.visited
  {
    CloseVertex(g, s.visited, s.recStack, s0.stack, s.order, key);
    GrewByItself(g, key, s0.order, s.order);
    hide Colours, GrewFrom;
  }

  lemma AlreadyDone<T(!new)>(g: Digraph<T>, key: T, s: Search<T>)
    requires Coloured(g, s) && key in s.visited && key !in s.recStack
    ensures Done(g, key, s, s)
  {
  }

  lemma BackEdgeFromTop<T(!new)>(g: Digraph<T>, s: Search<T>, key: T)
    requires Coloured(g, s) && Next(g, s, key) && key in s.recStack
    ensures ReachesPlus(g, key, key) && Reaches(g, key, key)
  {
    BackEdgeClosesCycle(g, s.stack, key);
    ReachesSelf(g, key);
  }

  /** A finished search from the bare start has no cycle in reach and finished exactly what it reaches. */
  lemma DoneFromStart<T(!new)>(g: Digraph<T>, key: T, s: Search<T>)
    requires Done(g, key, Search({}, {}, [], []), s)
    ensures !CycleReachable(g, key) && Distinct(s.order) && SuccessorsFirst(g, s.order)
    ensures forall k :: k in s.order <==> Reaches(g, key, k)
  {
    SuccessorsFirstAcyclic(g, s.order, key);
    assert s.order[0..] == s.order;
  }

  /** A vertex on the stack with an edge back to a stack vertex closes a cycle. */
  lemma BackEdgeClosesCycle<T(!new)>(g: Digraph<T>, stack: seq<T>, key: T)
    requires IsWalk(g, stack) && Edge(g, stack[|stack| - 1], key) && key in stack
    ensures ReachesPlus(g, key, key)
  {
    var i :| 0 <= i < |stack| && stack[i] == key;
    assert WalkFromTo(g, stack[i..], key, stack[|stack| - 1]) by {
      forall j | 0 <= j < |stack[i..]| - 1 ensures Edge(g, stack[i..][j], stack[i..][j + 1]) {
        assert Edge(g, stack[i + j], stack[i + j + 1]);
      }
    }
    ReachesThenEdge(g, key, stack[|stack| - 1], key);
  }
}
