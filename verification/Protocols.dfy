/**
  The walk over the protocols a class adopts, directly or through other protocols. The runtime's answers are parameters:
  which protocols the class and each protocol list, and which protocols count as equal.
 */
module Protocols {
  /** Each protocol's own list of protocols, in order and possibly with repetitions or cycles. */
  type Graph<P> = map<P, seq<P>>

  /** Every protocol that is listed is known. */
  ghost predicate IsClosed<P(!new)>(g: Graph<P>, roots: seq<P>) {
    && (forall i :: 0 <= i < |roots| ==> roots[i] in g)
    && (forall p, i :: p in g && 0 <= i < |g[p]| ==> g[p][i] in g)
  }

  /** A chain from a root, each protocol listed by the one before. */
  predicate IsPath<P(==)>(g: Graph<P>, roots: seq<P>, path: seq<P>)
    decreases |path|
  {
    && path != []
    && if |path| == 1 then path[0] in roots
       else
         var before := path[..|path| - 1];
         IsPath(g, roots, before) && before[|before| - 1] in g && path[|path| - 1] in g[before[|before| - 1]]
  }

  ghost predicate IsReachable<P(!new)>(g: Graph<P>, roots: seq<P>, p: P) {
    exists path :: IsPath(g, roots, path) && path[|path| - 1] == p
  }

  /** Whether a protocol's own list names the target. */
  predicate Implements<P>(list: seq<P>, target: P, same: (P, P) -> bool) {
    exists i :: 0 <= i < |list| && same(list[i], target)
  }

  /** `protocolImplementsProtocol` */
  method ProtocolImplementsProtocol<P>(list: seq<P>, target: P, same: (P, P) -> bool) returns (r: bool)
    ensures r <==> Implements(list, target, same)
  {
    for i := 0 to |list|
      invariant forall k :: 0 <= k < i ==> !same(list[k], target)
    {
      if same(list[i], target) {
        return true;
      }
    }
    return false;
  }

  lemma RootIsReachable<P(!new)>(g: Graph<P>, roots: seq<P>, p: P)
    requires p in roots
    ensures IsReachable(g, roots, p)
  {
    assert IsPath(g, roots, [p]);
  }

  lemma NextIsReachable<P(!new)>(g: Graph<P>, roots: seq<P>, p: P, q: P)
    requires IsReachable(g, roots, p) && p in g && q in g[p]
    ensures IsReachable(g, roots, q)
  {
    var path :| IsPath(g, roots, path) && path[|path| - 1] == p;
    var longer := path + [q];
    assert longer[..|longer| - 1] == path;
    assert IsPath(g, roots, longer);
  }

  /** A set that holds the roots and what its members list holds every protocol on every path. */
  lemma {:induction false} ClosedSetHoldsPaths<P(!new)>(g: Graph<P>, roots: seq<P>, s: set<P>, path: seq<P>)
    requires IsPath(g, roots, path)
    requires forall p :: p in roots ==> p in s
    requires forall p, q :: p in s && p in g && q in g[p] ==> q in s
    ensures path[|path| - 1] in s
    decreases |path|
  {
    if |path| > 1 {
      ClosedSetHoldsPaths(g, roots, s, path[..|path| - 1]);
    }
  }

  /** The worklist and the visited protocols are reachable, and together hold all there is to visit next. */
  ghost predicate IsWalk<P(!new)>(g: Graph<P>, roots: seq<P>, worklist: seq<P>, visited: set<P>) {
    && visited <= g.Keys
    && (forall p :: p in worklist ==> p in g && IsReachable(g, roots, p))
    && (forall p :: p in visited ==> IsReachable(g, roots, p))
    && (forall p :: p in roots ==> p in visited || p in worklist)
    && (forall p, q :: p in visited && q in g[p] ==> q in visited || q in worklist)
  }

  /** The callbacks so far: once for each visited protocol that lists the target. */
  ghost predicate IsCalled<P(!new)>(g: Graph<P>, target: P, same: (P, P) -> bool, visited: set<P>, calls: seq<P>)
    requires visited <= g.Keys
  {
    && (forall i, j :: 0 <= i < j < |calls| ==> calls[i] != calls[j])
    && (forall p :: p in calls <==> p in visited && Implements(g[p], target, same))
  }

  lemma StartsWalk<P(!new)>(g: Graph<P>, roots: seq<P>)
    requires IsClosed(g, roots)
    ensures IsWalk(g, roots, roots, {})
  {
    forall p | p in roots ensures IsReachable(g, roots, p) {
      RootIsReachable(g, roots, p);
    }
  }

  lemma SkipsVisited<P(!new)>(g: Graph<P>, roots: seq<P>, worklist: seq<P>, protocol: P, visited: set<P>)
    requires IsWalk(g, roots, worklist + [protocol], visited) && protocol in visited
    ensures IsWalk(g, roots, worklist, visited)
  {
    assert forall p :: p in worklist ==> p in worklist + [protocol];
  }

  lemma Visits<P(!new)>(g: Graph<P>, roots: seq<P>, worklist: seq<P>, protocol: P, visited: set<P>)
    requires IsClosed(g, roots) && IsWalk(g, roots, worklist + [protocol], visited)
    ensures protocol in g && IsWalk(g, roots, worklist + g[protocol], visited + {protocol})
  {
    assert forall p :: p in worklist ==> p in worklist + [protocol];
    assert protocol in worklist + [protocol];
    forall q | q in g[protocol] ensures q in g && IsReachable(g, roots, q) {
      NextIsReachable(g, roots, protocol, q);
    }
  }

  lemma CallsBack<P(!new)>(g: Graph<P>, target: P, same: (P, P) -> bool, visited: set<P>, calls: seq<P>, protocol: P)
    requires visited <= g.Keys && IsCalled(g, target, same, visited, calls) && protocol in g && protocol !in visited
    ensures IsCalled(g, target, same, visited + {protocol},
                     if Implements(g[protocol], target, same) then calls + [protocol] else calls)
  {
    assert protocol !in calls;
  }

  lemma WalkIsComplete<P(!new)>(g: Graph<P>, roots: seq<P>, visited: set<P>, p: P)
    requires IsWalk(g, roots, [], visited)
    ensures IsReachable(g, roots, p) <==> p in visited
  {
    if IsReachable(g, roots, p) {
      var path :| IsPath(g, roots, path) && path[|path| - 1] == p;
      ClosedSetHoldsPaths(g, roots, visited, path);
    }
  }

  /**
    `forEachProtocolImplementingProtocol`: calls back once for each protocol that is reachable from the class and lists
    the target, and for no other. `calls` is the sequence of callbacks.
   */
  method ForEachProtocolImplementingProtocol<P(==, !new)>(g: Graph<P>, roots: seq<P>, target: P, same: (P, P) -> bool)
    returns (calls: seq<P>)
    requires IsClosed(g, roots)
    ensures forall i, j :: 0 <= i < j < |calls| ==> calls[i] != calls[j]
    ensures forall p :: p in calls <==> IsReachable(g, roots, p) && p in g && Implements(g[p], target, same)
  {
    var worklist, visited := roots, {};
    calls := [];
    StartsWalk(g, roots);
    while worklist != []
      invariant IsWalk(g, roots, worklist, visited)
      invariant IsCalled(g, target, same, visited, calls)
      decreases |g.Keys - visited|, |worklist|
    {
      var protocol := worklist[|worklist| - 1];
      assert worklist == worklist[..|worklist| - 1] + [protocol];
      worklist := worklist[..|worklist| - 1];
      if protocol in visited {
        SkipsVisited(g, roots, worklist, protocol, visited);
        continue;
      }
      Visits(g, roots, worklist, protocol, visited);
      CallsBack(g, target, same, visited, calls, protocol);
      assert protocol in g.Keys - visited;
      visited := visited + {protocol};
      var implements := ProtocolImplementsProtocol(g[protocol], target, same);
      if implements {
        calls := calls + [protocol];
      }
      worklist := worklist + g[protocol];
    }
    forall p ensures p in calls <==> IsReachable(g, roots, p) && p in g && Implements(g[p], target, same) {
      WalkIsComplete(g, roots, visited, p);
    }
  }
}
