/** Breadth-first traversal of a list-mode graph from a start vertex, with a bit vector
    as the visited set and a FIFO queue of discovered vertices. The traversal order is
    specified by the functions `Expand` (one scan of a neighbour list) and `Bfs` (the
    queue loop); the method `BFS` is proved to produce exactly that order, and the
    lemmas below prove what the order is: it starts at the start vertex, lists no vertex
    twice, and lists exactly the vertices reachable from the start.
 */
module Traversal {

  import opened Graphs
  import opened Meow

  /** Every neighbour id names a vertex of the graph. */
  ghost predicate IdsInRange(adj: seq<seq<nat>>)
  {
    forall u, v :: 0 <= u < |adj| && v in adj[u] ==> v < |adj|
  }

  /** Every element of `s` is a vertex id below `n`. */
  ghost predicate InRange(s: set<nat>, n: nat)
  {
    forall x :: x in s ==> x < n
  }

  /** No element occurs twice. */
  predicate Distinct(s: seq<nat>)
  {
    forall a, b :: 0 <= a < b < |s| ==> s[a] != s[b]
  }

  /** The elements of a sequence, as a set. */
  function Elems(s: seq<nat>): set<nat>
  {
    set x | x in s
  }

  /** The vertex ids below `n` that are not yet visited. */
  ghost function Unvisited(n: nat, visited: set<nat>): set<nat>
  {
    set x | 0 <= x < n && x !in visited
  }

  /** The vertices the scan of the neighbour list `nbrs` pushes, in push order: each
      neighbour not visited yet is marked and pushed, the others are skipped. */
  function Expand(nbrs: seq<nat>, visited: set<nat>): seq<nat>
    decreases |nbrs|
  {
    if nbrs == [] then []
    else if nbrs[0] in visited then Expand(nbrs[1..], visited)
    else [nbrs[0]] + Expand(nbrs[1..], visited + {nbrs[0]})
  }

  /** A scan pushes each neighbour at most once, pushes only unvisited neighbours, and
      leaves every neighbour visited or pushed. */
  lemma {:induction false} ExpandPushesUnvisited(nbrs: seq<nat>, visited: set<nat>)
    ensures Distinct(Expand(nbrs, visited))
    ensures forall x :: x in Expand(nbrs, visited) ==> x in nbrs && x !in visited
    ensures forall x :: x in nbrs ==> x in visited || x in Expand(nbrs, visited)
    decreases |nbrs|
  {
    if nbrs != [] {
      if nbrs[0] in visited {
        ExpandPushesUnvisited(nbrs[1..], visited);
      } else {
        ExpandPushesUnvisited(nbrs[1..], visited + {nbrs[0]});
      }
    }
  }

  /** Marking the vertices pushed by a scan never grows the set of unvisited vertices,
      and shrinks it whenever something was pushed. */
  lemma UnvisitedDecreases(n: nat, visited: set<nat>, added: seq<nat>)
    requires forall x :: x in added ==> x < n && x !in visited
    ensures added == [] ==> visited + Elems(added) == visited
    ensures added != [] ==> Unvisited(n, visited + Elems(added)) < Unvisited(n, visited)
  {
    if added != [] {
      assert added[0] in Unvisited(n, visited);
      assert added[0] !in Unvisited(n, visited + Elems(added));
    }
  }

  /** The order in which vertices leave the queue, when the queue holds `queue` and the
      vertices in `visited` are marked: the front vertex is popped and emitted, the scan
      of its neighbour list pushes the unvisited ones, and the loop goes on until the
      queue is empty. */
  function Bfs(adj: seq<seq<nat>>, queue: seq<nat>, visited: set<nat>): seq<nat>
    requires IdsInRange(adj) && InRange(visited, |adj|)
    requires forall x :: x in queue ==> x in visited
    decreases Unvisited(|adj|, visited), |queue|
  {
    if queue == [] then []
    else
      var u := queue[0];
      assert u in queue;
      var added := Expand(adj[u], visited);
      ExpandPushesUnvisited(adj[u], visited);
      UnvisitedDecreases(|adj|, visited, added);
      [u] + Bfs(adj, queue[1..] + added, visited + Elems(added))
  }

  /** One turn of the queue loop: the front vertex `u` is emitted, the scan of its
      neighbours marks and queues the vertices `added`, and the unvisited set shrinks
      unless the queue does. */
  lemma BfsTurn(adj: seq<seq<nat>>, queue: seq<nat>, visited: set<nat>)
    requires IdsInRange(adj) && InRange(visited, |adj|)
    requires forall x :: x in queue ==> x in visited
    requires queue != []
    ensures queue[0] < |adj|
    ensures var added := Expand(adj[queue[0]], visited);
      InRange(visited + Elems(added), |adj|) &&
      (forall x :: x in queue[1..] + added ==> x in visited + Elems(added)) &&
      Bfs(adj, queue, visited) == [queue[0]] + Bfs(adj, queue[1..] + added, visited + Elems(added)) &&
      (added == [] ==> visited + Elems(added) == visited) &&
      (added != [] ==> Unvisited(|adj|, visited + Elems(added)) < Unvisited(|adj|, visited))
  {
    var u := queue[0];
    assert u in queue;
    ExpandPushesUnvisited(adj[u], visited);
    UnvisitedDecreases(|adj|, visited, Expand(adj[u], visited));
  }

  /** Proof hint for the queue loop of `BFS`: concatenation is associative. Dafny knows
      this, but stating it as a lemma lets the loop's proof use it as one fact instead of
      rediscovering it element by element. */
  lemma ConcatAssociates(a: seq<nat>, b: seq<nat>, c: seq<nat>)
    ensures (a + b) + c == a + (b + c)
  {
  }

  /** One step of the neighbour scan, from position `j` of the list. */
  lemma ExpandStep(nbrs: seq<nat>, j: nat, visited: set<nat>)
    requires j < |nbrs|
    ensures Expand(nbrs[j..], visited) ==
              if nbrs[j] in visited then Expand(nbrs[j + 1..], visited)
              else [nbrs[j]] + Expand(nbrs[j + 1..], visited + {nbrs[j]})
  {
    assert nbrs[j..][1..] == nbrs[j + 1..];
  }

  /** The traversal from `start`: only `start` is marked and queued at the outset. */
  function BfsOrder(adj: seq<seq<nat>>, start: nat): seq<nat>
    requires IdsInRange(adj) && start < |adj|
  {
    Bfs(adj, [start], {start})
  }

  /** `p` is a walk in the graph: a non-empty sequence of vertices, each a neighbour
      of the one before it. */
  ghost predicate IsPath(adj: seq<seq<nat>>, p: seq<nat>)
  {
    |p| >= 1 &&
    (forall i :: 0 <= i < |p| ==> p[i] < |adj|) &&
    (forall i :: 0 <= i < |p| - 1 ==> p[i + 1] in adj[p[i]])
  }

  /** Some walk leads from `start` to `x`. */
  ghost predicate Reachable(adj: seq<seq<nat>>, start: nat, x: nat)
  {
    exists p :: IsPath(adj, p) && p[0] == start && p[|p| - 1] == x
  }

  /** The vertices reachable from `start`. */
  ghost function ReachableSet(adj: seq<seq<nat>>, start: nat): set<nat>
  {
    set x | 0 <= x < |adj| && Reachable(adj, start, x)
  }

  /** Every neighbour of a vertex in `w` is in `w`, and `w` holds only vertex ids. */
  ghost predicate Closed(adj: seq<seq<nat>>, w: set<nat>)
  {
    InRange(w, |adj|) &&
    forall x, v :: x in w && x < |adj| && v in adj[x] ==> v in w
  }

  /** Every visited vertex that is no longer queued has had all its neighbours marked. */
  ghost predicate ScannedOutsideQueue(adj: seq<seq<nat>>, queue: seq<nat>, visited: set<nat>)
  {
    forall x, v :: x in visited && x !in queue && x < |adj| && v in adj[x] ==> v in visited
  }

  /** The bit vector `visited` has one bit per vertex, set exactly for the vertices
      in `marked`. */
  ghost predicate Tracks(visited: BoolArray, marked: set<nat>, n: nat)
    reads visited, visited.data
  {
    visited.Valid() && visited.size == n && Mirrors(visited.Contents, marked)
  }

  /** Bit `x` is set exactly when `x` is in `marked`, and `marked` has no other members. */
  ghost predicate Mirrors(bits: seq<bool>, marked: set<nat>)
  {
    InRange(marked, |bits|) &&
    forall x :: 0 <= x < |bits| ==> bits[x] == (x in marked)
  }

  /** Setting bit `v` mirrors marking `v`. */
  lemma MirrorsMark(bits: seq<bool>, marked: set<nat>, v: nat)
    requires Mirrors(bits, marked) && v < |bits|
    ensures Mirrors(bits[v := true], marked + {v})
  {
  }

  /** Every queued vertex is emitted. */
  lemma {:induction false} BfsEmitsQueue(adj: seq<seq<nat>>, queue: seq<nat>, visited: set<nat>)
    requires IdsInRange(adj) && InRange(visited, |adj|)
    requires forall x :: x in queue ==> x in visited
    ensures forall x :: x in queue ==> x in Bfs(adj, queue, visited)
    decreases Unvisited(|adj|, visited), |queue|
  {
    if queue != [] {
      var u := queue[0];
      assert u in queue;
      var added := Expand(adj[u], visited);
      ExpandPushesUnvisited(adj[u], visited);
      UnvisitedDecreases(|adj|, visited, added);
      var rest := queue[1..] + added;
      BfsEmitsQueue(adj, rest, visited + Elems(added));
      forall x | x in queue
        ensures x in Bfs(adj, queue, visited)
      {
        if x != u {
          assert x in queue[1..];
          assert x in rest;
        }
      }
    }
  }

  /** Started from a queue without repetitions, the traversal emits no vertex twice, and
      every vertex it emits is either queued already or not yet visited. */
  lemma {:induction false} BfsDistinct(adj: seq<seq<nat>>, queue: seq<nat>, visited: set<nat>)
    requires IdsInRange(adj) && InRange(visited, |adj|)
    requires forall x :: x in queue ==> x in visited
    requires Distinct(queue)
    ensures Distinct(Bfs(adj, queue, visited))
    ensures forall x :: x in Bfs(adj, queue, visited) ==> x in queue || x !in visited
    decreases Unvisited(|adj|, visited), |queue|
  {
    if queue != [] {
      var u := queue[0];
      assert u in queue;
      var added := Expand(adj[u], visited);
      ExpandPushesUnvisited(adj[u], visited);
      UnvisitedDecreases(|adj|, visited, added);
      var rest := queue[1..] + added;
      var visited' := visited + Elems(added);
      assert Distinct(rest) by {
        forall a, b | 0 <= a < b < |rest|
          ensures rest[a] != rest[b]
        {
          if b >= |queue| - 1 && a < |queue| - 1 {
            assert rest[a] in visited;
            assert rest[b] in added;
          }
        }
      }
      BfsDistinct(adj, rest, visited');
      var tail := Bfs(adj, rest, visited');
      assert Bfs(adj, queue, visited) == [u] + tail;
      forall x | x in tail
        ensures x in queue || x !in visited
      {
        if x in rest && x !in added {
          assert x in queue[1..];
        }
      }
    }
  }

  /** When the vertices already scanned had all their neighbours marked, the traversal
      ends with a closed set: the scanned vertices together with everything emitted. */
  lemma {:induction false} BfsClosed(adj: seq<seq<nat>>, queue: seq<nat>, visited: set<nat>)
    requires IdsInRange(adj) && InRange(visited, |adj|)
    requires forall x :: x in queue ==> x in visited
    requires ScannedOutsideQueue(adj, queue, visited)
    ensures visited <= (visited - Elems(queue)) + Elems(Bfs(adj, queue, visited))
    ensures Closed(adj, (visited - Elems(queue)) + Elems(Bfs(adj, queue, visited)))
    decreases Unvisited(|adj|, visited), |queue|
  {
    var out := Bfs(adj, queue, visited);
    BfsEmitsQueue(adj, queue, visited);
    if queue == [] {
      assert visited - Elems(queue) == visited;
    } else {
      var u := queue[0];
      assert u in queue;
      var added := Expand(adj[u], visited);
      ExpandPushesUnvisited(adj[u], visited);
      UnvisitedDecreases(|adj|, visited, added);
      var rest := queue[1..] + added;
      var visited' := visited + Elems(added);
      assert ScannedOutsideQueue(adj, rest, visited') by {
        forall x, v | x in visited' && x !in rest && x < |adj| && v in adj[x]
          ensures v in visited'
        {
          if x != u {
            assert x !in queue;
          }
        }
      }
      BfsClosed(adj, rest, visited');
      BfsEmitsQueue(adj, rest, visited');
      var tail := Bfs(adj, rest, visited');
      assert out == [u] + tail;
      assert (visited - Elems(queue)) + Elems(out) == (visited' - Elems(rest)) + Elems(tail) by {
        forall x | x in (visited' - Elems(rest)) + Elems(tail)
          ensures x in (visited - Elems(queue)) + Elems(out)
        {
          if x in tail {
            assert x in out;
          } else if x == u {
            assert x in out;
          } else {
            assert x in visited && x !in queue;
          }
        }
        forall x | x in (visited - Elems(queue)) + Elems(out)
          ensures x in (visited' - Elems(rest)) + Elems(tail)
        {
          if x == u && x in rest {
            assert x in tail;
          } else if x !in out {
            assert x !in rest;
          }
        }
      }
    }
  }

  /** A walk that starts in a closed set stays in it. */
  lemma {:induction false} PathStaysIn(adj: seq<seq<nat>>, w: set<nat>, p: seq<nat>, k: nat)
    requires Closed(adj, w) && IsPath(adj, p) && p[0] in w && k < |p|
    ensures p[k] in w
  {
    if k > 0 {
      PathStaysIn(adj, w, p, k - 1);
      assert p[k] in adj[p[k - 1]];
    }
  }

  /** A closed set holding `start` holds every vertex reachable from `start`. */
  lemma ClosedHoldsReachable(adj: seq<seq<nat>>, w: set<nat>, start: nat)
    requires Closed(adj, w) && start in w
    ensures ReachableSet(adj, start) <= w
  {
    forall x | x in ReachableSet(adj, start)
      ensures x in w
    {
      var p :| IsPath(adj, p) && p[0] == start && p[|p| - 1] == x;
      PathStaysIn(adj, w, p, |p| - 1);
    }
  }

  /** A neighbour of a reachable vertex is reachable. */
  lemma ReachableStep(adj: seq<seq<nat>>, start: nat, u: nat, v: nat)
    requires Reachable(adj, start, u) && u < |adj| && v in adj[u] && v < |adj|
    ensures Reachable(adj, start, v)
  {
    var p :| IsPath(adj, p) && p[0] == start && p[|p| - 1] == u;
    var q := p + [v];
    assert IsPath(adj, q) && q[0] == start && q[|q| - 1] == v;
  }

  /** When every visited vertex is reachable from `start`, so is every emitted vertex. */
  lemma {:induction false} BfsSound(adj: seq<seq<nat>>, start: nat, queue: seq<nat>, visited: set<nat>)
    requires IdsInRange(adj) && InRange(visited, |adj|)
    requires forall x :: x in queue ==> x in visited
    requires forall x :: x in visited ==> Reachable(adj, start, x)
    ensures forall x :: x in Bfs(adj, queue, visited) ==> Reachable(adj, start, x)
    decreases Unvisited(|adj|, visited), |queue|
  {
    if queue != [] {
      var u := queue[0];
      assert u in queue;
      var added := Expand(adj[u], visited);
      ExpandPushesUnvisited(adj[u], visited);
      UnvisitedDecreases(|adj|, visited, added);
      var visited' := visited + Elems(added);
      forall x | x in visited'
        ensures Reachable(adj, start, x)
      {
        if x !in visited {
          ReachableStep(adj, start, u, x);
        }
      }
      BfsSound(adj, start, queue[1..] + added, visited');
    }
  }

  /** A sequence without repetitions has as many distinct elements as entries. */
  lemma {:induction false} DistinctCardinality(s: seq<nat>)
    requires Distinct(s)
    ensures |Elems(s)| == |s|
  {
    if s != [] {
      DistinctCardinality(s[1..]);
      assert Elems(s) == {s[0]} + Elems(s[1..]);
      assert s[0] !in Elems(s[1..]);
    }
  }

  /** The traversal starts at `start` and emits every vertex at most once. */
  lemma BfsOrderDistinct(adj: seq<seq<nat>>, start: nat)
    requires IdsInRange(adj) && start < |adj|
    ensures |BfsOrder(adj, start)| >= 1 && BfsOrder(adj, start)[0] == start
    ensures Distinct(BfsOrder(adj, start))
  {
    BfsDistinct(adj, [start], {start});
  }

  /** Soundness: every emitted vertex is reachable from `start`. */
  lemma BfsOrderSound(adj: seq<seq<nat>>, start: nat)
    requires IdsInRange(adj) && start < |adj|
    ensures forall x :: x in BfsOrder(adj, start) ==> Reachable(adj, start, x)
  {
    assert IsPath(adj, [start]);
    BfsSound(adj, start, [start], {start});
  }

  /** Completeness: every vertex reachable from `start` is emitted. */
  lemma BfsOrderComplete(adj: seq<seq<nat>>, start: nat)
    requires IdsInRange(adj) && start < |adj|
    ensures ReachableSet(adj, start) <= Elems(BfsOrder(adj, start))
  {
    BfsClosed(adj, [start], {start});
    assert {start} - Elems([start]) == {};
    ClosedHoldsReachable(adj, Elems(BfsOrder(adj, start)), start);
  }

  /** The emitted vertices are exactly the reachable ones, so the traversal has one
      entry per reachable vertex and at most one per vertex of the graph. */
  lemma BfsOrderIsReachableSet(adj: seq<seq<nat>>, start: nat)
    requires IdsInRange(adj) && start < |adj|
    ensures Elems(BfsOrder(adj, start)) == ReachableSet(adj, start)
    ensures |BfsOrder(adj, start)| == |ReachableSet(adj, start)| <= |adj|
  {
    var order := BfsOrder(adj, start);
    BfsOrderDistinct(adj, start);
    BfsOrderSound(adj, start);
    BfsOrderComplete(adj, start);
    forall x | x in order
      ensures x in ReachableSet(adj, start)
    {
      var p :| IsPath(adj, p) && p[0] == start && p[|p| - 1] == x;
    }
    DistinctCardinality(order);
    var ids := seq(|adj|, i => i);
    assert ReachableSet(adj, start) <= Elems(ids) by {
      forall x | x in ReachableSet(adj, start)
        ensures x in Elems(ids)
      {
        assert ids[x] == x;
      }
    }
    DistinctCardinality(ids);
    SubsetCardinality(ReachableSet(adj, start), Elems(ids));
  }

  /** A subset is no larger than its superset. */
  lemma {:induction false} SubsetCardinality(a: set<nat>, b: set<nat>)
    requires a <= b
    ensures |a| <= |b|
  {
    if a != {} {
      var x :| x in a;
      SubsetCardinality(a - {x}, b - {x});
    }
  }

  /** Some walk of at most `k` edges leads from `start` to `x`. */
  ghost predicate WithinSteps(adj: seq<seq<nat>>, start: nat, x: nat, k: nat)
  {
    exists p :: IsPath(adj, p) && p[0] == start && p[|p| - 1] == x && |p| <= k + 1
  }

  /** The distance of `x` from `start`: the number of edges of a shortest walk. */
  ghost function Dist(adj: seq<seq<nat>>, start: nat, x: nat): (d: nat)
    requires Reachable(adj, start, x)
    ensures WithinSteps(adj, start, x, d)
    ensures forall k: nat :: WithinSteps(adj, start, x, k) ==> d <= k
  {
    var p :| IsPath(adj, p) && p[0] == start && p[|p| - 1] == x;
    assert WithinSteps(adj, start, x, |p| - 1);
    ShortestExists(adj, start, x, |p| - 1);
    var d: nat :| WithinSteps(adj, start, x, d) && forall k: nat :: k < d ==> !WithinSteps(adj, start, x, k);
    d
  }

  /** Every vertex of `s` is reachable from `start`, and their distances from `start`
      never decrease along `s`. */
  ghost predicate DistanceOrdered(adj: seq<seq<nat>>, start: nat, s: seq<nat>)
  {
    forall a, b :: 0 <= a < b < |s| ==>
      Reachable(adj, start, s[a]) && Reachable(adj, start, s[b]) &&
      Dist(adj, start, s[a]) <= Dist(adj, start, s[b])
  }

  /** Among the walk lengths up to `k` that reach `x`, there is a least one. */
  lemma {:induction false} ShortestExists(adj: seq<seq<nat>>, start: nat, x: nat, k: nat)
    requires WithinSteps(adj, start, x, k)
    ensures exists d: nat :: WithinSteps(adj, start, x, d) && forall j: nat :: j < d ==> !WithinSteps(adj, start, x, j)
  {
    if j: nat :| j < k && WithinSteps(adj, start, x, j) {
      ShortestExists(adj, start, x, j);
    } else {
      assert forall j: nat :: j < k ==> !WithinSteps(adj, start, x, j);
    }
  }

  /** A walk of at most `j` edges is one of at most `k` edges, for `j <= k`. */
  lemma WithinStepsMonotone(adj: seq<seq<nat>>, start: nat, x: nat, j: nat, k: nat)
    requires j <= k && WithinSteps(adj, start, x, j)
    ensures WithinSteps(adj, start, x, k)
  {
    var p :| IsPath(adj, p) && p[0] == start && p[|p| - 1] == x && |p| <= j + 1;
  }

  /** A vertex farther than `k` edges is farther than any `j <= k` edges. */
  lemma WithinStepsAntitone(adj: seq<seq<nat>>, start: nat, x: nat, j: nat, k: nat)
    requires j <= k && !WithinSteps(adj, start, x, k)
    ensures !WithinSteps(adj, start, x, j)
  {
    if WithinSteps(adj, start, x, j) {
      WithinStepsMonotone(adj, start, x, j, k);
    }
  }

  /** One more edge reaches the neighbours. */
  lemma WithinStepsNeighbour(adj: seq<seq<nat>>, start: nat, u: nat, v: nat, k: nat)
    requires WithinSteps(adj, start, u, k) && u < |adj| && v in adj[u] && v < |adj|
    ensures WithinSteps(adj, start, v, k + 1)
  {
    var p :| IsPath(adj, p) && p[0] == start && p[|p| - 1] == u && |p| <= k + 1;
    var q := p + [v];
    assert IsPath(adj, q) && q[0] == start && q[|q| - 1] == v;
  }

  /** A vertex at distance exactly `k + 1` is a neighbour of a vertex within `k` edges. */
  lemma WithinStepsPredecessor(adj: seq<seq<nat>>, start: nat, y: nat, k: nat)
    requires WithinSteps(adj, start, y, k + 1) && !WithinSteps(adj, start, y, k)
    ensures exists w: nat :: w < |adj| && y in adj[w] && WithinSteps(adj, start, w, k)
  {
    var p :| IsPath(adj, p) && p[0] == start && p[|p| - 1] == y && |p| <= k + 2;
    var q := p[..|p| - 1];
    assert IsPath(adj, q) && q[0] == start && q[|q| - 1] == p[|p| - 2];
    assert y in adj[p[|p| - 2]];
  }

  /** No vertex of `s` is within `D - 1` edges: all are at distance `D` or more. */
  ghost predicate AtLeast(adj: seq<seq<nat>>, start: nat, s: seq<nat>, D: nat)
  {
    forall x :: x in s ==> D == 0 || !WithinSteps(adj, start, x, D - 1)
  }

  /** `s` lists vertices in non-decreasing distance: whatever is within `k` edges comes
      before everything that is not. */
  ghost predicate NearerFirst(adj: seq<seq<nat>>, start: nat, s: seq<nat>)
  {
    forall a, b, k: nat :: 0 <= a < b < |s| && WithinSteps(adj, start, s[b], k) ==>
      WithinSteps(adj, start, s[a], k)
  }

  /** The queue holds vertices at distance `D` followed by vertices at distance `D + 1`,
      every vertex within `D` edges is marked, and every marked vertex that has left the
      queue has had its neighbours marked. */
  ghost predicate Layered(adj: seq<seq<nat>>, start: nat, queue: seq<nat>, visited: set<nat>, D: nat)
  {
    (forall x :: x in queue ==> WithinSteps(adj, start, x, D + 1)) &&
    AtLeast(adj, start, queue, D) &&
    (forall a, b :: 0 <= a < b < |queue| && WithinSteps(adj, start, queue[b], D) ==>
       WithinSteps(adj, start, queue[a], D)) &&
    (forall y: nat :: WithinSteps(adj, start, y, D) ==> y in visited) &&
    ScannedOutsideQueue(adj, queue, visited)
  }

  /** When the front of the queue is at distance `D + 1`, the whole queue is, and the
      vertices within `D + 1` edges are all marked already. */
  lemma LayeredShift(adj: seq<seq<nat>>, start: nat, queue: seq<nat>, visited: set<nat>, D: nat)
    requires Layered(adj, start, queue, visited, D)
    requires queue != [] && !WithinSteps(adj, start, queue[0], D)
    ensures Layered(adj, start, queue, visited, D + 1)
  {
    forall x | x in queue
      ensures WithinSteps(adj, start, x, D + 2) && !WithinSteps(adj, start, x, D)
    {
      WithinStepsMonotone(adj, start, x, D + 1, D + 2);
      var b :| 0 <= b < |queue| && queue[b] == x;
    }
    forall y: nat | WithinSteps(adj, start, y, D + 1)
      ensures y in visited
    {
      if !WithinSteps(adj, start, y, D) {
        WithinStepsPredecessor(adj, start, y, D);
        var w: nat :| w < |adj| && y in adj[w] && WithinSteps(adj, start, w, D);
        assert w in visited;
      }
    }
  }

  /** Scanning a front vertex at distance `D` keeps the queue layered at level `D`: the
      vertices it pushes are at distance `D + 1`. */
  lemma LayeredStep(adj: seq<seq<nat>>, start: nat, queue: seq<nat>, visited: set<nat>, D: nat)
    requires IdsInRange(adj) && InRange(visited, |adj|)
    requires forall x :: x in queue ==> x in visited
    requires Layered(adj, start, queue, visited, D)
    requires queue != [] && WithinSteps(adj, start, queue[0], D)
    ensures queue[0] < |adj|
    ensures var added := Expand(adj[queue[0]], visited);
      Layered(adj, start, queue[1..] + added, visited + Elems(added), D)
  {
    var u := queue[0];
    assert u in queue;
    var added := Expand(adj[u], visited);
    ExpandPushesUnvisited(adj[u], visited);
    var rest := queue[1..] + added;
    var visited' := visited + Elems(added);
    forall x | x in rest
      ensures WithinSteps(adj, start, x, D + 1)
      ensures D == 0 || !WithinSteps(adj, start, x, D - 1)
    {
      if x in added {
        WithinStepsNeighbour(adj, start, u, x, D);
        if D > 0 && WithinSteps(adj, start, x, D - 1) {
          WithinStepsMonotone(adj, start, x, D - 1, D);
        }
      } else {
        assert x in queue[1..];
        assert x in queue;
      }
    }
    forall a, b | 0 <= a < b < |rest| && WithinSteps(adj, start, rest[b], D)
      ensures WithinSteps(adj, start, rest[a], D)
    {
      if b < |queue| - 1 {
        assert rest[a] == queue[a + 1] && rest[b] == queue[b + 1];
      }
    }
    assert ScannedOutsideQueue(adj, rest, visited') by {
      forall x, v | x in visited' && x !in rest && x < |adj| && v in adj[x]
        ensures v in visited'
      {
        if x != u {
          assert x !in queue;
        }
      }
    }
  }

  /** Emitting `u`, at distance `level`, before vertices at distance `level` or more
      keeps the order non-decreasing in distance. */
  lemma NearerFirstPrepend(adj: seq<seq<nat>>, start: nat, u: nat, tail: seq<nat>, level: nat)
    requires WithinSteps(adj, start, u, level)
    requires AtLeast(adj, start, tail, level) && NearerFirst(adj, start, tail)
    ensures NearerFirst(adj, start, [u] + tail)
  {
    var out := [u] + tail;
    forall a, b, k: nat | 0 <= a < b < |out| && WithinSteps(adj, start, out[b], k)
      ensures WithinSteps(adj, start, out[a], k)
    {
      if a == 0 {
        assert out[b] == tail[b - 1] && out[b] in tail;
        if k < level {
          WithinStepsMonotone(adj, start, out[b], k, level - 1);
        }
        WithinStepsMonotone(adj, start, u, level, k);
      } else {
        assert out[a] == tail[a - 1] && out[b] == tail[b - 1];
      }
    }
  }

  /** A vertex at distance `D` or more before vertices at distance `level >= D` or more:
      all are at distance `D` or more. */
  lemma AtLeastPrepend(adj: seq<seq<nat>>, start: nat, u: nat, tail: seq<nat>, D: nat, level: nat)
    requires D <= level && (D == 0 || !WithinSteps(adj, start, u, D - 1))
    requires AtLeast(adj, start, tail, level)
    ensures AtLeast(adj, start, [u] + tail, D)
  {
    forall x | x in [u] + tail
      ensures D == 0 || !WithinSteps(adj, start, x, D - 1)
    {
      if x != u && D > 0 {
        assert x in tail;
        WithinStepsAntitone(adj, start, x, D - 1, level - 1);
      }
    }
  }

  /** From a layered queue at level `D`, the traversal emits nothing closer than `D`, and
      emits the vertices in non-decreasing distance. */
  lemma {:induction false} BfsLayers(adj: seq<seq<nat>>, start: nat, queue: seq<nat>, visited: set<nat>, D: nat)
    requires IdsInRange(adj) && InRange(visited, |adj|)
    requires forall x :: x in queue ==> x in visited
    requires Layered(adj, start, queue, visited, D)
    ensures AtLeast(adj, start, Bfs(adj, queue, visited), D)
    ensures NearerFirst(adj, start, Bfs(adj, queue, visited))
    decreases Unvisited(|adj|, visited), |queue|
  {
    if queue != [] {
      var u := queue[0];
      assert u in queue;
      var level := D;
      if !WithinSteps(adj, start, u, D) {
        LayeredShift(adj, start, queue, visited, D);
        level := D + 1;
      }
      BfsTurn(adj, queue, visited);
      LayeredStep(adj, start, queue, visited, level);
      var added := Expand(adj[u], visited);
      var rest := queue[1..] + added;
      var visited' := visited + Elems(added);
      BfsLayers(adj, start, rest, visited', level);
      var tail := Bfs(adj, rest, visited');
      assert Bfs(adj, queue, visited) == [u] + tail;
      NearerFirstPrepend(adj, start, u, tail, level);
      AtLeastPrepend(adj, start, u, tail, D, level);
    }
  }

  /** The traversal emits the vertices in non-decreasing distance from `start`: the
      breadth-first order, level by level. */
  lemma BfsOrderByDistance(adj: seq<seq<nat>>, start: nat)
    requires IdsInRange(adj) && start < |adj|
    ensures DistanceOrdered(adj, start, BfsOrder(adj, start))
  {
    var order := BfsOrder(adj, start);
    assert IsPath(adj, [start]);
    assert WithinSteps(adj, start, start, 1);
    forall y: nat | WithinSteps(adj, start, y, 0)
      ensures y in {start}
    {
      var p :| IsPath(adj, p) && p[0] == start && p[|p| - 1] == y && |p| <= 1;
    }
    assert Layered(adj, start, [start], {start}, 0);
    BfsLayers(adj, start, [start], {start}, 0);
    BfsOrderSound(adj, start);
    forall a, b | 0 <= a < b < |order|
      ensures Reachable(adj, start, order[a]) && Reachable(adj, start, order[b]) &&
              Dist(adj, start, order[a]) <= Dist(adj, start, order[b])
    {
      assert order[a] in order && order[b] in order;
      var k := Dist(adj, start, order[b]);
      assert WithinSteps(adj, start, order[a], k);
    }
  }

  /** A vertex without neighbours is traversed alone. */
  lemma IsolatedStart(adj: seq<seq<nat>>, start: nat)
    requires IdsInRange(adj) && start < |adj| && adj[start] == []
    ensures BfsOrder(adj, start) == [start]
  {
    assert Expand(adj[start], {start}) == [];
    assert Bfs(adj, [start][1..] + [], {start} + Elems([])) == [];
  }

  /** The six-vertex example graph: 0-1, 0-2, 1-3, 1-4, 2-4, 3-5, each edge listed from
      both ends. */
  function ExampleGraph(): (adj: seq<seq<nat>>)
    ensures |adj| == 6 && IdsInRange(adj)
  {
    [[1, 2], [0, 3, 4], [0, 4], [1, 5], [1, 2], [3]]
  }

  /** From vertex 0 the example graph is traversed level by level as 0 1 2 3 4 5. */
  lemma ExampleOrder(adj: seq<seq<nat>>)
    requires adj == ExampleGraph()
    ensures BfsOrder(adj, 0) == [0, 1, 2, 3, 4, 5]
  {
    assert [0] + [1, 2, 3, 4, 5] == [0, 1, 2, 3, 4, 5];
    assert adj[0] == [1, 2];
    assert Expand(adj[0], {0}) == [1, 2] by {
      assert Expand([2], {0, 1}) == [2];
    }
    BfsTurnAt(adj, [0], {0}, [1, 2], [1, 2], {0, 1, 2});
    ExampleVisit1(adj);
  }

  /** Vertex 1 pushes 3 and 4. */
  lemma ExampleVisit1(adj: seq<seq<nat>>)
    requires adj == ExampleGraph()
    ensures Bfs(adj, [1, 2], {0, 1, 2}) == [1, 2, 3, 4, 5]
  {
    assert [1] + [2, 3, 4, 5] == [1, 2, 3, 4, 5];
    assert adj[1] == [0, 3, 4];
    assert Expand(adj[1], {0, 1, 2}) == [3, 4] by {
      assert Expand([3, 4], {0, 1, 2}) == [3, 4] by {
        assert Expand([4], {0, 1, 2, 3}) == [4];
      }
    }
    BfsTurnAt(adj, [1, 2], {0, 1, 2}, [3, 4], [2, 3, 4], {0, 1, 2, 3, 4});
    ExampleVisit2(adj);
  }

  /** Vertex 2 finds nothing new. */
  lemma ExampleVisit2(adj: seq<seq<nat>>)
    requires adj == ExampleGraph()
    ensures Bfs(adj, [2, 3, 4], {0, 1, 2, 3, 4}) == [2, 3, 4, 5]
  {
    var visited: set<nat> := {0, 1, 2, 3, 4};
    assert [2] + [3, 4, 5] == [2, 3, 4, 5];
    assert adj[2] == [0, 4];
    assert Expand(adj[2], visited) == [];
    BfsTurnAt(adj, [2, 3, 4], visited, [], [3, 4], visited);
    ExampleVisit3(adj);
  }

  /** Vertex 3 pushes 5. */
  lemma ExampleVisit3(adj: seq<seq<nat>>)
    requires adj == ExampleGraph()
    ensures Bfs(adj, [3, 4], {0, 1, 2, 3, 4}) == [3, 4, 5]
  {
    assert [3] + [4, 5] == [3, 4, 5];
    assert adj[3] == [1, 5];
    assert Expand(adj[3], {0, 1, 2, 3, 4}) == [5];
    BfsTurnAt(adj, [3, 4], {0, 1, 2, 3, 4}, [5], [4, 5], {0, 1, 2, 3, 4, 5});
    ExampleVisit4(adj);
  }

  /** Vertices 4 and 5 find nothing new, and the queue runs empty. */
  lemma ExampleVisit4(adj: seq<seq<nat>>)
    requires adj == ExampleGraph()
    ensures Bfs(adj, [4, 5], {0, 1, 2, 3, 4, 5}) == [4, 5]
  {
    var all: set<nat> := {0, 1, 2, 3, 4, 5};
    assert [5] + [] == [5] && [4] + [5] == [4, 5];
    assert adj[4] == [1, 2] && adj[5] == [3];
    assert Expand(adj[4], all) == [];
    assert Expand(adj[5], all) == [];
    BfsTurnAt(adj, [5], all, [], [], all);
    assert Bfs(adj, [5], all) == [5];
    BfsTurnAt(adj, [4, 5], all, [], [5], all);
  }

  /** One turn of the queue loop with the pushed vertices, the next queue and the next
      visited set worked out. */
  lemma BfsTurnAt(adj: seq<seq<nat>>, queue: seq<nat>, visited: set<nat>,
                  added: seq<nat>, queue': seq<nat>, visited': set<nat>)
    requires IdsInRange(adj) && InRange(visited, |adj|) && forall x :: x in queue ==> x in visited
    requires queue != [] && queue[0] < |adj| && Expand(adj[queue[0]], visited) == added
    requires queue[1..] + added == queue' && visited + Elems(added) == visited'
    ensures InRange(visited', |adj|) && forall x :: x in queue' ==> x in visited'
    ensures Bfs(adj, queue, visited) == [queue[0]] + Bfs(adj, queue', visited')
  {
    BfsTurn(adj, queue, visited);
  }

  /** Everything proved about the traversal order, gathered for the contract of `BFS`. */
  lemma BreadthFirstOrder(adj: seq<seq<nat>>, start: nat, order: seq<nat>)
    requires IdsInRange(adj) && start < |adj| && order == BfsOrder(adj, start)
    ensures |order| >= 1 && order[0] == start && Distinct(order)
    ensures Elems(order) == ReachableSet(adj, start)
    ensures |order| == |ReachableSet(adj, start)| <= |adj|
    ensures DistanceOrdered(adj, start, order)
  {
    BfsOrderDistinct(adj, start);
    BfsOrderIsReachableSet(adj, start);
    BfsOrderByDistance(adj, start);
  }

  /** Traverses a list-mode graph breadth-first from `start` and returns the order in
      which the vertices leave the queue (the original writes them to the output). */
  method BFS(start: nat, graph: Graph) returns (order: seq<nat>)
    requires graph.Valid() && graph.mode == List
    requires start < graph.vertices && IdsInRange(graph.data)
    ensures order == BfsOrder(graph.data, start)
    ensures order[0] == start && Distinct(order)
    ensures Elems(order) == ReachableSet(graph.data, start)
    ensures |order| == |ReachableSet(graph.data, start)| <= graph.vertices
    ensures DistanceOrdered(graph.data, start, order)
  {
    var adj := graph.data;
    var visited := new BoolArray(graph.GetVertices(), false);
    var queue: seq<nat> := [];
    ghost var marked: set<nat> := {};
    MirrorsMark(visited.Contents, marked, start);
    visited.Set(start, true);
    marked := {start};
    queue := queue + [start];
    order := [];
    assert queue == [start] && order + Bfs(adj, queue, marked) == BfsOrder(adj, start);
    while queue != []
      invariant Tracks(visited, marked, |adj|) && fresh(visited) && fresh(visited.data)
      invariant forall x :: x in queue ==> x in marked
      invariant order + Bfs(adj, queue, marked) == BfsOrder(adj, start)
      decreases Unvisited(|adj|, marked), |queue|
    {
      ghost var queueBefore, orderBefore, marked0 := queue, order, marked;
      var u := queue[0];
      BfsTurn(adj, queue, marked);
      ghost var added := Expand(adj[u], marked);
      queue := queue[1..];
      order := order + [u];
      var neighbours := graph.Row(u);
      assert neighbours == adj[u];
      queue := ScanNeighbours(visited, neighbours, queue, marked);
      marked := marked + Elems(added);
      assert queue == queueBefore[1..] + added;
      ConcatAssociates(orderBefore, [u], Bfs(adj, queue, marked));
    }
    BreadthFirstOrder(adj, start, order);
  }

  /** The scan of one neighbour list: every neighbour whose bit is clear gets its bit
      set and is pushed at the back of the queue. */
  method ScanNeighbours(visited: BoolArray, neighbours: seq<nat>, queue: seq<nat>, ghost marked: set<nat>)
    returns (extended: seq<nat>)
    requires Tracks(visited, marked, visited.size)
    requires forall v :: v in neighbours ==> v < visited.size
    modifies visited, visited.data
    ensures visited.data == old(visited.data) && visited.size == old(visited.size)
    ensures Tracks(visited, marked + Elems(Expand(neighbours, marked)), visited.size)
    ensures extended == queue + Expand(neighbours, marked)
  {
    extended := queue;
    ghost var now := marked;
    ghost var pushed: seq<nat> := [];
    for j := 0 to |neighbours|
      invariant visited.data == old(visited.data) && visited.size == old(visited.size)
      invariant Tracks(visited, now, visited.size)
      invariant extended == queue + pushed && now == marked + Elems(pushed)
      invariant Expand(neighbours, marked) == pushed + Expand(neighbours[j..], now)
    {
      var v := neighbours[j];
      assert v in neighbours;
      ExpandStep(neighbours, j, now);
      var seen := visited.Get(v);
      if !seen {
        assert v !in now;
        MirrorsMark(visited.Contents, now, v);
        visited.Set(v, true);
        assert pushed + Expand(neighbours[j..], now) == (pushed + [v]) + Expand(neighbours[j + 1..], now + {v});
        assert Elems(pushed + [v]) == Elems(pushed) + {v};
        now := now + {v};
        extended := extended + [v];
        pushed := pushed + [v];
      } else {
        assert v in now;
      }
    }
    assert neighbours[|neighbours|..] == [];
    assert pushed == Expand(neighbours, marked);
  }

  /** The driver's example: the six-vertex graph is built row by row through write
      access to the rows, then traversed from vertex 0. */
  method ExampleTraversal() returns (order: seq<nat>)
    ensures order == [0, 1, 2, 3, 4, 5]
  {
    var graph := new Graph(6, List);
    graph.SetRow(0, [1, 2]);
    graph.SetRow(1, [0, 3, 4]);
    graph.SetRow(2, [0, 4]);
    graph.SetRow(3, [1, 5]);
    graph.SetRow(4, [1, 2]);
    graph.SetRow(5, [3]);
    assert graph.data == ExampleGraph();
    order := BFS(0, graph);
    ExampleOrder(graph.data);
  }
}
