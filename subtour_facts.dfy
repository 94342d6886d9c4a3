/** What `get_subtours` guarantees: its components partition the nodes,
    each starts at its smallest node and they come in increasing order of
    first node, consecutive nodes follow the first matching arc, and when the
    arcs form a permutation every component is a directed cycle. */
module CycleDecomposerFacts {
  import opened CycleDecomposer

  lemma NoDupAppend(a: seq<int>, b: seq<int>)
    requires NoDup(a) && NoDup(b)
    requires forall x :: x in a ==> x !in b
    ensures NoDup(a + b)
  {
    forall p, q | 0 <= p < q < |a + b| ensures (a + b)[p] != (a + b)[q] {
      if q >= |a| && p < |a| {
        assert (a + b)[q] in b;
      }
    }
  }

  lemma {:induction false} FlattenAppend(xs: seq<seq<int>>, ys: seq<seq<int>>)
    ensures Flatten(xs + ys) == Flatten(xs) + Flatten(ys)
  {
    if xs != [] {
      assert (xs + ys)[1..] == xs[1..] + ys;
      FlattenAppend(xs[1..], ys);
    } else {
      assert xs + ys == ys;
    }
  }

  lemma {:induction false} NoDupCard(s: seq<int>)
    requires NoDup(s)
    ensures |Elems(s)| == |s|
  {
    if s != [] {
      NoDupCard(s[1..]);
      assert Elems(s) == {s[0]} + Elems(s[1..]);
      assert s[0] !in Elems(s[1..]);
    }
  }

  /** `r` lists every node of `0 .. n-1` outside `visited` exactly once, in
      non-empty components. */
  ghost predicate CoversRest(r: seq<seq<int>>, n: nat, visited: set<int>) {
    NoDup(Flatten(r)) &&
    (forall v :: v in Flatten(r) <==> 0 <= v < n && v !in visited) &&
    (forall c :: c in r ==> c != [])
  }

  lemma {:induction false} ComponentsPartition(edges: seq<Arc>, n: nat, i: nat, visited: set<int>)
    requires SuccInRange(edges, n) && visited <= Nodes(n) && i <= n
    requires forall v :: 0 <= v < i ==> v in visited
    ensures CoversRest(Components(edges, n, i, visited), n, visited)
    decreases n - i
  {
    if i == n {
    } else if i in visited {
      ComponentsPartition(edges, n, i + 1, visited);
    } else {
      var c := Walk(edges, n, visited, i);
      var rest := Components(edges, n, i + 1, visited + Elems(c));
      ComponentsPartition(edges, n, i + 1, visited + Elems(c));
      assert ([c] + rest)[1..] == rest;
      assert Flatten([c] + rest) == c + Flatten(rest);
      NoDupAppend(c, Flatten(rest));
    }
  }

  /** The components partition `0 .. n-1`: every node occurs in exactly one
      of them and only once there, none is empty, and their lengths add up
      to `n`. */
  ghost predicate IsPartition(tours: seq<seq<int>>, n: nat) {
    NoDup(Flatten(tours)) &&
    (forall v :: v in Flatten(tours) <==> 0 <= v < n) &&
    (forall c :: c in tours ==> c != []) &&
    |Flatten(tours)| == n
  }

  /** `get_subtours` returns a partition of the nodes. */
  lemma SubtoursPartition(edges: seq<Arc>, n: nat)
    requires SuccInRange(edges, n)
    ensures IsPartition(Subtours(edges, n), n)
  {
    var tours := Subtours(edges, n);
    ComponentsPartition(edges, n, 0, {});
    NoDupCard(Flatten(tours));
    NodesCard(n);
    assert Elems(Flatten(tours)) == Nodes(n);
  }

  /** Every component is non-empty, starts at index `i` or later with its
      smallest node, and the first nodes strictly increase. */
  predicate MinFirstOrdered(r: seq<seq<int>>, i: int) {
    (forall a :: 0 <= a < |r| ==> r[a] != [] && i <= r[a][0] && forall x :: x in r[a] ==> r[a][0] <= x) &&
    (forall a, b :: 0 <= a < b < |r| ==> r[a][0] < r[b][0])
  }

  lemma {:induction false} ComponentsOrdered(edges: seq<Arc>, n: nat, i: nat, visited: set<int>)
    requires SuccInRange(edges, n) && visited <= Nodes(n) && i <= n
    requires forall v :: 0 <= v < i ==> v in visited
    ensures MinFirstOrdered(Components(edges, n, i, visited), i)
    decreases n - i
  {
    var r := Components(edges, n, i, visited);
    if i == n {
    } else if i in visited {
      ComponentsOrdered(edges, n, i + 1, visited);
    } else {
      var c := Walk(edges, n, visited, i);
      var rest := Components(edges, n, i + 1, visited + Elems(c));
      assert r == [c] + rest;
      ComponentsOrdered(edges, n, i + 1, visited + Elems(c));
      forall a, b | 0 <= a < b < |r| ensures r[a][0] < r[b][0] {
        assert r[b] == rest[b - 1];
        if a > 0 {
          assert r[a] == rest[a - 1];
        }
      }
    }
  }

  /** Each component begins with its smallest node (the smallest node not
      yet visited when it was started), and the components come in strictly
      increasing order of their first node. */
  lemma SubtoursOrdered(edges: seq<Arc>, n: nat)
    requires SuccInRange(edges, n)
    ensures MinFirstOrdered(Subtours(edges, n), 0)
  {
    ComponentsOrdered(edges, n, 0, {});
  }

  /** Consecutive nodes of a component follow `Succ`. */
  predicate Chained(edges: seq<Arc>, c: seq<int>) {
    forall t :: 0 <= t < |c| - 1 ==> Succ(edges, c[t]) == Some(c[t + 1])
  }

  /** A component that ended because its last node has no outgoing arc or
      its successor was already in `seen`. */
  predicate Stopped(edges: seq<Arc>, c: seq<int>, seen: set<int>) {
    c != [] && (Succ(edges, Last(c)).None? || Succ(edges, Last(c)).value in seen)
  }

  lemma {:induction false} WalkChained(edges: seq<Arc>, n: nat, visited: set<int>, node: int)
    requires SuccInRange(edges, n) && visited <= Nodes(n) && 0 <= node < n
    requires node !in visited
    ensures Chained(edges, Walk(edges, n, visited, node))
    decreases n - |visited|
  {
    var c := Walk(edges, n, visited, node);
    WalkUnfold(edges, n, visited, node);
    if Succ(edges, node).Some? && Succ(edges, node).value !in visited + {node} {
      var k := Succ(edges, node).value;
      var rest := Walk(edges, n, visited + {node}, k);
      WalkChained(edges, n, visited + {node}, k);
      forall t | 0 <= t < |c| - 1
        ensures Succ(edges, c[t]) == Some(c[t + 1])
      {
        if t > 0 {
          assert c[t] == rest[t - 1] && c[t + 1] == rest[t];
        }
      }
    }
  }

  lemma {:induction false} WalkStops(edges: seq<Arc>, n: nat, visited: set<int>, node: int)
    requires SuccInRange(edges, n) && visited <= Nodes(n) && 0 <= node < n
    requires node !in visited
    ensures Stopped(edges, Walk(edges, n, visited, node), visited + Elems(Walk(edges, n, visited, node)))
    decreases n - |visited|
  {
    var c := Walk(edges, n, visited, node);
    WalkUnfold(edges, n, visited, node);
    if Succ(edges, node).Some? {
      var k := Succ(edges, node).value;
      var rest := Walk(edges, n, visited + {node}, k);
      ElemsCons(node, rest);
      if k !in visited + {node} {
        WalkStops(edges, n, visited + {node}, k);
        assert Last(c) == Last(rest);
      } else {
        assert Last(c) == node;
      }
    }
  }

  lemma ElemsCons(x: int, s: seq<int>)
    ensures Elems([x] + s) == {x} + Elems(s)
  {
  }

  /** Every component of `r` is chained, and stopped at a node whose
      successor was already seen: in `visited` or in this or an earlier
      component. */
  predicate AllChained(edges: seq<Arc>, r: seq<seq<int>>, visited: set<int>) {
    forall a :: 0 <= a < |r| ==>
      Chained(edges, r[a]) && Stopped(edges, r[a], visited + Elems(Flatten(r[..a + 1])))
  }

  lemma {:induction false} ComponentsChained(edges: seq<Arc>, n: nat, i: nat, visited: set<int>)
    requires SuccInRange(edges, n) && visited <= Nodes(n) && i <= n
    ensures AllChained(edges, Components(edges, n, i, visited), visited)
    decreases n - i
  {
    var r := Components(edges, n, i, visited);
    if i == n {
    } else if i in visited {
      ComponentsChained(edges, n, i + 1, visited);
    } else {
      var c := Walk(edges, n, visited, i);
      var seen := visited + Elems(c);
      var rest := Components(edges, n, i + 1, seen);
      ComponentsChained(edges, n, i + 1, seen);
      WalkChained(edges, n, visited, i);
      WalkStops(edges, n, visited, i);
      ConsChained(edges, visited, c, rest);
    }
  }

  lemma ConsChained(edges: seq<Arc>, visited: set<int>, c: seq<int>, rest: seq<seq<int>>)
    requires Chained(edges, c) && Stopped(edges, c, visited + Elems(c))
    requires AllChained(edges, rest, visited + Elems(c))
    ensures AllChained(edges, [c] + rest, visited)
  {
    var r := [c] + rest;
    forall a | 0 <= a < |r|
      ensures Chained(edges, r[a]) && Stopped(edges, r[a], visited + Elems(Flatten(r[..a + 1])))
    {
      if a == 0 {
        assert r[..1] == [c] + [];
        FlattenAppend([c], []);
      } else {
        assert r[a] == rest[a - 1];
        assert r[..a + 1] == [c] + rest[..a];
        FlattenAppend([c], rest[..a]);
        assert Flatten([c]) == c + Flatten([]);
        assert Elems(c + Flatten(rest[..a])) == Elems(c) + Elems(Flatten(rest[..a]));
      }
    }
  }

  /** Within a component, each next node is the head of the first arc leaving
      the previous one; a component ends when its last node has no outgoing
      arc or that arc leads to a node already visited (in this component or
      an earlier one). */
  lemma SubtoursChained(edges: seq<Arc>, n: nat)
    requires SuccInRange(edges, n)
    ensures AllChained(edges, Subtours(edges, n), {})
  {
    ComponentsChained(edges, n, 0, {});
  }

  /** The arcs form a permutation of `0 .. n-1`: every node is the tail of an
      arc, no two arcs share a tail and no two arcs share a head (with all
      heads in range, so every node is also the head of exactly one arc). */
  predicate IsPermutation(edges: seq<Arc>, n: nat) {
    HeadsInRange(edges, n) &&
    (forall v :: 0 <= v < n ==> v in Tails(edges)) &&
    (forall a, b :: 0 <= a < b < |edges| ==> edges[a].tail != edges[b].tail) &&
    (forall a, b :: 0 <= a < b < |edges| ==> edges[a].head != edges[b].head)
  }

  function Tails(edges: seq<Arc>): set<int> {
    set e | e in edges :: e.tail
  }

  lemma SuccTotal(edges: seq<Arc>, n: nat, v: int)
    requires IsPermutation(edges, n) && 0 <= v < n
    ensures Succ(edges, v).Some?
  {
    assert v in Tails(edges);
    var e :| e in edges && e.tail == v;
  }

  /** Under a permutation no two nodes share a successor. */
  lemma SuccOneToOne(edges: seq<Arc>, n: nat, u: int, w: int)
    requires IsPermutation(edges, n) && Succ(edges, u).Some?
    ensures Succ(edges, u) == Succ(edges, w) <==> u == w
  {
    var k := Succ(edges, u).value;
    var p :| 0 <= p < |edges| && edges[p] == Arc(u, k);
    if Succ(edges, w).Some? {
      var q :| 0 <= q < |edges| && edges[q] == Arc(w, Succ(edges, w).value);
    }
  }

  /** Every node whose successor is in `s` is itself in `s`. */
  predicate PredClosed(edges: seq<Arc>, n: nat, s: set<int>) {
    forall u :: 0 <= u < n && Succ(edges, u).Some? && Succ(edges, u).value in s ==> u in s
  }

  /** Under a permutation the walk from an unvisited node returns to it. */
  lemma WalkReturns(edges: seq<Arc>, n: nat, visited: set<int>, node: int)
    requires IsPermutation(edges, n) && visited <= Nodes(n) && 0 <= node < n
    requires node !in visited && PredClosed(edges, n, visited)
    ensures Succ(edges, Last(Walk(edges, n, visited, node))) == Some(node)
  {
    var c := Walk(edges, n, visited, node);
    WalkChained(edges, n, visited, node);
    WalkStops(edges, n, visited, node);
    var last := Last(c);
    assert c != [] && last == c[|c| - 1] && last in c;
    SuccTotal(edges, n, last);
    var k := Succ(edges, last).value;
    assert k !in visited by {
      assert last !in visited;
    }
    assert k in c;
    forall t | 0 < t < |c| ensures c[t] != k {
      assert c[t - 1] != last;
      assert Succ(edges, c[t - 1]) == Some(c[t]);
      SuccOneToOne(edges, n, c[t - 1], last);
    }
  }

  lemma WalkCloses(edges: seq<Arc>, n: nat, visited: set<int>, node: int)
    requires IsPermutation(edges, n) && visited <= Nodes(n) && 0 <= node < n
    requires node !in visited && PredClosed(edges, n, visited)
    ensures PredClosed(edges, n, visited + Elems(Walk(edges, n, visited, node)))
  {
    var c := Walk(edges, n, visited, node);
    WalkChained(edges, n, visited, node);
    WalkStops(edges, n, visited, node);
    WalkReturns(edges, n, visited, node);
    forall u | 0 <= u < n && Succ(edges, u).Some? && Succ(edges, u).value in visited + Elems(c)
      ensures u in visited + Elems(c)
    {
      var v := Succ(edges, u).value;
      if v !in visited {
        var t :| 0 <= t < |c| && c[t] == v;
        if t > 0 {
          assert Succ(edges, c[t - 1]) == Some(c[t]);
          SuccOneToOne(edges, n, u, c[t - 1]);
        } else {
          SuccOneToOne(edges, n, u, Last(c));
        }
      }
    }
  }

  /** Every component is non-empty and the successor of its last node is its
      first node. */
  predicate AllClosed(edges: seq<Arc>, r: seq<seq<int>>) {
    forall a :: 0 <= a < |r| ==> r[a] != [] && Succ(edges, Last(r[a])) == Some(r[a][0])
  }

  /** The state between components under a permutation: the visited nodes
      are nodes, and closed under predecessor. */
  predicate ClosedSoFar(edges: seq<Arc>, n: nat, visited: set<int>) {
    IsPermutation(edges, n) && visited <= Nodes(n) && PredClosed(edges, n, visited)
  }

  lemma {:induction false} ComponentsClose(edges: seq<Arc>, n: nat, i: nat, visited: set<int>)
    requires ClosedSoFar(edges, n, visited) && i <= n
    ensures AllClosed(edges, Components(edges, n, i, visited))
    decreases n - i
  {
    if i == n {
    } else if i in visited {
      ComponentsClose(edges, n, i + 1, visited);
      assert Components(edges, n, i, visited) == Components(edges, n, i + 1, visited);
    } else {
      var c := Walk(edges, n, visited, i);
      var rest := Components(edges, n, i + 1, visited + Elems(c));
      WalkClosedStep(edges, n, visited, i);
      ComponentsClose(edges, n, i + 1, visited + Elems(c));
      ConsClosed(edges, c, rest);
      assert Components(edges, n, i, visited) == [c] + rest;
    }
  }

  /** A walk started between components is a closed cycle, and the visited
      set stays closed under predecessor once it is added. */
  lemma WalkClosedStep(edges: seq<Arc>, n: nat, visited: set<int>, node: int)
    requires ClosedSoFar(edges, n, visited) && 0 <= node < n && node !in visited
    ensures Walk(edges, n, visited, node) != []
    ensures Succ(edges, Last(Walk(edges, n, visited, node))) == Some(Walk(edges, n, visited, node)[0])
    ensures ClosedSoFar(edges, n, visited + Elems(Walk(edges, n, visited, node)))
  {
    WalkReturns(edges, n, visited, node);
    WalkCloses(edges, n, visited, node);
  }

  lemma ConsClosed(edges: seq<Arc>, c: seq<int>, rest: seq<seq<int>>)
    requires c != [] && Succ(edges, Last(c)) == Some(c[0]) && AllClosed(edges, rest)
    ensures AllClosed(edges, [c] + rest)
  {
    var r := [c] + rest;
    forall a | 0 <= a < |r|
      ensures r[a] != [] && Succ(edges, Last(r[a])) == Some(r[a][0])
    {
      if a > 0 {
        assert r[a] == rest[a - 1];
      }
    }
  }

  /** When the arcs form a permutation, every component is a directed cycle:
      consecutive nodes follow the arcs and the arc leaving the last node
      returns to the first. */
  lemma SubtoursAreCycles(edges: seq<Arc>, n: nat)
    requires IsPermutation(edges, n)
    ensures AllChained(edges, Subtours(edges, n), {})
    ensures AllClosed(edges, Subtours(edges, n))
  {
    ComponentsClose(edges, n, 0, {});
    ComponentsChained(edges, n, 0, {});
  }

  /** Under a permutation, the successor of every node of a component lies in
      that same component. */
  lemma SubtoursClosed(edges: seq<Arc>, n: nat, c: seq<int>, x: int)
    requires IsPermutation(edges, n)
    requires c in Subtours(edges, n) && x in c
    ensures Succ(edges, x).Some? && Succ(edges, x).value in c
  {
    SubtoursAreCycles(edges, n);
    var tours := Subtours(edges, n);
    var a :| 0 <= a < |tours| && tours[a] == c;
    assert Chained(edges, c);
    assert Succ(edges, Last(c)) == Some(c[0]);
    var t :| 0 <= t < |c| && c[t] == x;
    if t < |c| - 1 {
      assert Succ(edges, c[t]) == Some(c[t + 1]);
    } else {
      assert x == Last(c);
    }
  }
}
