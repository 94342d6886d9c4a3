/** The cycle decomposer `get_subtours` of the lazy subtour-elimination model.
    Given a list of directed arcs over the nodes `0 .. n-1`, it walks successor
    pointers from every node not yet visited, in index order, and returns the
    components it collects.  The pure functions `Walk`, `Components` and
    `Subtours` are the specification; `GetSubtours` is the imperative algorithm
    (a `visited` array and a one-element queue) proved equal to it. */
module CycleDecomposer {

  /** A directed arc `(tail, head)`: "the route goes from `tail` to `head`". */
  datatype Arc = Arc(tail: int, head: int)

  datatype Option<T> = None | Some(value: T)

  /** The node set `0 .. n-1`. */
  function Nodes(n: nat): (r: set<int>)
    ensures forall v :: v in r <==> 0 <= v < n
  {
    if n == 0 then {} else Nodes(n - 1) + {n - 1}
  }

  function Elems(s: seq<int>): set<int> {
    set x | x in s
  }

  function Last(s: seq<int>): int
    requires s != []
  {
    s[|s| - 1]
  }

  /** No node occurs twice. */
  predicate NoDup(s: seq<int>) {
    forall a, b :: 0 <= a < b < |s| ==> s[a] != s[b]
  }

  /** Concatenation of the components, in order. Its length is the sum of
      the component lengths. */
  function Flatten(ts: seq<seq<int>>): seq<int> {
    if ts == [] then [] else ts[0] + Flatten(ts[1..])
  }

  /** Every arc leads to a node in `0 .. n-1`. */
  predicate HeadsInRange(edges: seq<Arc>, n: nat) {
    forall e :: e in edges ==> 0 <= e.head < n
  }

  /** The head of the FIRST arc in `edges` whose tail is `node`: the one node
      the inner `for ... break` of `get_subtours` pushes onto the queue. */
  function Succ(edges: seq<Arc>, node: int): (r: Option<int>)
    ensures r.Some? ==> Arc(node, r.value) in edges
    ensures r.None? ==> forall e :: e in edges ==> e.tail != node
  {
    if edges == [] then None
    else if edges[0].tail == node then Some(edges[0].head)
    else Succ(edges[1..], node)
  }

  /** The first arc leaving each node of `0 .. n-1`, if any, leads back into
      `0 .. n-1`.  These are the only heads `get_subtours` indexes `visited`
      with; every other arc is never read for its head. */
  predicate SuccInRange(edges: seq<Arc>, n: nat) {
    forall v :: 0 <= v < n && Succ(edges, v).Some? ==> 0 <= Succ(edges, v).value < n
  }

  /** `Succ` picks the arc at the first index whose tail is `node`. */
  lemma {:induction false} SuccFirst(edges: seq<Arc>, node: int, t: nat)
    requires t < |edges| && edges[t].tail == node
    requires forall s :: 0 <= s < t ==> edges[s].tail != node
    ensures Succ(edges, node) == Some(edges[t].head)
  {
    if t > 0 {
      SuccFirst(edges[1..], node, t - 1);
    }
  }

  lemma SubsetCard(s: set<int>, n: nat)
    requires s <= Nodes(n)
    ensures |s| <= n
  {
    NodesCard(n);
    assert |Nodes(n) - s| + |s| == |Nodes(n)|;
  }

  lemma {:induction false} NodesCard(n: nat)
    ensures |Nodes(n)| == n
  {
    if n > 0 {
      NodesCard(n - 1);
      CardAddOne(Nodes(n - 1), n - 1);
    }
  }

  lemma CardAddOne(s: set<int>, x: int)
    requires x !in s
    ensures |s + {x}| == |s| + 1
  {
  }

  /** The component collected when the walk reaches `node` with the nodes in
      `visited` already marked: nothing if `node` is marked, otherwise `node`
      followed by the walk from its successor. */
  function Walk(edges: seq<Arc>, n: nat, visited: set<int>, node: int): (c: seq<int>)
    requires SuccInRange(edges, n) && visited <= Nodes(n) && 0 <= node < n
    ensures c == [] <==> node in visited
    ensures c != [] ==> c[0] == node
    ensures forall x :: x in c ==> 0 <= x < n && x !in visited
    ensures NoDup(c)
    decreases n - |visited|
  {
    if node in visited then []
    else
      match Succ(edges, node)
      case None => [node]
      case Some(k) =>
        SubsetCard(visited + {node}, n);
        [node] + Walk(edges, n, visited + {node}, k)
  }

  /** The components the outer loop emits from index `i` on, given the nodes
      already marked in `visited`. */
  function Components(edges: seq<Arc>, n: nat, i: nat, visited: set<int>): (r: seq<seq<int>>)
    requires SuccInRange(edges, n) && visited <= Nodes(n) && i <= n
    ensures forall c :: c in r ==> c != [] && forall x :: x in c ==> 0 <= x < n
    decreases n - i
  {
    if i == n then []
    else if i in visited then Components(edges, n, i + 1, visited)
    else
      var c := Walk(edges, n, visited, i);
      [c] + Components(edges, n, i + 1, visited + Elems(c))
  }

  /** What `get_subtours(edges, n)` returns. */
  function Subtours(edges: seq<Arc>, n: nat): (r: seq<seq<int>>)
    requires SuccInRange(edges, n)
    ensures forall c :: c in r ==> c != [] && forall x :: x in c ==> 0 <= x < n
  {
    Components(edges, n, 0, {})
  }

  /** The scan `for j, k in edges: if j == node: ...; break`. */
  method FindSuccessor(edges: seq<Arc>, node: int) returns (r: Option<int>)
    ensures r == Succ(edges, node)
  {
    for t := 0 to |edges|
      invariant forall s :: 0 <= s < t ==> edges[s].tail != node
    {
      if edges[t].tail == node {
        SuccFirst(edges, node, t);
        return Some(edges[t].head);
      }
    }
    r := None;
  }

  /** Advancing the walk by one unmarked node: the collected prefix grows by
      that node, and what remains is the walk from its successor (or nothing
      when it has none). */
  lemma AdvanceWalk(edges: seq<Arc>, n: nat, whole: seq<int>, now: set<int>, component: seq<int>, node: int)
    requires SuccInRange(edges, n) && now <= Nodes(n) && 0 <= node < n && node !in now
    requires component + Walk(edges, n, now, node) == whole
    ensures now + {node} <= Nodes(n) && |now| < |now + {node}| <= n
    ensures Succ(edges, node).None? ==> component + [node] == whole
    ensures Succ(edges, node).Some? ==>
      (component + [node]) + Walk(edges, n, now + {node}, Succ(edges, node).value) == whole
  {
    WalkUnfold(edges, n, now, node);
    if Succ(edges, node).Some? {
      AppendAssoc(component, [node], Walk(edges, n, now + {node}, Succ(edges, node).value));
    }
  }

  /** The walk from an unmarked node is that node followed by the walk from
      its successor, if it has one, with the node marked. */
  lemma WalkUnfold(edges: seq<Arc>, n: nat, visited: set<int>, node: int)
    requires SuccInRange(edges, n) && visited <= Nodes(n) && 0 <= node < n && node !in visited
    ensures visited + {node} <= Nodes(n) && |visited| < |visited + {node}| <= n
    ensures Succ(edges, node).None? ==> Walk(edges, n, visited, node) == [node]
    ensures Succ(edges, node).Some? ==>
      Walk(edges, n, visited, node) == [node] + Walk(edges, n, visited + {node}, Succ(edges, node).value)
  {
    SubsetCard(visited + {node}, n);
  }

  /** The body of `if not visited[node]`: marks `node` and scans for its
      successor. */
  method Visit(edges: seq<Arc>, n: nat, visited: array<bool>, ghost now: set<int>, node: int)
    returns (next: Option<int>)
    requires visited.Length == n && 0 <= node < n
    requires forall v :: 0 <= v < n ==> (visited[v] <==> v in now)
    modifies visited
    ensures forall v :: 0 <= v < n ==> (visited[v] <==> v in now + {node})
    ensures next == Succ(edges, node)
  {
    visited[node] := true;
    next := FindSuccessor(edges, node);
  }

  /** The inner `while q:` loop of `get_subtours`: walks from `start`, marking
      each node it reaches in `visited` (whose marked entries are `marked`),
      and returns the component it collected. */
  method CollectComponent(edges: seq<Arc>, n: nat, visited: array<bool>, ghost marked: set<int>, start: int)
    returns (component: seq<int>)
    requires SuccInRange(edges, n) && visited.Length == n && marked <= Nodes(n) && 0 <= start < n
    requires forall v :: 0 <= v < n ==> (visited[v] <==> v in marked)
    modifies visited
    ensures component == Walk(edges, n, marked, start)
    ensures forall v :: 0 <= v < n ==> (visited[v] <==> v in marked + Elems(component))
  {
    ghost var whole := Walk(edges, n, marked, start);
    component := [];
    var q: seq<int> := [start];
    ghost var now := marked;
    while q != []
      invariant |q| <= 1 && (q != [] ==> 0 <= q[0] < n)
      invariant now <= Nodes(n)
      invariant forall v :: 0 <= v < n ==> (visited[v] <==> v in now)
      invariant forall v :: v in now <==> v in marked || v in component
      invariant q == [] ==> component == whole
      invariant q != [] ==> component + Walk(edges, n, now, q[0]) == whole
      decreases n - |now|, |q|
    {
      var node := q[0];
      q := q[1..];
      assert q == [];
      if visited[node] {
        assert Walk(edges, n, now, node) == [];
        assert component + [] == component;
      } else {
        AdvanceWalk(edges, n, whole, now, component, node);
        var next := Visit(edges, n, visited, now, node);
        now := now + {node};
        component := component + [node];
        if next.Some? {
          q := q + [next.value];
          assert q[0] == next.value;
        }
      }
    }
    assert now == marked + Elems(component);
  }

  /** One step of the outer loop: a marked index contributes nothing, an
      unmarked one contributes its walk before the rest. */
  lemma ComponentsStep(edges: seq<Arc>, n: nat, done: seq<seq<int>>, whole: seq<seq<int>>, i: nat, visited: set<int>)
    requires SuccInRange(edges, n) && visited <= Nodes(n) && i < n
    requires done + Components(edges, n, i, visited) == whole
    ensures i in visited ==> done + Components(edges, n, i + 1, visited) == whole
    ensures i !in visited ==> visited + Elems(Walk(edges, n, visited, i)) <= Nodes(n)
    ensures i !in visited ==>
      (done + [Walk(edges, n, visited, i)]) + Components(edges, n, i + 1, visited + Elems(Walk(edges, n, visited, i))) == whole
  {
    if i !in visited {
      var c := Walk(edges, n, visited, i);
      AppendAssoc(done, [c], Components(edges, n, i + 1, visited + Elems(c)));
    }
  }

  lemma AppendAssoc<T>(a: seq<T>, b: seq<T>, c: seq<T>)
    ensures (a + b) + c == a + (b + c)
  {
  }

  /** `get_subtours(edges, n_count)`. */
  method GetSubtours(edges: seq<Arc>, n: nat) returns (tours: seq<seq<int>>)
    requires SuccInRange(edges, n)
    ensures tours == Subtours(edges, n)
  {
    var visited := new bool[n](_ => false);
    ghost var marked: set<int> := {};
    ghost var whole := Subtours(edges, n);
    tours := [];
    for i := 0 to n
      invariant marked <= Nodes(n)
      invariant forall v :: 0 <= v < n ==> (visited[v] <==> v in marked)
      invariant tours + Components(edges, n, i, marked) == whole
    {
      ComponentsStep(edges, n, tours, whole, i, marked);
      if visited[i] {
        continue;
      }
      var component := CollectComponent(edges, n, visited, marked, i);
      marked := marked + Elems(component);
      tours := tours + [component];
    }
    assert Components(edges, n, n, marked) == [];
    assert tours + [] == tours;
  }
}
