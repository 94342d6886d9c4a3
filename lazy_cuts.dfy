/** The cut selection of `subtour_elim_callback`: at an integer candidate
    the callback keeps the arcs whose value exceeds 0.5, decomposes them with
    `get_subtours`, and, when there is more than one component, adds for
    every component `S` shorter than the node count the lazy constraint
    "the arcs with both ends in `S` sum to at most |S| - 1".  Reading the
    candidate (`cbGetSolution`) and posting the constraint (`cbLazy`) are the
    solver's; here the candidate is a parameter and the cuts are the result. */
module LazyCuts {
  import opened CycleDecomposer
  import opened CycleDecomposerFacts

  /** The candidate's value of every arc variable `x[i, j]`. */
  type Values = map<Arc, real>

  /** Every pair `(i, j)` of nodes has a variable, self-loops included, as
      `addVars(count, count)` creates them. */
  predicate HasAllArcs(vals: Values, n: nat) {
    forall i, j :: 0 <= i < n && 0 <= j < n ==> Arc(i, j) in vals
  }

  /** Row-major order of the variable keys. */
  predicate ArcBefore(a: Arc, b: Arc) {
    a.tail < b.tail || (a.tail == b.tail && a.head < b.head)
  }

  function RoundedRow(vals: Values, n: nat, i: nat, j: nat): (r: seq<Arc>)
    requires HasAllArcs(vals, n) && i < n && j <= n
    ensures forall e :: e in r ==> e.tail == i && j <= e.head < n && vals[e] > 0.5
    decreases n - j
  {
    if j == n then []
    else (if vals[Arc(i, j)] > 0.5 then [Arc(i, j)] else []) + RoundedRow(vals, n, i, j + 1)
  }

  function RoundedFrom(vals: Values, n: nat, i: nat): (r: seq<Arc>)
    requires HasAllArcs(vals, n) && i <= n
    ensures forall e :: e in r ==> i <= e.tail < n && 0 <= e.head < n && vals[e] > 0.5
    decreases n - i
  {
    if i == n then [] else RoundedRow(vals, n, i, 0) + RoundedFrom(vals, n, i + 1)
  }

  /** `[(i, j) for i, j in model._vars.keys() if vals[i, j] > 0.5]`. */
  function Rounded(vals: Values, n: nat): (r: seq<Arc>)
    requires HasAllArcs(vals, n)
    ensures HeadsInRange(r, n) && SuccInRange(r, n)
  {
    RoundedFrom(vals, n, 0)
  }

  lemma {:induction false} RoundedRowHas(vals: Values, n: nat, i: nat, j: nat, b: int)
    requires HasAllArcs(vals, n) && i < n && j <= b < n
    requires vals[Arc(i, b)] > 0.5
    ensures Arc(i, b) in RoundedRow(vals, n, i, j)
    decreases n - j
  {
    if j < b {
      RoundedRowHas(vals, n, i, j + 1, b);
    }
  }

  lemma {:induction false} RoundedFromHas(vals: Values, n: nat, i: nat, a: int, b: int)
    requires HasAllArcs(vals, n) && i <= a < n && 0 <= b < n
    requires vals[Arc(a, b)] > 0.5
    ensures Arc(a, b) in RoundedFrom(vals, n, i)
    decreases n - i
  {
    if i == a {
      RoundedRowHas(vals, n, a, 0, b);
    } else {
      RoundedFromHas(vals, n, i + 1, a, b);
    }
  }

  /** The callback considers exactly the arcs whose candidate value exceeds
      0.5. */
  lemma RoundedExactly(vals: Values, n: nat, a: int, b: int)
    requires HasAllArcs(vals, n)
    ensures Arc(a, b) in Rounded(vals, n) <==> 0 <= a < n && 0 <= b < n && vals[Arc(a, b)] > 0.5
  {
    if 0 <= a < n && 0 <= b < n && vals[Arc(a, b)] > 0.5 {
      RoundedFromHas(vals, n, 0, a, b);
    }
  }

  predicate InKeyOrder(r: seq<Arc>) {
    forall p, q :: 0 <= p < q < |r| ==> ArcBefore(r[p], r[q])
  }

  lemma ConcatInKeyOrder(x: seq<Arc>, y: seq<Arc>)
    requires InKeyOrder(x) && InKeyOrder(y)
    requires forall e, f :: e in x && f in y ==> ArcBefore(e, f)
    ensures InKeyOrder(x + y)
  {
    forall p, q | 0 <= p < q < |x + y| ensures ArcBefore((x + y)[p], (x + y)[q]) {
      if p < |x| && q >= |x| {
        assert (x + y)[p] in x && (x + y)[q] in y;
      }
    }
  }

  lemma {:induction false} RoundedRowOrder(vals: Values, n: nat, i: nat, j: nat)
    requires HasAllArcs(vals, n) && i < n && j <= n
    ensures InKeyOrder(RoundedRow(vals, n, i, j))
    decreases n - j
  {
    if j < n {
      RoundedRowOrder(vals, n, i, j + 1);
      ConcatInKeyOrder(if vals[Arc(i, j)] > 0.5 then [Arc(i, j)] else [], RoundedRow(vals, n, i, j + 1));
    }
  }

  lemma {:induction false} RoundedFromOrder(vals: Values, n: nat, i: nat)
    requires HasAllArcs(vals, n) && i <= n
    ensures InKeyOrder(RoundedFrom(vals, n, i))
    decreases n - i
  {
    if i < n {
      RoundedRowOrder(vals, n, i, 0);
      RoundedFromOrder(vals, n, i + 1);
      ConcatInKeyOrder(RoundedRow(vals, n, i, 0), RoundedFrom(vals, n, i + 1));
    }
  }

  /** The rounded arcs come in the order of the variable keys, row by row:
      this is the order in which `get_subtours` scans them for a node's
      first outgoing arc. */
  lemma RoundedInKeyOrder(vals: Values, n: nat)
    requires HasAllArcs(vals, n)
    ensures InKeyOrder(Rounded(vals, n))
  {
    RoundedFromOrder(vals, n, 0);
  }

  /** A lazy constraint: the variables of `arcs` sum to at most `rhs`; it is
      posted for the node set `nodes`. */
  datatype Cut = Cut(nodes: seq<int>, arcs: seq<Arc>, rhs: int)

  /** `(i, j) for j in tour if i != j`. */
  function RowArcs(i: int, tour: seq<int>): (r: seq<Arc>)
    ensures forall e :: e in r ==> e.tail == i && e.head in tour && e.head != i
  {
    if tour == [] then []
    else (if i != tour[0] then [Arc(i, tour[0])] else []) + RowArcs(i, tour[1..])
  }

  /** `(i, j) for i in rows for j in tour if i != j`. */
  function InsideArcs(rows: seq<int>, tour: seq<int>): (r: seq<Arc>)
    ensures forall e :: e in r ==> e.tail in rows && e.head in tour && e.tail != e.head
  {
    if rows == [] then [] else RowArcs(rows[0], tour) + InsideArcs(rows[1..], tour)
  }

  lemma {:induction false} RowArcsHas(i: int, tour: seq<int>, j: int)
    requires j in tour && j != i
    ensures Arc(i, j) in RowArcs(i, tour)
  {
    if tour[0] != j {
      RowArcsHas(i, tour[1..], j);
    }
  }

  lemma {:induction false} InsideArcsHas(rows: seq<int>, tour: seq<int>, i: int, j: int)
    requires i in rows && j in tour && i != j
    ensures Arc(i, j) in InsideArcs(rows, tour)
  {
    if rows[0] == i {
      RowArcsHas(i, tour, j);
    } else {
      InsideArcsHas(rows[1..], tour, i, j);
    }
  }

  /** The constraint `quicksum(x[i, j] for i in tour for j in tour if i != j)
      <= len(tour) - 1`. */
  function SubtourCut(tour: seq<int>): (c: Cut)
    ensures c.nodes == tour && c.rhs == |tour| - 1
    ensures forall e :: e in c.arcs ==> e.tail in tour && e.head in tour && e.tail != e.head
  {
    Cut(tour, InsideArcs(tour, tour), |tour| - 1)
  }

  /** The cut of a component sums exactly the arcs with both ends in the
      component, self-loops excluded, and its bound is one less than the
      component's size. */
  lemma SubtourCutArcs(tour: seq<int>, i: int, j: int)
    ensures Arc(i, j) in SubtourCut(tour).arcs <==> i in tour && j in tour && i != j
    ensures SubtourCut(tour).rhs == |tour| - 1
  {
    if i in tour && j in tour && i != j {
      InsideArcsHas(tour, tour, i, j);
    }
  }

  /** The loop `for tour in tours: if len(tour) < count: cbLazy(...)`: in
      general the subtour cuts of the components shorter than `n`, in order.
      The contract states the list exactly only when every component is
      shorter, the one case `SubtourCuts` reaches (see `SubtoursSizes`). */
  function CutsFor(tours: seq<seq<int>>, n: nat): (cuts: seq<Cut>)
    ensures forall c :: c in cuts ==> c.nodes in tours && |c.nodes| < n && c == SubtourCut(c.nodes)
    ensures (forall t :: t in tours ==> |t| < n) ==>
              |cuts| == |tours| && forall a :: 0 <= a < |tours| ==> cuts[a] == SubtourCut(tours[a])
  {
    if tours == [] then []
    else (if |tours[0]| < n then [SubtourCut(tours[0])] else []) + CutsFor(tours[1..], n)
  }

  /** The cuts `subtour_elim_callback` posts for the candidate `vals` over
      `n` nodes.  With more than one component, every component gets its
      cut, in the order of the components; with one component (a tour through
      all `n` nodes) none is posted.  So, for `n > 0`, the callback posts
      nothing exactly when the candidate's arcs form a single tour through
      every node. */
  function SubtourCuts(vals: Values, n: nat): (cuts: seq<Cut>)
    requires HasAllArcs(vals, n)
    ensures var tours := Subtours(Rounded(vals, n), n);
      (|tours| > 1 ==>
         |cuts| == |tours| && forall a :: 0 <= a < |tours| ==> cuts[a] == SubtourCut(tours[a])) &&
      (|tours| == 1 ==> cuts == [] && |tours[0]| == n) &&
      (n > 0 ==> (cuts == [] <==> |tours| == 1))
  {
    var tours := Subtours(Rounded(vals, n), n);
    SubtoursSizes(Rounded(vals, n), n);
    if |tours| > 1 then CutsFor(tours, n) else []
  }

  lemma {:induction false} FlattenLength(ts: seq<seq<int>>, a: nat)
    requires a < |ts| && forall t :: t in ts ==> t != []
    ensures |Flatten(ts)| >= |ts[a]| + |ts| - 1
  {
    var rest := ts[1..];
    assert forall t :: t in rest ==> t in ts;
    assert |Flatten(ts)| == |ts[0]| + |Flatten(rest)|;
    assert ts[0] in ts;
    if a > 0 {
      assert rest[a - 1] == ts[a];
      FlattenLength(rest, a - 1);
    } else if |ts| > 1 {
      assert rest[0] in ts;
      FlattenLength(rest, 0);
    }
  }

  /** The sizes that decide which cuts are posted: when there are several
      components each is shorter than `n`, a single component holds all `n`
      nodes, and over at least one node there is at least one component. */
  lemma SubtoursSizes(edges: seq<Arc>, n: nat)
    requires SuccInRange(edges, n)
    ensures var tours := Subtours(edges, n);
      (|tours| > 1 ==> forall t :: t in tours ==> |t| < n) &&
      (|tours| == 1 ==> |tours[0]| == n) &&
      (n > 0 ==> |tours| >= 1)
  {
    var tours := Subtours(edges, n);
    SubtoursPartition(edges, n);
    if |tours| > 1 {
      forall t | t in tours ensures |t| < n {
        var a :| 0 <= a < |tours| && tours[a] == t;
        FlattenLength(tours, a);
      }
    } else if |tours| == 1 {
      assert Flatten(tours) == tours[0] + Flatten([]);
    } else {
      assert Flatten(tours) == [];
    }
  }

  /** Value of the constraint's left-hand side at the candidate. */
  function Lhs(vals: Values, arcs: seq<Arc>): real
    requires forall e :: e in arcs ==> e in vals
  {
    if arcs == [] then 0.0 else vals[arcs[0]] + Lhs(vals, arcs[1..])
  }

  predicate Violated(vals: Values, c: Cut)
    requires forall e :: e in c.arcs ==> e in vals
  {
    Lhs(vals, c.arcs) > c.rhs as real
  }

  /** An integer candidate, as the solver reports at `MIPSOL`. */
  predicate Binary(vals: Values) {
    forall e :: e in vals ==> vals[e] == 0.0 || vals[e] == 1.0
  }

  lemma {:induction false} LhsAppend(vals: Values, x: seq<Arc>, y: seq<Arc>)
    requires forall e :: e in x + y ==> e in vals
    ensures Lhs(vals, x + y) == Lhs(vals, x) + Lhs(vals, y)
  {
    if x != [] {
      assert (x + y)[1..] == x[1..] + y;
      LhsAppend(vals, x[1..], y);
    } else {
      assert x + y == y;
    }
  }

  lemma {:induction false} LhsRowAtLeast(vals: Values, i: int, tour: seq<int>, j: int)
    requires forall e :: e in RowArcs(i, tour) ==> e in vals && vals[e] >= 0.0
    requires Arc(i, j) in vals && j in tour && j != i
    ensures Lhs(vals, RowArcs(i, tour)) >= vals[Arc(i, j)]
  {
    var head := if i != tour[0] then [Arc(i, tour[0])] else [];
    LhsAppend(vals, head, RowArcs(i, tour[1..]));
    if tour[0] != j {
      LhsRowAtLeast(vals, i, tour[1..], j);
    } else {
      LhsNonNegative(vals, RowArcs(i, tour[1..]));
    }
  }

  lemma {:induction false} LhsNonNegative(vals: Values, arcs: seq<Arc>)
    requires forall e :: e in arcs ==> e in vals && vals[e] >= 0.0
    ensures Lhs(vals, arcs) >= 0.0
  {
    if arcs != [] {
      LhsNonNegative(vals, arcs[1..]);
    }
  }

  lemma {:induction false} LhsInsideAtLeast(vals: Values, rows: seq<int>, tour: seq<int>)
    requires forall i, j :: i in rows && j in tour ==> Arc(i, j) in vals
    requires forall i :: i in rows ==> Lhs(vals, RowArcs(i, tour)) >= 1.0
    ensures Lhs(vals, InsideArcs(rows, tour)) >= |rows| as real
  {
    if rows != [] {
      LhsAppend(vals, RowArcs(rows[0], tour), InsideArcs(rows[1..], tour));
      LhsInsideAtLeast(vals, rows[1..], tour);
    }
  }

  /** Every node of a cycle component contributes its own out-arc, whose
      value is 1, to the cut's left-hand side, so that side is at least the
      component's size. */
  lemma CycleCutViolated(vals: Values, n: nat, tour: seq<int>)
    requires HasAllArcs(vals, n) && Binary(vals)
    requires IsPermutation(Rounded(vals, n), n)
    requires forall i :: 0 <= i < n ==> vals[Arc(i, i)] <= 0.5
    requires tour in Subtours(Rounded(vals, n), n)
    ensures forall e :: e in SubtourCut(tour).arcs ==> e in vals
    ensures Lhs(vals, SubtourCut(tour).arcs) >= |tour| as real
    ensures Violated(vals, SubtourCut(tour))
  {
    var edges := Rounded(vals, n);
    SubtoursPartition(edges, n);
    assert forall x :: x in tour ==> x in Flatten(Subtours(edges, n)) by {
      forall x | x in tour ensures x in Flatten(Subtours(edges, n)) {
        FlattenHas(Subtours(edges, n), tour, x);
      }
    }
    forall i | i in tour ensures Lhs(vals, RowArcs(i, tour)) >= 1.0 {
      SubtoursClosed(edges, n, tour, i);
      var j := Succ(edges, i).value;
      RoundedExactly(vals, n, i, j);
      LhsRowAtLeast(vals, i, tour, j);
    }
    LhsInsideAtLeast(vals, tour, tour);
  }

  lemma {:induction false} FlattenHas(ts: seq<seq<int>>, t: seq<int>, x: int)
    requires t in ts && x in t
    ensures x in Flatten(ts)
  {
    if ts[0] != t {
      FlattenHas(ts[1..], t, x);
    }
  }

  /** Every cut the callback posts is violated by the candidate that
      triggered it, when that candidate is integral, has no self-loop (the
      model fixes `x[i, i] = 0`) and, as the degree constraints ensure, its
      arcs form a permutation of the nodes: each component is then a cycle
      with `|S|` arcs inside `S`, against a bound of `|S| - 1`. */
  lemma CutsViolated(vals: Values, n: nat)
    requires HasAllArcs(vals, n) && Binary(vals)
    requires IsPermutation(Rounded(vals, n), n)
    requires forall i :: 0 <= i < n ==> vals[Arc(i, i)] <= 0.5
    ensures forall c :: c in SubtourCuts(vals, n) ==>
      (forall e :: e in c.arcs ==> e in vals) && Violated(vals, c)
  {
    forall c | c in SubtourCuts(vals, n)
      ensures (forall e :: e in c.arcs ==> e in vals) && Violated(vals, c)
    {
      CycleCutViolated(vals, n, c.nodes);
    }
  }
}
