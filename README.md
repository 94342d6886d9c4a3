# Subtour elimination and instance records of a routing model

The repository solves a single-vehicle routing problem with deadlines on the
Gurobi MILP solver (the min-max model, "Modelo B", minimises the largest
lateness over all stops). The parts that do not depend on the solver are
modelled and verified here:

- **`get_subtours`** (module `CycleDecomposer`, file `subtours.dfy`). This is
  the cycle decomposer. It walks successor pointers from every unvisited node
  in index order and collects the components.
  - The pure functions `Walk`, `Components` and `Subtours` specify it.
  - The methods `FindSuccessor`, `CollectComponent` and `GetSubtours` are the
    imperative algorithm. It uses a `visited` array and a queue that holds at
    most one node, and it is proved equal to the specification.
- **Properties of the decomposition** (module `CycleDecomposerFacts`, file
  `subtour_facts.dfy`):
  - the components are a partition of `0 .. n-1`;
  - each component starts with its minimum, and the first nodes increase;
  - consecutive nodes follow the first matching arc;
  - when the arcs form a permutation, every component is a directed cycle.
- **Cut selection of `subtour_elim_callback`** (module `LazyCuts`, file
  `lazy_cuts.dfy`). It takes the candidate's arc values and returns the lazy
  constraints the callback would post. The main property is that every posted
  cut is violated by the candidate that triggered it.
- **The `delay_times` list** reported after solving (module `Lateness`, file
  `lateness.dfy`). It is modelled together with its relation to the objective
  variable `max_atraso`.
- **The instance record builders** (module `Instances`, file `instances.dfy`):
  - the record building of `read_instances` and of `load_instance`;
  - the outer loop of `read_instances` over the files;
  - `is_last_point_depot`.

  A line is given as its list of integer tokens, and a blank line is the empty
  list. The readers' exceptions become `Err(NoSuchLine)` (for `IndexError`) and
  `Err(WrongTokenCount)` (for `ValueError`).

## Model

| member | source | states |
|---|---|---|
| CycleDecomposer.SuccFirst | modelo_b.py:16-17 | the successor of a node is the head of the first arc, in list order, whose tail is that node |
| CycleDecomposer.FindSuccessor | modelo_b.py:16-17 | the inner `for j, k in edges: ... break` scan returns that first head, or nothing when no arc leaves the node |
| CycleDecomposer.Walk | modelo_b.py:10-17 | a component is empty exactly when its start is already visited; otherwise it starts at the start node, has no repeated node, and holds only unvisited nodes in `0 .. n-1` |
| CycleDecomposer.Visit | modelo_b.py:13-17 | the body of `if not visited[node]` marks exactly `node` in `visited`, leaves every other mark as it was, and yields the node's first-arc successor, or nothing |
| CycleDecomposer.CollectComponent | modelo_b.py:10-17 | the `while q` loop terminates and returns the specified walk, its queue holding at most one node throughout (loop invariant); afterwards `visited` marks exactly the nodes marked before plus those of the component |
| CycleDecomposer.Components | modelo_b.py:8-18 | the outer `for i` loop from index `i` on emits non-empty components of nodes in `0 .. n-1`; the lemmas below fix which ones |
| CycleDecomposer.Subtours | modelo_b.py:6-19 | `get_subtours` returns non-empty components of nodes in `0 .. n-1`; the lemmas below show they partition the nodes, in increasing order of first node, along first-arc successors |
| CycleDecomposer.GetSubtours | modelo_b.py:6-19 | the imperative decomposer returns exactly `Subtours(edges, n)`, whose partition, ordering and cycle properties are the lemmas below |
| CycleDecomposerFacts.SubtoursPartition | modelo_b.py:7-18 | the components contain every node of `0 .. n-1` exactly once, none is empty, and their lengths add up to `n` |
| CycleDecomposerFacts.SubtoursOrdered | modelo_b.py:8-10 | each component's first node is its smallest, and the first nodes strictly increase from one component to the next |
| CycleDecomposerFacts.WalkChained | modelo_b.py:11-17 | in a walk, each next node is the first-arc successor of the previous one |
| CycleDecomposerFacts.WalkStops | modelo_b.py:11-17 | a walk stops where its last node has no outgoing arc or that arc leads to a node already marked or collected |
| CycleDecomposerFacts.SubtoursChained | modelo_b.py:8-18 | every component is chained by first-arc successors and stops at no successor or at a node already collected |
| CycleDecomposerFacts.SuccOneToOne | modelo_b.py:16-17 | when the arcs form a permutation, two nodes have the same successor exactly when they are the same node |
| CycleDecomposerFacts.WalkReturns | modelo_b.py:11-17 | under a permutation, and when the already-visited nodes are closed under predecessor (as they are between components), the successor of the last node of a walk is the node the walk started from |
| CycleDecomposerFacts.SubtoursAreCycles | modelo_b.py:6-19 | under a permutation, every component is a directed cycle: chained, with the last node's arc returning to the first |
| CycleDecomposerFacts.SubtoursClosed | modelo_b.py:11-17 | under a permutation, the successor of every node of a component lies in that same component |
| LazyCuts.Rounded | modelo_b.py:24 | the rounded arc list has only heads in `0 .. n-1`, so it meets the precondition of `get_subtours` |
| LazyCuts.RoundedExactly | modelo_b.py:23-24 | an arc is kept exactly when both ends are nodes and its candidate value exceeds 0.5 |
| LazyCuts.RoundedInKeyOrder | modelo_b.py:24 | the kept arcs come in row-major key order, which fixes the "first arc" the decomposer picks |
| LazyCuts.InsideArcs | modelo_b.py:29 | the summed arcs run from a row node to a different node of the component |
| LazyCuts.SubtourCut | modelo_b.py:29 | the `cbLazy` constraint of a component is posted for that component, has right-hand side `len(tour) - 1`, and sums only arcs between two different nodes of the component |
| LazyCuts.SubtourCutArcs | modelo_b.py:29 | a component's cut sums exactly the arcs with both ends in the component and distinct ends, with right-hand side `len(tour) - 1` |
| LazyCuts.CutsFor | modelo_b.py:27-29 | only components shorter than the node count get a cut, each is the component's subtour cut, and when all are shorter there is one cut per component, in order |
| LazyCuts.SubtourCuts | modelo_b.py:21-29 | the callback posts, with more than one component, the subtour cut of every component, in order; with exactly one component (a tour through all `n` nodes) nothing; for `n > 0`, nothing exactly when there is one component |
| LazyCuts.SubtoursSizes | modelo_b.py:26-28 | with several components each is shorter than the node count, so the `len(tour) < model._count` test passes for all of them; a single component holds all `n` nodes; for `n > 0` there is at least one component |
| LazyCuts.CycleCutViolated | modelo_b.py:29 | for an integral, permutation-shaped candidate without self-loops, the cut of a component has left-hand side at least the component's size `len(tour)`, so it exceeds its bound `len(tour) - 1` |
| LazyCuts.CutsViolated | modelo_b.py:21-29 | under those conditions every cut the callback posts is violated by the candidate that triggered it |
| Lateness.DelayTimes | modelo_b.py:84 | one delay per location, 0 at the depot, never negative, and for a stop either 0 or its lateness `y_i - deadline_i`, and at least that lateness |
| Lateness.DelayIsLeastCover | modelo_b.py:84 | a stop's delay is the least value that is non-negative and covers its lateness |
| Lateness.MaxLatenessBoundsDelays | modelo_b.py:75-84 | `max_atraso` meets its lower bound and its lateness constraints exactly when it is at least every reported delay |
| Lateness.LargestDelayIsOptimal | modelo_b.py:58-76 | for the reported arrival times, the largest reported delay meets those constraints and every value that meets them is at least as large, so it is the least `max_atraso` those arrival times allow |
| Instances.NonBlank | parametro.py:25 | the kept lines are not blank, and every non-blank line is kept as often as it occurs |
| Instances.NonBlankAppend | parametro.py:25 | dropping blank lines distributes over concatenation, so the file order is kept |
| Instances.NonBlankKeepsClean | parametro.py:25 | lines without a blank one are kept unchanged |
| Instances.BuildLocationData | parametro.py:25-33 | `IndexError` without a second non-blank line; `ValueError` when it does not hold exactly two integers; otherwise the depot record `[x0, y0, 0, 0]` followed by every later non-blank line unchanged and in order (non-blank lines minus one records, no depot copy at the end) |
| Instances.LoadInstance | teste.py:13-26 | `IndexError` on a file with no non-blank line; `ValueError` when the header is not a single integer; otherwise the same records as `read_instances` builds; the header count is never compared with them |
| Instances.SameLocationData | teste.py:13-26 | the record specification has a single result, so `load_instance` and `read_instances` build identical `location_data` from the same lines |
| Instances.ReadInstances | parametro.py:18-44 | succeeds exactly when every file is loadable, giving one `(name, records)` pair per file in order; otherwise it fails with the exception of the first file that cannot be read |
| Instances.IsLastPointDepot | parametro.py:4-10 | false on an empty list, true on a single record, and otherwise true exactly when the first and last records have the same x and y |
| Instances.DepotCheckIgnoresTail | parametro.py:10 | service time and deadline of the last record do not affect the check |
| Instances.DepotCheckOnLoaded | parametro.py:28-37 | on loaded records the check holds exactly when the last non-blank line starts with the depot's coordinates, since no depot copy is appended |

## Left out

- The Gurobi models are not modelled: building the variables and constraints, solving, and reading `ObjVal`, `MIPGap` and the other attributes (`solve` in each model, and the draft script). The solver's values appear only as parameters: the candidate arc values in `LazyCuts` and the arrival times in `Lateness`.
- `cbGetSolution` and `cbLazy` are abstracted. The candidate is a `map` argument, and the posted constraints are the returned `Cut` list. What the solver does with a cut is not modelled.
- Euclidean distances (`get_distance`, `math.hypot`), the distance table and the big-M constant are floating point and are left out.
- Files, `glob` and path handling are left out: opening a file, listing `instancias/*.txt` and deriving the instance name from the path. A file is given as its name and its lines, already split into integer tokens. A token that is not an integer, which raises `ValueError` in `int()`, is not representable.
- Printing and plotting (`print_result`, `plot_route`) are left out. So are the `multiprocessing` drivers, which also import modules that are not present.
- `modelo_a.solve` appends the depot to the caller's list in place. This only feeds a Gurobi model and is not modelled.
- CycleDecomposer.GetSubtours: requires the first arc leaving each node of `0 .. n-1`, when there is one, to lead into `0 .. n-1` (`SuccInRange`). Other arcs are unrestricted, as in the source, which never reads their heads. For a first-arc head `h` outside the range, Python raises `IndexError` when `h >= n` or `h < -n`, and reads `visited[h + n]` when `-n <= h < 0`. The model does not capture these cases. The arcs the callback builds always meet the requirement (`LazyCuts.Rounded`).
- LazyCuts.CutsViolated: assumes an exactly integral candidate (`Binary`). The solver's integrality tolerance around 0 and 1 is not modelled. The lemma also assumes the permutation shape and the absence of self-loops, which the model's degree constraints and `x[i, i] == 0` impose.
- Lateness.DelayTimes: arrival times are exact reals, not floating-point values.
- Instances.ReadInstances: processes the files in the order given. The order in which `glob.glob` returns them is outside the model.
