# A static k-d tree over integer points

This project models a small C++ k-d tree library. A `Point` is a fixed-length
tuple of coordinates. It gives access to one axis (`get`) and computes the
squared Euclidean distance to another point (`getDistanceSquared`).

A `KDTree` copies its points into a node vector `mNodes`, either from a range
or from a generator called n times. It then builds a balanced tree in place
(`makeTreeRecursive`):

- `std::nth_element` on the current axis moves the median of `[begin, end)` to
  the middle position `n = begin + (end - begin) / 2`;
- that node becomes the subtree root;
- the halves `[begin, n)` and `[n + 1, end)` are built on the next axis,
  `(index + 1) % dimensions`, and linked as its left and right children.

`Nearest` answers a nearest-neighbour query by a recursive branch-and-bound
search (`nearestRecursive`). The search keeps the best node, the best squared
distance and a visit counter in the object. It searches the query's side of
each splitting node first. It returns at once when the best squared distance
reaches 0. It skips the other side when `dx * dx >= mBestDist`, where `dx` is
the offset of the splitting node from the query on its axis.

The model is laid out as follows:

- `wrappers.dfy`: `Option`. An `Option<nat>` index stands in for each nullable node pointer.
- `point.dfy` (module `Points`): the point type and its squared distance.
  - The distance is a specification function.
  - A method implements the source's accumulating loop and is proved equal to it.
- `kdtree_shape.dfy` (module `KdTreeShape`): the node record, the `node_cmp`
  order, and the predicate `Built`. `Built` states that an index range of the node
  array holds a tree of the shape construction produces.
- `kdtree_build.dfy` (module `KdTreeBuild`): the lemmas that one construction
  level keeps the range's points and leaves it built, and that the links of a
  built range reach every index exactly once.
- `kdtree_spec.dfy` (module `KdTreeSpec`): the search as a pure function
  `Search` of the node array and the search state. It comes with proofs that
  pruning is sound and that the answer is the brute-force minimum over all
  stored points. It also has the demo data of the program.
- `kdtree.dfy` (module `KdTrees`): the class `KDTree`.
  - Its fields are a node array and the query fields.
  - Its methods rearrange and link the array in place and run the recursive search.
  - Each method is proved against the functions and predicates above.

The dimension is fixed to 2 and coordinates are unbounded integers, as in the
program's integer demo (`Point<int, 2>`). Squared distances are then exact.
The demo answer follows the code: for the points (3,1), (13,3), (2,6), (10,2),
(8,7) and the query (9,4), the nearest point is (10,2), at squared distance 5.
The point (8,7) is at squared distance 10.

## Model

| member | source | states |
|---|---|---|
| Points.FromArray | Point.hpp:19-22 | after construction from a coordinate array c, `get(i)` (`Points.Point.Get`) returns c[i] on every axis i < D |
| Points.FromList | Point.hpp:24-28 | construction from an initializer list sets axis i to the list's i-th entry for every i < min(D, list length), so extra entries are ignored; the remaining axes keep the indeterminate initial value |
| Points.GetDistanceSquared | Point.hpp:48-57 | the accumulating loop over the axes returns exactly the squared Euclidean distance, the sum over the axes of the squared coordinate differences (the `DistanceSquared` specification, which is never negative) |
| Points.DistanceSymmetric | Point.hpp:48-57 | the squared distance from p to q equals the squared distance from q to p |
| Points.DistanceZeroIff | Point.hpp:48-57 | with integer coordinates, the squared distance is 0 if and only if the two points are equal |
| Points.DistanceBoundsAxis | Point.hpp:48-57 | on every single axis, the squared coordinate difference is at most the squared distance |
| KdTrees.KDTree.constructor | KDTree.hpp:28-33 | construction from a range stores exactly the given points (as a multiset), leaves the node array a tree built over all of it with the root at the top, and starts with no query outcome |
| KdTrees.KDTree.FromGenerator | KDTree.hpp:43-52 | construction from a generator called n times stores exactly the n generated points (as a multiset) and leaves a built tree, like the range constructor |
| KdTrees.KDTree.Empty | KDTree.hpp:57-60 | the tree is empty if and only if it has no root |
| KdTrees.KDTree.Visited | KDTree.hpp:66-69 | the recorded visit count, which never exceeds the number of stored nodes |
| KdTrees.KDTree.MakeTree | KDTree.hpp:142-181 | building over [begin, end) on an axis gives no root for an empty range and otherwise the root at the middle index; the range is left a k-d tree (each root no smaller than the nodes of its left subtree and no greater than those of its right subtree on its axis, with subtrees over exactly [begin, n) and [n + 1, end) on the next axis); the range holds the same points (as a multiset) and nothing outside it changes |
| KdTrees.KDTree.NthElement | KDTree.hpp:164 | `std::nth_element` with `node_cmp(axis)` (`KdTreeShape.NodeLess`): no node before position n is greater than the node at n on the axis, and no node after n is smaller; the range holds the same nodes, links included, and the same points, and nothing outside it changes |
| KdTrees.KDTree.MinIndex | KDTree.hpp:164 | one step of the selection: returns an index in [k, end) whose node is least on the axis among all nodes of [k, end), and the first such index (every node before it is strictly greater under `node_cmp`) |
| KdTrees.KDTree.Swap | KDTree.hpp:164 | the exchange step of the selection: the two nodes trade places and nothing else changes |
| KdTrees.KDTree.NearestRecursive | KDTree.hpp:183-216 | the recursive search leaves the best node, best squared distance and visit count exactly as the search specification `Search` gives them for the state before the call |
| KdTreeShape.NodeLessIsStrictWeakOrder | KDTree.hpp:127-140 | `node_cmp` (`KdTreeShape.NodeLess`, the strict order of nodes by one coordinate) is irreflexive and transitive and its incomparability is transitive: the strict weak ordering `std::nth_element` requires of its comparator |
| KdTreeShape.Node.Distance | KDTree.hpp:117-120 | a node's distance to a point is the squared distance from its stored point: never negative, and 0 exactly when the query equals the stored point |
| KdTreeSpec.Query | KDTree.hpp:94-97 | the query run by `Nearest`: the search from the root on axis 0 after resetting the best node, best distance and visit count; on an empty tree the state stays reset, otherwise a best node is recorded after between 1 and all nodes are visited, and it is a stored node at its true distance |
| KdTrees.KDTree.Nearest | KDTree.hpp:87-100 | on an empty tree it fails with `logic_error("tree is Empty")` and changes nothing; otherwise it resets the query fields and returns a stored point whose squared distance to the query is the recorded best distance, no greater than that of any stored point and equal to the brute-force minimum; between 1 and all of the nodes are visited; the outcome is a function of the stored nodes and the query alone, so repeated queries agree |
| KdTrees.WikipediaExample | main.cpp:14-34 | the demo tree over (3,1), (13,3), (2,6), (10,2), (8,7) queried with (9,4) returns (10,2) at squared distance 5, visiting between 1 and 5 nodes |
| KdTreeSpec.Visit | KDTree.hpp:188-197 | visiting a node counts it; the node becomes the best one when there is none yet or it is strictly closer; the best distance never grows and never exceeds the visited node's distance, and a recorded best node keeps its true distance |
| KdTreeSpec.Search | KDTree.hpp:183-216 | the search from a built range's root: an empty range leaves the state unchanged; a non-empty one records a best node, visits between 1 and (range size) nodes, never increases the best distance, and keeps the recorded best node a stored node at its true distance |
| KdTreeSpec.SearchChildren | KDTree.hpp:204-215 | after the middle node: the query's side is searched first and the other side only when dx * dx is below the best distance; at most the rest of the range is visited |
| KdTreeSpec.SearchStopsAtMatch | KDTree.hpp:199-202 | once the visit of a range's root makes the best distance 0, the search of that range ends with that visit, visiting nothing more |
| KdTreeSpec.SearchPruned | KDTree.hpp:209-213 | when dx * dx is at least the best distance after the near side, the far side is not searched |
| KdTreeSpec.SearchBothHalves | KDTree.hpp:207-215 | when dx * dx is below the best distance after the near side, the far side is searched next from the near side's outcome |
| KdTreeSpec.PruneSound | KDTree.hpp:204-213 | a point on the far side of the splitting plane is at squared distance at least dx * dx from the query |
| KdTreeSpec.FarSideBound | KDTree.hpp:209-213 | when dx * dx is at least the best distance, every node of the skipped half is at least that far from the query, so skipping it loses nothing |
| KdTreeSpec.SearchFindsNearest | KDTree.hpp:183-216 | the search of a built range ends with a best distance no greater than the distance of any node in the range |
| KdTreeSpec.ChildrenFindNearest | KDTree.hpp:204-215 | the children step ends with a best distance no greater than that of any node of the range other than the middle one |
| KdTreeSpec.HalfFindsNearest | KDTree.hpp:207-215 | the search of one half ends with a best distance no greater than that of any node of that half |
| KdTreeSpec.MinDistSq | KDTree.hpp:80-100 | the brute-force reference: the least squared distance from the query to a non-empty list of points, attained by one of them and a lower bound for all of them |
| KdTreeSpec.MinDistSqPermutation | KDTree.hpp:164 | the brute-force minimum depends only on the multiset of points, so it is unchanged by the rearrangement construction performs |
| KdTreeSpec.QueryIsNearest | KDTree.hpp:87-100 | on a non-empty built tree the query from a reset state finds a stored node at the least squared distance over all stored points (the brute-force minimum), having visited between 1 and all of the nodes |
| KdTreeSpec.ExactMatchFound | KDTree.hpp:199-202 | a query equal to a stored point returns that point at squared distance 0 |
| KdTreeSpec.EmptyHasNoRoot | KDTree.hpp:57-60 | a built node array has a root if and only if it is non-empty, so `Nearest` throws exactly on an empty tree |
| KdTreeSpec.DemoNearest | main.cpp:21-28 | among the demo points, (10,2) is the only one at the least squared distance (5) from the query (9,4) |
| KdTreeBuild.EachNodeReachedOnce | KDTree.hpp:175-180 | following the links from the root of a built range lists the indices lo, lo + 1, …, hi - 1 in symmetric order, each exactly once: every stored node is reachable exactly once and the links have no cycles |
| KdTreeBuild.LevelBuilt | KDTree.hpp:158-180 | one level of construction as the node array goes through it (selection, left build, left link, right build, right link) leaves the range built around its middle node, holding the points it held, with nothing outside it changed |
| KdTreeBuild.LevelPoints | KDTree.hpp:164-178 | after one level the range holds the points the selection left in it: those of the built left half, the middle node's and those of the built right half |
| KdTreeBuild.LevelShape | KDTree.hpp:164-180 | after one level both halves keep the bound the selection gave them on the axis and their tree shape, so the range is built around its middle node |
| KdTreeBuild.AssembleSubtree | KDTree.hpp:164-180 | after the selection, the two recursive builds and the two links, the whole range is a built tree rooted at its middle node, holding the points it held, with nothing outside it changed |
| KdTreeBuild.LevelFrames | KDTree.hpp:175-178 | the two recursive builds and the two link writes of one level leave each half built where the build left it, the middle node with its point and both links, and everything outside the range unchanged |
| KdTreeBuild.SelectStep | KDTree.hpp:164 | moving a least node of the unselected part to its front extends the selected prefix of the selection by one |
| KdTreeBuild.SwapPermutes | KDTree.hpp:164 | exchanging two nodes of a range keeps the range's points and everything outside it |
| KdTreeBuild.SwapKeepsNodes | KDTree.hpp:164 | exchanging two nodes of a range keeps the multiset of the range's nodes, links included |
| KdTreeBuild.SettledBelow | KDTree.hpp:164-177 | a left half that was permuted and then built keeps the upper bound the selection gave it, its tree shape and its points |
| KdTreeBuild.SettledAbove | KDTree.hpp:164-178 | a right half that was permuted and then built keeps the lower bound the selection gave it, its tree shape and its points |
| KdTreeBuild.BuiltFrame | KDTree.hpp:175-178 | whether a range is built depends only on the nodes inside it, so building one half leaves the other half built |

## Left out

- `GetDistance` (`KDTree.hpp:75-78`) is the square root of a `double`. Floating point is not modelled; only the exact squared distance is.
- The coordinate type is fixed to `int` and the dimension to 2, where the source is a template over both. Distances are unbounded integers, so the overflow and rounding of the source's `double` arithmetic in `getDistanceSquared` and `dx` is not modelled.
- The `debug` parameter and its console output in `makeTreeRecursive` (`KDTree.hpp:144-174`) are left out; they do not change the result.
- `operator<<` (`Point.hpp:63-77`) is stream output only.
- `main.cpp` apart from its Wikipedia demo data is left out: timing, console output and the random `double` point generator. The demo's calls pass two arguments where the constructors take three.
- The generator constructor calls `f()` n times; the model takes the generator as a function `f` of the call number, so the i-th call returns `f(i)`.
- Node pointers are indices into the node array. Pointer identity and `std::vector` reallocation are not modelled.
- `std::nth_element` is modelled by a selection loop. It meets the standard's contract, a permutation with the n-th element in place and the range split around it. The order it leaves within each side, and which of several equal keys lands at n, are unspecified in the standard and may differ from a library's.
- `Points.FromList`: the axes past the end of a short list are left uninitialised by the source; the model takes their values as a parameter `unset` instead of describing indeterminate storage.
- `KdTreeSpec.Search`: requires a best distance that is not negative when a best node is recorded. This always holds for squared distances and is the only state the class ever passes.
- `KdTreeBuild.EachNodeReachedOnce`: a link that leaves its range is listed without being followed by `InOrder`; in a built range no link does.
- `KdTrees.KDTree.Visited`: the contract only bounds the count; that it is the count of the last query is stated by `KdTrees.KDTree.Nearest`.
