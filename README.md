# EigenWeb PageRank core in Dafny

EigenWeb ranks the pages of a link graph with PageRank computed by power iteration.
The graph is stored transposed, in compressed sparse row (CSR) form: row `i` lists the
pages that link *to* page `i`, each with the weight of that link. One iteration pulls the
current ranks through this matrix. It then applies the damped update
`PR(i) = (1 - d)/N + d * (incoming(i) + danglingWeight/N)` and measures convergence by the L1
distance between successive rank vectors. The run stops at the first step whose distance is
below `Epsilon`, or after `MaxIterations` steps. A separate interning table gives every URL a
dense numeric ID and maps IDs back to URLs.

The model has five modules, one per source file:

- `Config` (`config.dfy`): the constants `DampingFactor = 0.85`, `Epsilon = 1e-9` and
  `MaxIterations = 100`.
- `Vectors` (`vector.dfy`): the L1 distance and the uniform start vector, as pure
  functions over `seq<real>`. `L1Difference` and `InitializeUniform` are loops over
  arrays, proved against those functions.
- `Matrix` (`matrix.dfy`): the datatype `Csr` is the abstract value of a matrix. It
  carries the layout predicate, the readability condition of `Multiply`, and the
  product as a function. The class `CSRMatrix` keeps the three arrays. Its
  `Multiply` is the nested loop, proved equal to the product function.
- `Engine` (`pagerank.dfy`): the update and step as functions. Power
  iteration is stated once over an arbitrary step function (`PowerIterate`) and
  characterised against k-fold iteration. The class `PageRankEngine` has the four fields
  of the engine. Its `Step` and `Run` are proved against those functions.
- `Graph` (`mapper.dfy`): the class `Mapper` with the forward map, the reverse list and
  the counter, and the invariant that ties them together.

Ranks and weights are exact reals, and Go's integer types are `nat`.

The bodies of `Multiply` (src/math/matrix.go:62-64) and of the update loop in `Step`
(src/engine/pagerank.go:57-63) are unfinished exercises. As written they return zero
vectors. The model follows the behaviour their documentation describes and the tests
check (tests/pagerank_test.go:47-142). Comments in `matrix.dfy` and `pagerank.dfy` say
so at each class.

## Model

| member | source | states |
|---|---|---|
| Vectors.Abs | src/math/vector.go:31 | `math.Abs` is non-negative and equals `x` or `-x` |
| Vectors.L1Difference | src/math/vector.go:14-35 | the loop returns the sum of `abs(v1[i] - v2[i])` over all `i`, for vectors of equal length |
| Vectors.L1NonNegative | src/math/vector.go:11-13 | the L1 distance is never negative |
| Vectors.L1Symmetric | src/math/vector.go:13 | the L1 distance does not depend on the order of its arguments |
| Vectors.L1ZeroIffEqual | tests/pagerank_test.go:32-41 | the distance is 0 exactly when the two vectors are equal, in both directions |
| Vectors.L1Example | tests/pagerank_test.go:17-30 | the distance of `[0.1,0.5,0.4]` and `[0.2,0.4,0.4]` is 0.2 |
| Vectors.InitializeUniform | src/math/vector.go:37-45 | a fresh vector of `size` elements, each `1/size` |
| Vectors.UniformSumsToOne | src/math/vector.go:37-45 | for `size > 0` the uniform vector sums to 1 |
| Matrix.PtrsMonotone | src/math/matrix.go:14-17 | in a well-formed matrix the row offsets are monotone over any span of rows |
| Matrix.WellFormedIsAccessible | src/math/matrix.go:14-19 | a well-formed matrix whose source nodes all index `v` lets `Multiply` read every row range in bounds |
| Matrix.EmptyRowIsZero | src/math/matrix.go:49-60 | a row whose range `[RowPtrs[i], RowPtrs[i+1])` is empty has product 0 |
| Matrix.RowSumSplit | src/math/matrix.go:14-15 | the sum over a range of stored entries is the sum over its two halves |
| Matrix.ProductPrefix | src/math/matrix.go:14-19 | the first `j` product entries add up to the contributions of the entries before `RowPtrs[j]` |
| Matrix.ProductTotal | src/math/matrix.go:14-19 | the rows partition the stored entries: the product's total is every entry's `weight * v[source]` counted once |
| Matrix.MovedNothing | src/math/matrix.go:7-9 | before any stored entry, no node has given any weight away |
| Matrix.MovedStep | src/math/matrix.go:7-12 | one more stored entry moves its weight times the rank of its source node out of that node, and nothing else |
| Matrix.RowSumIsMoved | src/math/matrix.go:7-19 | summing the stored entries one by one equals summing, node by node, each source's rank times the total weight it gives away |
| Matrix.StochasticMovesAll | src/math/matrix.go:7-9 | when every node gives away weight 1 in total, all of its rank is moved |
| Matrix.MultiplyConservesMass | src/math/matrix.go:7-40 | for a matrix whose weights out of every node sum to 1 (weights `1 / OutDegree` with no dangling node) the product sums to exactly what `v` sums to, for every `v` |
| Matrix.ProductPowerConservesMass | src/math/matrix.go:36-40 | under the same condition, pulling `v` through the matrix any number of times keeps its total |
| Matrix.MultiplyExample | tests/pagerank_test.go:65-95 | the test matrix times `[1,1,1]` is `[1.5,1.0,0.5]` |
| Matrix.CSRMatrix.constructor | src/math/matrix.go:23-30 | `NewCSRMatrix` stores its four arguments as given and checks nothing |
| Matrix.CSRMatrix.Multiply | src/math/matrix.go:36-65 | a fresh vector of `Rows` entries, entry `i` being the sum of `Values[k] * v[ColumnIndices[k]]` over row `i`'s range; it changes nothing that existed before |
| Engine.StepOf | src/engine/pagerank.go:32-63 | a step keeps one rank per node and stays readable by the matrix |
| Engine.UpdateIsAffine | src/engine/pagerank.go:43-44 | each updated rank is a shared teleport-and-dangling part plus `d` times the node's incoming rank |
| Engine.UpdateMass | src/engine/pagerank.go:43-44 | the updated ranks add up to `(1 - d) + d * danglingWeight + d * (sum of incoming ranks)` |
| Engine.PowerIterate | src/engine/pagerank.go:75-84 | a run takes at most the budget of steps; it converges only after at least one step, and otherwise spends the whole budget |
| Engine.PowerIterateIsFirstConvergence | src/engine/pagerank.go:75-84 | the final ranks are the iterate after `steps` steps; every earlier step had delta `>= Epsilon`; the run converged exactly when the last step's delta was `< Epsilon` |
| Engine.FixedPointIsStable | src/engine/pagerank.go:65-69 | a step with delta 0 left the ranks unchanged, so the next step has delta 0 too |
| Engine.IteratesStayReady | src/engine/pagerank.go:75-80 | every iterate from readable ranks is readable again, so a run never indexes out of range |
| Engine.RunFromIsPowerIterate | src/engine/pagerank.go:72-86 | the engine's loop over its own step is power iteration over that step |
| Engine.StepExample | tests/pagerank_test.go:102-141 | with the test matrix, ranks `[1,1,1]`, `d = 0.85` and no dangling weight a step gives `[1.325,0.9,0.475]` |
| Engine.CycleConvergesAtOnce | main.go:12-45 | on the driver's 3-cycle the uniform vector is a fixed point, so a run from it converges after one step |
| Engine.CycleConservesMass | main.go:12-45 | the driver's 3-cycle gives away weight 1 out of every node, so repeated link-following from any 3-vector keeps its total |
| Engine.PageRankEngine.constructor | src/engine/pagerank.go:16-23 | `NewEngine` keeps the graph, takes the configured damping factor 0.85, starts from uniform ranks `1/N` and has no dangling weight |
| Engine.PageRankEngine.Step | src/engine/pagerank.go:31-70 | a fresh vector with entry `i` equal to `(1-d)/N + d*(incoming(i) + danglingWeight/N)`, where incoming is the matrix product of the current ranks, and a delta equal to the L1 distance between the new and the current ranks; no field changes |
| Engine.PageRankEngine.Run | src/engine/pagerank.go:72-86 | the committed ranks, the number of steps run and whether the run converged are exactly those of power iteration over `Step` with budget `MaxIterations` |
| Graph.InternedShape | src/graph/mapper.go:10-11 | no URL is listed twice, and the map's keys are exactly the listed URLs |
| Graph.ListedCount | src/graph/mapper.go:11 | a list without duplicates holds as many distinct URLs as it is long |
| Graph.InternedCount | src/graph/mapper.go:10-12 | when the two directions agree, the map has exactly as many entries as the list |
| Graph.DistinctURLsDistinctIDs | src/graph/mapper.go:24-37 | two interned URLs share an ID exactly when they are the same URL |
| Graph.InternExtends | src/graph/mapper.go:32-35 | adding a new URL under the next free ID keeps both directions in agreement |
| Graph.Mapper.constructor | src/graph/mapper.go:15-21 | `NewMapper` has an empty map, an empty list, counter 0 and size 0 |
| Graph.Mapper.GetID | src/graph/mapper.go:23-37 | a known URL returns its ID and changes nothing; a new URL gets the old counter as its ID, is appended to the list and added to the map, and the counter goes up by one; either way `GetURL` of the ID is the URL |
| Graph.Mapper.GetURL | src/graph/mapper.go:39-48 | for an ID below `Size()` the result is the URL the map sends to that ID; for an ID not handed out the result is `""` |
| Graph.Mapper.Size | src/graph/mapper.go:50-54 | the counter equals the length of the list and the number of distinct URLs interned |
| Graph.GetIDTwice | src/graph/mapper.go:24-37 | asking twice for the same URL gives the same ID both times, and that ID maps back to the URL |

## Left out

- Floating point: ranks, weights and the constants are exact reals. Nothing is stated about rounding, NaN or infinities, the 1e-9 tolerance of the tests, or the rate of convergence.
- Dangling mass: the engine never computes `DanglingWeight`. It stays 0 after `NewEngine` and `Step` only reads it. No redistribution rule is modelled.
- Console output: the messages `Run` prints (src/engine/pagerank.go:73, 78, 82) are not modelled. The driver main.go appears only as the graph of `Engine.CycleConvergesAtOnce`.
- Locking: the read-write lock of `Mapper` (src/graph/mapper.go:9, 25-26, 41-42, 51-52) only serialises the operations. The model is single-threaded.
- src/graph/loader.go is not part of this model. It is an unimplemented stub that returns nil and would do file I/O.
- Integer widths: Go's `int` and `uint64` are `nat`. A negative row count (a panic in `make`) and wrap-around of the ID counter after 2^64 URLs are not modelled.
- Matrix.CSRMatrix.Multiply: models the documented product. The body in the repository is an unfinished exercise that returns the zero vector.
- Engine.PageRankEngine.Step: models the documented update loop. The body in the repository leaves every next rank at 0. The source panics on an out-of-range index in `Multiply` and, through `L1Difference` (src/math/vector.go:15-17), on a rank vector whose length differs from `Rows`; here both are the precondition `Ready`: the current ranks have one entry per row, and every access of the product is in bounds. `Rows > 0` is not required: with no rows the loop stores nothing, and Go's float division by zero does not panic.
- Vectors.L1Difference: the source panics on vectors of different lengths; here equal lengths are a precondition.
- Engine.StepFunction: vectors that the matrix cannot read, on which the source would panic, are left unchanged. `Engine.IteratesStayReady` shows that a run never reaches one.
- Engine.PageRankEngine.Run: the source returns nothing. The step count and the converged flag are ghost results, for the specification only.
