# Climate similarity graph, modelled in Dafny

The repository reads a table of temperature records, groups the readings by
city, links two cities whenever the similarity of their temperature series
exceeds 0.8, and then reports the degree distribution of the resulting
graph and its five best-connected cities. All of this lives in the `Graph`
type of `src/graph.rs`, which this project models:

- `ingest.dfy` (module `Ingest`) holds the record loop's specification.
  `Accumulate` is `city_data` after a run of records. `ReadingsOf` is an
  independent reference definition: the readings of one city, in record
  order. `Cities` is the set of cities the records name.
- `ranking.dfy` (module `Ranking`) holds the sort inside `centrality`. It
  is a stable insertion sort by decreasing degree, with its order,
  permutation and distinctness properties.
- `graph.dfy` (module `ClimateGraph`) holds the `Graph` class with the
  source's three fields. `adjacency` stands for `adjacency_list`,
  `weights` for `weights` and `nodes` for `nodes`.
  - `AddEdge`, `ReadRecords`, `LinkFrom`, `BuildEdges` and `LoadFromCsv` change
    these fields in place, with loops where the source has loops.
  - `DegreeDistribution` and `Centrality` are the read-only analysis
    functions.
  - Each method's contract is stated in terms of pure functions. `Link` is
    one `add_edge`. `Edges` is the set of ordered pairs the pair loop
    accepts. `WithEdges` is the adjacency map after linking a set of pairs.
    `WeightsOf` is the weights those pairs receive.
  - The lemmas about those functions state the graph's invariants.
- `scenarios.dfy` (module `Scenarios`) holds two whole runs. One is the
  three-city example: X and Y fully correlated, Z constant. The other is
  an empty input.

Modelling choices:

- Each record arrives already split into fields, as a `Row`.
  - Field 3 (the city) is `Some(name)` or `None`; `None` becomes the empty
    key, as `unwrap_or("")` does.
  - Field 1 (the average temperature) is `Some(value)` when it is present
    and parses as a number, and `None` otherwise; `None` becomes `0.0`.
- `f64` values are `real`s.
- `calculate_similarity` is a parameter of type
  `(seq<real>, seq<real>) -> real`. The pair loop's test is kept as in the
  source: distinct cities, `are_in_same_country`, and similarity strictly
  above the constant `Threshold` (0.8).
- The pair loops pick the next city with `:|`. The contracts therefore hold
  for every iteration order of the map.
- `degree_distribution` and `centrality` walk a `HashMap` in an unspecified
  order. This order is an explicit parameter `order`, required to list
  every key of the adjacency map exactly once (`IsEnumeration`).
- The analysis follows the code. Both reads walk `adjacency_list`, not
  `nodes`, so a city that never gained an edge appears in neither result.
  A reading that counts every node would give such a city degree 0; the
  code gives it no entry. In `Scenarios.ThreeCities`, `Z` is a node but
  has no entry, and both results have two entries.
- `add_edge` stores the weight under `(a, b)` only. The pair loop visits
  both orders of every pair, so a linked pair is weighted under each order
  the loop accepted, with the similarity computed in that order
  (`WeightsOf`). When the similarity is symmetric, as the source's Pearson
  correlation is, a pair is accepted in both orders or in neither, and
  both orders carry the same weight (`SymmetricSimilarityWeighsBothOrders`).

## Model

| member | source | states |
|---|---|---|
| Ingest.AccumulateGroupsByCity | src/graph.rs:30-42 | the cities of `city_data` are exactly the cities some record names, and each city's series is the subsequence of readings of the records naming it, in arrival order (`ReadingsOf`) |
| Ingest.AccumulateCountsEveryRow | src/graph.rs:30-42 | every record is stored exactly once: the series lengths add up to the number of records |
| Ingest.ReadingsOfAppend | src/graph.rs:41 | one more record adds its reading to the end of its own city's readings and changes no other city's |
| Ingest.TotalLengthAppend | src/graph.rs:41 | pushing one reading onto one city's series grows the total number of stored readings by one |
| Ranking.InsertByDegree | src/graph.rs:114 | inserting an entry into a list ordered by decreasing degree keeps it ordered, adds exactly that entry, and keeps the entries distinct |
| Ranking.SortByDegree | src/graph.rs:114 | the sort by `b.1.cmp(&a.1)` returns a permutation of its input (same multiset) ordered by non-increasing degree, and keeps distinct entries distinct |
| ClimateGraph.SameCountry | src/graph.rs:68-71 | `are_in_same_country` accepts every pair of cities |
| ClimateGraph.LinkConnects | src/graph.rs:75-83 | after `add_edge(a, b, _)`, `b` is a neighbour of `a` and `a` of `b`; missing entries are created; every other node's neighbours are unchanged |
| ClimateGraph.LinkKeepsSymmetric | src/graph.rs:74-86 | `add_edge` preserves "`y` neighbours `x` exactly when `x` neighbours `y`" |
| ClimateGraph.LinkKeepsIrreflexive | src/graph.rs:74-86 | `add_edge` of two distinct nodes creates no self-loop |
| ClimateGraph.LinkExisting | src/graph.rs:75-83 | re-adding a pair that is already linked leaves the adjacency map unchanged, because a set insertion of a present member changes nothing |
| ClimateGraph.LinkIdempotent | src/graph.rs:75-83 | adding the same edge twice gives the adjacency map that adding it once gives |
| ClimateGraph.WeightsOfAdd | src/graph.rs:85 | storing the weight of one more accepted pair extends the weight table of the pairs stored so far by exactly that pair |
| ClimateGraph.WithEdgesNeighbours | src/graph.rs:53-62 | after linking a set of pairs, a node's neighbours are its old neighbours plus the partners the pairs give it, in either order |
| ClimateGraph.LinkWithEdges | src/graph.rs:58 | one `add_edge` call after linking a set of pairs is linking that set with the pair added |
| ClimateGraph.WithEdgesUnion | src/graph.rs:53-62 | linking two sets of pairs one after the other is linking their union, which lets the outer loop take the first cities in any order |
| ClimateGraph.WeightsOfUnion | src/graph.rs:53-62 | the weights stored for two sets of pairs, one after the other, are the weights stored for their union |
| ClimateGraph.BuiltEdgeIff | src/graph.rs:53-62 | after the pair loop, `{a, b}` is linked exactly when it was linked before, or both are ingested cities and the pair is accepted in one order or the other; every node that gains an entry is an ingested city |
| ClimateGraph.WithEdgesKeepsSymmetric | src/graph.rs:53-62 | linking any set of pairs keeps the neighbour relation symmetric |
| ClimateGraph.WithEdgesKeepsIrreflexive | src/graph.rs:53-62 | linking pairs of distinct nodes creates no self-loop |
| ClimateGraph.EdgesWellFormed | src/graph.rs:53-55 | the pair loop only links two distinct cities, both taken from `city_data` |
| ClimateGraph.BuildKeepsShape | src/graph.rs:53-62 | the pair loop keeps the graph symmetric and free of self-loops, keeps every adjacency key a node, and keeps every weight on an edge |
| ClimateGraph.SymmetricSimilarityWeighsBothOrders | src/graph.rs:53-61 | for a symmetric similarity, the loop accepts `(a, b)` exactly when it accepts `(b, a)`, and both orders are stored with equal weights |
| ClimateGraph.EdgesBetweenAddFrom | src/graph.rs:53 | taking one more first city adds exactly the accepted pairs starting from it |
| ClimateGraph.EdgesBetweenAddTo | src/graph.rs:54-57 | taking one more second city adds the pair exactly when the loop's test accepts it |
| ClimateGraph.Graph.constructor | src/graph.rs:13-19 | a new graph has no nodes, no edges and no weights, and has the graph's shape (`Valid`) |
| ClimateGraph.Graph.AddEdge | src/graph.rs:74-86 | the adjacency map becomes `Link` of the old one; the weight is stored under `(a, b)` only, overwriting an earlier value, with every other weight and `nodes` untouched; symmetry, absence of self-loops (for `a != b`) and weights-on-edges are preserved |
| ClimateGraph.Graph.ReadRecords | src/graph.rs:30-48 | the record loop leaves `city_data` equal to `Accumulate(rows)`: keyed by the records' cities, each series the city's readings in order. It adds exactly those cities to `nodes` and counts every record, and the count equals the total series length |
| ClimateGraph.Graph.LinkFrom | src/graph.rs:54-61 | the inner loop, for one first city, links it to exactly the second cities the test accepts and stores their similarities as weights |
| ClimateGraph.Graph.BuildEdges | src/graph.rs:53-62 | the pair loop links exactly the accepted ordered pairs (`Edges`) into the old adjacency map and adds their similarities to the weight table |
| ClimateGraph.Graph.LoadFromCsv | src/graph.rs:22-65 | loading adds the records' cities to `nodes`, links every accepted pair of their accumulated series, weights those pairs with their similarity, and keeps a well-shaped graph well shaped |
| ClimateGraph.Graph.DegreeDistribution | src/graph.rs:102-104 | one entry per key of the adjacency map (isolated nodes have none), in iteration order, each equal to that key's number of neighbours |
| ClimateGraph.Graph.Centrality | src/graph.rs:107-116 | `min(5, number of adjacency keys)` entries in non-increasing degree order, each a distinct adjacency key paired with its degree; any key left out has no larger degree than the last entry kept |
| ClimateGraph.EnumerationFacts | src/graph.rs:103 | an iteration order of the map has one entry per key, lists only keys, and lists none twice |
| ClimateGraph.DegreesRemove | src/graph.rs:103 | the degree of any listed node can be split off the multiset of degrees |
| ClimateGraph.DegreesPermutation | src/graph.rs:103 | listing the same nodes in another order gives the same multiset of degrees |
| ClimateGraph.DegreesOrderFree | src/graph.rs:102-104 | the degree distribution is the same multiset whatever the map's iteration order |
| ClimateGraph.RankedScores | src/graph.rs:108-114 | sorting keeps every (node, degree) entry of the map and adds none |
| ClimateGraph.RankedDistinct | src/graph.rs:108-114 | the sorted entries name no node twice |
| ClimateGraph.TopScoresLength | src/graph.rs:115 | `take(5)` keeps five entries, or all of them when there are fewer |
| ClimateGraph.TopScoresReport | src/graph.rs:108-115 | the kept entries are in non-increasing degree order, each a node of the map with its true degree, none repeated |
| ClimateGraph.TopScoresLeftOut | src/graph.rs:114-115 | a node missing from the result means five entries were kept and the node's degree is at most the fifth's |
| ClimateGraph.LeftOutRanksLower | src/graph.rs:115 | an entry of a non-increasing list that falls outside the first `n` ranks no higher than the `n`-th |
| Scenarios.ThreeCities | src/graph.rs:22-116 | with X and Y fully correlated and Z constant, loading into a new graph makes X, Y and Z nodes; the degree distribution is `[1, 1]`; the ranking holds `(X, 1)` and `(Y, 1)` only |
| Scenarios.ThreeCitiesBuild | src/graph.rs:53-62 | for the three-city records, the pair loop links X and Y to each other and to nothing else |
| Scenarios.AnalyseLinkedPair | src/graph.rs:102-116 | a graph that links only X and Y reports degrees `[1, 1]` and ranks both with degree 1 |
| Scenarios.ThreeCityRowsFit | src/graph.rs:30-42 | the interleaved three-city file gives X, Y and Z exactly their series and names exactly those three cities |
| Scenarios.EmptySource | src/graph.rs:13-116 | loading no records into a new graph gives no nodes, an empty degree distribution and an empty ranking |

## Left out

- Opening the file and iterating the records are not modelled. This is the `csv` crate's `Reader::from_path` and `records()` (src/graph.rs:23, 30). The model receives the records as a sequence.
- The error returns are not modelled. An unreadable file or a malformed record returns early through `?` (src/graph.rs:23, 33). On an early return, the cities read before the bad record stay in `nodes` and no edge is built. Only a complete, successful read is modelled.
- Parsing field 1 as `f64` is not modelled. Only its outcome is kept: a value, or a fallback of 0.0 when the field is absent or unparsable (src/graph.rs:35-39).
- `calculate_similarity` (src/graph.rs:119-137) is not modelled. It is a floating-point Pearson correlation with `sqrt` and division, so it is taken as a parameter. Its NaN results, its behaviour on series of unequal length and on constant series, and `f64` rounding are therefore not modelled.
- Integer widths are not modelled. `record_count` (src/graph.rs:27) has no type annotation, so Rust gives it the default `i32`. After 2,147,483,647 records its increment at line 31 panics in a debug build and wraps to a negative count in a release build. The model's count is unbounded. The degrees are `usize` in the source and unbounded here, which differs only beyond 2^64 neighbours.
- ClimateGraph.Graph.ReadRecords: does not model the `i32` overflow of `record_count`, so its `recordCount == |rows|` holds for the source only for fewer than 2^31 records.
- Progress and result printing are not modelled (src/graph.rs:45-50, and `analyze` at 89-99). They are console output only. `record_count` is kept, as `Graph.ReadRecords`'s second result, because its relation to the stored readings is a property of the loop.
- `src/main.rs` is not part of this model. It holds the process entry point, a fixed input path and printing.
- ClimateGraph.Graph.Centrality: does not state the order among entries of equal degree. The model's sort is stable like `sort_by`, so ties keep the map's iteration order `order`, which the source leaves unspecified.
- ClimateGraph.Graph.DegreeDistribution: states the entries against the iteration order `order`, a parameter, because a `HashMap`'s order is unspecified. `DegreesOrderFree` shows the multiset of degrees does not depend on it.
