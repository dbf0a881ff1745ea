/**
 * The `Graph` of src/graph.rs: cities are nodes, and two cities are linked
 * when the similarity of their temperature series exceeds 0.8. The class
 * keeps the three maps of the source and changes them in place; the pure
 * functions and lemmas before it say what those changes amount to.
 */
module ClimateGraph {
  import opened Ingest
  import opened Ranking

  /** The similarity above which two cities are linked. */
  const Threshold: real := 0.8

  /** `adjacency_list`: each node's set of neighbours. */
  type Adjacency = map<string, set<string>>

  /** `weights`: one weight per ordered pair of nodes. */
  type WeightTable = map<(string, string), real>

  /** `calculate_similarity`, taken as given: some function of two series. */
  type Similarity = (seq<real>, seq<real>) -> real

  /** The neighbours of `x`, empty for a node without an entry. */
  function Neighbours(adj: Adjacency, x: string): set<string> {
    if x in adj then adj[x] else {}
  }

  /** `y` is a neighbour of `x` exactly when `x` is a neighbour of `y`. */
  ghost predicate Symmetric(adj: Adjacency) {
    forall x, y :: x in adj && y in adj[x] ==> y in adj && x in adj[y]
  }

  /** No node is its own neighbour. */
  ghost predicate Irreflexive(adj: Adjacency) {
    forall x :: x in adj ==> x !in adj[x]
  }

  /** Every weight belongs to an edge. */
  ghost predicate WeightsOnEdges(adj: Adjacency, weights: WeightTable) {
    forall p :: p in weights ==> p.1 in Neighbours(adj, p.0)
  }

  // ---------------------------------------------------------------------
  // add_edge, on the adjacency map

  /** The adjacency map after `add_edge(a, b, _)`. */
  function Link(adj: Adjacency, a: string, b: string): Adjacency {
    var withB := adj[a := Neighbours(adj, a) + {b}];
    withB[b := Neighbours(withB, b) + {a}]
  }

  /**
   * `add_edge(a, b, _)` makes `a` and `b` neighbours of each other, creating
   * the entries of nodes that had none, and changes no other entry.
   */
  lemma LinkConnects(adj: Adjacency, a: string, b: string)
    ensures Link(adj, a, b).Keys == adj.Keys + {a, b}
    ensures b in Link(adj, a, b)[a] && a in Link(adj, a, b)[b]
    ensures forall x :: Neighbours(Link(adj, a, b), x)
                     == Neighbours(adj, x) + (if x == a then {b} else {}) + (if x == b then {a} else {})
  {
  }

  /** `add_edge` keeps the neighbour relation symmetric. */
  lemma LinkKeepsSymmetric(adj: Adjacency, a: string, b: string)
    requires Symmetric(adj)
    ensures Symmetric(Link(adj, a, b))
  {
    LinkConnects(adj, a, b);
  }

  /** `add_edge` of two distinct nodes creates no self-loop. */
  lemma LinkKeepsIrreflexive(adj: Adjacency, a: string, b: string)
    requires Irreflexive(adj) && a != b
    ensures Irreflexive(Link(adj, a, b))
  {
    LinkConnects(adj, a, b);
  }

  /** Linking a pair that is already linked changes no neighbour set. */
  lemma LinkExisting(adj: Adjacency, a: string, b: string)
    requires b in Neighbours(adj, a) && a in Neighbours(adj, b)
    ensures Link(adj, a, b) == adj
  {
    var r := Link(adj, a, b);
    LinkConnects(adj, a, b);
    assert r.Keys == adj.Keys;
    forall x | x in adj ensures r[x] == adj[x] {
      assert Neighbours(r, x) == Neighbours(adj, x);
    }
  }

  /** Linking the same pair twice is linking it once. */
  lemma LinkIdempotent(adj: Adjacency, a: string, b: string)
    ensures Link(Link(adj, a, b), a, b) == Link(adj, a, b)
  {
    LinkConnects(adj, a, b);
    LinkExisting(Link(adj, a, b), a, b);
  }

  // ---------------------------------------------------------------------
  // The pair loop of load_from_csv, as sets of ordered pairs

  /** `are_in_same_country`: a placeholder that accepts every pair. */
  function SameCountry(cityA: string, cityB: string): (r: bool)
    ensures r
  {
    true
  }

  /** The test the pair loop applies to the ordered pair `(a, b)` before linking it. */
  predicate Accepted(data: map<string, seq<real>>, similarity: Similarity, a: string, b: string)
    requires a in data && b in data
  {
    a != b && SameCountry(a, b) && similarity(data[a], data[b]) > Threshold
  }

  /** The accepted ordered pairs with first city in `from` and second in `to`. */
  function EdgesBetween(data: map<string, seq<real>>, similarity: Similarity, from: set<string>, to: set<string>)
    : set<(string, string)>
  {
    set a, b | a in from && b in to && a in data && b in data && Accepted(data, similarity, a, b) :: (a, b)
  }

  /** Every accepted ordered pair of ingested cities: what the pair loop links. */
  function Edges(data: map<string, seq<real>>, similarity: Similarity): set<(string, string)> {
    EdgesBetween(data, similarity, data.Keys, data.Keys)
  }

  /** The weights the pair loop stores for the pairs `e`. */
  function WeightsOf(data: map<string, seq<real>>, similarity: Similarity, e: set<(string, string)>): WeightTable {
    map p | p in e :: similarity(SeriesOf(data, p.0), SeriesOf(data, p.1))
  }

  /** Storing one more pair's weight over the weights of `e`. */
  lemma WeightsOfAdd(weights: WeightTable, data: map<string, seq<real>>, similarity: Similarity,
                     e: set<(string, string)>, a: string, b: string)
    requires a in data && b in data
    ensures (weights + WeightsOf(data, similarity, e))[(a, b) := similarity(data[a], data[b])]
         == weights + WeightsOf(data, similarity, e + {(a, b)})
  {
  }

  /** The nodes that appear in some pair of `e`. */
  function Ends(e: set<(string, string)>): set<string> {
    (set p | p in e :: p.0) + (set p | p in e :: p.1)
  }

  /** The nodes paired with `x` in `e`, in either position. */
  function Partners(e: set<(string, string)>, x: string): set<string> {
    set y | y in Ends(e) && ((x, y) in e || (y, x) in e)
  }

  /** The adjacency map `adj` with every pair of `e` linked. */
  function WithEdges(adj: Adjacency, e: set<(string, string)>): Adjacency {
    map x | x in adj.Keys + Ends(e) :: Neighbours(adj, x) + Partners(e, x)
  }

  /** `y` is a partner of `x` exactly when the two are paired in `e`. */
  lemma PartnersIff(e: set<(string, string)>, x: string, y: string)
    ensures y in Partners(e, x) <==> (x, y) in e || (y, x) in e
  {
    if (x, y) in e {
      assert (x, y).1 == y;
    } else if (y, x) in e {
      assert (y, x).0 == y;
    }
  }

  /** Neighbours after linking `e`: the old ones and the partners in `e`. */
  lemma WithEdgesNeighbours(adj: Adjacency, e: set<(string, string)>, x: string)
    ensures Neighbours(WithEdges(adj, e), x) == Neighbours(adj, x) + Partners(e, x)
    ensures forall y :: y in Partners(e, x) <==> (x, y) in e || (y, x) in e
  {
    forall y ensures y in Partners(e, x) <==> (x, y) in e || (y, x) in e {
      PartnersIff(e, x, y);
    }
    forall y | y in Partners(e, x) ensures x in Ends(e) {
      if (x, y) in e {
        assert (x, y).0 == x;
      } else {
        assert (y, x).1 == x;
      }
    }
  }

  /** Linking no pair changes nothing. */
  lemma WithNoEdges(adj: Adjacency)
    ensures WithEdges(adj, {}) == adj
  {
    assert Ends({}) == {};
    forall x | x in adj ensures WithEdges(adj, {})[x] == adj[x] {
      WithEdgesNeighbours(adj, {}, x);
    }
  }

  /** Adding the pair `(a, b)` adds `b` to the partners of `a` and `a` to those of `b`. */
  lemma PartnersAdd(e: set<(string, string)>, a: string, b: string, x: string)
    ensures Partners(e + {(a, b)}, x) == Partners(e, x) + (if x == a then {b} else {}) + (if x == b then {a} else {})
  {
    forall y ensures y in Partners(e + {(a, b)}, x) <==> y in Partners(e, x) || (x == a && y == b) || (x == b && y == a) {
      PartnersIff(e + {(a, b)}, x, y);
      PartnersIff(e, x, y);
    }
  }

  /** The ends of `e` with one more pair. */
  lemma EndsAdd(e: set<(string, string)>, a: string, b: string)
    ensures Ends(e + {(a, b)}) == Ends(e) + {a, b}
  {
    assert (a, b).0 == a && (a, b).1 == b;
  }

  /** Linking one more pair extends the linked set by that pair, node by node. */
  lemma LinkWithEdgesAt(adj: Adjacency, e: set<(string, string)>, a: string, b: string, x: string)
    ensures Neighbours(Link(WithEdges(adj, e), a, b), x) == Neighbours(WithEdges(adj, e + {(a, b)}), x)
  {
    LinkConnects(WithEdges(adj, e), a, b);
    WithEdgesNeighbours(adj, e, x);
    WithEdgesNeighbours(adj, e + {(a, b)}, x);
    PartnersAdd(e, a, b, x);
  }

  /** Linking one more pair extends the linked set by that pair. */
  lemma LinkWithEdges(adj: Adjacency, e: set<(string, string)>, a: string, b: string)
    ensures Link(WithEdges(adj, e), a, b) == WithEdges(adj, e + {(a, b)})
  {
    var lhs, rhs := Link(WithEdges(adj, e), a, b), WithEdges(adj, e + {(a, b)});
    assert lhs.Keys == rhs.Keys by {
      LinkConnects(WithEdges(adj, e), a, b);
      EndsAdd(e, a, b);
    }
    forall x | x in lhs ensures lhs[x] == rhs[x] {
      LinkWithEdgesAt(adj, e, a, b, x);
      assert lhs[x] == Neighbours(lhs, x) && rhs[x] == Neighbours(rhs, x);
    }
  }

  /** Linking `e1` and then `e2` is linking both at once, node by node. */
  lemma WithEdgesUnionAt(adj: Adjacency, e1: set<(string, string)>, e2: set<(string, string)>, x: string)
    ensures Neighbours(WithEdges(WithEdges(adj, e1), e2), x) == Neighbours(WithEdges(adj, e1 + e2), x)
  {
    WithEdgesNeighbours(adj, e1, x);
    WithEdgesNeighbours(WithEdges(adj, e1), e2, x);
    WithEdgesNeighbours(adj, e1 + e2, x);
  }

  /** Linking `e1` and then `e2` is linking both at once. */
  lemma WithEdgesUnion(adj: Adjacency, e1: set<(string, string)>, e2: set<(string, string)>)
    ensures WithEdges(WithEdges(adj, e1), e2) == WithEdges(adj, e1 + e2)
  {
    var lhs, rhs := WithEdges(WithEdges(adj, e1), e2), WithEdges(adj, e1 + e2);
    assert lhs.Keys == rhs.Keys by {
      assert Ends(e1 + e2) == Ends(e1) + Ends(e2);
    }
    forall x | x in lhs ensures lhs[x] == rhs[x] {
      WithEdgesUnionAt(adj, e1, e2, x);
      assert lhs[x] == Neighbours(lhs, x) && rhs[x] == Neighbours(rhs, x);
    }
  }

  /** Storing the weights of `e1` and then those of `e2` is storing those of both. */
  lemma WeightsOfUnion(weights: WeightTable, data: map<string, seq<real>>, similarity: Similarity,
                       e1: set<(string, string)>, e2: set<(string, string)>)
    ensures weights + WeightsOf(data, similarity, e1) + WeightsOf(data, similarity, e2)
         == weights + WeightsOf(data, similarity, e1 + e2)
  {
  }

  /**
   * The pair loop's result, edge by edge: `{a, b}` is linked exactly when it
   * was linked before, or both are ingested cities and the loop accepted
   * one of the two orders; every node that gains an entry is an ingested city.
   */
  lemma BuiltEdgeIff(adj: Adjacency, data: map<string, seq<real>>, similarity: Similarity, a: string, b: string)
    ensures b in Neighbours(WithEdges(adj, Edges(data, similarity)), a)
        <==> b in Neighbours(adj, a)
             || (a in data && b in data && (Accepted(data, similarity, a, b) || Accepted(data, similarity, b, a)))
    ensures a in WithEdges(adj, Edges(data, similarity)) ==> a in adj || a in data
  {
    var e := Edges(data, similarity);
    WithEdgesNeighbours(adj, e, a);
    if a in WithEdges(adj, e) && a !in adj {
      var p :| p in e && (p.0 == a || p.1 == a);
    }
  }

  /** Linking pairs keeps the neighbour relation symmetric. */
  lemma WithEdgesKeepsSymmetric(adj: Adjacency, e: set<(string, string)>)
    requires Symmetric(adj)
    ensures Symmetric(WithEdges(adj, e))
  {
    var r := WithEdges(adj, e);
    forall x, y | x in r && y in r[x] ensures y in r && x in r[y] {
      WithEdgesNeighbours(adj, e, x);
      WithEdgesNeighbours(adj, e, y);
    }
  }

  /** Linking pairs of distinct nodes creates no self-loop. */
  lemma WithEdgesKeepsIrreflexive(adj: Adjacency, e: set<(string, string)>)
    requires Irreflexive(adj)
    requires forall p :: p in e ==> p.0 != p.1
    ensures Irreflexive(WithEdges(adj, e))
  {
    forall x | x in WithEdges(adj, e) ensures x !in WithEdges(adj, e)[x] {
      WithEdgesNeighbours(adj, e, x);
    }
  }

  /** The pair loop links only distinct ingested cities. */
  lemma EdgesWellFormed(data: map<string, seq<real>>, similarity: Similarity)
    ensures forall p :: p in Edges(data, similarity) ==> p.0 != p.1 && p.0 in data && p.1 in data
    ensures Ends(Edges(data, similarity)) <= data.Keys
  {
  }

  /**
   * Linking the pairs the pair loop accepts keeps the shape of the graph:
   * symmetric, without self-loops, every adjacency key a node, every
   * weight on an edge.
   */
  lemma BuildKeepsShape(adj: Adjacency, weights: WeightTable, nodes: set<string>,
                        data: map<string, seq<real>>, similarity: Similarity)
    requires Symmetric(adj) && Irreflexive(adj) && adj.Keys <= nodes && WeightsOnEdges(adj, weights)
    requires data.Keys <= nodes
    ensures var e := Edges(data, similarity);
      && Symmetric(WithEdges(adj, e))
      && Irreflexive(WithEdges(adj, e))
      && WithEdges(adj, e).Keys <= nodes
      && WeightsOnEdges(WithEdges(adj, e), weights + WeightsOf(data, similarity, e))
  {
    var e := Edges(data, similarity);
    var adj' := WithEdges(adj, e);
    EdgesWellFormed(data, similarity);
    WithEdgesKeepsSymmetric(adj, e);
    WithEdgesKeepsIrreflexive(adj, e);
    forall p | p in weights + WeightsOf(data, similarity, e) ensures p.1 in Neighbours(adj', p.0) {
      WithEdgesNeighbours(adj, e, p.0);
    }
  }

  /**
   * With a symmetric similarity (as Pearson correlation is), the pair loop
   * accepts a pair in one order exactly when it accepts it in the other,
   * and both orders receive the same weight.
   */
  lemma SymmetricSimilarityWeighsBothOrders(data: map<string, seq<real>>, similarity: Similarity, a: string, b: string)
    requires forall s, t :: similarity(s, t) == similarity(t, s)
    ensures (a, b) in Edges(data, similarity) <==> (b, a) in Edges(data, similarity)
    ensures var e := Edges(data, similarity);
      (a, b) in e ==> WeightsOf(data, similarity, e)[(a, b)] == WeightsOf(data, similarity, e)[(b, a)]
  {
    if a in data && b in data {
      assert Accepted(data, similarity, a, b) <==> Accepted(data, similarity, b, a) by {
        assert similarity(data[a], data[b]) == similarity(data[b], data[a]);
      }
    }
  }

  /** Growing the first set of `EdgesBetween` by one city. */
  lemma EdgesBetweenAddFrom(data: map<string, seq<real>>, similarity: Similarity, from: set<string>, a: string)
    requires from <= data.Keys && a in data
    ensures EdgesBetween(data, similarity, from + {a}, data.Keys)
         == EdgesBetween(data, similarity, from, data.Keys) + EdgesBetween(data, similarity, {a}, data.Keys)
  {
  }

  /** Growing the second set of `EdgesBetween` by one city. */
  lemma EdgesBetweenAddTo(data: map<string, seq<real>>, similarity: Similarity, a: string, to: set<string>, b: string)
    requires a in data && to <= data.Keys && b in data
    ensures EdgesBetween(data, similarity, {a}, to + {b})
         == EdgesBetween(data, similarity, {a}, to)
            + (if Accepted(data, similarity, a, b) then {(a, b)} else {})
  {
  }

  // ---------------------------------------------------------------------
  // The graph object

  class Graph {
    var adjacency: Adjacency
    var weights: WeightTable
    var nodes: set<string>

    /** The shape the source's construction gives a graph. */
    ghost predicate Valid()
      reads this
    {
      && Symmetric(adjacency)
      && Irreflexive(adjacency)
      && adjacency.Keys <= nodes
      && WeightsOnEdges(adjacency, weights)
    }

    /** `Graph::new`: no nodes, no edges, no weights. */
    constructor ()
      ensures adjacency == map[] && weights == map[] && nodes == {}
      ensures Valid()
    {
      adjacency := map[];
      weights := map[];
      nodes := {};
    }

    /**
     * `add_edge`: `a` and `b` become neighbours of each other, the weight is
     * stored under `(a, b)` only, overwriting an earlier one, and `nodes` is
     * left alone.
     */
    method AddEdge(a: string, b: string, weight: real)
      modifies this`adjacency, this`weights
      ensures adjacency == Link(old(adjacency), a, b)
      ensures b in adjacency[a] && a in adjacency[b]
      ensures weights == old(weights)[(a, b) := weight]
      ensures old(Symmetric(adjacency)) ==> Symmetric(adjacency)
      ensures old(Irreflexive(adjacency)) && a != b ==> Irreflexive(adjacency)
      ensures old(WeightsOnEdges(adjacency, weights)) ==> WeightsOnEdges(adjacency, weights)
    {
      ghost var adj0 := adjacency;
      adjacency := adjacency[a := Neighbours(adjacency, a) + {b}];
      adjacency := adjacency[b := Neighbours(adjacency, b) + {a}];
      weights := weights[(a, b) := weight];
      LinkConnects(adj0, a, b);
      if Symmetric(adj0) {
        LinkKeepsSymmetric(adj0, a, b);
      }
      if Irreflexive(adj0) && a != b {
        LinkKeepsIrreflexive(adj0, a, b);
      }
    }

    /**
     * The record loop of `load_from_csv`: each record's reading is appended
     * to its city's series and the city is added to `nodes`.
     */
    method ReadRecords(rows: seq<Row>) returns (cityData: map<string, seq<real>>, recordCount: nat)
      modifies this`nodes
      ensures cityData == Accumulate(rows)
      ensures cityData.Keys == Cities(rows)
      ensures forall city :: SeriesOf(cityData, city) == ReadingsOf(rows, city)
      ensures nodes == old(nodes) + cityData.Keys
      ensures recordCount == |rows| == TotalLength(cityData)
    {
      cityData := map[];
      recordCount := 0;
      for i := 0 to |rows|
        invariant cityData == Accumulate(rows[..i])
        invariant nodes == old(nodes) + cityData.Keys
        invariant recordCount == i
      {
        recordCount := recordCount + 1;
        var city := CityOf(rows[i]);
        var avgTemp := ReadingOf(rows[i]);
        cityData := cityData[city := SeriesOf(cityData, city) + [avgTemp]];
        nodes := nodes + {city};
        assert rows[..i + 1][..i] == rows[..i];
      }
      assert rows[..|rows|] == rows;
      AccumulateGroupsByCity(rows);
      AccumulateCountsEveryRow(rows);
    }

    /**
     * The inner pair loop of `load_from_csv`, for one first city `cityA`:
     * every second city it accepts is linked to `cityA`, with their
     * similarity as weight.
     */
    method LinkFrom(cityA: string, cityData: map<string, seq<real>>, similarity: Similarity)
      requires cityA in cityData
      modifies this`adjacency, this`weights
      ensures adjacency == WithEdges(old(adjacency), EdgesBetween(cityData, similarity, {cityA}, cityData.Keys))
      ensures weights
           == old(weights) + WeightsOf(cityData, similarity, EdgesBetween(cityData, similarity, {cityA}, cityData.Keys))
    {
      var others := cityData.Keys;
      ghost var seen: set<string> := {};
      ghost var linked: set<(string, string)> := {};
      WithNoEdges(adjacency);
      while others != {}
        invariant others + seen == cityData.Keys && others !! seen
        invariant linked == EdgesBetween(cityData, similarity, {cityA}, seen)
        invariant adjacency == WithEdges(old(adjacency), linked)
        invariant weights == old(weights) + WeightsOf(cityData, similarity, linked)
        decreases others
      {
        var cityB :| cityB in others;
        EdgesBetweenAddTo(cityData, similarity, cityA, seen, cityB);
        if cityA != cityB && SameCountry(cityA, cityB) {
          var correlation := similarity(cityData[cityA], cityData[cityB]);
          if correlation > Threshold {
            LinkWithEdges(old(adjacency), linked, cityA, cityB);
            WeightsOfAdd(old(weights), cityData, similarity, linked, cityA, cityB);
            AddEdge(cityA, cityB, correlation);
            linked := linked + {(cityA, cityB)};
          }
        }
        others := others - {cityB};
        seen := seen + {cityB};
      }
    }

    /**
     * The pair loop of `load_from_csv`: every ordered pair of distinct
     * ingested cities that the filter accepts and whose similarity exceeds
     * the threshold is linked, with that similarity as weight.
     */
    method BuildEdges(cityData: map<string, seq<real>>, similarity: Similarity)
      modifies this`adjacency, this`weights
      ensures adjacency == WithEdges(old(adjacency), Edges(cityData, similarity))
      ensures weights == old(weights) + WeightsOf(cityData, similarity, Edges(cityData, similarity))
    {
      var pending := cityData.Keys;
      ghost var visited: set<string> := {};
      ghost var linked: set<(string, string)> := {};
      WithNoEdges(adjacency);
      while pending != {}
        invariant pending + visited == cityData.Keys && pending !! visited
        invariant linked == EdgesBetween(cityData, similarity, visited, cityData.Keys)
        invariant adjacency == WithEdges(old(adjacency), linked)
        invariant weights == old(weights) + WeightsOf(cityData, similarity, linked)
        decreases pending
      {
        var cityA :| cityA in pending;
        ghost var fromA := EdgesBetween(cityData, similarity, {cityA}, cityData.Keys);
        WithEdgesUnion(old(adjacency), linked, fromA);
        WeightsOfUnion(old(weights), cityData, similarity, linked, fromA);
        LinkFrom(cityA, cityData, similarity);
        EdgesBetweenAddFrom(cityData, similarity, visited, cityA);
        linked := linked + fromA;
        pending := pending - {cityA};
        visited := visited + {cityA};
      }
    }

    /**
     * `load_from_csv` on records already read: the cities join `nodes`, and
     * the accepted pairs of the cities' series are linked and weighted.
     * A graph of the shape `Graph::new` gives keeps that shape.
     */
    method LoadFromCsv(rows: seq<Row>, similarity: Similarity)
      modifies this
      ensures nodes == old(nodes) + Cities(rows)
      ensures adjacency == WithEdges(old(adjacency), Edges(Accumulate(rows), similarity))
      ensures weights == old(weights) + WeightsOf(Accumulate(rows), similarity, Edges(Accumulate(rows), similarity))
      ensures old(Valid()) ==> Valid()
    {
      ghost var valid0 := Valid();
      var cityData, recordCount := ReadRecords(rows);
      if valid0 {
        BuildKeepsShape(adjacency, weights, nodes, cityData, similarity);
      }
      BuildEdges(cityData, similarity);
    }

    /**
     * `degree_distribution`: one entry per key of the adjacency map (nodes
     * that never gained an edge have none), listed in `order`, the map's
     * iteration order; each entry is that node's number of neighbours.
     */
    function DegreeDistribution(order: seq<string>): (r: seq<nat>)
      reads this
      requires IsEnumeration(order, adjacency.Keys)
      ensures |r| == |order| == |adjacency|
      ensures forall i :: 0 <= i < |r| ==> order[i] in adjacency && r[i] == |adjacency[order[i]]|
    {
      EnumerationFacts(order, adjacency.Keys);
      Degrees(adjacency, order)
    }

    /**
     * `centrality`: at most five (node, degree) entries, by decreasing
     * degree, each for a distinct key of the adjacency map; a key left out
     * has no larger degree than the last entry kept.
     */
    function Centrality(order: seq<string>): (r: seq<Score>)
      reads this
      requires IsEnumeration(order, adjacency.Keys)
      ensures |r| == Min(TopCount, |adjacency|)
      ensures NonIncreasing(r)
      ensures forall i :: 0 <= i < |r| ==> r[i].0 in adjacency && r[i].1 == |adjacency[r[i].0]|
      ensures forall i, j :: 0 <= i < j < |r| ==> r[i].0 != r[j].0
      ensures forall k :: k in adjacency && (forall i :: 0 <= i < |r| ==> r[i].0 != k)
                ==> |r| == TopCount && |adjacency[k]| <= r[TopCount - 1].1
    {
      TopScoresLength(adjacency, order);
      TopScoresReport(adjacency, order);
      forall k | k in adjacency && (forall i :: 0 <= i < |TopScores(adjacency, order)| ==> TopScores(adjacency, order)[i].0 != k)
        ensures |TopScores(adjacency, order)| == TopCount && |adjacency[k]| <= TopScores(adjacency, order)[TopCount - 1].1
      {
        TopScoresLeftOut(adjacency, order, k);
      }
      TopScores(adjacency, order)
    }
  }

  // ---------------------------------------------------------------------
  // The analysis reads, over the adjacency map

  /** `order` lists every key of `keys` exactly once (a hash map's iteration order). */
  predicate IsEnumeration(order: seq<string>, keys: set<string>) {
    multiset(order) == multiset(keys)
  }

  /** A value at two positions occurs at least twice. */
  lemma CountsRepeats<T>(s: seq<T>, i: nat, j: nat)
    requires i < j < |s|
    ensures s[i] == s[j] ==> multiset(s)[s[i]] >= 2
  {
    assert s == s[..j] + s[j..];
    assert s[..j][i] == s[i];
    assert s[j..][0] == s[j];
  }

  /** An enumeration has as many entries as the set, lists only its keys, and none twice. */
  lemma EnumerationFacts(order: seq<string>, keys: set<string>)
    requires IsEnumeration(order, keys)
    ensures |order| == |keys|
    ensures forall i :: 0 <= i < |order| ==> order[i] in keys
    ensures Distinct(order)
  {
    assert |multiset(order)| == |multiset(keys)|;
    forall i | 0 <= i < |order| ensures order[i] in keys {
      assert order[i] in multiset(order);
    }
    forall i, j | 0 <= i < j < |order| ensures order[i] != order[j] {
      CountsRepeats(order, i, j);
    }
  }

  /** Dropping the entry at `j`. */
  lemma MultisetRemove<T>(s: seq<T>, j: nat)
    requires j < |s|
    ensures s == s[..j] + ([s[j]] + s[j + 1..])
    ensures multiset(s[..j] + s[j + 1..]) == multiset(s) - multiset{s[j]}
  {
    assert s == s[..j] + ([s[j]] + s[j + 1..]);
  }

  /** The neighbour-set sizes of the nodes of `order`, in that order. */
  function Degrees(adj: Adjacency, order: seq<string>): seq<nat> {
    seq(|order|, i requires 0 <= i < |order| => |Neighbours(adj, order[i])|)
  }

  lemma DegreesAppend(adj: Adjacency, s: seq<string>, t: seq<string>)
    ensures Degrees(adj, s + t) == Degrees(adj, s) + Degrees(adj, t)
  {
  }

  /** The degree of the node at `j` can be taken out of the distribution. */
  lemma DegreesRemove(adj: Adjacency, order: seq<string>, j: nat)
    requires j < |order|
    ensures multiset(Degrees(adj, order))
         == multiset{|Neighbours(adj, order[j])|} + multiset(Degrees(adj, order[..j] + order[j + 1..]))
  {
    var before, after := order[..j], order[j + 1..];
    var d, b, a := |Neighbours(adj, order[j])|, Degrees(adj, before), Degrees(adj, after);
    assert Degrees(adj, order) == b + ([d] + a) by {
      assert order == before + ([order[j]] + after);
      DegreesAppend(adj, before, [order[j]] + after);
      DegreesAppend(adj, [order[j]], after);
    }
    assert Degrees(adj, before + after) == b + a by {
      DegreesAppend(adj, before, after);
    }
    assert multiset(b + ([d] + a)) == multiset{d} + multiset(b + a);
  }

  /** Listing the same nodes in another order lists the same degrees. */
  lemma {:induction false} DegreesPermutation(adj: Adjacency, o1: seq<string>, o2: seq<string>)
    requires multiset(o1) == multiset(o2)
    ensures multiset(Degrees(adj, o1)) == multiset(Degrees(adj, o2))
    decreases |o1|
  {
    if o1 == [] {
      assert |multiset(o2)| == 0;
    } else {
      var k := o1[0];
      assert k in multiset(o2);
      var j :| 0 <= j < |o2| && o2[j] == k;
      var rest1, rest2 := o1[..0] + o1[1..], o2[..j] + o2[j + 1..];
      assert multiset(rest1) == multiset(rest2) by {
        MultisetRemove(o1, 0);
        MultisetRemove(o2, j);
      }
      DegreesPermutation(adj, rest1, rest2);
      DegreesRemove(adj, o1, 0);
      DegreesRemove(adj, o2, j);
    }
  }

  /**
   * The degree distribution does not depend on the iteration order: any two
   * enumerations of the same nodes give the same multiset of degrees.
   */
  lemma DegreesOrderFree(adj: Adjacency, keys: set<string>, o1: seq<string>, o2: seq<string>)
    requires IsEnumeration(o1, keys) && IsEnumeration(o2, keys)
    ensures multiset(Degrees(adj, o1)) == multiset(Degrees(adj, o2))
  {
    DegreesPermutation(adj, o1, o2);
  }

  /** The (node, degree) entries of the nodes of `order`, in that order. */
  function ScoresOf(adj: Adjacency, order: seq<string>): seq<Score> {
    seq(|order|, i requires 0 <= i < |order| => (order[i], |Neighbours(adj, order[i])|))
  }

  /** The scores sorted by decreasing degree. */
  function Ranked(adj: Adjacency, order: seq<string>): seq<Score> {
    SortByDegree(ScoresOf(adj, order))
  }

  /** The first five ranked entries (`take(5)`). */
  function TopScores(adj: Adjacency, order: seq<string>): seq<Score> {
    var ranked := Ranked(adj, order);
    ranked[..Min(TopCount, |ranked|)]
  }

  /** An entry that reports a listed node with its number of neighbours. */
  ghost predicate IsScore(adj: Adjacency, order: seq<string>, e: Score) {
    e.0 in order && e.1 == |Neighbours(adj, e.0)|
  }

  /** Sorting keeps every score and adds none. */
  lemma RankedScores(adj: Adjacency, order: seq<string>)
    ensures |Ranked(adj, order)| == |order|
    ensures forall i :: 0 <= i < |Ranked(adj, order)| ==> IsScore(adj, order, Ranked(adj, order)[i])
    ensures forall k :: k in order ==> (k, |Neighbours(adj, k)|) in Ranked(adj, order)
  {
    var scores, ranked := ScoresOf(adj, order), Ranked(adj, order);
    assert |multiset(ranked)| == |multiset(scores)|;
    forall i | 0 <= i < |ranked| ensures IsScore(adj, order, ranked[i]) {
      assert ranked[i] in multiset(scores);
      var m :| 0 <= m < |scores| && scores[m] == ranked[i];
    }
    forall k | k in order ensures (k, |Neighbours(adj, k)|) in ranked {
      var m :| 0 <= m < |order| && order[m] == k;
      assert scores[m] in multiset(ranked);
    }
  }

  /** The ranked entries of an enumeration are distinct. */
  lemma RankedDistinct(adj: Adjacency, order: seq<string>, keys: set<string>)
    requires IsEnumeration(order, keys)
    ensures Distinct(Ranked(adj, order))
  {
    EnumerationFacts(order, keys);
    var scores := ScoresOf(adj, order);
    forall i, j | 0 <= i < j < |scores| ensures scores[i] != scores[j] {
      assert scores[i].0 == order[i] && scores[j].0 == order[j];
    }
  }

  /** A prefix of a non-increasing sequence of distinct entries is one too. */
  lemma PrefixKeeps(ranked: seq<Score>, n: nat)
    requires n <= |ranked|
    requires NonIncreasing(ranked) && Distinct(ranked)
    ensures NonIncreasing(ranked[..n]) && Distinct(ranked[..n])
  {
    assert forall i :: 0 <= i < n ==> ranked[..n][i] == ranked[i];
  }

  /** `take(5)` keeps five entries, or all of them when there are fewer. */
  lemma TopScoresLength(adj: Adjacency, order: seq<string>)
    requires IsEnumeration(order, adj.Keys)
    ensures |TopScores(adj, order)| == Min(TopCount, |adj|)
  {
    EnumerationFacts(order, adj.Keys);
    RankedScores(adj, order);
  }

  /** The kept entries are by decreasing degree, each a node's true degree, no node twice. */
  lemma TopScoresReport(adj: Adjacency, order: seq<string>)
    requires IsEnumeration(order, adj.Keys)
    ensures var r := TopScores(adj, order);
      && NonIncreasing(r)
      && (forall i :: 0 <= i < |r| ==> r[i].0 in adj && r[i].1 == |adj[r[i].0]|)
      && (forall i, j :: 0 <= i < j < |r| ==> r[i].0 != r[j].0)
  {
    var ranked := Ranked(adj, order);
    var r := TopScores(adj, order);
    RankedScores(adj, order);
    RankedDistinct(adj, order, adj.Keys);
    PrefixKeeps(ranked, |r|);
    assert forall k :: k in order ==> k in adj by {
      forall k | k in order ensures k in adj {
        assert k in multiset(order);
      }
    }
    forall i | 0 <= i < |r| ensures IsScore(adj, order, r[i]) {
      assert r[i] == ranked[i];
    }
    forall i, j | 0 <= i < j < |r| ensures r[i].0 != r[j].0 {
      assert r[i] != r[j];
      assert IsScore(adj, order, r[i]) && IsScore(adj, order, r[j]);
    }
  }

  /** A node left out of the top five has no larger degree than the fifth. */
  lemma TopScoresLeftOut(adj: Adjacency, order: seq<string>, k: string)
    requires IsEnumeration(order, adj.Keys)
    requires k in adj
    requires forall i :: 0 <= i < |TopScores(adj, order)| ==> TopScores(adj, order)[i].0 != k
    ensures |TopScores(adj, order)| == TopCount
    ensures |adj[k]| <= TopScores(adj, order)[TopCount - 1].1
  {
    var ranked, r := Ranked(adj, order), TopScores(adj, order);
    var e := (k, |Neighbours(adj, k)|);
    assert k in order by {
      assert k in multiset(adj.Keys);
    }
    RankedScores(adj, order);
    assert e !in r;
    LeftOutRanksLower(ranked, |r|, e);
  }

  /** An entry of a non-increasing sequence that is not among the first `n` ranks no higher than the `n`-th. */
  lemma LeftOutRanksLower(ranked: seq<Score>, n: nat, e: Score)
    requires NonIncreasing(ranked) && n <= |ranked|
    requires e in ranked && e !in ranked[..n]
    ensures n < |ranked|
    ensures n > 0 ==> e.1 <= ranked[n - 1].1
  {
    var j :| 0 <= j < |ranked| && ranked[j] == e;
    forall i | 0 <= i < n ensures ranked[i] != e {
      assert ranked[..n][i] == ranked[i];
    }
  }
}
