/**
 * Whole runs of `Graph::new`, `load_from_csv` and the analysis reads on
 * small inputs, stated as methods that build a graph and report what the
 * analysis returns.
 */
module Scenarios {
  import opened Ingest
  import opened Ranking
  import opened ClimateGraph

  /** X rises 1, 2, 3, 4; Y rises twice as fast; Z stays at 5. */
  const XS: seq<real> := [1.0, 2.0, 3.0, 4.0]
  const YS: seq<real> := [2.0, 4.0, 6.0, 8.0]
  const ZS: seq<real> := [5.0, 5.0, 5.0, 5.0]

  function Reading(city: string, t: real): Row {
    Row(Some(t), Some(city))
  }

  /** One reading for each of X, Y and Z, in that order. */
  function Step(x: real, y: real, z: real): seq<Row> {
    [Reading("X", x), Reading("Y", y), Reading("Z", z)]
  }

  /** A file of records that interleaves the series `xs`, `ys` and `zs` of X, Y and Z. */
  function Records(xs: seq<real>, ys: seq<real>, zs: seq<real>): seq<Row>
    requires |xs| == |ys| == |zs|
  {
    if xs == [] then [] else Step(xs[0], ys[0], zs[0]) + Records(xs[1..], ys[1..], zs[1..])
  }

  /** The file of the three-city scenario. */
  function ThreeCityRows(): seq<Row> {
    Records(XS, YS, ZS)
  }

  /**
   * Loading records that give X the readings `XS`, Y the readings `YS`
   * and Z the readings `ZS` (`ThreeCityRows` is such a file, by
   * `ThreeCityRowsFit`), with a similarity that correlates X and Y fully
   * and Z with neither: all three become nodes, only X and Y are linked,
   * and Z, which gained no edge, is absent from the degree distribution
   * and from the ranking.
   */
  method ThreeCities(rows: seq<Row>, similarity: Similarity, order: seq<string>)
    returns (nodes: set<string>, degrees: seq<nat>, top: seq<Score>)
    requires Cities(rows) == {"X", "Y", "Z"}
    requires ReadingsOf(rows, "X") == XS && ReadingsOf(rows, "Y") == YS && ReadingsOf(rows, "Z") == ZS
    requires similarity(XS, YS) == 1.0 && similarity(YS, XS) == 1.0
    requires similarity(XS, ZS) == 0.0 && similarity(ZS, XS) == 0.0
    requires similarity(YS, ZS) == 0.0 && similarity(ZS, YS) == 0.0
    requires order == ["X", "Y"] || order == ["Y", "X"]
    ensures nodes == {"X", "Y", "Z"}
    ensures degrees == [1, 1]
    ensures |top| == 2 && ("X", 1) in top && ("Y", 1) in top
  {
    var g := new Graph();
    g.LoadFromCsv(rows, similarity);
    ThreeCitiesBuild(rows, similarity);
    nodes := g.nodes;
    degrees, top := AnalyseLinkedPair(g, order);
  }

  /** Of the three cities, the pair loop links X and Y only. */
  lemma ThreeCitiesBuild(rows: seq<Row>, similarity: Similarity)
    requires Cities(rows) == {"X", "Y", "Z"}
    requires ReadingsOf(rows, "X") == XS && ReadingsOf(rows, "Y") == YS && ReadingsOf(rows, "Z") == ZS
    requires similarity(XS, YS) == 1.0 && similarity(YS, XS) == 1.0
    requires similarity(XS, ZS) == 0.0 && similarity(ZS, XS) == 0.0
    requires similarity(YS, ZS) == 0.0 && similarity(ZS, YS) == 0.0
    ensures WithEdges(map[], Edges(Accumulate(rows), similarity)) == map["X" := {"Y"}, "Y" := {"X"}]
  {
    var data := Accumulate(rows);
    AccumulateGroupsByCity(rows);
    assert data["X"] == XS && data["Y"] == YS && data["Z"] == ZS by {
      assert SeriesOf(data, "X") == XS && SeriesOf(data, "Y") == YS && SeriesOf(data, "Z") == ZS;
    }
    ThreeCitiesEdges(data, similarity);
    ThreeCitiesAdjacency(WithEdges(map[], {("X", "Y"), ("Y", "X")}));
  }

  /** The pair loop accepts exactly the two orders of X and Y. */
  lemma ThreeCitiesEdges(data: map<string, seq<real>>, similarity: Similarity)
    requires data.Keys == {"X", "Y", "Z"}
    requires data["X"] == XS && data["Y"] == YS && data["Z"] == ZS
    requires similarity(XS, YS) == 1.0 && similarity(YS, XS) == 1.0
    requires similarity(XS, ZS) == 0.0 && similarity(ZS, XS) == 0.0
    requires similarity(YS, ZS) == 0.0 && similarity(ZS, YS) == 0.0
    ensures Edges(data, similarity) == {("X", "Y"), ("Y", "X")}
  {
    assert Accepted(data, similarity, "X", "Y") && Accepted(data, similarity, "Y", "X");
  }

  /** Linking X and Y into an empty graph. */
  lemma ThreeCitiesAdjacency(adj: Adjacency)
    requires adj == WithEdges(map[], {("X", "Y"), ("Y", "X")})
    ensures adj == map["X" := {"Y"}, "Y" := {"X"}]
  {
    var e := {("X", "Y"), ("Y", "X")};
    assert Ends(e) == {"X", "Y"} by {
      assert ("X", "Y").0 == "X" && ("X", "Y").1 == "Y";
    }
    assert adj.Keys == {"X", "Y"};
    PartnersIff(e, "X", "Y");
    PartnersIff(e, "Y", "X");
    assert adj["X"] == Partners(e, "X") == {"Y"};
    assert adj["Y"] == Partners(e, "Y") == {"X"};
  }

  /** The analysis of a graph in which X and Y are linked to each other and to nothing else. */
  method AnalyseLinkedPair(g: Graph, order: seq<string>) returns (degrees: seq<nat>, top: seq<Score>)
    requires g.adjacency == map["X" := {"Y"}, "Y" := {"X"}]
    requires order == ["X", "Y"] || order == ["Y", "X"]
    ensures degrees == [1, 1]
    ensures |top| == 2 && ("X", 1) in top && ("Y", 1) in top
  {
    LinkedPairEnumerated(g.adjacency, order);
    LinkedPairDegrees(g, order);
    LinkedPairTop(g, order);
    degrees := g.DegreeDistribution(order);
    top := g.Centrality(order);
  }

  lemma LinkedPairEnumerated(adj: Adjacency, order: seq<string>)
    requires adj == map["X" := {"Y"}, "Y" := {"X"}]
    requires order == ["X", "Y"] || order == ["Y", "X"]
    ensures IsEnumeration(order, adj.Keys)
  {
    assert adj.Keys == {"X", "Y"};
  }

  /** Both linked nodes have degree one. */
  lemma LinkedPairDegrees(g: Graph, order: seq<string>)
    requires g.adjacency == map["X" := {"Y"}, "Y" := {"X"}]
    requires IsEnumeration(order, g.adjacency.Keys)
    ensures g.DegreeDistribution(order) == [1, 1]
  {
    var d := g.DegreeDistribution(order);
    assert |d| == 2;
    assert d[0] == |g.adjacency[order[0]]| == 1;
    assert d[1] == |g.adjacency[order[1]]| == 1;
  }

  /** The ranking holds both linked nodes with degree one. */
  lemma LinkedPairTop(g: Graph, order: seq<string>)
    requires g.adjacency == map["X" := {"Y"}, "Y" := {"X"}]
    requires IsEnumeration(order, g.adjacency.Keys)
    ensures var top := g.Centrality(order); |top| == 2 && ("X", 1) in top && ("Y", 1) in top
  {
    var top := g.Centrality(order);
    assert |top| == 2;
    var a, b := top[0], top[1];
    assert a.0 in {"X", "Y"} && b.0 in {"X", "Y"} && a.0 != b.0;
    assert a.1 == 1 && b.1 == 1;
    assert a == ("X", 1) || b == ("X", 1);
    assert a == ("Y", 1) || b == ("Y", 1);
  }

  /** The readings of a city in two runs of records are those of the first run, then the second. */
  lemma {:induction false} ReadingsOfConcat(a: seq<Row>, b: seq<Row>, city: string)
    ensures ReadingsOf(a + b, city) == ReadingsOf(a, city) + ReadingsOf(b, city)
  {
    if a != [] {
      assert (a + b)[1..] == a[1..] + b;
      ReadingsOfConcat(a[1..], b, city);
    } else {
      assert a + b == b;
    }
  }

  /** Each step contributes one reading to each city. */
  lemma StepReadings(x: real, y: real, z: real)
    ensures ReadingsOf(Step(x, y, z), "X") == [x]
    ensures ReadingsOf(Step(x, y, z), "Y") == [y]
    ensures ReadingsOf(Step(x, y, z), "Z") == [z]
  {
    var s := Step(x, y, z);
    var s1 := [Reading("Y", y), Reading("Z", z)];
    var s2 := [Reading("Z", z)];
    assert s[1..] == s1 && s1[1..] == s2 && s2[1..] == [];
    assert "X" != "Y" && "X" != "Z" && "Y" != "Z" by {
      assert "X"[0] != "Y"[0] && "X"[0] != "Z"[0] && "Y"[0] != "Z"[0];
    }
    forall city ensures ReadingsOf(s, city)
      == (if city == "X" then [x] else []) + (if city == "Y" then [y] else []) + (if city == "Z" then [z] else [])
    {
      assert ReadingsOf(s2, city) == (if city == "Z" then [z] else []) + ReadingsOf([], city);
    }
  }

  /** Each city's readings in an interleaved file are its series. */
  lemma {:induction false} RecordsReadings(xs: seq<real>, ys: seq<real>, zs: seq<real>)
    requires |xs| == |ys| == |zs|
    ensures ReadingsOf(Records(xs, ys, zs), "X") == xs
    ensures ReadingsOf(Records(xs, ys, zs), "Y") == ys
    ensures ReadingsOf(Records(xs, ys, zs), "Z") == zs
    decreases |xs|
  {
    if xs != [] {
      var head, tail := Step(xs[0], ys[0], zs[0]), Records(xs[1..], ys[1..], zs[1..]);
      RecordsReadings(xs[1..], ys[1..], zs[1..]);
      StepReadings(xs[0], ys[0], zs[0]);
      ReadingsOfConcat(head, tail, "X");
      ReadingsOfConcat(head, tail, "Y");
      ReadingsOfConcat(head, tail, "Z");
      assert xs == [xs[0]] + xs[1..] && ys == [ys[0]] + ys[1..] && zs == [zs[0]] + zs[1..];
    }
  }

  /** An interleaved file names only X, Y and Z, and a non-empty one names all three. */
  lemma {:induction false} RecordsCities(xs: seq<real>, ys: seq<real>, zs: seq<real>)
    requires |xs| == |ys| == |zs|
    ensures Cities(Records(xs, ys, zs)) == if xs == [] then {} else {"X", "Y", "Z"}
    decreases |xs|
  {
    if xs != [] {
      var head, tail := Step(xs[0], ys[0], zs[0]), Records(xs[1..], ys[1..], zs[1..]);
      var rows := head + tail;
      RecordsCities(xs[1..], ys[1..], zs[1..]);
      assert Cities(head) == {"X", "Y", "Z"} by {
        assert CityOf(head[0]) == "X" && CityOf(head[1]) == "Y" && CityOf(head[2]) == "Z";
      }
      forall c ensures c in Cities(rows) <==> c in Cities(head) || c in Cities(tail) {
        if c in Cities(rows) {
          var i :| 0 <= i < |rows| && CityOf(rows[i]) == c;
          if i >= |head| {
            assert rows[i] == tail[i - |head|];
          }
        }
        if c in Cities(tail) {
          var i :| 0 <= i < |tail| && CityOf(tail[i]) == c;
          assert rows[|head| + i] == tail[i];
        }
        if c in Cities(head) {
          var i :| 0 <= i < |head| && CityOf(head[i]) == c;
          assert rows[i] == head[i];
        }
      }
    }
  }

  /** The scenario file gives each city its series and names the three cities. */
  lemma ThreeCityRowsFit()
    ensures Cities(ThreeCityRows()) == {"X", "Y", "Z"}
    ensures ReadingsOf(ThreeCityRows(), "X") == XS
    ensures ReadingsOf(ThreeCityRows(), "Y") == YS
    ensures ReadingsOf(ThreeCityRows(), "Z") == ZS
  {
    RecordsReadings(XS, YS, ZS);
    RecordsCities(XS, YS, ZS);
  }

  /**
   * Loading no records into a new graph gives no nodes, an empty degree
   * distribution and an empty ranking.
   */
  method EmptySource(similarity: Similarity) returns (nodes: set<string>, degrees: seq<nat>, top: seq<Score>)
    ensures nodes == {} && degrees == [] && top == []
  {
    var g := new Graph();
    g.LoadFromCsv([], similarity);
    assert Cities([]) == {};
    assert Edges(map[], similarity) == {};
    assert WithEdges(map[], {}) == map[];
    nodes := g.nodes;
    degrees := g.DegreeDistribution([]);
    top := g.Centrality([]);
  }
}
