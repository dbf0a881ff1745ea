/**
 * The record-reading loop of `Graph::load_from_csv`: every record adds one
 * reading (field 1) to the series of its city (field 3). This module holds
 * the pure specification of that accumulation; the loop itself is
 * `ClimateGraph.Graph.ReadRecords`.
 */
module Ingest {

  datatype Option<T> = None | Some(value: T)

  /**
   * One record after field extraction. `avgTemp` is field 1 read as a
   * number, None when the field is missing or does not parse; `city` is
   * field 3, None when the record has no such field.
   */
  datatype Row = Row(avgTemp: Option<real>, city: Option<string>)

  /** The city of a record; a missing field becomes the empty key. */
  function CityOf(row: Row): string {
    match row.city
    case Some(c) => c
    case None => ""
  }

  /** The reading of a record; a missing or unparsable field becomes 0.0. */
  function ReadingOf(row: Row): real {
    match row.avgTemp
    case Some(t) => t
    case None => 0.0
  }

  /** The series of `city`, empty while the city has none (`or_insert_with(Vec::new)`). */
  function SeriesOf(data: map<string, seq<real>>, city: string): seq<real> {
    if city in data then data[city] else []
  }

  /** `city_data` once the records `rows` have been read, one after another. */
  function Accumulate(rows: seq<Row>): map<string, seq<real>>
    decreases |rows|
  {
    if rows == [] then map[]
    else
      var data := Accumulate(rows[..|rows| - 1]);
      var row := rows[|rows| - 1];
      data[CityOf(row) := SeriesOf(data, CityOf(row)) + [ReadingOf(row)]]
  }

  /** Reference definition: the readings of the records naming `city`, in record order. */
  function ReadingsOf(rows: seq<Row>, city: string): seq<real> {
    if rows == [] then []
    else (if CityOf(rows[0]) == city then [ReadingOf(rows[0])] else []) + ReadingsOf(rows[1..], city)
  }

  /** The cities the records name. */
  function Cities(rows: seq<Row>): set<string> {
    set i | 0 <= i < |rows| :: CityOf(rows[i])
  }

  /** The number of readings stored over all cities. */
  ghost function TotalLength(data: map<string, seq<real>>): nat
    decreases |data|
  {
    if data == map[] then 0
    else
      assert data.Keys != {};
      var c :| c in data;
      |data[c]| + TotalLength(data - {c})
  }

  lemma {:induction false} ReadingsOfAppend(rows: seq<Row>, row: Row, city: string)
    ensures ReadingsOf(rows + [row], city)
         == ReadingsOf(rows, city) + (if CityOf(row) == city then [ReadingOf(row)] else [])
  {
    if rows == [] {
      assert [row][1..] == [];
    } else {
      assert (rows + [row])[1..] == rows[1..] + [row];
      ReadingsOfAppend(rows[1..], row, city);
    }
  }

  /**
   * Readings are grouped by city in arrival order: a city is a key exactly
   * when some record names it, and its series is the subsequence of
   * readings of the records that name it.
   */
  lemma {:induction false} AccumulateGroupsByCity(rows: seq<Row>)
    ensures Accumulate(rows).Keys == Cities(rows)
    ensures forall city :: SeriesOf(Accumulate(rows), city) == ReadingsOf(rows, city)
  {
    if rows != [] {
      var init, row := rows[..|rows| - 1], rows[|rows| - 1];
      assert rows == init + [row];
      AccumulateGroupsByCity(init);
      forall city ensures SeriesOf(Accumulate(rows), city) == ReadingsOf(rows, city) {
        ReadingsOfAppend(init, row, city);
      }
      assert Cities(rows) == Cities(init) + {CityOf(row)} by {
        forall c | c in Cities(rows) ensures c in Cities(init) + {CityOf(row)} {
          var i :| 0 <= i < |rows| && CityOf(rows[i]) == c;
          if i < |init| { assert init[i] == rows[i]; }
        }
        forall c | c in Cities(init) ensures c in Cities(rows) {
          var i :| 0 <= i < |init| && CityOf(init[i]) == c;
          assert rows[i] == init[i];
        }
        assert rows[|rows| - 1] == row;
      }
    }
  }

  lemma {:induction false} TotalLengthRemove(data: map<string, seq<real>>, city: string)
    requires city in data
    ensures TotalLength(data) == |data[city]| + TotalLength(data - {city})
    decreases |data|
  {
    var c :| c in data && TotalLength(data) == |data[c]| + TotalLength(data - {c});
    if c != city {
      TotalLengthRemove(data - {c}, city);
      TotalLengthRemove(data - {city}, c);
      assert data - {c} - {city} == data - {city} - {c};
    }
  }

  /** Appending one reading to one city's series adds one to the total. */
  lemma TotalLengthAppend(data: map<string, seq<real>>, city: string, x: real)
    ensures TotalLength(data[city := SeriesOf(data, city) + [x]]) == TotalLength(data) + 1
  {
    var data' := data[city := SeriesOf(data, city) + [x]];
    TotalLengthRemove(data', city);
    assert data' - {city} == data - {city};
    if city in data {
      TotalLengthRemove(data, city);
    } else {
      assert data - {city} == data;
    }
  }

  /** Every record is stored exactly once: the series lengths add up to the record count. */
  lemma {:induction false} AccumulateCountsEveryRow(rows: seq<Row>)
    ensures TotalLength(Accumulate(rows)) == |rows|
  {
    if rows != [] {
      var init, row := rows[..|rows| - 1], rows[|rows| - 1];
      AccumulateCountsEveryRow(init);
      TotalLengthAppend(Accumulate(init), CityOf(row), ReadingOf(row));
    }
  }
}
