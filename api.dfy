/** The per-person feature aggregator (api.py:39-63). The three fetches of a
    person's stored rx, labs and tests rows are its inputs; each feature is the
    maximum of its stored column, converted to a boolean, a float or an int. */
module Api {
  import opened Cells
  import opened Tables
  import opened Features
  import opened Cleaners

  /** A column of fetched records. Unlike `Tables.Column` it asks no table
      shape of the records: only that each holds `name`. */
  function Values(rows: seq<Row>, name: string): (cells: seq<Cell>)
    requires forall i | 0 <= i < |rows| :: name in rows[i]
    ensures |cells| == |rows|
  {
    seq(|rows|, i requires 0 <= i < |rows| => rows[i][name])
  }

  /** The number a stored feature cell stands for; NaN and anything else that is
      not a number or a boolean is skipped by the maximum. */
  function NumericValue(c: Cell): Option<real> {
    match c
    case Num(x) => Some(x)
    case Bool(b) => Some(if b then 1.0 else 0.0)
    case _ => None
  }

  /** Column maximum skipping NaN; `None` (NaN) when nothing is left. */
  function ColumnMax(cells: seq<Cell>): (m: Option<real>)
    ensures m.None? <==> forall i | 0 <= i < |cells| :: NumericValue(cells[i]).None?
    ensures m.Some? ==> exists i | 0 <= i < |cells| :: NumericValue(cells[i]) == m
    ensures m.Some? ==> forall i | 0 <= i < |cells| && NumericValue(cells[i]).Some? ::
                          NumericValue(cells[i]).value <= m.value
  {
    if cells == [] then None
    else
      var k := |cells| - 1;
      var prev := ColumnMax(cells[..k]);
      assert forall i | 0 <= i < k :: cells[..k][i] == cells[i];
      match NumericValue(cells[k])
      case None => prev
      case Some(x) => if prev.None? || prev.value < x then Some(x) else prev
  }

  /** `bool(m)`: NaN is true, as is every non-zero number. */
  function AsBool(m: Option<real>): Cell {
    Bool(m.None? || m.value != 0.0)
  }

  /** `float(m)`: NaN stays NaN. */
  function AsFloat(m: Option<real>): Cell {
    if m.None? then Missing else Num(m.value)
  }

  /** `bool(max)` of a flag column: true exactly when some row is true or no row
      holds a flag (the maximum of nothing is NaN, and NaN is true). */
  lemma MaxAsBool(cells: seq<Cell>)
    requires forall i | 0 <= i < |cells| :: cells[i].Bool? || cells[i].Missing?
    ensures AsBool(ColumnMax(cells)) ==
      Bool((exists i | 0 <= i < |cells| :: cells[i] == Bool(true)) || forall i | 0 <= i < |cells| :: cells[i].Missing?)
  {
    var m := ColumnMax(cells);
    if m.Some? {
      var i :| 0 <= i < |cells| && NumericValue(cells[i]) == m;
      if m.value != 0.0 {
        assert cells[i] == Bool(true);
      }
    }
  }

  /** `float(max)`: NaN exactly when no row holds a number; otherwise a number
      that some row holds and that no row exceeds. */
  lemma MaxAsFloat(cells: seq<Cell>)
    ensures var f := AsFloat(ColumnMax(cells));
      && (f == Missing <==> forall i | 0 <= i < |cells| :: NumericValue(cells[i]).None?)
      && (f != Missing ==> f.Num? && exists i | 0 <= i < |cells| :: NumericValue(cells[i]) == Some(f.x))
      && (f != Missing ==> forall i | 0 <= i < |cells| && NumericValue(cells[i]).Some? ::
            NumericValue(cells[i]).value <= f.x)
  {
  }

  /** Truncation toward zero. */
  function Truncate(x: real): (n: int)
    ensures 0.0 <= x ==> n as real <= x < n as real + 1.0
    ensures x < 0.0 ==> n as real - 1.0 < x <= n as real
  {
    if x >= 0.0 then x.Floor else -((-x).Floor)
  }

  /** `int(m)`: raises on NaN. */
  function AsInt(m: Option<real>): (r: Result<Cell>)
    ensures r.Err? <==> m.None?
    ensures r.Ok? ==> r.value == Num(Truncate(m.value) as real)
  {
    if m.None? then Err("cannot convert float NaN to integer") else Ok(Num(Truncate(m.value) as real))
  }

  const RxKeys: set<string> := {"taking_alpha_blockers"}
  const LabsKeys: set<string> := {"most_recent_hgb", "most_recent_a1c", "high_cholesterol_events"}
  const TestsKeys: set<string> := {"average_systolic_bp", "average_diastolic_bp"}

  /** Every fetched record carries the named columns. */
  predicate HasKeys(rows: seq<Row>, keys: set<string>) {
    forall i, k | 0 <= i < |rows| && k in keys :: k in rows[i]
  }

  /** The rx part of a person's features. */
  function RxFeatures(rx: seq<Row>): (f: map<string, Cell>)
    requires HasKeys(rx, RxKeys)
    ensures f.Keys == if |rx| > 0 then RxKeys else {}
    ensures |rx| > 0 ==> f["taking_alpha_blockers"] == AsBool(ColumnMax(Values(rx, "taking_alpha_blockers")))
  {
    if |rx| > 0 then map["taking_alpha_blockers" := AsBool(ColumnMax(Values(rx, "taking_alpha_blockers")))]
    else map[]
  }

  /** The lab part of a person's features; `int` fails on an all-NaN
      cholesterol count. */
  function LabsFeatures(labs: seq<Row>): (r: Result<map<string, Cell>>)
    requires HasKeys(labs, LabsKeys)
    ensures r.Err? <==> |labs| > 0 && ColumnMax(Values(labs, "high_cholesterol_events")).None?
    ensures r.Ok? ==> r.value.Keys == if |labs| > 0 then LabsKeys else {}
    ensures r.Ok? && |labs| > 0 ==>
      && r.value["most_recent_hgb"] == AsFloat(ColumnMax(Values(labs, "most_recent_hgb")))
      && r.value["most_recent_a1c"] == AsFloat(ColumnMax(Values(labs, "most_recent_a1c")))
      && Ok(r.value["high_cholesterol_events"]) == AsInt(ColumnMax(Values(labs, "high_cholesterol_events")))
  {
    if |labs| == 0 then Ok(map[])
    else
      var events := AsInt(ColumnMax(Values(labs, "high_cholesterol_events")));
      if events.Err? then Err(events.reason)
      else Ok(map["most_recent_hgb" := AsFloat(ColumnMax(Values(labs, "most_recent_hgb"))),
                  "most_recent_a1c" := AsFloat(ColumnMax(Values(labs, "most_recent_a1c"))),
                  "high_cholesterol_events" := events.value])
  }

  /** The test part of a person's features. */
  function TestsFeatures(tests: seq<Row>): (f: map<string, Cell>)
    requires HasKeys(tests, TestsKeys)
    ensures f.Keys == if |tests| > 0 then TestsKeys else {}
    ensures |tests| > 0 ==>
      && f["average_systolic_bp"] == AsFloat(ColumnMax(Values(tests, "average_systolic_bp")))
      && f["average_diastolic_bp"] == AsFloat(ColumnMax(Values(tests, "average_diastolic_bp")))
  {
    if |tests| > 0 then
      map["average_systolic_bp" := AsFloat(ColumnMax(Values(tests, "average_systolic_bp"))),
          "average_diastolic_bp" := AsFloat(ColumnMax(Values(tests, "average_diastolic_bp")))]
    else map[]
  }

  /** The three domains' feature names are pairwise different. */
  lemma KeysDisjoint()
    ensures RxKeys !! LabsKeys && RxKeys !! TestsKeys && LabsKeys !! TestsKeys
  {
    forall k | k in RxKeys ensures k !in LabsKeys && k !in TestsKeys {
      assert |k| == 21;
    }
    forall k | k in LabsKeys ensures k !in TestsKeys {
      assert |k| == 15 || |k| == 23;
    }
  }

  /** The feature mapping of one person: the rx keys, then the lab keys (or the
      failure of the lab part), then the test keys. */
  function PersonFeatures(rx: seq<Row>, labs: seq<Row>, tests: seq<Row>): Result<map<string, Cell>>
    requires HasKeys(rx, RxKeys) && HasKeys(labs, LabsKeys) && HasKeys(tests, TestsKeys)
  {
    var l := LabsFeatures(labs);
    if l.Err? then Err(l.reason) else Ok(RxFeatures(rx) + l.value + TestsFeatures(tests))
  }

  /** Which keys the mapping holds: a domain's keys appear exactly when its
      fetch returned rows, and no other key ever appears. The only failure is
      a lab fetch whose `high_cholesterol_events` column is all NaN, which
      `int` refuses. */
  lemma PersonFeatureKeys(rx: seq<Row>, labs: seq<Row>, tests: seq<Row>)
    requires HasKeys(rx, RxKeys) && HasKeys(labs, LabsKeys) && HasKeys(tests, TestsKeys)
    ensures var r := PersonFeatures(rx, labs, tests);
      && (r.Err? <==> |labs| > 0 && ColumnMax(Values(labs, "high_cholesterol_events")).None?)
      && (r.Ok? ==> r.value.Keys == (if |rx| > 0 then RxKeys else {})
                                  + (if |labs| > 0 then LabsKeys else {})
                                  + (if |tests| > 0 then TestsKeys else {}))
  {
  }

  /** Every feature present holds the value its own domain computed: the
      three parts never overwrite each other. */
  lemma PersonFeatureValues(rx: seq<Row>, labs: seq<Row>, tests: seq<Row>)
    requires HasKeys(rx, RxKeys) && HasKeys(labs, LabsKeys) && HasKeys(tests, TestsKeys)
    requires PersonFeatures(rx, labs, tests).Ok?
    ensures var f := PersonFeatures(rx, labs, tests).value;
      && (forall k | k in RxFeatures(rx) :: f[k] == RxFeatures(rx)[k])
      && (forall k | k in LabsFeatures(labs).value :: f[k] == LabsFeatures(labs).value[k])
      && (forall k | k in TestsFeatures(tests) :: f[k] == TestsFeatures(tests)[k])
  {
    KeysDisjoint();
  }

  /** A person with no stored rows at all gets an empty mapping. */
  lemma NoRowsNoFeatures()
    ensures PersonFeatures([], [], []) == Ok(map[])
  {
  }

  /** Inserting keys one after the other is a union with their display. */
  lemma InsertTwo<K, V>(m: map<K, V>, k1: K, v1: V, k2: K, v2: V)
    ensures m[k1 := v1][k2 := v2] == m + map[k1 := v1, k2 := v2]
  {
  }

  lemma InsertThree<K, V>(m: map<K, V>, k1: K, v1: V, k2: K, v2: V, k3: K, v3: V)
    ensures m[k1 := v1][k2 := v2][k3 := v3] == m + map[k1 := v1, k2 := v2, k3 := v3]
  {
  }

  lemma InsertNothing<K, V>(m: map<K, V>)
    ensures m + map[] == m
  {
  }

  /** The aggregator itself: successive conditional insertions into one
      mapping, with an early failure on the cholesterol count. */
  method GetPersonFeatures(rx: seq<Row>, labs: seq<Row>, tests: seq<Row>) returns (r: Result<map<string, Cell>>)
    requires HasKeys(rx, RxKeys) && HasKeys(labs, LabsKeys) && HasKeys(tests, TestsKeys)
    ensures r == PersonFeatures(rx, labs, tests)
  {
    var features: map<string, Cell> := map[];

    if |rx| > 0 {
      features := features["taking_alpha_blockers" := AsBool(ColumnMax(Values(rx, "taking_alpha_blockers")))];
    }
    assert features == RxFeatures(rx);

    ghost var base := features;
    if |labs| > 0 {
      var hgb := AsFloat(ColumnMax(Values(labs, "most_recent_hgb")));
      var a1c := AsFloat(ColumnMax(Values(labs, "most_recent_a1c")));
      features := features["most_recent_hgb" := hgb];
      features := features["most_recent_a1c" := a1c];
      var events := AsInt(ColumnMax(Values(labs, "high_cholesterol_events")));
      if events.Err? {
        return Err(events.reason);
      }
      features := features["high_cholesterol_events" := events.value];
      InsertThree(base, "most_recent_hgb", hgb, "most_recent_a1c", a1c, "high_cholesterol_events", events.value);
    } else {
      InsertNothing(base);
    }
    assert features == base + LabsFeatures(labs).value;

    base := features;
    if |tests| > 0 {
      var systolic := AsFloat(ColumnMax(Values(tests, "average_systolic_bp")));
      var diastolic := AsFloat(ColumnMax(Values(tests, "average_diastolic_bp")));
      features := features["average_systolic_bp" := systolic];
      features := features["average_diastolic_bp" := diastolic];
      InsertTwo(base, "average_systolic_bp", systolic, "average_diastolic_bp", diastolic);
    } else {
      InsertNothing(base);
    }
    assert features == base + TestsFeatures(tests);

    return Ok(features);
  }

  /** The maximum of a column holding one value on every row is that value. */
  lemma {:induction false} ConstantColumnMax(cells: seq<Cell>, v: Cell)
    requires |cells| > 0 && forall i | 0 <= i < |cells| :: cells[i] == v
    ensures ColumnMax(cells) == NumericValue(v)
  {
    if |cells| > 1 {
      var k := |cells| - 1;
      ConstantColumnMax(cells[..k], v);
    }
  }

  /** Any non-empty selection of the rows of one table. */
  predicate SelectedFrom(rows: seq<Row>, t: Table) {
    |rows| > 0 && forall i | 0 <= i < |rows| :: rows[i] in t.rows
  }

  lemma SelectedColumn(rows: seq<Row>, t: Table, name: string, v: Cell)
    requires WellFormed(t) && name in t.columns && SelectedFrom(rows, t)
    requires forall i | 0 <= i < |t.rows| :: Column(t, name)[i] == v
    ensures forall i | 0 <= i < |rows| :: name in rows[i]
    ensures ColumnMax(Values(rows, name)) == NumericValue(v)
  {
    forall i | 0 <= i < |rows| ensures name in rows[i] && rows[i][name] == v {
      assert rows[i] in t.rows;
      var j :| 0 <= j < |t.rows| && t.rows[j] == rows[i];
      assert Column(t, name)[j] == v;
    }
    ConstantColumnMax(Values(rows, name), v);
  }

  /** Reading back one person's prescription rows yields the alpha-blocker flag
      computed over the whole prescription table: the stored column is constant. */
  lemma AlphaBlockerReadBack(t: Table, rows: seq<Row>)
    requires WellFormed(t) && HasFeatureSchema(Rx, t)
    requires SelectedFrom(rows, Engineered(Rx, t).value)
    ensures HasKeys(rows, RxKeys)
    ensures AsBool(ColumnMax(Values(rows, "taking_alpha_blockers"))) == Bool(IsTakingAlphaBlockers(t))
  {
    var e := Engineered(Rx, t).value;
    EngineeredSpec(Rx, t);
    RxFeatureColumn(t);
    SelectedColumn(rows, e, "taking_alpha_blockers", Bool(IsTakingAlphaBlockers(t)));
  }

  /** Reading back lab rows yields the three lab features of the coerced lab
      table, the cholesterol count included (so `int` never fails on them). */
  lemma LabsReadBack(t: Table, rows: seq<Row>)
    requires WellFormed(t) && HasFeatureSchema(Labs, t)
    requires SelectedFrom(rows, Engineered(Labs, t).value)
    ensures HasKeys(rows, LabsKeys)
    ensures var s := CoercedLabs(t);
      && AsFloat(ColumnMax(Values(rows, "most_recent_hgb"))) == MostRecentHgb(s)
      && AsFloat(ColumnMax(Values(rows, "most_recent_a1c"))) == MostRecentA1c(s)
      && AsInt(ColumnMax(Values(rows, "high_cholesterol_events"))) == Ok(Num(HighCholesterolEvents(s) as real))
  {
    var s := CoercedLabs(t);
    var hgb, a1c := MostRecentHgb(s), MostRecentA1c(s);
    LabsFeatureColumns(t);
    MostRecentNumeric(s, Hemoglobin);
    MostRecentNumeric(s, A1c);
    LabsRowsReadBack(rows, LabsEngineered(t), hgb, a1c, HighCholesterolEvents(s));
  }

  /** Rows selected from a table whose three lab feature columns are constant
      read back as those constants. */
  lemma LabsRowsReadBack(rows: seq<Row>, e: Table, hgb: Cell, a1c: Cell, events: nat)
    requires WellFormed(e) && LabsKeysIn(e) && SelectedFrom(rows, e)
    requires (hgb.Num? || hgb.Missing?) && (a1c.Num? || a1c.Missing?)
    requires forall i | 0 <= i < |e.rows| ::
      && Column(e, "most_recent_hgb")[i] == hgb
      && Column(e, "most_recent_a1c")[i] == a1c
      && Column(e, "high_cholesterol_events")[i] == Num(events as real)
    ensures HasKeys(rows, LabsKeys)
    ensures AsFloat(ColumnMax(Values(rows, "most_recent_hgb"))) == hgb
    ensures AsFloat(ColumnMax(Values(rows, "most_recent_a1c"))) == a1c
    ensures AsInt(ColumnMax(Values(rows, "high_cholesterol_events"))) == Ok(Num(events as real))
  {
    forall i, k | 0 <= i < |rows| && k in LabsKeys ensures k in rows[i] {
      assert rows[i] in e.rows;
      assert k == "most_recent_hgb" || k == "most_recent_a1c" || k == "high_cholesterol_events";
    }
    assert AsFloat(ColumnMax(Values(rows, "most_recent_hgb"))) == hgb by {
      SelectedColumn(rows, e, "most_recent_hgb", hgb);
    }
    assert AsFloat(ColumnMax(Values(rows, "most_recent_a1c"))) == a1c by {
      SelectedColumn(rows, e, "most_recent_a1c", a1c);
    }
    assert ColumnMax(Values(rows, "high_cholesterol_events")) == Some(events as real) by {
      SelectedColumn(rows, e, "high_cholesterol_events", Num(events as real));
    }
    assert Truncate(events as real) == events;
  }

  /** A most-recent value is a cell of the `value` column, or NaN. */
  lemma MostRecentNumeric(s: Table, name: string)
    requires WellFormed(s) && "feature" in s.columns && "value" in s.columns
    requires HasText(Column(s, "feature"), name) ==> "feature_date" in s.columns
    requires forall i | 0 <= i < |s.rows| :: Column(s, "value")[i].Num? || Column(s, "value")[i].Missing?
    ensures MostRecent(s, name).Num? || MostRecent(s, name).Missing?
  {
  }

  /** Reading back test rows yields the blood-pressure means of the tests table. */
  lemma TestsReadBack(t: Table, rows: seq<Row>)
    requires WellFormed(t) && HasFeatureSchema(Tests, t) && Engineered(Tests, t).Ok?
    requires SelectedFrom(rows, Engineered(Tests, t).value)
    ensures HasKeys(rows, TestsKeys)
    ensures AsFloat(ColumnMax(Values(rows, "average_systolic_bp"))) == AverageBloodPressure(t).value.0
    ensures AsFloat(ColumnMax(Values(rows, "average_diastolic_bp"))) == AverageBloodPressure(t).value.1
  {
    var avg := AverageBloodPressure(t).value;
    assert (avg.0.Num? || avg.0.Missing?) && (avg.1.Num? || avg.1.Missing?);
    TestsFeatureColumns(t);
    TestsRowsReadBack(rows, Engineered(Tests, t).value, avg.0, avg.1);
  }

  /** Rows selected from a table whose two blood-pressure columns are constant
      read back as those constants. */
  lemma TestsRowsReadBack(rows: seq<Row>, e: Table, systolic: Cell, diastolic: Cell)
    requires WellFormed(e) && "average_systolic_bp" in e.columns && "average_diastolic_bp" in e.columns
    requires SelectedFrom(rows, e)
    requires (systolic.Num? || systolic.Missing?) && (diastolic.Num? || diastolic.Missing?)
    requires forall i | 0 <= i < |e.rows| ::
      Column(e, "average_systolic_bp")[i] == systolic && Column(e, "average_diastolic_bp")[i] == diastolic
    ensures HasKeys(rows, TestsKeys)
    ensures AsFloat(ColumnMax(Values(rows, "average_systolic_bp"))) == systolic
    ensures AsFloat(ColumnMax(Values(rows, "average_diastolic_bp"))) == diastolic
  {
    forall i, k | 0 <= i < |rows| && k in TestsKeys ensures k in rows[i] {
      assert rows[i] in e.rows;
      assert k == "average_systolic_bp" || k == "average_diastolic_bp";
    }
    assert AsFloat(ColumnMax(Values(rows, "average_systolic_bp"))) == systolic by {
      SelectedColumn(rows, e, "average_systolic_bp", systolic);
    }
    assert AsFloat(ColumnMax(Values(rows, "average_diastolic_bp"))) == diastolic by {
      SelectedColumn(rows, e, "average_diastolic_bp", diastolic);
    }
  }
}
