/** The cleaner object (data_cleaner.py:21-136): a table held in a field and
    changed step by step by duplicate removal, missing-value flagging, date
    standardisation and the per-domain feature columns. The five subclasses
    differ only in their date column and their extra steps, so the domain is
    a tag of the object. */
module Cleaners {
  import opened Cells
  import opened Tables
  import opened Features

  /** Which of the five cleaner subclasses an object is. */
  datatype Domain = Lifestyle | Rx | Conditions | Labs | Tests

  /** The column each domain's `clean` standardises. */
  function DateColumn(d: Domain): string {
    match d
    case Rx => "rx_date"
    case Labs => "feature_date"
    case _ => "report_date"
  }

  /** The columns `clean` reads: the date column, and `rx_norm` for prescriptions. */
  predicate HasCleanSchema(d: Domain, t: Table) {
    DateColumn(d) in t.columns && (d == Rx ==> "rx_norm" in t.columns)
  }

  /** The base class's `clean`: duplicate removal, then missing-value flags. */
  function BaseCleaned(t: Table): (r: Table)
    requires WellFormed(t)
    ensures WellFormed(r) && forall c | c in t.columns :: c in r.columns
  {
    FlagMissing(DedupTable(t))
  }

  /** A domain's `clean`: the base steps, then (prescriptions only) the
      upper-cased `rx_norm`, then the date column standardised. */
  function Cleaned(d: Domain, t: Table): (r: Table)
    requires WellFormed(t) && HasCleanSchema(d, t)
    ensures WellFormed(r) && forall c | c in t.columns :: c in r.columns
  {
    var base := BaseCleaned(t);
    var s := if d == Rx then UpperColumn(base, "rx_norm") else base;
    CoerceDates(s, DateColumn(d))
  }

  /** What a domain's `clean` leaves behind, cell by cell. Rows are those of the
      de-duplicated input. Indicator columns are computed before any coercion.
      The date column holds the coerced dates, `rx_norm` (prescriptions) the
      upper-cased text, and every other original column is untouched. */
  lemma CleanedSpec(d: Domain, t: Table)
    requires WellFormed(t) && HasCleanSchema(d, t) && NoIndicatorClash(t)
    ensures var base, r, dc := DedupTable(t), Cleaned(d, t), DateColumn(d);
      && |r.rows| == |base.rows|
      && (forall c | c in t.columns && HasNull(Column(base, c)) ::
            MissingName(c) in r.columns && Column(r, MissingName(c)) == Indicator(Column(base, c)))
      && (forall c | c in t.columns && !HasNull(Column(base, c)) :: MissingName(c) !in r.columns)
      && Column(r, dc) == MapCells(ToDate, Column(base, dc))
      && (d == Rx ==> Column(r, "rx_norm") == MapCells(UpperText, Column(base, "rx_norm")))
      && (forall c | c in t.columns && c != dc && (d == Rx ==> c != "rx_norm") :: Column(r, c) == Column(base, c))
  {
    var base := DedupTable(t);
    var flagged := BaseCleaned(t);
    var dc := DateColumn(d);
    FlagMissingSpec(base);
    var s := if d == Rx then UpperColumn(flagged, "rx_norm") else flagged;
    if d == Rx {
      UpperColumnSpec(flagged, "rx_norm");
      assert Column(s, "rx_norm") == MapCells(UpperText, Column(flagged, "rx_norm"));
    }
    assert forall c | c in flagged.columns && c != dc && (d == Rx ==> c != "rx_norm") :: Column(s, c) == Column(flagged, c);
    CoerceDatesSpec(s, dc);
    var r := Cleaned(d, t);
    assert r == CoerceDates(s, dc);
    forall c | c in t.columns && HasNull(Column(base, c))
      ensures MissingName(c) in r.columns && Column(r, MissingName(c)) == Indicator(Column(base, c))
    {
      assert MissingName(c) != dc && MissingName(c) != "rx_norm";
    }
    assert Column(r, dc) == MapCells(ToDate, Column(s, dc));
    if d == Rx {
      assert Column(r, "rx_norm") == Column(s, "rx_norm");
    }
  }

  /** A date that is present but malformed is invalid after `clean`, yet its row
      is not flagged as missing: flags are computed before date coercion. */
  lemma MalformedDateNotFlagged(d: Domain, t: Table, i: nat)
    requires WellFormed(t) && HasCleanSchema(d, t) && NoIndicatorClash(t)
    requires i < |DedupTable(t).rows|
    requires var cell := Column(DedupTable(t), DateColumn(d))[i]; !IsNull(cell) && DateUnparseable(cell)
    ensures var r := Cleaned(d, t);
      && Column(r, DateColumn(d))[i] == InvalidDate
      && (MissingName(DateColumn(d)) in r.columns ==> Column(r, MissingName(DateColumn(d)))[i] == Num(0.0))
  {
    CleanedSpec(d, t);
  }

  /** A missing `rx_norm` is flagged, and then becomes the text "NAN". */
  lemma MissingRxNormBecomesText(t: Table, i: nat)
    requires WellFormed(t) && HasCleanSchema(Rx, t) && NoIndicatorClash(t)
    requires i < |DedupTable(t).rows| && Column(DedupTable(t), "rx_norm")[i] == Missing
    ensures var r := Cleaned(Rx, t);
      && Column(r, "rx_norm")[i] == Str("NAN")
      && MissingName("rx_norm") in r.columns
      && Column(r, MissingName("rx_norm"))[i] == Num(1.0)
  {
    CleanedSpec(Rx, t);
    var base := Column(DedupTable(t), "rx_norm");
    assert HasNull(base);
    MissingUpperText();
    assert MapCells(UpperText, base)[i] == UpperText(Missing);
  }

  /** A missing cell reads as "nan", which upper-cases to "NAN". */
  lemma MissingUpperText()
    ensures UpperText(Missing) == Str("NAN")
  {
    var u := Upper("nan");
    assert u[0] == 'N' && u[1] == 'A' && u[2] == 'N';
    assert u == "NAN";
  }

  // ---------------------------------------------------------------------------
  // feature_engineer (data_cleaner.py:105-106, 122-126, 133-136)
  // ---------------------------------------------------------------------------

  /** The columns a domain's `feature_engineer` reads. */
  predicate HasFeatureSchema(d: Domain, t: Table)
    requires WellFormed(t)
  {
    match d
    case Rx => "rx_name" in t.columns
    case Labs =>
      && "feature" in t.columns && "value" in t.columns
      && ((HasText(Column(t, "feature"), Hemoglobin) || HasText(Column(t, "feature"), A1c)) ==>
            "feature_date" in t.columns)
    case Tests =>
      "feature" in t.columns && (HasText(Column(t, "feature"), BloodPressure) ==> "value" in t.columns)
    case _ => true
  }

  /** The lab table with its `value` column made numeric; unparseable values
      become NaN and the columns the lab features read are still there. */
  function CoercedLabs(t: Table): (s: Table)
    requires WellFormed(t) && HasFeatureSchema(Labs, t)
    ensures WellFormed(s) && HasFeatureSchema(Labs, s)
    ensures "feature" in s.columns && "value" in s.columns
    ensures HasText(Column(s, "feature"), Hemoglobin) ==> "feature_date" in s.columns
    ensures HasText(Column(s, "feature"), A1c) ==> "feature_date" in s.columns
    ensures s.columns == t.columns && |s.rows| == |t.rows|
    ensures Column(s, "value") == MapCells(ToNumber, Column(t, "value"))
    ensures forall i | 0 <= i < |s.rows| :: Column(s, "value")[i].Num? || Column(s, "value")[i].Missing?
    ensures forall c | c in t.columns && c != "value" :: Column(s, c) == Column(t, c)
  {
    var s := CoerceNumbers(t, "value");
    assert Column(s, "feature") == Column(t, "feature");
    s
  }

  /** The lab table after its `value` column is made numeric, then the three
      lab features written as constant columns. */
  function LabsEngineered(t: Table): (r: Table)
    requires WellFormed(t) && HasFeatureSchema(Labs, t)
    ensures WellFormed(r) && |r.rows| == |t.rows| && "value" in r.columns && LabsKeysIn(r)
  {
    var s := CoercedLabs(t);
    var s1 := SetScalar(s, "most_recent_hgb", MostRecentHgb(s));
    var s2 := SetScalar(s1, "most_recent_a1c", MostRecentA1c(s1));
    SetScalar(s2, "high_cholesterol_events", Num(HighCholesterolEvents(s2) as real))
  }

  /** A domain's `feature_engineer`: `Err` where the blood-pressure average raises. */
  function Engineered(d: Domain, t: Table): (r: Result<Table>)
    requires WellFormed(t) && HasFeatureSchema(d, t)
    ensures r.Ok? ==> WellFormed(r.value)
  {
    match d
    case Rx => Ok(SetScalar(t, "taking_alpha_blockers", Bool(IsTakingAlphaBlockers(t))))
    case Labs => Ok(LabsEngineered(t))
    case Tests =>
      (match AverageBloodPressure(t)
       case Ok((systolic, diastolic)) =>
         Ok(SetScalar(SetScalar(t, "average_systolic_bp", systolic), "average_diastolic_bp", diastolic))
       case Err(e) => Err(e))
    case _ => Ok(t)
  }

  /** Only the blood-pressure average can fail; otherwise the row count is
      kept, no column is lost, and every original column other than the lab
      `value` column and the feature columns is unchanged. */
  lemma EngineeredSpec(d: Domain, t: Table)
    requires WellFormed(t) && HasFeatureSchema(d, t)
    ensures var r := Engineered(d, t);
      && (r.Err? <==> d == Tests && AverageBloodPressure(t).Err?)
      && (r.Ok? ==> |r.value.rows| == |t.rows| && forall c | c in t.columns :: c in r.value.columns)
      && (r.Ok? ==> forall c | c in t.columns && (d == Labs ==> c != "value") && c !in FeatureColumns(d) ::
            Column(r.value, c) == Column(t, c))
  {
    match d
    case Labs => LabsEngineeredFrame(t);
    case Tests =>
      if AverageBloodPressure(t).Ok? {
        var (systolic, diastolic) := AverageBloodPressure(t).value;
        var r := SetScalar(SetScalar(t, "average_systolic_bp", systolic), "average_diastolic_bp", diastolic);
        assert Engineered(d, t) == Ok(r);
      }
    case _ =>
  }

  /** The lab feature pass keeps the rows and every column but `value` and
      the three feature columns. */
  lemma LabsEngineeredFrame(t: Table)
    requires WellFormed(t) && HasFeatureSchema(Labs, t)
    ensures var r := LabsEngineered(t);
      && |r.rows| == |t.rows| && (forall c | c in t.columns :: c in r.columns)
      && forall c | c in t.columns && c != "value" && c !in FeatureColumns(Labs) :: Column(r, c) == Column(t, c)
  {
    var s := CoercedLabs(t);
    var s1 := SetScalar(s, "most_recent_hgb", MostRecentHgb(s));
    var s2 := SetScalar(s1, "most_recent_a1c", MostRecentA1c(s1));
    var r := SetScalar(s2, "high_cholesterol_events", Num(HighCholesterolEvents(s2) as real));
    assert LabsEngineered(t) == r;
    forall c | c in t.columns && c != "value" && c !in FeatureColumns(Labs) ensures Column(r, c) == Column(t, c) {
      assert Column(s, c) == Column(t, c);
      assert Column(s1, c) == Column(s, c);
      assert Column(s2, c) == Column(s1, c);
    }
  }

  /** The prescription feature column holds, on every row, the alpha-blocker
      flag of the whole table. */
  lemma RxFeatureColumn(t: Table)
    requires WellFormed(t) && HasFeatureSchema(Rx, t)
    ensures var r := Engineered(Rx, t).value;
      forall i | 0 <= i < |t.rows| :: Column(r, "taking_alpha_blockers")[i] == Bool(IsTakingAlphaBlockers(t))
  {
  }

  /** The lab `value` column is coerced to numbers, and the three lab feature
      columns hold, on every row, the features of the coerced table. */
  lemma LabsFeatureColumns(t: Table)
    requires WellFormed(t) && HasFeatureSchema(Labs, t)
    ensures var r, s := LabsEngineered(t), CoercedLabs(t);
      var hgb, a1c, events := MostRecentHgb(s), MostRecentA1c(s), HighCholesterolEvents(s);
      && Column(r, "value") == MapCells(ToNumber, Column(t, "value"))
      && forall i | 0 <= i < |t.rows| ::
           && Column(r, "most_recent_hgb")[i] == hgb
           && Column(r, "most_recent_a1c")[i] == a1c
           && Column(r, "high_cholesterol_events")[i] == Num(events as real)
  {
    var s := CoercedLabs(t);
    var hgb := MostRecentHgb(s);
    var s1 := SetScalar(s, "most_recent_hgb", hgb);
    LabFeaturesSurviveScalar(s, "most_recent_hgb", hgb);
    var a1c := MostRecentA1c(s1);
    var s2 := SetScalar(s1, "most_recent_a1c", a1c);
    LabFeaturesSurviveScalar(s1, "most_recent_a1c", a1c);
    var events := Num(HighCholesterolEvents(s2) as real);
    var r := SetScalar(s2, "high_cholesterol_events", events);
    ScalarSurvivesScalar(s1, "most_recent_hgb", hgb, "most_recent_a1c", a1c);
    ScalarSurvivesScalar(s2, "most_recent_hgb", hgb, "high_cholesterol_events", events);
    ScalarSurvivesScalar(s2, "most_recent_a1c", a1c, "high_cholesterol_events", events);
    assert Column(r, "value") == Column(s, "value") by {
      assert Column(s2, "value") == Column(s, "value");
    }
  }

  /** Writing a constant column other than the ones the lab features read
      leaves those features, and the `value` column, as they were. */
  lemma LabFeaturesSurviveScalar(s: Table, name: string, v: Cell)
    requires WellFormed(s) && HasFeatureSchema(Labs, s)
    requires name != "feature" && name != "value" && name != "feature_date"
    ensures var s' := SetScalar(s, name, v);
      && HasFeatureSchema(Labs, s')
      && Column(s', "value") == Column(s, "value")
      && MostRecentHgb(s') == MostRecentHgb(s)
      && MostRecentA1c(s') == MostRecentA1c(s)
      && HighCholesterolEvents(s') == HighCholesterolEvents(s)
  {
    var s' := SetScalar(s, name, v);
    assert Column(s', "feature") == Column(s, "feature");
    assert Column(s', "value") == Column(s, "value");
    if "feature_date" in s.columns {
      assert Column(s', "feature_date") == Column(s, "feature_date");
    }
  }

  /** A constant column survives the writing of another constant column. */
  lemma ScalarSurvivesScalar(s: Table, a: string, v: Cell, b: string, w: Cell)
    requires WellFormed(s) && a in s.columns && a != b
    requires forall i | 0 <= i < |s.rows| :: Column(s, a)[i] == v
    ensures var s' := SetScalar(s, b, w);
      a in s'.columns && forall i | 0 <= i < |s'.rows| :: Column(s', a)[i] == v
  {
  }

  predicate LabsKeysIn(r: Table) {
    "most_recent_hgb" in r.columns && "most_recent_a1c" in r.columns && "high_cholesterol_events" in r.columns
  }

  /** The two blood-pressure columns hold, on every row, the means of the
      whole table. */
  lemma TestsFeatureColumns(t: Table)
    requires WellFormed(t) && HasFeatureSchema(Tests, t) && Engineered(Tests, t).Ok?
    ensures var r, avg := Engineered(Tests, t).value, AverageBloodPressure(t).value;
      && "average_systolic_bp" in r.columns && "average_diastolic_bp" in r.columns
      && forall i | 0 <= i < |t.rows| ::
        Column(r, "average_systolic_bp")[i] == avg.0 && Column(r, "average_diastolic_bp")[i] == avg.1
  {
  }

  /** The columns a domain's `feature_engineer` writes. */
  function FeatureColumns(d: Domain): set<string> {
    match d
    case Rx => {"taking_alpha_blockers"}
    case Labs => {"most_recent_hgb", "most_recent_a1c", "high_cholesterol_events"}
    case Tests => {"average_systolic_bp", "average_diastolic_bp"}
    case _ => {}
  }

  // ---------------------------------------------------------------------------
  // The cleaner object
  // ---------------------------------------------------------------------------

  class DataCleaner {
    const domain: Domain
    var data: Table

    ghost predicate Valid()
      reads this
    {
      WellFormed(data)
    }

    /** The loaded table becomes the object's data. */
    constructor (domain: Domain, loaded: Table)
      requires WellFormed(loaded)
      ensures this.domain == domain && data == loaded && Valid()
    {
      this.domain := domain;
      data := loaded;
    }

    /** Drops exact duplicate rows and reports how many went. */
    method RemoveDuplicates() returns (removed: nat)
      requires Valid()
      modifies this
      ensures Valid() && data == DedupTable(old(data))
      ensures removed == |old(data).rows| - |data.rows|
    {
      var originalLen := |data.rows|;
      data := DedupTable(data);
      removed := originalLen - |data.rows|;
    }

    /** Adds a `<column>_missing` indicator for each column that has a null,
        visiting the columns the table had when the pass started. */
    method HandleMissingValues()
      requires Valid()
      modifies this
      ensures Valid() && data == FlagMissing(old(data))
    {
      var columns := data.columns;
      for i := 0 to |columns|
        invariant WellFormed(data)
        invariant forall c | c in columns[i..] :: c in data.columns
        invariant FlagColumns(data, columns[i..]) == FlagMissing(old(data))
      {
        var column := columns[i];
        FlagColumnsFirst(data, columns, i);
        ghost var before := data;
        var cells := Column(data, column);
        if HasNull(cells) {
          data := SetColumn(data, MissingName(column), Indicator(cells));
        }
        assert data == FlagColumn(before, column);
      }
      assert columns[|columns|..] == [];
    }

    /** Coerces one column to dates and reports the null count afterwards:
        exactly the cells that did not parse, never an error. */
    method StandardizeDates(dateColumn: string) returns (invalid: nat)
      requires Valid() && dateColumn in data.columns
      modifies this
      ensures Valid() && data == CoerceDates(old(data), dateColumn)
      ensures invalid == Count(Column(data, dateColumn), IsNull)
      ensures invalid == Count(Column(old(data), dateColumn), DateUnparseable)
    {
      CoerceDatesSpec(data, dateColumn);
      data := CoerceDates(data, dateColumn);
      invalid := Count(Column(data, dateColumn), IsNull);
    }

    /** The base class's `clean`. */
    method BaseClean()
      requires Valid()
      modifies this
      ensures Valid() && data == BaseCleaned(old(data))
    {
      var _ := RemoveDuplicates();
      HandleMissingValues();
    }

    /** The subclass's `clean`: the base steps, the upper-cased `rx_norm` for
        prescriptions, then the domain's date column. */
    method Clean()
      requires Valid() && HasCleanSchema(domain, data)
      modifies this
      ensures Valid() && data == Cleaned(domain, old(data))
    {
      BaseClean();
      if domain == Rx {
        data := UpperColumn(data, "rx_norm");
      }
      var _ := StandardizeDates(DateColumn(domain));
    }

    /** The subclass's `feature_engineer`. When the blood-pressure average
        raises, `ok` is false and the data is as it was. */
    method FeatureEngineer() returns (ok: bool)
      requires Valid() && HasFeatureSchema(domain, data)
      modifies this
      ensures Valid()
      ensures ok <==> Engineered(domain, old(data)).Ok?
      ensures ok ==> data == Engineered(domain, old(data)).value
      ensures !ok ==> data == old(data)
    {
      ok := true;
      match domain
      case Rx =>
        data := SetScalar(data, "taking_alpha_blockers", Bool(IsTakingAlphaBlockers(data)));
      case Labs =>
        data := CoercedLabs(data);
        data := SetScalar(data, "most_recent_hgb", MostRecentHgb(data));
        data := SetScalar(data, "most_recent_a1c", MostRecentA1c(data));
        data := SetScalar(data, "high_cholesterol_events", Num(HighCholesterolEvents(data) as real));
      case Tests =>
        var average := AverageBloodPressure(data);
        if average.Err? {
          ok := false;
        } else {
          var (systolic, diastolic) := average.value;
          data := SetScalar(data, "average_systolic_bp", systolic);
          data := SetScalar(data, "average_diastolic_bp", diastolic);
        }
      case _ =>
    }
  }
}
