/** The feature functions (data_cleaner.py:63-95): pure computations over one
    cleaned domain table, each yielding one value. Empty inputs give `false`
    for the alpha-blocker flag, 0 for the counts and NaN (`Missing`) for the
    most-recent lab values and the blood-pressure means. */
module Features {
  import opened Cells
  import opened Tables

  /** Some cell of `cells` is the text `name`. */
  predicate HasText(cells: seq<Cell>, name: string) {
    exists i | 0 <= i < |cells| :: cells[i] == Str(name)
  }

  // ---------------------------------------------------------------------------
  // is_taking_alpha_blockers (data_cleaner.py:63-65)
  // ---------------------------------------------------------------------------

  const AlphaBlockers: seq<string> := ["FLOMAX"]

  /** Membership test of each cell against the alpha-blocker names, or-ed. */
  function AnyAlphaBlocker(names: seq<Cell>): (r: bool)
    ensures r <==> exists i | 0 <= i < |names| :: names[i].Str? && names[i].s in AlphaBlockers
  {
    if names == [] then false
    else
      var m := |names| - 1;
      assert forall i | 0 <= i < m :: names[..m][i] == names[i];
      AnyAlphaBlocker(names[..m]) || (names[m].Str? && names[m].s in AlphaBlockers)
  }

  /** True exactly when some row's `rx_name` is the text "FLOMAX", compared
      exactly (the upper-cased `rx_norm` column is not consulted). */
  function IsTakingAlphaBlockers(t: Table): (r: bool)
    requires WellFormed(t) && "rx_name" in t.columns
    ensures r <==> HasText(Column(t, "rx_name"), "FLOMAX")
    ensures |t.rows| == 0 ==> !r
  {
    AnyAlphaBlocker(Column(t, "rx_name"))
  }

  // ---------------------------------------------------------------------------
  // get_most_recent_hgb / get_most_recent_a1c (data_cleaner.py:67-71, 91-95)
  // ---------------------------------------------------------------------------

  /** Sort key of a date cell; NaT and anything not a date sort below every date.
      This is the order of a coerced date column: the labs cleaner coerces
      `feature_date` before features are engineered. A column still holding text
      would sort as text, which this key does not model. */
  function DateKey(c: Cell): Option<Day> {
    if c.Date? then Some(c.date) else None
  }

  predicate KeyNotAfter(a: Option<Day>, b: Option<Day>) {
    a.None? || (b.Some? && NotAfter(a.value, b.value))
  }

  /** Among the first `n` rows whose feature is `name`, one with the greatest date key. */
  function LatestMatch(features: seq<Cell>, dates: seq<Cell>, name: string, n: nat): (k: Option<nat>)
    requires n <= |features| && |dates| == |features|
    ensures k.None? <==> forall j | 0 <= j < n :: features[j] != Str(name)
    ensures k.Some? ==> k.value < n && features[k.value] == Str(name)
    ensures k.Some? ==> forall j | 0 <= j < n && features[j] == Str(name) ::
                          KeyNotAfter(DateKey(dates[j]), DateKey(dates[k.value]))
  {
    if n == 0 then None
    else
      var prev := LatestMatch(features, dates, name, n - 1);
      if features[n - 1] != Str(name) then prev
      else if prev.None? || KeyNotAfter(DateKey(dates[prev.value]), DateKey(dates[n - 1])) then Some(n - 1)
      else prev
  }

  /** The `value` of a row whose `feature` is `name` and whose `feature_date`
      is not before that of any other such row (a descending sort puts NaT
      last); NaN (`Missing`) when no row has that feature. */
  function MostRecent(t: Table, name: string): (v: Cell)
    requires WellFormed(t) && "feature" in t.columns
    requires HasText(Column(t, "feature"), name) ==> "feature_date" in t.columns && "value" in t.columns
    ensures !HasText(Column(t, "feature"), name) ==> v == Missing
    ensures HasText(Column(t, "feature"), name) ==>
      exists i | 0 <= i < |t.rows| ::
        && Column(t, "feature")[i] == Str(name)
        && v == Column(t, "value")[i]
        && forall j | 0 <= j < |t.rows| && Column(t, "feature")[j] == Str(name) ::
             KeyNotAfter(DateKey(Column(t, "feature_date")[j]), DateKey(Column(t, "feature_date")[i]))
  {
    var features := Column(t, "feature");
    if !HasText(features, name) then Missing
    else
      var k := LatestMatch(features, Column(t, "feature_date"), name, |features|);
      Column(t, "value")[k.value]
  }

  const Hemoglobin := "Hemoglobin (HGB)"
  const A1c := "A1c"

  /** The `value` of a latest-dated haemoglobin row, NaN without one. */
  function MostRecentHgb(t: Table): (v: Cell)
    requires WellFormed(t) && "feature" in t.columns
    requires HasText(Column(t, "feature"), Hemoglobin) ==> "feature_date" in t.columns && "value" in t.columns
    ensures !HasText(Column(t, "feature"), Hemoglobin) ==> v == Missing
    ensures HasText(Column(t, "feature"), Hemoglobin) ==>
      exists i | 0 <= i < |t.rows| ::
        && Column(t, "feature")[i] == Str(Hemoglobin)
        && v == Column(t, "value")[i]
        && forall j | 0 <= j < |t.rows| && Column(t, "feature")[j] == Str(Hemoglobin) ::
             KeyNotAfter(DateKey(Column(t, "feature_date")[j]), DateKey(Column(t, "feature_date")[i]))
  {
    MostRecent(t, Hemoglobin)
  }

  /** The `value` of a latest-dated A1c row, NaN without one. */
  function MostRecentA1c(t: Table): (v: Cell)
    requires WellFormed(t) && "feature" in t.columns
    requires HasText(Column(t, "feature"), A1c) ==> "feature_date" in t.columns && "value" in t.columns
    ensures !HasText(Column(t, "feature"), A1c) ==> v == Missing
    ensures HasText(Column(t, "feature"), A1c) ==>
      exists i | 0 <= i < |t.rows| ::
        && Column(t, "feature")[i] == Str(A1c)
        && v == Column(t, "value")[i]
        && forall j | 0 <= j < |t.rows| && Column(t, "feature")[j] == Str(A1c) ::
             KeyNotAfter(DateKey(Column(t, "feature_date")[j]), DateKey(Column(t, "feature_date")[i]))
  {
    MostRecent(t, A1c)
  }

  /** A row with an invalid or missing date is chosen only when every matching
      row's date is invalid or missing. */
  lemma MostRecentPrefersValidDates(t: Table, name: string, j: nat)
    requires WellFormed(t) && "feature" in t.columns && "feature_date" in t.columns && "value" in t.columns
    requires j < |t.rows| && Column(t, "feature")[j] == Str(name) && Column(t, "feature_date")[j].Date?
    ensures exists i | 0 <= i < |t.rows| ::
      && Column(t, "feature")[i] == Str(name)
      && Column(t, "feature_date")[i].Date?
      && MostRecent(t, name) == Column(t, "value")[i]
  {
    assert HasText(Column(t, "feature"), name);
    var v := MostRecent(t, name);
    var i :| 0 <= i < |t.rows| && Column(t, "feature")[i] == Str(name) && v == Column(t, "value")[i]
      && forall j | 0 <= j < |t.rows| && Column(t, "feature")[j] == Str(name) ::
           KeyNotAfter(DateKey(Column(t, "feature_date")[j]), DateKey(Column(t, "feature_date")[i]));
    assert KeyNotAfter(DateKey(Column(t, "feature_date")[j]), DateKey(Column(t, "feature_date")[i]));
  }

  // ---------------------------------------------------------------------------
  // get_high_cholesterol_events (data_cleaner.py:87-89)
  // ---------------------------------------------------------------------------

  const Ldl := "LDL"
  const CholesterolThreshold := 130

  /** An LDL row whose (coerced) value is a number above the threshold. */
  predicate IsHighLdl(feature: Cell, value: Cell) {
    feature == Str(Ldl) && value.Num? && value.x > CholesterolThreshold as real
  }

  function CountHighLdl(features: seq<Cell>, values: seq<Cell>): (n: nat)
    requires |features| == |values|
    ensures n == |set i | 0 <= i < |features| && IsHighLdl(features[i], values[i])|
  {
    if features == [] then 0
    else
      var m := |features| - 1;
      HighLdlLastRow(features, values);
      CountHighLdl(features[..m], values[..m]) + (if IsHighLdl(features[m], values[m]) then 1 else 0)
  }

  /** The high-LDL rows of a column pair are those of all rows but the last,
      plus the last row when it is one. */
  lemma HighLdlLastRow(features: seq<Cell>, values: seq<Cell>)
    requires |features| == |values| > 0
    ensures var m := |features| - 1;
      |set i | 0 <= i < |features| && IsHighLdl(features[i], values[i])|
      == |set i | 0 <= i < m && IsHighLdl(features[..m][i], values[..m][i])|
         + (if IsHighLdl(features[m], values[m]) then 1 else 0)
  {
    var m := |features| - 1;
    var before := set i | 0 <= i < m && IsHighLdl(features[i], values[i]);
    assert (set i | 0 <= i < m && IsHighLdl(features[..m][i], values[..m][i])) == before;
    var all := set i | 0 <= i < |features| && IsHighLdl(features[i], values[i]);
    assert all == if IsHighLdl(features[m], values[m]) then before + {m} else before;
  }

  /** The number of rows whose feature is "LDL" and whose value is a number
      strictly above 130. */
  function HighCholesterolEvents(t: Table): (n: nat)
    requires WellFormed(t) && "feature" in t.columns && "value" in t.columns
    ensures n == |set i | 0 <= i < |t.rows| && IsHighLdl(Column(t, "feature")[i], Column(t, "value")[i])|
  {
    CountHighLdl(Column(t, "feature"), Column(t, "value"))
  }

  /** The count never exceeds the number of LDL rows and is 0 without LDL rows;
      a row whose value is not a number is never counted. */
  lemma HighCholesterolBounds(t: Table)
    requires WellFormed(t) && "feature" in t.columns && "value" in t.columns
    ensures HighCholesterolEvents(t) <= |set i | 0 <= i < |t.rows| && Column(t, "feature")[i] == Str(Ldl)|
    ensures !HasText(Column(t, "feature"), Ldl) ==> HighCholesterolEvents(t) == 0
    ensures (forall i | 0 <= i < |t.rows| :: !Column(t, "value")[i].Num?) ==> HighCholesterolEvents(t) == 0
  {
    var high := set i | 0 <= i < |t.rows| && IsHighLdl(Column(t, "feature")[i], Column(t, "value")[i]);
    var ldl := set i | 0 <= i < |t.rows| && Column(t, "feature")[i] == Str(Ldl);
    assert high <= ldl;
    SubsetCardinality(high, ldl);
    if !HasText(Column(t, "feature"), Ldl) {
      assert ldl == {};
    }
    if forall i | 0 <= i < |t.rows| :: !Column(t, "value")[i].Num? {
      assert high == {};
    }
  }

  lemma {:induction false} SubsetCardinality<T>(a: set<T>, b: set<T>)
    requires a <= b
    ensures |a| <= |b|
    decreases |b|
  {
    if a != {} {
      var x :| x in a;
      SubsetCardinality(a - {x}, b - {x});
    }
  }

  // ---------------------------------------------------------------------------
  // get_average_blood_pressure (data_cleaner.py:78-85)
  // ---------------------------------------------------------------------------

  /** Python's `s.split(sep)`: the pieces between separators, at least one. */
  function Split(s: string, sep: char): (parts: seq<string>)
    ensures |parts| >= 1
    ensures forall k | 0 <= k < |parts| :: sep !in parts[k]
  {
    if |s| == 0 then [""]
    else
      var rest := Split(s[1..], sep);
      if s[0] == sep then [""] + rest else [[s[0]] + rest[0]] + rest[1..]
  }

  /** The pieces joined back with the separator between them. */
  function Join(parts: seq<string>, sep: char): string
    requires |parts| >= 1
  {
    if |parts| == 1 then parts[0] else parts[0] + [sep] + Join(parts[1..], sep)
  }

  lemma {:induction false} JoinSplit(s: string, sep: char)
    ensures Join(Split(s, sep), sep) == s
  {
    if |s| > 0 {
      var rest := Split(s[1..], sep);
      JoinSplit(s[1..], sep);
      if s[0] == sep {
        assert ([""] + rest)[1..] == rest;
      } else {
        var parts := [[s[0]] + rest[0]] + rest[1..];
        if |rest| > 1 {
          assert parts[1..] == rest[1..];
          assert Join(rest, sep) == rest[0] + [sep] + Join(rest[1..], sep);
        }
        assert s == [s[0]] + s[1..];
      }
    }
  }

  lemma {:induction false} SplitPrefix(p: string, rest: string, sep: char)
    requires sep !in p
    ensures Split(p + rest, sep) == [p + Split(rest, sep)[0]] + Split(rest, sep)[1..]
  {
    var r := Split(rest, sep);
    if |p| > 0 {
      assert p[0] in p;
      assert (p + rest)[0] == p[0] && (p + rest)[1..] == p[1..] + rest;
      assert forall c | c in p[1..] :: c in p;
      SplitPrefix(p[1..], rest, sep);
      assert [p[0]] + (p[1..] + r[0]) == p + r[0];
    } else {
      assert p + rest == rest && p + r[0] == r[0];
      assert r == [r[0]] + r[1..];
    }
  }

  lemma SplitSeparatorFirst(tail: string, sep: char)
    ensures Split([sep] + tail, sep) == [""] + Split(tail, sep)
  {
    assert ([sep] + tail)[1..] == tail;
  }

  lemma {:induction false} SplitJoin(parts: seq<string>, sep: char)
    requires |parts| >= 1 && forall k | 0 <= k < |parts| :: sep !in parts[k]
    ensures Split(Join(parts, sep), sep) == parts
  {
    if |parts| == 1 {
      SplitPrefix(parts[0], "", sep);
      assert parts[0] + "" == parts[0];
      assert Split("", sep) == [""];
      assert parts == [parts[0]];
    } else {
      var tail := Join(parts[1..], sep);
      SplitJoin(parts[1..], sep);
      assert parts[0] + [sep] + tail == parts[0] + ([sep] + tail);
      SplitPrefix(parts[0], [sep] + tail, sep);
      SplitSeparatorFirst(tail, sep);
      assert parts[0] + "" == parts[0];
      assert parts == [parts[0]] + parts[1..];
    }
  }

  const BloodPressure := "Blood pressure"

  /** The indices of the rows whose feature is "Blood pressure", in increasing order. */
  function BpRows(features: seq<Cell>): (idx: seq<nat>)
    ensures forall k | 0 <= k < |idx| :: idx[k] < |features| && features[idx[k]] == Str(BloodPressure)
    ensures forall k, l | 0 <= k < l < |idx| :: idx[k] < idx[l]
    ensures forall i | 0 <= i < |features| && features[i] == Str(BloodPressure) :: i in idx
  {
    if features == [] then []
    else
      var m := |features| - 1;
      assert forall i | 0 <= i < m :: features[..m][i] == features[i];
      BpRows(features[..m]) + (if features[m] == Str(BloodPressure) then [m] else [])
  }

  /** The `value` cells of the rows whose feature is "Blood pressure", in order:
      the `k`-th of them is the value of the `k`-th blood-pressure row. */
  function BpValues(features: seq<Cell>, values: seq<Cell>): (vs: seq<Cell>)
    requires |features| == |values|
    ensures |vs| == |BpRows(features)| <= |values|
    ensures forall k | 0 <= k < |vs| :: vs[k] == values[BpRows(features)[k]]
    ensures |vs| == 0 <==> !HasText(features, BloodPressure)
  {
    if features == [] then []
    else
      var m := |features| - 1;
      assert forall i | 0 <= i < m :: features[..m][i] == features[i];
      assert forall i | 0 <= i < m :: values[..m][i] == values[i];
      BpValues(features[..m], values[..m]) + (if features[m] == Str(BloodPressure) then [values[m]] else [])
  }

  /** Every piece converted to a number; `None` when some piece is not one. */
  function ParseAll(parts: seq<string>): (r: Option<seq<int>>)
    ensures r.Some? <==> forall k | 0 <= k < |parts| :: ParseInt(parts[k]).Some?
    ensures r.Some? ==> (|r.value| == |parts| &&
      forall k | 0 <= k < |parts| :: r.value[k] == ParseInt(parts[k]).value)
  {
    if parts == [] then Some([])
    else
      var m := |parts| - 1;
      assert forall k | 0 <= k < m :: parts[..m][k] == parts[k];
      var init := ParseAll(parts[..m]);
      var last := ParseInt(parts[m]);
      if init.Some? && last.Some? then
        var nums := init.value + [last.value];
        assert forall k | 0 <= k < m :: nums[k] == init.value[k];
        Some(nums)
      else None
  }

  /** One reading split at '/' and converted: the row of the split frame. A
      cell that is not text (NaN) gives an empty row. */
  function ParseReading(c: Cell): Option<seq<int>> {
    if c.Str? then ParseAll(Split(c.s, '/')) else Some([])
  }

  /** All readings converted; `None` when any of them fails to convert. */
  function ParseReadings(vs: seq<Cell>): (r: Option<seq<seq<int>>>)
    ensures r.Some? <==> forall i | 0 <= i < |vs| :: ParseReading(vs[i]).Some?
    ensures r.Some? ==> (|r.value| == |vs| &&
      forall i | 0 <= i < |vs| :: r.value[i] == ParseReading(vs[i]).value)
  {
    if vs == [] then Some([])
    else
      var m := |vs| - 1;
      assert forall i | 0 <= i < m :: vs[..m][i] == vs[i];
      var init := ParseReadings(vs[..m]);
      var last := ParseReading(vs[m]);
      if init.Some? && last.Some? then
        var rows := init.value + [last.value];
        assert forall i | 0 <= i < m :: rows[i] == init.value[i];
        Some(rows)
      else None
  }

  /** Column `k` of the split frame with its NaN entries dropped: the `k`-th
      numbers of the rows that have one, in order. */
  function Pieces(rows: seq<seq<int>>, k: nat): (xs: seq<int>)
    ensures |xs| <= |rows|
    ensures xs == [] <==> forall i | 0 <= i < |rows| :: |rows[i]| <= k
  {
    if rows == [] then []
    else
      var m := |rows| - 1;
      assert forall i | 0 <= i < m :: rows[..m][i] == rows[i];
      Pieces(rows[..m], k) + (if k < |rows[m]| then [rows[m][k]] else [])
  }

  function Sum(xs: seq<int>): int {
    if xs == [] then 0 else Sum(xs[..|xs| - 1]) + xs[|xs| - 1]
  }

  /** Mean skipping NaN: NaN when there is nothing to average. */
  function Mean(xs: seq<int>): (r: Cell)
    ensures r.Missing? <==> xs == []
  {
    if xs == [] then Missing else Num(Sum(xs) as real / |xs| as real)
  }

  /** Means of the systolic and diastolic numbers of non-empty blood-pressure
      readings. The split-and-convert step raises (`Err`) when a piece is not a
      number, or when no reading has a second piece (the split frame has no
      second column to take). */
  function ReadingsAverage(vs: seq<Cell>): (r: Result<(Cell, Cell)>)
    requires |vs| > 0
    ensures r.Err? <==> (exists i | 0 <= i < |vs| :: ParseReading(vs[i]).None?)
                        || forall i | 0 <= i < |vs| :: |ParseReading(vs[i]).value| < 2
    ensures r.Ok? ==> r.value.0.Num? && r.value.1.Num?
  {
    match ParseReadings(vs)
    case None => Err("could not convert string to float")
    case Some(rows) =>
      if Pieces(rows, 1) == [] then Err("no second piece in any reading")
      else
        assert Pieces(rows, 0) != [];
        Ok((Mean(Pieces(rows, 0)), Mean(Pieces(rows, 1))))
  }

  /** The blood-pressure means of a table: NaN for both without a blood-pressure
      row, otherwise the means of the blood-pressure rows' readings, which are
      numbers when they do not raise (when they raise: `BloodPressureErrors`;
      their values: `BloodPressureTableAverage`). */
  function AverageBloodPressure(t: Table): (r: Result<(Cell, Cell)>)
    requires WellFormed(t) && "feature" in t.columns
    requires HasText(Column(t, "feature"), BloodPressure) ==> "value" in t.columns
    ensures !HasText(Column(t, "feature"), BloodPressure) ==> r == Ok((Missing, Missing))
    ensures HasText(Column(t, "feature"), BloodPressure) && r.Ok? ==> r.value.0.Num? && r.value.1.Num?
  {
    var features := Column(t, "feature");
    if !HasText(features, BloodPressure) then Ok((Missing, Missing))
    else ReadingsAverage(BpValues(features, Column(t, "value")))
  }

  /** With blood-pressure rows, the means raise exactly when some of those rows'
      readings has a piece that is not a number, or none of them has a second
      piece. */
  lemma BloodPressureErrors(t: Table)
    requires WellFormed(t) && "feature" in t.columns && "value" in t.columns
    requires HasText(Column(t, "feature"), BloodPressure)
    ensures var idx, values := BpRows(Column(t, "feature")), Column(t, "value");
      AverageBloodPressure(t).Err? <==>
        (exists k | 0 <= k < |idx| :: ParseReading(values[idx[k]]).None?)
        || forall k | 0 <= k < |idx| :: |ParseReading(values[idx[k]]).value| < 2
  {
    var features, values := Column(t, "feature"), Column(t, "value");
    var vs := BpValues(features, values);
    assert AverageBloodPressure(t) == ReadingsAverage(vs);
    ReadingsAverageOfSelection(vs, values, BpRows(features));
  }

  /** The failure condition of `ReadingsAverage`, for readings picked out of a
      column by an index sequence. */
  lemma ReadingsAverageOfSelection(vs: seq<Cell>, values: seq<Cell>, idx: seq<nat>)
    requires |vs| == |idx| > 0
    requires forall k | 0 <= k < |idx| :: idx[k] < |values| && vs[k] == values[idx[k]]
    ensures ReadingsAverage(vs).Err? <==>
      (exists k | 0 <= k < |idx| :: ParseReading(values[idx[k]]).None?)
      || forall k | 0 <= k < |idx| :: |ParseReading(values[idx[k]]).value| < 2
  {
  }

  /** When the blood-pressure rows hold the readings `<sys[k]>/<dia[k]>` in
      order, the table's means are the arithmetic means of `sys` and `dia`. */
  lemma BloodPressureTableAverage(t: Table, sys: seq<int>, dia: seq<int>)
    requires WellFormed(t) && "feature" in t.columns && "value" in t.columns
    requires var idx := BpRows(Column(t, "feature"));
      && |idx| == |sys| == |dia| > 0
      && forall k | 0 <= k < |idx| :: Column(t, "value")[idx[k]] == Reading(sys[k], dia[k])
    ensures AverageBloodPressure(t) ==
      Ok((Num(Sum(sys) as real / |sys| as real), Num(Sum(dia) as real / |dia| as real)))
  {
    var vs := BpValues(Column(t, "feature"), Column(t, "value"));
    WellFormedReadingsAverage(vs, sys, dia);
  }

  /** A reading written `<s>/<d>`. */
  function Reading(systolic: int, diastolic: int): Cell {
    Str(IntText(systolic) + "/" + IntText(diastolic))
  }

  lemma ReadingRoundTrip(s: int, d: int)
    ensures ParseReading(Reading(s, d)) == Some([s, d])
  {
    var p := [IntText(s), IntText(d)];
    assert Join(p, '/') == IntText(s) + "/" + IntText(d);
    SplitJoin(p, '/');
    IntTextRoundTrip(s);
    IntTextRoundTrip(d);
    assert Split(Reading(s, d).s, '/') == p;
    var r := ParseAll(p);
    assert r.Some? && r.value[0] == s && r.value[1] == d;
    assert r.value == [s, d];
  }

  lemma {:induction false} PiecesOfPairs(rows: seq<seq<int>>, sys: seq<int>, dia: seq<int>)
    requires |rows| == |sys| == |dia|
    requires forall i | 0 <= i < |rows| :: rows[i] == [sys[i], dia[i]]
    ensures Pieces(rows, 0) == sys && Pieces(rows, 1) == dia
  {
    if rows != [] {
      var m := |rows| - 1;
      PiecesOfPairs(rows[..m], sys[..m], dia[..m]);
      assert sys == sys[..m] + [sys[m]];
      assert dia == dia[..m] + [dia[m]];
    }
  }

  /** When every blood-pressure reading is `<s>/<d>`, the result is the pair of
      arithmetic means of the systolic and of the diastolic values. */
  lemma WellFormedReadingsAverage(vs: seq<Cell>, sys: seq<int>, dia: seq<int>)
    requires |vs| == |sys| == |dia| > 0
    requires forall i | 0 <= i < |vs| :: vs[i] == Reading(sys[i], dia[i])
    ensures ReadingsAverage(vs) ==
      Ok((Num(Sum(sys) as real / |sys| as real), Num(Sum(dia) as real / |dia| as real)))
  {
    forall i | 0 <= i < |vs| ensures ParseReading(vs[i]) == Some([sys[i], dia[i]]) {
      ReadingRoundTrip(sys[i], dia[i]);
    }
    var rows := ParseReadings(vs).value;
    PiecesOfPairs(rows, sys, dia);
  }

  // ---------------------------------------------------------------------------
  // get_unique_encounters (data_cleaner.py:73-76)
  // ---------------------------------------------------------------------------

  const EncounterWindowMonths := 6

  /** The distinct valid dates of a column. */
  function DateSet(cells: seq<Cell>): set<Day> {
    set i | 0 <= i < |cells| && cells[i].Date? :: cells[i].date
  }

  /** The greatest valid date of a column; `None` (NaT) when there is none. */
  function Latest(cells: seq<Cell>): (r: Option<Day>)
    ensures r.None? <==> forall i | 0 <= i < |cells| :: !cells[i].Date?
    ensures r.Some? ==> exists i | 0 <= i < |cells| :: cells[i] == Date(r.value)
    ensures r.Some? ==> forall i | 0 <= i < |cells| && cells[i].Date? :: NotAfter(cells[i].date, r.value)
  {
    if cells == [] then None
    else
      var m := |cells| - 1;
      var prev := Latest(cells[..m]);
      assert forall i | 0 <= i < m :: cells[..m][i] == cells[i];
      if !cells[m].Date? then prev
      else if prev.None? || NotAfter(prev.value, cells[m].date) then Some(cells[m].date)
      else prev
  }

  /** Distinct valid dates in the window of six calendar months ending at the
      latest valid date (dates after the cutoff `latest - 6 months`). */
  function UniqueEncounters(t: Table): nat
    requires WellFormed(t) && "report_date" in t.columns
  {
    var cells := Column(t, "report_date");
    match Latest(cells)
    case None => 0
    case Some(latest) =>
      |set d | d in DateSet(cells) && Before(MonthsBefore(latest, EncounterWindowMonths), d)|
  }

  /** No valid date gives 0 (an empty table in particular); otherwise the count
      is at least 1, as the latest date is inside its own window, and at most
      the number of distinct dates. */
  lemma UniqueEncountersBounds(t: Table)
    requires WellFormed(t) && "report_date" in t.columns
    ensures var n := UniqueEncounters(t);
      && (DateSet(Column(t, "report_date")) == {} ==> n == 0)
      && (DateSet(Column(t, "report_date")) != {} ==> 1 <= n <= |DateSet(Column(t, "report_date"))|)
  {
    var cells := Column(t, "report_date");
    var dates := DateSet(cells);
    match Latest(cells)
    case None =>
      assert dates == {};
    case Some(latest) =>
      var i :| 0 <= i < |cells| && cells[i] == Date(latest);
      assert latest in dates;
      var window := set d | d in dates && Before(MonthsBefore(latest, EncounterWindowMonths), d);
      assert latest in window;
      assert UniqueEncounters(t) == |window|;
      SubsetCardinality(window, dates);
  }

  // ---------------------------------------------------------------------------
  // Worked examples
  // ---------------------------------------------------------------------------

  /** The match is on `rx_name` and exact: "Flomax" is not an alpha blocker, even
      with an upper-cased `rx_norm` of "FLOMAX". */
  lemma AlphaBlockerNameIsExact()
    ensures !IsTakingAlphaBlockers(Table(["rx_name", "rx_norm"], [map["rx_name" := Str("Flomax"), "rx_norm" := Str("FLOMAX")]]))
  {
    var t := Table(["rx_name", "rx_norm"], [map["rx_name" := Str("Flomax"), "rx_norm" := Str("FLOMAX")]]);
    assert Column(t, "rx_name") == [Str("Flomax")];
  }

  /** Two hemoglobin results: the later one (12 on 2023-06-01) wins over the
      earlier (10 on 2023-01-01). */
  lemma MostRecentHgbExample()
    ensures var t := Table(["feature", "feature_date", "value"], [
        map["feature" := Str(Hemoglobin), "feature_date" := Date(CalDate(2023, 1, 1)), "value" := Num(10.0)],
        map["feature" := Str(Hemoglobin), "feature_date" := Date(CalDate(2023, 6, 1)), "value" := Num(12.0)]]);
      WellFormed(t) && "feature" in t.columns && MostRecentHgb(t) == Num(12.0)
  {
    var t := Table(["feature", "feature_date", "value"], [
        map["feature" := Str(Hemoglobin), "feature_date" := Date(CalDate(2023, 1, 1)), "value" := Num(10.0)],
        map["feature" := Str(Hemoglobin), "feature_date" := Date(CalDate(2023, 6, 1)), "value" := Num(12.0)]]);
    assert Column(t, "feature") == [Str(Hemoglobin), Str(Hemoglobin)];
    assert Column(t, "feature_date") == [Date(CalDate(2023, 1, 1)), Date(CalDate(2023, 6, 1))];
    assert Column(t, "value") == [Num(10.0), Num(12.0)];
    LaterOfTwo(t, Hemoglobin, Date(CalDate(2023, 1, 1)), Date(CalDate(2023, 6, 1)), Num(10.0), Num(12.0));
  }

  /** Of two rows of the same feature, the one with the strictly later date is the most recent. */
  lemma LaterOfTwo(t: Table, name: string, d0: Cell, d1: Cell, v0: Cell, v1: Cell)
    requires WellFormed(t) && "feature" in t.columns && "feature_date" in t.columns && "value" in t.columns
    requires Column(t, "feature") == [Str(name), Str(name)]
    requires Column(t, "feature_date") == [d0, d1] && Column(t, "value") == [v0, v1]
    requires !KeyNotAfter(DateKey(d1), DateKey(d0))
    ensures MostRecent(t, name) == v1
  {
    assert Column(t, "feature")[0] == Str(name);
    var i :| 0 <= i < |t.rows| && Column(t, "feature")[i] == Str(name) && MostRecent(t, name) == Column(t, "value")[i]
      && forall j | 0 <= j < |t.rows| && Column(t, "feature")[j] == Str(name) ::
           KeyNotAfter(DateKey(Column(t, "feature_date")[j]), DateKey(Column(t, "feature_date")[i]));
    assert KeyNotAfter(DateKey(Column(t, "feature_date")[1]), DateKey(Column(t, "feature_date")[i]));
  }

  /** LDL values 120, 135 and 140: two are above the threshold. */
  lemma HighCholesterolExample()
    ensures CountHighLdl([Str(Ldl), Str(Ldl), Str(Ldl)], [Num(120.0), Num(135.0), Num(140.0)]) == 2
  {
    var f, v := [Str(Ldl), Str(Ldl), Str(Ldl)], [Num(120.0), Num(135.0), Num(140.0)];
    assert f[..2] == [Str(Ldl), Str(Ldl)] && v[..2] == [Num(120.0), Num(135.0)];
    assert f[..2][..1] == [Str(Ldl)] && v[..2][..1] == [Num(120.0)];
    assert CountHighLdl([Str(Ldl)], [Num(120.0)]) == 0;
  }

  /** A reading without a '/' is a one-piece row: its number counts towards the
      systolic mean and not towards the diastolic one. */
  lemma ReadingWithoutSlash(a: int)
    ensures ParseReading(Str(IntText(a))) == Some([a])
  {
    SplitPrefix(IntText(a), "", '/');
    assert IntText(a) + "" == IntText(a);
    assert Split(IntText(a), '/') == [IntText(a)];
    IntTextRoundTrip(a);
    assert ParseAll([IntText(a)]).value == [a];
  }

  lemma MixedRowsPieces(a: int, b: int, c: int)
    ensures Pieces([[a], [b, c]], 0) == [a, b] && Pieces([[a], [b, c]], 1) == [c]
    ensures Mean([a, b]) == Num((a + b) as real / 2.0) && Mean([c]) == Num(c as real)
  {
    var rows := [[a], [b, c]];
    assert rows[..1] == [[a]] && [[a]][..0] == [];
    assert Pieces([[a]], 0) == [a];
    assert Pieces([[a]], 1) == [];
    assert [a, b][..1] == [a] && [a][..0] == [] && [c][..0] == [];
    assert Sum([a]) == Sum([]) + a;
    assert Sum([c]) == Sum([]) + c;
    var sum: int := Sum([a, b]);
    assert sum == a + b;
    assert |[a, b]| as real == 2.0;
    assert Mean([c]) == Num(c as real / 1.0);
  }

  lemma ReadingsOfRows(vs: seq<Cell>, rows: seq<seq<int>>)
    requires |vs| == |rows| && forall i | 0 <= i < |vs| :: ParseReading(vs[i]) == Some(rows[i])
    ensures ParseReadings(vs) == Some(rows)
  {
    var r := ParseReadings(vs);
    assert r.Some?;
    assert |r.value| == |rows| && forall i | 0 <= i < |vs| :: r.value[i] == rows[i];
    assert r.value == rows;
  }

  lemma AverageOfRows(vs: seq<Cell>, rows: seq<seq<int>>)
    requires |vs| > 0 && ParseReadings(vs) == Some(rows) && Pieces(rows, 1) != []
    ensures ReadingsAverage(vs) == Ok((Mean(Pieces(rows, 0)), Mean(Pieces(rows, 1))))
  {
  }

  /** A one-piece reading `a` and a two-piece reading `b/c` average to
      (a + b) / 2 systolic and c diastolic: the lone piece counts towards the
      systolic mean only (`ReadingWithoutSlash` gives the one-piece row of a
      reading written without '/'). */
  lemma MixedReadingsAverage(x: Cell, y: Cell, a: int, b: int, c: int)
    requires ParseReading(x) == Some([a]) && ParseReading(y) == Some([b, c])
    ensures ReadingsAverage([x, y]) == Ok((Num((a + b) as real / 2.0), Num(c as real)))
  {
    var rows := [[a], [b, c]];
    var vs := [x, y];
    forall i | 0 <= i < 2 ensures ParseReading(vs[i]) == Some(rows[i]) {
      if i == 0 {
        assert vs[i] == x && rows[i] == [a];
      } else {
        assert vs[i] == y && rows[i] == [b, c];
      }
    }
    ReadingsOfRows(vs, rows);
    MixedRowsPieces(a, b, c);
    AverageOfRows(vs, rows);
  }

  /** The six-month window clamps to the end of a shorter month. */
  lemma WindowClampExample()
    ensures MonthsBefore(CalDate(2023, 8, 31), EncounterWindowMonths) == CalDate(2023, 2, 28)
  {
  }
}
