/** In-memory record tables and the generic cleaning passes of the base cleaner
    (data_cleaner.py:31-46): exact-duplicate removal, missing-value indicator
    columns, and column coercions (dates, numbers, upper-cased text). */
module Tables {
  import opened Cells

  /** A row maps each column name of its table to a cell. */
  type Row = map<string, Cell>

  /** Column names in order, and the rows in order. */
  datatype Table = Table(columns: seq<string>, rows: seq<Row>)

  predicate Distinct<T(==)>(s: seq<T>) {
    forall i, j | 0 <= i < j < |s| :: s[i] != s[j]
  }

  /** Column names are distinct and every row has a cell for exactly those columns. */
  ghost predicate WellFormed(t: Table) {
    && Distinct(t.columns)
    && forall i, c | 0 <= i < |t.rows| :: c in t.rows[i] <==> c in t.columns
  }

  /** The cells of one column, top to bottom. */
  function Column(t: Table, name: string): (cells: seq<Cell>)
    requires WellFormed(t) && name in t.columns
    ensures |cells| == |t.rows|
  {
    seq(|t.rows|, i requires 0 <= i < |t.rows| => t.rows[i][name])
  }

  /** Column assignment `t[name] = vals`: an existing column is overwritten in
      place, a new one is appended after the others. */
  function SetColumn(t: Table, name: string, vals: seq<Cell>): (r: Table)
    requires WellFormed(t) && |vals| == |t.rows|
    ensures WellFormed(r) && |r.rows| == |t.rows|
    ensures r.columns == if name in t.columns then t.columns else t.columns + [name]
    ensures Column(r, name) == vals
    ensures forall c | c in t.columns && c != name :: Column(r, c) == Column(t, c)
  {
    var cols := if name in t.columns then t.columns else t.columns + [name];
    var r := Table(cols, seq(|t.rows|, i requires 0 <= i < |t.rows| => t.rows[i][name := vals[i]]));
    assert forall c | c in t.columns && c != name :: Column(r, c) == Column(t, c) by {
      forall c | c in t.columns && c != name ensures Column(r, c) == Column(t, c) {
        assert forall i | 0 <= i < |t.rows| :: Column(r, c)[i] == Column(t, c)[i];
      }
    }
    r
  }

  function Repeat(v: Cell, n: nat): (cells: seq<Cell>)
    ensures |cells| == n
  {
    seq(n, _ => v)
  }

  /** Scalar assignment `t[name] = v`: the same value on every row. */
  function SetScalar(t: Table, name: string, v: Cell): (r: Table)
    requires WellFormed(t)
    ensures WellFormed(r) && |r.rows| == |t.rows|
    ensures r.columns == if name in t.columns then t.columns else t.columns + [name]
    ensures forall i | 0 <= i < |r.rows| :: Column(r, name)[i] == v
    ensures forall c | c in t.columns && c != name :: Column(r, c) == Column(t, c)
  {
    SetColumn(t, name, Repeat(v, |t.rows|))
  }

  function MapCells(f: Cell -> Cell, cells: seq<Cell>): (r: seq<Cell>)
    ensures |r| == |cells|
  {
    seq(|cells|, i requires 0 <= i < |cells| => f(cells[i]))
  }

  /** Number of cells satisfying `p`. */
  function Count(cells: seq<Cell>, p: Cell -> bool): (n: nat)
    ensures n <= |cells|
    ensures n == 0 <==> forall i | 0 <= i < |cells| :: !p(cells[i])
  {
    if cells == [] then 0
    else
      var init := cells[..|cells| - 1];
      assert forall i | 0 <= i < |init| :: init[i] == cells[i];
      Count(init, p) + (if p(cells[|cells| - 1]) then 1 else 0)
  }

  // ---------------------------------------------------------------------------
  // remove_duplicates (data_cleaner.py:31-35)
  // ---------------------------------------------------------------------------

  /** The first occurrence of every element, in the order of first occurrence. */
  function Dedup<T(==,!new)>(s: seq<T>): (d: seq<T>)
    ensures Distinct(d)
    ensures forall x :: x in d <==> x in s
    ensures |d| <= |s|
  {
    if s == [] then []
    else
      var init := s[..|s| - 1];
      var last := s[|s| - 1];
      assert s == init + [last];
      var d := Dedup(init);
      if last in init then d else d + [last]
  }

  lemma {:induction false} DedupOfDistinct<T(!new)>(s: seq<T>)
    requires Distinct(s)
    ensures Dedup(s) == s
  {
    if s != [] {
      var init := s[..|s| - 1];
      assert Distinct(init);
      DedupOfDistinct(init);
      assert s[|s| - 1] !in init;
      assert s == init + [s[|s| - 1]];
    }
  }

  lemma DedupIdempotent<T(!new)>(s: seq<T>)
    ensures Dedup(Dedup(s)) == Dedup(s)
  {
    DedupOfDistinct(Dedup(s));
  }

  /** Position of the first occurrence of `x` in `s`. */
  function IndexOf<T(==)>(s: seq<T>, x: T): (k: nat)
    requires x in s
    ensures k < |s| && s[k] == x && x !in s[..k]
  {
    if s[0] == x then 0
    else
      assert s == [s[0]] + s[1..];
      var k := IndexOf(s[1..], x);
      assert s[..k + 1] == [s[0]] + s[1..][..k];
      k + 1
  }

  lemma IndexOfUnique<T>(s: seq<T>, x: T, k: nat)
    requires k < |s| && s[k] == x && x !in s[..k]
    ensures IndexOf(s, x) == k
  {
  }

  lemma IndexOfAppend<T>(p: seq<T>, x: T, y: T)
    requires y in p
    ensures IndexOf(p + [x], y) == IndexOf(p, y)
  {
    var k := IndexOf(p, y);
    assert (p + [x])[..k] == p[..k];
    IndexOfUnique(p + [x], y, k);
  }

  /** Rows that are first occurrences keep their relative order. */
  lemma {:induction false} DedupKeepsOrder<T(!new)>(s: seq<T>, i: nat, j: nat)
    requires i < j < |s|
    requires s[i] !in s[..i] && s[j] !in s[..j]
    ensures s[i] in Dedup(s) && s[j] in Dedup(s)
    ensures IndexOf(Dedup(s), s[i]) < IndexOf(Dedup(s), s[j])
  {
    var init := s[..|s| - 1];
    var last := s[|s| - 1];
    var d := Dedup(init);
    assert s[i] == init[i] && init[..i] == s[..i];
    assert s[i] in d;
    if j == |s| - 1 {
      assert init == s[..j];
      assert Dedup(s) == d + [last];
      IndexOfAppend(d, last, s[i]);
      assert (d + [last])[..|d|] == d;
      IndexOfUnique(d + [last], last, |d|);
    } else {
      assert s[j] == init[j] && init[..j] == s[..j];
      DedupKeepsOrder(init, i, j);
      if last !in init {
        IndexOfAppend(d, last, s[i]);
        IndexOfAppend(d, last, s[j]);
      }
    }
  }

  function DedupTable(t: Table): (r: Table)
    requires WellFormed(t)
    ensures WellFormed(r) && r.columns == t.columns
  {
    var d := Dedup(t.rows);
    assert forall k | 0 <= k < |d| :: d[k] in t.rows;
    Table(t.columns, d)
  }

  /** Duplicate removal: no two rows of the result are equal, it holds exactly
      the rows of the input, first occurrences keep their relative order, and a
      second pass removes nothing. */
  lemma DedupTableSpec(t: Table)
    requires WellFormed(t)
    ensures var r := DedupTable(t);
      && Distinct(r.rows)
      && (forall row :: row in r.rows <==> row in t.rows)
      && |r.rows| <= |t.rows|
      && (forall i, j | 0 <= i < j < |t.rows| && t.rows[i] !in t.rows[..i] && t.rows[j] !in t.rows[..j] ::
            IndexOf(r.rows, t.rows[i]) < IndexOf(r.rows, t.rows[j]))
      && DedupTable(r) == r
  {
    var r := DedupTable(t);
    forall i, j | 0 <= i < j < |t.rows| && t.rows[i] !in t.rows[..i] && t.rows[j] !in t.rows[..j]
      ensures IndexOf(r.rows, t.rows[i]) < IndexOf(r.rows, t.rows[j])
    {
      DedupKeepsOrder(t.rows, i, j);
    }
    DedupOfDistinct(r.rows);
  }

  // ---------------------------------------------------------------------------
  // handle_missing_values (data_cleaner.py:37-41)
  // ---------------------------------------------------------------------------

  function MissingName(c: string): string {
    c + "_missing"
  }

  lemma MissingNameInjective(a: string, b: string)
    requires MissingName(a) == MissingName(b)
    ensures a == b
  {
    assert |a| == |b|;
    assert a == MissingName(a)[..|a|];
  }

  predicate HasNull(cells: seq<Cell>) {
    exists i | 0 <= i < |cells| :: IsNull(cells[i])
  }

  /** The 0/1 indicator of the null cells of a column. */
  function Indicator(cells: seq<Cell>): (flags: seq<Cell>)
    ensures |flags| == |cells|
  {
    seq(|cells|, i requires 0 <= i < |cells| => if IsNull(cells[i]) then Num(1.0) else Num(0.0))
  }

  /** One iteration of the flagging loop, on the current table. */
  function FlagColumn(t: Table, c: string): (r: Table)
    requires WellFormed(t) && c in t.columns
    ensures WellFormed(r) && |r.rows| == |t.rows|
    ensures forall k | k in t.columns :: k in r.columns
  {
    if HasNull(Column(t, c)) then SetColumn(t, MissingName(c), Indicator(Column(t, c))) else t
  }

  /** The flagging loop run over the column names `cs`, in order. */
  function FlagColumns(t: Table, cs: seq<string>): (r: Table)
    requires WellFormed(t) && forall c | c in cs :: c in t.columns
    ensures WellFormed(r) && |r.rows| == |t.rows|
    ensures forall k | k in t.columns :: k in r.columns
    decreases |cs|
  {
    if cs == [] then t else FlagColumns(FlagColumn(t, cs[0]), cs[1..])
  }

  /** The flagging loop over `cs[k..]` is one step on `cs[k]`, then the rest. */
  lemma FlagColumnsFirst(t: Table, cs: seq<string>, k: nat)
    requires WellFormed(t) && k < |cs| && forall c | c in cs[k..] :: c in t.columns
    ensures cs[k] in t.columns
    ensures forall c | c in cs[k + 1..] :: c in FlagColumn(t, cs[k]).columns
    ensures FlagColumns(t, cs[k..]) == FlagColumns(FlagColumn(t, cs[k]), cs[k + 1..])
  {
    assert cs[k..] == [cs[k]] + cs[k + 1..];
  }

  /** The flagging loop over the columns the table had when it started. */
  function FlagMissing(t: Table): (r: Table)
    requires WellFormed(t)
    ensures WellFormed(r) && |r.rows| == |t.rows|
    ensures forall k | k in t.columns :: k in r.columns
  {
    FlagColumns(t, t.columns)
  }

  /** No column is already named like the indicator of another one. */
  predicate NoIndicatorClash(t: Table) {
    forall c | c in t.columns :: MissingName(c) !in t.columns
  }

  /** What holds of `s` after the flagging loop has processed the first `k`
      columns of `t`. */
  ghost predicate FlaggedUpTo(t: Table, s: Table, k: nat)
    requires WellFormed(t) && k <= |t.columns|
  {
    && WellFormed(s) && |s.rows| == |t.rows|
    && (forall c | c in t.columns :: c in s.columns && Column(s, c) == Column(t, c))
    && (forall c | c in t.columns[..k] && HasNull(Column(t, c)) ::
          MissingName(c) in s.columns && Column(s, MissingName(c)) == Indicator(Column(t, c)))
    && (forall c | c in s.columns ::
          c in t.columns || exists o | o in t.columns[..k] :: HasNull(Column(t, o)) && c == MissingName(o))
  }

  lemma FlagColumnStep(t: Table, s: Table, k: nat)
    requires WellFormed(t) && NoIndicatorClash(t) && k < |t.columns|
    requires FlaggedUpTo(t, s, k)
    ensures FlaggedUpTo(t, FlagColumn(s, t.columns[k]), k + 1)
  {
    var c := t.columns[k];
    var s' := FlagColumn(s, c);
    assert t.columns[..k + 1] == t.columns[..k] + [c];
    assert c !in t.columns[..k];
    if HasNull(Column(t, c)) {
      assert s' == SetColumn(s, MissingName(c), Indicator(Column(s, c)));
      if MissingName(c) in s.columns {
        var o :| o in t.columns[..k] && HasNull(Column(t, o)) && MissingName(c) == MissingName(o);
        MissingNameInjective(c, o);
        assert false;
      }
      forall c0 | c0 in t.columns[..k + 1] && HasNull(Column(t, c0))
        ensures MissingName(c0) in s'.columns && Column(s', MissingName(c0)) == Indicator(Column(t, c0))
      {
        if c0 != c {
          assert c0 in t.columns[..k];
          if MissingName(c0) == MissingName(c) {
            MissingNameInjective(c0, c);
          }
        }
      }
    } else {
      forall c0 | c0 in t.columns[..k + 1] && HasNull(Column(t, c0))
        ensures c0 in t.columns[..k]
      {
      }
    }
  }

  lemma {:induction false} FlagColumnsFrom(t: Table, s: Table, k: nat)
    requires WellFormed(t) && NoIndicatorClash(t) && k <= |t.columns|
    requires FlaggedUpTo(t, s, k)
    ensures forall c | c in t.columns[k..] :: c in s.columns
    ensures FlaggedUpTo(t, FlagColumns(s, t.columns[k..]), |t.columns|)
    decreases |t.columns| - k
  {
    if k == |t.columns| {
      assert t.columns[k..] == [];
    } else {
      var c := t.columns[k];
      assert t.columns[k..] == [c] + t.columns[k + 1..];
      FlagColumnStep(t, s, k);
      FlagColumnsFrom(t, FlagColumn(s, c), k + 1);
    }
  }

  /** Indicator columns: one `<c>_missing` column, holding 1 exactly on the null
      cells of `c`, for every original column `c` with a null cell, and no other
      new column; the original columns and the row count are untouched. */
  lemma FlagMissingSpec(t: Table)
    requires WellFormed(t) && NoIndicatorClash(t)
    ensures var r := FlagMissing(t);
      && |r.rows| == |t.rows|
      && (forall c | c in t.columns :: c in r.columns && Column(r, c) == Column(t, c))
      && (forall c | c in t.columns && HasNull(Column(t, c)) ::
            MissingName(c) in r.columns && Column(r, MissingName(c)) == Indicator(Column(t, c)))
      && (forall c | c in t.columns && !HasNull(Column(t, c)) :: MissingName(c) !in r.columns)
      && (forall c | c in r.columns ::
            c in t.columns || exists o | o in t.columns :: HasNull(Column(t, o)) && c == MissingName(o))
  {
    assert t.columns[..0] == [] && t.columns[0..] == t.columns && t.columns[..|t.columns|] == t.columns;
    FlagColumnsFrom(t, t, 0);
    var r := FlagMissing(t);
    forall c | c in t.columns && !HasNull(Column(t, c)) ensures MissingName(c) !in r.columns {
      if MissingName(c) in r.columns {
        var o :| o in t.columns && HasNull(Column(t, o)) && MissingName(c) == MissingName(o);
        MissingNameInjective(c, o);
      }
    }
  }

  /** The indicator holds as many ones as the column holds null cells. */
  lemma {:induction false} IndicatorCountsNulls(cells: seq<Cell>)
    ensures Count(Indicator(cells), c => c == Num(1.0)) == Count(cells, IsNull)
  {
    if cells != [] {
      var init := cells[..|cells| - 1];
      assert Indicator(cells)[..|cells| - 1] == Indicator(init);
      IndicatorCountsNulls(init);
    }
  }

  // ---------------------------------------------------------------------------
  // Column coercions (data_cleaner.py:44, 102, 123)
  // ---------------------------------------------------------------------------

  /** Date coercion of one column, unparseable cells becoming `InvalidDate`. */
  function CoerceDates(t: Table, col: string): (r: Table)
    requires WellFormed(t) && col in t.columns
    ensures WellFormed(r) && r.columns == t.columns && |r.rows| == |t.rows|
  {
    SetColumn(t, col, MapCells(ToDate, Column(t, col)))
  }

  lemma {:induction false} CountDateCoercion(cells: seq<Cell>)
    ensures Count(MapCells(ToDate, cells), IsNull) == Count(cells, DateUnparseable)
    ensures Count(cells, IsNull) <= Count(cells, DateUnparseable)
  {
    if cells != [] {
      var init := cells[..|cells| - 1];
      assert MapCells(ToDate, cells)[..|cells| - 1] == MapCells(ToDate, init);
      CountDateCoercion(init);
      ToDateIdempotent(cells[|cells| - 1]);
    }
  }

  /** Date standardisation never fails: every cell of the column becomes a date
      or the invalid marker, the number of null cells afterwards is the number
      of cells that did not parse (cells that were already missing among them),
      and every other column is unchanged. */
  lemma CoerceDatesSpec(t: Table, col: string)
    requires WellFormed(t) && col in t.columns
    ensures var r := CoerceDates(t, col);
      && (forall i | 0 <= i < |r.rows| :: Column(r, col)[i].Date? || Column(r, col)[i].InvalidDate?)
      && (forall i | 0 <= i < |r.rows| :: Column(r, col)[i] == ToDate(Column(t, col)[i]))
      && Count(Column(r, col), IsNull) == Count(Column(t, col), DateUnparseable)
      && Count(Column(t, col), IsNull) <= Count(Column(r, col), IsNull)
      && (forall c | c in t.columns && c != col :: Column(r, c) == Column(t, c))
  {
    var r := CoerceDates(t, col);
    var vals := MapCells(ToDate, Column(t, col));
    assert r == SetColumn(t, col, vals);
    assert Column(r, col) == vals;
    assert forall i | 0 <= i < |r.rows| :: vals[i] == ToDate(Column(t, col)[i]);
    CountDateCoercion(Column(t, col));
  }

  lemma SetColumnOwn(t: Table, col: string)
    requires WellFormed(t) && col in t.columns
    ensures SetColumn(t, col, Column(t, col)) == t
  {
    var r := SetColumn(t, col, Column(t, col));
    assert forall i | 0 <= i < |t.rows| :: r.rows[i] == t.rows[i];
  }

  lemma CoerceDatesIdempotent(t: Table, col: string)
    requires WellFormed(t) && col in t.columns
    ensures CoerceDates(CoerceDates(t, col), col) == CoerceDates(t, col)
  {
    var r := CoerceDates(t, col);
    forall i | 0 <= i < |r.rows| ensures ToDate(Column(r, col)[i]) == Column(r, col)[i] {
      ToDateIdempotent(Column(t, col)[i]);
    }
    assert MapCells(ToDate, Column(r, col)) == Column(r, col);
    SetColumnOwn(r, col);
  }

  /** `astype(str).str.upper()` on one cell: the cell's text with every
      lower-case letter replaced by its upper-case counterpart and every other
      character kept. */
  function UpperText(c: Cell): (r: Cell)
    ensures r.Str? && |r.s| == |ToText(c)|
    ensures forall k | 0 <= k < |r.s| :: !IsLower(r.s[k])
    ensures forall k | 0 <= k < |r.s| && IsLower(ToText(c)[k]) :: r.s[k] as int == ToText(c)[k] as int - 32
    ensures forall k | 0 <= k < |r.s| && !IsLower(ToText(c)[k]) :: r.s[k] == ToText(c)[k]
  {
    Str(Upper(ToText(c)))
  }

  function UpperColumn(t: Table, col: string): (r: Table)
    requires WellFormed(t) && col in t.columns
    ensures WellFormed(r) && r.columns == t.columns && |r.rows| == |t.rows|
  {
    SetColumn(t, col, MapCells(UpperText, Column(t, col)))
  }

  /** After the pass every cell of the column is text without lower-case
      letters, other columns are unchanged, and a second pass changes nothing. */
  lemma UpperColumnSpec(t: Table, col: string)
    requires WellFormed(t) && col in t.columns
    ensures var r := UpperColumn(t, col);
      && (forall i | 0 <= i < |r.rows| ::
            Column(r, col)[i].Str? && forall k | 0 <= k < |Column(r, col)[i].s| :: !IsLower(Column(r, col)[i].s[k]))
      && (forall c | c in t.columns && c != col :: Column(r, c) == Column(t, c))
      && UpperColumn(r, col) == r
  {
    var r := UpperColumn(t, col);
    var vals := MapCells(UpperText, Column(t, col));
    assert r == SetColumn(t, col, vals);
    assert Column(r, col) == vals;
    forall i | 0 <= i < |r.rows| ensures UpperText(Column(r, col)[i]) == Column(r, col)[i] {
      var text := ToText(Column(t, col)[i]);
      assert vals[i] == UpperText(Column(t, col)[i]);
      UpperIsUpper(text);
    }
    assert MapCells(UpperText, Column(r, col)) == Column(r, col);
    SetColumnOwn(r, col);
  }

  /** Numeric coercion of one column, unparseable cells becoming NaN. */
  function CoerceNumbers(t: Table, col: string): (r: Table)
    requires WellFormed(t) && col in t.columns
    ensures WellFormed(r) && r.columns == t.columns && |r.rows| == |t.rows|
    ensures forall i | 0 <= i < |r.rows| :: Column(r, col)[i] == ToNumber(Column(t, col)[i])
    ensures forall i | 0 <= i < |r.rows| :: Column(r, col)[i].Num? || Column(r, col)[i].Missing?
    ensures forall c | c in t.columns && c != col :: Column(r, c) == Column(t, c)
  {
    SetColumn(t, col, MapCells(ToNumber, Column(t, col)))
  }
}
