/**
 * The list of rows behind the auto-brightness curve editor: each row maps the
 * ambient light range [luxFrom, luxTo) to a backlight level, and the last row's
 * luxTo is Integer.MAX_VALUE, which stands for "no upper bound". The functions
 * here say what each list operation produces; the class SettingRowAdapter holds
 * the list and performs the operations in place.
 */
module SettingRows {
  import opened JavaInt

  /** One SettingRow. */
  datatype Row = Row(luxFrom: Int32, luxTo: Int32, backlight: Int32)

  // ---------------------------------------------------------------- building and flattening

  /** The rows initFromSettings builds from the lux thresholds and the backlight values. */
  function Built(lux: seq<Int32>, values: seq<Int32>): seq<Row>
    requires |lux| >= 1 && |values| >= |lux|
  {
    seq(|lux| + 1, i requires 0 <= i <= |lux| =>
      if i < |lux| then Row(if i == 0 then 0 else lux[i - 1], lux[i], values[i])
      else Row(lux[|lux| - 1], MaxValue, values[|values| - 1]))
  }

  /** What getLuxValues returns: the upper bound of every row but the last. */
  function LuxValues(rows: seq<Row>): seq<Int32>
    requires |rows| >= 1
  {
    seq(|rows| - 1, i requires 0 <= i < |rows| - 1 => rows[i].luxTo)
  }

  /** What getBacklightValues returns: the backlight of every row. */
  function BacklightValues(rows: seq<Row>): seq<Int32>
  {
    seq(|rows|, i requires 0 <= i < |rows| => rows[i].backlight)
  }

  // ---------------------------------------------------------------- the curve invariant

  /** Row i (i > 0) starts above row i - 1. */
  predicate StartsAbove(rows: seq<Row>, i: nat)
    requires 0 < i < |rows|
  {
    rows[i - 1].luxFrom < rows[i].luxFrom
  }

  /** Row i (i > 0) has at least the backlight of row i - 1. */
  predicate LevelAtLeast(rows: seq<Row>, i: nat)
    requires 0 < i < |rows|
  {
    rows[i - 1].backlight <= rows[i].backlight
  }

  /** Row i - 1 ends where row i (i > 0) starts. */
  predicate Linked(rows: seq<Row>, i: nat)
    requires 0 < i < |rows|
  {
    rows[i - 1].luxTo == rows[i].luxFrom
  }

  /** Row i (i > 0) starts at least at row i - 1's start plus one, in Java int arithmetic. */
  predicate PushedPast(rows: seq<Row>, i: nat)
    requires 0 < i < |rows|
  {
    rows[i].luxFrom >= Add(rows[i - 1].luxFrom, 1)
  }

  /**
   * The invariant the editor keeps: at least one row, the first starting at 0,
   * starts strictly increasing, backlight never decreasing, each row ending
   * where the next begins, and the last one unbounded.
   */
  predicate WellFormed(rows: seq<Row>)
  {
    && |rows| >= 1
    && rows[0].luxFrom == 0
    && rows[|rows| - 1].luxTo == MaxValue
    && (forall i :: 0 < i < |rows| ==> StartsAbove(rows, i))
    && (forall i :: 0 < i < |rows| ==> LevelAtLeast(rows, i))
    && (forall i :: 0 < i < |rows| ==> Linked(rows, i))
  }

  // ---------------------------------------------------------------- sanitizeValuesAndNotify

  /** The start sanitize gives row i: 0 for the first row, else at least one past the previous start (in Java int arithmetic). */
  function Start(rows: seq<Row>, i: nat): Int32
    requires i < |rows|
  {
    if i == 0 then 0 else Max(Add(Start(rows, i - 1), 1), rows[i].luxFrom)
  }

  /** The backlight sanitize gives row i: at least the previous row's. */
  function Level(rows: seq<Row>, i: nat): Int32
    requires i < |rows|
  {
    if i == 0 then rows[0].backlight else Max(Level(rows, i - 1), rows[i].backlight)
  }

  /** The list after one sanitize pass. */
  function Sanitized(rows: seq<Row>): (r: seq<Row>)
    ensures |r| == |rows|
  {
    seq(|rows|, i requires 0 <= i < |rows| =>
      Row(Start(rows, i), if i == |rows| - 1 then MaxValue else Start(rows, i + 1), Level(rows, i)))
  }

  /** A list whose every row holds the start, end and backlight sanitize computes is the sanitized list. */
  lemma SanitizedFromRows(rows: seq<Row>, r: seq<Row>)
    requires |r| == |rows| >= 1
    requires forall j :: 0 <= j < |r| - 1 ==> r[j] == Row(Start(rows, j), Start(rows, j + 1), Level(rows, j))
    requires r[|r| - 1] == Row(Start(rows, |r| - 1), MaxValue, Level(rows, |r| - 1))
    ensures r == Sanitized(rows)
  {
    var s := Sanitized(rows);
    forall j | 0 <= j < |r|
      ensures r[j] == s[j]
    {
    }
  }

  /**
   * What one sanitize pass guarantees whatever the input: the row count is
   * kept, the first start is 0, each row ends where the next begins and the
   * last is unbounded, backlight never decreases, and values only move up:
   * every start after the first is at least its old value and at least one
   * past the previous start (in Java int arithmetic), every backlight at
   * least its old value.
   */
  lemma SanitizedShape(rows: seq<Row>)
    requires |rows| >= 1
    ensures var r := Sanitized(rows);
      && |r| == |rows|
      && r[0].luxFrom == 0
      && r[|r| - 1].luxTo == MaxValue
      && (forall i :: 0 < i < |r| ==> Linked(r, i) && LevelAtLeast(r, i) && PushedPast(r, i))
      && (forall i :: 0 < i < |r| ==> r[i].luxFrom >= rows[i].luxFrom)
      && (forall i :: 0 <= i < |r| ==> r[i].backlight >= rows[i].backlight)
  {
    var r := Sanitized(rows);
    forall i | 0 < i < |r|
      ensures Linked(r, i) && LevelAtLeast(r, i) && PushedPast(r, i) && r[i].luxFrom >= rows[i].luxFrom
    {
      assert r[i].luxFrom == Start(rows, i) && r[i - 1].luxFrom == Start(rows, i - 1);
    }
  }

  /**
   * Enough room below Integer.MAX_VALUE that pushing the starts up by one per
   * row never wraps around: row i's start leaves room for the |rows| - 1 - i
   * rows after it.
   */
  predicate Headroom(rows: seq<Row>)
  {
    && |rows| - 1 <= MaxValue
    && forall i :: 0 < i < |rows| ==> rows[i].luxFrom <= MaxValue - (|rows| - 1 - i)
  }

  lemma {:induction false} StartBounded(rows: seq<Row>, i: nat)
    requires Headroom(rows) && i < |rows|
    ensures Start(rows, i) <= MaxValue - (|rows| - 1 - i)
  {
    if i > 0 {
      StartBounded(rows, i - 1);
    }
  }

  /** Without wrap-around, sanitize establishes the whole curve invariant. */
  lemma SanitizedWellFormed(rows: seq<Row>)
    requires |rows| >= 1 && Headroom(rows)
    ensures WellFormed(Sanitized(rows))
  {
    var r := Sanitized(rows);
    SanitizedShape(rows);
    forall i | 0 < i < |rows|
      ensures StartsAbove(r, i)
    {
      StartBounded(rows, i - 1);
      assert PushedPast(r, i);
    }
  }

  /**
   * Sanitize moves each value up only as far as it must: every well-formed list
   * whose starts (after the first) and backlights are at least the input's lies
   * at or above the sanitized one, row by row.
   */
  lemma SanitizedIsLeast(rows: seq<Row>, c: seq<Row>)
    requires |c| == |rows| && WellFormed(c)
    requires forall j :: 0 < j < |rows| ==> rows[j].luxFrom <= c[j].luxFrom
    requires forall j :: 0 <= j < |rows| ==> rows[j].backlight <= c[j].backlight
    ensures forall i :: 0 <= i < |rows| ==>
      Sanitized(rows)[i].luxFrom <= c[i].luxFrom && Sanitized(rows)[i].backlight <= c[i].backlight
  {
    forall i | 0 <= i < |rows|
      ensures Start(rows, i) <= c[i].luxFrom && Level(rows, i) <= c[i].backlight
    {
      StartLevelBelow(rows, c, i);
    }
  }

  lemma {:induction false} StartLevelBelow(rows: seq<Row>, c: seq<Row>, i: nat)
    requires |c| == |rows| && WellFormed(c) && i < |rows|
    requires forall j :: 0 < j < |rows| ==> rows[j].luxFrom <= c[j].luxFrom
    requires forall j :: 0 <= j < |rows| ==> rows[j].backlight <= c[j].backlight
    ensures Start(rows, i) <= c[i].luxFrom && Level(rows, i) <= c[i].backlight
  {
    if i > 0 {
      assert StartsAbove(c, i) && LevelAtLeast(c, i);
      StartLevelBelow(rows, c, i - 1);
    }
  }

  // ---------------------------------------------------------------- lists sanitize only relinks

  /** The start a row keeps when only the first start is pinned to 0. */
  function PinnedStart(rows: seq<Row>, i: nat): Int32
    requires i < |rows|
  {
    if i == 0 then 0 else rows[i].luxFrom
  }

  /** Starts strictly increasing from a pinned 0, and backlight never decreasing; the luxTo fields are not looked at. */
  predicate Ordered(rows: seq<Row>)
  {
    forall i :: 0 < i < |rows| ==> OrderedAt(rows, i)
  }

  predicate OrderedAt(rows: seq<Row>, i: nat)
    requires 0 < i < |rows|
  {
    PinnedStart(rows, i - 1) < rows[i].luxFrom && LevelAtLeast(rows, i)
  }

  /** The rows with the first start pinned to 0 and every luxTo recomputed from the next start. */
  function Relinked(rows: seq<Row>): seq<Row>
    requires |rows| >= 1
  {
    seq(|rows|, i requires 0 <= i < |rows| =>
      Row(PinnedStart(rows, i), if i == |rows| - 1 then MaxValue else rows[i + 1].luxFrom, rows[i].backlight))
  }

  lemma {:induction false} StartLevelOrdered(rows: seq<Row>, i: nat)
    requires Ordered(rows) && i < |rows|
    ensures Start(rows, i) == PinnedStart(rows, i) && Level(rows, i) == rows[i].backlight
  {
    if i > 0 {
      assert OrderedAt(rows, i);
      StartLevelOrdered(rows, i - 1);
    }
  }

  /** On an ordered list sanitize changes no start after the first and no backlight: it only relinks. */
  lemma SanitizeOrdered(rows: seq<Row>)
    requires |rows| >= 1 && Ordered(rows)
    ensures Sanitized(rows) == Relinked(rows)
    ensures WellFormed(Relinked(rows))
  {
    var s, l := Sanitized(rows), Relinked(rows);
    forall i | 0 <= i < |rows|
      ensures s[i] == l[i]
    {
      StartLevelOrdered(rows, i);
      if i < |rows| - 1 {
        StartLevelOrdered(rows, i + 1);
      }
    }
    RelinkedWellFormed(rows);
  }

  /** Relinking an ordered list gives a list that keeps the curve invariant. */
  lemma RelinkedWellFormed(rows: seq<Row>)
    requires |rows| >= 1 && Ordered(rows)
    ensures WellFormed(Relinked(rows))
  {
    var l := Relinked(rows);
    forall i | 0 < i < |rows|
      ensures StartsAbove(l, i) && LevelAtLeast(l, i) && Linked(l, i)
    {
      assert OrderedAt(rows, i);
    }
  }

  lemma WellFormedOrdered(rows: seq<Row>)
    requires WellFormed(rows)
    ensures Ordered(rows) && Relinked(rows) == rows
  {
    forall i | 0 < i < |rows|
      ensures OrderedAt(rows, i)
    {
      assert StartsAbove(rows, i) && LevelAtLeast(rows, i);
    }
    var r := Relinked(rows);
    forall i | 0 <= i < |rows|
      ensures r[i] == rows[i]
    {
      if i < |rows| - 1 {
        assert Linked(rows, i + 1);
      }
    }
  }

  /** Sanitize is idempotent: a list that already keeps the invariant is left as it is. */
  lemma SanitizeIdempotent(rows: seq<Row>)
    requires WellFormed(rows)
    ensures Sanitized(rows) == rows
  {
    WellFormedOrdered(rows);
    SanitizeOrdered(rows);
  }

  /** In a well-formed list, starts strictly increase and backlight does not decrease between any two rows, and no start is negative. */
  lemma {:induction false} WellFormedSorted(rows: seq<Row>, a: nat, b: nat)
    requires WellFormed(rows) && a < b < |rows|
    ensures rows[a].luxFrom < rows[b].luxFrom && rows[a].backlight <= rows[b].backlight
    ensures rows[a].luxFrom >= 0
    decreases b
  {
    assert StartsAbove(rows, b) && LevelAtLeast(rows, b);
    if a == 0 {
      if b > 1 {
        WellFormedSorted(rows, 0, b - 1);
      }
    } else {
      WellFormedSorted(rows, 0, a);
      if a < b - 1 {
        WellFormedSorted(rows, a, b - 1);
      }
    }
  }

  // ---------------------------------------------------------------- the three edits

  /** The list removeRow hands to sanitize: the row at `position` taken out. */
  function Deleted(rows: seq<Row>, position: nat): (r: seq<Row>)
    requires position < |rows|
    ensures |r| == |rows| - 1
    ensures forall j :: 0 <= j < |r| ==> r[j] == if j < position then rows[j] else rows[j + 1]
  {
    rows[..position] + rows[position + 1..]
  }

  /** The list addRow hands to sanitize: a row starting at 0 with the last row's backlight appended. */
  function WithNewRow(rows: seq<Row>): (r: seq<Row>)
    requires |rows| >= 1
    ensures |r| == |rows| + 1 && r[..|rows|] == rows
    ensures r[|rows|] == Row(0, 0, rows[|rows| - 1].backlight)
  {
    rows + [Row(0, 0, rows[|rows| - 1].backlight)]
  }

  /** The guard of updateRow: nothing to do when the backlight is unchanged and the start is unchanged or belongs to the first row. */
  predicate IsNoOpEdit(rows: seq<Row>, position: nat, newLuxFrom: Int32, newBacklight: Int32)
    requires position < |rows|
  {
    rows[position].backlight == newBacklight && (position == 0 || rows[position].luxFrom == newLuxFrom)
  }

  /** The list updateRow hands to sanitize: the new backlight written, and the new start unless it is the first row. */
  function Edited(rows: seq<Row>, position: nat, newLuxFrom: Int32, newBacklight: Int32): seq<Row>
    requires position < |rows|
  {
    var row := rows[position];
    rows[position := Row(if position == 0 then row.luxFrom else newLuxFrom, row.luxTo, newBacklight)]
  }

  /** The guard of updateRow holds exactly when writing the values would change nothing. */
  lemma NoOpEditChangesNothing(rows: seq<Row>, position: nat, newLuxFrom: Int32, newBacklight: Int32)
    requires position < |rows|
    ensures IsNoOpEdit(rows, position, newLuxFrom, newBacklight) <==> Edited(rows, position, newLuxFrom, newBacklight) == rows
    ensures position == 0 ==> Edited(rows, position, newLuxFrom, newBacklight)[0].luxFrom == rows[0].luxFrom
  {
    if Edited(rows, position, newLuxFrom, newBacklight) == rows {
      assert Edited(rows, position, newLuxFrom, newBacklight)[position] == rows[position];
    }
  }

  /** In a well-formed list, row i starts low enough to leave one value below MAX_VALUE for each row after it. */
  lemma {:induction false} WellFormedRoom(rows: seq<Row>, i: nat)
    requires WellFormed(rows) && i < |rows|
    ensures rows[i].luxFrom <= MaxValue - (|rows| - 1 - i)
    decreases |rows| - i
  {
    if i < |rows| - 1 {
      WellFormedRoom(rows, i + 1);
      assert StartsAbove(rows, i + 1);
    }
  }

  /**
   * updateRow keeps the curve for any backlight and any start, clamped or not,
   * as long as the new start leaves room below MAX_VALUE for the rows after it.
   */
  lemma UpdateRowKeepsCurve(rows: seq<Row>, position: nat, newLuxFrom: Int32, newBacklight: Int32)
    requires WellFormed(rows) && position < |rows|
    requires position == 0 || newLuxFrom <= MaxValue - (|rows| - 1 - position)
    ensures WellFormed(Sanitized(Edited(rows, position, newLuxFrom, newBacklight)))
  {
    var e := Edited(rows, position, newLuxFrom, newBacklight);
    WellFormedRoom(rows, 0);
    forall i | 0 < i < |e|
      ensures e[i].luxFrom <= MaxValue - (|e| - 1 - i)
    {
      if i != position {
        WellFormedRoom(rows, i);
      }
    }
    assert Headroom(e);
    SanitizedWellFormed(e);
  }

  /**
   * removeRow on a well-formed list of two or more rows: the result keeps the
   * invariant, has one row fewer, and the remaining rows keep their order,
   * their backlight and (after the first) their start.
   */
  lemma RemoveRowKeepsCurve(rows: seq<Row>, position: nat)
    requires WellFormed(rows) && |rows| >= 2 && position < |rows|
    ensures Sanitized(Deleted(rows, position)) == Relinked(Deleted(rows, position))
    ensures WellFormed(Sanitized(Deleted(rows, position)))
  {
    var d := Deleted(rows, position);
    forall i | 0 < i < |d|
      ensures OrderedAt(d, i)
    {
      var a := if i - 1 < position then i - 1 else i;
      var b := if i < position then i else i + 1;
      WellFormedSorted(rows, a, b);
      if i - 1 == 0 {
        WellFormedSorted(rows, 0, b);
      }
    }
    SanitizeOrdered(d);
  }

  /**
   * addRow on a well-formed list whose last start is below Integer.MAX_VALUE:
   * one row more, the new last row starts one past the old last start and has
   * its backlight, the old last row now ends there, and the rows before it are
   * unchanged.
   */
  lemma AddRowExtendsCurve(rows: seq<Row>)
    requires WellFormed(rows) && rows[|rows| - 1].luxFrom < MaxValue
    ensures var last := rows[|rows| - 1];
      Sanitized(WithNewRow(rows)) ==
        rows[..|rows| - 1] + [last.(luxTo := last.luxFrom + 1), Row(last.luxFrom + 1, MaxValue, last.backlight)]
  {
    var n := |rows|;
    var w := WithNewRow(rows);
    var last := rows[n - 1];
    AddRowStartLevel(rows);
    var expected := rows[..n - 1] + [last.(luxTo := last.luxFrom + 1), Row(last.luxFrom + 1, MaxValue, last.backlight)];
    var r := Sanitized(w);
    forall i | 0 <= i <= n
      ensures r[i] == expected[i]
    {
      if i < n - 1 {
        assert Linked(rows, i + 1);
        assert r[i] == Row(Start(w, i), Start(w, i + 1), Level(w, i));
        assert expected[i] == rows[i];
      } else if i == n - 1 {
        assert r[i] == Row(Start(w, i), Start(w, n), Level(w, i));
      } else {
        assert r[i] == Row(Start(w, n), MaxValue, Level(w, n));
      }
    }
  }

  /** The starts and backlights sanitize computes after addRow: the old ones, then one past the last start. */
  lemma AddRowStartLevel(rows: seq<Row>)
    requires WellFormed(rows) && rows[|rows| - 1].luxFrom < MaxValue
    ensures var w := WithNewRow(rows);
      && (forall i :: 0 <= i < |rows| ==> Start(w, i) == rows[i].luxFrom && Level(w, i) == rows[i].backlight)
      && Start(w, |rows|) == rows[|rows| - 1].luxFrom + 1
      && Level(w, |rows|) == rows[|rows| - 1].backlight
  {
    var n := |rows|;
    var w := WithNewRow(rows);
    WellFormedOrdered(rows);
    forall i | 0 <= i < n
      ensures Start(w, i) == rows[i].luxFrom && Level(w, i) == rows[i].backlight
    {
      StartLevelPrefix(rows, w, i);
      StartLevelOrdered(rows, i);
    }
    if n > 1 {
      WellFormedSorted(rows, 0, n - 1);
    }
  }

  /** After addRow on such a list, the curve invariant still holds. */
  lemma AddRowKeepsCurve(rows: seq<Row>)
    requires WellFormed(rows) && rows[|rows| - 1].luxFrom < MaxValue
    ensures WellFormed(Sanitized(WithNewRow(rows)))
  {
    var n := |rows|;
    var r := Sanitized(WithNewRow(rows));
    AddRowExtendsCurve(rows);
    SanitizedShape(WithNewRow(rows));
    forall i | 0 < i <= n
      ensures StartsAbove(r, i)
    {
      if i < n {
        assert StartsAbove(rows, i);
      }
    }
  }

  /** Start and Level of a row depend only on the rows up to it. */
  lemma {:induction false} StartLevelPrefix(rows: seq<Row>, longer: seq<Row>, i: nat)
    requires |rows| <= |longer| && longer[..|rows|] == rows && i < |rows|
    ensures Start(longer, i) == Start(rows, i) && Level(longer, i) == Level(rows, i)
  {
    assert longer[i] == rows[i];
    if i > 0 {
      StartLevelPrefix(rows, longer, i - 1);
    }
  }

  /**
   * updateRow with values that already fit between the neighbouring rows of a
   * well-formed list: sanitize keeps exactly those values, and the invariant.
   */
  lemma UpdateRowWithinNeighbours(rows: seq<Row>, position: nat, newLuxFrom: Int32, newBacklight: Int32)
    requires WellFormed(rows) && position < |rows|
    requires position > 0 ==> rows[position - 1].luxFrom < newLuxFrom && rows[position - 1].backlight <= newBacklight
    requires position + 1 < |rows| ==>
      (if position == 0 then 0 else newLuxFrom) < rows[position + 1].luxFrom && newBacklight <= rows[position + 1].backlight
    ensures var r := Sanitized(Edited(rows, position, newLuxFrom, newBacklight));
      && WellFormed(r)
      && r[position].backlight == newBacklight
      && r[position].luxFrom == (if position == 0 then 0 else newLuxFrom)
      && forall j :: 0 <= j < |rows| && j != position ==> r[j].luxFrom == rows[j].luxFrom && r[j].backlight == rows[j].backlight
  {
    var e := Edited(rows, position, newLuxFrom, newBacklight);
    forall i | 0 < i < |e|
      ensures OrderedAt(e, i)
    {
      if i - 1 != position && i != position {
        assert StartsAbove(rows, i) && LevelAtLeast(rows, i);
      }
    }
    SanitizeOrdered(e);
  }

  // ---------------------------------------------------------------- wrap-around

  /**
   * A start of Integer.MAX_VALUE before the last row: `luxFrom + 1` wraps to
   * Integer.MIN_VALUE, so the next row keeps a smaller start and the result
   * does not keep the invariant.
   */
  lemma SanitizeWrapsAtMaxValue()
    ensures var rows := [Row(0, 5, 10), Row(MaxValue, MaxValue, 20), Row(7, MaxValue, 30)];
      && Sanitized(rows)[1].luxFrom == MaxValue
      && Sanitized(rows)[2].luxFrom == 7
      && !WellFormed(Sanitized(rows))
  {
    var rows := [Row(0, 5, 10), Row(MaxValue, MaxValue, 20), Row(7, MaxValue, 30)];
    assert Start(rows, 1) == MaxValue;
    assert Start(rows, 2) == 7;
    assert !StartsAbove(Sanitized(rows), 2);
  }

  /** addRow after a last row that starts at Integer.MAX_VALUE: the new row starts at 0. */
  lemma AddRowWrapsAtMaxValue()
    ensures var rows := [Row(0, MaxValue, 1), Row(MaxValue, MaxValue, 1)];
      && WellFormed(rows)
      && Sanitized(WithNewRow(rows))[2].luxFrom == 0
      && !WellFormed(Sanitized(WithNewRow(rows)))
  {
    var w := WithNewRow([Row(0, MaxValue, 1), Row(MaxValue, MaxValue, 1)]);
    assert Start(w, 1) == MaxValue;
    assert Start(w, 2) == 0;
    assert !StartsAbove(Sanitized(w), 2);
  }

  // ---------------------------------------------------------------- round trips

  /** initFromSettings then getLuxValues and getBacklightValues give back the two arrays. */
  lemma BuildFlattenRoundTrip(lux: seq<Int32>, values: seq<Int32>)
    requires |lux| >= 1 && |values| == |lux| + 1
    ensures var rows := Built(lux, values);
      && |rows| == |lux| + 1
      && rows[|rows| - 1].luxTo == MaxValue
      && LuxValues(rows) == lux
      && BacklightValues(rows) == values
  {
  }

  /** A well-formed list of two or more rows is rebuilt exactly from its flattened arrays. */
  lemma FlattenBuildRoundTrip(rows: seq<Row>)
    requires WellFormed(rows) && |rows| >= 2
    ensures Built(LuxValues(rows), BacklightValues(rows)) == rows
  {
    var b := Built(LuxValues(rows), BacklightValues(rows));
    forall i | 0 <= i < |rows|
      ensures b[i] == rows[i]
    {
      if i > 0 {
        assert Linked(rows, i);
      }
    }
  }

  // ---------------------------------------------------------------- the adapter

  /**
   * SettingRowAdapter: the rows of the list (without the "add" slot the view
   * shows after them). `isDefault` is the enclosing dialog's mIsDefault, which
   * every sanitize pass clears.
   */
  class SettingRowAdapter {
    var rows: seq<Row>
    var isDefault: bool

    constructor ()
      ensures rows == [] && !isDefault
    {
      rows := [];
      isDefault := false;
    }

    /** initFromSettings(lux, values): replaces the rows by the ones built from the two arrays. */
    method InitFromSettings(lux: seq<Int32>, values: seq<Int32>)
      requires |lux| >= 1 && |values| >= |lux|
      modifies this
      ensures rows == Built(lux, values) && isDefault == old(isDefault)
    {
      var settings: seq<Row> := [];
      for i := 0 to |lux|
        invariant |settings| == i
        invariant forall j :: 0 <= j < i ==> settings[j] == Built(lux, values)[j]
      {
        settings := settings + [Row(if i == 0 then 0 else lux[i - 1], lux[i], values[i])];
      }
      settings := settings + [Row(lux[|lux| - 1], MaxValue, values[|values| - 1])];
      rows := settings;
    }

    /** getLuxValues(): the upper bound of every row but the last, in order. */
    method GetLuxValues() returns (lux: seq<Int32>)
      requires |rows| >= 1
      ensures |lux| == |rows| - 1 && forall i :: 0 <= i < |lux| ==> lux[i] == rows[i].luxTo
      ensures lux == LuxValues(rows)
    {
      var count := |rows|;
      var a := new Int32[count - 1];
      for i := 0 to count - 1
        invariant forall j :: 0 <= j < i ==> a[j] == rows[j].luxTo
      {
        a[i] := rows[i].luxTo;
      }
      lux := a[..];
    }

    /** getBacklightValues(): the backlight of every row, in order. */
    method GetBacklightValues() returns (values: seq<Int32>)
      ensures |values| == |rows| && forall i :: 0 <= i < |values| ==> values[i] == rows[i].backlight
      ensures values == BacklightValues(rows)
    {
      var count := |rows|;
      var a := new Int32[count];
      for i := 0 to count
        invariant forall j :: 0 <= j < i ==> a[j] == rows[j].backlight
      {
        a[i] := rows[i].backlight;
      }
      values := a[..];
    }

    /** addRow(): appends a row with the last row's backlight, then sanitizes. */
    method AddRow()
      requires |rows| >= 1
      modifies this
      ensures rows == Sanitized(WithNewRow(old(rows))) && !isDefault
    {
      var lastRow := rows[|rows| - 1];
      var newRow := Row(0, 0, lastRow.backlight);
      rows := rows + [newRow];
      SanitizeValuesAndNotify();
    }

    /** removeRow(position): nothing when one row or none is left; otherwise deletes that row and sanitizes. */
    method RemoveRow(position: nat)
      requires |rows| <= 1 || position < |rows|
      modifies this
      ensures old(|rows|) <= 1 ==> rows == old(rows) && isDefault == old(isDefault)
      ensures old(|rows|) > 1 ==> rows == Sanitized(Deleted(old(rows), position)) && !isDefault
    {
      if |rows| <= 1 {
        return;
      }
      rows := rows[..position] + rows[position + 1..];
      SanitizeValuesAndNotify();
    }

    /** updateRow(position, newLuxFrom, newBacklight): nothing when the guard says so; otherwise writes and sanitizes. */
    method UpdateRow(position: nat, newLuxFrom: Int32, newBacklight: Int32)
      requires position < |rows|
      modifies this
      ensures IsNoOpEdit(old(rows), position, newLuxFrom, newBacklight) ==>
        rows == old(rows) && isDefault == old(isDefault)
      ensures !IsNoOpEdit(old(rows), position, newLuxFrom, newBacklight) ==>
        rows == Sanitized(Edited(old(rows), position, newLuxFrom, newBacklight)) && !isDefault
    {
      var row := rows[position];
      if row.backlight == newBacklight && (position == 0 || row.luxFrom == newLuxFrom) {
        return;
      }
      row := row.(backlight := newBacklight);
      if position != 0 {
        row := row.(luxFrom := newLuxFrom);
      }
      rows := rows[position := row];
      SanitizeValuesAndNotify();
    }

    /** sanitizeValuesAndNotify(): the left-to-right pass that restores the curve invariant, and clears isDefault. */
    method SanitizeValuesAndNotify()
      requires |rows| >= 1
      modifies this
      ensures rows == Sanitized(old(rows)) && !isDefault
    {
      ghost var original := rows;
      var count := |rows|;
      rows := rows[0 := rows[0].(luxFrom := 0)];
      for i := 1 to count
        invariant |rows| == count
        invariant forall j :: 0 <= j < i - 1 ==> rows[j] == Row(Start(original, j), Start(original, j + 1), Level(original, j))
        invariant rows[i - 1].luxFrom == Start(original, i - 1) && rows[i - 1].backlight == Level(original, i - 1)
        invariant forall j :: i <= j < count ==> rows[j] == original[j]
      {
        var lastRow := rows[i - 1];
        var thisRow := rows[i];
        thisRow := thisRow.(luxFrom := Max(Add(lastRow.luxFrom, 1), thisRow.luxFrom));
        thisRow := thisRow.(backlight := Max(lastRow.backlight, thisRow.backlight));
        assert thisRow.luxFrom == Start(original, i) && thisRow.backlight == Level(original, i);
        lastRow := lastRow.(luxTo := thisRow.luxFrom);
        rows := rows[i := thisRow][i - 1 := lastRow];
      }
      rows := rows[count - 1 := rows[count - 1].(luxTo := MaxValue)];
      SanitizedFromRows(original, rows);
      isDefault := false;
    }
  }
}
