/**
 * The parts of AutoBrightnessCustomizeDialog that connect the row list to the
 * system settings: choosing between the stored curve and the device default
 * (updateSettings), saving the edited curve or clearing it (putSettings), and
 * the arithmetic between a row's backlight and the row dialog's slider.
 */
module CustomizeDialog {
  import opened Wrappers
  import opened JavaInt
  import opened SettingsText
  import opened SettingRows

  /** Settings.System.AUTO_BRIGHTNESS_LUX: the stored lux thresholds. */
  const LuxKey: string := "auto_brightness_lux"
  /** Settings.System.AUTO_BRIGHTNESS_BACKLIGHT: the stored backlight values. */
  const BacklightKey: string := "auto_brightness_backlight"

  /** A curve as two parallel int arrays: the lux thresholds and the backlight values. */
  datatype Curve = Curve(lux: seq<Int32>, values: seq<Int32>)

  /** The curve updateSettings hands to initFromSettings, and the value it gives mIsDefault. */
  datatype Selection = Selection(curve: Curve, isDefault: bool)

  /** What initFromSettings needs of its arrays so as not to index out of bounds. */
  predicate Buildable(c: Curve)
  {
    |c.lux| >= 1 && |c.values| >= |c.lux|
  }

  // ---------------------------------------------------------------- updateSettings

  /**
   * The selection rule of updateSettings for the arrays read from the settings:
   * the stored ones exactly when both were read and there is one more value
   * than thresholds; otherwise the defaults, with mIsDefault set.
   */
  function SelectCurve(lux: Option<seq<Int32>>, values: Option<seq<Int32>>, defaults: Curve): (s: Selection)
    ensures !s.isDefault <==> lux.Some? && values.Some? && |lux.value| == |values.value| - 1
    ensures s.isDefault ==> s.curve == defaults
    ensures !s.isDefault ==> s.curve == Curve(lux.value, values.value)
  {
    var values' := if lux.Some? && values.Some? && |lux.value| != |values.value| - 1 then None else values;
    if lux.None? || values'.None? then Selection(defaults, true)
    else Selection(Curve(lux.value, values'.value), false)
  }

  /** What updateSettings(forceDefault) selects from the settings store: with forceDefault set, nothing is read. */
  function Loaded(store: Store, forceDefault: bool, defaults: Curve): Selection
  {
    if forceDefault then SelectCurve(None, None, defaults)
    else SelectCurve(ParseItems(Lookup(store, LuxKey)), ParseItems(Lookup(store, BacklightKey)), defaults)
  }

  /**
   * The selection can always be built when the defaults can be built or are not
   * needed: a stored selection has one threshold or more and one value more
   * than thresholds.
   */
  lemma LoadedIsBuildable(store: Store, forceDefault: bool, defaults: Curve)
    requires Loaded(store, forceDefault, defaults).isDefault ==> Buildable(defaults)
    ensures Buildable(Loaded(store, forceDefault, defaults).curve)
    ensures !Loaded(store, forceDefault, defaults).isDefault ==>
      |Loaded(store, forceDefault, defaults).curve.values| == |Loaded(store, forceDefault, defaults).curve.lux| + 1
  {
  }

  /** updateSettings(forceDefault): reads both keys unless forced, chooses the curve, sets mIsDefault, rebuilds the rows. */
  method UpdateSettings(adapter: SettingRowAdapter, store: Store, defaults: Curve, forceDefault: bool)
    requires Loaded(store, forceDefault, defaults).isDefault ==> Buildable(defaults)
    modifies adapter
    ensures var s := Loaded(store, forceDefault, defaults);
      adapter.rows == Built(s.curve.lux, s.curve.values) && adapter.isDefault == s.isDefault
  {
    var lux: Option<seq<Int32>> := None;
    var values: Option<seq<Int32>> := None;
    if !forceDefault {
      lux := FetchItems(store, LuxKey);
      values := FetchItems(store, BacklightKey);
    }
    if lux.Some? && values.Some? && |lux.value| != |values.value| - 1 {
      values := None;
    }
    var chosen: Curve;
    if lux.None? || values.None? {
      chosen := defaults;
      adapter.isDefault := true;
    } else {
      chosen := Curve(lux.value, values.value);
      adapter.isDefault := false;
    }
    adapter.InitFromSettings(chosen.lux, chosen.values);
  }

  // ---------------------------------------------------------------- putSettings

  /** The settings after putSettings: both keys cleared while the default curve is shown, else both arrays written. */
  function SavedStore(store: Store, rows: seq<Row>, isDefault: bool): Store
    requires isDefault || |rows| >= 1
  {
    if isDefault then store[LuxKey := None][BacklightKey := None]
    else store[LuxKey := Some(JoinItems(LuxValues(rows)))][BacklightKey := Some(JoinItems(BacklightValues(rows)))]
  }

  /** putSettings(): writes the flattened rows, or `null` to both keys when mIsDefault holds. */
  method PutSettings(adapter: SettingRowAdapter, store: Store) returns (saved: Store)
    requires adapter.isDefault || |adapter.rows| >= 1
    ensures saved == SavedStore(store, adapter.rows, adapter.isDefault)
  {
    var lux: Option<seq<Int32>> := None;
    var values: Option<seq<Int32>> := None;
    if !adapter.isDefault {
      var l := adapter.GetLuxValues();
      var v := adapter.GetBacklightValues();
      lux, values := Some(l), Some(v);
    }
    saved := PutItems(store, LuxKey, lux);
    saved := PutItems(saved, BacklightKey, values);
  }

  // ---------------------------------------------------------------- save then load

  /**
   * A well-formed curve of two rows or more that is saved (not as the default)
   * is what the next updateSettings loads: the stored arrays are chosen and
   * rebuild exactly the same rows.
   */
  lemma SaveThenLoadRestoresCurve(rows: seq<Row>, store: Store, defaults: Curve)
    requires WellFormed(rows) && |rows| >= 2
    ensures var s := Loaded(SavedStore(store, rows, false), false, defaults);
      && s == Selection(Curve(LuxValues(rows), BacklightValues(rows)), false)
      && Built(s.curve.lux, s.curve.values) == rows
  {
    var saved := SavedStore(store, rows, false);
    assert LuxKey != BacklightKey by { assert LuxKey[16] != BacklightKey[16]; }
    assert Lookup(saved, LuxKey) == Some(JoinItems(LuxValues(rows)));
    assert Lookup(saved, BacklightKey) == Some(JoinItems(BacklightValues(rows)));
    ParseItemsJoinItems(LuxValues(rows));
    ParseItemsJoinItems(BacklightValues(rows));
    FlattenBuildRoundTrip(rows);
  }

  /** Saving while the default curve is shown clears both keys, so the next load gives the defaults again. */
  lemma SaveDefaultThenLoadGivesDefault(rows: seq<Row>, store: Store, defaults: Curve)
    ensures var saved := SavedStore(store, rows, true);
      && Lookup(saved, LuxKey) == None && Lookup(saved, BacklightKey) == None
      && Loaded(saved, false, defaults) == Selection(defaults, true)
  {
  }

  /**
   * A curve of a single row does not survive a save: its lux array is empty,
   * is written as "", and reads back as `null`, so the next load falls back to
   * the defaults.
   */
  lemma SingleRowCurveIsNotRestored(row: Row, store: Store, defaults: Curve)
    ensures var saved := SavedStore(store, [row], false);
      && Lookup(saved, LuxKey) == Some("")
      && Loaded(saved, false, defaults) == Selection(defaults, true)
  {
    var saved := SavedStore(store, [row], false);
    assert LuxKey != BacklightKey by { assert LuxKey[16] != BacklightKey[16]; }
    assert LuxValues([row]) == [];
    EmptyArrayReadsBackAsNull();
  }

  // ---------------------------------------------------------------- the row dialog

  /** The slider position showSettings sets for a backlight: setProgress(row.backlight * 100). */
  function ProgressOf(backlight: Int32): Int32
  {
    Mul(backlight, 100)
  }

  /** The backlight the row dialog reads back from a slider position: (progress + 50) / 100. */
  function BacklightOf(progress: Int32): Int32
    requires progress >= 0
  {
    DivByPositive(Add(progress, 50), 100)
  }

  /** The largest backlight whose slider position and rounding stay clear of int overflow. */
  const MaxSliderBacklight: int := (MaxValue - 50) / 100

  /** Every backlight from 0 up survives the trip to the slider and back. */
  lemma SliderRoundTrip(backlight: Int32)
    requires 0 <= backlight <= MaxSliderBacklight
    ensures ProgressOf(backlight) >= 0 && BacklightOf(ProgressOf(backlight)) == backlight
  {
    assert ProgressOf(backlight) == backlight * 100;
    assert Add(backlight * 100, 50) == backlight * 100 + 50;
  }

  /**
   * Confirming the row dialog without touching it is a no-op: the lux text
   * shows String.valueOf(luxFrom), which Integer.valueOf reads back, and the
   * slider gives back the backlight, so updateRow's guard holds.
   */
  lemma UntouchedRowDialogIsNoOp(rows: seq<Row>, position: nat)
    requires position < |rows| && 0 <= rows[position].backlight <= MaxSliderBacklight
    ensures ParseInt(IntToString(rows[position].luxFrom)) == Some(rows[position].luxFrom)
    ensures IsNoOpEdit(rows, position, rows[position].luxFrom, BacklightOf(ProgressOf(rows[position].backlight)))
  {
    ParseIntToString(rows[position].luxFrom);
    SliderRoundTrip(rows[position].backlight);
  }

  /**
   * The row dialog takes any int as a start: typing Integer.MAX_VALUE as the
   * start of the middle row of a stored three-row curve is an edit, and
   * sanitizing then pushes the middle row past the end while the last row keeps
   * its start, so the rows are out of order.
   */
  lemma TypedMaxLuxBreaksCurve()
    ensures var rows := Built([100, 1000], [10, 20, 30]);
      && WellFormed(rows)
      && ParseInt(IntToString(MaxValue)) == Some(MaxValue)
      && !IsNoOpEdit(rows, 1, MaxValue, 20)
      && var e := Sanitized(Edited(rows, 1, MaxValue, 20));
        e[1].luxFrom == MaxValue && e[2].luxFrom == 1000 && !WellFormed(e)
  {
    var rows := Built([100, 1000], [10, 20, 30]);
    assert rows == [Row(0, 100, 10), Row(100, 1000, 20), Row(1000, MaxValue, 30)];
    ParseIntToString(MaxValue);
    var edited := Edited(rows, 1, MaxValue, 20);
    assert edited == [Row(0, 100, 10), Row(MaxValue, 1000, 20), Row(1000, MaxValue, 30)];
    assert Start(edited, 1) == MaxValue;
    assert Start(edited, 2) == 1000;
    assert !StartsAbove(Sanitized(edited), 2);
  }

  /**
   * The row dialog's OK button: the lux text is read with Integer.valueOf and,
   * when it is an int, the row is updated with it and the slider's backlight;
   * text that is not an int changes nothing.
   */
  method ConfirmRowEdit(adapter: SettingRowAdapter, position: nat, luxText: string, progress: Int32)
    requires position < |adapter.rows| && progress >= 0
    modifies adapter
    ensures ParseInt(luxText).None? ==> adapter.rows == old(adapter.rows) && adapter.isDefault == old(adapter.isDefault)
    ensures ParseInt(luxText).Some? ==>
      var newLux, newBacklight := ParseInt(luxText).value, BacklightOf(progress);
      if IsNoOpEdit(old(adapter.rows), position, newLux, newBacklight) then
        adapter.rows == old(adapter.rows) && adapter.isDefault == old(adapter.isDefault)
      else
        adapter.rows == Sanitized(Edited(old(adapter.rows), position, newLux, newBacklight)) && !adapter.isDefault
  {
    var newLux := ParseInt(luxText);
    if newLux.None? {
      return;
    }
    var newBacklight := BacklightOf(progress);
    adapter.UpdateRow(position, newLux.value, newBacklight);
  }
}
