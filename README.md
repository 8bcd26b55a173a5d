# Auto-brightness curve editor — a Dafny model

This project models the editor for the automatic screen-brightness curve in the
CyanogenMod Settings app (`AutoBrightnessCustomizeDialog`). The curve is a list
of rows. Each row maps an ambient light range `[luxFrom, luxTo)` to a backlight
level, and the last row ends at `Integer.MAX_VALUE`, which means "no upper
bound". The system settings store the curve as two comma-joined int lists: the
lux thresholds under `auto_brightness_lux`, and one more backlight value than
thresholds under `auto_brightness_backlight`.

The model has five parts:

- `wrappers.dfy` (module `Wrappers`) holds the `Option` type, which stands for a
  Java reference that may be `null`.
- `java_int.dfy` (module `JavaInt`) holds Java's 32-bit `int`. `Add` and `Mul`
  wrap around, the division truncates toward zero, and `Math.max` is `Max`.
- `settings_text.dfy` (module `SettingsText`) holds the settings text format and
  `fetchItems`/`putItems`:
  - `Integer.toString` and `Integer.valueOf` in radix 10;
  - `String.split(",")`, which drops trailing empty strings;
  - the settings table as a `map` from key to nullable string.
- `setting_rows.dfy` (module `SettingRows`) holds the `SettingRow` value and the
  functions that specify the list operations: build, flatten, add, delete, edit
  and sanitize. They come with lemmas about the curve invariant `WellFormed`.
  The class `SettingRowAdapter` holds the rows in a `seq` field and performs the
  adapter's operations in place.
- `customize_dialog.dfy` (module `CustomizeDialog`) holds the dialog-level logic:
  - which curve `updateSettings` loads, and what `putSettings` writes;
  - the save-then-load round trip;
  - the slider arithmetic of the per-row dialog.

The Java code keeps `mIsDefault` on the dialog, but `sanitizeValuesAndNotify`
in the inner adapter class writes it. The model therefore keeps it as the field
`isDefault` of `SettingRowAdapter`. The platform's settings provider and the
device's default curve (the `config_autoBrightnessLevels` and
`config_autoBrightnessLcdBacklightValues` resources) are parameters: a `Store`
value and a `Curve` value.

Java `int` arithmetic is modelled exactly. The sanitize step `lastRow.luxFrom + 1`
wraps at `Integer.MAX_VALUE`, so the curve invariant after a sanitize has a
precondition. `SettingRows.Headroom` states it: every start leaves room below
`Integer.MAX_VALUE` for the rows after it. The lemmas `SanitizeWrapsAtMaxValue`
and `AddRowWrapsAtMaxValue` show concrete lists for which the wrap breaks the
ordering. The wrap can be reached from user input: the row dialog's lux field
takes any int (`AutoBrightnessCustomizeDialog.java`, line 170).
`TypedMaxLuxBreaksCurve` shows that typing `2147483647` as the start of the
middle row of a stored three-row curve leaves the last row starting below it. `UpdateRowKeepsCurve` states how much room an
edited start must leave for the curve to stay ordered.

`initFromSettings` is modelled on what the code indexes, not on the one-more-value
shape that the saved format implies. It needs at least one lux threshold,
because `lux[lux.length - 1]` throws otherwise. It needs at least as many values
as thresholds, and it takes the last row's backlight from the last value. An
empty threshold array is therefore outside its precondition, and `Built` gives
no result for it. Only the device defaults can reach that call unchecked, so
`UpdateSettings` requires that the defaults can be built whenever the selection
falls back to them. A stored selection needs nothing of the defaults.

A curve edited down to a single row does not survive a save. `putSettings` writes
its empty lux array as `""`, `fetchItems` reads `""` back as `null`, and the next
time the dialog opens it shows the device defaults
(`SingleRowCurveIsNotRestored`).

## Model

| member | source | states |
|---|---|---|
| JavaInt.Wrap | src/com/android/settings/cyanogenmod/AutoBrightnessCustomizeDialog.java:224 | the 32-bit result of an int expression: equal to the exact value when that fits, and congruent to it modulo 2^32 |
| JavaInt.Add | src/com/android/settings/cyanogenmod/AutoBrightnessCustomizeDialog.java:368 | int addition keeps the low 32 bits of the exact sum: it is the exact sum when that fits, and always differs from it by a multiple of 2^32 |
| JavaInt.AddIsWrappedSum | src/com/android/settings/cyanogenmod/AutoBrightnessCustomizeDialog.java:368 | int addition is the exact sum reduced by `Wrap` |
| JavaInt.Mul | src/com/android/settings/cyanogenmod/AutoBrightnessCustomizeDialog.java:224 | int multiplication gives the exact product whenever the product fits |
| JavaInt.DivByPositive | src/com/android/settings/cyanogenmod/AutoBrightnessCustomizeDialog.java:171 | int division by a positive divisor rounds toward zero: the quotient lies between 0 and the dividend, and the dividend lies within one divisor of quotient × divisor, above it for a non-negative dividend and below it for a negative one |
| JavaInt.DivTruncatesNegative | src/com/android/settings/cyanogenmod/AutoBrightnessCustomizeDialog.java:171 | Java's `-7 / 2` is -3, where the Euclidean quotient is -4 |
| JavaInt.Max | src/com/android/settings/cyanogenmod/AutoBrightnessCustomizeDialog.java:368-369 | `Math.max`: at least both arguments and equal to one of them |
| SettingsText.DigitChar | src/com/android/settings/cyanogenmod/AutoBrightnessCustomizeDialog.java:273 | the character written for a decimal digit is an ASCII digit that reads back as that digit |
| SettingsText.NatToString | src/com/android/settings/cyanogenmod/AutoBrightnessCustomizeDialog.java:273 | a non-negative int is written as one or more ASCII digits |
| SettingsText.IntToString | src/com/android/settings/cyanogenmod/AutoBrightnessCustomizeDialog.java:273 | `StringBuilder.append(int)` writes a non-empty text without a comma |
| SettingsText.ParseInt | src/com/android/settings/cyanogenmod/AutoBrightnessCustomizeDialog.java:251 | `Integer.valueOf` accepts only a non-empty text without a comma; every other text is a `NumberFormatException`, modelled as `None` |
| SettingsText.DigitsValueOfNatToString | src/com/android/settings/cyanogenmod/AutoBrightnessCustomizeDialog.java:251 | the digits written for a number read back as that number |
| SettingsText.ParseIntToString | src/com/android/settings/cyanogenmod/AutoBrightnessCustomizeDialog.java:251 | `Integer.valueOf(Integer.toString(x)) == x` for every int, negatives and `Integer.MIN_VALUE` included |
| SettingsText.Fields | src/com/android/settings/cyanogenmod/AutoBrightnessCustomizeDialog.java:244 | a text always has one field or more, empty fields included |
| SettingsText.FieldsOfCommaFree | src/com/android/settings/cyanogenmod/AutoBrightnessCustomizeDialog.java:244 | a text without a comma is a single field, itself |
| SettingsText.FieldsAfterComma | src/com/android/settings/cyanogenmod/AutoBrightnessCustomizeDialog.java:244 | the fields of `a + "," + b`, for a comma-free `a`, are `a` followed by the fields of `b` |
| SettingsText.DropTrailingEmpty | src/com/android/settings/cyanogenmod/AutoBrightnessCustomizeDialog.java:244 | `String.split` drops trailing empty strings: the result is a prefix whose last piece is non-empty, and everything dropped is empty |
| SettingsText.JoinFields | src/com/android/settings/cyanogenmod/AutoBrightnessCustomizeDialog.java:244 | joining the comma-separated pieces of a text with "," gives back the text |
| SettingsText.JoinWithPrefix | src/com/android/settings/cyanogenmod/AutoBrightnessCustomizeDialog.java:244 | putting text in front of the first piece puts it in front of the joined text |
| SettingsText.FieldsJoin | src/com/android/settings/cyanogenmod/AutoBrightnessCustomizeDialog.java:244 | splitting a join of comma-free pieces gives back the pieces |
| SettingsText.SplitJoin | src/com/android/settings/cyanogenmod/AutoBrightnessCustomizeDialog.java:244 | `split(",")` of the join of non-empty comma-free tokens gives back exactly those tokens |
| SettingsText.ParseAll | src/com/android/settings/cyanogenmod/AutoBrightnessCustomizeDialog.java:249-258 | the token loop succeeds iff every token is an int, and then element k is token k's value |
| SettingsText.ParseItems | src/com/android/settings/cyanogenmod/AutoBrightnessCustomizeDialog.java:241-263 | what fetchItems returns is never an empty array: `null` text and text with no tokens both give `null` |
| SettingsText.FetchItems | src/com/android/settings/cyanogenmod/AutoBrightnessCustomizeDialog.java:241-263 | the parse loop, with its break at the first bad token, returns exactly `ParseItems` of the stored text |
| SettingsText.PutItems | src/com/android/settings/cyanogenmod/AutoBrightnessCustomizeDialog.java:265-278 | the builder loop writes the array joined with "," under the key, or `null` for a `null` array, and changes no other key |
| SettingsText.JoinStringsSnoc | src/com/android/settings/cyanogenmod/AutoBrightnessCustomizeDialog.java:270-273 | appending "," and one more token extends the join by one piece |
| SettingsText.JoinItemsSnoc | src/com/android/settings/cyanogenmod/AutoBrightnessCustomizeDialog.java:270-273 | appending "," and one more int extends the written text by that int |
| SettingsText.JoinItemsStep | src/com/android/settings/cyanogenmod/AutoBrightnessCustomizeDialog.java:269-274 | one turn of putItems' loop: the text for the first i + 1 ints is the text for the first i, a "," unless i is 0, then int i |
| SettingsText.ParseItemsJoinItems | src/com/android/settings/cyanogenmod/AutoBrightnessCustomizeDialog.java:241-278 | reading back what putItems wrote for a non-empty array gives that array |
| SettingsText.EmptyArrayReadsBackAsNull | src/com/android/settings/cyanogenmod/AutoBrightnessCustomizeDialog.java:244-245 | an empty array is written as "" and reads back as `null` |
| SettingsText.BadTokenGivesNull | src/com/android/settings/cyanogenmod/AutoBrightnessCustomizeDialog.java:250-258 | one token that is not an int makes fetchItems return `null` |
| SettingsText.InnerEmptyTokenExample | src/com/android/settings/cyanogenmod/AutoBrightnessCustomizeDialog.java:244-258 | "1,,2" reads as `null`, because its middle token is empty |
| SettingsText.InnerEmptyTokenFields | src/com/android/settings/cyanogenmod/AutoBrightnessCustomizeDialog.java:244 | the fields of "1,,2" are "1", "" and "2" |
| SettingsText.TrailingCommaExample | src/com/android/settings/cyanogenmod/AutoBrightnessCustomizeDialog.java:244-258 | "10,-3," reads as [10, -3], because `split` drops the trailing empty token |
| SettingsText.TrailingCommaSplit | src/com/android/settings/cyanogenmod/AutoBrightnessCustomizeDialog.java:244 | `"10,-3,".split(",")` is ["10", "-3"] |
| SettingsText.TrailingCommaFields | src/com/android/settings/cyanogenmod/AutoBrightnessCustomizeDialog.java:244 | the fields of "10,-3," are "10", "-3" and "" |
| SettingsText.MinusThreeCommaFields | src/com/android/settings/cyanogenmod/AutoBrightnessCustomizeDialog.java:244 | the fields of "-3," are "-3" and "" |
| SettingsText.TenAndMinusThreeParse | src/com/android/settings/cyanogenmod/AutoBrightnessCustomizeDialog.java:249-258 | the tokens "10" and "-3" parse as 10 and -3 |
| SettingsText.LoneCommaExample | src/com/android/settings/cyanogenmod/AutoBrightnessCustomizeDialog.java:244-245 | "," splits into no tokens and reads as `null` |
| SettingRows.Sanitized | src/com/android/settings/cyanogenmod/AutoBrightnessCustomizeDialog.java:360-372 | a sanitize pass keeps the row count |
| SettingRows.SanitizedShape | src/com/android/settings/cyanogenmod/AutoBrightnessCustomizeDialog.java:360-372 | after a sanitize the first row starts at 0 and the last ends at `MAX_VALUE`; each row ends where the next begins and starts at least one past the previous start (int arithmetic); backlight never decreases; starts and backlights only move up |
| SettingRows.SanitizedFromRows | src/com/android/settings/cyanogenmod/AutoBrightnessCustomizeDialog.java:360-372 | a list holding at every row the start, end and backlight the pass computes is the sanitized list |
| SettingRows.StartBounded | src/com/android/settings/cyanogenmod/AutoBrightnessCustomizeDialog.java:368 | with headroom, the pushed-up start of row i stays below `MAX_VALUE` by the number of rows after it |
| SettingRows.SanitizedWellFormed | src/com/android/settings/cyanogenmod/AutoBrightnessCustomizeDialog.java:360-372 | with headroom, a sanitize pass on any non-empty list gives a well-formed curve |
| SettingRows.StartLevelBelow | src/com/android/settings/cyanogenmod/AutoBrightnessCustomizeDialog.java:368-369 | each sanitized start and backlight is at most that of any well-formed list lying above the input |
| SettingRows.SanitizedIsLeast | src/com/android/settings/cyanogenmod/AutoBrightnessCustomizeDialog.java:360-372 | sanitize raises values as little as possible: it lies below every well-formed curve that lies above the input |
| SettingRows.StartLevelOrdered | src/com/android/settings/cyanogenmod/AutoBrightnessCustomizeDialog.java:368-369 | on a list that is already ordered, sanitize keeps every start (except the pinned first) and every backlight |
| SettingRows.SanitizeOrdered | src/com/android/settings/cyanogenmod/AutoBrightnessCustomizeDialog.java:360-372 | on an ordered list, sanitize only pins the first start to 0 and relinks the ends, and the result is well-formed |
| SettingRows.RelinkedWellFormed | src/com/android/settings/cyanogenmod/AutoBrightnessCustomizeDialog.java:363-372 | relinking the ends of an ordered list gives a well-formed curve |
| SettingRows.WellFormedOrdered | src/com/android/settings/cyanogenmod/AutoBrightnessCustomizeDialog.java:360-372 | a well-formed curve is ordered, and relinking leaves it unchanged |
| SettingRows.SanitizeIdempotent | src/com/android/settings/cyanogenmod/AutoBrightnessCustomizeDialog.java:360-372 | sanitize leaves a well-formed curve unchanged, so a second pass changes nothing |
| SettingRows.WellFormedSorted | src/com/android/settings/cyanogenmod/AutoBrightnessCustomizeDialog.java:360-372 | in a well-formed curve, starts strictly increase and are non-negative, and backlight never decreases, between any two rows |
| SettingRows.Deleted | src/com/android/settings/cyanogenmod/AutoBrightnessCustomizeDialog.java:341 | removing a row leaves one row fewer: the rows before it keep their places, the rows after it move down by one |
| SettingRows.WithNewRow | src/com/android/settings/cyanogenmod/AutoBrightnessCustomizeDialog.java:330-332 | addRow appends `SettingRow(0, 0, last backlight)` and keeps the existing rows |
| SettingRows.NoOpEditChangesNothing | src/com/android/settings/cyanogenmod/AutoBrightnessCustomizeDialog.java:348-355 | updateRow's early-return guard holds exactly when the edit would leave the rows unchanged, and an edit of row 0 keeps row 0's start |
| SettingRows.RemoveRowKeepsCurve | src/com/android/settings/cyanogenmod/AutoBrightnessCustomizeDialog.java:336-343 | removing any row from a well-formed curve of two rows or more, then sanitizing, only pins the first start to 0 and relinks the ends, and the result is well-formed |
| SettingRows.AddRowExtendsCurve | src/com/android/settings/cyanogenmod/AutoBrightnessCustomizeDialog.java:329-334 | addRow on a well-formed curve whose last start is below `MAX_VALUE` keeps every row but the last. The old last row now ends at its start + 1, and a new row starts there with the last backlight and is unbounded |
| SettingRows.AddRowStartLevel | src/com/android/settings/cyanogenmod/AutoBrightnessCustomizeDialog.java:329-334 | after the new row is appended to a well-formed curve whose last start is below `MAX_VALUE`, sanitize keeps every old start and backlight, and gives the new row the last start + 1 and the last backlight |
| SettingRows.AddRowKeepsCurve | src/com/android/settings/cyanogenmod/AutoBrightnessCustomizeDialog.java:329-334 | addRow on a well-formed curve whose last start is below `MAX_VALUE` gives a well-formed curve; `AddRowWrapsAtMaxValue` shows the condition is needed |
| SettingRows.StartLevelPrefix | src/com/android/settings/cyanogenmod/AutoBrightnessCustomizeDialog.java:364-369 | the sanitize loop only looks backwards: rows of a prefix get the same start and backlight |
| SettingRows.UpdateRowWithinNeighbours | src/com/android/settings/cyanogenmod/AutoBrightnessCustomizeDialog.java:345-358 | an edit that fits between the neighbouring rows is kept exactly; row 0 stays at 0, every other row keeps its values, and the curve stays well-formed |
| SettingRows.WellFormedRoom | src/com/android/settings/cyanogenmod/AutoBrightnessCustomizeDialog.java:360-372 | in a well-formed curve, row i starts at most `MAX_VALUE` minus the number of rows after it |
| SettingRows.UpdateRowKeepsCurve | src/com/android/settings/cyanogenmod/AutoBrightnessCustomizeDialog.java:345-358 | updateRow on a well-formed curve, with any backlight and a start that leaves room below `MAX_VALUE` for the rows after it, gives a well-formed curve |
| SettingRows.SanitizeWrapsAtMaxValue | src/com/android/settings/cyanogenmod/AutoBrightnessCustomizeDialog.java:368 | a row starting at `MAX_VALUE` makes the next start wrap: that row keeps its own smaller start, and the result is not well-formed |
| SettingRows.AddRowWrapsAtMaxValue | src/com/android/settings/cyanogenmod/AutoBrightnessCustomizeDialog.java:329-334 | addRow after a last row starting at `MAX_VALUE` gives a new row starting at 0, and the result is not well-formed |
| SettingRows.BuildFlattenRoundTrip | src/com/android/settings/cyanogenmod/AutoBrightnessCustomizeDialog.java:296-327 | getLuxValues and getBacklightValues after initFromSettings give back both arrays (when there is one value more than thresholds); the last row is unbounded |
| SettingRows.FlattenBuildRoundTrip | src/com/android/settings/cyanogenmod/AutoBrightnessCustomizeDialog.java:296-327 | initFromSettings on the flattened arrays of a well-formed curve of two rows or more rebuilds exactly that curve |
| SettingRows.SettingRowAdapter.constructor | src/com/android/settings/cyanogenmod/AutoBrightnessCustomizeDialog.java:283-286 | a new adapter holds no rows and is not marked default |
| SettingRows.SettingRowAdapter.InitFromSettings | src/com/android/settings/cyanogenmod/AutoBrightnessCustomizeDialog.java:296-306 | the rows become the list built from the two arrays, and mIsDefault is untouched |
| SettingRows.SettingRowAdapter.GetLuxValues | src/com/android/settings/cyanogenmod/AutoBrightnessCustomizeDialog.java:308-317 | an array of count - 1 elements, element i being row i's luxTo |
| SettingRows.SettingRowAdapter.GetBacklightValues | src/com/android/settings/cyanogenmod/AutoBrightnessCustomizeDialog.java:319-327 | an array of count elements, element i being row i's backlight |
| SettingRows.SettingRowAdapter.AddRow | src/com/android/settings/cyanogenmod/AutoBrightnessCustomizeDialog.java:329-334 | the rows become the sanitized list with the new row appended; mIsDefault is cleared |
| SettingRows.SettingRowAdapter.RemoveRow | src/com/android/settings/cyanogenmod/AutoBrightnessCustomizeDialog.java:336-343 | with one row or fewer, nothing changes; otherwise the row at `position` is deleted, the rest is sanitized, and mIsDefault is cleared |
| SettingRows.SettingRowAdapter.UpdateRow | src/com/android/settings/cyanogenmod/AutoBrightnessCustomizeDialog.java:345-358 | when the guard holds, nothing changes; otherwise the backlight is set (and luxFrom too, unless it is row 0), the list is sanitized, and mIsDefault is cleared |
| SettingRows.SettingRowAdapter.SanitizeValuesAndNotify | src/com/android/settings/cyanogenmod/AutoBrightnessCustomizeDialog.java:360-376 | the in-place loop leaves exactly the sanitized list and clears mIsDefault |
| CustomizeDialog.SelectCurve | src/com/android/settings/cyanogenmod/AutoBrightnessCustomizeDialog.java:138-150 | the stored arrays are used iff both were read and there is exactly one value more than thresholds; otherwise the defaults are used and mIsDefault is set |
| CustomizeDialog.LoadedIsBuildable | src/com/android/settings/cyanogenmod/AutoBrightnessCustomizeDialog.java:130-152 | whatever updateSettings selects can be handed to initFromSettings, and a stored selection has one value more than thresholds |
| CustomizeDialog.UpdateSettings | src/com/android/settings/cyanogenmod/AutoBrightnessCustomizeDialog.java:130-153 | reads both keys unless forced to the defaults, then sets mIsDefault and the rows to the selected curve's rows; the defaults must be buildable only when they are selected |
| CustomizeDialog.PutSettings | src/com/android/settings/cyanogenmod/AutoBrightnessCustomizeDialog.java:229-239 | a default curve writes `null` to both keys; otherwise the flattened lux and backlight arrays are written |
| CustomizeDialog.SaveThenLoadRestoresCurve | src/com/android/settings/cyanogenmod/AutoBrightnessCustomizeDialog.java:130-153 | a well-formed curve of two rows or more, once saved, is loaded back as a stored (non-default) curve and rebuilds exactly the same rows |
| CustomizeDialog.SaveDefaultThenLoadGivesDefault | src/com/android/settings/cyanogenmod/AutoBrightnessCustomizeDialog.java:229-239 | saving while the default is shown clears both keys, and the next load gives the defaults |
| CustomizeDialog.SingleRowCurveIsNotRestored | src/com/android/settings/cyanogenmod/AutoBrightnessCustomizeDialog.java:229-239 | a one-row curve is saved as lux "" and loads back as the defaults |
| CustomizeDialog.SliderRoundTrip | src/com/android/settings/cyanogenmod/AutoBrightnessCustomizeDialog.java:171 | `(backlight * 100 + 50) / 100 == backlight` for every backlight from 0 up to where the arithmetic would overflow |
| CustomizeDialog.UntouchedRowDialogIsNoOp | src/com/android/settings/cyanogenmod/AutoBrightnessCustomizeDialog.java:222-224 | the row dialog's initial lux text and slider position read back as the row's own values, so confirming it unchanged hits updateRow's no-op guard |
| CustomizeDialog.TypedMaxLuxBreaksCurve | src/com/android/settings/cyanogenmod/AutoBrightnessCustomizeDialog.java:166-176 | typing `Integer.MAX_VALUE` as the middle start of a stored three-row curve is an edit, and the sanitized curve is out of order: the middle row starts at `MAX_VALUE`, the last at 1000 |
| CustomizeDialog.ConfirmRowEdit | src/com/android/settings/cyanogenmod/AutoBrightnessCustomizeDialog.java:166-176 | lux text that is not an int changes nothing; otherwise updateRow runs with the parsed lux and the rounded slider backlight |

The specification functions without a contract of their own are `Built`,
`LuxValues`, `BacklightValues`, `Start`, `Level`, `Relinked`, `Edited`,
`JoinItems`, `Split`, `Loaded`, `SavedStore`, `ProgressOf`, `BacklightOf`,
`IsNoOpEdit` (updateRow's guard, line 348) and `Lookup` (`Settings.System.getString`,
line 242). Their properties are the lemmas above.

## Left out

- The dialog's life cycle, its buttons and views (onCreate, onStart, onStop, onClick, cancel, the list view and row layouts): user interface, with no logic beyond the calls modelled here.
- The "add" list entry, which `getCount`, `getItem`, `isAddItem` and `getView` expose one slot past the rows: view concerns. The model's positions only address real rows.
- The light sensor listener and the current-lux text: input from hardware.
- The live preview of brightness while the slider is dragged (`updateBrightness`), and the percent text beside the slider: window side effects.
- `notifyDataSetChanged` and `Log.e`: they do not change the curve.
- The platform settings provider and the device's default resources: they become the `Store` and `Curve` parameters.
- Aliasing of `SettingRow` objects: rows are values, which is sound because no row object escapes the adapter except into the row dialog, and that dialog writes back only through `updateRow`.
- Java arrays passed between methods are `seq` values. The arrays that `fetchItems`, `getLuxValues` and `getBacklightValues` fill in their loops are `array`s, handed back as `seq` values once filled.
- SettingsText.ParseInt: accepts ASCII digits only, while `Integer.valueOf` also accepts other Unicode decimal digits; the settings text only ever holds what `putItems` writes.
- CustomizeDialog.ConfirmRowEdit: takes the slider progress as a non-negative int; the SeekBar's own clamping to its maximum is not modelled.
- CustomizeDialog.SliderRoundTrip: stops at the largest backlight whose slider position does not overflow, not at the SeekBar's maximum, which is not modelled.
- CustomizeDialog.UntouchedRowDialogIsNoOp: requires a backlight from 0 to that same overflow bound, for the same reason; a backlight the SeekBar would clamp is not covered.
- SettingRows.SettingRowAdapter.RemoveRow: requires a position inside the list when there are two rows or more. The row dialog only opens for real rows, and the "add" slot would make `remove(null)` a no-op that still sanitizes.
- SettingRows.SanitizedWellFormed: states the curve invariant only under `Headroom`, because the int addition `luxFrom + 1` wraps at `Integer.MAX_VALUE`. `SanitizeWrapsAtMaxValue` and `AddRowWrapsAtMaxValue` show the wrap.
