/**
 * The text form in which the dialog keeps a curve in the system settings: an
 * int array written as its decimal numbers joined by ",". `FetchItems` reads one
 * key back (absent text, no tokens, or any token that is not an int give
 * `None`, Java's `null`); `PutItems` writes one key (`None` stores `null`).
 */
module SettingsText {
  import opened Wrappers
  import opened JavaInt

  /** The system settings table: a key holds a string, or `null`, or nothing. */
  type Store = map<string, Option<string>>

  /** Settings.System.getString: `null` for a key that is absent or holds `null`. */
  function Lookup(store: Store, key: string): Option<string>
  {
    if key in store then store[key] else None
  }

  // ---------------------------------------------------------------- decimal numbers

  predicate IsDigit(c: char)
  {
    '0' <= c <= '9'
  }

  predicate AllDigits(s: string)
  {
    forall i :: 0 <= i < |s| ==> IsDigit(s[i])
  }

  function DigitValue(c: char): nat
    requires IsDigit(c)
  {
    c as int - '0' as int
  }

  function DigitChar(d: nat): (c: char)
    requires d < 10
    ensures IsDigit(c) && DigitValue(c) == d
  {
    ('0' as int + d) as char
  }

  /** The number a string of decimal digits denotes, read most significant digit first. */
  function DigitsValue(s: string): nat
    requires AllDigits(s)
    decreases |s|
  {
    if |s| == 0 then 0 else DigitsValue(s[..|s| - 1]) * 10 + DigitValue(s[|s| - 1])
  }

  /** The shortest decimal form of a natural number. */
  function NatToString(n: nat): (s: string)
    ensures |s| >= 1 && AllDigits(s)
    decreases n
  {
    if n < 10 then [DigitChar(n)] else NatToString(n / 10) + [DigitChar(n % 10)]
  }

  /** Integer.toString (what StringBuilder.append(int) appends): a "-" before a negative number. */
  function IntToString(x: Int32): (s: string)
    ensures |s| >= 1 && ',' !in s
  {
    if x < 0 then "-" + NatToString(-(x as int)) else NatToString(x)
  }

  /**
   * Integer.valueOf(String) in radix 10: an optional "+" or "-", then at least
   * one digit, and a value that fits an int; anything else is a
   * NumberFormatException, here `None`.
   */
  function ParseInt(s: string): (r: Option<Int32>)
    ensures r.Some? ==> |s| >= 1 && ',' !in s
  {
    if |s| == 0 then None
    else if s[0] == '-' || s[0] == '+' then
      if |s| == 1 || !AllDigits(s[1..]) then None
      else
        var v: int := if s[0] == '-' then -(DigitsValue(s[1..]) as int) else DigitsValue(s[1..]);
        if MinValue <= v <= MaxValue then Some(v) else None
    else if AllDigits(s) && DigitsValue(s) <= MaxValue then Some(DigitsValue(s))
    else None
  }

  lemma {:induction false} DigitsValueOfNatToString(n: nat)
    ensures DigitsValue(NatToString(n)) == n
    decreases n
  {
    if n >= 10 {
      var s := NatToString(n);
      assert s[..|s| - 1] == NatToString(n / 10);
      DigitsValueOfNatToString(n / 10);
    }
  }

  /** Integer.valueOf reads back every int that Integer.toString writes. */
  lemma ParseIntToString(x: Int32)
    ensures ParseInt(IntToString(x)) == Some(x)
  {
    var s := IntToString(x);
    if x < 0 {
      assert s[1..] == NatToString(-(x as int));
      DigitsValueOfNatToString(-(x as int));
    } else {
      DigitsValueOfNatToString(x);
      assert IsDigit(s[0]);
    }
  }

  // ---------------------------------------------------------------- String.split(",")

  /** Every piece of `s` between commas, empty pieces included, read one character at a time. */
  function Fields(s: string): (r: seq<string>)
    ensures |r| >= 1
    decreases |s|
  {
    if |s| == 0 then [""]
    else
      var rest := Fields(s[1..]);
      if s[0] == ',' then [""] + rest else [[s[0]] + rest[0]] + rest[1..]
  }

  /** The pieces joined back together, a "," between neighbours. */
  function JoinStrings(ts: seq<string>): string
  {
    if |ts| == 0 then ""
    else if |ts| == 1 then ts[0]
    else ts[0] + "," + JoinStrings(ts[1..])
  }

  /** Takes off the empty strings at the end. */
  function DropTrailingEmpty(ts: seq<string>): (r: seq<string>)
    ensures r <= ts
    ensures |r| > 0 ==> r[|r| - 1] != ""
    ensures forall k :: |r| <= k < |ts| ==> ts[k] == ""
  {
    if |ts| > 0 && ts[|ts| - 1] == "" then DropTrailingEmpty(ts[..|ts| - 1]) else ts
  }

  /**
   * String.split(","): a string without a comma gives itself (the empty string
   * gives [""]); otherwise its fields, with the empty ones at the end dropped.
   */
  function Split(s: string): seq<string>
  {
    if ',' in s then DropTrailingEmpty(Fields(s)) else [s]
  }

  /** Joining the fields of a string gives back the string. */
  lemma {:induction false} JoinFields(s: string)
    ensures JoinStrings(Fields(s)) == s
    decreases |s|
  {
    if |s| > 0 {
      var rest := Fields(s[1..]);
      JoinFields(s[1..]);
      if s[0] == ',' {
        assert ([""] + rest)[1..] == rest;
        assert s == "" + "," + s[1..];
      } else {
        JoinWithPrefix([s[0]], rest);
        assert s == [s[0]] + s[1..];
      }
    }
  }

  /** Putting `p` in front of the first piece puts it in front of the joined text. */
  lemma {:induction false} JoinWithPrefix(p: string, ts: seq<string>)
    requires |ts| >= 1
    ensures JoinStrings([p + ts[0]] + ts[1..]) == p + JoinStrings(ts)
  {
    var us := [p + ts[0]] + ts[1..];
    if |ts| > 1 {
      assert us[1..] == ts[1..];
      assert p + ts[0] + "," + JoinStrings(ts[1..]) == p + (ts[0] + "," + JoinStrings(ts[1..]));
    }
  }

  /** Splitting a join of comma-free pieces into fields gives back the pieces. */
  lemma {:induction false} FieldsJoin(ts: seq<string>)
    requires |ts| >= 1
    requires forall k :: 0 <= k < |ts| ==> ',' !in ts[k]
    ensures Fields(JoinStrings(ts)) == ts
  {
    if |ts| == 1 {
      FieldsOfCommaFree(ts[0]);
    } else {
      var tail := ts[1..];
      assert Fields(JoinStrings(ts)) == [ts[0]] + Fields(JoinStrings(tail)) by {
        assert JoinStrings(ts) == ts[0] + "," + JoinStrings(tail);
        FieldsAfterComma(ts[0], JoinStrings(tail));
      }
      FieldsJoin(tail);
      assert [ts[0]] + tail == ts;
    }
  }

  /** A string without a comma is a single field. */
  lemma {:induction false} FieldsOfCommaFree(a: string)
    requires ',' !in a
    ensures Fields(a) == [a]
    decreases |a|
  {
    if |a| > 0 {
      assert ',' !in a[1..] by { assert forall k :: 0 <= k < |a[1..]| ==> a[1..][k] == a[k + 1]; }
      FieldsOfCommaFree(a[1..]);
      assert [a[0]] + a[1..] == a;
    }
  }

  /** The fields of `a + "," + b`, for `a` without a comma: `a`, then the fields of `b`. */
  lemma {:induction false} FieldsAfterComma(a: string, b: string)
    requires ',' !in a
    ensures Fields(a + "," + b) == [a] + Fields(b)
    decreases |a|
  {
    var s := a + "," + b;
    if |a| == 0 {
      assert s[0] == ',' && s[1..] == b;
    } else {
      assert s[0] == a[0] && s[1..] == a[1..] + "," + b;
      assert ',' !in a[1..] by { assert forall k :: 0 <= k < |a[1..]| ==> a[1..][k] == a[k + 1]; }
      FieldsAfterComma(a[1..], b);
      assert [a[0]] + a[1..] == a;
    }
  }

  /** String.split(",") inverts the join of non-empty comma-free pieces. */
  lemma SplitJoin(ts: seq<string>)
    requires |ts| >= 1
    requires forall k :: 0 <= k < |ts| ==> ts[k] != "" && ',' !in ts[k]
    ensures Split(JoinStrings(ts)) == ts
  {
    FieldsJoin(ts);
    if |ts| > 1 {
      var s := JoinStrings(ts);
      assert s == ts[0] + "," + JoinStrings(ts[1..]);
      assert s[|ts[0]|] == ',';
    }
  }

  // ---------------------------------------------------------------- int lists

  /** Integer.valueOf on every token, or `None` as soon as one of them is not an int. */
  function ParseAll(ts: seq<string>): (r: Option<seq<Int32>>)
    ensures r.Some? <==> forall k :: 0 <= k < |ts| ==> ParseInt(ts[k]).Some?
    ensures r.Some? ==> |r.value| == |ts| && forall k :: 0 <= k < |ts| ==> ParseInt(ts[k]) == Some(r.value[k])
  {
    if |ts| == 0 then Some([])
    else
      match (ParseInt(ts[0]), ParseAll(ts[1..]))
      case (Some(x), Some(xs)) => Some([x] + xs)
      case _ => None
  }

  /** What fetchItems returns for the text it reads. */
  function ParseItems(value: Option<string>): (r: Option<seq<Int32>>)
    ensures r.Some? ==> |r.value| >= 1
    ensures value.None? ==> r.None?
    ensures value.Some? && |Split(value.value)| == 0 ==> r.None?
  {
    match value
    case None => None
    case Some(s) =>
      var ts := Split(s);
      if |ts| == 0 then None else ParseAll(ts)
  }

  /** The text putItems writes for an int array. */
  function JoinItems(xs: seq<Int32>): string
  {
    JoinStrings(seq(|xs|, k requires 0 <= k < |xs| => IntToString(xs[k])))
  }

  // ---------------------------------------------------------------- the two methods

  /** fetchItems(setting) (AutoBrightnessCustomizeDialog.java:241-263). */
  method FetchItems(store: Store, key: string) returns (result: Option<seq<Int32>>)
    ensures result == ParseItems(Lookup(store, key))
  {
    var value := Lookup(store, key);
    if value.Some? {
      var values := Split(value.value);
      if |values| != 0 {
        var items := new Int32[|values|];
        var i := 0;
        while i < |values|
          invariant 0 <= i <= |values|
          invariant forall k :: 0 <= k < i ==> ParseInt(values[k]) == Some(items[k])
        {
          var parsed := ParseInt(values[i]);
          if parsed.None? {
            break;
          }
          items[i] := parsed.value;
          i := i + 1;
        }
        if i == |values| {
          var parsed := ParseAll(values);
          assert parsed.value == items[..];
          return Some(items[..]);
        }
      }
    }
    return None;
  }

  /** putItems(setting, values) (AutoBrightnessCustomizeDialog.java:265-278): the new store. */
  method PutItems(store: Store, key: string, values: Option<seq<Int32>>) returns (updated: Store)
    ensures updated == store[key := if values.Some? then Some(JoinItems(values.value)) else None]
  {
    var value: Option<string> := None;
    if values.Some? {
      var xs := values.value;
      var builder := "";
      for i := 0 to |xs|
        invariant builder == JoinItems(xs[..i])
      {
        JoinItemsStep(xs, i);
        if i > 0 {
          builder := builder + ",";
        }
        builder := builder + IntToString(xs[i]);
      }
      assert xs[..|xs|] == xs;
      value := Some(builder);
    }
    updated := store[key := value];
  }

  lemma {:induction false} JoinStringsSnoc(ts: seq<string>, t: string)
    requires |ts| >= 1
    ensures JoinStrings(ts + [t]) == JoinStrings(ts) + "," + t
  {
    if |ts| > 1 {
      assert (ts + [t])[1..] == ts[1..] + [t];
      JoinStringsSnoc(ts[1..], t);
    }
  }

  /** Appending one int to the array appends "," (unless it is the first) and its digits. */
  lemma JoinItemsSnoc(xs: seq<Int32>, x: Int32)
    ensures JoinItems(xs + [x]) == if |xs| == 0 then IntToString(x) else JoinItems(xs) + "," + IntToString(x)
  {
    var ts := seq(|xs|, k requires 0 <= k < |xs| => IntToString(xs[k]));
    var ts' := seq(|xs + [x]|, k requires 0 <= k < |xs + [x]| => IntToString((xs + [x])[k]));
    assert ts' == ts + [IntToString(x)];
    if |xs| > 0 {
      JoinStringsSnoc(ts, IntToString(x));
    }
  }

  /** One turn of putItems' loop: the text for the first i + 1 ints from the text for the first i. */
  lemma JoinItemsStep(xs: seq<Int32>, i: nat)
    requires i < |xs|
    ensures JoinItems(xs[..i + 1]) == (if i > 0 then JoinItems(xs[..i]) + "," else JoinItems(xs[..i])) + IntToString(xs[i])
  {
    assert xs[..i + 1] == xs[..i] + [xs[i]];
    JoinItemsSnoc(xs[..i], xs[i]);
    if i == 0 {
      assert JoinItems(xs[..0]) + IntToString(xs[0]) == IntToString(xs[0]);
    }
  }

  // ---------------------------------------------------------------- properties

  /** fetchItems reads back what putItems wrote, for every non-empty int array. */
  lemma ParseItemsJoinItems(xs: seq<Int32>)
    requires |xs| >= 1
    ensures ParseItems(Some(JoinItems(xs))) == Some(xs)
  {
    var ts := seq(|xs|, k requires 0 <= k < |xs| => IntToString(xs[k]));
    SplitJoin(ts);
    forall k | 0 <= k < |ts|
      ensures ParseInt(ts[k]) == Some(xs[k])
    {
      ParseIntToString(xs[k]);
    }
    var r := ParseAll(ts);
    assert r.value == xs;
  }

  /** An empty array is written as "", which reads back as `null`, not as an empty array. */
  lemma EmptyArrayReadsBackAsNull()
    ensures JoinItems([]) == ""
    ensures ParseItems(Some(JoinItems([]))) == None
  {
    assert Split("") == [""];
  }

  /** A token that is not an int (an empty one between two commas included) makes the whole text `null`. */
  lemma BadTokenGivesNull(s: string, k: nat)
    requires k < |Split(s)| && ParseInt(Split(s)[k]).None?
    ensures ParseItems(Some(s)) == None
  {
  }

  /** The empty token between the two commas of "1,,2" rejects the whole text. */
  lemma InnerEmptyTokenExample()
    ensures ParseItems(Some("1,,2")) == None
  {
    InnerEmptyTokenFields();
    assert "1,,2"[1] == ',';
    assert ParseInt(["1", "", "2"][1]).None?;
  }

  /** The fields of "1,,2": an empty one between the two commas. */
  lemma InnerEmptyTokenFields()
    ensures Fields("1,,2") == ["1", "", "2"]
  {
    assert "1" + "," + ",2" == "1,,2";
    FieldsAfterComma("1", ",2");
    assert "" + "," + "2" == ",2";
    FieldsAfterComma("", "2");
    FieldsOfCommaFree("2");
  }

  /** The empty token after the last comma of "10,-3," is dropped, like String.split drops it. */
  lemma TrailingCommaExample()
    ensures ParseItems(Some("10,-3,")) == Some([10, -3])
  {
    TrailingCommaSplit();
    TenAndMinusThreeParse();
  }

  /** String.split(",") of "10,-3," drops the empty field after the last comma. */
  lemma TrailingCommaSplit()
    ensures Split("10,-3,") == ["10", "-3"]
  {
    TrailingCommaFields();
    assert "10,-3,"[2] == ',';
    assert ["10", "-3", ""][..2] == ["10", "-3"];
  }

  /** The fields of "10,-3,", the empty one after the last comma included. */
  lemma TrailingCommaFields()
    ensures Fields("10,-3,") == ["10", "-3", ""]
  {
    assert "10" + "," + "-3," == "10,-3,";
    FieldsAfterComma("10", "-3,");
    MinusThreeCommaFields();
  }

  /** The fields of "-3,". */
  lemma MinusThreeCommaFields()
    ensures Fields("-3,") == ["-3", ""]
  {
    assert "-3" + "," + "" == "-3,";
    FieldsAfterComma("-3", "");
  }

  /** The tokens "10" and "-3" parse as the ints 10 and -3. */
  lemma TenAndMinusThreeParse()
    ensures ParseAll(["10", "-3"]) == Some([10, -3])
  {
    assert ParseInt("10") == Some(10) by {
      assert AllDigits("10");
      assert "10"[..1] == "1" && "1"[..0] == "";
      assert DigitsValue("1") == 1;
      assert DigitsValue("10") == 10;
    }
    assert ParseInt("-3") == Some(-3) by {
      assert "-3"[1..] == "3";
    }
    var r := ParseAll(["10", "-3"]);
    assert r.Some? && |r.value| == 2;
    assert r.value == [10, -3] by {
      assert ParseInt(["10", "-3"][0]) == Some(r.value[0]);
      assert ParseInt(["10", "-3"][1]) == Some(r.value[1]);
    }
  }

  /** A lone comma splits into no tokens at all, which fetchItems also rejects. */
  lemma LoneCommaExample()
    ensures Split(",") == []
    ensures ParseItems(Some(",")) == None
  {
    assert Fields(",") == ["", ""] by { assert ","[1..] == ""; }
    assert ","[0] == ',';
  }
}
