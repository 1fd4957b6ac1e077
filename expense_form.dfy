/**
 * The entry form (src/components/ExpenseForm.tsx): the amount and date fields
 * hold text ("123,45", "31/12/2025") that each keystroke filters and each blur
 * normalises; the defaults pre-format a record being edited; submit turns the
 * texts back into a draft. Amounts are read in cents; `new Date(y, m - 1, d)`
 * and the `dd/MM/yyyy` formatter are parameters, since they depend on the
 * time zone and the locale.
 */
module ExpenseForm {
  import opened Wrappers
  import opened Strings
  import opened ExpenseTypes

  /** The form's text fields. */
  datatype FormValues = FormValues(
    description: string,
    amount: string,
    date: string,
    category: string,
    paymentMethod: string)

  // ---------------------------------------------------------------------------
  // Amount field

  predicate IsAmountChar(c: char) { IsDigit(c) || c == ',' }

  /** Amount `onChange`: keep digits and commas, then keep only the first comma. */
  function FilterAmount(raw: string): string
  {
    var kept := Keep(raw, IsAmountChar);
    var parts := Split(kept, ',');
    if |parts| > 2 then parts[0] + "," + Join(parts[1..], "") else kept
  }

  /** Amount `onBlur`: exactly two decimals, padding with '0' or truncating. */
  function BlurAmount(v: string): string
  {
    var parts := Split(v, ',');
    var whole := parts[0];
    var dec := if |parts| > 1 then parts[1] else "";
    if ',' !in v then whole + ",00"
    else if |dec| == 0 then whole + ",00"
    else if |dec| == 1 then whole + "," + dec + "0"
    else if |dec| > 2 then whole + "," + dec[..2]
    else v
  }

  /** The value of at most two decimal digits in cents ("5" is 50, "45" is 45). */
  function FractionCents(frac: string): nat
    requires AllDigits(frac)
  {
    (if |frac| > 0 then DigitValue(frac[0]) * 10 else 0) + (if |frac| > 1 then DigitValue(frac[1]) else 0)
  }

  /** The unsigned part of `parseFloat`: digits, an optional '.' and digits; no digit there is NaN (None). */
  function ParseUnsignedCents(u: string): Option<nat>
  {
    var whole := DigitPrefix(u);
    var rest := u[|whole|..];
    var frac := if |rest| > 0 && rest[0] == '.' then DigitPrefix(rest[1..]) else "";
    if |whole| == 0 && |frac| == 0 then None else Some(DigitsValue(whole) * 100 + FractionCents(frac))
  }

  /**
   * `parseFloat(t)` in cents, for a text whose number is an optional sign, digits,
   * an optional '.' and digits: reading stops at the first other character.
   * Decimals after the second are dropped.
   */
  function ParseFloatCents(t: string): Option<int>
  {
    if |t| > 0 && t[0] == '-' then
      var m := ParseUnsignedCents(t[1..]);
      if m.None? then None else Some(-(m.value as int))
    else if |t| > 0 && t[0] == '+' then
      var m := ParseUnsignedCents(t[1..]);
      if m.None? then None else Some(m.value)
    else
      var m := ParseUnsignedCents(t);
      if m.None? then None else Some(m.value)
  }

  /** `parseFloat(text.replace(',', '.'))` in cents. */
  function ReadAmount(text: string): Option<int>
  {
    ParseFloatCents(ReplaceFirst(text, ',', '.'))
  }

  /** `toFixed(2)` of a non-negative amount in cents: the whole units, '.', and two digits of cents. */
  function FixedTwoUnsigned(a: nat): string
  {
    NatToString(a / 100) + "." + [DigitChar(a % 100 / 10), DigitChar(a % 10)]
  }

  /** `(cents / 100).toFixed(2)`. */
  function FixedTwo(cents: int): string
  {
    if cents < 0 then "-" + FixedTwoUnsigned(-cents) else FixedTwoUnsigned(cents)
  }

  /** The amount field's initial text: `'0,00'` for a new entry, else the stored amount with a decimal comma. */
  function DefaultAmountText(initial: Option<Expense>): string
  {
    if initial.Some? then ReplaceFirst(FixedTwo(initial.value.amount), '.', ',') else "0,00"
  }

  /** The form's default values; `formatDate` is `format(·, 'dd/MM/yyyy')` and `today` is `new Date()`. */
  function DefaultValues(initial: Option<Expense>, formatDate: Timestamp -> string, today: Timestamp): (values: FormValues)
    ensures values.amount == DefaultAmountText(initial)
    ensures initial.None? ==> values == FormValues("", "0,00", formatDate(today), "", "")
    ensures initial.Some? ==>
      values.description == initial.value.description && values.date == formatDate(initial.value.date) &&
      values.category == initial.value.category && values.paymentMethod == initial.value.paymentMethod
  {
    match initial
    case None => FormValues("", DefaultAmountText(initial), formatDate(today), "", "")
    case Some(e) => FormValues(e.description, DefaultAmountText(initial), formatDate(e.date), e.category, e.paymentMethod)
  }

  // ---------------------------------------------------------------------------
  // Date field

  predicate IsDateChar(c: char) { IsDigit(c) || c == '/' }

  /** The cap on the segment at position `i`: 2 for the day and the month, 4 for the year, none after. */
  function SegmentCap(i: nat): Option<nat>
  {
    if i < 2 then Some(2) else if i == 2 then Some(4) else None
  }

  function Capped(s: string, i: nat): (r: string)
    ensures r <= s
    ensures SegmentCap(i).Some? ==> |r| <= SegmentCap(i).value
    ensures |r| == if SegmentCap(i).Some? && |s| > SegmentCap(i).value then SegmentCap(i).value else |s|
    ensures s != "" ==> r != ""
  {
    var cap := SegmentCap(i);
    if cap.Some? && |s| > cap.value then s[..cap.value] else s
  }

  function CapSegments(parts: seq<string>): (r: seq<string>)
    ensures |r| == |parts|
    ensures forall i :: 0 <= i < |r| ==> r[i] == Capped(parts[i], i)
  {
    seq(|parts|, i requires 0 <= i < |parts| => Capped(parts[i], i))
  }

  /** `parts.filter(Boolean)`: the non-empty segments, in order. */
  function NonEmpty(parts: seq<string>): (r: seq<string>)
    ensures |r| <= |parts|
    ensures forall k :: 0 <= k < |r| ==> r[k] != "" && r[k] in parts
    ensures forall j :: 0 <= j < |parts| && parts[j] != "" ==> parts[j] in r
  {
    if |parts| == 0 then []
    else
      var rest := NonEmpty(parts[1..]);
      assert forall j :: 1 <= j < |parts| ==> parts[j] == parts[1..][j - 1];
      if parts[0] == "" then rest else [parts[0]] + rest
  }

  /**
   * The filter works segment by segment: what it keeps of two lists put
   * together is what it keeps of the first, then what it keeps of the second.
   * With `NonEmptyOfNonEmpty` and `NonEmptyDropsEmpty` this fixes the result:
   * every non-empty segment, in input order, and nothing else.
   */
  lemma {:induction false} NonEmptyAppend(a: seq<string>, b: seq<string>)
    ensures NonEmpty(a + b) == NonEmpty(a) + NonEmpty(b)
  {
    if |a| > 0 {
      assert (a + b)[1..] == a[1..] + b;
      NonEmptyAppend(a[1..], b);
    } else {
      assert a + b == b;
    }
  }

  /** An empty segment is dropped. */
  lemma {:induction false} NonEmptyDropsEmpty(parts: seq<string>)
    requires forall k :: 0 <= k < |parts| ==> parts[k] == ""
    ensures NonEmpty(parts) == []
  {
    if |parts| > 0 {
      assert parts[0] == "";
      NonEmptyDropsEmpty(parts[1..]);
    }
  }

  /** `raw.replace(/[^0-9/]/g, '').split('/')`. */
  function RawSegments(raw: string): (parts: seq<string>)
    ensures |parts| >= 1
    ensures forall k :: 0 <= k < |parts| ==> AllDigits(parts[k])
  {
    SplitPartsWithin(Keep(raw, IsDateChar), '/', IsDigit);
    Split(Keep(raw, IsDateChar), '/')
  }

  /** The date `onChange` as written: the segment caps apply by position before empty segments are dropped. */
  function FilteredDate(raw: string): string
  {
    Join(NonEmpty(CapSegments(RawSegments(raw))), "/")
  }

  /** The date `onChange`: split, cap the entries of the segment array in place, drop the empty ones, join. */
  method FilterDateInput(raw: string) returns (v: string)
    ensures v == FilteredDate(raw)
  {
    var split := RawSegments(raw);
    var parts := new string[|split|](i requires 0 <= i < |split| => split[i]);
    assert parts[..] == split;
    CapInPlace(parts);
    v := Join(NonEmpty(parts[..]), "/");
  }

  /** Caps the day and the month at two characters and the year at four, in place. */
  method CapInPlace(parts: array<string>)
    requires parts.Length >= 1
    modifies parts
    ensures parts[..] == CapSegments(old(parts[..]))
  {
    ghost var split := parts[..];
    if |parts[0]| > 2 {
      parts[0] := parts[0][..2];
    }
    if parts.Length > 1 && |parts[1]| > 2 {
      parts[1] := parts[1][..2];
    }
    if parts.Length > 2 && |parts[2]| > 4 {
      parts[2] := parts[2][..4];
    }
    assert forall i :: 0 <= i < parts.Length ==> parts[i] == Capped(split[i], i);
    CappedPointwise(parts[..], split);
  }

  lemma CappedPointwise(capped: seq<string>, parts: seq<string>)
    requires |capped| == |parts|
    requires forall i :: 0 <= i < |parts| ==> capped[i] == Capped(parts[i], i)
    ensures capped == CapSegments(parts)
  {
  }

  /** The date `onChange` with the caps applied to the segments that are kept. */
  function FilteredDateIntended(raw: string): string
  {
    Join(CapSegments(NonEmpty(RawSegments(raw))), "/")
  }

  /** Date `onBlur`: pad day and month to two digits; a missing year reads "undefined"; later segments are dropped. */
  function BlurDate(v: string): string
  {
    var parts := Split(v, '/');
    var dd := PadStart(parts[0], 2, '0');
    var mm := if |parts| > 1 then PadStart(parts[1], 2, '0') else "";
    var yy := if |parts| > 2 then parts[2] else "undefined";
    dd + "/" + mm + "/" + yy
  }

  // ---------------------------------------------------------------------------
  // Submit

  function SegmentAt(parts: seq<string>, i: nat): Option<string>
  {
    if i < |parts| then Some(parts[i]) else None
  }

  /** `Number(seg)` for a date segment: a digit string (the empty one is 0); undefined or anything else is NaN. */
  function JsNumber(seg: Option<string>): Option<int>
  {
    if seg.Some? && AllDigits(seg.value) then Some(DigitsValue(seg.value)) else None
  }

  /**
   * `new Date(Number(y), Number(m) - 1, Number(d)).toISOString()` for `[d, m, y] = text.split('/')`.
   * `localDate` builds the local-time date and is None for an invalid one; an invalid date
   * makes `toISOString` throw, so nothing is submitted (None).
   */
  function SubmittedDate(text: string, localDate: (int, int, int) -> Option<Timestamp>): Option<Timestamp>
  {
    DateOfSegments(Split(text, '/'), localDate)
  }

  /** The date of the split segments `[d, m, y]`; a NaN among the three numbers gives no date. */
  function DateOfSegments(parts: seq<string>, localDate: (int, int, int) -> Option<Timestamp>): Option<Timestamp>
    requires |parts| >= 1
  {
    var d, m, y := JsNumber(Some(parts[0])), JsNumber(SegmentAt(parts, 1)), JsNumber(SegmentAt(parts, 2));
    if d.None? || m.None? || y.None? then None else localDate(y.value, m.value - 1, d.value)
  }

  /** `handleSubmit`: the draft handed to `onSubmit`, or None where the source would throw or yield NaN. */
  function HandleSubmit(values: FormValues, initial: Option<Expense>, now: Timestamp,
                        localDate: (int, int, int) -> Option<Timestamp>): Option<Draft>
  {
    var date := SubmittedDate(values.date, localDate);
    var amount := ReadAmount(values.amount);
    if date.None? || amount.None? then None
    else Some(Draft(values.description, amount.value, date.value, values.category, values.paymentMethod,
                    if initial.Some? then Some(now) else None))
  }

  // ===========================================================================
  // Properties of the amount field

  lemma {:induction false} KeepAmountWithoutComma(raw: string)
    ensures Without(Keep(raw, IsAmountChar), ',') == Keep(raw, IsDigit)
  {
    if |raw| > 0 {
      KeepAmountWithoutComma(raw[1..]);
      var head: string := if IsAmountChar(raw[0]) then [raw[0]] else "";
      WithoutAppend(head, Keep(raw[1..], IsAmountChar), ',');
      if |head| == 1 {
        assert head[1..] == "";
      }
    }
  }

  /**
   * The filtered amount holds only digits and commas, at most one comma, the
   * same digits as the input in the same order, and the input's integer part
   * (the digits before its first comma).
   */
  lemma FilterAmountOutput(raw: string)
    ensures var v := FilterAmount(raw);
      && (forall i :: 0 <= i < |v| ==> IsAmountChar(v[i]))
      && Count(v, ',') <= 1
      && Without(v, ',') == Keep(raw, IsDigit)
      && Split(v, ',')[0] == Split(Keep(raw, IsAmountChar), ',')[0]
      && (',' in v <==> ',' in raw)
  {
    var kept := Keep(raw, IsAmountChar);
    var parts := Split(kept, ',');
    KeepAmountWithoutComma(raw);
    KeepKeeps(raw, IsAmountChar, ',');
    if |parts| > 2 {
      var tail := Join(parts[1..], "");
      CollapsedCommas(kept);
      OneComma(parts[0], tail);
      assert FilterAmount(raw)[|parts[0]|] == ',';
      if ',' !in kept {
        SplitNoSeparator(kept, ',');
      }
    } else {
      SplitCount(kept, ',');
    }
  }

  /** Keeping the first comma of a filtered text: the head, one comma, and the other pieces run together. */
  lemma CollapsedCommas(kept: string)
    requires forall i :: 0 <= i < |kept| ==> IsAmountChar(kept[i])
    requires |Split(kept, ',')| > 2
    ensures var parts := Split(kept, ',');
      var tail := Join(parts[1..], "");
      && AllDigits(parts[0]) && AllDigits(tail)
      && parts[0] + tail == Without(kept, ',')
  {
    var parts := Split(kept, ',');
    SplitPartsWithin(kept, ',', IsDigit);
    JoinWithin(parts[1..], "", IsDigit);
    JoinSplitEmpty(kept, ',');
    assert Join(parts, "") == parts[0] + "" + Join(parts[1..], "");
  }

  lemma OneComma(head: string, tail: string)
    requires AllDigits(head) && AllDigits(tail)
    ensures var v := head + "," + tail;
      && (forall i :: 0 <= i < |v| ==> IsAmountChar(v[i]))
      && Count(v, ',') == 1
      && Without(v, ',') == head + tail
      && Split(v, ',')[0] == head
  {
    DigitsHaveNo(head, ',');
    DigitsHaveNo(tail, ',');
    OneCommaChars(head, tail);
    CountAround(head, tail, ',');
    WithoutAround(head, tail, ',');
    SplitAfter(head, tail, ',');
    assert head + "," + tail == head + [','] + tail;
  }

  lemma OneCommaChars(head: string, tail: string)
    requires AllDigits(head) && AllDigits(tail)
    ensures forall i :: 0 <= i < |head + "," + tail| ==> IsAmountChar((head + "," + tail)[i])
  {
    var v := head + "," + tail;
    forall i | 0 <= i < |v| ensures IsAmountChar(v[i]) {
      if i < |head| {
        assert v[i] == head[i];
      } else if i > |head| {
        assert v[i] == tail[i - |head| - 1];
      }
    }
  }

  /** Filtering an already filtered amount changes nothing. */
  lemma FilterAmountIdempotent(raw: string)
    ensures FilterAmount(FilterAmount(raw)) == FilterAmount(raw)
  {
    var v := FilterAmount(raw);
    FilterAmountOutput(raw);
    SplitCount(v, ',');
  }

  /** On a text with at most one comma, blur keeps the integer part and pads or truncates the decimals to exactly two. */
  lemma BlurAmountTwoDecimals(v: string)
    requires Count(v, ',') <= 1
    ensures var parts := Split(v, ',');
      var dec := if |parts| > 1 then parts[1] else "";
      BlurAmount(v) == parts[0] + "," + (dec + "00")[..2]
  {
    var parts := Split(v, ',');
    SplitCount(v, ',');
    if ',' in v {
      var dec := parts[1];
      if |dec| == 2 {
        JoinSplit(v, ',');
        assert parts[1..] == [dec];
        assert (dec + "00")[..2] == dec;
      } else if |dec| == 1 {
        assert (dec + "00")[..2] == dec + "0";
      } else if |dec| > 2 {
        assert (dec + "00")[..2] == dec[..2];
      }
    }
  }

  lemma BlurOfNormalAmount(whole: string, dd: string)
    requires ',' !in whole && ',' !in dd && |dd| == 2
    ensures BlurAmount(whole + "," + dd) == whole + "," + dd
  {
    SplitAfter(whole, dd, ',');
    SplitNoSeparator(dd, ',');
    assert whole + "," + dd == whole + [','] + dd;
    assert (whole + "," + dd)[|whole|] == ',';
  }

  /** Blurring twice is blurring once, for every text. */
  lemma BlurAmountIdempotent(v: string)
    ensures BlurAmount(BlurAmount(v)) == BlurAmount(v)
  {
    var parts := Split(v, ',');
    var whole := parts[0];
    var dec := if |parts| > 1 then parts[1] else "";
    if ',' !in v || |dec| == 0 {
      assert whole + ",00" == whole + "," + "00";
      BlurOfNormalAmount(whole, "00");
    } else if |dec| == 1 {
      assert whole + "," + dec + "0" == whole + "," + (dec + "0");
      BlurOfNormalAmount(whole, dec + "0");
    } else if |dec| > 2 {
      assert ',' !in dec[..2];
      BlurOfNormalAmount(whole, dec[..2]);
    }
  }

  /** A filtered then blurred amount is digits, one comma and exactly two digits. */
  lemma FilterThenBlurAmount(raw: string)
    ensures var w := Split(FilterAmount(raw), ',')[0];
      var r := BlurAmount(FilterAmount(raw));
      && AllDigits(w) && |r| == |w| + 3 && r[..|w|] == w && r[|w|] == ','
      && AllDigits(r[|w| + 1..])
  {
    FilterAmountOutput(raw);
    var w, dd := BlurredPieces(FilterAmount(raw));
    NormalAmountShape(w, dd);
  }

  /** Blurring a text of digits and at most one comma gives digits, a comma and two digits. */
  lemma BlurredPieces(v: string) returns (w: string, dd: string)
    requires forall i :: 0 <= i < |v| ==> IsAmountChar(v[i])
    requires Count(v, ',') <= 1
    ensures w == Split(v, ',')[0] && AllDigits(w) && AllDigits(dd) && |dd| == 2
    ensures BlurAmount(v) == w + "," + dd
  {
    BlurAmountTwoDecimals(v);
    SplitPartsWithin(v, ',', IsDigit);
    var parts := Split(v, ',');
    w := parts[0];
    var dec := if |parts| > 1 then parts[1] else "";
    dd := (dec + "00")[..2];
    assert AllDigits(w);
    PadDecimals(dec);
  }

  lemma PadDecimals(dec: string)
    requires AllDigits(dec)
    ensures AllDigits((dec + "00")[..2])
  {
    var dd := (dec + "00")[..2];
    forall i | 0 <= i < 2 ensures IsDigit(dd[i]) {
      if i < |dec| { assert dd[i] == dec[i]; }
    }
  }

  lemma NormalAmountShape(w: string, dd: string)
    requires AllDigits(w) && AllDigits(dd) && |dd| == 2
    ensures var r := w + "," + dd;
      |r| == |w| + 3 && r[..|w|] == w && r[|w|] == ',' && AllDigits(r[|w| + 1..])
  {
    var r := w + "," + dd;
    assert r[|w| + 1..] == dd;
  }

  lemma ParseUnsignedNormal(whole: string, dd: string)
    requires AllDigits(whole) && AllDigits(dd) && |dd| == 2
    ensures ParseUnsignedCents(whole + ['.'] + dd) == Some(DigitsValue(whole) * 100 + FractionCents(dd))
  {
    NormalPieces(whole, dd);
    DigitPrefixOfDigits(whole, ['.'] + dd);
    DigitPrefixOfDigits(dd, "");
    UnsignedOfPieces(whole + ['.'] + dd, whole, dd);
  }

  lemma NormalPieces(whole: string, dd: string)
    ensures var u := whole + ['.'] + dd;
      && u == whole + (['.'] + dd)
      && |u| > |whole| && u[|whole|] == '.'
      && u[|whole| + 1..] == dd
      && (['.'] + dd)[0] == '.'
      && dd + "" == dd
  {
    var u := whole + ['.'] + dd;
    assert u[|whole|..] == ['.'] + dd;
  }

  /** `parseFloat` reads the digits before the point and the digits after it. */
  lemma UnsignedOfPieces(u: string, whole: string, frac: string)
    requires DigitPrefix(u) == whole
    requires |u| > |whole| && u[|whole|] == '.'
    requires DigitPrefix(u[|whole| + 1..]) == frac && |frac| > 0
    ensures ParseUnsignedCents(u) == Some(DigitsValue(whole) * 100 + FractionCents(frac))
  {
    assert u[|whole|..][1..] == u[|whole| + 1..];
  }

  lemma ParseNegativeNormal(whole: string, dd: string, c: int)
    requires AllDigits(whole) && AllDigits(dd) && |dd| == 2
    requires DigitsValue(whole) * 100 + FractionCents(dd) == -c
    ensures ParseFloatCents("-" + whole + "." + dd) == Some(c)
  {
    ParseUnsignedNormal(whole, dd);
    NegatedText(whole, dd, c);
  }

  /** A leading '-' negates what the rest reads as. */
  lemma NegatedText(whole: string, dd: string, c: int)
    requires ParseUnsignedCents(whole + ['.'] + dd).Some? && ParseUnsignedCents(whole + ['.'] + dd).value == -c
    ensures ParseFloatCents("-" + whole + "." + dd) == Some(c)
  {
    var t, u := "-" + whole + "." + dd, whole + ['.'] + dd;
    assert t == "-" + u;
    assert t[0] == '-' && t[1..] == u;
    assert -(ParseUnsignedCents(u).value as int) == c;
  }

  lemma ParseNonNegativeNormal(whole: string, dd: string)
    requires AllDigits(whole) && AllDigits(dd) && |dd| == 2
    ensures ParseFloatCents(whole + "." + dd) == Some(DigitsValue(whole) * 100 + FractionCents(dd))
  {
    var u := whole + ['.'] + dd;
    ParseUnsignedNormal(whole, dd);
    var t := whole + "." + dd;
    assert t == u;
    assert t[0] != '-' && t[0] != '+' by {
      if |whole| > 0 { assert t[0] == whole[0]; } else { assert t[0] == '.'; }
    }
  }

  lemma ReplaceDecimalComma(head: string, dd: string)
    requires ',' !in head
    ensures ReplaceFirst(head + "," + dd, ',', '.') == head + "." + dd
  {
    ReplaceFirstAfter(head, dd, ',', '.');
    assert head + "," + dd == head + [','] + dd;
    assert head + ['.'] + dd == head + "." + dd;
  }

  /** A negative normalised amount "-int,dd" reads as minus its value in cents. */
  lemma ReadNegativeAmount(whole: string, dd: string, c: int)
    requires AllDigits(whole) && AllDigits(dd) && |dd| == 2
    requires DigitsValue(whole) * 100 + FractionCents(dd) == -c
    ensures ReadAmount("-" + whole + "," + dd) == Some(c)
  {
    DigitsHaveNo(whole, ',');
    assert ',' !in "-" + whole;
    ReplaceDecimalComma("-" + whole, dd);
    ParseNegativeNormal(whole, dd, c);
  }

  /** A normalised amount "int,dd" reads as int + dd/100, that is int * 100 + dd cents. */
  lemma ReadNormalAmount(whole: string, dd: string)
    requires AllDigits(whole) && AllDigits(dd) && |dd| == 2
    ensures ReadAmount(whole + "," + dd) == Some(DigitsValue(whole) * 100 + FractionCents(dd))
  {
    DigitsHaveNo(whole, ',');
    ReplaceDecimalComma(whole, dd);
    ParseNonNegativeNormal(whole, dd);
  }

  /** `toFixed(2)` of a non-negative amount is digits worth its whole units, '.', and two digits worth its cents. */
  lemma FixedTwoShape(a: nat)
    ensures var w := NatToString(a / 100);
      var dd := [DigitChar(a % 100 / 10), DigitChar(a % 10)];
      && FixedTwoUnsigned(a) == w + ['.'] + dd
      && AllDigits(w) && DigitsValue(w) == a / 100
      && AllDigits(dd) && FractionCents(dd) == a % 100
  {
    DigitsValueOfNatToString(a / 100);
  }

  /** With the decimal comma put back, `toFixed(2)` of a non-negative amount is "int,dd", worth the amount. */
  lemma FixedTwoWithComma(a: nat) returns (w: string, dd: string)
    ensures AllDigits(w) && AllDigits(dd) && |dd| == 2
    ensures DigitsValue(w) * 100 + FractionCents(dd) == a
    ensures ReplaceFirst(FixedTwoUnsigned(a), '.', ',') == w + "," + dd
  {
    w := NatToString(a / 100);
    dd := [DigitChar(a % 100 / 10), DigitChar(a % 10)];
    FixedTwoShape(a);
    DigitsHaveNo(w, '.');
    ReplaceFirstAfter(w, dd, '.', ',');
    assert w + [','] + dd == w + "," + dd;
  }

  /** The text a new entry starts with, "0,00", reads as 0. */
  lemma DefaultNewAmount()
    ensures ReadAmount("0,00") == Some(0)
  {
    ReadNormalAmount("0", "00");
    ZeroText();
  }

  /** The text a new entry starts with is already blurred. */
  lemma DefaultNewAmountBlurred()
    ensures BlurAmount("0,00") == "0,00"
  {
    BlurOfNormalAmount("0", "00");
    ZeroText();
  }

  lemma ZeroText()
    ensures "0" + "," + "00" == "0,00" && DigitsValue("0") == 0 && FractionCents("00") == 0
  {
    assert "0"[..0] == "";
  }

  /** The text of a non-negative amount reads back as that amount. */
  lemma EditedAmountNonNegative(c: nat)
    ensures ReadAmount(ReplaceFirst(FixedTwo(c), '.', ',')) == Some(c)
  {
    var w, dd := FixedTwoWithComma(c);
    ReadNormalAmount(w, dd);
  }

  /** The text of a non-negative amount is already blurred. */
  lemma EditedAmountNonNegativeBlurred(c: nat)
    ensures BlurAmount(ReplaceFirst(FixedTwo(c), '.', ',')) == ReplaceFirst(FixedTwo(c), '.', ',')
  {
    var w, dd := FixedTwoWithComma(c);
    DigitsHaveNo(w, ',');
    DigitsHaveNo(dd, ',');
    BlurOfNormalAmount(w, dd);
  }

  /** With the decimal comma put back, `toFixed(2)` of a negative amount is "-int,dd", worth minus the amount. */
  lemma FixedTwoNegativeWithComma(c: int) returns (w: string, dd: string)
    requires c < 0
    ensures AllDigits(w) && AllDigits(dd) && |dd| == 2
    ensures DigitsValue(w) * 100 + FractionCents(dd) == -c
    ensures ReplaceFirst(FixedTwo(c), '.', ',') == "-" + w + "," + dd
  {
    var u := FixedTwoUnsigned(-c);
    w, dd := FixedTwoWithComma(-c);
    assert FixedTwo(c) == "-" + u;
    assert ("-" + u)[0] == '-' && ("-" + u)[1..] == u;
    assert "-" + (w + "," + dd) == "-" + w + "," + dd;
  }

  /** The text of a negative amount reads back as that amount. */
  lemma EditedAmountNegative(c: int)
    requires c < 0
    ensures ReadAmount(ReplaceFirst(FixedTwo(c), '.', ',')) == Some(c)
  {
    var w, dd := FixedTwoNegativeWithComma(c);
    ReadNegativeAmount(w, dd, c);
  }

  /** The text of a negative amount is already blurred. */
  lemma EditedAmountNegativeBlurred(c: int)
    requires c < 0
    ensures BlurAmount(ReplaceFirst(FixedTwo(c), '.', ',')) == ReplaceFirst(FixedTwo(c), '.', ',')
  {
    var w, dd := FixedTwoNegativeWithComma(c);
    NegativeTextBlurred(w, dd);
  }

  lemma NegativeTextBlurred(w: string, dd: string)
    requires AllDigits(w) && AllDigits(dd) && |dd| == 2
    ensures BlurAmount("-" + w + "," + dd) == "-" + w + "," + dd
  {
    DigitsHaveNo(w, ',');
    assert ',' !in "-" + w;
    DigitsHaveNo(dd, ',');
    BlurOfNormalAmount("-" + w, dd);
  }

  /** The text a record is edited with reads back as its amount, and is already blurred; a new entry starts at zero. */
  lemma DefaultAmountReadsBack(initial: Option<Expense>)
    ensures ReadAmount(DefaultAmountText(initial)) == Some(if initial.Some? then initial.value.amount else 0)
    ensures BlurAmount(DefaultAmountText(initial)) == DefaultAmountText(initial)
  {
    if initial.None? {
      DefaultNewAmount();
      DefaultNewAmountBlurred();
    } else if initial.value.amount < 0 {
      EditedAmountNegative(initial.value.amount);
      EditedAmountNegativeBlurred(initial.value.amount);
    } else {
      EditedAmountNonNegative(initial.value.amount);
      EditedAmountNonNegativeBlurred(initial.value.amount);
    }
  }

  // ===========================================================================
  // Properties of the date field

  lemma {:induction false} NonEmptyKeepsLeading(parts: seq<string>, n: nat)
    requires n <= |parts|
    requires forall k :: 0 <= k < n ==> parts[k] != ""
    ensures |NonEmpty(parts)| >= n && NonEmpty(parts)[..n] == parts[..n]
  {
    if n > 0 {
      NonEmptyKeepsLeading(parts[1..], n - 1);
    }
  }

  lemma {:induction false} NonEmptyOfNonEmpty(parts: seq<string>)
    requires forall k :: 0 <= k < |parts| ==> parts[k] != ""
    ensures NonEmpty(parts) == parts
  {
    if |parts| > 0 {
      NonEmptyOfNonEmpty(parts[1..]);
    }
  }

  /** Joining non-empty digit segments with '/' gives a text whose segments are exactly those. */
  lemma JoinDateSegments(segs: seq<string>)
    requires forall k :: 0 <= k < |segs| ==> segs[k] != "" && AllDigits(segs[k])
    ensures var r := Join(segs, "/");
      && (forall i :: 0 <= i < |r| ==> IsDateChar(r[i]))
      && (|segs| == 0 ==> r == "")
      && (|segs| > 0 ==> Split(r, '/') == segs)
  {
    forall k | 0 <= k < |segs| ensures '/' !in segs[k] {
      forall i | 0 <= i < |segs[k]| ensures segs[k][i] != '/' { assert IsDigit(segs[k][i]); }
    }
    JoinWithin(segs, "/", IsDateChar);
    if |segs| > 0 {
      SplitJoin(segs, '/');
    }
  }

  /**
   * The filtered date holds only digits and '/', and has no empty segment
   * (no leading, trailing or doubled '/'): its segments are the input's
   * non-empty segments after the positional caps.
   */
  lemma FilteredDateOutput(raw: string)
    ensures var r := FilteredDate(raw);
      var segs := NonEmpty(CapSegments(RawSegments(raw)));
      && (forall i :: 0 <= i < |r| ==> IsDateChar(r[i]))
      && (r == "" || (Split(r, '/') == segs && forall k :: 0 <= k < |segs| ==> segs[k] != ""))
      && (r == "" <==> segs == [])
  {
    var parts := RawSegments(raw);
    var segs := NonEmpty(CapSegments(parts));
    forall k | 0 <= k < |segs| ensures segs[k] != "" && AllDigits(segs[k]) {
      var j :| 0 <= j < |parts| && CapSegments(parts)[j] == segs[k];
      PrefixDigits(segs[k], parts[j]);
    }
    JoinDateSegments(segs);
    if segs != [] {
      JoinStartsWithFirst(segs, "/");
    }
  }

  /** When none of the first three raw segments is empty, the day and month have at most 2 characters and the year at most 4. */
  lemma FilteredDateCaps(raw: string)
    requires forall k :: 0 <= k < |RawSegments(raw)| && k < 3 ==> RawSegments(raw)[k] != ""
    ensures var out := Split(FilteredDate(raw), '/');
      && |out[0]| <= 2
      && (|out| > 1 ==> |out[1]| <= 2)
      && (|out| > 2 ==> |out[2]| <= 4)
  {
    var segs := NonEmpty(CapSegments(RawSegments(raw)));
    LeadingSegmentsCapped(RawSegments(raw));
    JoinStartsWithFirst(segs, "/");
    FilteredDateOutput(raw);
  }

  /** With the first three segments present, the kept segments start with the capped day, month and year. */
  lemma LeadingSegmentsCapped(parts: seq<string>)
    requires |parts| >= 1
    requires forall k :: 0 <= k < |parts| && k < 3 ==> parts[k] != ""
    ensures var segs := NonEmpty(CapSegments(parts));
      && |segs| >= 1 && segs[0] != ""
      && |segs[0]| <= 2
      && (|segs| > 1 ==> |segs[1]| <= 2)
      && (|segs| > 2 ==> |segs[2]| <= 4)
  {
    var capped := CapSegments(parts);
    var n := if |parts| < 3 then |parts| else 3;
    forall k | 0 <= k < n ensures capped[k] != "" {
      assert capped[k] == Capped(parts[k], k);
    }
    NonEmptyKeepsLeading(capped, n);
    var segs := NonEmpty(capped);
    assert segs[0] == segs[..n][0] == capped[..n][0] == capped[0] == Capped(parts[0], 0);
    if |segs| > 1 {
      assert n > 1;
      assert segs[1] == segs[..n][1] == capped[..n][1] == capped[1] == Capped(parts[1], 1);
    }
    if |segs| > 2 {
      assert n > 2;
      assert segs[2] == segs[..n][2] == capped[..n][2] == capped[2] == Capped(parts[2], 2);
    }
  }

  lemma JoinStartsWithFirst(segs: seq<string>, sep: string)
    requires |segs| >= 1 && segs[0] != ""
    ensures Join(segs, sep) != ""
  {
    if |segs| > 1 {
      assert |Join(segs, sep)| >= |segs[0]|;
    }
  }

  lemma DateCharsOfDigitsAndSlashes(d: string, y: string)
    requires AllDigits(d) && AllDigits(y)
    ensures Keep(d + "//" + y, IsDateChar) == d + "//" + y
    ensures Keep(d + "/" + y, IsDateChar) == d + "/" + y
  {
    var r := d + "//" + y;
    forall i | 0 <= i < |r| ensures IsDateChar(r[i]) {
      if i < |d| { assert r[i] == d[i]; } else if i >= |d| + 2 { assert r[i] == y[i - |d| - 2]; }
    }
    var q := d + "/" + y;
    forall i | 0 <= i < |q| ensures IsDateChar(q[i]) {
      if i < |d| { assert q[i] == d[i]; } else if i > |d| { assert q[i] == y[i - |d| - 1]; }
    }
  }

  /**
   * As written, an empty segment shifts a later segment into a capped
   * position after the cap was applied: for a one- or two-digit day and a
   * three- or four-digit year, "d//y" becomes "d/y", whose second segment has
   * more than two characters, and filtering that again truncates it to two.
   */
  lemma FilteredDateShiftsSegments(d: string, y: string)
    requires AllDigits(d) && AllDigits(y) && 1 <= |d| <= 2 && 2 < |y| <= 4
    ensures FilteredDate(d + "//" + y) == d + "/" + y
    ensures Split(FilteredDate(d + "//" + y), '/') == [d, y] && |y| > 2
    ensures FilteredDate(FilteredDate(d + "//" + y)) == d + "/" + y[..2]
  {
    FilteredDoubleSlash(d, y);
    FilteredSingleSlash(d, y);
    DigitsHaveNo(d, '/');
    DigitsHaveNo(y, '/');
    SplitOneSlash(d, y);
  }

  lemma SplitOneSlash(d: string, y: string)
    requires '/' !in d && '/' !in y
    ensures Split(d + "/" + y, '/') == [d, y]
  {
    assert d + "/" + y == d + ['/'] + y;
    SplitAfter(d, y, '/');
    SplitNoSeparator(y, '/');
  }

  lemma SplitDoubleSlash(d: string, y: string)
    requires '/' !in d && '/' !in y
    ensures Split(d + "//" + y, '/') == [d, "", y]
  {
    assert d + "//" + y == d + ['/'] + ("" + ['/'] + y);
    SplitAfter(d, "" + ['/'] + y, '/');
    SplitAfter("", y, '/');
    SplitNoSeparator(y, '/');
  }

  /** "d//y" is filtered to "d/y": the empty middle segment is dropped after the caps. */
  lemma FilteredDoubleSlash(d: string, y: string)
    requires AllDigits(d) && AllDigits(y) && 1 <= |d| <= 2 && 1 <= |y| <= 4
    ensures FilteredDate(d + "//" + y) == d + "/" + y
  {
    DateCharsOfDigitsAndSlashes(d, y);
    DigitsHaveNo(d, '/');
    DigitsHaveNo(y, '/');
    SplitDoubleSlash(d, y);
    assert RawSegments(d + "//" + y) == [d, "", y];
    KeptAfterCaps(d, y);
    Join2(d, y, "/");
  }

  lemma KeptAfterCaps(d: string, y: string)
    requires 1 <= |d| <= 2 && 1 <= |y| <= 4
    ensures NonEmpty(CapSegments([d, "", y])) == [d, y]
  {
    assert CapSegments([d, "", y]) == [d, "", y];
    assert [d, "", y][1..] == ["", y];
    assert ["", y][1..] == [y];
    assert [y][1..] == [];
    assert NonEmpty([y]) == [y];
    assert NonEmpty(["", y]) == [y];
  }

  /** "d/y" with a year of more than two digits is filtered to "d/" and the first two of them. */
  lemma FilteredSingleSlash(d: string, y: string)
    requires AllDigits(d) && AllDigits(y) && 1 <= |d| <= 2 && 2 < |y|
    ensures FilteredDate(d + "/" + y) == d + "/" + y[..2]
  {
    DateCharsOfDigitsAndSlashes(d, y);
    DigitsHaveNo(d, '/');
    DigitsHaveNo(y, '/');
    SplitOneSlash(d, y);
    assert RawSegments(d + "/" + y) == [d, y];
    SecondCapped(d, y);
    Join2(d, y[..2], "/");
  }

  lemma SecondCapped(d: string, y: string)
    requires 1 <= |d| <= 2 && 2 < |y|
    ensures NonEmpty(CapSegments([d, y])) == [d, y[..2]]
  {
    assert CapSegments([d, y]) == [d, y[..2]];
    assert [d, y[..2]][1..] == [y[..2]];
  }

  /** The concrete case: "1//2345" is filtered to "1/2345", and that again to "1/23". */
  lemma FilteredDateShiftExample()
    ensures FilteredDate("1//2345") == "1/2345"
    ensures FilteredDate("1/2345") == "1/23"
  {
    ExampleTexts();
    FilteredDoubleSlash("1", "2345");
    FilteredSingleSlash("1", "2345");
  }

  lemma ExampleTexts()
    ensures AllDigits("1") && AllDigits("2345")
    ensures "1" + "//" + "2345" == "1//2345"
    ensures "1" + "/" + "2345" == "1/2345"
    ensures "1" + "/" + "2345"[..2] == "1/23"
  {
  }

  lemma CappedTwice(parts: seq<string>)
    ensures CapSegments(CapSegments(parts)) == CapSegments(parts)
  {
  }

  /** With the caps applied to the kept segments, every output segment respects its cap, for every input. */
  lemma FilteredDateIntendedCaps(raw: string)
    ensures var r := FilteredDateIntended(raw);
      var out := Split(r, '/');
      && (forall i :: 0 <= i < |r| ==> IsDateChar(r[i]))
      && (r == "" || forall k :: 0 <= k < |out| ==> out[k] != "" && (SegmentCap(k).Some? ==> |out[k]| <= SegmentCap(k).value))
  {
    var parts := RawSegments(raw);
    var segs := CapSegments(NonEmpty(parts));
    forall k | 0 <= k < |segs| ensures segs[k] != "" && AllDigits(segs[k]) {
      var j :| 0 <= j < |parts| && parts[j] == NonEmpty(parts)[k];
      assert segs[k] == Capped(NonEmpty(parts)[k], k);
      PrefixDigits(segs[k], parts[j]);
    }
    JoinDateSegments(segs);
  }

  /** With the caps applied to the kept segments, filtering is idempotent. */
  lemma FilteredDateIntendedIdempotent(raw: string)
    ensures FilteredDateIntended(FilteredDateIntended(raw)) == FilteredDateIntended(raw)
  {
    var parts := RawSegments(raw);
    var segs := CapSegments(NonEmpty(parts));
    var r := FilteredDateIntended(raw);
    forall k | 0 <= k < |segs| ensures segs[k] != "" && AllDigits(segs[k]) {
      var j :| 0 <= j < |parts| && parts[j] == NonEmpty(parts)[k];
      assert segs[k] == Capped(NonEmpty(parts)[k], k);
      PrefixDigits(segs[k], parts[j]);
    }
    JoinDateSegments(segs);
    assert Keep(r, IsDateChar) == r;
    if |segs| == 0 {
      assert Split(r, '/') == [""];
      assert NonEmpty([""]) == [];
    } else {
      NonEmptyOfNonEmpty(segs);
      CappedTwice(NonEmpty(parts));
    }
  }

  lemma PadStartKeepsOut(s: string, c: char)
    requires c != '0' && c !in s
    ensures c !in PadStart(s, 2, '0')
  {
    var r := PadStart(s, 2, '0');
    forall i | 0 <= i < |r| ensures r[i] != c {
      if i >= |r| - |s| { assert r[i] == r[|r| - |s|..][i - (|r| - |s|)]; }
    }
  }

  /**
   * Blur gives exactly three segments: the day and the month left-padded with
   * '0' to at least two characters (an absent month stays empty), and the
   * year verbatim, or the text "undefined" when there are fewer than three
   * segments.
   */
  lemma BlurDateSegments(v: string)
    ensures var parts := Split(v, '/');
      Split(BlurDate(v), '/') == [
        PadStart(parts[0], 2, '0'),
        (if |parts| > 1 then PadStart(parts[1], 2, '0') else ""),
        (if |parts| > 2 then parts[2] else "undefined")]
  {
    var parts := Split(v, '/');
    var dd := PadStart(parts[0], 2, '0');
    var mm := if |parts| > 1 then PadStart(parts[1], 2, '0') else "";
    var yy := if |parts| > 2 then parts[2] else "undefined";
    BlurredPiecesFree(parts);
    SplitThree(dd, mm, yy, "/", '/');
  }

  lemma BlurredPiecesFree(parts: seq<string>)
    requires |parts| >= 1 && forall i :: 0 <= i < |parts| ==> '/' !in parts[i]
    ensures '/' !in PadStart(parts[0], 2, '0')
    ensures '/' !in (if |parts| > 1 then PadStart(parts[1], 2, '0') else "")
    ensures '/' !in (if |parts| > 2 then parts[2] else "undefined")
  {
    PadStartKeepsOut(parts[0], '/');
    if |parts| > 1 { PadStartKeepsOut(parts[1], '/'); }
    assert '/' !in "undefined";
  }

  /** A date whose day and month already have two or more characters, with exactly three segments, is unchanged by blur. */
  lemma BlurDateKeepsPadded(v: string)
    requires var parts := Split(v, '/'); |parts| == 3 && |parts[0]| >= 2 && |parts[1]| >= 2
    ensures BlurDate(v) == v
  {
    var parts := Split(v, '/');
    JoinSplit(v, '/');
    assert parts == [parts[0], parts[1], parts[2]];
    Join3(parts[0], parts[1], parts[2], ['/']);
  }

  /** Blur is idempotent once the text has a month segment. */
  lemma BlurDateIdempotent(v: string)
    requires |Split(v, '/')| >= 2
    ensures BlurDate(BlurDate(v)) == BlurDate(v)
  {
    BlurDateSegments(v);
    BlurDateKeepsPadded(BlurDate(v));
  }

  // ===========================================================================
  // Properties of submit

  /** A date text "d/m/y" of digit segments splits into exactly those three segments. */
  lemma SplitNormalDate(d: string, m: string, y: string)
    requires AllDigits(d) && AllDigits(m) && AllDigits(y)
    ensures Split(d + "/" + m + "/" + y, '/') == [d, m, y]
  {
    DigitsHaveNo(d, '/');
    DigitsHaveNo(m, '/');
    DigitsHaveNo(y, '/');
    SplitThree(d, m, y, "/", '/');
  }

  /** A date text "d/m/y" of digit segments is submitted as the local date (y, m - 1, d). */
  lemma SubmittedNormalDate(d: string, m: string, y: string, localDate: (int, int, int) -> Option<Timestamp>)
    requires AllDigits(d) && AllDigits(m) && AllDigits(y)
    ensures SubmittedDate(d + "/" + m + "/" + y, localDate) == localDate(DigitsValue(y), DigitsValue(m) - 1, DigitsValue(d))
  {
    SplitNormalDate(d, m, y);
    DigitSegmentsDate(d, m, y, localDate);
  }

  lemma DigitSegmentsDate(d: string, m: string, y: string, localDate: (int, int, int) -> Option<Timestamp>)
    requires AllDigits(d) && AllDigits(m) && AllDigits(y)
    ensures DateOfSegments([d, m, y], localDate) == localDate(DigitsValue(y), DigitsValue(m) - 1, DigitsValue(d))
  {
    var parts := [d, m, y];
    assert parts[0] == d && SegmentAt(parts, 1) == Some(m) && SegmentAt(parts, 2) == Some(y);
  }

  /**
   * A submission yields a draft exactly when both the amount and the date
   * read as numbers; the draft then carries what they read as, the text
   * fields as typed, and `updatedAt` set to now exactly when a record is
   * being edited.
   */
  lemma SubmitReadsFields(values: FormValues, initial: Option<Expense>, now: Timestamp,
                          localDate: (int, int, int) -> Option<Timestamp>, amount: int, date: Timestamp)
    ensures HandleSubmit(values, initial, now, localDate).Some? <==>
      ReadAmount(values.amount).Some? && SubmittedDate(values.date, localDate).Some?
    ensures ReadAmount(values.amount) == Some(amount) && SubmittedDate(values.date, localDate) == Some(date) ==>
      HandleSubmit(values, initial, now, localDate) ==
        Some(Draft(values.description, amount, date, values.category, values.paymentMethod,
                   if initial.Some? then Some(now) else None))
  {
  }

  /** Submitting an edit without touching the amount keeps the record's amount, and sets `updatedAt` to now. */
  lemma SubmitUntouchedEdit(e: Expense, formatDate: Timestamp -> string, today: Timestamp, now: Timestamp,
                            localDate: (int, int, int) -> Option<Timestamp>)
    ensures var r := HandleSubmit(DefaultValues(Some(e), formatDate, today), Some(e), now, localDate);
      r.Some? ==> r.value.amount == e.amount && r.value.description == e.description &&
                  r.value.category == e.category && r.value.paymentMethod == e.paymentMethod &&
                  r.value.updatedAt == Some(now)
  {
    DefaultAmountReadsBack(Some(e));
  }
}
