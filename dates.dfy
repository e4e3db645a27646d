/** `parse_date`: strict day/month/year parsing of the transform stage. */
module Dates {
  import opened Wrappers
  import opened Text
  import opened Tables

  predicate IsLeapYear(y: int) {
    (y % 4 == 0 && y % 100 != 0) || y % 400 == 0
  }

  function DaysInMonth(year: int, month: int): int
    requires 1 <= month <= 12
  {
    if month == 2 then (if IsLeapYear(year) then 29 else 28)
    else if month == 4 || month == 6 || month == 9 || month == 11 then 30
    else 31
  }

  /** A day of the calendar that a timestamp can hold (years 1 to 9999). */
  predicate IsValidDate(d: CalendarDate) {
    1 <= d.year <= 9999 && 1 <= d.month <= 12 && 1 <= d.day <= DaysInMonth(d.year, d.month)
  }

  /** The `len` characters of s from `start` on are digits. */
  predicate DigitsIn(s: string, start: nat, len: nat)
    requires start + len <= |s|
  {
    forall i :: start <= i < start + len ==> IsDigit(s[i])
  }

  /** The number the `len` digits of s from `start` on denote. */
  function DigitsAt(s: string, start: nat, len: nat): nat
    requires start + len <= |s|
    decreases len
  {
    if len == 0 then 0 else DigitsAt(s, start, len - 1) * 10 + DigitValue(s[start + len - 1])
  }

  /** The length of a field of one or two characters starting at `start` and closed by '/'. */
  function ShortField(s: string, start: nat): (r: Option<nat>)
    ensures r.Some? ==> (r.value == 1 || r.value == 2) && start + r.value < |s| && s[start + r.value] == '/'
  {
    if start + 1 < |s| && s[start + 1] == '/' then Some(1)
    else if start + 2 < |s| && s[start + 2] == '/' then Some(2)
    else None
  }

  /**
   * The format '%d/%m/%Y' matched against the whole text: a day of one or two
   * digits, '/', a month of one or two digits, '/', a year of four digits, and
   * the three naming a day of the calendar.
   */
  function ParseDateText(s: string): (r: Option<CalendarDate>)
    ensures r.Some? ==> IsValidDate(r.value)
  {
    match ShortField(s, 0)
    case None => None
    case Some(dl) =>
      match ShortField(s, dl + 1)
      case None => None
      case Some(ml) =>
        var ys := dl + 1 + ml + 1;
        if |s| == ys + 4 && DigitsIn(s, 0, dl) && DigitsIn(s, dl + 1, ml) && DigitsIn(s, ys, 4) then
          var d := CalendarDate(DigitsAt(s, ys, 4), DigitsAt(s, dl + 1, ml), DigitsAt(s, 0, dl));
          if IsValidDate(d) then Some(d) else None
        else None
  }

  /**
   * `parse_date`: missing stays missing; text becomes the day it is a
   * rendering of, and missing when it renders no day; a timestamp is kept.
   */
  function ParseDate(v: Value): (r: Value)
    ensures r.Missing? || r.Date?
    ensures v.Missing? ==> r.Missing?
    ensures v.Str? ==> forall d :: r == Date(d) <==> IsRenderingOf(v.s, d)
  {
    match v
    case Str(s) =>
      ParseDateTextExact(s);
      (match ParseDateText(s) case None => Missing case Some(d) => Date(d))
    case Date(d) => Date(d)
    case _ => Missing
  }

  /** The day written day/month/year, zero-padded to `dl` digits for the day, `ml` for the month and four for the year. */
  function Rendering(d: CalendarDate, dl: nat, ml: nat): string
    requires IsValidDate(d)
  {
    PadNat(d.day, dl) + "/" + PadNat(d.month, ml) + "/" + PadNat(d.year, 4)
  }

  /** `s` is a valid day written with a day and a month of one or two digits each, wide enough for their values. */
  predicate IsRenderingOf(s: string, d: CalendarDate) {
    IsValidDate(d) &&
    exists dl: nat, ml: nat :: 1 <= dl <= 2 && 1 <= ml <= 2 && d.day < Pow10(dl) && d.month < Pow10(ml) &&
      s == Rendering(d, dl, ml)
  }

  lemma {:induction false} DigitsAtSlice(s: string, start: nat, len: nat)
    requires start + len <= |s|
    ensures DigitsAt(s, start, len) == DigitsFrom(0, s[start..start + len])
    decreases len
  {
    if len > 0 {
      DigitsAtSlice(s, start, len - 1);
      assert s[start..start + len] == s[start..start + len - 1] + [s[start + len - 1]];
      DigitsFromSnoc(0, s[start..start + len - 1], s[start + len - 1]);
    } else {
      assert s[start..start] == [];
    }
  }

  lemma PaddedField(s: string, start: nat, n: nat, width: nat)
    requires n < Pow10(width) && start + width <= |s| && s[start..start + width] == PadNat(n, width)
    ensures DigitsIn(s, start, width) && DigitsAt(s, start, width) == n
  {
    forall i | start <= i < start + width ensures IsDigit(s[i]) {
      assert s[i] == PadNat(n, width)[i - start];
    }
    DigitsAtSlice(s, start, width);
    PadNatValue(n, width);
  }

  /** A digit string is the zero-padded rendering of the number it denotes, in its own width. */
  lemma {:induction false} PadDigits(x: string)
    requires AllDigits(x)
    ensures DigitsFrom(0, x) < Pow10(|x|) && PadNat(DigitsFrom(0, x), |x|) == x
    decreases |x|
  {
    if x != [] {
      var y, c := x[..|x| - 1], x[|x| - 1];
      assert x == y + [c];
      assert AllDigits(y) by {
        forall i | 0 <= i < |y| ensures IsDigit(y[i]) {
          assert y[i] == x[i];
        }
      }
      PadDigits(y);
      DigitsFromSnoc(0, y, c);
      var n := DigitsFrom(0, x);
      assert n / 10 == DigitsFrom(0, y) && n % 10 == DigitValue(c);
      assert DigitChar(DigitValue(c)) == c;
    }
  }

  /** The field of `len` digits from `start` is the rendering, in `len` digits, of the number it denotes. */
  lemma DigitField(s: string, start: nat, len: nat)
    requires start + len <= |s| && DigitsIn(s, start, len)
    ensures DigitsAt(s, start, len) < Pow10(len) && PadNat(DigitsAt(s, start, len), len) == s[start..start + len]
  {
    var x := s[start..start + len];
    forall i | 0 <= i < |x| ensures IsDigit(x[i]) {
      assert x[i] == s[start + i];
    }
    DigitsAtSlice(s, start, len);
    PadDigits(x);
  }

  /** A field of one or two digits closed by '/' is found with its width. */
  lemma FieldWidth(s: string, start: nat, w: nat)
    requires 1 <= w <= 2 && start + w < |s| && DigitsIn(s, start, w) && s[start + w] == '/'
    ensures ShortField(s, start) == Some(w)
  {
    if w == 2 {
      assert IsDigit(s[start + 1]);
    }
  }

  /** Every rendering of a valid day is read back as that day. */
  lemma ParseRendering(d: CalendarDate, dl: nat, ml: nat)
    requires IsValidDate(d) && 1 <= dl <= 2 && 1 <= ml <= 2 && d.day < Pow10(dl) && d.month < Pow10(ml)
    ensures ParseDateText(Rendering(d, dl, ml)) == Some(d)
  {
    var s := Rendering(d, dl, ml);
    var dd, mm, yyyy := PadNat(d.day, dl), PadNat(d.month, ml), PadNat(d.year, 4);
    var ms := dl + 1;
    var ys := ms + ml + 1;
    assert s[0..dl] == dd && s[ms..ms + ml] == mm && s[ys..ys + 4] == yyyy;
    assert s[dl] == '/' && s[ms + ml] == '/' && |s| == ys + 4;
    assert d.year < Pow10(4);
    PaddedField(s, 0, d.day, dl);
    PaddedField(s, ms, d.month, ml);
    PaddedField(s, ys, d.year, 4);
    FieldWidth(s, 0, dl);
    FieldWidth(s, ms, ml);
  }

  /** A text is its three fields and the two separators between them. */
  lemma SplitAtSlashes(s: string, i: nat, j: nat)
    requires i < j < |s| && s[i] == '/' && s[j] == '/'
    ensures s == s[..i] + "/" + s[i + 1..j] + "/" + s[j + 1..]
  {
  }

  /** A day whose padded fields are the given texts renders as those texts. */
  lemma RenderingOfFields(d: CalendarDate, dl: nat, ml: nat, day: string, month: string, year: string)
    requires IsValidDate(d) && 1 <= dl <= 2 && 1 <= ml <= 2 && d.day < Pow10(dl) && d.month < Pow10(ml)
    requires PadNat(d.day, dl) == day && PadNat(d.month, ml) == month && PadNat(d.year, 4) == year
    ensures IsRenderingOf(day + "/" + month + "/" + year, d)
  {
    assert day + "/" + month + "/" + year == Rendering(d, dl, ml);
  }

  /** Three digit fields closed by '/' are the rendering of the day they denote. */
  lemma FieldsAreRendering(s: string, dl: nat, ml: nat, d: CalendarDate)
    requires 1 <= dl <= 2 && 1 <= ml <= 2 && |s| == dl + ml + 6 && s[dl] == '/' && s[dl + 1 + ml] == '/'
    requires DigitsIn(s, 0, dl) && DigitsIn(s, dl + 1, ml) && DigitsIn(s, dl + ml + 2, 4)
    requires d == CalendarDate(DigitsAt(s, dl + ml + 2, 4), DigitsAt(s, dl + 1, ml), DigitsAt(s, 0, dl)) && IsValidDate(d)
    ensures IsRenderingOf(s, d)
  {
    var ms, ys := dl + 1, dl + ml + 2;
    DigitField(s, 0, dl);
    DigitField(s, ms, ml);
    DigitField(s, ys, 4);
    SplitAtSlashes(s, dl, dl + 1 + ml);
    assert s[ys..] == s[ys..ys + 4];
    RenderingOfFields(d, dl, ml, s[..dl], s[ms..ms + ml], s[ys..]);
  }

  /** Every accepted text is a rendering of the day it is read as. */
  lemma ParsedIsRendering(s: string)
    requires ParseDateText(s).Some?
    ensures IsRenderingOf(s, ParseDateText(s).value)
  {
    var dl := ShortField(s, 0).value;
    var ml := ShortField(s, dl + 1).value;
    FieldsAreRendering(s, dl, ml, ParseDateText(s).value);
  }

  /** A text is read as a day exactly when it is a rendering of that day. */
  lemma ParseDateTextExact(s: string)
    ensures forall d :: ParseDateText(s) == Some(d) <==> IsRenderingOf(s, d)
  {
    forall d ensures ParseDateText(s) == Some(d) <==> IsRenderingOf(s, d) {
      if IsRenderingOf(s, d) {
        var dl: nat, ml: nat :| 1 <= dl <= 2 && 1 <= ml <= 2 && d.day < Pow10(dl) && d.month < Pow10(ml) &&
          s == Rendering(d, dl, ml);
        ParseRendering(d, dl, ml);
      }
      if ParseDateText(s) == Some(d) {
        ParsedIsRendering(s);
      }
    }
  }

  lemma ParseDateExample()
    ensures ParseDate(Str("31/01/1990")) == Date(CalendarDate(1990, 1, 31))
  {
    var d := CalendarDate(1990, 1, 31);
    assert Rendering(d, 2, 2) == "31/01/1990";
    ParseRendering(d, 2, 2);
  }

  /** Day and month need not be padded: "1/2/1990" is 1 February 1990. */
  lemma ParseDateUnpadded()
    ensures ParseDate(Str("1/2/1990")) == Date(CalendarDate(1990, 2, 1))
  {
    var d := CalendarDate(1990, 2, 1);
    assert Rendering(d, 1, 1) == "1/2/1990";
    ParseRendering(d, 1, 1);
  }

  /** Year first with '-' separators is not day/month/year: missing, not an exception. */
  lemma ParseDateWrongOrder()
    ensures ParseDate(Str("1990-31-01")) == Missing
  {
  }

  /** 31 February does not exist. */
  lemma ParseDateImpossibleDay()
    ensures ParseDate(Str("31/02/1990")) == Missing
  {
  }
}
