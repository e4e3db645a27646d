/** `clean_salary`: the currency-text parser of the transform stage. */
module Salary {
  import opened Wrappers
  import opened Text
  import opened Tables

  /** x / 10^k, written with division by the constant ten. */
  function Shift(x: real, k: nat): real {
    if k == 0 then x else Shift(x, k - 1) / 10.0
  }

  /** After the point: digits only, up to the end; the value is whole + frac / 10^width. */
  function ScanFraction(u: string, whole: nat, frac: nat, width: nat, seen: bool): Option<real>
    decreases |u|
  {
    if u == [] then (if seen then Some(whole as real + Shift(frac as real, width)) else None)
    else if IsDigit(u[0]) then ScanFraction(u[1..], whole, frac * 10 + DigitValue(u[0]), width + 1, true)
    else None
  }

  /** Before the point: digits, then either the end or a point and a fraction; `seen` records a digit. */
  function ScanWhole(u: string, whole: nat, seen: bool): Option<real>
    decreases |u|
  {
    if u == [] then (if seen then Some(whole as real) else None)
    else if IsDigit(u[0]) then ScanWhole(u[1..], whole * 10 + DigitValue(u[0]), true)
    else if u[0] == '.' then ScanFraction(u[1..], whole, 0, 0, seen)
    else None
  }

  /**
   * The plain decimal literals `float()` accepts: an optional sign, digits, an
   * optional point and digits. A text is read exactly when it is such a
   * literal; any other text gives None instead of raising.
   */
  function ParseDecimal(s: string): (r: Option<real>)
    ensures r.Some? <==> IsDecimalLiteral(s)
  {
    if |s| > 0 && (s[0] == '+' || s[0] == '-') then
      ScanWholeAccepts(s[1..], 0, false);
      match ScanWhole(s[1..], 0, false)
      case None => None
      case Some(v) => Some(if s[0] == '-' then -v else v)
    else
      ScanWholeAccepts(s, 0, false);
      ScanWhole(s, 0, false)
  }

  // The grammar of those literals, stated without scanning.

  predicate HasDigit(u: string) {
    exists i :: 0 <= i < |u| && IsDigit(u[i])
  }

  predicate AtMostOnePoint(u: string) {
    forall i, j :: 0 <= i < j < |u| && u[i] == '.' ==> u[j] != '.'
  }

  /** Digits and points only, at most one point, at least one digit. */
  predicate IsUnsignedLiteral(u: string) {
    (forall i :: 0 <= i < |u| ==> IsDigit(u[i]) || u[i] == '.') && AtMostOnePoint(u) && HasDigit(u)
  }

  predicate IsDecimalLiteral(s: string) {
    if |s| > 0 && (s[0] == '+' || s[0] == '-') then IsUnsignedLiteral(s[1..]) else IsUnsignedLiteral(s)
  }

  lemma HasDigitTail(u: string)
    requires u != []
    ensures HasDigit(u) <==> IsDigit(u[0]) || HasDigit(u[1..])
  {
    if HasDigit(u) && !IsDigit(u[0]) {
      var i :| 0 <= i < |u| && IsDigit(u[i]);
      assert u[1..][i - 1] == u[i];
    }
    if HasDigit(u[1..]) {
      var i :| 0 <= i < |u| - 1 && IsDigit(u[1..][i]);
      assert u[i + 1] == u[1..][i];
    }
  }

  lemma {:induction false} ScanFractionAccepts(u: string, whole: nat, frac: nat, width: nat, seen: bool)
    ensures ScanFraction(u, whole, frac, width, seen).Some? <==> AllDigits(u) && (seen || HasDigit(u))
    decreases |u|
  {
    if u != [] {
      HasDigitTail(u);
      assert AllDigits(u) <==> IsDigit(u[0]) && AllDigits(u[1..]) by {
        assert forall i :: 1 <= i < |u| ==> u[i] == u[1..][i - 1];
      }
      if IsDigit(u[0]) {
        ScanFractionAccepts(u[1..], whole, frac * 10 + DigitValue(u[0]), width + 1, true);
      }
    }
  }

  lemma {:induction false} ScanWholeAccepts(u: string, whole: nat, seen: bool)
    ensures ScanWhole(u, whole, seen).Some? <==>
            (forall i :: 0 <= i < |u| ==> IsDigit(u[i]) || u[i] == '.') && AtMostOnePoint(u) && (seen || HasDigit(u))
    decreases |u|
  {
    if u != [] {
      var t := u[1..];
      HasDigitTail(u);
      assert forall i :: 1 <= i < |u| ==> u[i] == t[i - 1];
      assert (forall i :: 0 <= i < |u| ==> IsDigit(u[i]) || u[i] == '.') <==>
             (IsDigit(u[0]) || u[0] == '.') && (forall i :: 0 <= i < |t| ==> IsDigit(t[i]) || t[i] == '.') by {
        if forall i :: 0 <= i < |t| ==> IsDigit(t[i]) || t[i] == '.' {
          forall i | 1 <= i < |u| ensures IsDigit(u[i]) || u[i] == '.' {
            assert t[i - 1] == u[i];
          }
        }
      }
      if IsDigit(u[0]) {
        ScanWholeAccepts(t, whole * 10 + DigitValue(u[0]), true);
        assert AtMostOnePoint(u) <==> AtMostOnePoint(t) by {
          if AtMostOnePoint(t) {
            forall i, j | 0 <= i < j < |u| && u[i] == '.' ensures u[j] != '.' {
              assert t[i - 1] == u[i] && t[j - 1] == u[j];
            }
          }
        }
      } else if u[0] == '.' {
        ScanFractionAccepts(t, whole, 0, 0, seen);
        assert AtMostOnePoint(u) && (forall i :: 0 <= i < |u| ==> IsDigit(u[i]) || u[i] == '.')
               <==> AllDigits(t) by {
          if AllDigits(t) {
            forall i, j | 0 <= i < j < |u| && u[i] == '.' ensures u[j] != '.' {
              assert t[j - 1] == u[j];
            }
            forall i | 0 <= i < |u| ensures IsDigit(u[i]) || u[i] == '.' {
              if i > 0 { assert t[i - 1] == u[i]; }
            }
          }
          if AtMostOnePoint(u) && (forall i :: 0 <= i < |u| ==> IsDigit(u[i]) || u[i] == '.') {
            forall i | 0 <= i < |t| ensures IsDigit(t[i]) {
              assert u[i + 1] == t[i] && u[0] == '.';
            }
          }
        }
      }
    }
  }

  // Formatting a decimal and reading it back.

  /** The unsigned literal "n.f" with the fraction in `width` digits, or "n" when width is 0. */
  function FormatUnsigned(whole: nat, frac: nat, width: nat): string {
    ShowNat(whole) + (if width > 0 then "." + PadNat(frac, width) else "")
  }

  /** The signed literal "[-]n.f". */
  function FormatDecimal(negative: bool, whole: nat, frac: nat, width: nat): string {
    (if negative then "-" else "") + FormatUnsigned(whole, frac, width)
  }

  /** The number "[-]n.f" stands for. */
  function DecimalValue(negative: bool, whole: nat, frac: nat, width: nat): real {
    var v := whole as real + Shift(frac as real, width);
    if negative then -v else v
  }

  lemma {:induction false} ScanFractionDigits(s: string, whole: nat, frac: nat, width: nat, seen: bool)
    requires AllDigits(s) && (seen || |s| > 0)
    ensures ScanFraction(s, whole, frac, width, seen) == Some(whole as real + Shift(DigitsFrom(frac, s) as real, width + |s|))
    decreases |s|
  {
    if s != [] {
      ScanFractionDigits(s[1..], whole, frac * 10 + DigitValue(s[0]), width + 1, true);
    }
  }

  lemma {:induction false} ScanWholeDigits(s: string, rest: string, whole: nat, seen: bool)
    requires AllDigits(s)
    ensures ScanWhole(s + rest, whole, seen) == ScanWhole(rest, DigitsFrom(whole, s), seen || |s| > 0)
    decreases |s|
  {
    if s == [] {
      assert s + rest == rest;
    } else {
      assert (s + rest)[1..] == s[1..] + rest;
      ScanWholeDigits(s[1..], rest, whole * 10 + DigitValue(s[0]), true);
    }
  }

  lemma ParseFormattedUnsigned(whole: nat, frac: nat, width: nat)
    requires frac < Pow10(width)
    ensures ScanWhole(FormatUnsigned(whole, frac, width), 0, false) == Some(DecimalValue(false, whole, frac, width))
  {
    var w := ShowNat(whole);
    ShowNatValue(whole);
    if width > 0 {
      var p := PadNat(frac, width);
      ScanWholeDigits(w, "." + p, 0, false);
      assert ("." + p)[1..] == p;
      ScanFractionDigits(p, whole, 0, 0, true);
      PadNatValue(frac, width);
    } else {
      ScanWholeDigits(w, "", 0, false);
      assert w + "" == w;
    }
  }

  /** Reading a formatted decimal gives back its value. */
  lemma ParseFormattedDecimal(negative: bool, whole: nat, frac: nat, width: nat)
    requires frac < Pow10(width)
    ensures ParseDecimal(FormatDecimal(negative, whole, frac, width)) == Some(DecimalValue(negative, whole, frac, width))
  {
    ParseFormattedUnsigned(whole, frac, width);
    var u := FormatUnsigned(whole, frac, width);
    assert IsDigit(u[0]) by {
      assert u[0] == ShowNat(whole)[0];
    }
    if negative {
      assert FormatDecimal(negative, whole, frac, width)[1..] == u;
    } else {
      assert FormatDecimal(negative, whole, frac, width) == u;
    }
  }

  // The value of every literal: "+5", ".5", "5." and "007.50" included.

  /** The text `sign a` or `sign a.b`: a sign ("", "+" or "-"), the digits before the point and those after it. */
  function LiteralText(sign: string, a: string, point: bool, b: string): string {
    sign + a + (if point then "." + b else "")
  }

  /** The parts of a literal: a known sign, digits on both sides, no digits after a missing point, at least one digit. */
  predicate IsLiteralParts(sign: string, a: string, point: bool, b: string) {
    (sign == "" || sign == "+" || sign == "-") && AllDigits(a) && AllDigits(b) && (point || b == []) && (a != [] || b != [])
  }

  /** The number the parts stand for: a + b / 10^|b|, negated under '-'. */
  function LiteralValue(sign: string, a: string, b: string): real {
    var v := DigitsFrom(0, a) as real + Shift(DigitsFrom(0, b) as real, |b|);
    if sign == "-" then -v else v
  }

  lemma ScanLiteral(a: string, point: bool, b: string)
    requires IsLiteralParts("", a, point, b)
    ensures ScanWhole(LiteralText("", a, point, b), 0, false) == Some(LiteralValue("", a, b))
  {
    var rest := if point then "." + b else "";
    assert LiteralText("", a, point, b) == a + rest;
    ScanWholeDigits(a, rest, 0, false);
    if point {
      assert rest[0] == '.' && rest[1..] == b;
      ScanFractionDigits(b, DigitsFrom(0, a), 0, 0, |a| > 0);
    }
  }

  /** Every literal is read as the number its parts stand for. */
  lemma ParseLiteral(sign: string, a: string, point: bool, b: string)
    requires IsLiteralParts(sign, a, point, b)
    ensures ParseDecimal(LiteralText(sign, a, point, b)) == Some(LiteralValue(sign, a, b))
  {
    var u := LiteralText("", a, point, b);
    var s := LiteralText(sign, a, point, b);
    ScanLiteral(a, point, b);
    assert s == sign + u;
    if sign == "" {
      assert u[0] == if a != [] then a[0] else '.';
    } else {
      assert s[0] == sign[0] && s[1..] == u;
    }
  }

  lemma LiteralPartsUnsigned(u: string)
    requires IsUnsignedLiteral(u)
    ensures exists a, point, b :: IsLiteralParts("", a, point, b) && u == LiteralText("", a, point, b)
  {
    if p :| 0 <= p < |u| && u[p] == '.' {
      var a, b := u[..p], u[p + 1..];
      forall i | 0 <= i < |a| ensures IsDigit(a[i]) {
        assert a[i] == u[i] && u[i] != '.';
      }
      forall j | 0 <= j < |b| ensures IsDigit(b[j]) {
        assert b[j] == u[p + 1 + j];
      }
      var i :| 0 <= i < |u| && IsDigit(u[i]);
      if i < p {
        assert a[i] == u[i];
      } else {
        assert b[i - p - 1] == u[i];
      }
      assert u == LiteralText("", a, true, b);
    } else {
      assert AllDigits(u);
      assert u == LiteralText("", u, false, []);
    }
  }

  /** Every literal the parser accepts splits into such parts. */
  lemma LiteralParts(s: string)
    requires IsDecimalLiteral(s)
    ensures exists sign, a, point, b :: IsLiteralParts(sign, a, point, b) && s == LiteralText(sign, a, point, b)
  {
    if |s| > 0 && (s[0] == '+' || s[0] == '-') {
      LiteralPartsUnsigned(s[1..]);
      var a, point, b :| IsLiteralParts("", a, point, b) && s[1..] == LiteralText("", a, point, b);
      assert s == LiteralText([s[0]], a, point, b);
      assert IsLiteralParts([s[0]], a, point, b);
    } else {
      LiteralPartsUnsigned(s);
    }
  }

  /**
   * `r` is what `float()` gives for `x` under the literal grammar: a number
   * exactly when `x` is a literal, and then the number its parts stand for.
   */
  ghost predicate ReadsAsLiteral(x: string, r: Option<real>) {
    (r.Some? <==> IsDecimalLiteral(x)) &&
    forall sign, a, point, b :: IsLiteralParts(sign, a, point, b) && x == LiteralText(sign, a, point, b) ==>
      r == Some(LiteralValue(sign, a, b))
  }

  /** A text is read as a number exactly when it is a decimal literal, and then as the number its parts stand for. */
  lemma ParseDecimalValue(s: string)
    ensures ReadsAsLiteral(s, ParseDecimal(s))
  {
    forall sign, a, point, b | IsLiteralParts(sign, a, point, b) && s == LiteralText(sign, a, point, b)
      ensures ParseDecimal(s) == Some(LiteralValue(sign, a, b))
    {
      ParseLiteral(sign, a, point, b);
    }
  }

  /** A literal without an integer part: ".5" is one half. */
  lemma ParsePointFive()
    ensures ParseDecimal(".5") == Some(0.5)
  {
    assert LiteralText("", "", true, "5") == ".5";
    ParseLiteral("", "", true, "5");
    assert Shift(5.0, 1) == 0.5;
  }

  /** Leading zeros and a trailing zero are read as plain digits: "007.50" is 7.5. */
  lemma ParseLeadingZeros()
    ensures ParseDecimal("007.50") == Some(7.5)
  {
    assert LiteralText("", "007", true, "50") == "007.50";
    ParseLiteral("", "007", true, "50");
    assert DigitsFrom(0, "007") == 7;
    assert Shift(50.0, 2) == 0.5;
  }

  // clean_salary itself.

  /** The text handed to the parser once every '$' and ',' is deleted. */
  function DropSymbols(s: string): (r: string)
    ensures forall x :: x in r <==> x in s && x != '$' && x != ','
  {
    RemoveCharMembers(s, '$');
    RemoveCharMembers(RemoveChar(s, '$'), ',');
    RemoveChar(RemoveChar(s, '$'), ',')
  }

  lemma DropSymbolsAppend(a: string, b: string)
    ensures DropSymbols(a + b) == DropSymbols(a) + DropSymbols(b)
  {
    RemoveCharAppend(a, b, '$');
    RemoveCharAppend(RemoveChar(a, '$'), RemoveChar(b, '$'), ',');
  }

  /** `clean_salary` on text: '$' and ',' deleted, then stripped, then parsed. */
  function CleanSalaryText(s: string): (r: Option<real>)
    ensures ReadsAsLiteral(Strip(DropSymbols(s)), r)
  {
    ParseDecimalValue(Strip(DropSymbols(s)));
    ParseDecimal(Strip(DropSymbols(s)))
  }

  /**
   * `clean_salary`: None for a missing cell; text is read once every '$' and
   * ',' is deleted and the rest stripped; an integer or float is its own value.
   */
  function CleanSalary(v: Value): (r: Option<real>)
    ensures v.Missing? ==> r.None?
    ensures v.Str? ==> ReadsAsLiteral(Strip(DropSymbols(v.s)), r)
    ensures v.Int? ==> r == Some(v.i as real)
    ensures v.Num? ==> r == Some(v.r)
    ensures v.Date? ==> r.None?
  {
    match v
    case Missing => None
    case Str(s) => CleanSalaryText(s)
    case Int(i) => Some(i as real)
    case Num(x) => Some(x)
    case Date(_) => None
  }

  /** The salary column after `apply(clean_salary)`: a float, or NaN where None came back. */
  function CleanSalaryCell(v: Value): (r: Value)
    ensures r.Missing? || r.Num?
    ensures r.Num? <==> CleanSalary(v).Some?
    ensures r.Num? ==> CleanSalary(v) == Some(r.r)
  {
    match CleanSalary(v)
    case None => Missing
    case Some(x) => Num(x)
  }

  lemma DropSymbolsSkips(a: string, b: string, c: char)
    requires c == '$' || c == ','
    ensures DropSymbols(a + [c] + b) == DropSymbols(a + b)
  {
    DropSymbolsAppend(a + [c], b);
    DropSymbolsAppend(a, [c]);
    DropSymbolsAppend(a, b);
    assert [c][1..] == [];
    assert DropSymbols([c]) == [];
  }

  /** A '$' or ',' anywhere in the text makes no difference to the result. */
  lemma CleanSalaryIgnoresSymbols(a: string, b: string, c: char)
    requires c == '$' || c == ','
    ensures CleanSalaryText(a + [c] + b) == CleanSalaryText(a + b)
  {
    DropSymbolsSkips(a, b, c);
  }

  // The example `"$72,500.00"`, one step per lemma: deleting each symbol,
  // rendering the whole part and scanning the digits are each unfolded on a
  // literal in a lemma of their own, which keeps every proof small;
  // CleanSalaryExample chains them.

  lemma DollarRemoved()
    ensures RemoveChar("$72,500.00", '$') == "72,500.00"
  {
    var s := "$72,500.00";
    assert s[0] == '$' && s[1..] == "72,500.00";
    RemoveCharAbsent("72,500.00", '$');
  }

  lemma CommaRemoved()
    ensures RemoveChar("72,500.00", ',') == "72500.00"
  {
    var a: string, b: string := "72", "500.00";
    assert "72,500.00" == (a + [',']) + b;
    RemoveCharAppend(a + [','], b, ',');
    RemoveCharAppend(a, [','], ',');
    RemoveCharAbsent(a, ',');
    RemoveCharAbsent(b, ',');
    assert RemoveChar([','], ',') == [];
    assert a + b == "72500.00";
  }

  lemma SalaryExampleSymbols()
    ensures DropSymbols("$72,500.00") == "72500.00"
  {
    DollarRemoved();
    CommaRemoved();
  }

  lemma ShowNatExample()
    ensures ShowNat(72500) == "72500"
  {
    assert ShowNat(7) == "7";
    assert ShowNat(72) == "72";
    assert ShowNat(725) == "725";
    assert ShowNat(7250) == "7250";
  }

  lemma SalaryExampleNumber()
    ensures ParseDecimal("72500.00") == Some(72500.0)
  {
    ShowNatExample();
    assert PadNat(0, 2) == "00";
    assert FormatDecimal(false, 72500, 0, 2) == "72500.00";
    ParseFormattedDecimal(false, 72500, 0, 2);
    assert Shift(0.0, 2) == 0.0 by {
      assert Shift(0.0, 1) == 0.0;
    }
  }

  lemma CleanSalaryExample()
    ensures CleanSalary(Str("$72,500.00")) == Some(72500.0)
  {
    SalaryExampleSymbols();
    StripUnchanged("72500.00");
    SalaryExampleNumber();
  }

  lemma CleanSalaryNotANumber()
    ensures CleanSalary(Str("N/A")) == None
  {
    assert DropSymbols("N/A") == "N/A" by {
      RemoveCharAbsent("N/A", '$');
      RemoveCharAbsent("N/A", ',');
    }
    assert Strip("N/A") == "N/A" by {
      StripUnchanged("N/A");
    }
    assert ParseDecimal("N/A") == None;
  }
}
