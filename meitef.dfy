/**
 * `etl-meitef/clean_meitef.py`: the two cell cleaners of the MEITEF tidy tables — the period
 * label of a column (`T1`, `6 Meses`, `Anual`, ...) to the month that closes the period, and a
 * year cell (`2018R`, `2019p`, ...) to its four-digit year. A missing cell is `None`.
 */
module Meitef {
  import opened Wrappers
  import opened Text

  // ---------------------------------------------------------------- periodo_to_month

  /** A first quarter: `t1...`, or `1er` anywhere. */
  predicate FirstQuarter(s: String) { IsPrefix("t1", s) || Contains(s, "1er") }
  predicate SecondQuarter(s: String) { IsPrefix("t2", s) || Contains(s, "2do") || Contains(s, "2º") }
  predicate ThirdQuarter(s: String) { IsPrefix("t3", s) || Contains(s, "3er") }
  predicate FourthQuarter(s: String) { IsPrefix("t4", s) || Contains(s, "4to") || Contains(s, "4º") }
  predicate AnyQuarter(s: String) { FirstQuarter(s) || SecondQuarter(s) || ThirdQuarter(s) || FourthQuarter(s) }

  /** Six or nine accumulated months, or the whole year. */
  predicate SixMonths(s: String) { Contains(s, "6") && Contains(s, "mes") }
  predicate NineMonths(s: String) { Contains(s, "9") && Contains(s, "mes") }
  predicate WholeYear(s: String) { Contains(s, "anual") || Contains(s, "año") }

  /** The label as it is matched: trimmed and lower-cased. */
  function PeriodKey(periodo: String): String { Lower(Strip(periodo)) }

  /**
   * The month of a trimmed, lower-cased label: the quarter tests come first and in order, then
   * six and nine months, then the year; anything else has no month.
   */
  function MonthOfKey(s: String): (r: Option<int>)
    ensures FirstQuarter(s) ==> r == Some(3)
    ensures !FirstQuarter(s) && SecondQuarter(s) ==> r == Some(6)
    ensures !FirstQuarter(s) && !SecondQuarter(s) && ThirdQuarter(s) ==> r == Some(9)
    ensures !FirstQuarter(s) && !SecondQuarter(s) && !ThirdQuarter(s) && FourthQuarter(s) ==> r == Some(12)
    ensures !AnyQuarter(s) && SixMonths(s) ==> r == Some(6)
    ensures !AnyQuarter(s) && !SixMonths(s) && NineMonths(s) ==> r == Some(9)
    ensures !AnyQuarter(s) && !SixMonths(s) && !NineMonths(s) && WholeYear(s) ==> r == Some(12)
    ensures r.None? <==> !AnyQuarter(s) && !SixMonths(s) && !NineMonths(s) && !WholeYear(s)
  {
    if FirstQuarter(s) then Some(3)
    else if SecondQuarter(s) then Some(6)
    else if ThirdQuarter(s) then Some(9)
    else if FourthQuarter(s) then Some(12)
    else if SixMonths(s) then Some(6)
    else if NineMonths(s) then Some(9)
    else if WholeYear(s) then Some(12)
    else None
  }

  /** `periodo_to_month`: a missing cell has no month; a label is trimmed and lower-cased first. */
  function PeriodToMonth(periodo: Option<String>): (r: Option<int>)
    ensures r.Some? ==> r.value in {3, 6, 9, 12}
    ensures periodo.None? ==> r.None?
    ensures periodo.Some? ==> r == MonthOfKey(PeriodKey(periodo.value))
  {
    match periodo
    case None => None
    case Some(p) => MonthOfKey(PeriodKey(p))
  }

  /** A quarter label that also mentions six months is read as the quarter: the quarter tests come first. */
  lemma QuarterBeforeAccumulated()
    ensures PeriodToMonth(Some("T1 6 meses")) == Some(3)
  {
    StripPlain("T1 6 meses");
    assert PeriodKey("T1 6 meses") == "t1 6 meses";
  }

  /** `6 Meses` is six accumulated months. */
  lemma SixMonthsLabel()
    ensures PeriodToMonth(Some("6 Meses")) == Some(6)
  {
    assert PeriodKey("6 Meses") == "6 meses" by { StripPlain("6 Meses"); }
    SixMonthsKey();
  }

  lemma SixMonthsKey()
    ensures MonthOfKey("6 meses") == Some(6)
  {
    NoQuarterMarks("6 meses");
    SixMonthsCounted();
  }

  lemma SixMonthsCounted()
    ensures SixMonths("6 meses")
  {
    ContainsAt("6 meses", "6", 0);
    ContainsAt("6 meses", "mes", 2);
  }

  /** `12 Meses` matches none of the tests: it has no month here. */
  lemma TwelveMonthsUnknown()
    ensures PeriodToMonth(Some("12 Meses")) == None
  {
    TwelveMonthsKey();
    UnmarkedKey("12 meses");
  }

  lemma TwelveMonthsKey()
    ensures PeriodKey("12 Meses") == "12 meses"
  {
    StripPlain("12 Meses");
  }

  /** A label without any of the marks the tests look for has no month. */
  lemma UnmarkedKey(s: String)
    requires 't' !in s && 'r' !in s && 'd' !in s && 'º' !in s
    requires '6' !in s && '9' !in s && 'a' !in s
    ensures MonthOfKey(s) == None
  {
    NoQuarterMarks(s);
    NoTotalMarks(s);
  }

  /** A label without `t`, `r`, `d` and `º` names no quarter. */
  lemma NoQuarterMarks(s: String)
    requires 't' !in s && 'r' !in s && 'd' !in s && 'º' !in s
    ensures !AnyQuarter(s)
  {
    PrefixAt("t1", s, 0);
    PrefixAt("t2", s, 0);
    PrefixAt("t3", s, 0);
    PrefixAt("t4", s, 0);
    NotContained(s, "1er", 2);
    NotContained(s, "2do", 1);
    NotContained(s, "2º", 1);
    NotContained(s, "3er", 2);
    NotContained(s, "4to", 1);
    NotContained(s, "4º", 1);
  }

  /** A label without `6`, `9` and `a` names no accumulated period. */
  lemma NoTotalMarks(s: String)
    requires '6' !in s && '9' !in s && 'a' !in s
    ensures !SixMonths(s) && !NineMonths(s) && !WholeYear(s)
  {
    NotContained(s, "6", 0);
    NotContained(s, "9", 0);
    NotContained(s, "anual", 0);
    NotContained(s, "año", 0);
  }

  /** A text that starts with `p` agrees with `p` at each position of `p`. */
  lemma PrefixAt(p: String, s: String, k: nat)
    requires k < |p|
    ensures IsPrefix(p, s) ==> k < |s| && s[k] == p[k]
  {
    if IsPrefix(p, s) { assert s[..|p|][k] == s[k]; }
  }

  /** A text lacking one character of `sub` does not contain `sub`. */
  lemma NotContained(s: String, sub: String, k: nat)
    requires k < |sub| && sub[k] !in s
    ensures !Contains(s, sub)
  {
    if Contains(s, sub) {
      ContainsChars(s, sub);
    }
  }

  // ---------------------------------------------------------------- clean_anio_value

  /** Four ASCII digits start at `j`. */
  predicate FourDigitsAt(s: String, j: nat) { j + 4 <= |s| && AllDigits(s[j..j + 4]) }

  lemma FourDigitsShift(s: String)
    requires s != []
    ensures forall j: nat :: j >= 1 ==> (FourDigitsAt(s, j) <==> FourDigitsAt(s[1..], j - 1))
  {
    forall j: nat | j >= 1 ensures FourDigitsAt(s, j) <==> FourDigitsAt(s[1..], j - 1) {
      if j + 4 <= |s| {
        var a, b := s[j..j + 4], s[1..][j - 1..j + 3];
        assert forall k :: 0 <= k < 4 ==> a[k] == b[k];
      }
    }
  }

  /** The first position where four ASCII digits follow one another (`re.search(r"\d{4}", s)`). */
  function FindFourDigits(s: String): (r: Option<nat>)
    ensures r.Some? ==> FourDigitsAt(s, r.value)
    ensures r.Some? ==> forall j: nat :: j < r.value ==> !FourDigitsAt(s, j)
    ensures r.None? ==> forall j: nat :: !FourDigitsAt(s, j)
    decreases |s|
  {
    if |s| < 4 then None
    else if AllDigits(s[..4]) then (assert s[0..4] == s[..4]; Some(0))
    else
      FourDigitsShift(s);
      assert s[0..4] == s[..4];
      match FindFourDigits(s[1..])
      case None => None
      case Some(k) => Some(k + 1)
  }

  /**
   * `clean_anio_value`: the number written by the first four consecutive digits of the cell;
   * none for a missing cell or one without four consecutive digits.
   */
  function CleanYear(anio: Option<String>): (r: Option<int>)
    ensures r.Some? ==> 0 <= r.value <= 9999
    ensures r.Some? <==> anio.Some? && FindFourDigits(anio.value).Some?
    ensures r.Some? ==> var i := FindFourDigits(anio.value).value; r.value == DigitsValue(anio.value[i..i + 4])
  {
    match anio
    case None => None
    case Some(s) =>
      match FindFourDigits(s)
      case None => None
      case Some(i) => FourDigitsBound(s[i..i + 4]); Some(DigitsValue(s[i..i + 4]))
  }

  lemma FourDigitsBound(d: String)
    requires |d| == 4 && AllDigits(d)
    ensures DigitsValue(d) <= 9999
  {
    var a, b, c := d[..1], d[..2], d[..3];
    assert c[..2] == b && b[..1] == a && a[..0] == [];
    assert DigitsValue(a) <= 9;
    assert DigitsValue(b) <= 99;
    assert DigitsValue(c) <= 999;
  }

  /** A four-digit year is written with four digits. */
  lemma YearDigits(y: nat)
    requires 1000 <= y <= 9999
    ensures |NatToString(y)| == 4
  {
    assert y / 10 / 10 == y / 100 && y / 100 / 10 == y / 1000;
    assert |NatToString(y / 1000)| == 1;
    assert |NatToString(y / 100)| == 2;
    assert |NatToString(y / 10)| == 3;
  }

  /** The year is read from the leftmost run of four digits, wherever it starts. */
  lemma CleanYearAt(s: String, i: nat)
    requires FourDigitsAt(s, i) && forall j: nat :: j < i ==> !FourDigitsAt(s, j)
    ensures CleanYear(Some(s)) == Some(DigitsValue(s[i..i + 4]))
  {
    assert FindFourDigits(s).Some?;
  }

  /** A year after a text without digits and before any mark (`p2019`, `2018R`) is read back as that year. */
  lemma CleanYearAfter(pre: String, y: nat, mark: String)
    requires 1000 <= y <= 9999
    requires forall j :: 0 <= j < |pre| ==> !IsDigit(pre[j])
    ensures CleanYear(Some(pre + NatToString(y) + mark)) == Some(y)
  {
    var s := pre + NatToString(y) + mark;
    var i := |pre|;
    YearDigits(y);
    assert s[i..i + 4] == NatToString(y);
    forall j: nat | j < i ensures !FourDigitsAt(s, j) {
      if j + 4 <= |s| { assert s[j..j + 4][0] == pre[j]; }
    }
    CleanYearAt(s, i);
    NatToStringRoundTrip(y);
  }

  /** A year followed by any revision mark (`2018R`, `2019p`) is read back as that year. */
  lemma CleanYearMarked(y: nat, mark: String)
    requires 1000 <= y <= 9999
    ensures CleanYear(Some(NatToString(y) + mark)) == Some(y)
  {
    var s := NatToString(y) + mark;
    YearDigits(y);
    assert s[..4] == NatToString(y) && s[0..4] == s[..4];
    NatToStringRoundTrip(y);
  }
}
