/**
 * What `parquet.py` reads off a CSV file name: the survey module (VIVT, HOGT, SDEMT, COE1T,
 * COE2T) and, when the name carries it, the year and quarter (`..._2024_trim3...`).
 */
module Classify {
  import opened Wrappers
  import opened Text

  /** The five survey modules, in the order in which they are looked for. */
  const Modules: seq<String> := ["VIVT", "HOGT", "SDEMT", "COE1T", "COE2T"]

  function FirstTag(up: String, tags: seq<String>): (r: Option<nat>)
    ensures r.Some? ==> r.value < |tags| && Contains(up, tags[r.value])
    ensures r.Some? ==> forall j :: 0 <= j < r.value ==> !Contains(up, tags[j])
    ensures r.None? <==> forall j :: 0 <= j < |tags| ==> !Contains(up, tags[j])
  {
    if tags == [] then None
    else if Contains(up, tags[0]) then Some(0)
    else match FirstTag(up, tags[1..])
      case None => None
      case Some(k) => Some(k + 1)
  }

  /**
   * `detect_module_from_filename`: the first module tag found in the upper-cased name;
   * failing that, "COE1" and "COE2" alone also name their modules.
   */
  function DetectModule(name: String): (r: Option<String>)
    ensures r.Some? ==> r.value in Modules
    ensures forall k :: 0 <= k < |Modules| && Contains(Upper(name), Modules[k]) ==>
              r.Some? && exists j :: 0 <= j <= k && r.value == Modules[j] && Contains(Upper(name), Modules[j])
    ensures r.None? <==> (forall k :: 0 <= k < |Modules| ==> !Contains(Upper(name), Modules[k]))
                          && !Contains(Upper(name), "COE1") && !Contains(Upper(name), "COE2")
    ensures (forall k :: 0 <= k < |Modules| ==> !Contains(Upper(name), Modules[k])) ==>
              (Contains(Upper(name), "COE1") ==> r == Some("COE1T"))
              && (!Contains(Upper(name), "COE1") && Contains(Upper(name), "COE2") ==> r == Some("COE2T"))
  {
    var up := Upper(name);
    match FirstTag(up, Modules)
    case Some(k) => Some(Modules[k])
    case None =>
      if Contains(up, "COE1") then Some("COE1T")
      else if Contains(up, "COE2") then Some("COE2T")
      else None
  }

  lemma {:induction false} ContainsExtend(s: String, sub: String, more: String)
    requires Contains(s, sub + more)
    ensures Contains(s, sub)
  {
    var i := ContainsWitness(s, sub + more);
    assert s[i..i + |sub|] == (sub + more)[..|sub|];
    ContainsAt(s, sub, i);
  }

  /**
   * A name is assigned a module exactly when its upper-cased form mentions VIVT, HOGT, SDEMT,
   * COE1 or COE2: the "COE1"/"COE2" fall-back covers every name containing "COE1T"/"COE2T".
   */
  lemma DetectModuleSome(name: String)
    ensures DetectModule(name).Some? <==>
      var up := Upper(name);
      Contains(up, "VIVT") || Contains(up, "HOGT") || Contains(up, "SDEMT") || Contains(up, "COE1") || Contains(up, "COE2")
  {
    var up := Upper(name);
    assert "COE1" + "T" == "COE1T" && "COE2" + "T" == "COE2T";
    if Contains(up, "COE1T") { ContainsExtend(up, "COE1", "T"); }
    if Contains(up, "COE2T") { ContainsExtend(up, "COE2", "T"); }
    if Contains(up, "VIVT") { assert Contains(up, Modules[0]); }
    if Contains(up, "HOGT") { assert Contains(up, Modules[1]); }
    if Contains(up, "SDEMT") { assert Contains(up, Modules[2]); }
  }

  // ---------------------------------------------------------------- year and quarter

  /** The four characters of "trim" in either case (`re.IGNORECASE` on ASCII letters). */
  predicate IsTrim(s: String)
    requires |s| == 4
  {
    (s[0] == 't' || s[0] == 'T') && (s[1] == 'r' || s[1] == 'R')
    && (s[2] == 'i' || s[2] == 'I') && (s[3] == 'm' || s[3] == 'M')
  }

  /** `_(20\d{2})_trim(\d)\b` matches `name` at position `i`. */
  predicate MatchAt(name: String, i: nat) {
    i + 11 <= |name|
    && name[i] == '_' && name[i + 1] == '2' && name[i + 2] == '0'
    && IsDigit(name[i + 3]) && IsDigit(name[i + 4])
    && name[i + 5] == '_' && IsTrim(name[i + 6..i + 10]) && IsDigit(name[i + 10])
    && (i + 11 == |name| || !IsWordChar(name[i + 11]))
  }

  /** `re_name.search(name)`: the leftmost position where the pattern matches at or after `from`. */
  function Search(name: String, from: nat): (r: Option<nat>)
    ensures r.Some? ==> from <= r.value && MatchAt(name, r.value)
    ensures r.Some? ==> forall j: nat :: from <= j < r.value ==> !MatchAt(name, j)
    ensures r.None? ==> forall j: nat :: from <= j ==> !MatchAt(name, j)
    decreases |name| - from
  {
    if from + 11 > |name| then None
    else if MatchAt(name, from) then Some(from)
    else Search(name, from + 1)
  }

  /**
   * `parse_year_trim_from_name`: (year, quarter) read off the leftmost match, or nothing
   * (the `(None, None)` pair) when the name has none.
   */
  function ParseYearTrimFromName(name: String): (r: Option<(int, int)>)
    ensures r.Some? ==> 2000 <= r.value.0 <= 2099 && 0 <= r.value.1 <= 9
  {
    match Search(name, 0)
    case None => None
    case Some(i) => Some(YearTrimAt(name, i))
  }

  /** The two groups of a match: `int("20dd")` and the quarter digit. */
  function YearTrimAt(name: String, i: nat): (r: (int, int))
    requires MatchAt(name, i)
    ensures 2000 <= r.0 <= 2099 && 0 <= r.1 <= 9
  {
    (2000 + 10 * DigitVal(name[i + 3]) + DigitVal(name[i + 4]), DigitVal(name[i + 10]))
  }

  /** A period is read exactly when the pattern occurs, and it is the one of the leftmost occurrence. */
  lemma ParseYearTrimLeftmost(name: String)
    ensures ParseYearTrimFromName(name).Some? <==> exists i: nat :: MatchAt(name, i)
    ensures ParseYearTrimFromName(name).Some? ==>
              exists i: nat :: MatchAt(name, i) && (forall j: nat :: j < i ==> !MatchAt(name, j))
                && ParseYearTrimFromName(name).value == YearTrimAt(name, i)
  {
    match Search(name, 0)
    case None => {}
    case Some(i) => assert MatchAt(name, i);
  }

  lemma UpperKeepsMatch(name: String, i: nat)
    ensures MatchAt(Upper(name), i) <==> MatchAt(name, i)
  {
    var up := Upper(name);
    if i + 11 <= |name| {
      forall k | i <= k < |name| && k <= i + 11 ensures UpperCharKeeps(name[k]) {
        UpperCharKept(name[k]);
      }
      var fixed := up[i] == '_' && up[i + 1] == '2' && up[i + 2] == '0' && IsDigit(up[i + 3]) && IsDigit(up[i + 4]) && up[i + 5] == '_';
      assert fixed <==> name[i] == '_' && name[i + 1] == '2' && name[i + 2] == '0' && IsDigit(name[i + 3]) && IsDigit(name[i + 4]) && name[i + 5] == '_';
      UpperKeepsTrim(name[i + 6..i + 10]);
      assert up[i + 6..i + 10] == Upper(name[i + 6..i + 10]);
      assert IsDigit(up[i + 10]) <==> IsDigit(name[i + 10]);
      assert i + 11 < |name| ==> (IsWordChar(up[i + 11]) <==> IsWordChar(name[i + 11]));
    }
  }

  lemma UpperKeepsTrim(s: String)
    requires |s| == 4
    ensures IsTrim(Upper(s)) <==> IsTrim(s)
  {
    UpperCharKept(s[0]); UpperCharKept(s[1]); UpperCharKept(s[2]); UpperCharKept(s[3]);
  }

  /** What the pattern asks of one character survives upper-casing it. */
  predicate UpperCharKeeps(c: char) {
    var u := UpperChar(c);
    && (u == '_' <==> c == '_') && (u == '2' <==> c == '2') && (u == '0' <==> c == '0')
    && (IsDigit(u) <==> IsDigit(c)) && (IsWordChar(u) <==> IsWordChar(c))
    && ((u == 't' || u == 'T') <==> (c == 't' || c == 'T')) && ((u == 'r' || u == 'R') <==> (c == 'r' || c == 'R'))
    && ((u == 'i' || u == 'I') <==> (c == 'i' || c == 'I')) && ((u == 'm' || u == 'M') <==> (c == 'm' || c == 'M'))
  }

  lemma UpperCharKept(c: char)
    ensures UpperCharKeeps(c)
  { }

  /** Two names of one length on which the pattern matches at the same places are searched alike. */
  lemma {:induction false} SearchAlike(a: String, b: String, from: nat)
    requires |a| == |b| && forall i: nat :: MatchAt(a, i) <==> MatchAt(b, i)
    ensures Search(a, from) == Search(b, from)
    decreases |a| - from
  {
    if from + 11 <= |a| && !MatchAt(a, from) { SearchAlike(a, b, from + 1); }
  }

  /** The pattern ignores case: upper-casing a file name does not change what is read off it. */
  lemma ParseYearTrimIgnoresCase(name: String)
    ensures ParseYearTrimFromName(Upper(name)) == ParseYearTrimFromName(name)
  {
    var up := Upper(name);
    forall i: nat ensures MatchAt(up, i) <==> MatchAt(name, i) { UpperKeepsMatch(name, i); }
    SearchAlike(up, name, 0);
    match Search(name, 0)
    case None => {}
    case Some(i) => UpperKeepsYearTrim(name, i);
  }

  /** The digits a match reads are the same in the upper-cased name. */
  lemma UpperKeepsYearTrim(name: String, i: nat)
    requires MatchAt(name, i)
    ensures MatchAt(Upper(name), i) && YearTrimAt(Upper(name), i) == YearTrimAt(name, i)
  {
    var up := Upper(name);
    UpperKeepsMatch(name, i);
    UpperCharKept(name[i + 3]); UpperCharKept(name[i + 4]); UpperCharKept(name[i + 10]);
    assert up[i + 3] == name[i + 3] && up[i + 4] == name[i + 4] && up[i + 10] == name[i + 10];
  }

  /** `ENOEN_SDEMT_2024_trim3.csv` is the third quarter of 2024. */
  lemma ParseYearTrimExample()
    ensures ParseYearTrimFromName("ENOEN_SDEMT_2024_trim3.csv") == Some((2024, 3))
  {
    var name := "ENOEN_SDEMT_2024_trim3.csv";
    forall j: nat | j < 11 ensures !MatchAt(name, j) {
      assert name[j] != '_' || name[j + 1] != '2';
    }
    assert MatchAt(name, 11);
    assert Search(name, 11) == Some(11);
    assert Search(name, 0) == Some(11) by {
      var k := Search(name, 0);
      assert k.Some? && k.value <= 11;
    }
  }

  /** A year outside 20xx does not match: `_1999_trim3` carries no period. */
  lemma ParseYearTrimOnly20xx()
    ensures ParseYearTrimFromName("HOGT_1999_trim3") == None
  {
    var name := "HOGT_1999_trim3";
    forall j: nat ensures !MatchAt(name, j) {
      if j + 11 <= |name| { assert name[j + 1] != '2'; }
    }
  }
}
