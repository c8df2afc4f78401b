/**
 * `analisis_meitef.py`: the pure helpers of the MEITEF analysis — file-name slugs, the month a
 * period label closes, the choice of the reference period of a subset, and the subset of rows
 * of one indicator and one metric.
 */
module Analysis {
  import opened Wrappers
  import opened Text
  import opened Sorting
  import Meitef

  // ---------------------------------------------------------------- slugify

  /**
   * NFKD decomposition followed by dropping what is not ASCII, for one character of Latin-1:
   * accented letters keep their base letter, spacing accents and the no-break space become a
   * space, superscripts and vulgar fractions their digits, and the rest is dropped.
   */
  function FoldChar(c: char): (r: String)
    ensures forall i :: 0 <= i < |r| ==> r[i] < '\U{80}'
    ensures c < '\U{80}' ==> r == [c]
  {
    if c < '\U{80}' then [c]
    else if c == '\U{A0}' || c == '\U{A8}' || c == '\U{AF}' || c == '\U{B4}' || c == '\U{B8}' then " "
    else if c == '\U{AA}' then "a"
    else if c == '\U{B2}' then "2"
    else if c == '\U{B3}' then "3"
    else if c == '\U{B9}' then "1"
    else if c == '\U{BA}' then "o"
    else if c == '\U{BC}' then "14"
    else if c == '\U{BD}' then "12"
    else if c == '\U{BE}' then "34"
    else if '\U{C0}' <= c <= '\U{C5}' then "A"
    else if c == '\U{C7}' then "C"
    else if '\U{C8}' <= c <= '\U{CB}' then "E"
    else if '\U{CC}' <= c <= '\U{CF}' then "I"
    else if c == '\U{D1}' then "N"
    else if '\U{D2}' <= c <= '\U{D6}' then "O"
    else if '\U{D9}' <= c <= '\U{DC}' then "U"
    else if c == '\U{DD}' then "Y"
    else if '\U{E0}' <= c <= '\U{E5}' then "a"
    else if c == '\U{E7}' then "c"
    else if '\U{E8}' <= c <= '\U{EB}' then "e"
    else if '\U{EC}' <= c <= '\U{EF}' then "i"
    else if c == '\U{F1}' then "n"
    else if '\U{F2}' <= c <= '\U{F6}' then "o"
    else if '\U{F9}' <= c <= '\U{FC}' then "u"
    else if c == '\U{FD}' || c == '\U{FF}' then "y"
    else []
  }

  predicate Ascii(s: String) { forall i :: 0 <= i < |s| ==> s[i] < '\U{80}' }

  /** `unicodedata.normalize("NFKD", s).encode("ascii", "ignore").decode("ascii")` */
  function AsciiFold(s: String): (r: String)
    ensures Ascii(r)
    ensures Ascii(s) ==> r == s
  {
    if s == [] then [] else AsciiFold(s[..|s| - 1]) + FoldChar(s[|s| - 1])
  }

  /** `s.lstrip("_")` */
  function TrimLeft(s: String): (r: String)
    ensures |r| <= |s| && r == s[|s| - |r|..]
    ensures forall i :: 0 <= i < |s| - |r| ==> s[i] == '_'
    ensures r == [] || r[0] != '_'
  {
    if s != [] && s[0] == '_' then TrimLeft(s[1..]) else s
  }

  /** `s.rstrip("_")` */
  function TrimRight(s: String): (r: String)
    ensures |r| <= |s| && r == s[..|r|]
    ensures forall i :: |r| <= i < |s| ==> s[i] == '_'
    ensures r == [] || r[|r| - 1] != '_'
  {
    if s != [] && s[|s| - 1] == '_' then TrimRight(s[..|s| - 1]) else s
  }

  /** The characters of a slug. */
  predicate SlugChar(c: char) { IsAsciiLower(c) || IsDigit(c) || c == '_' }

  /** No `_` is directly followed by another. */
  predicate NoDoubleUnderscore(r: String) {
    forall i, j :: 0 <= i < |r| && 0 <= j < |r| && j == i + 1 ==> !(r[i] == '_' && r[j] == '_')
  }

  /** What a slug is: lower-case letters, digits and single `_` between them. */
  predicate IsSlug(r: String) {
    && (forall i :: 0 <= i < |r| ==> SlugChar(r[i]))
    && (r == [] || (r[0] != '_' && r[|r| - 1] != '_'))
    && NoDoubleUnderscore(r)
  }

  /** `slugify`: accents removed, other runs of non-alphanumerics as one `_`, trimmed, lower case. */
  function Slugify(text: Option<String>): (r: String)
    ensures text.None? ==> r == []
    ensures IsSlug(r)
  {
    match text
    case None => []
    case Some(t) =>
      var u := TrimLeft(TrimRight(Squash(AsciiFold(t), IsAsciiAlnum)));
      TrimmedSquashed(Squash(AsciiFold(t), IsAsciiAlnum));
      LowerSlug(u);
      Lower(u)
  }

  /** Trimming the `_` off a squashed string leaves alphanumerics and single inner `_`. */
  lemma TrimmedSquashed(t: String)
    requires Squashed(t, IsAsciiAlnum)
    ensures var u := TrimLeft(TrimRight(t));
      && (forall i :: 0 <= i < |u| ==> IsAsciiAlnum(u[i]) || u[i] == '_')
      && (u == [] || (u[0] != '_' && u[|u| - 1] != '_'))
      && NoDoubleUnderscore(u)
  {
    var v := TrimRight(t);
    var u := TrimLeft(v);
    var k := |v| - |u|;
    assert u == t[k..|v|] by {
      assert v == t[..|v|];
      assert u == v[k..];
    }
    SquashedSlice(t, k, |v|);
  }

  /** Any slice of a squashed string has only alphanumerics and `_`, never two `_` in a row. */
  lemma SquashedSlice(t: String, a: nat, b: nat)
    requires Squashed(t, IsAsciiAlnum) && a <= b <= |t|
    ensures forall i :: 0 <= i < b - a ==> IsAsciiAlnum(t[a..b][i]) || t[a..b][i] == '_'
    ensures NoDoubleUnderscore(t[a..b])
  {
    var u := t[a..b];
    forall i | 0 <= i < |u| ensures IsAsciiAlnum(u[i]) || u[i] == '_' {
      assert u[i] == t[a + i];
      assert SquashedAt(t, a + i, IsAsciiAlnum);
    }
    forall i, j | 0 <= i < |u| && 0 <= j < |u| && j == i + 1 ensures !(u[i] == '_' && u[j] == '_') {
      assert u[i] == t[a + i] && u[j] == t[a + i + 1];
      assert SquashedAt(t, a + i, IsAsciiAlnum);
    }
  }

  lemma LowerSlug(u: String)
    requires forall i :: 0 <= i < |u| ==> IsAsciiAlnum(u[i]) || u[i] == '_'
    requires u == [] || (u[0] != '_' && u[|u| - 1] != '_')
    requires NoDoubleUnderscore(u)
    ensures IsSlug(Lower(u))
  {
    var r := Lower(u);
    forall i | 0 <= i < |r| ensures SlugChar(r[i]) && (r[i] == '_' <==> u[i] == '_') {
      assert r[i] == LowerChar(u[i]);
    }
  }

  /** A slug is its own slug. */
  lemma SlugifyIdempotent(text: Option<String>)
    ensures Slugify(Some(Slugify(text))) == Slugify(text)
  {
    SlugFixed(Slugify(text));
  }

  /** Slugifying a text that is already a slug gives it back unchanged. */
  lemma SlugFixed(r: String)
    requires IsSlug(r)
    ensures Slugify(Some(r)) == r
  {
    SlugSettled(r);
    assert AsciiFold(r) == r;
    assert TrimLeft(TrimRight(r)) == r;
  }

  /**
   * The slug keeps exactly the letters and digits of the accent-folded text, in their order and
   * lower-cased: only the separators between them are rewritten.
   */
  lemma SlugifyKeepsAlnums(t: String)
    ensures Filter(Slugify(Some(t)), IsAsciiAlnum) == Lower(Filter(AsciiFold(t), IsAsciiAlnum))
  {
    var q := Squash(AsciiFold(t), IsAsciiAlnum);
    SquashKeeps(AsciiFold(t), IsAsciiAlnum);
    TrimKeeps(q);
    LowerFilter(TrimLeft(TrimRight(q)));
  }

  /** Trimming `_` from both ends removes no letter or digit. */
  lemma TrimKeeps(t: String)
    ensures Filter(TrimLeft(TrimRight(t)), IsAsciiAlnum) == Filter(t, IsAsciiAlnum)
  {
    TrimRightKeeps(t);
    TrimLeftKeeps(TrimRight(t));
  }

  lemma {:induction false} TrimRightKeeps(t: String)
    ensures Filter(TrimRight(t), IsAsciiAlnum) == Filter(t, IsAsciiAlnum)
  {
    if t != [] && t[|t| - 1] == '_' {
      var init := t[..|t| - 1];
      TrimRightKeeps(init);
      assert t == init + [t[|t| - 1]];
      Sorting.FilterAppend(init, [t[|t| - 1]], IsAsciiAlnum);
      FilterNone([t[|t| - 1]], IsAsciiAlnum);
    }
  }

  lemma {:induction false} TrimLeftKeeps(v: String)
    ensures Filter(TrimLeft(v), IsAsciiAlnum) == Filter(v, IsAsciiAlnum)
  {
    if v != [] && v[0] == '_' {
      FilterSkipsUnderscore(v);
      TrimLeftKeeps(v[1..]);
    }
  }

  lemma FilterSkipsUnderscore(v: String)
    requires v != [] && v[0] == '_'
    ensures Filter(v, IsAsciiAlnum) == Filter(v[1..], IsAsciiAlnum)
  {
    assert !IsAsciiAlnum(v[0]);
  }

  /** Lower-casing neither makes nor unmakes a letter or digit, so it commutes with keeping them. */
  lemma {:induction false} LowerFilter(u: String)
    ensures Filter(Lower(u), IsAsciiAlnum) == Lower(Filter(u, IsAsciiAlnum))
  {
    if u != [] {
      var c := u[0];
      assert IsAsciiAlnum(LowerChar(c)) <==> IsAsciiAlnum(c);
      assert Lower(u) == [LowerChar(c)] + Lower(u[1..]);
      assert Lower(u)[1..] == Lower(u[1..]);
      LowerFilter(u[1..]);
      LowerAppend(if IsAsciiAlnum(c) then [c] else [], Filter(u[1..], IsAsciiAlnum));
    }
  }

  lemma SlugSettled(r: String)
    requires IsSlug(r)
    ensures Ascii(r) && Squash(r, IsAsciiAlnum) == r && Lower(r) == r
  {
    assert Squashed(r, IsAsciiAlnum) by {
      forall i: nat | i < |r| ensures SquashedAt(r, i, IsAsciiAlnum) {
        if i + 1 < |r| && r[i] == '_' {
          var j := i + 1;
          assert r[j] != '_';
        }
      }
    }
    SquashSettled(r, IsAsciiAlnum);
    assert forall i :: 0 <= i < |r| ==> Lower(r)[i] == r[i];
  }

  // ---------------------------------------------------------------- periodo_a_mes

  /** The label as `periodo_a_mes` reads it: `str(p).strip()`, where a missing label prints as `nan`. */
  function PeriodLabel(periodo: Option<String>): String {
    Strip(if periodo.None? then "nan" else periodo.value)
  }

  const Quarters: seq<String> := ["T1", "T2", "T3", "T4"]

  /**
   * `periodo_a_mes`: the month that closes a period label of the tidy table — the exact quarter
   * labels first, then six and nine months anywhere in the label; anything else, including the
   * year labels, falls back to December.
   */
  function PeriodMonth(periodo: Option<String>): (r: int)
    ensures r in {3, 6, 9, 12}
    ensures PeriodLabel(periodo) == "T1" ==> r == 3
    ensures PeriodLabel(periodo) == "T2" ==> r == 6
    ensures PeriodLabel(periodo) == "T3" ==> r == 9
    ensures PeriodLabel(periodo) == "T4" ==> r == 12
    ensures PeriodLabel(periodo) !in Quarters && Contains(PeriodLabel(periodo), "6 Meses") ==> r == 6
    ensures (PeriodLabel(periodo) !in Quarters && !Contains(PeriodLabel(periodo), "6 Meses")
             && Contains(PeriodLabel(periodo), "9 Meses")) ==> r == 9
    ensures (PeriodLabel(periodo) !in Quarters && !Contains(PeriodLabel(periodo), "6 Meses")
             && !Contains(PeriodLabel(periodo), "9 Meses")) ==> r == 12
  {
    var p := PeriodLabel(periodo);
    if p == "T1" then 3
    else if p == "T2" then 6
    else if p == "T3" then 9
    else if p == "T4" then 12
    else if Contains(p, "6 Meses") then 6
    else if Contains(p, "9 Meses") then 9
    else 12
  }

  /** `6 Meses` closes in June. */
  lemma SixMonthsInJune()
    ensures PeriodMonth(Some("6 Meses")) == 6
  {
    assert PeriodLabel(Some("6 Meses")) == "6 Meses" by { StripPlain("6 Meses"); }
    ContainsAt("6 Meses", "6 Meses", 0);
  }

  // ---------------------------------------------------------------- filtrar_subset

  /** A row of the tidy MEITEF table; `rest` stands for the columns these helpers do not read. */
  datatype Record<T> = Record(indicador: Option<String>, metric: Option<String>, periodo: Option<String>, rest: T)

  predicate Selected<T>(row: Record<T>, indicador: String, metric: String) {
    row.indicador == Some(indicador) && row.metric == Some(metric)
  }

  /** `filtrar_subset`: the rows of one indicator and one metric, in their order. */
  function FilterSubset<T(!new)>(rows: seq<Record<T>>, indicador: String, metric: String): (r: seq<Record<T>>)
    ensures forall row :: row in r <==> row in rows && Selected(row, indicador, metric)
    ensures |r| <= |rows|
  {
    if rows == [] then []
    else
      FilterSubset(rows[..|rows| - 1], indicador, metric)
        + (if Selected(rows[|rows| - 1], indicador, metric) then [rows[|rows| - 1]] else [])
  }

  /** Filtering the rows of two tables is filtering each and putting the results together. */
  lemma {:induction false} FilterAppend<T(!new)>(a: seq<Record<T>>, b: seq<Record<T>>, indicador: String, metric: String)
    ensures FilterSubset(a + b, indicador, metric) == FilterSubset(a, indicador, metric) + FilterSubset(b, indicador, metric)
    decreases |b|
  {
    if b == [] {
      assert a + b == a;
    } else {
      assert (a + b)[..|a + b| - 1] == a + b[..|b| - 1];
      FilterAppend(a, b[..|b| - 1], indicador, metric);
    }
  }

  /** A subset filtered again by the same indicator and metric is unchanged. */
  lemma {:induction false} FilterIdempotent<T(!new)>(rows: seq<Record<T>>, indicador: String, metric: String)
    ensures FilterSubset(FilterSubset(rows, indicador, metric), indicador, metric) == FilterSubset(rows, indicador, metric)
    decreases |rows|
  {
    if rows != [] {
      var init := rows[..|rows| - 1];
      var last := rows[|rows| - 1];
      FilterIdempotent(init, indicador, metric);
      var tail := if Selected(last, indicador, metric) then [last] else [];
      FilterAppend(FilterSubset(init, indicador, metric), tail, indicador, metric);
      if tail != [] {
        assert tail[..0] == [];
      }
    }
  }

  // ---------------------------------------------------------------- elegir_periodo_referencia

  /** The `periodo` column. */
  function Periods<T>(rows: seq<Record<T>>): (r: seq<Option<String>>)
    ensures |r| == |rows| && forall i :: 0 <= i < |rows| ==> r[i] == rows[i].periodo
  {
    seq(|rows|, i requires 0 <= i < |rows| => rows[i].periodo)
  }

  /** How often `p` appears in the column. */
  function Frequency(periods: seq<Option<String>>, p: String): nat {
    multiset(periods)[Some(p)]
  }

  /** `a` comes before `b` in `mode()`: more frequent, or as frequent and not greater. */
  predicate Before(periods: seq<Option<String>>, a: String, b: String) {
    Frequency(periods, a) > Frequency(periods, b)
    || (Frequency(periods, a) == Frequency(periods, b) && StrLe(a, b))
  }

  /** The first of the candidates in the order of `Before`. */
  function First(periods: seq<Option<String>>, cands: seq<String>): (r: String)
    requires cands != []
    ensures r in cands
    ensures forall c :: c in cands ==> Before(periods, r, c)
  {
    if |cands| == 1 then
      StrLeTotal(cands[0], cands[0]);
      cands[0]
    else
      var b := First(periods, cands[1..]);
      var a := cands[0];
      StrLeTotal(a, b);
      if Before(periods, a, b) then
        StrLeTotal(a, a);
        forall c | c in cands[1..] ensures Before(periods, a, c) {
          if Frequency(periods, a) == Frequency(periods, b) && Frequency(periods, b) == Frequency(periods, c) {
            StrLeTransitive(a, b, c);
          }
        }
        a
      else
        b
  }

  /** The periods present, without repetition, in the order they first appear (`dropna().unique()`). */
  function Present(periods: seq<Option<String>>): (r: seq<String>)
    ensures forall p :: p in r <==> Some(p) in periods
    ensures forall i, j :: 0 <= i < j < |r| ==> r[i] != r[j]
  {
    if periods == [] then []
    else
      var init := Present(periods[..|periods| - 1]);
      var last := periods[|periods| - 1];
      assert periods == periods[..|periods| - 1] + [last];
      if last.Some? && last.value !in init then init + [last.value] else init
  }

  /** The labels preferred, in this order, as the reference period. */
  const Preferred: seq<String> := ["T4", "12 Meses", "Año", "Anual", "Anio"]

  /** The first of `labels[i..]` that is present, as an index into `labels`. */
  function FirstPresent(labels: seq<String>, present: seq<String>, i: nat): (r: Option<nat>)
    requires i <= |labels|
    ensures r.Some? ==> i <= r.value < |labels| && labels[r.value] in present
                        && forall j :: i <= j < r.value ==> labels[j] !in present
    ensures r.None? ==> forall j :: i <= j < |labels| ==> labels[j] !in present
    decreases |labels| - i
  {
    if i == |labels| then None
    else if labels[i] in present then Some(i)
    else FirstPresent(labels, present, i + 1)
  }

  /**
   * `elegir_periodo_referencia`: the first of `T4`, `12 Meses`, `Año`, `Anual`, `Anio` that is
   * present, else the first value of `mode()` — a most frequent period, the least of those in
   * string order; an error when no period is present.
   */
  function ChooseReferencePeriod(periods: seq<Option<String>>): (r: Result<String>)
    ensures r.Err? <==> forall i :: 0 <= i < |periods| ==> periods[i].None?
    ensures r.Err? ==> r.error == NoPeriods
    ensures r.Ok? ==> Some(r.value) in periods
    ensures r.Ok? && (exists k :: 0 <= k < |Preferred| && Some(Preferred[k]) in periods) ==>
              exists k :: (0 <= k < |Preferred| && r.value == Preferred[k]
                           && forall j :: 0 <= j < k ==> Some(Preferred[j]) !in periods)
    ensures r.Ok? && (forall k :: 0 <= k < |Preferred| ==> Some(Preferred[k]) !in periods) ==>
              forall p :: Some(p) in periods ==> Before(periods, r.value, p)
  {
    var present := Present(periods);
    if present == [] then
      assert forall i :: 0 <= i < |periods| ==> periods[i].None? by {
        forall i | 0 <= i < |periods| ensures periods[i].None? {
          assert periods[i] in periods;
        }
      }
      Err(NoPeriods)
    else
      assert Some(present[0]) in periods;
      match FirstPresent(Preferred, present, 0)
      case Some(k) => Ok(Preferred[k])
      case None => Ok(First(periods, present))
  }

  lemma {:induction false} ContainsShort(s: String, sub: String)
    requires |s| < |sub|
    ensures !Contains(s, sub)
    decreases |s|
  {
    if s != [] {
      ContainsShort(s[1..], sub);
    }
  }

  /** A label whose first two characters cannot start `pat`, and that is short otherwise. */
  lemma NotContainedAfterTwo(l: String, pat: String)
    requires |l| >= 2 && pat != [] && l[0] != pat[0] && l[1] != pat[0] && |l| - 2 < |pat|
    ensures !Contains(l, pat)
  {
    ContainsShort(l[1..][1..], pat);
    assert !IsPrefix(pat, l[1..]) by { assert l[1..][0] == l[1]; }
    assert !IsPrefix(pat, l) by { assert l[0] != pat[0]; }
  }

  /** Every label preferred as the reference period closes in December. */
  lemma PreferredInDecember(k: nat)
    requires k < |Preferred|
    ensures PeriodMonth(Some(Preferred[k])) == 12
  {
    var l := Preferred[k];
    StripPlain(l);
    if k == 1 {
      NotContainedAfterTwo(l, "6 Meses");
      NotContainedAfterTwo(l, "9 Meses");
    } else {
      ContainsShort(l, "6 Meses");
      ContainsShort(l, "9 Meses");
    }
  }

}
