/**
 * The dictionary side of `apply_enoe_labels.py`: release identifiers such as `COE2T424`,
 * the key variants under which a category code is stored and looked up, and the
 * consolidation of all releases of one (base, variable) into a single code -> label map
 * in which the most recent release wins.
 */
module Dictionary {
  import opened Wrappers
  import opened Text
  import opened Sorting

  // ---------------------------------------------------------------- release identifiers

  /** `[A-Z0-9]` */
  predicate IsIdChar(c: char) { IsAsciiUpper(c) || IsDigit(c) }

  /** `^([A-Z0-9]+?)(\d)(\d{2})$` matches the whole (already stripped) identifier. */
  predicate IsReleaseId(s: String) {
    |s| >= 4 && (forall i :: 0 <= i < |s| ==> IsIdChar(s[i]))
    && IsDigit(s[|s| - 3]) && IsDigit(s[|s| - 2]) && IsDigit(s[|s| - 1])
  }

  /** The base, quarter and two-digit year of a release. */
  datatype ReleaseId = ReleaseId(base: String, quarter: nat, yy: nat)

  /** The short spellings of the five bases name the same base as the long ones. */
  function Canonical(pref: String): (r: String)
  {
    if pref == "COE1" || pref == "COE1T" then "COE1T"
    else if pref == "COE2" || pref == "COE2T" then "COE2T"
    else if pref == "SDEM" || pref == "SDEMT" then "SDEMT"
    else if pref == "HOG" || pref == "HOGT" then "HOGT"
    else if pref == "VIV" || pref == "VIVT" then "VIVT"
    else pref
  }

  /** `re.sub(r"[^A-Z0-9]", "", s)` */
  function KeepIdChars(s: String): (r: String)
    ensures |r| <= |s| && forall i :: 0 <= i < |r| ==> IsIdChar(r[i])
  {
    if s == [] then [] else (if IsIdChar(s[0]) then [s[0]] else []) + KeepIdChars(s[1..])
  }

  /** `TABLA_BASE_RE.match(s)` and what follows it, on the stripped, upper-cased identifier. */
  function ParseId(s: String): (r: ReleaseId)
    ensures r.quarter < 10 && r.yy < 100
    ensures !IsReleaseId(s) ==> r == ReleaseId(KeepIdChars(s), 0, 0)
  {
    if IsReleaseId(s) then
      ReleaseId(Canonical(s[..|s| - 3]), DigitVal(s[|s| - 3]), 10 * DigitVal(s[|s| - 2]) + DigitVal(s[|s| - 1]))
    else
      ReleaseId(KeepIdChars(s), 0, 0)
  }

  /**
   * `parse_tabla_base`: the identifier, stripped and upper-cased, is split into a base, one quarter
   * digit and a two-digit year when it has that shape; otherwise only its letters and digits are kept
   * as the base and quarter and year are 0.
   */
  function ParseTablaBase(tabla: String): (r: ReleaseId)
    ensures r.quarter < 10 && r.yy < 100
  {
    ParseId(Upper(Strip(tabla)))
  }

  /** Upper-casing leaves identifier characters alone. */
  lemma UpperIdChars(s: String)
    requires forall i :: 0 <= i < |s| ==> IsIdChar(s[i])
    ensures Upper(s) == s
  {
    assert forall i :: 0 <= i < |s| ==> Upper(s)[i] == s[i];
  }

  /**
   * Reading back a written identifier: a non-empty prefix of letters and digits followed by the
   * quarter digit and the zero-padded year gives the prefix's base, the quarter and the year.
   */
  lemma ParseTablaBaseRoundTrip(pref: String, q: nat, yy: nat)
    requires |pref| > 0 && (forall i :: 0 <= i < |pref| ==> IsIdChar(pref[i])) && q < 10 && yy < 100
    ensures ParseTablaBase(pref + [DigitChar(q)] + Pad2(yy)) == ReleaseId(Canonical(pref), q, yy)
  {
    var s := pref + [DigitChar(q)] + Pad2(yy);
    assert forall i :: 0 <= i < |s| ==> IsIdChar(s[i]);
    IdNormalised(s);
    ParseIdWritten(pref, q, yy);
  }

  /** An identifier made only of `[A-Z0-9]` is its own stripped, upper-cased form. */
  lemma IdNormalised(s: String)
    requires forall i :: 0 <= i < |s| ==> IsIdChar(s[i])
    ensures Upper(Strip(s)) == s
  {
    if s != [] {
      assert !IsSpace(s[0]) && !IsSpace(s[|s| - 1]);
    }
    assert [] + s + [] == s;
    StripSurrounded([], s, []);
    UpperIdChars(s);
  }

  /** The regular expression splits a written identifier back into its three parts. */
  lemma ParseIdWritten(pref: String, q: nat, yy: nat)
    requires |pref| > 0 && (forall i :: 0 <= i < |pref| ==> IsIdChar(pref[i])) && q < 10 && yy < 100
    ensures ParseId(pref + [DigitChar(q)] + Pad2(yy)) == ReleaseId(Canonical(pref), q, yy)
  {
    var p := Pad2(yy);
    var s := pref + [DigitChar(q)] + p;
    assert p == [DigitChar(yy / 10), DigitChar(yy % 10)];
    assert s[|s| - 3] == DigitChar(q) && s[|s| - 2] == p[0] && s[|s| - 1] == p[1];
    assert forall i :: 0 <= i < |s| ==> IsIdChar(s[i]);
    assert s[..|s| - 3] == pref;
  }

  /** `COE2T424` is the fourth quarter of 2024 of base COE2T. */
  lemma ParseTablaBaseExample(id: String)
    requires id == "COE2T424"
    ensures ParseTablaBase(id) == ReleaseId("COE2T", 4, 24)
  {
    var pref := "COE2T";
    assert pref[3] == '2' && "COE1"[3] == '1' && "COE1T"[3] == '1';
    assert Canonical(pref) == pref;
    assert id == pref + [DigitChar(4)] + Pad2(24);
    ParseTablaBaseRoundTrip(pref, 4, 24);
  }

  /** The short spelling `COE1` names base COE1T: `COE1324` is the third quarter of 2024 of COE1T. */
  lemma ParseTablaBaseAliasExample(id: String)
    requires id == "COE1324"
    ensures ParseTablaBase(id) == ReleaseId("COE1T", 3, 24)
  {
    assert id == "COE1" + [DigitChar(3)] + Pad2(24);
    ParseTablaBaseRoundTrip("COE1", 3, 24);
  }

  /** `year_quarter_rank` */
  function YearQuarterRank(tri: int, yy: int): (r: int)
    ensures 0 <= tri < 10 ==> r / 10 == 2000 + yy && r % 10 == tri
  {
    (2000 + yy) * 10 + tri
  }

  /** For quarters 0-9, ranks order releases by year first and quarter second. */
  lemma RankOrder(t1: int, y1: int, t2: int, y2: int)
    requires 0 <= t1 < 10 && 0 <= t2 < 10
    ensures YearQuarterRank(t1, y1) <= YearQuarterRank(t2, y2) <==> y1 < y2 || (y1 == y2 && t1 <= t2)
  {
    if y1 < y2 {
      assert YearQuarterRank(t1, y1) < (2000 + y1 + 1) * 10 <= YearQuarterRank(t2, y2);
    } else if y1 > y2 {
      assert YearQuarterRank(t2, y2) < (2000 + y2 + 1) * 10 <= YearQuarterRank(t1, y1);
    }
  }

  // ---------------------------------------------------------------- key variants

  /** The keys tried for one stripped code, before repeats are removed. */
  function RawVariants(s: String): (r: seq<String>)
    ensures |r| > 0 && r[0] == s
  {
    if !IsIntLiteral(s) then [s, Upper(s)]
    else
      var n := ParseInt(s);
      [s, IntToString(n)] + (if 0 <= n < 100 then [Pad2(n)] else [])
  }

  /**
   * `norm_variants`: nothing for a missing value; otherwise the stripped text first, then its
   * upper-case form (non-numeric text) or `str(int)` and the two-digit form (numeric text),
   * each once, in that order.
   */
  function NormVariants(v: Option<String>): (r: seq<String>)
    ensures v.None? <==> r == []
    ensures v.Some? ==> r[0] == Strip(v.value)
    ensures v.Some? ==> forall k :: k in r <==> k in RawVariants(Strip(v.value))
    ensures forall i, j :: 0 <= i < j < |r| ==> r[i] != r[j]
  {
    match v
    case None => []
    case Some(x) =>
      var raw := RawVariants(Strip(x));
      assert raw == [raw[0]] + raw[1..];
      Dedup(raw)
  }

  /**
   * The order in which a present value is looked up: the stripped text, then its upper-case form
   * (non-numeric text), or `str(int)` and then the two-digit form (numeric text), each only
   * when it differs from the forms before it.
   */
  lemma NormVariantsOrder(v: String)
    ensures var s := Strip(v);
      !IsIntLiteral(s) ==> NormVariants(Some(v)) == [s] + (if Upper(s) == s then [] else [Upper(s)])
    ensures var s := Strip(v);
      IsIntLiteral(s) ==> var n := ParseInt(s); var t := IntToString(n);
        NormVariants(Some(v)) == [s] + (if t == s then [] else [t])
          + (if 0 <= n < 100 && Pad2(n) != s && Pad2(n) != t then [Pad2(n)] else [])
  {
    var s := Strip(v);
    if !IsIntLiteral(s) {
      DedupTwo(s, Upper(s));
    } else {
      NumberVariantsOrder(s);
    }
  }

  /** The de-duplicated variants of an integer literal. */
  lemma NumberVariantsOrder(s: String)
    requires IsIntLiteral(s)
    ensures var n := ParseInt(s); var t := IntToString(n);
      Dedup(RawVariants(s)) == [s] + (if t == s then [] else [t])
        + (if 0 <= n < 100 && Pad2(n) != s && Pad2(n) != t then [Pad2(n)] else [])
  {
    var n := ParseInt(s);
    var t := IntToString(n);
    if 0 <= n < 100 {
      assert RawVariants(s) == [s, t, Pad2(n)];
      DedupThree(s, t, Pad2(n));
    } else {
      assert RawVariants(s) == [s, t];
      DedupTwo(s, t);
      assert [s] + (if t == s then [] else [t]) + [] == [s] + (if t == s then [] else [t]);
    }
  }

  /** The keys `normalize_code_keys` stores for a code. */
  function CodeKeys(code: String): (r: set<String>)
    ensures Strip(code) == [] <==> r == {}
    ensures Strip(code) != [] ==> Strip(code) in r
  {
    var s := Strip(code);
    if s == [] then {}
    else if !IsIntLiteral(s) then {s, Upper(s)}
    else
      var n := ParseInt(s);
      {s, IntToString(n)} + if 0 <= n < 100 then {Pad2(n)} else {}
  }

  /** A code is stored under exactly the keys a lookup of that same code tries. */
  lemma CodeKeysAreVariants(code: String)
    requires Strip(code) != []
    ensures forall k :: k in CodeKeys(code) <==> k in NormVariants(Some(code))
  {}

  /** `normalize_code_keys`: the set of equivalent keys is built up one variant at a time. */
  method NormalizeCodeKeys(code: String) returns (keys: set<String>)
    ensures keys == CodeKeys(code)
  {
    keys := {};
    var s := Strip(code);
    if s == [] {
      return {};
    }
    keys := keys + {s};
    if !IsIntLiteral(s) {
      keys := keys + {Upper(s)};
    }
    if IsIntLiteral(s) {
      var n := ParseInt(s);
      keys := keys + {IntToString(n)};
      if 0 <= n < 100 {
        keys := keys + {Pad2(n)};
      }
    }
  }

  /** A one-digit number, padded to two digits: "0d" reads back as d and is not blank. */
  lemma PaddedDigit(n: nat)
    requires n < 10
    ensures Pad2(n) == [DigitChar(0), DigitChar(n)] && IntToString(n) == [DigitChar(n)]
    ensures Strip(Pad2(n)) == Pad2(n) && IsIntLiteral(Pad2(n)) && ParseInt(Pad2(n)) == n
    ensures Strip(IntToString(n)) == IntToString(n) && IsIntLiteral(IntToString(n)) && ParseInt(IntToString(n)) == n
  {
    assert Pad2(n) == [DigitChar(0), DigitChar(n)];
    DigitsParse(Pad2(n));
    assert IntToString(n) == NatToString(n) == [DigitChar(n)];
    DigitsParse(IntToString(n));
    NatToStringRoundTrip(n);
  }

  /** A non-empty run of digits is already stripped and reads as the number it writes. */
  lemma DigitsParse(s: String)
    requires |s| > 0 && AllDigits(s)
    ensures Strip(s) == s && IsIntLiteral(s) && ParseInt(s) == DigitsValue(s)
  {
    DigitsStripped(s);
    assert s[0] != '-';
  }

  lemma DigitsStripped(s: String)
    requires |s| > 0 && AllDigits(s)
    ensures Strip(s) == s
  {
    assert !IsSpace(s[0]) && !IsSpace(s[|s| - 1]);
    assert [] + s + [] == s;
    StripSurrounded([], s, []);
  }

  /** A one-digit code and its zero-padded form are stored under the same two keys ("1" and "01"). */
  lemma CodeKeysPadded(n: nat)
    requires n < 10
    ensures CodeKeys(Pad2(n)) == CodeKeys(IntToString(n)) == {Pad2(n), IntToString(n)}
  {
    PaddedDigit(n);
  }

  // ---------------------------------------------------------------- lookup

  /** Index of the first variant that is a key of `mapping`. */
  function FirstKnown(vs: seq<String>, mapping: map<String, String>): (r: Option<nat>)
    ensures r.Some? ==> r.value < |vs| && vs[r.value] in mapping
    ensures r.Some? ==> forall j :: 0 <= j < r.value ==> vs[j] !in mapping
    ensures r.None? <==> forall j :: 0 <= j < |vs| ==> vs[j] !in mapping
  {
    if vs == [] then None
    else if vs[0] in mapping then Some(0)
    else match FirstKnown(vs[1..], mapping)
      case None => None
      case Some(k) => Some(k + 1)
  }

  /** `fn` of `_make_lookup_udf`: the label of the first variant of the value that is a key. */
  function Lookup(mapping: map<String, String>, v: Option<String>): (r: Option<String>)
    ensures v.None? ==> r.None?
    ensures r.None? <==> forall k :: k in NormVariants(v) ==> k !in mapping
    ensures r.Some? ==>
              exists j :: 0 <= j < |NormVariants(v)| && NormVariants(v)[j] in mapping
                && r.value == mapping[NormVariants(v)[j]]
                && forall i :: 0 <= i < j ==> NormVariants(v)[i] !in mapping
  {
    var vs := NormVariants(v);
    match FirstKnown(vs, mapping)
    case None => None
    case Some(j) => Some(mapping[vs[j]])
  }

  /** The value as written, stripped, is tried first: when it is a key its label is the answer. */
  lemma LookupExact(mapping: map<String, String>, v: String)
    requires Strip(v) in mapping
    ensures Lookup(mapping, Some(v)) == Some(mapping[Strip(v)])
  {}

  /** A numeric value finds the key written as `str(int(value))`, whatever its padding and spacing. */
  lemma LookupNumeric(mapping: map<String, String>, v: String)
    requires IsIntLiteral(Strip(v)) && IntToString(ParseInt(Strip(v))) in mapping
    ensures Lookup(mapping, Some(v)).Some?
  {
    assert IntToString(ParseInt(Strip(v))) in RawVariants(Strip(v));
  }

  /**
   * Under key "d" alone, a padded "0d" with any surrounding spaces finds the label of "d": the
   * stripped text is tried first and `str(int)` next.
   */
  lemma LookupPaddedCode(mapping: map<String, String>, n: nat, pre: String, post: String)
    requires n < 10 && AllSpace(pre) && AllSpace(post)
    requires IntToString(n) in mapping && Pad2(n) !in mapping
    ensures Lookup(mapping, Some(pre + Pad2(n) + post)) == Some(mapping[IntToString(n)])
  {
    PaddedVariants(n, pre, post);
    LookupOnlyKnown(mapping, Some(pre + Pad2(n) + post), IntToString(n));
  }

  /** The variants of a padded digit with surrounding spaces are "0d" and "d". */
  lemma PaddedVariants(n: nat, pre: String, post: String)
    requires n < 10 && AllSpace(pre) && AllSpace(post)
    ensures IntToString(n) in NormVariants(Some(pre + Pad2(n) + post))
    ensures forall k :: k in NormVariants(Some(pre + Pad2(n) + post)) ==> k == Pad2(n) || k == IntToString(n)
  {
    PaddedDigit(n);
    StripSurrounded(pre, Pad2(n), post);
    PaddedRaw(n);
  }

  lemma PaddedRaw(n: nat)
    requires n < 10
    ensures forall k :: k in RawVariants(Pad2(n)) <==> k == Pad2(n) || k == IntToString(n)
  {
    PaddedDigit(n);
    assert RawVariants(Pad2(n)) == [Pad2(n), IntToString(n), Pad2(n)];
  }

  /** When exactly one variant of the value is a key, the lookup gives that key's label. */
  lemma LookupOnlyKnown(mapping: map<String, String>, v: Option<String>, key: String)
    requires key in NormVariants(v) && key in mapping
    requires forall k :: k in NormVariants(v) && k in mapping ==> k == key
    ensures Lookup(mapping, v) == Some(mapping[key])
  {
    var vs := NormVariants(v);
    var i :| 0 <= i < |vs| && vs[i] == key;
    var f := FirstKnown(vs, mapping);
    assert f.Some?;
    assert vs[f.value] in vs;
    assert Lookup(mapping, v) == Some(mapping[vs[f.value]]);
  }

  // ---------------------------------------------------------------- dict.update

  /** `d = {}` followed by `d.update(m)` (or `d[k] = m[k]` for each key) for every map in order. */
  function Overlay(ms: seq<map<String, String>>): (r: map<String, String>)
    ensures forall j :: 0 <= j < |ms| ==> ms[j].Keys <= r.Keys
    ensures |ms| > 0 ==> forall k :: k in ms[|ms| - 1] ==> r[k] == ms[|ms| - 1][k]
  {
    if ms == [] then map[]
    else
      assert forall j :: 0 <= j < |ms| - 1 ==> ms[..|ms| - 1][j] == ms[j];
      Overlay(ms[..|ms| - 1]) + ms[|ms| - 1]
  }

  /** A key ends up in the result exactly when some map has it. */
  lemma {:induction false} OverlayKeys(ms: seq<map<String, String>>, k: String)
    ensures k in Overlay(ms) <==> exists j :: 0 <= j < |ms| && k in ms[j]
  {
    if ms != [] {
      var n := |ms| - 1;
      OverlayKeys(ms[..n], k);
      if exists j :: 0 <= j < n && k in ms[..n][j] {
        var j :| 0 <= j < n && k in ms[..n][j];
        assert ms[j] == ms[..n][j];
      }
      if exists j :: 0 <= j < |ms| && k in ms[j] {
        var j :| 0 <= j < |ms| && k in ms[j];
        if j < n { assert ms[..n][j] == ms[j]; }
      }
    }
  }

  /** The last map that has a key decides its value. */
  lemma {:induction false} OverlayLast(ms: seq<map<String, String>>, j: nat, k: String)
    requires j < |ms| && k in ms[j]
    requires forall i :: j < i < |ms| ==> k !in ms[i]
    ensures k in Overlay(ms) && Overlay(ms)[k] == ms[j][k]
  {
    var n := |ms| - 1;
    if j < n {
      assert ms[..n][j] == ms[j];
      OverlayLast(ms[..n], j, k);
    }
  }

  /** Every key of the result comes from a last map that has it. */
  lemma {:induction false} LastHolder(ms: seq<map<String, String>>, k: String) returns (j: nat)
    requires k in Overlay(ms)
    ensures j < |ms| && k in ms[j] && Overlay(ms)[k] == ms[j][k]
    ensures forall i :: j < i < |ms| ==> k !in ms[i]
  {
    var n := |ms| - 1;
    if k in ms[n] {
      j := n;
    } else {
      j := LastHolder(ms[..n], k);
      assert forall i :: j < i < n ==> ms[..n][i] == ms[i];
    }
  }

  // ---------------------------------------------------------------- one release's map

  /** One entry of a variable's `categorias`: the code (`valor`) and its label (`categoria`). */
  datatype Category = Category(valor: String, categoria: String)

  predicate Usable(c: Category) { Strip(c.valor) != [] && Strip(c.categoria) != [] }

  /** What one category writes into `local_map`: its code's keys, all with its label; nothing when blank. */
  function StoreOf(c: Category): (r: map<String, String>)
    ensures Usable(c) ==> Strip(c.valor) in r && r[Strip(c.valor)] == Strip(c.categoria)
    ensures !Usable(c) <==> r == map[]
  {
    if Usable(c) then map k | k in CodeKeys(Strip(c.valor)) :: Strip(c.categoria) else map[]
  }

  function Stores(cats: seq<Category>): (r: seq<map<String, String>>)
    ensures |r| == |cats| && forall i :: 0 <= i < |cats| ==> r[i] == StoreOf(cats[i])
  {
    seq(|cats|, i requires 0 <= i < |cats| => StoreOf(cats[i]))
  }

  /** `local_map` of one dictionary record. */
  function LocalMap(cats: seq<Category>): (r: map<String, String>)
    ensures forall j :: 0 <= j < |cats| && Usable(cats[j]) ==> Strip(cats[j].valor) in r
    ensures |cats| > 0 && Usable(cats[|cats| - 1]) ==> r[Strip(cats[|cats| - 1].valor)] == Strip(cats[|cats| - 1].categoria)
  {
    Overlay(Stores(cats))
  }

  /** A key is in a record's map exactly when some usable category's code produces it. */
  lemma LocalMapKeys(cats: seq<Category>, k: String)
    ensures k in LocalMap(cats) <==> exists j :: 0 <= j < |cats| && Usable(cats[j]) && k in CodeKeys(Strip(cats[j].valor))
  {
    var stores := Stores(cats);
    OverlayKeys(stores, k);
    if exists j :: 0 <= j < |stores| && k in stores[j] {
      var j :| 0 <= j < |stores| && k in stores[j];
      StoreOfKeys(cats[j], k);
    }
    if exists j :: 0 <= j < |cats| && Usable(cats[j]) && k in CodeKeys(Strip(cats[j].valor)) {
      var j :| 0 <= j < |cats| && Usable(cats[j]) && k in CodeKeys(Strip(cats[j].valor));
      StoreOfKeys(cats[j], k);
      assert k in stores[j];
    }
  }

  lemma StoreOfKeys(c: Category, k: String)
    ensures k in StoreOf(c) <==> Usable(c) && k in CodeKeys(Strip(c.valor))
  { }

  /**
   * Looking a dictionary code up in its own record's map gives that code's label, unless a later
   * category of the record claims the same key.
   */
  lemma LookupOwnLabel(cats: seq<Category>, j: nat)
    requires j < |cats| && Usable(cats[j])
    requires forall i :: j < i < |cats| && Usable(cats[i]) ==> Strip(cats[j].valor) !in CodeKeys(Strip(cats[i].valor))
    ensures Lookup(LocalMap(cats), Some(cats[j].valor)) == Some(Strip(cats[j].categoria))
  {
    var s := Strip(cats[j].valor);
    var stores := Stores(cats);
    forall i | j < i < |stores| ensures s !in stores[i] {
      if Usable(cats[i]) {} else {}
    }
    OverlayLast(stores, j, s);
    StripIdempotent(cats[j].valor);
  }

  lemma StoresStep(cats: seq<Category>, i: nat)
    requires i < |cats|
    ensures LocalMap(cats[..i + 1]) == LocalMap(cats[..i]) + StoreOf(cats[i])
  {
    var st := Stores(cats[..i + 1]);
    assert st[..i] == Stores(cats[..i]);
    assert st[i] == StoreOf(cats[i]);
    assert Overlay(st) == Overlay(st[..i]) + st[i];
  }

  /** `for k in normalize_code_keys(code): local_map[k] = label`, one key at a time. */
  method StoreKeys(m: map<String, String>, keys: set<String>, caption: String) returns (m': map<String, String>)
    ensures m' == m + map k | k in keys :: caption
  {
    m' := m;
    var rest := keys;
    while rest != {}
      invariant rest <= keys
      invariant m' == m + map k | k in keys - rest :: caption
      decreases rest
    {
      var k :| k in rest;
      m' := m'[k := caption];
      rest := rest - {k};
    }
    assert keys - rest == keys;
  }

  /** The body of the loop over `cats`: a category with a blank code or label is skipped. */
  method WriteCategory(m: map<String, String>, c: Category) returns (m': map<String, String>)
    ensures m' == m + StoreOf(c)
  {
    if Strip(c.valor) == [] || Strip(c.categoria) == [] {
      NothingStored(m, c);
      return m;
    }
    var keys := NormalizeCodeKeys(Strip(c.valor));
    m' := StoreKeys(m, keys, Strip(c.categoria));
  }

  lemma NothingStored(m: map<String, String>, c: Category)
    requires !Usable(c)
    ensures m + StoreOf(c) == m
  {
  }

  /** `local_map` built in place, one category at a time. */
  method LocalMapOf(cats: seq<Category>) returns (m: map<String, String>)
    ensures m == LocalMap(cats)
  {
    m := map[];
    assert cats[..0] == [];
    for i := 0 to |cats|
      invariant m == LocalMap(cats[..i])
    {
      StoresStep(cats, i);
      m := WriteCategory(m, cats[i]);
    }
    assert cats[..|cats|] == cats;
  }

  // ---------------------------------------------------------------- consolidation

  /** One dictionary record after loading: the stripped `tabla` and `variable` and its categories. */
  datatype DictRow = DictRow(tabla: String, variable: String, categorias: seq<Category>)

  /** One record's map for its variable, with the rank of its release. */
  datatype Release = Release(rank: int, local: map<String, String>)

  /** A record as the grouping sees it: its base, its variable and its release. */
  datatype Entry = Entry(base: String, variable: String, release: Release)

  /** The base and release of a record; a record without `tabla` is read as "BASE". */
  function EntryOf(r: DictRow): (e: Entry)
    ensures e.variable == r.variable
  {
    var id := ParseTablaBase(if r.tabla == [] then "BASE" else r.tabla);
    Entry(id.base, r.variable, Release(YearQuarterRank(id.quarter, id.yy), LocalMap(r.categorias)))
  }

  function Entries(rows: seq<DictRow>): (r: seq<Entry>)
    ensures |r| == |rows| && forall i :: 0 <= i < |rows| ==> r[i] == EntryOf(rows[i])
  {
    seq(|rows|, i requires 0 <= i < |rows| => EntryOf(rows[i]))
  }

  /** All releases recorded so far for one (base, variable), in input order. */
  datatype Group = Group(base: String, variable: String, releases: seq<Release>)

  /** Position of the group for (base, variable). */
  function GroupIndex(groups: seq<Group>, base: String, variable: String): (r: Option<nat>)
    ensures r.Some? ==> r.value < |groups| && groups[r.value].base == base && groups[r.value].variable == variable
    ensures r.None? <==> forall k :: 0 <= k < |groups| ==> groups[k].base != base || groups[k].variable != variable
  {
    if groups == [] then None
    else if groups[0].base == base && groups[0].variable == variable then Some(0)
    else match GroupIndex(groups[1..], base, variable)
      case None => None
      case Some(k) => Some(k + 1)
  }

  /** `grouped[(base, variable)].append((rank, local_map))` */
  function AddEntry(groups: seq<Group>, e: Entry): (r: seq<Group>)
    ensures |groups| <= |r| <= |groups| + 1
    ensures forall k :: 0 <= k < |groups| && groups[k].releases != [] ==> r[k].releases != []
    ensures |r| == |groups| + 1 ==> r[|groups|] == Group(e.base, e.variable, [e.release])
  {
    match GroupIndex(groups, e.base, e.variable)
    case None => groups + [Group(e.base, e.variable, [e.release])]
    case Some(k) => groups[k := groups[k].(releases := groups[k].releases + [e.release])]
  }

  /** `grouped` after the first loop of `build_base_var_mappings`. */
  function Grouped(entries: seq<Entry>): (r: seq<Group>)
    ensures |r| <= |entries|
    ensures forall k :: 0 <= k < |r| ==> r[k].releases != []
  {
    if entries == [] then [] else AddEntry(Grouped(entries[..|entries| - 1]), entries[|entries| - 1])
  }

  /** The releases of the entries of one (base, variable), in input order. */
  function ReleasesOf(entries: seq<Entry>, base: String, variable: String): seq<Release> {
    if entries == [] then []
    else
      var e := entries[|entries| - 1];
      ReleasesOf(entries[..|entries| - 1], base, variable) + if e.base == base && e.variable == variable then [e.release] else []
  }

  predicate HasEntry(entries: seq<Entry>, base: String, variable: String) {
    exists i :: 0 <= i < |entries| && entries[i].base == base && entries[i].variable == variable
  }

  predicate HasGroup(groups: seq<Group>, base: String, variable: String) {
    exists k :: 0 <= k < |groups| && groups[k].base == base && groups[k].variable == variable
  }

  /** `groups` is `grouped` for `entries`: one group per key that occurs, holding its releases. */
  ghost predicate GroupsOf(groups: seq<Group>, entries: seq<Entry>) {
    (forall i, j :: 0 <= i < j < |groups| ==> groups[i].base != groups[j].base || groups[i].variable != groups[j].variable)
    && (forall k :: 0 <= k < |groups| ==> groups[k].releases == ReleasesOf(entries, groups[k].base, groups[k].variable))
    && (forall b, v :: HasGroup(groups, b, v) <==> HasEntry(entries, b, v))
  }

  lemma HasEntryStep(entries: seq<Entry>, b: String, v: String)
    requires entries != []
    ensures HasEntry(entries, b, v) <==>
              HasEntry(entries[..|entries| - 1], b, v) || (entries[|entries| - 1].base == b && entries[|entries| - 1].variable == v)
  {
    var init := entries[..|entries| - 1];
    if HasEntry(init, b, v) {
      var i :| 0 <= i < |init| && init[i].base == b && init[i].variable == v;
      assert entries[i] == init[i];
    }
    if HasEntry(entries, b, v) {
      var i :| 0 <= i < |entries| && entries[i].base == b && entries[i].variable == v;
      if i < |init| { assert init[i] == entries[i]; }
    }
  }

  lemma {:induction false} NoEntryNoReleases(entries: seq<Entry>, b: String, v: String)
    requires !HasEntry(entries, b, v)
    ensures ReleasesOf(entries, b, v) == []
  {
    if entries != [] {
      HasEntryStep(entries, b, v);
      NoEntryNoReleases(entries[..|entries| - 1], b, v);
    }
  }

  lemma HasGroupAppend(g: seq<Group>, grp: Group, b: String, v: String)
    ensures HasGroup(g + [grp], b, v) <==> HasGroup(g, b, v) || (grp.base == b && grp.variable == v)
  {
    var g' := g + [grp];
    if HasGroup(g', b, v) {
      var k :| 0 <= k < |g'| && g'[k].base == b && g'[k].variable == v;
      if k < |g| { assert g[k] == g'[k]; }
    }
    if HasGroup(g, b, v) {
      var k :| 0 <= k < |g| && g[k].base == b && g[k].variable == v;
      assert g'[k] == g[k];
    }
    if grp.base == b && grp.variable == v {
      assert g'[|g|] == grp;
    }
  }

  lemma HasGroupUpdate(g: seq<Group>, k: nat, grp: Group, b: String, v: String)
    requires k < |g| && grp.base == g[k].base && grp.variable == g[k].variable
    ensures HasGroup(g[k := grp], b, v) <==> HasGroup(g, b, v)
  {
    var g' := g[k := grp];
    if HasGroup(g', b, v) {
      var i :| 0 <= i < |g'| && g'[i].base == b && g'[i].variable == v;
      assert g[i].base == b && g[i].variable == v;
    }
    if HasGroup(g, b, v) {
      var i :| 0 <= i < |g| && g[i].base == b && g[i].variable == v;
      assert g'[i].base == b && g'[i].variable == v;
    }
  }

  /** A record of a new key opens a group of its own. */
  lemma AddEntryNew(g: seq<Group>, entries: seq<Entry>)
    requires entries != [] && GroupsOf(g, entries[..|entries| - 1])
    requires GroupIndex(g, entries[|entries| - 1].base, entries[|entries| - 1].variable).None?
    ensures GroupsOf(AddEntry(g, entries[|entries| - 1]), entries)
  {
    var init := entries[..|entries| - 1];
    var e := entries[|entries| - 1];
    var grp := Group(e.base, e.variable, [e.release]);
    assert AddEntry(g, e) == g + [grp];
    NoEntryNoReleases(init, e.base, e.variable);
    forall b, v ensures HasGroup(g + [grp], b, v) <==> HasEntry(entries, b, v) {
      HasEntryStep(entries, b, v);
      HasGroupAppend(g, grp, b, v);
    }
  }

  /** A record of a known key is appended to that key's group. */
  lemma AddEntryExisting(g: seq<Group>, entries: seq<Entry>, k: nat)
    requires entries != [] && GroupsOf(g, entries[..|entries| - 1])
    requires GroupIndex(g, entries[|entries| - 1].base, entries[|entries| - 1].variable) == Some(k)
    ensures GroupsOf(AddEntry(g, entries[|entries| - 1]), entries)
  {
    var e := entries[|entries| - 1];
    var grp := g[k].(releases := g[k].releases + [e.release]);
    assert AddEntry(g, e) == g[k := grp];
    forall b, v ensures HasGroup(g[k := grp], b, v) <==> HasEntry(entries, b, v) {
      HasEntryStep(entries, b, v);
      HasGroupUpdate(g, k, grp, b, v);
    }
  }

  /**
   * Grouping is exact: one group per (base, variable) that occurs, and each group holds the
   * releases of exactly the entries with that key, in input order.
   */
  lemma {:induction false} GroupedExact(entries: seq<Entry>)
    ensures GroupsOf(Grouped(entries), entries)
  {
    if entries != [] {
      var init := entries[..|entries| - 1];
      var e := entries[|entries| - 1];
      GroupedExact(init);
      match GroupIndex(Grouped(init), e.base, e.variable)
      case None => AddEntryNew(Grouped(init), entries);
      case Some(k) => AddEntryExisting(Grouped(init), entries, k);
    }
  }

  /** The release maps, in order. */
  function Locals(rels: seq<Release>): (r: seq<map<String, String>>)
    ensures |r| == |rels| && forall i :: 0 <= i < |rels| ==> r[i] == rels[i].local
  {
    seq(|rels|, i requires 0 <= i < |rels| => rels[i].local)
  }

  /** Oldest release first; equal ranks keep their input order. */
  function ByRank(rels: seq<Release>): (r: seq<Release>)
    ensures multiset(r) == multiset(rels)
  {
    SortBy(rels, (a: Release, b: Release) => a.rank <= b.rank)
  }

  /** `merged.update(mp)` over the releases sorted by rank: the consolidated map of one (base, variable). */
  function Merged(rels: seq<Release>): (r: map<String, String>)
    ensures forall j :: 0 <= j < |rels| ==> rels[j].local.Keys <= r.Keys
  {
    RanksCovered(rels);
    Overlay(Locals(ByRank(rels)))
  }

  /** Sorting by rank loses no release, so every release's codes reach the overlay. */
  lemma RanksCovered(rels: seq<Release>)
    ensures forall j :: 0 <= j < |rels| ==> rels[j].local.Keys <= Overlay(Locals(ByRank(rels))).Keys
  {
    forall j | 0 <= j < |rels| ensures rels[j].local.Keys <= Overlay(Locals(ByRank(rels))).Keys {
      var i := PositionIn(rels, ByRank(rels), rels[j]);
      assert Locals(ByRank(rels))[i] == rels[j].local;
    }
  }

  /** Where a member of one sequence sits in a permutation of it. */
  lemma PositionIn(a: seq<Release>, b: seq<Release>, x: Release) returns (i: nat)
    requires multiset(a) == multiset(b) && x in a
    ensures i < |b| && b[i] == x
  {
    assert x in multiset(a);
    assert x in b;
    i :| 0 <= i < |b| && b[i] == x;
  }

  /** A code is in the consolidated map exactly when some release labels it. */
  lemma MergedKeys(rels: seq<Release>, k: String)
    ensures k in Merged(rels) <==> exists i :: 0 <= i < |rels| && k in rels[i].local
  {
    var sorted := ByRank(rels);
    OverlayKeys(Locals(sorted), k);
    if exists i :: 0 <= i < |rels| && k in rels[i].local {
      var i :| 0 <= i < |rels| && k in rels[i].local;
      var i' := PositionIn(rels, sorted, rels[i]);
      assert k in Locals(sorted)[i'];
    }
    if exists i :: 0 <= i < |sorted| && k in Locals(sorted)[i] {
      var i :| 0 <= i < |sorted| && k in Locals(sorted)[i];
      var i' := PositionIn(sorted, rels, sorted[i]);
      assert k in rels[i'].local;
    }
  }

  /**
   * The latest release wins: each consolidated label is the label of a release that has the
   * code and whose rank is the highest among the releases that have it; among releases of that
   * same rank, the one that comes last in the input wins (the sort is stable and `update` lets
   * the later map overwrite).
   */
  lemma LatestReleaseWins(rels: seq<Release>, k: String) returns (j: nat)
    requires k in Merged(rels)
    ensures j < |rels| && k in rels[j].local && Merged(rels)[k] == rels[j].local[k]
    ensures forall i :: 0 <= i < |rels| && k in rels[i].local ==> rels[i].rank <= rels[j].rank
    ensures forall i :: j < i < |rels| && k in rels[i].local ==> rels[i].rank < rels[j].rank
  {
    var sorted := ByRank(rels);
    var s := LastHolder(Locals(sorted), k);
    assert forall t :: s < t < |sorted| ==> k !in sorted[t].local by {
      assert forall t :: s < t < |sorted| ==> Locals(sorted)[t] == sorted[t].local;
    }
    j := SameRelease(rels, k, s);
    RankBound(rels, k, s);
  }

  /**
   * The release whose map is the last in sorted order to hold `k` is, among the releases of its
   * rank holding `k`, the last in input order: the sort is stable.
   */
  lemma SameRelease(rels: seq<Release>, k: String, s: nat) returns (j: nat)
    requires s < |ByRank(rels)| && k in ByRank(rels)[s].local
    requires forall t :: s < t < |ByRank(rels)| ==> k !in ByRank(rels)[t].local
    ensures j < |rels| && rels[j] == ByRank(rels)[s]
    ensures forall i :: j < i < |rels| && k in rels[i].local ==> rels[i].rank != rels[j].rank
  {
    var le := (a: Release, b: Release) => a.rank <= b.rank;
    var sorted := ByRank(rels);
    var rank := sorted[s].rank;
    var q := (r: Release) => k in r.local && r.rank == rank;
    assert OneClass(q, le);
    SortByStable(rels, le, q);
    FilterLast(sorted, q, s);
    var i0 := PositionIn(sorted, rels, sorted[s]);
    j := LastWith(rels, q, i0);
    FilterLast(rels, q, j);
    forall i | j < i < |rels| && k in rels[i].local ensures rels[i].rank != rank {
      assert !q(rels[i]);
    }
  }

  /** No release holding `k` outranks the last release in sorted order that holds it. */
  lemma RankBound(rels: seq<Release>, k: String, s: nat)
    requires s < |ByRank(rels)| && k in ByRank(rels)[s].local
    requires forall t :: s < t < |ByRank(rels)| ==> k !in ByRank(rels)[t].local
    ensures forall i :: 0 <= i < |rels| && k in rels[i].local ==> rels[i].rank <= ByRank(rels)[s].rank
  {
    var le := (a: Release, b: Release) => a.rank <= b.rank;
    var sorted := ByRank(rels);
    SortBySorted(rels, le);
    forall i | 0 <= i < |rels| && k in rels[i].local ensures rels[i].rank <= sorted[s].rank {
      var i' := PositionIn(rels, sorted, rels[i]);
      if i' < s { SortedPairwise(sorted, le, i', s); }
    }
  }

  /** One base's consolidated map for one variable. */
  datatype VarMapping = VarMapping(variable: String, mapping: map<String, String>)

  /** `result[base][variable] = merged` for one group. */
  function Put(res: map<String, seq<VarMapping>>, g: Group, merged: map<String, String>): map<String, seq<VarMapping>> {
    res[g.base := (if g.base in res then res[g.base] else []) + [VarMapping(g.variable, merged)]]
  }

  /** The second loop of `build_base_var_mappings`, group after group. */
  function Assemble(groups: seq<Group>): (r: map<String, seq<VarMapping>>)
    ensures forall k :: 0 <= k < |groups| ==> groups[k].base in r
    ensures forall b :: b in r ==> r[b] != []
  {
    if groups == [] then map[]
    else
      var g := groups[|groups| - 1];
      assert forall k :: 0 <= k < |groups| - 1 ==> groups[..|groups| - 1][k] == groups[k];
      Put(Assemble(groups[..|groups| - 1]), g, Merged(g.releases))
  }

  lemma AssembleStep(groups: seq<Group>, i: nat)
    requires i < |groups|
    ensures Assemble(groups[..i + 1]) == Put(Assemble(groups[..i]), groups[i], Merged(groups[i].releases))
  {
    assert groups[..i + 1][..i] == groups[..i];
  }

  /** The consolidated maps of the groups of one base, in group order. */
  function VarsOf(groups: seq<Group>, b: String): seq<VarMapping> {
    if groups == [] then []
    else
      var g := groups[|groups| - 1];
      VarsOf(groups[..|groups| - 1], b) + if g.base == b then [VarMapping(g.variable, Merged(g.releases))] else []
  }

  predicate HasBase(groups: seq<Group>, b: String) {
    exists k :: 0 <= k < |groups| && groups[k].base == b
  }

  lemma HasBaseStep(groups: seq<Group>, b: String)
    requires groups != []
    ensures HasBase(groups, b) <==> HasBase(groups[..|groups| - 1], b) || groups[|groups| - 1].base == b
  {
    var init := groups[..|groups| - 1];
    if HasBase(init, b) {
      var k :| 0 <= k < |init| && init[k].base == b;
      assert groups[k] == init[k];
    }
    if HasBase(groups, b) {
      var k :| 0 <= k < |groups| && groups[k].base == b;
      if k < |init| { assert init[k] == groups[k]; }
    }
  }

  /** A base is present exactly when it has a group, and holds its groups' maps in order. */
  lemma {:induction false} AssembleOf(groups: seq<Group>, b: String)
    ensures b in Assemble(groups) <==> HasBase(groups, b)
    ensures (if b in Assemble(groups) then Assemble(groups)[b] else []) == VarsOf(groups, b)
  {
    if groups != [] {
      AssembleOf(groups[..|groups| - 1], b);
      HasBaseStep(groups, b);
    }
  }

  /** `x` is the entry a group of base `b` contributes. */
  predicate Contributes(g: Group, b: String, x: VarMapping) {
    g.base == b && x == VarMapping(g.variable, Merged(g.releases))
  }

  lemma {:induction false} VarsOfMembers(groups: seq<Group>, b: String, x: VarMapping)
    ensures x in VarsOf(groups, b) <==> exists k :: 0 <= k < |groups| && Contributes(groups[k], b, x)
  {
    if x in VarsOf(groups, b) {
      var k := VarsOfSource(groups, b, x);
    }
    if exists k :: 0 <= k < |groups| && Contributes(groups[k], b, x) {
      var k :| 0 <= k < |groups| && Contributes(groups[k], b, x);
      VarsOfHas(groups, b, x, k);
    }
  }

  /** Every map of a base comes from a group of that base. */
  lemma {:induction false} VarsOfSource(groups: seq<Group>, b: String, x: VarMapping) returns (k: nat)
    requires x in VarsOf(groups, b)
    ensures k < |groups| && Contributes(groups[k], b, x)
  {
    var n := |groups| - 1;
    var init, g := groups[..n], groups[n];
    var tail := if g.base == b then [VarMapping(g.variable, Merged(g.releases))] else [];
    assert VarsOf(groups, b) == VarsOf(init, b) + tail;
    if x in VarsOf(init, b) {
      k := VarsOfSource(init, b, x);
      assert groups[k] == init[k];
    } else {
      k := n;
    }
  }

  /** Every group of a base contributes its map. */
  lemma {:induction false} VarsOfHas(groups: seq<Group>, b: String, x: VarMapping, k: nat)
    requires k < |groups| && Contributes(groups[k], b, x)
    ensures x in VarsOf(groups, b)
  {
    var n := |groups| - 1;
    var init, g := groups[..n], groups[n];
    var tail := if g.base == b then [VarMapping(g.variable, Merged(g.releases))] else [];
    assert VarsOf(groups, b) == VarsOf(init, b) + tail;
    if k < n {
      assert init[k] == groups[k];
      VarsOfHas(init, b, x, k);
    } else {
      assert tail == [x];
    }
  }

  /** `build_base_var_mappings`: per base, one consolidated map per variable, in order of first appearance. */
  function BaseVarMappings(rows: seq<DictRow>): map<String, seq<VarMapping>> {
    Assemble(Grouped(Entries(rows)))
  }

  /**
   * Consolidation, record by record: a base holds a map for a variable exactly when some record
   * of that base names the variable, and every map it holds is the rank-ordered merge of exactly
   * the releases of the records of that base and variable.
   */
  lemma BaseVarMappingsExact(rows: seq<DictRow>, b: String, v: String)
    ensures HasEntry(Entries(rows), b, v) ==>
              b in BaseVarMappings(rows) && VarMapping(v, Merged(ReleasesOf(Entries(rows), b, v))) in BaseVarMappings(rows)[b]
    ensures b in BaseVarMappings(rows) ==>
              forall x :: x in BaseVarMappings(rows)[b] ==>
                HasEntry(Entries(rows), b, x.variable) && x.mapping == Merged(ReleasesOf(Entries(rows), b, x.variable))
  {
    BaseVarMappingsComplete(rows, b, v);
    BaseVarMappingsSound(rows, b);
  }

  lemma BaseVarMappingsComplete(rows: seq<DictRow>, b: String, v: String)
    ensures HasEntry(Entries(rows), b, v) ==>
              b in BaseVarMappings(rows) && VarMapping(v, Merged(ReleasesOf(Entries(rows), b, v))) in BaseVarMappings(rows)[b]
  {
    var entries := Entries(rows);
    var groups := Grouped(entries);
    GroupedExact(entries);
    AssembleOf(groups, b);
    if HasEntry(entries, b, v) {
      assert HasGroup(groups, b, v);
      var k :| 0 <= k < |groups| && groups[k].base == b && groups[k].variable == v;
      VarsOfMembers(groups, b, VarMapping(v, Merged(groups[k].releases)));
    }
  }

  lemma BaseVarMappingsSound(rows: seq<DictRow>, b: String)
    ensures b in BaseVarMappings(rows) ==>
              forall x :: x in BaseVarMappings(rows)[b] ==>
                HasEntry(Entries(rows), b, x.variable) && x.mapping == Merged(ReleasesOf(Entries(rows), b, x.variable))
  {
    var entries := Entries(rows);
    var groups := Grouped(entries);
    GroupedExact(entries);
    AssembleOf(groups, b);
    if b in Assemble(groups) {
      forall x | x in Assemble(groups)[b]
        ensures HasEntry(entries, b, x.variable) && x.mapping == Merged(ReleasesOf(entries, b, x.variable))
      {
        MemberSound(groups, entries, b, x);
      }
    }
  }

  /** A map held for a base comes from a group, and so from the records of that base and variable. */
  lemma MemberSound(groups: seq<Group>, entries: seq<Entry>, b: String, x: VarMapping)
    requires GroupsOf(groups, entries) && x in VarsOf(groups, b)
    ensures HasEntry(entries, b, x.variable) && x.mapping == Merged(ReleasesOf(entries, b, x.variable))
  {
    VarsOfMembers(groups, b, x);
    var k :| 0 <= k < |groups| && Contributes(groups[k], b, x);
    assert groups[k].releases == ReleasesOf(entries, b, x.variable);
    assert HasGroup(groups, b, x.variable);
  }


  lemma GroupedStep(entries: seq<Entry>, i: nat)
    requires i < |entries|
    ensures Grouped(entries[..i + 1]) == AddEntry(Grouped(entries[..i]), entries[i])
  {
    assert entries[..i + 1][..i] == entries[..i];
  }

  /** The first loop of `build_base_var_mappings`. */
  method GroupRows(rows: seq<DictRow>) returns (grouped: seq<Group>)
    ensures grouped == Grouped(Entries(rows))
  {
    ghost var entries := Entries(rows);
    grouped := [];
    for i := 0 to |rows|
      invariant grouped == Grouped(entries[..i])
    {
      grouped := GroupRow(rows, i, entries, grouped);
    }
    assert entries[..|rows|] == entries;
  }

  /** One turn of the first loop: the record's entry joins or opens its group. */
  method GroupRow(rows: seq<DictRow>, i: nat, ghost entries: seq<Entry>, grouped: seq<Group>) returns (grouped': seq<Group>)
    requires i < |rows| && entries == Entries(rows) && grouped == Grouped(entries[..i])
    ensures grouped' == Grouped(entries[..i + 1])
  {
    var r := rows[i];
    var id := ParseTablaBase(if r.tabla == [] then "BASE" else r.tabla);
    var local := LocalMapOf(r.categorias);
    var e := Entry(id.base, r.variable, Release(YearQuarterRank(id.quarter, id.yy), local));
    GroupedStep(entries, i);
    grouped' := AddEntry(grouped, e);
  }

  lemma OverlayStep(ms: seq<map<String, String>>, j: nat)
    requires j < |ms|
    ensures Overlay(ms[..j + 1]) == Overlay(ms[..j]) + ms[j]
  {
    assert ms[..j + 1][..j] == ms[..j];
  }

  /** `sorted(lst, key=rank)` followed by `merged.update(mp)` for each release. */
  method MergeReleases(rels: seq<Release>) returns (merged: map<String, String>)
    ensures merged == Merged(rels)
  {
    var ms := Locals(ByRank(rels));
    merged := map[];
    for j := 0 to |ms|
      invariant merged == Overlay(ms[..j])
    {
      OverlayStep(ms, j);
      merged := merged + ms[j];
    }
    assert ms[..|ms|] == ms;
  }

  /** `build_base_var_mappings`: group the records, then merge each group oldest to newest. */
  method BuildBaseVarMappings(rows: seq<DictRow>) returns (result: map<String, seq<VarMapping>>)
    ensures result == BaseVarMappings(rows)
  {
    var grouped := GroupRows(rows);
    result := AssembleGroups(grouped);
  }

  /** The second loop of `build_base_var_mappings`, over the groups in order. */
  method AssembleGroups(groups: seq<Group>) returns (result: map<String, seq<VarMapping>>)
    ensures result == Assemble(groups)
  {
    result := map[];
    for g := 0 to |groups|
      invariant result == Assemble(groups[..g])
    {
      result := AssembleGroup(groups, g, result);
    }
    assert groups[..|groups|] == groups;
  }

  /** One group of the second loop: its releases merged and filed under its base. */
  method AssembleGroup(groups: seq<Group>, g: nat, result: map<String, seq<VarMapping>>) returns (result': map<String, seq<VarMapping>>)
    requires g < |groups| && result == Assemble(groups[..g])
    ensures result' == Assemble(groups[..g + 1])
  {
    AssembleStep(groups, g);
    var merged := MergeReleases(groups[g].releases);
    result' := Put(result, groups[g], merged);
  }
}
