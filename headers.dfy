/**
 * `microdatos/headers.py`: reads the header line of every ENOE CSV, normalises it
 * (no BOM, trimmed, whitespace runs contracted to one space, lower case) and groups the files
 * by normalised header, separating the headers shared by several files from the unique ones.
 */
module Headers {
  import opened Wrappers
  import opened Text
  import opened Sniff
  import opened Sorting

  // ---------------------------------------------------------------- header normalisation

  const Bom: char := '\U{FEFF}'

  /** `s.replace("﻿", "")` */
  function RemoveBom(s: String): (r: String)
    ensures forall i :: 0 <= i < |r| ==> r[i] != Bom && r[i] in s
  {
    if s == [] then [] else (if s[0] == Bom then [] else [s[0]]) + RemoveBom(s[1..])
  }

  lemma {:induction false} RemoveBomAbsent(s: String)
    requires forall i :: 0 <= i < |s| ==> s[i] != Bom
    ensures RemoveBom(s) == s
  {
    if s != [] { RemoveBomAbsent(s[1..]); }
  }

  lemma {:induction false} RemoveBomAppend(a: String, b: String)
    ensures RemoveBom(a + b) == RemoveBom(a) + RemoveBom(b)
  {
    if a != [] {
      assert (a + b)[1..] == a[1..] + b;
      RemoveBomAppend(a[1..], b);
    } else {
      assert a + b == b;
    }
  }

  /** `re.sub(r"\s+", " ", s)`: every maximal run of whitespace becomes one space. */
  function CollapseSpace(s: String): (r: String)
    ensures |r| <= |s|
    ensures r == [] <==> s == []
    ensures r != [] ==> (IsSpace(r[0]) <==> IsSpace(s[0])) && (IsSpace(r[|r| - 1]) <==> IsSpace(s[|s| - 1]))
  {
    if s == [] then []
    else if IsSpace(s[0]) && |s| > 1 && IsSpace(s[1]) then CollapseSpace(s[1..])
    else [if IsSpace(s[0]) then ' ' else s[0]] + CollapseSpace(s[1..])
  }

  /** No Unicode BOM character. */
  predicate NoBom(s: String) { forall i :: 0 <= i < |s| ==> s[i] != Bom }

  /** Whitespace only as single spaces. */
  predicate SingleSpaced(s: String) {
    (forall i :: 0 <= i < |s| && IsSpace(s[i]) ==> s[i] == ' ')
    && (forall i :: 0 <= i < |s| - 1 ==> !IsSpace(s[i]) || !IsSpace(s[i + 1]))
  }

  /** Collapsing leaves every whitespace run a single space and adds no BOM. */
  lemma {:induction false} CollapseShape(s: String)
    ensures SingleSpaced(CollapseSpace(s))
    ensures NoBom(s) ==> NoBom(CollapseSpace(s))
  {
    if s != [] {
      CollapseShape(s[1..]);
      var t := CollapseSpace(s[1..]);
      if !(IsSpace(s[0]) && |s| > 1 && IsSpace(s[1])) {
        var r := CollapseSpace(s);
        assert r == [if IsSpace(s[0]) then ' ' else s[0]] + t;
        assert r[1..] == t;
        if t != [] && IsSpace(s[0]) {
          assert !IsSpace(s[1..][0]);
        }
      }
    }
  }

  /** Text whose whitespace is already single spaces is left as it is. */
  lemma {:induction false} CollapseSettled(s: String)
    requires SingleSpaced(s)
    ensures CollapseSpace(s) == s
  {
    if s != [] {
      assert SingleSpaced(s[1..]) by {
        assert forall i :: 0 <= i < |s[1..]| ==> s[1..][i] == s[i + 1];
      }
      CollapseSettled(s[1..]);
      if IsSpace(s[0]) && |s| > 1 {
        assert !IsSpace(s[1]);
      }
    }
  }

  /** `strip` returns a slice of its argument. */
  lemma StripSlice(s: String) returns (k: nat)
    ensures k + |Strip(s)| <= |s| && Strip(s) == s[k..k + |Strip(s)|]
  {
    var left := StripLeft(s);
    k := |s| - |left|;
    assert Strip(s) == left[..|Strip(s)|];
  }

  /** Every string is its stripped form between two runs of whitespace. */
  lemma StripSplit(y: String) returns (pre: String, post: String)
    ensures AllSpace(pre) && AllSpace(post) && y == pre + Strip(y) + post
  {
    var left := StripLeft(y);
    var k := |y| - |left|;
    var x := StripRight(left);
    pre := y[..k];
    post := left[|x|..];
    assert AllSpace(pre) by {
      forall i | 0 <= i < |pre| ensures IsSpace(pre[i]) { assert pre[i] == y[i]; }
    }
    assert AllSpace(post) by {
      forall i | 0 <= i < |post| ensures IsSpace(post[i]) { assert post[i] == left[|x| + i]; }
    }
    SplitAt(left, |x|);
    SplitAt(y, k);
    assert Strip(y) == x && left == x + post && y == pre + left;
    Associate(pre, x, post);
  }

  lemma Associate(a: String, b: String, c: String)
    ensures a + (b + c) == a + b + c
  {
  }

  lemma SplitAt(s: String, k: nat)
    requires k <= |s|
    ensures s == s[..k] + s[k..]
  {
  }

  /** Lower-casing keeps the shape: no BOM, no edge whitespace, single spaces. */
  lemma LowerShape(s: String)
    requires NoBom(s) && SingleSpaced(s) && (s == [] || (!IsSpace(s[0]) && !IsSpace(s[|s| - 1])))
    ensures NoBom(Lower(s)) && SingleSpaced(Lower(s))
    ensures Lower(s) == [] || (!IsSpace(Lower(s)[0]) && !IsSpace(Lower(s)[|s| - 1]))
  {
  }

  /**
   * `_normalize_header_name`: `None` gives `""`; otherwise the BOM is removed, the name trimmed,
   * its whitespace runs contracted to one space, and the result lower-cased.
   */
  function NormalizeHeaderName(s: Option<String>): (r: String)
    ensures s.None? ==> r == []
  {
    match s
    case None => []
    case Some(x) => Lower(CollapseSpace(Strip(RemoveBom(x))))
  }

  /**
   * A normalised name holds no BOM and no upper-case letter, does not start or end with
   * whitespace, and its only whitespace is single spaces.
   */
  lemma NormalizeShape(s: Option<String>)
    ensures var r := NormalizeHeaderName(s);
      NoBom(r) && SingleSpaced(r) && (r == [] || (!IsSpace(r[0]) && !IsSpace(r[|r| - 1])))
      && forall i :: 0 <= i < |r| ==> !IsAsciiUpper(r[i]) && !IsLatinUpper(r[i])
  {
    if s.Some? {
      var trimmed := Strip(RemoveBom(s.value));
      var k := StripSlice(RemoveBom(s.value));
      assert NoBom(trimmed) by {
        forall i | 0 <= i < |trimmed| ensures trimmed[i] != Bom {
          assert trimmed[i] == RemoveBom(s.value)[k + i];
        }
      }
      CollapseShape(trimmed);
      LowerShape(CollapseSpace(trimmed));
    }
  }

  /** Normalising a normalised name changes nothing. */
  lemma NormalizeIdempotent(s: Option<String>)
    ensures NormalizeHeaderName(Some(NormalizeHeaderName(s))) == NormalizeHeaderName(s)
  {
    var n := NormalizeHeaderName(s);
    NormalizeShape(s);
    RemoveBomAbsent(n);
    assert [] + n + [] == n;
    StripSurrounded([], n, []);
    CollapseSettled(n);
    if s.Some? {
      LowerIdempotent(CollapseSpace(Strip(RemoveBom(s.value))));
    }
  }

  lemma Regroup(a: String, b: String, c: String, d: String, e: String)
    ensures a + (b + c + d) + e == (a + b) + c + (d + e)
  {
  }

  /** Whitespace around a string does not survive `strip`. */
  lemma StripAbsorb(pre: String, y: String, post: String)
    requires AllSpace(pre) && AllSpace(post)
    ensures Strip(pre + y + post) == Strip(y)
  {
    var p, q := StripSplit(y);
    var x := Strip(y);
    assert x == [] || (!IsSpace(x[0]) && !IsSpace(x[|x| - 1]));
    var a, b := pre + p, q + post;
    assert AllSpace(a) by {
      forall i | 0 <= i < |a| ensures IsSpace(a[i]) { if i < |pre| { assert a[i] == pre[i]; } else { assert a[i] == p[i - |pre|]; } }
    }
    assert AllSpace(b) by {
      forall i | 0 <= i < |b| ensures IsSpace(b[i]) { if i < |q| { assert b[i] == q[i]; } else { assert b[i] == post[i - |q|]; } }
    }
    Regroup(pre, p, x, q, post);
    StripSurrounded(a, x, b);
  }

  /** Stripping a cell before normalising it makes no difference. */
  lemma NormalizeStripped(c: String)
    ensures NormalizeHeaderName(Some(Strip(c))) == NormalizeHeaderName(Some(c))
  {
    var pre, post := StripSplit(c);
    var x := Strip(c);
    RemoveBomAbsent(pre);
    RemoveBomAbsent(post);
    RemoveBomAppend(pre + x, post);
    RemoveBomAppend(pre, x);
    StripAbsorb(pre, RemoveBom(x), post);
  }

  /** A name with no BOM, no edge whitespace and single spaces passes the first three steps unchanged. */
  lemma NormalizeSettledSteps(s: String)
    requires NoBom(s) && SingleSpaced(s) && (s == [] || (!IsSpace(s[0]) && !IsSpace(s[|s| - 1])))
    ensures CollapseSpace(Strip(RemoveBom(s))) == s
  {
    RemoveBomAbsent(s);
    assert [] + s + [] == s;
    StripSurrounded([], s, []);
    CollapseSettled(s);
  }

  /** Lower-casing text with no upper-case letter changes nothing. */
  lemma LowerSettled(s: String)
    requires forall i :: 0 <= i < |s| ==> !IsAsciiUpper(s[i]) && !IsLatinUpper(s[i])
    ensures Lower(s) == s
  {
    assert forall i :: 0 <= i < |s| ==> Lower(s)[i] == s[i];
  }

  /**
   * A name already in normal form (no BOM, trimmed, single spaces, lower case) is its own
   * normalisation: nothing but the BOM, edge whitespace, extra whitespace and case is touched.
   */
  lemma NormalizeFixed(s: String)
    requires NoBom(s) && SingleSpaced(s) && (s == [] || (!IsSpace(s[0]) && !IsSpace(s[|s| - 1])))
    requires forall i :: 0 <= i < |s| ==> !IsAsciiUpper(s[i]) && !IsLatinUpper(s[i])
    ensures NormalizeHeaderName(Some(s)) == s
  {
    NormalizeSettledSteps(s);
    LowerSettled(s);
  }

  /** A name with neither whitespace nor BOM normalises to its lower-case form, character by character. */
  lemma NormalizeWord(s: String)
    requires forall i :: 0 <= i < |s| ==> s[i] != Bom && !IsSpace(s[i])
    ensures NormalizeHeaderName(Some(s)) == Lower(s)
  {
    NormalizeSettledSteps(s);
  }

  // ---------------------------------------------------------------- decoding and delimiter

  /** The decodings `_best_decode` tries, in order. */
  const DecodeOrder: seq<Encoding> := [Utf8Sig, Utf8, Latin1]

  /**
   * `b.decode(enc)`, `None` when it raises: `strict` for the UTF-8 forms; Latin-1 maps every
   * byte to one character and cannot fail.
   */
  function TryDecode(data: seq<Byte>, strict: Encoding -> Option<String>, enc: Encoding): Option<String> {
    if enc == Latin1 then Some(Latin1Text(data)) else strict(enc)
  }

  function FirstDecoded(data: seq<Byte>, strict: Encoding -> Option<String>, encs: seq<Encoding>): (r: Option<String>)
    ensures r.None? <==> forall k :: 0 <= k < |encs| ==> TryDecode(data, strict, encs[k]).None?
    ensures r.Some? ==> exists k :: 0 <= k < |encs| && TryDecode(data, strict, encs[k]) == r
  {
    if encs == [] then None
    else if TryDecode(data, strict, encs[0]).Some? then TryDecode(data, strict, encs[0])
    else
      var r := FirstDecoded(data, strict, encs[1..]);
      assert forall k :: 1 <= k < |encs| ==> encs[k] == encs[1..][k - 1];
      r
  }

  /** The `i`-th encoding is the first of `encs` that decodes the bytes. */
  predicate FirstDecodedHit(data: seq<Byte>, strict: Encoding -> Option<String>, encs: seq<Encoding>, i: nat) {
    i < |encs| && TryDecode(data, strict, encs[i]).Some?
    && forall k :: 0 <= k < i ==> TryDecode(data, strict, encs[k]).None?
  }

  /** The first encoding that decodes the bytes decides the text. */
  lemma {:induction false} FirstDecodedAt(data: seq<Byte>, strict: Encoding -> Option<String>, encs: seq<Encoding>, i: nat)
    requires FirstDecodedHit(data, strict, encs, i)
    ensures FirstDecoded(data, strict, encs) == TryDecode(data, strict, encs[i])
    decreases i
  {
    if i > 0 {
      assert TryDecode(data, strict, encs[0]).None?;
      assert FirstDecodedHit(data, strict, encs[1..], i - 1) by {
        forall k | 0 <= k < i - 1 ensures TryDecode(data, strict, encs[1..][k]).None? {
          assert encs[1..][k] == encs[k + 1];
        }
      }
      FirstDecodedAt(data, strict, encs[1..], i - 1);
    }
  }

  /**
   * `_best_decode`: UTF-8 with signature, else UTF-8, else Latin-1; the Latin-1 attempt never
   * fails, so the lossy last resort after the loop is never reached and the result is never lost.
   */
  function BestDecode(data: seq<Byte>, strict: Encoding -> Option<String>): (r: String)
    ensures strict(Utf8Sig).Some? ==> r == strict(Utf8Sig).value
    ensures strict(Utf8Sig).None? && strict(Utf8).Some? ==> r == strict(Utf8).value
    ensures strict(Utf8Sig).None? && strict(Utf8).None? ==>
              (forall i :: 0 <= i < |r| ==> r[i] as int < 256) && Latin1Bytes(r) == data
  {
    var last := Some(Latin1Text(data));
    assert FirstDecoded(data, strict, [Latin1]) == last;
    assert [Utf8, Latin1][1..] == [Latin1];
    assert FirstDecoded(data, strict, [Utf8, Latin1]) == if strict(Utf8).Some? then strict(Utf8) else last;
    assert DecodeOrder[1..] == [Utf8, Latin1];
    var first := FirstDecoded(data, strict, DecodeOrder);
    Latin1RoundTrip(data);
    first.value
  }

  /** `_sniff_delimiter`: what `csv.Sniffer` found, or `","` when it raises. */
  function HeaderDelimiter(sniffed: Option<char>): (r: char)
    ensures sniffed.None? ==> r == ','
    ensures sniffed.Some? ==> r == sniffed.value
  {
    if sniffed.Some? then sniffed.value else ','
  }

  /** When the sniffer fails on text that holds no candidate, both delimiter fallbacks agree on ','. */
  lemma HeaderDelimiterAgrees(sniffed: Option<char>, text: String)
    requires forall d :: d in DelimiterCandidates ==> Count(FirstLine(text), d) == 0
    ensures HeaderDelimiter(sniffed) == SniffDelimiter(sniffed, text)
  {
    if sniffed.None? { SniffDelimiterTie(text); }
  }

  // ---------------------------------------------------------------- one header

  /** One CSV file, seen through the library calls `read_csv_header` makes. */
  datatype HeaderFile = HeaderFile(
    /** the first 64 KiB of the file */
    chunk: seq<Byte>,
    /** `chunk.decode(enc)` for the UTF-8 forms, `None` when it raises */
    strict: Encoding -> Option<String>,
    /** `csv.Sniffer().sniff(text, delimiters=[",", ";", "|", "\t"])`, `None` when it raises */
    sniff: String -> Option<char>,
    /** `next(csv.reader(io.StringIO(text), delimiter=d), [])`, `None` when it raises */
    firstRow: (String, char) -> Option<seq<String>>,
    /** the same on the whole file reopened as UTF-8 with replacement, `None` when it raises */
    reopenRow: char -> Option<seq<String>>)

  datatype HeaderRead = HeaderRead(orig: seq<String>, norm: seq<String>, delim: char)

  function RowOrEmpty(row: Option<seq<String>>): seq<String> {
    if row.Some? then row.value else []
  }

  function SampleText(f: HeaderFile): String {
    BestDecode(f.chunk, f.strict)
  }

  function SampleDelimiter(f: HeaderFile): char {
    HeaderDelimiter(f.sniff(SampleText(f)))
  }

  /** The first CSV row of the sample, or of the whole file when the sample gives none. */
  function RawHeader(f: HeaderFile): (row: seq<String>)
    ensures row == [] ==> RowOrEmpty(f.firstRow(SampleText(f), SampleDelimiter(f))) == []
  {
    var row := RowOrEmpty(f.firstRow(SampleText(f), SampleDelimiter(f)));
    if row != [] then row else RowOrEmpty(f.reopenRow(SampleDelimiter(f)))
  }

  function StripAll(cells: seq<String>): (r: seq<String>)
    ensures |r| == |cells| && forall i :: 0 <= i < |cells| ==> r[i] == Strip(cells[i])
  {
    seq(|cells|, i requires 0 <= i < |cells| => Strip(cells[i]))
  }

  function NormalizeAll(cells: seq<String>): (r: seq<String>)
    ensures |r| == |cells| && forall i :: 0 <= i < |cells| ==> r[i] == NormalizeHeaderName(Some(cells[i]))
  {
    seq(|cells|, i requires 0 <= i < |cells| => NormalizeHeaderName(Some(cells[i])))
  }

  /** `read_csv_header`: the stripped header cells, their normalised forms and the delimiter used. */
  function ReadCsvHeader(f: HeaderFile): (r: HeaderRead)
    ensures |r.orig| == |RawHeader(f)| && |r.norm| == |r.orig|
    ensures r.delim == SampleDelimiter(f)
  {
    var orig := StripAll(RawHeader(f));
    HeaderRead(orig, NormalizeAll(orig), SampleDelimiter(f))
  }

  /**
   * Each normalised header cell is the normalised raw cell (stripping first changes nothing),
   * and is already in normal form.
   */
  lemma ReadCsvHeaderNormalized(f: HeaderFile, i: nat)
    requires i < |RawHeader(f)|
    ensures ReadCsvHeader(f).orig[i] == Strip(RawHeader(f)[i])
    ensures ReadCsvHeader(f).norm[i] == NormalizeHeaderName(Some(RawHeader(f)[i]))
    ensures NormalizeHeaderName(Some(ReadCsvHeader(f).norm[i])) == ReadCsvHeader(f).norm[i]
  {
    var raw := RawHeader(f)[i];
    NormalizeStripped(raw);
    NormalizeIdempotent(Some(raw));
  }

  // ---------------------------------------------------------------- grouping files by header

  type Key = seq<String>

  /** One `.csv` found under the directory: its path and what `read_csv_header` gave (`None` when it raised). */
  datatype CsvSource = CsvSource(path: String, read: Option<HeaderRead>)

  /** `read_csv_header(p)` on a file that opens (`Some`) or whose opening raises (`None`). */
  function ReadSource(path: String, file: Option<HeaderFile>): (src: CsvSource)
    ensures src.path == path && (src.read.Some? <==> file.Some?)
    ensures file.Some? ==> src.read.value.norm == NormalizeAll(StripAll(RawHeader(file.value)))
  {
    CsvSource(path, if file.Some? then Some(ReadCsvHeader(file.value)) else None)
  }

  function KeyOf(src: CsvSource): Key
    requires src.read.Some?
  {
    src.read.value.norm
  }

  /** The paths of the files whose normalised header is `k`, in the order they were read. */
  function Members(srcs: seq<CsvSource>, k: Key): seq<String> {
    if srcs == [] then []
    else
      var last := srcs[|srcs| - 1];
      Members(srcs[..|srcs| - 1], k) + (if last.read.Some? && KeyOf(last) == k then [last.path] else [])
  }

  /** The header read from the first file whose normalised header is `k`. */
  function FirstRead(srcs: seq<CsvSource>, k: Key): (r: Option<HeaderRead>)
    ensures r.Some? <==> Members(srcs, k) != []
  {
    if srcs == [] then None
    else
      var last := srcs[|srcs| - 1];
      var before := FirstRead(srcs[..|srcs| - 1], k);
      if before.Some? then before
      else if last.read.Some? && KeyOf(last) == k then last.read
      else None
  }

  /** The paths whose reading raised, in order (`errores`). */
  function Failed(srcs: seq<CsvSource>): seq<String> {
    if srcs == [] then []
    else Failed(srcs[..|srcs| - 1]) + (if srcs[|srcs| - 1].read.None? then [srcs[|srcs| - 1].path] else [])
  }

  /** What the loop of `main` builds: the groups in order of first appearance and their samples. */
  datatype Grouping = Grouping(
    keys: seq<Key>,
    groups: map<Key, seq<String>>,
    sample: map<Key, seq<String>>,
    delims: map<Key, char>,
    errors: seq<String>)

  /** The keys list each group once, in the order the groups appeared. */
  ghost predicate KeysMatch(g: Grouping) {
    (forall i, j :: 0 <= i < j < |g.keys| ==> g.keys[i] != g.keys[j]) && (forall k :: k in g.groups <==> k in g.keys)
  }

  /** One group per header seen, holding exactly that header's files. */
  ghost predicate GroupsMatch(srcs: seq<CsvSource>, g: Grouping) {
    forall k :: (k in g.groups <==> Members(srcs, k) != []) && (k in g.groups ==> g.groups[k] == Members(srcs, k))
  }

  /** Each group's sample header and delimiter are those of its first file. */
  ghost predicate SamplesMatch(srcs: seq<CsvSource>, g: Grouping) {
    forall k :: k in g.groups ==>
      (k in g.sample && k in g.delims && FirstRead(srcs, k).Some?
       && g.sample[k] == FirstRead(srcs, k).value.orig && g.delims[k] == FirstRead(srcs, k).value.delim)
  }

  /** The grouping of `srcs`. */
  ghost predicate GroupsOf(srcs: seq<CsvSource>, g: Grouping) {
    KeysMatch(g) && GroupsMatch(srcs, g) && SamplesMatch(srcs, g) && g.errors == Failed(srcs)
  }

  /**
   * The order `sorted(csv_files)` walks the paths in: Windows paths compare ignoring case,
   * here as whole lower-cased strings.
   */
  predicate PathLe(a: CsvSource, b: CsvSource) {
    StrLe(Lower(a.path), Lower(b.path))
  }

  /** The path order is a total preorder, so sorting by it orders the files. */
  lemma PathOrder(srcs: seq<CsvSource>)
    ensures Sorted(SortBy(srcs, PathLe), PathLe) && multiset(SortBy(srcs, PathLe)) == multiset(srcs)
  {
    forall a: CsvSource, b: CsvSource ensures PathLe(a, b) || PathLe(b, a) {
      StrLeTotal(Lower(a.path), Lower(b.path));
    }
    SortBySorted(srcs, PathLe);
  }

  /**
   * The loop of `main` over the files in `sorted` order: each file read is appended to the
   * group of its normalised header, the first file of a group sets its sample header and
   * delimiter, and a file whose reading raises is recorded as an error.
   */
  method GroupByHeader(srcs: seq<CsvSource>) returns (g: Grouping)
    ensures GroupsOf(SortBy(srcs, PathLe), g)
  {
    var files := SortBy(srcs, PathLe);
    g := Grouping([], map[], map[], map[], []);
    for n := 0 to |files|
      invariant GroupsOf(files[..n], g)
    {
      var src := files[n];
      assert files[..n + 1] == files[..n] + [src];
      if src.read.None? {
        FailedStep(files[..n], src, g);
        g := g.(errors := g.errors + [src.path]);
      } else {
        var h := src.read.value;
        var k := h.norm;
        if k in g.groups {
          JoinStep(files[..n], src, g);
          g := g.(groups := g.groups[k := g.groups[k] + [src.path]]);
        } else {
          NewGroupStep(files[..n], src, g);
          g := Grouping(g.keys + [k], g.groups[k := [src.path]], g.sample[k := h.orig], g.delims[k := h.delim], g.errors);
        }
      }
    }
    assert files[..|files|] == files;
  }

  lemma Unsnoc(srcs: seq<CsvSource>, src: CsvSource)
    ensures (srcs + [src])[..|srcs|] == srcs && (srcs + [src])[|srcs|] == src && srcs + [src] != []
  {
  }

  lemma FailedStep(srcs: seq<CsvSource>, src: CsvSource, g: Grouping)
    requires GroupsOf(srcs, g) && src.read.None?
    ensures GroupsOf(srcs + [src], g.(errors := g.errors + [src.path]))
  {
    Unsnoc(srcs, src);
    var s2 := srcs + [src];
    var g2 := g.(errors := g.errors + [src.path]);
    assert KeysMatch(g2);
    assert GroupsMatch(s2, g2) by {
      forall k ensures Members(s2, k) == Members(srcs, k) { }
    }
    assert SamplesMatch(s2, g2) by {
      forall k ensures FirstRead(s2, k) == FirstRead(srcs, k) { }
    }
    assert g2.errors == Failed(s2);
  }

  lemma JoinStep(srcs: seq<CsvSource>, src: CsvSource, g: Grouping)
    requires GroupsOf(srcs, g) && src.read.Some? && KeyOf(src) in g.groups
    ensures GroupsOf(srcs + [src], g.(groups := g.groups[KeyOf(src) := g.groups[KeyOf(src)] + [src.path]]))
  {
    Unsnoc(srcs, src);
    var key := KeyOf(src);
    var s2 := srcs + [src];
    var g2 := g.(groups := g.groups[key := g.groups[key] + [src.path]]);
    assert KeysMatch(g2);
    assert GroupsMatch(s2, g2) by {
      forall k ensures Members(s2, k) == Members(srcs, k) + (if k == key then [src.path] else []) { }
    }
    assert SamplesMatch(s2, g2) by {
      forall k ensures FirstRead(s2, k) == FirstRead(srcs, k) { }
    }
    assert g2.errors == Failed(s2);
  }

  lemma NewGroupStep(srcs: seq<CsvSource>, src: CsvSource, g: Grouping)
    requires GroupsOf(srcs, g) && src.read.Some? && KeyOf(src) !in g.groups
    ensures var h := src.read.value;
      GroupsOf(srcs + [src], Grouping(g.keys + [h.norm], g.groups[h.norm := [src.path]], g.sample[h.norm := h.orig],
                                      g.delims[h.norm := h.delim], g.errors))
  {
    Unsnoc(srcs, src);
    var key := KeyOf(src);
    var h := src.read.value;
    var s2 := srcs + [src];
    var g2 := Grouping(g.keys + [key], g.groups[key := [src.path]], g.sample[key := h.orig], g.delims[key := h.delim], g.errors);
    assert KeysMatch(g2);
    assert GroupsMatch(s2, g2) by {
      forall k ensures Members(s2, k) == Members(srcs, k) + (if k == key then [src.path] else []) { }
    }
    assert SamplesMatch(s2, g2) by {
      forall k ensures FirstRead(s2, k) == (if k == key then Some(h) else FirstRead(srcs, k)) { }
    }
    assert g2.errors == Failed(s2);
  }

  /** A path read without error is in the group of its own header, and only there. */
  lemma {:induction false} MembersExactly(srcs: seq<CsvSource>, k: Key, p: String)
    requires forall i, j :: 0 <= i < j < |srcs| ==> srcs[i].path != srcs[j].path
    ensures p in Members(srcs, k) <==> exists i :: 0 <= i < |srcs| && srcs[i].path == p && srcs[i].read.Some? && KeyOf(srcs[i]) == k
  {
    if srcs != [] {
      var init := srcs[..|srcs| - 1];
      MembersExactly(init, k, p);
      if p in Members(srcs, k) && p !in Members(init, k) {
        assert srcs[|srcs| - 1].path == p;
      }
      if exists i :: 0 <= i < |srcs| && srcs[i].path == p && srcs[i].read.Some? && KeyOf(srcs[i]) == k {
        var i :| 0 <= i < |srcs| && srcs[i].path == p && srcs[i].read.Some? && KeyOf(srcs[i]) == k;
        if i < |init| {
          assert init[i] == srcs[i];
        }
      }
    }
  }

  // ---------------------------------------------------------------- shared and unique headers

  /** `sep.join(parts)` */
  function JoinWith(sep: String, parts: seq<String>): String {
    if parts == [] then []
    else if |parts| == 1 then parts[0]
    else JoinWith(sep, parts[..|parts| - 1]) + sep + parts[|parts| - 1]
  }

  /** The readable header a group is sorted by: its sample header joined with `" | "` (`get(k, k)`). */
  function MultiLabel(g: Grouping, k: Key): String {
    JoinWith(" | ", if k in g.sample then g.sample[k] else k)
  }

  /** The same for the unique headers (`get(k, [])`). */
  function SingleLabel(g: Grouping, k: Key): String {
    JoinWith(" | ", if k in g.sample then g.sample[k] else [])
  }

  type MultiEntry = (Key, seq<String>)
  type SingleEntry = (Key, String)

  /** `[(k, v) for k, v in groups.items() if len(v) > 1]` */
  function MultiEntries(g: Grouping, keys: seq<Key>): (r: seq<MultiEntry>)
    requires forall k :: k in keys ==> k in g.groups
    ensures forall e :: e in r <==> e.0 in keys && e.1 == g.groups[e.0] && |e.1| > 1
  {
    if keys == [] then []
    else
      var k := keys[|keys| - 1];
      MultiEntries(g, keys[..|keys| - 1]) + (if |g.groups[k]| > 1 then [(k, g.groups[k])] else [])
  }

  /** `[(k, v[0]) for k, v in groups.items() if len(v) == 1]` */
  function SingleEntries(g: Grouping, keys: seq<Key>): (r: seq<SingleEntry>)
    requires forall k :: k in keys ==> k in g.groups
    ensures forall e :: e in r <==> e.0 in keys && |g.groups[e.0]| == 1 && e.1 == g.groups[e.0][0]
  {
    if keys == [] then []
    else
      var k := keys[|keys| - 1];
      SingleEntries(g, keys[..|keys| - 1]) + (if |g.groups[k]| == 1 then [(k, g.groups[k][0])] else [])
  }

  /** Larger groups first, then by readable header. */
  function MultiLe(g: Grouping): (MultiEntry, MultiEntry) -> bool {
    (a: MultiEntry, b: MultiEntry) => |a.1| > |b.1| || (|a.1| == |b.1| && StrLe(MultiLabel(g, a.0), MultiLabel(g, b.0)))
  }

  function SingleLe(g: Grouping): (SingleEntry, SingleEntry) -> bool {
    (a: SingleEntry, b: SingleEntry) => StrLe(SingleLabel(g, a.0), SingleLabel(g, b.0))
  }

  /** `multi`, sorted: each group of several files with its files, in report order. */
  function Multi(g: Grouping): (r: seq<MultiEntry>)
    requires KeysMatch(g)
    ensures Sorted(r, MultiLe(g))
    ensures forall e :: e in r <==> e.0 in g.groups && e.1 == g.groups[e.0] && |e.1| > 1
  {
    MultiLeTotal(g);
    SortBySorted(MultiEntries(g, g.keys), MultiLe(g));
    MultisetMembers(SortBy(MultiEntries(g, g.keys), MultiLe(g)), MultiEntries(g, g.keys));
    SortBy(MultiEntries(g, g.keys), MultiLe(g))
  }

  /** `singles`, sorted: each group of one file with that file, in report order. */
  function Singles(g: Grouping): (r: seq<SingleEntry>)
    requires KeysMatch(g)
    ensures Sorted(r, SingleLe(g))
    ensures forall e :: e in r <==> e.0 in g.groups && |g.groups[e.0]| == 1 && e.1 == g.groups[e.0][0]
  {
    SingleLeTotal(g);
    SortBySorted(SingleEntries(g, g.keys), SingleLe(g));
    MultisetMembers(SortBy(SingleEntries(g, g.keys), SingleLe(g)), SingleEntries(g, g.keys));
    SortBy(SingleEntries(g, g.keys), SingleLe(g))
  }

  lemma MultiLeTotal(g: Grouping)
    ensures TotalPreorder(MultiLe(g))
  {
    forall a: MultiEntry, b: MultiEntry ensures MultiLe(g)(a, b) || MultiLe(g)(b, a) {
      StrLeTotal(MultiLabel(g, a.0), MultiLabel(g, b.0));
    }
  }

  lemma SingleLeTotal(g: Grouping)
    ensures TotalPreorder(SingleLe(g))
  {
    forall a: SingleEntry, b: SingleEntry ensures SingleLe(g)(a, b) || SingleLe(g)(b, a) {
      StrLeTotal(SingleLabel(g, a.0), SingleLabel(g, b.0));
    }
  }

  /** `multi` lists exactly the groups of several files, each with its files. */
  lemma MultiExactly(srcs: seq<CsvSource>, g: Grouping)
    requires GroupsOf(srcs, g)
    ensures forall e :: e in Multi(g) <==> e.0 in g.groups && e.1 == Members(srcs, e.0) && |e.1| > 1
  {
    forall k | k in g.groups ensures g.groups[k] == Members(srcs, k) { }
  }

  /** `singles` lists exactly the groups of one file, each with that file. */
  lemma SinglesExactly(srcs: seq<CsvSource>, g: Grouping)
    requires GroupsOf(srcs, g)
    ensures forall e :: e in Singles(g) <==> e.0 in g.groups && |Members(srcs, e.0)| == 1 && e.1 == Members(srcs, e.0)[0]
  {
  }

  /** Every header read lands in exactly one of `multi` and `singles`. */
  lemma SplitExclusive(srcs: seq<CsvSource>, g: Grouping, k: Key)
    requires GroupsOf(srcs, g) && Members(srcs, k) != []
    ensures (k, Members(srcs, k)) in Multi(g) <==> !exists e :: e in Singles(g) && e.0 == k
  {
    var m := Members(srcs, k);
    assert k in g.groups && g.groups[k] == m;
    if |m| == 1 {
      SinglesExactly(srcs, g);
      assert (k, m[0]) in Singles(g);
      MultiExactly(srcs, g);
    } else {
      MultiExactly(srcs, g);
      assert (k, m) in Multi(g);
      SinglesExactly(srcs, g);
    }
  }
}
