/**
 * How `parquet.py` opens one survey CSV: the encoding guessed from a byte-order mark or from
 * NUL bytes, the delimiter guessed from the first line, the header search over candidate
 * encodings, and the chain of fall-backs of the full read.
 *
 * The CSV engines, `csv.Sniffer` and `bytes.decode` are library code: a `CsvFile` carries
 * them as functions (oracles) fixed for that file, and the model decides only in which order
 * they are asked and what is done with their answers.
 */
module Sniff {
  import opened Wrappers
  import opened Text
  import opened Tables

  type Byte = b: int | 0 <= b < 256

  datatype Encoding = Utf8Sig | Utf32LE | Utf32BE | Utf16LE | Utf16BE | Utf16 | Utf8 | Cp1252 | Latin1

  predicate StartsWith(data: seq<Byte>, prefix: seq<Byte>) {
    |prefix| <= |data| && data[..|prefix|] == prefix
  }

  /** `data.count(b"\x00")` */
  function ZeroCount(data: seq<Byte>): nat {
    multiset(data)[0]
  }

  function Head(data: seq<Byte>, n: nat): (r: seq<Byte>)
    ensures |r| <= n && |r| <= |data| && r == data[..|r|] && (|data| >= n ==> |r| == n) && (|data| < n ==> r == data)
  {
    if |data| <= n then data else data[..n]
  }

  const BomUtf8: seq<Byte> := [0xEF, 0xBB, 0xBF]
  const BomUtf32LE: seq<Byte> := [0xFF, 0xFE, 0x00, 0x00]
  const BomUtf32BE: seq<Byte> := [0x00, 0x00, 0xFE, 0xFF]
  const BomUtf16LE: seq<Byte> := [0xFF, 0xFE]
  const BomUtf16BE: seq<Byte> := [0xFE, 0xFF]

  predicate HasBom(data: seq<Byte>) {
    StartsWith(data, BomUtf8) || StartsWith(data, BomUtf32BE)
    || StartsWith(data, BomUtf16LE) || StartsWith(data, BomUtf16BE)
  }

  /**
   * `sniff_encoding`: the byte-order marks are tried longest-first where one is a prefix of
   * another (the UTF-32LE mark starts with the UTF-16LE one); with no mark, more than 50 NUL
   * bytes among the first 2000 means UTF-16, otherwise no guess.
   */
  function SniffEncoding(data: seq<Byte>): (r: Option<Encoding>)
    ensures r == Some(Utf8Sig) <==> StartsWith(data, BomUtf8)
    ensures r == Some(Utf32LE) <==> StartsWith(data, BomUtf32LE)
    ensures r == Some(Utf32BE) <==> StartsWith(data, BomUtf32BE)
    ensures r == Some(Utf16LE) <==> StartsWith(data, BomUtf16LE) && !StartsWith(data, BomUtf32LE)
    ensures r == Some(Utf16BE) <==> StartsWith(data, BomUtf16BE)
    ensures r == Some(Utf16) <==> !HasBom(data) && ZeroCount(Head(data, 2000)) > 50
    ensures r == None <==> !HasBom(data) && ZeroCount(Head(data, 2000)) <= 50
  {
    var head := Head(data, 4096);
    HeadStartsWith(data, 4096, BomUtf8);
    HeadStartsWith(data, 4096, BomUtf32LE);
    HeadStartsWith(data, 4096, BomUtf32BE);
    HeadStartsWith(data, 4096, BomUtf16LE);
    HeadStartsWith(data, 4096, BomUtf16BE);
    assert Head(head, 2000) == Head(data, 2000);
    if StartsWith(head, BomUtf8) then Some(Utf8Sig)
    else if StartsWith(head, BomUtf32LE) then Some(Utf32LE)
    else if StartsWith(head, BomUtf32BE) then Some(Utf32BE)
    else if StartsWith(head, BomUtf16LE) then Some(Utf16LE)
    else if StartsWith(head, BomUtf16BE) then Some(Utf16BE)
    else if ZeroCount(Head(head, 2000)) > 50 then Some(Utf16)
    else None
  }

  lemma HeadStartsWith(data: seq<Byte>, n: nat, prefix: seq<Byte>)
    requires |prefix| <= n
    ensures StartsWith(Head(data, n), prefix) <==> StartsWith(data, prefix)
  {
    if |data| > n { assert data[..n][..|prefix|] == data[..|prefix|]; }
  }

  /** A file that opens with the UTF-32LE mark is read as UTF-32LE, never as UTF-16LE. */
  lemma Utf32BeforeUtf16(rest: seq<Byte>)
    ensures SniffEncoding(BomUtf32LE + rest) == Some(Utf32LE)
  {
    assert (BomUtf32LE + rest)[..4] == BomUtf32LE;
  }

  // ---------------------------------------------------------------- delimiter

  /** `text.splitlines()[0] if text else ""`: everything before the first line boundary. */
  function FirstLine(text: String): (r: String)
    ensures IsPrefix(r, text)
    ensures forall i :: 0 <= i < |r| ==> !IsLineBreak(r[i])
    ensures |r| < |text| ==> IsLineBreak(text[|r|])
  {
    if text == [] || IsLineBreak(text[0]) then [] else [text[0]] + FirstLine(text[1..])
  }

  const DelimiterCandidates: seq<char> := [',', ';', '|', '\t']

  /** `s.count(d)` for a single character. */
  function Count(s: String, d: char): nat {
    multiset(s)[d]
  }

  /**
   * `max(cands, key=counts.get)`: the position of the FIRST candidate with the largest count
   * (Python's `max` keeps the earliest of equal maxima).
   */
  function ArgMax(line: String, cands: seq<char>): (k: nat)
    requires |cands| > 0
    ensures k < |cands|
    ensures forall i :: 0 <= i < |cands| ==> Count(line, cands[i]) <= Count(line, cands[k])
    ensures forall i :: 0 <= i < k ==> Count(line, cands[i]) < Count(line, cands[k])
  {
    if |cands| == 1 then 0
    else
      var b := ArgMax(line, cands[..|cands| - 1]);
      if Count(line, cands[|cands| - 1]) > Count(line, cands[b]) then |cands| - 1 else b
  }

  /**
   * `sniff_delimiter`: the sniffer's answer (`sniffed`, the oracle `csv.Sniffer` restricted to
   * the four candidates) when it has one, else the most frequent candidate of the first line.
   */
  function SniffDelimiter(sniffed: Option<char>, text: String): (r: char)
    ensures sniffed.Some? ==> r == sniffed.value
    ensures sniffed.None? ==> r in DelimiterCandidates
    ensures sniffed.None? ==> forall d :: d in DelimiterCandidates ==> Count(FirstLine(text), d) <= Count(FirstLine(text), r)
  {
    match sniffed
    case Some(d) => d
    case None => DelimiterCandidates[ArgMax(FirstLine(text), DelimiterCandidates)]
  }

  /** With nothing to count (empty text, or a first line without candidates) the fallback is ','. */
  lemma SniffDelimiterTie(text: String)
    requires forall d :: d in DelimiterCandidates ==> Count(FirstLine(text), d) == 0
    ensures SniffDelimiter(None, text) == ','
  {
    var k := ArgMax(FirstLine(text), DelimiterCandidates);
    assert Count(FirstLine(text), DelimiterCandidates[0]) == 0;
    assert k == 0 by {
      if k > 0 { assert false; }
    }
  }

  /** The fallback counts only the first line: what follows the first line break is irrelevant. */
  lemma SniffDelimiterFirstLineOnly(line: String, brk: char, rest: String)
    requires forall i :: 0 <= i < |line| ==> !IsLineBreak(line[i])
    requires IsLineBreak(brk)
    ensures SniffDelimiter(None, line + [brk] + rest) == SniffDelimiter(None, line)
  {
    FirstLineOfLine(line, [brk] + rest);
    FirstLineOfLine(line, []);
    assert line + [brk] + rest == line + ([brk] + rest);
    assert line + [] == line;
  }

  lemma {:induction false} FirstLineOfLine(line: String, rest: String)
    requires forall i :: 0 <= i < |line| ==> !IsLineBreak(line[i])
    requires rest == [] || IsLineBreak(rest[0])
    ensures FirstLine(line + rest) == line
  {
    if line != [] {
      assert (line + rest)[1..] == line[1..] + rest;
      FirstLineOfLine(line[1..], rest);
    }
  }

  // ---------------------------------------------------------------- one CSV file and its oracles

  datatype Engine = CEngine | PythonEngine

  /** pandas hands back frames whose column names are unique (it renames repeats) and whose rows fit them. */
  type ParsedTable = t: Table | WellFormed(t) witness Table([], [])

  /** What `pd.read_csv` does with a whole file: a frame, a `UnicodeDecodeError`, or any other error. */
  datatype ParseOutcome = Parsed(table: ParsedTable) | DecodeError | OtherError

  datatype CsvFile = CsvFile(
    path: String,
    bytes: seq<Byte>,
    /** `sample.decode(enc, errors="replace")` of the first 128 KiB: total, never raises */
    decodeSample: Encoding -> String,
    /** `csv.Sniffer().sniff(text, delimiters=[",", ";", "|", "\t"])`, `None` when it raises */
    sniff: String -> Option<char>,
    /** `pd.read_csv(io.StringIO(text), sep=d, nrows=0)`: the header, `None` when it raises */
    headerOfText: (String, char) -> Option<seq<String>>,
    /** `pd.read_csv(path, sep=d, nrows=0, encoding=enc)` */
    headerOfFile: (Encoding, char) -> Option<seq<String>>,
    /** `pd.read_csv(path, sep=d, engine=e, encoding=enc, dtype=str)` */
    readFile: (Engine, Encoding, char) -> ParseOutcome,
    /** `pd.read_csv(io.StringIO(text), sep=d, dtype=str)`, `None` when it raises */
    readText: (String, char) -> Option<ParsedTable>)

  /** `data.decode("latin-1", errors="replace")`: one character per byte, cannot fail. */
  function Latin1Text(data: seq<Byte>): (r: String)
    ensures |r| == |data| && forall i :: 0 <= i < |data| ==> r[i] as int == data[i]
  {
    seq(|data|, i requires 0 <= i < |data| => data[i] as char)
  }

  /** `text.encode("latin-1")` for text of code points below 256. */
  function Latin1Bytes(text: String): (r: seq<Byte>)
    requires forall i :: 0 <= i < |text| ==> text[i] as int < 256
    ensures |r| == |text| && forall i :: 0 <= i < |text| ==> r[i] == text[i] as int
  {
    seq(|text|, i requires 0 <= i < |text| => text[i] as int)
  }

  /** Latin-1 decoding loses nothing: encoding the text again gives back the bytes. */
  lemma Latin1RoundTrip(data: seq<Byte>)
    ensures Latin1Bytes(Latin1Text(data)) == data
  {}

  // ---------------------------------------------------------------- header search

  datatype Header = Header(cols: seq<String>, enc: Encoding, delim: char)

  /** The encodings `headers_only` tries, in order: the sniffed one first when there is one. */
  function HeaderEncodings(sniffed: Option<Encoding>): (r: seq<Encoding>)
    ensures |r| == if sniffed.Some? then 8 else 7
    ensures sniffed.Some? ==> r[0] == sniffed.value
    ensures r[|r| - 7..] == [Utf8, Utf8Sig, Cp1252, Latin1, Utf16, Utf16LE, Utf16BE]
  {
    (if sniffed.Some? then [sniffed.value] else []) + [Utf8, Utf8Sig, Cp1252, Latin1, Utf16, Utf16LE, Utf16BE]
  }

  predicate NonEmptyHeader(h: Option<seq<String>>) {
    h.Some? && |h.value| > 0
  }

  /** One pass of the first loop: decode, sniff, then the header from the text, then from the file. */
  function TryEncoding(f: CsvFile, enc: Encoding): (r: Option<Header>)
    ensures r.Some? ==> |r.value.cols| > 0 && r.value.enc == enc
  {
    var text := f.decodeSample(enc);
    var delim := SniffDelimiter(f.sniff(text), text);
    if NonEmptyHeader(f.headerOfText(text, delim)) then Some(Header(f.headerOfText(text, delim).value, enc, delim))
    else if NonEmptyHeader(f.headerOfFile(enc, delim)) then Some(Header(f.headerOfFile(enc, delim).value, enc, delim))
    else None
  }

  function FirstEncoding(f: CsvFile, encs: seq<Encoding>): (r: Option<Header>)
    ensures r.Some? ==> |r.value.cols| > 0 && r.value.enc in encs
    ensures r.None? <==> forall i :: 0 <= i < |encs| ==> TryEncoding(f, encs[i]).None?
  {
    if encs == [] then None
    else if TryEncoding(f, encs[0]).Some? then TryEncoding(f, encs[0])
    else FirstEncoding(f, encs[1..])
  }

  /** The `i`-th encoding is the first of `encs` whose attempt gives a header. */
  predicate FirstTried(f: CsvFile, encs: seq<Encoding>, i: nat) {
    i < |encs| && TryEncoding(f, encs[i]).Some? && forall k :: 0 <= k < i ==> TryEncoding(f, encs[k]).None?
  }

  /** The first encoding that gives a header decides the header. */
  lemma {:induction false} FirstEncodingAt(f: CsvFile, encs: seq<Encoding>, i: nat)
    requires FirstTried(f, encs, i)
    ensures FirstEncoding(f, encs) == TryEncoding(f, encs[i])
    decreases i
  {
    if i > 0 {
      assert TryEncoding(f, encs[0]).None?;
      assert FirstTried(f, encs[1..], i - 1) by {
        forall k | 0 <= k < i - 1 ensures TryEncoding(f, encs[1..][k]).None? {
          assert encs[1..][k] == encs[k + 1];
        }
      }
      FirstEncodingAt(f, encs[1..], i - 1);
    }
  }

  /** One encoding with each candidate delimiter in turn, straight from the file. */
  function FirstDelimiter(f: CsvFile, enc: Encoding, delims: seq<char>): (r: Option<Header>)
    ensures r.Some? ==> |r.value.cols| > 0 && r.value.enc == enc && r.value.delim in delims
    ensures r.None? <==> forall j :: 0 <= j < |delims| ==> !NonEmptyHeader(f.headerOfFile(enc, delims[j]))
  {
    if delims == [] then None
    else if NonEmptyHeader(f.headerOfFile(enc, delims[0])) then Some(Header(f.headerOfFile(enc, delims[0]).value, enc, delims[0]))
    else FirstDelimiter(f, enc, delims[1..])
  }

  /** The `j`-th delimiter is the first of `delims` with which the file gives a header. */
  predicate FirstDelimiterHit(f: CsvFile, enc: Encoding, delims: seq<char>, j: nat) {
    j < |delims| && NonEmptyHeader(f.headerOfFile(enc, delims[j]))
    && forall k :: 0 <= k < j ==> !NonEmptyHeader(f.headerOfFile(enc, delims[k]))
  }

  /** The first delimiter that gives a header decides the header. */
  lemma {:induction false} FirstDelimiterAt(f: CsvFile, enc: Encoding, delims: seq<char>, j: nat)
    requires FirstDelimiterHit(f, enc, delims, j)
    ensures FirstDelimiter(f, enc, delims) == Some(Header(f.headerOfFile(enc, delims[j]).value, enc, delims[j]))
    decreases j
  {
    if j > 0 {
      assert !NonEmptyHeader(f.headerOfFile(enc, delims[0]));
      assert FirstDelimiterHit(f, enc, delims[1..], j - 1) by {
        forall k | 0 <= k < j - 1 ensures !NonEmptyHeader(f.headerOfFile(enc, delims[1..][k])) {
          assert delims[1..][k] == delims[k + 1];
        }
      }
      FirstDelimiterAt(f, enc, delims[1..], j - 1);
    }
  }

  /** The second loop: every encoding with every candidate delimiter. */
  function FirstCombo(f: CsvFile, encs: seq<Encoding>): (r: Option<Header>)
    ensures r.Some? ==> |r.value.cols| > 0 && r.value.enc in encs && r.value.delim in DelimiterCandidates
    ensures r.None? <==> forall i :: 0 <= i < |encs| ==> FirstDelimiter(f, encs[i], DelimiterCandidates).None?
  {
    if encs == [] then None
    else if FirstDelimiter(f, encs[0], DelimiterCandidates).Some? then FirstDelimiter(f, encs[0], DelimiterCandidates)
    else FirstCombo(f, encs[1..])
  }

  /**
   * `(encs[i], DelimiterCandidates[j])` is the first pair, encodings outermost, with which the
   * file gives a header.
   */
  predicate FirstComboHit(f: CsvFile, encs: seq<Encoding>, i: nat, j: nat) {
    i < |encs| && FirstDelimiterHit(f, encs[i], DelimiterCandidates, j)
    && forall k :: 0 <= k < i ==> FirstDelimiter(f, encs[k], DelimiterCandidates).None?
  }

  /** The first pair that gives a header decides the header. */
  lemma {:induction false} FirstComboAt(f: CsvFile, encs: seq<Encoding>, i: nat, j: nat)
    requires FirstComboHit(f, encs, i, j)
    ensures FirstCombo(f, encs) == Some(Header(f.headerOfFile(encs[i], DelimiterCandidates[j]).value, encs[i], DelimiterCandidates[j]))
    decreases i
  {
    if i > 0 {
      assert FirstDelimiter(f, encs[0], DelimiterCandidates).None?;
      assert FirstComboHit(f, encs[1..], i - 1, j) by {
        forall k | 0 <= k < i - 1 ensures FirstDelimiter(f, encs[1..][k], DelimiterCandidates).None? {
          assert encs[1..][k] == encs[k + 1];
        }
      }
      FirstComboAt(f, encs[1..], i - 1, j);
    } else {
      FirstDelimiterAt(f, encs[0], DelimiterCandidates, j);
    }
  }

  /** What `headers_only` returns: the first success of the first loop, else of the second, else an error. */
  function HeadersOnlySpec(f: CsvFile): (r: Result<Header>)
    ensures r.Ok? ==> |r.value.cols| > 0 && r.value.enc in HeaderEncodings(SniffEncoding(f.bytes))
  {
    var encs := HeaderEncodings(SniffEncoding(f.bytes));
    match FirstEncoding(f, encs)
    case Some(h) => Ok(h)
    case None =>
      match FirstCombo(f, encs)
      case Some(h) => Ok(h)
      case None => Err(Undecodable)
  }

  /**
   * Which header the search finds: that of the first encoding whose attempt succeeds; when
   * none does, that of the first (encoding, delimiter) pair; an error only when no pair gives
   * a header.
   */
  lemma HeadersOnlyFirst(f: CsvFile)
    ensures var encs := HeaderEncodings(SniffEncoding(f.bytes));
      forall i: nat :: FirstTried(f, encs, i) ==> HeadersOnlySpec(f) == Ok(TryEncoding(f, encs[i]).value)
    ensures var encs := HeaderEncodings(SniffEncoding(f.bytes));
      (forall k :: 0 <= k < |encs| ==> TryEncoding(f, encs[k]).None?) ==>
      forall i: nat, j: nat :: FirstComboHit(f, encs, i, j) ==>
        HeadersOnlySpec(f) == Ok(Header(f.headerOfFile(encs[i], DelimiterCandidates[j]).value, encs[i], DelimiterCandidates[j]))
    ensures HeadersOnlySpec(f).Err? ==> HeadersOnlySpec(f).error == Undecodable
    ensures HeadersOnlySpec(f).Err? ==> forall enc, d :: enc in HeaderEncodings(SniffEncoding(f.bytes)) && d in DelimiterCandidates ==>
                                          !NonEmptyHeader(f.headerOfFile(enc, d))
  {
    var encs := HeaderEncodings(SniffEncoding(f.bytes));
    EncodingsDecide(f, encs);
    CombosDecide(f, encs);
    if FirstCombo(f, encs).None? {
      NoHeaderAnywhere(f, encs);
    }
  }

  lemma EncodingsDecide(f: CsvFile, encs: seq<Encoding>)
    ensures forall i: nat :: FirstTried(f, encs, i) ==> FirstEncoding(f, encs) == TryEncoding(f, encs[i])
  {
    forall i: nat | FirstTried(f, encs, i) ensures FirstEncoding(f, encs) == TryEncoding(f, encs[i]) {
      FirstEncodingAt(f, encs, i);
    }
  }

  lemma CombosDecide(f: CsvFile, encs: seq<Encoding>)
    ensures forall i: nat, j: nat :: FirstComboHit(f, encs, i, j) ==>
      FirstCombo(f, encs) == Some(Header(f.headerOfFile(encs[i], DelimiterCandidates[j]).value, encs[i], DelimiterCandidates[j]))
  {
    forall i: nat, j: nat | FirstComboHit(f, encs, i, j)
      ensures FirstCombo(f, encs) == Some(Header(f.headerOfFile(encs[i], DelimiterCandidates[j]).value, encs[i], DelimiterCandidates[j]))
    {
      FirstComboAt(f, encs, i, j);
    }
  }

  /**
   * `headers_only`: the first encoding whose sample or file gives a header with at least one
   * column, else the first (encoding, delimiter) pair read straight from the file; a
   * `UnicodeDecodeError` only when every pair came back empty.
   */
  method HeadersOnly(f: CsvFile) returns (r: Result<Header>)
    ensures r == HeadersOnlySpec(f)
    ensures r.Ok? ==> |r.value.cols| > 0 && r.value.enc in HeaderEncodings(SniffEncoding(f.bytes))
    ensures var encs := HeaderEncodings(SniffEncoding(f.bytes));
      forall i: nat :: FirstTried(f, encs, i) ==> r == Ok(TryEncoding(f, encs[i]).value)
    ensures var encs := HeaderEncodings(SniffEncoding(f.bytes));
      (forall k :: 0 <= k < |encs| ==> TryEncoding(f, encs[k]).None?) ==>
      forall i: nat, j: nat :: FirstComboHit(f, encs, i, j) ==>
        r == Ok(Header(f.headerOfFile(encs[i], DelimiterCandidates[j]).value, encs[i], DelimiterCandidates[j]))
    ensures r.Err? ==> r.error == Undecodable
    ensures r.Err? ==> forall enc, d :: enc in HeaderEncodings(SniffEncoding(f.bytes)) && d in DelimiterCandidates ==>
                         !NonEmptyHeader(f.headerOfFile(enc, d))
  {
    var encs := HeaderEncodings(SniffEncoding(f.bytes));
    var h := EncodingSearch(f, encs);
    if h.Some? {
      r := Ok(h.value);
    } else {
      var combo := ComboSearch(f, encs);
      r := if combo.Some? then Ok(combo.value) else Err(Undecodable);
    }
    HeadersOnlyFirst(f);
  }

  /** The first loop of `headers_only`, with its early return. */
  method EncodingSearch(f: CsvFile, encs: seq<Encoding>) returns (r: Option<Header>)
    ensures r == FirstEncoding(f, encs)
  {
    var i := 0;
    while i < |encs|
      invariant 0 <= i <= |encs|
      invariant FirstEncoding(f, encs) == FirstEncoding(f, encs[i..])
    {
      FirstEncodingStep(f, encs, i);
      var text := f.decodeSample(encs[i]);
      var delim := SniffDelimiter(f.sniff(text), text);
      var h := f.headerOfText(text, delim);
      if !NonEmptyHeader(h) {
        h := f.headerOfFile(encs[i], delim);
      }
      if NonEmptyHeader(h) {
        assert TryEncoding(f, encs[i]) == Some(Header(h.value, encs[i], delim));
        return Some(Header(h.value, encs[i], delim));
      }
      assert TryEncoding(f, encs[i]).None?;
      i := i + 1;
    }
    return None;
  }

  /** When the combined search fails, no encoding with any delimiter gives a header. */
  lemma NoHeaderAnywhere(f: CsvFile, encs: seq<Encoding>)
    requires FirstCombo(f, encs).None?
    ensures forall enc, d :: enc in encs && d in DelimiterCandidates ==> !NonEmptyHeader(f.headerOfFile(enc, d))
  {
    forall enc, d | enc in encs && d in DelimiterCandidates ensures !NonEmptyHeader(f.headerOfFile(enc, d)) {
      var i :| 0 <= i < |encs| && encs[i] == enc;
      var j :| 0 <= j < |DelimiterCandidates| && DelimiterCandidates[j] == d;
      assert FirstDelimiter(f, encs[i], DelimiterCandidates).None?;
    }
  }

  lemma FirstEncodingStep(f: CsvFile, encs: seq<Encoding>, i: nat)
    requires i < |encs|
    ensures FirstEncoding(f, encs[i..]) == if TryEncoding(f, encs[i]).Some? then TryEncoding(f, encs[i]) else FirstEncoding(f, encs[i + 1..])
  {
    assert encs[i..][1..] == encs[i + 1..];
  }

  /** The second loop of `headers_only`, with its early return. */
  method ComboSearch(f: CsvFile, encs: seq<Encoding>) returns (r: Option<Header>)
    ensures r == FirstCombo(f, encs)
  {
    var i := 0;
    while i < |encs|
      invariant 0 <= i <= |encs|
      invariant FirstCombo(f, encs) == FirstCombo(f, encs[i..])
    {
      assert encs[i..][1..] == encs[i + 1..];
      var j := 0;
      while j < |DelimiterCandidates|
        invariant 0 <= j <= |DelimiterCandidates|
        invariant FirstDelimiter(f, encs[i], DelimiterCandidates) == FirstDelimiter(f, encs[i], DelimiterCandidates[j..])
      {
        assert DelimiterCandidates[j..][1..] == DelimiterCandidates[j + 1..];
        var h := f.headerOfFile(encs[i], DelimiterCandidates[j]);
        if h.Some? && |h.value| > 0 {
          return Some(Header(h.value, encs[i], DelimiterCandidates[j]));
        }
        j := j + 1;
      }
      i := i + 1;
    }
    return None;
  }

  // ---------------------------------------------------------------- full read

  /** The encodings retried with the Python engine after a `UnicodeDecodeError`. */
  const AlternateEncodings: seq<Encoding> := [Utf8Sig, Utf16, Utf16LE, Utf16BE, Cp1252, Latin1]

  function FirstParsed(f: CsvFile, encs: seq<Encoding>, delim: char): (r: Option<ParsedTable>)
    ensures r.None? <==> forall i :: 0 <= i < |encs| ==> !f.readFile(PythonEngine, encs[i], delim).Parsed?
    ensures r.Some? ==> exists i :: 0 <= i < |encs| && f.readFile(PythonEngine, encs[i], delim) == Parsed(r.value)
  {
    if encs == [] then None
    else if f.readFile(PythonEngine, encs[0], delim).Parsed? then Some(f.readFile(PythonEngine, encs[0], delim).table)
    else FirstParsed(f, encs[1..], delim)
  }

  /** The `i`-th encoding is the first of `encs` with which the Python engine parses the file. */
  predicate FirstParsedHit(f: CsvFile, encs: seq<Encoding>, delim: char, i: nat) {
    i < |encs| && f.readFile(PythonEngine, encs[i], delim).Parsed?
    && forall k :: 0 <= k < i ==> !f.readFile(PythonEngine, encs[k], delim).Parsed?
  }

  /** The first encoding that parses decides the table. */
  lemma {:induction false} FirstParsedAt(f: CsvFile, encs: seq<Encoding>, delim: char, i: nat)
    requires FirstParsedHit(f, encs, delim, i)
    ensures FirstParsed(f, encs, delim) == Some(f.readFile(PythonEngine, encs[i], delim).table)
    decreases i
  {
    if i > 0 {
      assert !f.readFile(PythonEngine, encs[0], delim).Parsed?;
      assert FirstParsedHit(f, encs[1..], delim, i - 1) by {
        forall k | 0 <= k < i - 1 ensures !f.readFile(PythonEngine, encs[1..][k], delim).Parsed? {
          assert encs[1..][k] == encs[k + 1];
        }
      }
      FirstParsedAt(f, encs[1..], delim, i - 1);
    }
  }

  lemma FirstParsedFirst(f: CsvFile, encs: seq<Encoding>, delim: char)
    ensures forall i: nat :: FirstParsedHit(f, encs, delim, i) ==>
              FirstParsed(f, encs, delim) == Some(f.readFile(PythonEngine, encs[i], delim).table)
  {
    forall i: nat | FirstParsedHit(f, encs, delim, i)
      ensures FirstParsed(f, encs, delim) == Some(f.readFile(PythonEngine, encs[i], delim).table)
    {
      FirstParsedAt(f, encs, delim, i);
    }
  }

  /** The last resort: the whole file decoded as Latin-1 and parsed from memory. */
  function LossyParse(f: CsvFile, delim: char): (r: Result<Table>)
    ensures r.Ok? ==> WellFormed(r.value)
  {
    match f.readText(Latin1Text(f.bytes), delim)
    case Some(t) => Ok(t)
    case None => Err(ParseFailed)
  }

  /**
   * `read_full_csv_robust`: the C engine, then the Python engine; after a decode error of the
   * Python engine the alternate encodings; then the Latin-1 text. Only the last resort can
   * make the read fail.
   */
  function ReadFullCsvRobust(f: CsvFile, enc: Encoding, delim: char): (r: Result<Table>)
    ensures f.readFile(CEngine, enc, delim).Parsed? ==> r == Ok(f.readFile(CEngine, enc, delim).table)
    ensures !f.readFile(CEngine, enc, delim).Parsed? && f.readFile(PythonEngine, enc, delim).Parsed? ==>
              r == Ok(f.readFile(PythonEngine, enc, delim).table)
    ensures f.readFile(PythonEngine, enc, delim).OtherError? && !f.readFile(CEngine, enc, delim).Parsed? ==>
              r == LossyParse(f, delim)
    ensures r.Err? <==> !f.readFile(CEngine, enc, delim).Parsed? && !f.readFile(PythonEngine, enc, delim).Parsed?
                        && (f.readFile(PythonEngine, enc, delim).DecodeError? ==> FirstParsed(f, AlternateEncodings, delim).None?)
                        && f.readText(Latin1Text(f.bytes), delim).None?
    ensures !f.readFile(CEngine, enc, delim).Parsed? && f.readFile(PythonEngine, enc, delim).DecodeError? ==>
              forall i: nat :: FirstParsedHit(f, AlternateEncodings, delim, i) ==>
                r == Ok(f.readFile(PythonEngine, AlternateEncodings[i], delim).table)
    ensures (!f.readFile(CEngine, enc, delim).Parsed? && f.readFile(PythonEngine, enc, delim).DecodeError?
             && FirstParsed(f, AlternateEncodings, delim).None?) ==> r == LossyParse(f, delim)
    ensures r.Err? ==> r.error == ParseFailed
    ensures r.Ok? ==> WellFormed(r.value)
  {
    FirstParsedFirst(f, AlternateEncodings, delim);
    match f.readFile(CEngine, enc, delim)
    case Parsed(t) => Ok(t)
    case _ =>
      match f.readFile(PythonEngine, enc, delim)
      case Parsed(t) => Ok(t)
      case DecodeError =>
        (match FirstParsed(f, AlternateEncodings, delim)
         case Some(t) => Ok(t)
         case None => LossyParse(f, delim))
      case OtherError => LossyParse(f, delim)
  }
}
