/**
 * `etl-enoe/files.py`: copies every `.csv` found under the extraction directory into one flat
 * directory, naming each copy `<stem>__<tag><suffix>` after its top-level sub-directory and
 * numbering it `__2`, `__3`, ... when that name is taken.
 */
module Files {
  import opened Text

  // ---------------------------------------------------------------- sanitize

  /** The characters `[A-Za-z0-9_\-\.]` that a file name keeps. */
  predicate Allowed(c: char) { IsAsciiAlnum(c) || c == '_' || c == '-' || c == '.' }

  predicate AllAllowed(s: String) { forall i :: 0 <= i < |s| ==> Allowed(s[i]) }

  /** `sanitize`: trimmed, spaces turned into `_`, then runs of other characters squashed. */
  function Sanitize(name: String): (r: String)
    ensures AllAllowed(r)
  {
    var r := Squash(ReplaceAll(Strip(name), " ", "_"), Allowed);
    assert forall i :: 0 <= i < |r| ==> Allowed(r[i]) by {
      forall i | 0 <= i < |r| ensures Allowed(r[i]) {
        assert SquashedAt(r, i, Allowed);
      }
    }
    r
  }

  lemma {:induction false} NoSpaceContained(s: String)
    requires AllAllowed(s)
    ensures !Contains(s, " ")
    decreases |s|
  {
    if s != [] {
      assert s[..1] != " " by { assert s[..1][0] == s[0]; }
      NoSpaceContained(s[1..]);
    }
  }

  /** A name made only of allowed characters is already sanitised. */
  lemma SanitizeFixed(s: String)
    requires AllAllowed(s)
    ensures Sanitize(s) == s
  {
    if s != [] {
      assert !IsSpace(s[0]) && !IsSpace(s[|s| - 1]);
    }
    assert [] + s + [] == s;
    StripSurrounded([], s, []);
    NoSpaceContained(s);
    ReplaceAbsent(s, " ", "_");
    assert Squashed(s, Allowed) by {
      forall i: nat | i < |s| ensures SquashedAt(s, i, Allowed) {
        assert Allowed(s[i]);
      }
    }
    SquashSettled(s, Allowed);
  }

  /** Sanitising twice changes nothing more. */
  lemma SanitizeIdempotent(s: String)
    ensures Sanitize(Sanitize(s)) == Sanitize(s)
  {
    SanitizeFixed(Sanitize(s));
  }

  // ---------------------------------------------------------------- unique_dest_path

  /** `base_dir / name` on a Windows path. */
  function InDir(dir: String, name: String): String { dir + "\\" + name }

  /** `stem__tag + suffix` */
  function FirstName(dir: String, stem: String, suffix: String, tag: String): String {
    InDir(dir, stem + "__" + tag + suffix)
  }

  /** `stem__tag__i + suffix` */
  function NumberedName(dir: String, stem: String, suffix: String, tag: String, i: nat): String {
    InDir(dir, stem + "__" + tag + "__") + NatToString(i) + suffix
  }

  /** Different numbers give different names. */
  lemma NumberedInjective(dir: String, stem: String, suffix: String, tag: String, i: nat, j: nat)
    requires NumberedName(dir, stem, suffix, tag, i) == NumberedName(dir, stem, suffix, tag, j)
    ensures i == j
  {
    var p := InDir(dir, stem + "__" + tag + "__");
    var a, b := NatToString(i), NatToString(j);
    assert |a| == |b|;
    assert a == (p + a + suffix)[|p|..|p| + |a|];
    assert b == (p + b + suffix)[|p|..|p| + |b|];
    NatToStringInjective(i, j);
  }

  /** The numbered names from 2 up to, not including, `i`. */
  ghost function NamesBelow(dir: String, stem: String, suffix: String, tag: String, i: nat): (r: set<String>)
    ensures forall j :: 2 <= j < i ==> NumberedName(dir, stem, suffix, tag, j) in r
  {
    if i <= 2 then {} else NamesBelow(dir, stem, suffix, tag, i - 1) + {NumberedName(dir, stem, suffix, tag, i - 1)}
  }

  /** A numbered name is not among those with smaller numbers. */
  lemma {:induction false} NotBelow(dir: String, stem: String, suffix: String, tag: String, i: nat, k: nat)
    requires k <= i
    ensures NumberedName(dir, stem, suffix, tag, i) !in NamesBelow(dir, stem, suffix, tag, k)
  {
    if k > 2 {
      NotBelow(dir, stem, suffix, tag, i, k - 1);
      if NumberedName(dir, stem, suffix, tag, i) == NumberedName(dir, stem, suffix, tag, k - 1) {
        NumberedInjective(dir, stem, suffix, tag, i, k - 1);
      }
    }
  }

  /**
   * `p` is the first name if that is free, otherwise the numbered name with the smallest number
   * from 2 that is not in `taken`.
   */
  ghost predicate FirstFree(dir: String, stem: String, suffix: String, tag: String, taken: set<String>, p: String) {
    if FirstName(dir, stem, suffix, tag) !in taken then p == FirstName(dir, stem, suffix, tag)
    else exists i :: (i >= 2 && p == NumberedName(dir, stem, suffix, tag, i)
                      && forall j :: 2 <= j < i ==> NumberedName(dir, stem, suffix, tag, j) in taken)
  }

  /** Only one name is the first free one. */
  lemma FirstFreeUnique(dir: String, stem: String, suffix: String, tag: String, taken: set<String>, p: String, q: String)
    requires FirstFree(dir, stem, suffix, tag, taken, p) && p !in taken
    requires FirstFree(dir, stem, suffix, tag, taken, q) && q !in taken
    ensures p == q
  {
    if FirstName(dir, stem, suffix, tag) in taken {
      var i :| i >= 2 && p == NumberedName(dir, stem, suffix, tag, i)
               && forall j :: 2 <= j < i ==> NumberedName(dir, stem, suffix, tag, j) in taken;
      var k :| k >= 2 && q == NumberedName(dir, stem, suffix, tag, k)
               && forall j :: 2 <= j < k ==> NumberedName(dir, stem, suffix, tag, j) in taken;
      assert !(i < k) && !(k < i);
    }
  }

  /** Counting up from a number whose predecessors are all taken reaches a free one. */
  lemma {:induction false} FreeFrom(dir: String, stem: String, suffix: String, tag: String, taken: set<String>, i: nat)
    returns (k: nat)
    requires i >= 2 && forall j :: 2 <= j < i ==> NumberedName(dir, stem, suffix, tag, j) in taken
    ensures k >= 2 && NumberedName(dir, stem, suffix, tag, k) !in taken
    ensures forall j :: 2 <= j < k ==> NumberedName(dir, stem, suffix, tag, j) in taken
    decreases |taken - NamesBelow(dir, stem, suffix, tag, i)|
  {
    var cand := NumberedName(dir, stem, suffix, tag, i);
    if cand !in taken {
      return i;
    }
    var seen := NamesBelow(dir, stem, suffix, tag, i);
    NamesBelowTaken(dir, stem, suffix, tag, taken, i);
    NotBelow(dir, stem, suffix, tag, i, i);
    assert NamesBelow(dir, stem, suffix, tag, i + 1) == seen + {cand};
    assert taken - (seen + {cand}) == (taken - seen) - {cand};
    k := FreeFrom(dir, stem, suffix, tag, taken, i + 1);
  }

  lemma {:induction false} NamesBelowTaken(dir: String, stem: String, suffix: String, tag: String, taken: set<String>, i: nat)
    requires forall j :: 2 <= j < i ==> NumberedName(dir, stem, suffix, tag, j) in taken
    ensures NamesBelow(dir, stem, suffix, tag, i) <= taken
  {
    if i > 2 {
      NamesBelowTaken(dir, stem, suffix, tag, taken, i - 1);
    }
  }

  lemma FreeExists(dir: String, stem: String, suffix: String, tag: String, taken: set<String>)
    ensures exists k: nat :: k >= 2 && NumberedName(dir, stem, suffix, tag, k) !in taken
                            && forall j :: 2 <= j < k ==> NumberedName(dir, stem, suffix, tag, j) in taken
  {
    var k := FreeFrom(dir, stem, suffix, tag, taken, 2);
  }

  /** The destination `unique_dest_path` picks when the paths in `taken` exist. */
  ghost function FreeDest(dir: String, stem: String, suffix: String, tag: String, taken: set<String>): (p: String)
    ensures p !in taken
  {
    if FirstName(dir, stem, suffix, tag) !in taken then FirstName(dir, stem, suffix, tag)
    else
      FreeExists(dir, stem, suffix, tag, taken);
      var k: nat :| k >= 2 && NumberedName(dir, stem, suffix, tag, k) !in taken
                    && forall j :: 2 <= j < k ==> NumberedName(dir, stem, suffix, tag, j) in taken;
      NumberedName(dir, stem, suffix, tag, k)
  }

  /** The destination picked is the first free name. */
  lemma FreeDestFirst(dir: String, stem: String, suffix: String, tag: String, taken: set<String>)
    ensures FirstFree(dir, stem, suffix, tag, taken, FreeDest(dir, stem, suffix, tag, taken))
  {
    if FirstName(dir, stem, suffix, tag) in taken {
      FreeExists(dir, stem, suffix, tag, taken);
    }
  }

  /**
   * `unique_dest_path`, with `taken` the paths that exist: the first name when it is free,
   * otherwise the numbered name with the smallest number from 2 that is free. The set of
   * existing paths is finite, so the search ends.
   */
  method UniqueDestPath(dir: String, stem: String, suffix: String, tag: String, taken: set<String>)
    returns (p: String)
    ensures p !in taken
    ensures FirstFree(dir, stem, suffix, tag, taken, p)
    ensures p == FreeDest(dir, stem, suffix, tag, taken)
  {
    p := FirstName(dir, stem, suffix, tag);
    if p !in taken {
      return;
    }
    var i := FreeNumber(dir, stem, suffix, tag, taken);
    p := NumberedName(dir, stem, suffix, tag, i);
    FreeDestFirst(dir, stem, suffix, tag, taken);
    FirstFreeUnique(dir, stem, suffix, tag, taken, p, FreeDest(dir, stem, suffix, tag, taken));
  }

  /** The `while True` loop: the smallest number from 2 whose numbered name is not taken. */
  method FreeNumber(dir: String, stem: String, suffix: String, tag: String, taken: set<String>)
    returns (i: nat)
    ensures i >= 2 && NumberedName(dir, stem, suffix, tag, i) !in taken
    ensures forall j :: 2 <= j < i ==> NumberedName(dir, stem, suffix, tag, j) in taken
  {
    i := 2;
    while NumberedName(dir, stem, suffix, tag, i) in taken
      invariant i >= 2 && NamesBelow(dir, stem, suffix, tag, i) <= taken
      decreases |taken - NamesBelow(dir, stem, suffix, tag, i)|
    {
      ghost var seen := NamesBelow(dir, stem, suffix, tag, i);
      ghost var cand := NumberedName(dir, stem, suffix, tag, i);
      NotBelow(dir, stem, suffix, tag, i, i);
      assert NamesBelow(dir, stem, suffix, tag, i + 1) == seen + {cand};
      assert taken - (seen + {cand}) == (taken - seen) - {cand};
      i := i + 1;
    }
  }

  // ---------------------------------------------------------------- main

  /**
   * An entry found under the source root: its path parts relative to the root, whether it is a
   * file, and the stem and suffix of its name.
   */
  datatype SourceFile = SourceFile(parts: seq<String>, isFile: bool, stem: String, suffix: String)

  /** The sanitised top-level sub-directory of a nested file, `root` for a file at the top. */
  function Tag(f: SourceFile): (r: String)
    ensures AllAllowed(r)
    ensures |f.parts| <= 1 ==> r == "root"
    ensures |f.parts| > 1 ==> r == Sanitize(f.parts[0])
  {
    SanitizeFixed("root");
    Sanitize(if |f.parts| > 1 then f.parts[0] else "root")
  }

  /** The files with a `.csv` suffix in any case, in the order found. */
  function CsvFiles(entries: seq<SourceFile>): (r: seq<SourceFile>)
    ensures forall f :: f in r <==> f in entries && f.isFile && Lower(f.suffix) == ".csv"
  {
    if entries == [] then []
    else
      var f := entries[|entries| - 1];
      CsvFiles(entries[..|entries| - 1]) + (if f.isFile && Lower(f.suffix) == ".csv" then [f] else [])
  }

  /** How many of `fs` copy without raising. */
  function CountCopied(fs: seq<SourceFile>, copies: SourceFile -> bool): (n: nat)
    ensures n <= |fs|
  {
    if fs == [] then 0
    else CountCopied(fs[..|fs| - 1], copies) + (if copies(fs[|fs| - 1]) then 1 else 0)
  }

  predicate Distinct(s: seq<String>) { forall i, j :: 0 <= i < j < |s| ==> s[i] != s[j] }

  /**
   * The copies made so far: distinct, none over a path that existed before, and together with
   * those paths exactly the paths now `taken`.
   */
  ghost predicate Ledger(existing: set<String>, taken: set<String>, dests: seq<String>) {
    && Distinct(dests)
    && (forall d :: d in dests ==> d !in existing)
    && (forall x :: x in taken <==> x in existing || x in dests)
  }

  lemma LedgerAdd(existing: set<String>, taken: set<String>, dests: seq<String>, dest: String)
    requires Ledger(existing, taken, dests) && dest !in taken
    ensures Ledger(existing, taken + {dest}, dests + [dest])
  {
    var ds := dests + [dest];
    forall i, j | 0 <= i < j < |ds| ensures ds[i] != ds[j] {
      if j == |dests| {
        assert ds[i] in dests;
      }
    }
  }

  /**
   * One turn of the copy loop: `src` gets the free destination for its sanitised stem and tag,
   * and when the copy succeeds (`ok`) that path is taken and listed.
   */
  method CopyOne(dstDir: String, src: SourceFile, ok: bool, ghost existing: set<String>, taken: set<String>, dests: seq<String>)
    returns (taken': set<String>, dests': seq<String>)
    requires Ledger(existing, taken, dests)
    ensures Ledger(existing, taken', dests')
    ensures !ok ==> taken' == taken && dests' == dests
    ensures ok ==> dests' == dests + [FreeDest(dstDir, Sanitize(src.stem), src.suffix, Tag(src), taken)]
  {
    var tag := Tag(src);
    var dest := UniqueDestPath(dstDir, Sanitize(src.stem), src.suffix, tag, taken);
    if ok {
      LedgerAdd(existing, taken, dests, dest);
      taken', dests' := taken + {dest}, dests + [dest];
    } else {
      taken', dests' := taken, dests;
    }
  }

  /** The paths listed in `s`. */
  ghost function Elems(s: seq<String>): set<String> { set x | x in s }

  /**
   * The destinations of the copies that succeed, file by file: each file gets the first free
   * name among the paths that existed before the run and the copies made before it.
   */
  ghost function Dests(dstDir: String, csv: seq<SourceFile>, existing: set<String>, copies: SourceFile -> bool): (r: seq<String>)
    ensures |r| == CountCopied(csv, copies)
  {
    if csv == [] then []
    else
      var prev := Dests(dstDir, csv[..|csv| - 1], existing, copies);
      var f := csv[|csv| - 1];
      if copies(f) then prev + [FreeDest(dstDir, Sanitize(f.stem), f.suffix, Tag(f), existing + Elems(prev))]
      else prev
  }

  /**
   * The copy loop of `main` over the `.csv` files: every file gets a destination that exists
   * neither before the run nor as an earlier copy; `copies` says whether copying a file
   * succeeds, and the counter and the list of destinations grow only for those that do.
   */
  method CopyAll(dstDir: String, csv: seq<SourceFile>, existing: set<String>, copies: SourceFile -> bool)
    returns (copied: nat, dests: seq<String>)
    ensures copied == |dests| == CountCopied(csv, copies)
    ensures dests == Dests(dstDir, csv, existing, copies)
    ensures Distinct(dests)
    ensures forall d :: d in dests ==> d !in existing
  {
    var taken := existing;
    copied, dests := 0, [];
    for n := 0 to |csv|
      invariant copied == |dests| == CountCopied(csv[..n], copies)
      invariant dests == Dests(dstDir, csv[..n], existing, copies)
      invariant Ledger(existing, taken, dests)
    {
      var ok := copies(csv[n]);
      assert taken == existing + Elems(dests);
      taken, dests := CopyOne(dstDir, csv[n], ok, existing, taken, dests);
      assert csv[..n + 1][..n] == csv[..n];
      if ok {
        copied := copied + 1;
      }
    }
    assert csv[..|csv|] == csv;
  }

  /** `main` after the source root is found: the `.csv` files under it are copied in the order found. */
  method CopyCsvFiles(dstDir: String, entries: seq<SourceFile>, existing: set<String>, copies: SourceFile -> bool)
    returns (copied: nat, dests: seq<String>)
    ensures copied == |dests| == CountCopied(CsvFiles(entries), copies)
    ensures dests == Dests(dstDir, CsvFiles(entries), existing, copies)
    ensures Distinct(dests)
    ensures forall d :: d in dests ==> d !in existing
  {
    copied, dests := CopyAll(dstDir, CsvFiles(entries), existing, copies);
  }
}
