/**
 * Python's `sorted(xs, key=...)`/`list.sort` as an insertion sort under a total preorder `le`,
 * and order-preserving de-duplication ("quitar duplicados preservando orden").
 * Sorting keeps equal elements in their input order, as Python's sort does.
 */
module Sorting {

  ghost predicate TotalPreorder<T(!new)>(le: (T, T) -> bool) {
    forall a, b :: le(a, b) || le(b, a)
  }

  ghost predicate Sorted<T>(s: seq<T>, le: (T, T) -> bool) {
    forall i :: 0 < i < |s| ==> le(s[i - 1], s[i])
  }

  ghost predicate Transitive<T(!new)>(le: (T, T) -> bool) {
    forall a, b, c :: le(a, b) && le(b, c) ==> le(a, c)
  }

  /** Under a transitive order, adjacent pairs in order put every pair in order. */
  lemma {:induction false} SortedPairwise<T(!new)>(s: seq<T>, le: (T, T) -> bool, i: nat, j: nat)
    requires Transitive(le) && Sorted(s, le) && i < j < |s|
    ensures le(s[i], s[j])
    decreases j - i
  {
    if i + 1 < j {
      SortedPairwise(s, le, i + 1, j);
    }
  }

  function Insert<T>(x: T, s: seq<T>, le: (T, T) -> bool): (r: seq<T>)
    ensures |r| == |s| + 1
    ensures multiset(r) == multiset(s) + multiset{x}
    ensures r[0] == x || (s != [] && r[0] == s[0])
  {
    if s == [] || le(x, s[0]) then [x] + s
    else assert s == [s[0]] + s[1..]; [s[0]] + Insert(x, s[1..], le)
  }

  function SortBy<T>(s: seq<T>, le: (T, T) -> bool): (r: seq<T>)
    ensures |r| == |s|
    ensures multiset(r) == multiset(s)
  {
    if s == [] then [] else assert s == [s[0]] + s[1..]; Insert(s[0], SortBy(s[1..], le), le)
  }

  lemma {:induction false} InsertSorted<T(!new)>(x: T, s: seq<T>, le: (T, T) -> bool)
    requires TotalPreorder(le) && Sorted(s, le)
    ensures Sorted(Insert(x, s, le), le)
  {
    if s != [] && !le(x, s[0]) {
      InsertSorted(x, s[1..], le);
      var t := Insert(x, s[1..], le);
      assert le(s[0], x);
      assert t[0] == x || t[0] == s[1];
      assert ([s[0]] + t)[1..] == t;
    }
  }

  /** The result of `SortBy` is ordered and is a permutation of its input. */
  lemma {:induction false} SortBySorted<T(!new)>(s: seq<T>, le: (T, T) -> bool)
    requires TotalPreorder(le)
    ensures Sorted(SortBy(s, le), le)
    ensures multiset(SortBy(s, le)) == multiset(s)
  {
    if s != [] {
      SortBySorted(s[1..], le);
      InsertSorted(s[0], SortBy(s[1..], le), le);
    }
  }

  /** `[x for x in s if q(x)]` */
  function Filter<T>(s: seq<T>, q: T -> bool): (r: seq<T>)
    ensures |r| <= |s|
    ensures forall i :: 0 <= i < |r| ==> q(r[i])
  {
    if s == [] then [] else (if q(s[0]) then [s[0]] else []) + Filter(s[1..], q)
  }

  lemma {:induction false} FilterAppend<T>(a: seq<T>, b: seq<T>, q: T -> bool)
    ensures Filter(a + b, q) == Filter(a, q) + Filter(b, q)
  {
    if a == [] {
      assert a + b == b;
    } else {
      assert (a + b)[0] == a[0] && (a + b)[1..] == a[1..] + b;
      FilterAppend(a[1..], b, q);
    }
  }

  lemma {:induction false} FilterNone<T>(s: seq<T>, q: T -> bool)
    requires forall i :: 0 <= i < |s| ==> !q(s[i])
    ensures Filter(s, q) == []
  {
    if s != [] {
      FilterNone(s[1..], q);
    }
  }

  /** The last element of `s` that satisfies `q` is the last element of the filtered sequence. */
  lemma FilterLast<T>(s: seq<T>, q: T -> bool, j: nat)
    requires j < |s| && q(s[j]) && forall t :: j < t < |s| ==> !q(s[t])
    ensures |Filter(s, q)| > 0 && Filter(s, q)[|Filter(s, q)| - 1] == s[j]
  {
    var tail := s[j + 1..];
    assert s == s[..j] + [s[j]] + tail;
    FilterAppend(s[..j] + [s[j]], tail, q);
    FilterAppend(s[..j], [s[j]], q);
    assert forall t :: 0 <= t < |tail| ==> tail[t] == s[j + 1 + t];
    FilterNone(tail, q);
    assert Filter([s[j]], q) == [s[j]];
  }

  /** The last position of `s` whose element satisfies `q`. */
  lemma {:induction false} LastWith<T>(s: seq<T>, q: T -> bool, i: nat) returns (j: nat)
    requires i < |s| && q(s[i])
    ensures i <= j < |s| && q(s[j]) && forall t :: j < t < |s| ==> !q(s[t])
    decreases |s| - i
  {
    if exists t :: i < t < |s| && q(s[t]) {
      var t :| i < t < |s| && q(s[t]);
      j := LastWith(s, q, t);
    } else {
      j := i;
    }
  }

  /** `q` picks elements that are all equivalent under `le`. */
  ghost predicate OneClass<T(!new)>(q: T -> bool, le: (T, T) -> bool) {
    forall a, b :: q(a) && q(b) ==> le(a, b)
  }

  lemma {:induction false} InsertFilter<T(!new)>(x: T, t: seq<T>, le: (T, T) -> bool, q: T -> bool)
    requires OneClass(q, le)
    ensures Filter(Insert(x, t, le), q) == (if q(x) then [x] else []) + Filter(t, q)
  {
    if t == [] || le(x, t[0]) {
      assert ([x] + t)[1..] == t;
    } else {
      var u := Insert(x, t[1..], le);
      InsertFilter(x, t[1..], le, q);
      assert Insert(x, t, le) == [t[0]] + u;
      assert ([t[0]] + u)[1..] == u && ([t[0]] + u)[0] == t[0];
      var hx, ht := (if q(x) then [x] else []), (if q(t[0]) then [t[0]] else []);
      assert Filter([t[0]] + u, q) == ht + Filter(u, q);
      assert Filter(t, q) == ht + Filter(t[1..], q);
      var t0 := t[0];
      assert q(x) && q(t0) ==> le(x, t0);
      assert hx == [] || ht == [];
    }
  }

  /**
   * `SortBy` is stable: the elements of one equivalence class (any selection of mutually
   * equivalent elements) come out in the order they went in.
   */
  lemma {:induction false} SortByStable<T(!new)>(s: seq<T>, le: (T, T) -> bool, q: T -> bool)
    requires OneClass(q, le)
    ensures Filter(SortBy(s, le), q) == Filter(s, q)
  {
    if s != [] {
      SortByStable(s[1..], le, q);
      InsertFilter(s[0], SortBy(s[1..], le), le, q);
    }
  }

  /** Keeps the first occurrence of every element, in order. */
  function Dedup<T(==)>(s: seq<T>): (r: seq<T>)
    ensures forall i :: 0 <= i < |r| ==> r[i] in s
    ensures forall i :: 0 <= i < |s| ==> s[i] in r
    ensures forall i, j :: 0 <= i < j < |r| ==> r[i] != r[j]
  {
    DedupAfter(s, {})
  }

  /** The position of the first occurrence of `x` in `s`. */
  function FirstIndex<T(==)>(s: seq<T>, x: T): (k: nat)
    requires x in s
    ensures k < |s| && s[k] == x && x !in s[..k]
  {
    if s[0] == x then 0
    else
      var k := FirstIndex(s[1..], x);
      assert s[..k + 1] == [s[0]] + s[1..][..k];
      k + 1
  }

  function DedupAfter<T(==)>(s: seq<T>, seen: set<T>): (r: seq<T>)
    ensures forall i :: 0 <= i < |r| ==> r[i] in s && r[i] !in seen
    ensures forall i :: 0 <= i < |s| ==> s[i] in seen || s[i] in r
    ensures forall i, j :: 0 <= i < j < |r| ==> r[i] != r[j]
    decreases |s|
  {
    if s == [] then []
    else if s[0] in seen then DedupAfter(s[1..], seen)
    else [s[0]] + DedupAfter(s[1..], seen + {s[0]})
  }

  /** Removing repeats keeps the elements in the order of their first occurrences in the input. */
  lemma DedupOrder<T>(s: seq<T>)
    ensures var r := Dedup(s); forall i, j :: 0 <= i < j < |r| ==> FirstIndex(s, r[i]) < FirstIndex(s, r[j])
  {
    assert Dedup(s) == DedupAfter(s, {});
    DedupAfterOrder(s, {});
  }

  lemma {:induction false} DedupAfterOrder<T>(s: seq<T>, seen: set<T>)
    ensures forall i, j :: 0 <= i < j < |DedupAfter(s, seen)| ==>
      FirstIndex(s, DedupAfter(s, seen)[i]) < FirstIndex(s, DedupAfter(s, seen)[j])
    decreases |s|
  {
    if s != [] {
      var seen' := if s[0] in seen then seen else seen + {s[0]};
      var t := DedupAfter(s[1..], seen');
      DedupAfterOrder(s[1..], seen');
      assert s[0] in seen';
      OrderTail(s, t);
      if s[0] in seen {
        assert DedupAfter(s, seen) == t;
      } else {
        OrderHead(s, t);
        assert DedupAfter(s, seen) == [s[0]] + t;
      }
    }
  }

  /** Elements of the tail other than the head keep their first-occurrence order in the whole. */
  lemma OrderTail<T>(s: seq<T>, t: seq<T>)
    requires s != []
    requires forall k :: 0 <= k < |t| ==> t[k] in s[1..] && t[k] != s[0]
    requires forall i, j :: 0 <= i < j < |t| ==> FirstIndex(s[1..], t[i]) < FirstIndex(s[1..], t[j])
    ensures forall k :: 0 <= k < |t| ==> t[k] in s && t[k] != s[0]
    ensures forall i, j :: 0 <= i < j < |t| ==> FirstIndex(s, t[i]) < FirstIndex(s, t[j])
  {
    forall k | 0 <= k < |t| ensures t[k] in s && FirstIndex(s, t[k]) == 1 + FirstIndex(s[1..], t[k]) {
      FirstIndexTail(s, t[k]);
    }
  }

  /** The head occurs first of all, so it can go in front of elements ordered by first occurrence. */
  lemma OrderHead<T>(s: seq<T>, t: seq<T>)
    requires s != []
    requires forall k :: 0 <= k < |t| ==> t[k] in s && t[k] != s[0]
    requires forall i, j :: 0 <= i < j < |t| ==> FirstIndex(s, t[i]) < FirstIndex(s, t[j])
    ensures forall i, j :: 0 <= i < j < |[s[0]] + t| ==> FirstIndex(s, ([s[0]] + t)[i]) < FirstIndex(s, ([s[0]] + t)[j])
  {
    var r := [s[0]] + t;
    assert FirstIndex(s, s[0]) == 0;
    forall i, j | 0 <= i < j < |r| ensures FirstIndex(s, r[i]) < FirstIndex(s, r[j]) {
      assert r[j] == t[j - 1];
      if i > 0 {
        assert r[i] == t[i - 1];
      }
    }
  }

  /** An element other than the head first occurs one place later in the whole than in the tail. */
  lemma FirstIndexTail<T>(s: seq<T>, x: T)
    requires x in s && x != s[0]
    ensures x in s[1..] && FirstIndex(s, x) == 1 + FirstIndex(s[1..], x)
  {
    var k :| 0 <= k < |s| && s[k] == x;
    assert s[1..][k - 1] == x;
  }

  /** One step of `DedupAfter`: the head is kept exactly when it has not been seen. */
  lemma DedupAfterCons<T>(x: T, rest: seq<T>, seen: set<T>)
    ensures DedupAfter([x] + rest, seen) == (if x in seen then [] else [x]) + DedupAfter(rest, seen + {x})
  {
    assert ([x] + rest)[1..] == rest;
    if x in seen {
      assert seen + {x} == seen;
    }
  }

  lemma DedupAfterOne<T>(c: T, seen: set<T>)
    ensures DedupAfter([c], seen) == if c in seen then [] else [c]
  {
    assert [c] == [c] + [];
    DedupAfterCons(c, [], seen);
  }

  lemma DedupAfterPair<T>(b: T, c: T, seen: set<T>)
    ensures DedupAfter([b, c], seen) == (if b in seen then [] else [b]) + (if c in seen || c == b then [] else [c])
  {
    assert [b, c] == [b] + [c];
    DedupAfterCons(b, [c], seen);
    DedupAfterOne(c, seen + {b});
  }

  /** Removing repeats from two items keeps the first, and the second when it differs. */
  lemma DedupTwo<T>(a: T, b: T)
    ensures Dedup([a, b]) == [a] + (if b == a then [] else [b])
  {
    assert [a, b] == [a] + [b];
    DedupAfterCons(a, [b], {});
    DedupAfterOne(b, {} + {a});
  }

  /** Removing repeats from three items keeps each one that differs from the items before it. */
  lemma DedupThree<T>(a: T, b: T, c: T)
    ensures Dedup([a, b, c]) == [a] + (if b == a then [] else [b]) + (if c == a || c == b then [] else [c])
  {
    assert [a, b, c] == [a] + [b, c];
    DedupAfterCons(a, [b, c], {});
    DedupAfterPair(b, c, {} + {a});
    ConcatAssoc([a], if b == a then [] else [b], if c == a || c == b then [] else [c]);
  }

  lemma ConcatAssoc<T>(p: seq<T>, q: seq<T>, r: seq<T>)
    ensures p + (q + r) == p + q + r
  {
  }

  /** De-duplicating a sequence without repeats changes nothing. */
  lemma {:induction false} DedupDistinct<T>(s: seq<T>, seen: set<T>)
    requires forall i, j :: 0 <= i < j < |s| ==> s[i] != s[j]
    requires forall x :: x in s ==> x !in seen
    ensures DedupAfter(s, seen) == s
    decreases |s|
  {
    if s != [] {
      DistinctTail(s, seen);
      DedupDistinct(s[1..], seen + {s[0]});
      assert [s[0]] + s[1..] == s;
      DedupAfterCons(s[0], s[1..], seen);
    }
  }

  /** The tail of a sequence without repeats holds neither its head nor anything already seen. */
  lemma DistinctTail<T>(s: seq<T>, seen: set<T>)
    requires s != []
    requires forall i, j :: 0 <= i < j < |s| ==> s[i] != s[j]
    requires forall x :: x in s ==> x !in seen
    ensures forall i, j :: 0 <= i < j < |s[1..]| ==> s[1..][i] != s[1..][j]
    ensures forall x :: x in s[1..] ==> x !in seen + {s[0]}
    ensures s[0] !in seen
  {
    forall x | x in s[1..] ensures x !in seen + {s[0]} {
      var k :| 0 <= k < |s[1..]| && s[1..][k] == x;
      assert s[k + 1] == x;
    }
  }

  /** Iterating a Python set: every element once, in an order the model does not fix. */
  method SetToSeq<T>(s: set<T>) returns (r: seq<T>)
    ensures (forall i, j :: 0 <= i < j < |r| ==> r[i] != r[j]) && forall x :: x in r <==> x in s
  {
    r := [];
    var rest := s;
    while rest != {}
      invariant forall i, j :: 0 <= i < j < |r| ==> r[i] != r[j]
      invariant forall x :: x in r <==> x in s && x !in rest
      invariant rest <= s
      decreases rest
    {
      var x :| x in rest;
      r := r + [x];
      rest := rest - {x};
    }
  }

  /** Sequences with the same multiset have the same members. */
  lemma MultisetMembers<T>(a: seq<T>, b: seq<T>)
    requires multiset(a) == multiset(b)
    ensures forall c :: c in a <==> c in b
  {
    forall c ensures c in a <==> c in b {
      assert c in a <==> c in multiset(a);
      assert c in b <==> c in multiset(b);
    }
  }
}
