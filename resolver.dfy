/**
 * The resolving expression of `detectPII`:
 * `spans.sort((a, b) => a.start - b.start).filter((span, index, arr) => index === 0 || span.start >= arr[index - 1].end)`.
 * The sort is stable (as ECMAScript requires of `Array.prototype.sort`); the filter compares
 * each span with its neighbour in the sorted array, whether or not that neighbour was kept.
 */
module Resolver {
  import opened PiiSpans

  predicate SortedByStart(s: seq<Span>) {
    forall i, j :: 0 <= i < j < |s| ==> s[i].start <= s[j].start
  }

  /** The spans of `s` that start at `k`, in their order in `s`. */
  function WithStart(s: seq<Span>, k: int): seq<Span>
    decreases s
  {
    if s == [] then [] else (if s[0].start == k then [s[0]] else []) + WithStart(s[1..], k)
  }

  lemma {:induction false} WithStartAppend(a: seq<Span>, b: seq<Span>, k: int)
    ensures WithStart(a + b, k) == WithStart(a, k) + WithStart(b, k)
    decreases a
  {
    if a == [] {
      assert a + b == b;
    } else {
      assert (a + b)[0] == a[0];
      assert (a + b)[1..] == a[1..] + b;
      WithStartAppend(a[1..], b, k);
      var front := if a[0].start == k then [a[0]] else [];
      var wa, wb := WithStart(a[1..], k), WithStart(b, k);
      assert WithStart(a + b, k) == front + (wa + wb);
      assert front + (wa + wb) == (front + wa) + wb;
    }
  }

  lemma {:induction false} WithStartMembers(s: seq<Span>, k: int)
    ensures forall y :: y in WithStart(s, k) ==> y in s && y.start == k
    decreases s
  {
    if s != [] { WithStartMembers(s[1..], k); }
  }

  /** Places `x` in front of the first span that does not start before it. */
  function Insert(x: Span, s: seq<Span>): (r: seq<Span>)
    ensures multiset(r) == multiset(s) + multiset{x}
    decreases s
  {
    if s == [] || x.start <= s[0].start then [x] + s
    else
      assert s == [s[0]] + s[1..];
      [s[0]] + Insert(x, s[1..])
  }

  lemma {:induction false} InsertSorted(x: Span, s: seq<Span>)
    requires SortedByStart(s)
    ensures SortedByStart(Insert(x, s))
    decreases s
  {
    if !(s == [] || x.start <= s[0].start) {
      var rest := Insert(x, s[1..]);
      InsertSorted(x, s[1..]);
      forall y | y in rest ensures s[0].start <= y.start {
        assert y in multiset(rest);
      }
      ConsSorted(s[0], rest);
    }
  }

  lemma ConsSorted(x: Span, r: seq<Span>)
    requires SortedByStart(r)
    requires forall y :: y in r ==> x.start <= y.start
    ensures SortedByStart([x] + r)
  {
    forall i, j | 0 <= i < j < |[x] + r| ensures ([x] + r)[i].start <= ([x] + r)[j].start {
      assert ([x] + r)[j] == r[j - 1];
      if i > 0 {
        assert ([x] + r)[i] == r[i - 1];
      }
    }
  }

  lemma {:induction false} InsertKeepsRuns(x: Span, s: seq<Span>, k: int)
    requires SortedByStart(s)
    ensures WithStart(Insert(x, s), k) == (if x.start == k then [x] else []) + WithStart(s, k)
    decreases s
  {
    var r := Insert(x, s);
    if s == [] || x.start <= s[0].start {
      assert r[0] == x && r[1..] == s;
    } else {
      var rest := Insert(x, s[1..]);
      assert r[0] == s[0] && r[1..] == rest;
      InsertKeepsRuns(x, s[1..], k);
      var fx := if x.start == k then [x] else [];
      var f0 := if s[0].start == k then [s[0]] else [];
      var w := WithStart(s[1..], k);
      assert WithStart(r, k) == f0 + (fx + w);
      assert WithStart(s, k) == f0 + w;
      FrontSwap(f0, fx, w);
    }
  }

  /** At most one of two fronts is non-empty, so their order does not matter. */
  lemma FrontSwap(f0: seq<Span>, fx: seq<Span>, w: seq<Span>)
    requires f0 == [] || fx == []
    ensures f0 + (fx + w) == fx + (f0 + w)
  {
    if f0 == [] {
      assert f0 + (fx + w) == fx + w == fx + (f0 + w);
    } else {
      assert fx + (f0 + w) == f0 + w == f0 + (fx + w);
    }
  }

  /** The stable sort by `start` (insertion sort; `SortIsStable` states its stability). */
  function SortByStart(s: seq<Span>): (r: seq<Span>)
    ensures SortedByStart(r)
    ensures multiset(r) == multiset(s) && |r| == |s|
    decreases s
  {
    if s == [] then []
    else
      var rest := SortByStart(s[1..]);
      assert s == [s[0]] + s[1..];
      InsertSorted(s[0], rest);
      Insert(s[0], rest)
  }

  /** The sort is stable: for every start, the spans with that start keep their relative order. */
  lemma {:induction false} SortIsStable(s: seq<Span>)
    ensures forall k :: WithStart(SortByStart(s), k) == WithStart(s, k)
    decreases s
  {
    if s != [] {
      SortIsStable(s[1..]);
      var rest := SortByStart(s[1..]);
      forall k ensures WithStart(SortByStart(s), k) == WithStart(s, k) {
        InsertKeepsRuns(s[0], rest, k);
      }
    }
  }

  /**
   * `SortByStart` is the only stable arrangement: any sequence sorted by start that keeps,
   * for every start, the spans with that start in their original order equals it.
   * So whatever stable algorithm the JavaScript engine uses, its result is `SortByStart(s)`.
   */
  lemma StableSortIsUnique(s: seq<Span>, r: seq<Span>)
    requires SortedByStart(r)
    requires forall k :: WithStart(r, k) == WithStart(s, k)
    ensures r == SortByStart(s)
  {
    SortIsStable(s);
    SameRunsSame(r, SortByStart(s));
  }

  lemma HeadInItsRun(s: seq<Span>)
    ensures s != [] ==> WithStart(s, s[0].start) != [] && WithStart(s, s[0].start)[0] == s[0]
  {
  }

  lemma {:induction false} SameRunsSame(a: seq<Span>, b: seq<Span>)
    requires SortedByStart(a) && SortedByStart(b)
    requires forall k :: WithStart(a, k) == WithStart(b, k)
    ensures a == b
    decreases |a| + |b|
  {
    HeadInItsRun(a);
    HeadInItsRun(b);
    if a != [] && b != [] {
      var ka, kb := a[0].start, b[0].start;
      WithStartMembers(a, kb);
      WithStartMembers(b, ka);
      var y := WithStart(b, ka)[0];
      assert y in b && y.start == ka;
      var z := WithStart(a, kb)[0];
      assert z in a && z.start == kb;
      assert ka == kb;
      assert a[0] == b[0];
      forall k
        ensures WithStart(a[1..], k) == WithStart(b[1..], k)
      {
        var front := if a[0].start == k then [a[0]] else [];
        assert WithStart(a, k) == front + WithStart(a[1..], k);
        assert WithStart(b, k) == front + WithStart(b[1..], k);
        assert (front + WithStart(a[1..], k))[|front|..] == WithStart(a[1..], k);
        assert (front + WithStart(b[1..], k))[|front|..] == WithStart(b[1..], k);
      }
      SameRunsSame(a[1..], b[1..]);
      assert a == [a[0]] + a[1..];
      assert b == [b[0]] + b[1..];
    }
  }

  /** The filter's test for the span at `i`: the first is kept, the others only if they start at or after their predecessor's end. */
  predicate KeptAt(s: seq<Span>, i: nat)
    requires i < |s|
  {
    i == 0 || s[i].start >= s[i - 1].end
  }

  /** The filter applied to the first `n` spans. */
  function FilterUpTo(s: seq<Span>, n: nat): seq<Span>
    requires n <= |s|
    decreases n
  {
    if n == 0 then []
    else FilterUpTo(s, n - 1) + (if KeptAt(s, n - 1) then [s[n - 1]] else [])
  }

  /** The indices the filter keeps among the first `n`. */
  function KeptIndices(s: seq<Span>, n: nat): seq<nat>
    requires n <= |s|
    decreases n
  {
    if n == 0 then []
    else KeptIndices(s, n - 1) + (if KeptAt(s, n - 1) then [n - 1] else [])
  }

  /** The filter over the whole (sorted) array. */
  function Resolve(s: seq<Span>): seq<Span> {
    FilterUpTo(s, |s|)
  }

  /**
   * The filter's result is the subsequence of `s` at the indices it keeps, and an index is
   * kept exactly when `KeptAt` holds there.
   */
  lemma {:induction false} FilterIsSubsequence(s: seq<Span>, n: nat)
    requires n <= |s|
    ensures |KeptIndices(s, n)| == |FilterUpTo(s, n)|
    ensures forall j :: 0 <= j < |KeptIndices(s, n)| ==>
      KeptIndices(s, n)[j] < n && FilterUpTo(s, n)[j] == s[KeptIndices(s, n)[j]]
    ensures forall j, j' :: 0 <= j < j' < |KeptIndices(s, n)| ==> KeptIndices(s, n)[j] < KeptIndices(s, n)[j']
    ensures forall i :: 0 <= i < n ==> (KeptAt(s, i) <==> i in KeptIndices(s, n))
    decreases n
  {
    if n > 0 {
      FilterIsSubsequence(s, n - 1);
    }
  }

  /** Whenever there is a span, the first one in sorted order is kept. */
  lemma FirstIsKept(s: seq<Span>)
    requires |s| > 0
    ensures |Resolve(s)| > 0 && Resolve(s)[0] == s[0]
  {
    FilterIsSubsequence(s, |s|);
    var idx := KeptIndices(s, |s|);
    assert KeptAt(s, 0);
    assert 0 in idx;
    assert idx[0] == 0;
  }

  /** When every span starts at or after its predecessor's end, nothing is dropped. */
  lemma {:induction false} ChainedKeepsAll(s: seq<Span>, n: nat)
    requires n <= |s|
    requires forall i :: 0 < i < |s| ==> s[i - 1].end <= s[i].start
    ensures FilterUpTo(s, n) == s[..n]
    decreases n
  {
    if n > 0 {
      ChainedKeepsAll(s, n - 1);
      assert s[..n] == s[..n - 1] + [s[n - 1]];
    }
  }

  /** Sorted, non-empty spans that are pairwise apart are chained, so the filter keeps all of them. */
  lemma DisjointKeepsAll(s: seq<Span>)
    requires SortedByStart(s)
    requires forall i :: 0 <= i < |s| ==> s[i].start < s[i].end
    requires forall i, j :: 0 <= i < j < |s| ==> Apart(s[i], s[j])
    ensures Resolve(s) == s
  {
    forall i | 0 < i < |s| ensures s[i - 1].end <= s[i].start {
      assert Apart(s[i - 1], s[i]);
    }
    ChainedKeepsAll(s, |s|);
  }

  /**
   * On sorted non-empty spans a kept span starts strictly after every span before it, so the
   * result is strictly increasing in `start`: of several spans with one start, only the first
   * can survive.
   */
  lemma KeptStartsFirst(s: seq<Span>, i: nat)
    requires SortedByStart(s)
    requires forall k :: 0 <= k < |s| ==> s[k].start < s[k].end
    requires i < |s| && KeptAt(s, i)
    ensures forall j :: 0 <= j < i ==> s[j].start < s[i].start
  {
    if i > 0 {
      assert s[i - 1].start < s[i - 1].end <= s[i].start;
    }
  }

  lemma ResolveStrictlySorted(s: seq<Span>)
    requires SortedByStart(s)
    requires forall k :: 0 <= k < |s| ==> s[k].start < s[k].end
    ensures forall j, j' :: 0 <= j < j' < |Resolve(s)| ==> Resolve(s)[j].start < Resolve(s)[j'].start
  {
    FilterIsSubsequence(s, |s|);
    var idx := KeptIndices(s, |s|);
    forall j, j' | 0 <= j < j' < |Resolve(s)| ensures Resolve(s)[j].start < Resolve(s)[j'].start {
      assert idx[j] < idx[j'] && idx[j'] in idx;
      KeptStartsFirst(s, idx[j']);
    }
  }

  /** If no earlier span shares its start, `s[i]` heads the spans with that start. */
  lemma {:induction false} HeadsItsStart(s: seq<Span>, i: nat)
    requires i < |s|
    requires forall j :: 0 <= j < i ==> s[j].start != s[i].start
    ensures WithStart(s, s[i].start) != [] && WithStart(s, s[i].start)[0] == s[i]
    decreases i
  {
    if i > 0 {
      HeadsItsStart(s[1..], i - 1);
    }
  }

  /**
   * Every span the resolver keeps from sorted non-empty spans is the earliest span of the
   * array that has its start.
   */
  lemma KeptHeadsItsStart(s: seq<Span>)
    requires SortedByStart(s)
    requires forall k :: 0 <= k < |s| ==> s[k].start < s[k].end
    ensures forall x :: x in Resolve(s) ==> WithStart(s, x.start) != [] && WithStart(s, x.start)[0] == x
  {
    forall x | x in Resolve(s) ensures WithStart(s, x.start) != [] && WithStart(s, x.start)[0] == x {
      var j :| 0 <= j < |Resolve(s)| && Resolve(s)[j] == x;
      KeptHeadAt(s, j);
    }
  }

  lemma KeptHeadAt(s: seq<Span>, j: nat)
    requires SortedByStart(s)
    requires forall k :: 0 <= k < |s| ==> s[k].start < s[k].end
    requires j < |Resolve(s)|
    ensures WithStart(s, Resolve(s)[j].start) != [] && WithStart(s, Resolve(s)[j].start)[0] == Resolve(s)[j]
  {
    FilterIsSubsequence(s, |s|);
    var idx := KeptIndices(s, |s|);
    assert idx[j] in idx;
    KeptStartsFirst(s, idx[j]);
    HeadsItsStart(s, idx[j]);
  }

  /** Every kept span is one of the input spans. */
  lemma ResolveMembers(s: seq<Span>)
    ensures forall x :: x in Resolve(s) ==> x in s
  {
    FilterIsSubsequence(s, |s|);
  }

  /** Sorting keeps every span non-empty. */
  lemma SortKeepsNonEmpty(raw: seq<Span>)
    requires forall x :: x in raw ==> x.start < x.end
    ensures forall k :: 0 <= k < |SortByStart(raw)| ==> SortByStart(raw)[k].start < SortByStart(raw)[k].end
  {
    var sorted := SortByStart(raw);
    forall k | 0 <= k < |sorted| ensures sorted[k].start < sorted[k].end {
      assert sorted[k] in multiset(sorted);
    }
  }

  /** Sort then filter keeps only input spans. */
  lemma SortResolveMembers(raw: seq<Span>)
    ensures forall x :: x in Resolve(SortByStart(raw)) ==> x in raw
  {
    var sorted := SortByStart(raw);
    ResolveMembers(sorted);
    forall x | x in Resolve(sorted) ensures x in raw {
      assert x in multiset(sorted);
    }
  }

  /**
   * The filter as a subsequence: `Resolve(s)` lists, in order, the spans of `s` at the
   * indices `i` with `i == 0` or `s[i].start >= s[i - 1].end`.
   */
  lemma ResolveByPredecessor(s: seq<Span>)
    ensures |KeptIndices(s, |s|)| == |Resolve(s)|
    ensures forall j :: 0 <= j < |KeptIndices(s, |s|)| ==>
      KeptIndices(s, |s|)[j] < |s| && Resolve(s)[j] == s[KeptIndices(s, |s|)[j]]
    ensures forall j, j' :: 0 <= j < j' < |KeptIndices(s, |s|)| ==> KeptIndices(s, |s|)[j] < KeptIndices(s, |s|)[j']
    ensures forall i :: 0 <= i < |s| ==> (i in KeptIndices(s, |s|) <==> (i == 0 || s[i].start >= s[i - 1].end))
  {
    FilterIsSubsequence(s, |s|);
  }

  /** Sort then filter of non-empty spans has strictly increasing starts. */
  lemma SortResolveStrictlySorted(raw: seq<Span>)
    requires forall x :: x in raw ==> x.start < x.end
    ensures forall j, j' :: 0 <= j < j' < |Resolve(SortByStart(raw))| ==>
      Resolve(SortByStart(raw))[j].start < Resolve(SortByStart(raw))[j'].start
  {
    SortKeepsNonEmpty(raw);
    ResolveStrictlySorted(SortByStart(raw));
  }

  /** Sort then filter of non-empty spans keeps, for each reported start, the first input span with that start. */
  lemma SortResolveHeads(raw: seq<Span>)
    requires forall x :: x in raw ==> x.start < x.end
    ensures forall x :: x in Resolve(SortByStart(raw)) ==> WithStart(raw, x.start) != [] && WithStart(raw, x.start)[0] == x
  {
    SortKeepsNonEmpty(raw);
    SortIsStable(raw);
    KeptHeadsItsStart(SortByStart(raw));
  }

  /** Two positions of a permutation of `raw` come from two different positions of `raw`. */
  lemma DistinctSources(raw: seq<Span>, sorted: seq<Span>, i: nat, j: nat)
    requires i < j < |sorted| && multiset(sorted) == multiset(raw)
    ensures exists a, b :: 0 <= a < |raw| && 0 <= b < |raw| && a != b && raw[a] == sorted[i] && raw[b] == sorted[j]
  {
    assert sorted[i] in multiset(raw) && sorted[j] in multiset(raw);
    if sorted[i] == sorted[j] {
      var x := sorted[i];
      assert multiset(sorted)[x] >= 2 by {
        assert sorted == sorted[..i] + [x] + sorted[i + 1..j] + [x] + sorted[j + 1..];
      }
      TwoCopies(raw, x);
    } else {
      var a :| 0 <= a < |raw| && raw[a] == sorted[i];
      var b :| 0 <= b < |raw| && raw[b] == sorted[j];
      assert a != b;
    }
  }

  /** A span that occurs at least twice in `s` does so at two different positions. */
  lemma TwoCopies(s: seq<Span>, x: Span)
    requires multiset(s)[x] >= 2
    ensures exists a, b :: 0 <= a < |s| && 0 <= b < |s| && a != b && s[a] == x && s[b] == x
  {
    assert x in multiset(s);
    var a :| 0 <= a < |s| && s[a] == x;
    var rest := s[..a] + s[a + 1..];
    assert s == s[..a] + [x] + s[a + 1..];
    assert multiset(rest)[x] >= 1;
    var b' :| 0 <= b' < |rest| && rest[b'] == x;
    var b := if b' < a then b' else b' + 1;
    assert s[b] == x && b != a;
  }

  /** When the non-empty input spans are pairwise apart, sort then filter drops nothing. */
  lemma SortResolveDisjoint(raw: seq<Span>)
    requires forall x :: x in raw ==> x.start < x.end
    requires forall a, b :: 0 <= a < b < |raw| ==> Apart(raw[a], raw[b])
    ensures Resolve(SortByStart(raw)) == SortByStart(raw)
  {
    var sorted := SortByStart(raw);
    SortKeepsNonEmpty(raw);
    forall i, j | 0 <= i < j < |sorted| ensures Apart(sorted[i], sorted[j]) {
      PermutedApart(raw, sorted, i, j);
    }
    DisjointKeepsAll(sorted);
  }

  /** Pairwise disjointness survives any permutation. */
  lemma PermutedApart(raw: seq<Span>, sorted: seq<Span>, i: nat, j: nat)
    requires i < j < |sorted| && multiset(sorted) == multiset(raw)
    requires forall a, b :: 0 <= a < b < |raw| ==> Apart(raw[a], raw[b])
    ensures Apart(sorted[i], sorted[j])
  {
    DistinctSources(raw, sorted, i, j);
    var a, b :| 0 <= a < |raw| && 0 <= b < |raw| && a != b && raw[a] == sorted[i] && raw[b] == sorted[j];
    if a < b { assert Apart(raw[a], raw[b]); } else { assert Apart(raw[b], raw[a]); }
  }

  /** The spans of the overlap example are already in stable order. */
  lemma OverlapExampleSorted(raw: seq<Span>)
    requires raw == [Span(0, 32, Email), Span(0, 12, Phone), Span(13, 25, Phone)]
    ensures SortByStart(raw) == raw
  {
    StableSortIsUnique(raw, raw);
  }

  /**
   * The filter does not guarantee disjointness: a span that was dropped still serves as the
   * predecessor of the next one. Here an email covers `[0, 32)`, a phone `[0, 12)` is dropped,
   * and a phone `[13, 25)` is kept although it lies inside the email. These are the raw spans,
   * in push order, of a text shaped like `555-123-4567.555-123-9999@ex.com`.
   */
  lemma OverlapSurvives(raw: seq<Span>)
    requires raw == [Span(0, 32, Email), Span(0, 12, Phone), Span(13, 25, Phone)]
    ensures Resolve(raw) == [Span(0, 32, Email), Span(13, 25, Phone)]
    ensures !Apart(Resolve(raw)[0], Resolve(raw)[1])
  {
    assert FilterUpTo(raw, 1) == [raw[0]];
    assert FilterUpTo(raw, 2) == [raw[0]];
    assert FilterUpTo(raw, 3) == [raw[0], raw[2]];
  }

  /** Sorting and filtering the overlap example's raw spans, as `detectPII` does, keeps the overlap. */
  lemma OverlapSortedSurvives(raw: seq<Span>)
    requires raw == [Span(0, 32, Email), Span(0, 12, Phone), Span(13, 25, Phone)]
    ensures Resolve(SortByStart(raw)) == [Span(0, 32, Email), Span(13, 25, Phone)]
    ensures !Apart(Resolve(SortByStart(raw))[0], Resolve(SortByStart(raw))[1])
  {
    OverlapExampleSorted(raw);
    OverlapSurvives(raw);
  }

  /** The first span of a list sorted by start starts no later than any member. */
  lemma SortedHeadStart(s: seq<Span>, e: Span)
    requires SortedByStart(s) && e in s
    ensures s[0].start <= e.start
  {
    var i :| 0 <= i < |s| && s[i] == e;
  }

  /** The first span kept after sorting starts no later than any raw span. */
  lemma ResolvedHeadStart(raw: seq<Span>, e: Span)
    requires e in raw
    ensures Resolve(SortByStart(raw)) != [] && Resolve(SortByStart(raw))[0].start <= e.start
  {
    var sorted := SortByStart(raw);
    assert e in multiset(raw);
    assert e in multiset(sorted);
    SortedHeadStart(sorted, e);
    FirstIsKept(sorted);
  }
}
