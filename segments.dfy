/**
 * `applyPIISpans` and the `SpoilerText` component: a message text is cut into plain
 * gaps and masked slices by walking its spans in ascending start order, and each masked
 * slice carries its own reveal flag.
 */
module SpoilerText {
  import opened PiiSpans
  import opened Resolver

  /** `String.prototype.slice`'s reading of an index: negative counts from the end, then clamp. */
  function SliceIndex(i: int, n: nat): (r: nat)
    ensures r <= n
    ensures 0 <= i <= n ==> r == i
  {
    if i < 0 then (if n + i < 0 then 0 else n + i) else if i > n then n else i
  }

  /** `text.slice(a, b)`: empty when the clamped range is empty. */
  function JsSlice(text: string, a: int, b: int): (r: string)
    ensures |r| <= |text|
    ensures 0 <= a <= b <= |text| ==> r == text[a..b]
  {
    var from, to := SliceIndex(a, |text|), SliceIndex(b, |text|);
    if from < to then text[from..to] else ""
  }

  /**
   * One rendered piece: unmasked text, or a masked slice with the span it came from and its
   * position in the sorted span list. The React key `pii-${start}-${end}-${index}` is
   * `(span.start, span.end, index)`.
   */
  datatype Segment = Plain(text: string) | Masked(text: string, span: Span, index: nat)

  /** The plain gap pushed before a span that starts after the cursor. */
  function Gap(text: string, lastIndex: int, start: int): seq<Segment> {
    if start > lastIndex then [Plain(JsSlice(text, lastIndex, start))] else []
  }

  /**
   * The segments the `forEach` pushes for `sorted[index..]` when the cursor stands at
   * `lastIndex`: a gap when needed, then the masked slice; the cursor moves to the span's end.
   */
  function Walk(text: string, sorted: seq<Span>, index: nat, lastIndex: int): seq<Segment>
    requires index <= |sorted|
    decreases |sorted| - index
  {
    if index == |sorted| then []
    else
      var span := sorted[index];
      Gap(text, lastIndex, span.start)
        + [Masked(JsSlice(text, span.start, span.end), span, index)]
        + Walk(text, sorted, index + 1, span.end)
  }

  /** The cursor once the first `index` sorted spans are processed. */
  function Cursor(sorted: seq<Span>, index: nat): int
    requires index <= |sorted|
  {
    if index == 0 then 0 else sorted[index - 1].end
  }

  /** The trailing remainder, pushed only while the cursor is short of the end. */
  function Remainder(text: string, lastIndex: int): seq<Segment> {
    if lastIndex < |text| then [Plain(JsSlice(text, lastIndex, |text|))] else []
  }

  /** What `applyPIISpans(text, spans)` returns. */
  function Segments(text: string, spans: seq<Span>): seq<Segment> {
    if |spans| == 0 then [Plain(text)] else Cut(text, SortByStart(spans))
  }

  /** The segments of the walk over non-empty sorted spans, then the remainder. */
  function Cut(text: string, sorted: seq<Span>): seq<Segment> {
    Walk(text, sorted, 0, 0) + Remainder(text, Cursor(sorted, |sorted|))
  }

  lemma WalkStep(text: string, sorted: seq<Span>, index: nat, lastIndex: int)
    requires index < |sorted|
    ensures Walk(text, sorted, index, lastIndex)
      == Gap(text, lastIndex, sorted[index].start)
         + [Masked(JsSlice(text, sorted[index].start, sorted[index].end), sorted[index], index)]
         + Walk(text, sorted, index + 1, sorted[index].end)
  {
  }

  /** `applyPIISpans`: the whole text when there are no spans, else the walk over a sorted copy. */
  method ApplyPIISpans(text: string, spans: seq<Span>) returns (segments: seq<Segment>)
    ensures segments == Segments(text, spans)
  {
    if |spans| == 0 {
      return [Plain(text)];
    }
    var sorted := SortByStart(spans);
    segments := CutSorted(text, sorted);
  }

  /** The `forEach` over the sorted copy with its `lastIndex` cursor, then the remainder. */
  method CutSorted(text: string, sorted: seq<Span>) returns (segments: seq<Segment>)
    ensures segments == Cut(text, sorted)
  {
    segments := [];
    var lastIndex: int := 0;
    var index: nat := 0;
    while index < |sorted|
      invariant index <= |sorted|
      invariant lastIndex == Cursor(sorted, index)
      invariant segments + Walk(text, sorted, index, lastIndex) == Walk(text, sorted, 0, 0)
    {
      var span := sorted[index];
      ghost var before := segments;
      ghost var piece := Gap(text, lastIndex, span.start) + [Masked(JsSlice(text, span.start, span.end), span, index)];
      if span.start > lastIndex {
        segments := segments + [Plain(JsSlice(text, lastIndex, span.start))];
      }
      segments := segments + [Masked(JsSlice(text, span.start, span.end), span, index)];
      assert segments == before + piece;
      WalkStep(text, sorted, index, lastIndex);
      SegAssoc(before, piece, Walk(text, sorted, index + 1, span.end));
      lastIndex := span.end;
      index := index + 1;
    }
    if lastIndex < |text| {
      segments := segments + [Plain(JsSlice(text, lastIndex, |text|))];
    }
  }

  lemma SegAssoc(a: seq<Segment>, b: seq<Segment>, c: seq<Segment>)
    ensures a + (b + c) == (a + b) + c
  {
  }

  /** With no spans the whole text is one plain segment, even when the text is empty. */
  lemma NoSpansWholeText(text: string)
    ensures Segments(text, []) == [Plain(text)]
    ensures |Segments(text, [])| == 1
  {
  }

  /** The masked segments, in order. */
  function MaskedOnly(segs: seq<Segment>): (r: seq<Segment>)
    ensures |r| <= |segs|
    ensures forall k :: 0 <= k < |r| ==> r[k].Masked?
  {
    if segs == [] then []
    else (if segs[0].Masked? then [segs[0]] else []) + MaskedOnly(segs[1..])
  }

  lemma {:induction false} MaskedOnlyAppend(a: seq<Segment>, b: seq<Segment>)
    ensures MaskedOnly(a + b) == MaskedOnly(a) + MaskedOnly(b)
    decreases a
  {
    if a != [] {
      assert (a + b)[0] == a[0];
      assert (a + b)[1..] == a[1..] + b;
      MaskedOnlyAppend(a[1..], b);
    } else {
      assert a + b == b;
    }
  }

  /** A walk step contributes exactly its masked slice to the masked segments. */
  lemma WalkMaskedStep(text: string, sorted: seq<Span>, index: nat, lastIndex: int)
    requires index < |sorted|
    ensures MaskedOnly(Walk(text, sorted, index, lastIndex))
      == [Masked(JsSlice(text, sorted[index].start, sorted[index].end), sorted[index], index)]
         + MaskedOnly(Walk(text, sorted, index + 1, sorted[index].end))
  {
    var span := sorted[index];
    var m := Masked(JsSlice(text, span.start, span.end), span, index);
    var rest := Walk(text, sorted, index + 1, span.end);
    var g := Gap(text, lastIndex, span.start);
    WalkStep(text, sorted, index, lastIndex);
    MaskedOnlyAppend(g + [m], rest);
    MaskedOnlyAppend(g, [m]);
    assert MaskedOnly(g) == [] by {
      if span.start > lastIndex { assert MaskedOnly(g) == [] + MaskedOnly(g[1..]); }
    }
    assert MaskedOnly([m]) == [m] + MaskedOnly([]);
  }

  /** The masked segment each sorted span should produce: its slice, the span, its position. */
  function Masks(text: string, sorted: seq<Span>): (r: seq<Segment>)
    ensures |r| == |sorted|
  {
    seq(|sorted|, k requires 0 <= k < |sorted| => Masked(JsSlice(text, sorted[k].start, sorted[k].end), sorted[k], k))
  }

  /** The masked segments of a walk are the remaining spans, one each, in order. */
  lemma {:induction false} WalkMasked(text: string, sorted: seq<Span>, index: nat, lastIndex: int)
    requires index <= |sorted|
    ensures MaskedOnly(Walk(text, sorted, index, lastIndex)) == Masks(text, sorted)[index..]
    decreases |sorted| - index
  {
    if index < |sorted| {
      WalkMaskedStep(text, sorted, index, lastIndex);
      WalkMasked(text, sorted, index + 1, sorted[index].end);
      var all := Masks(text, sorted);
      assert all[index..] == [all[index]] + all[index + 1..];
    }
  }

  /** The masked segments of a cut are the sorted spans, one each, in order. */
  lemma CutMasked(text: string, sorted: seq<Span>)
    ensures MaskedOnly(Cut(text, sorted)) == Masks(text, sorted)
  {
    var last := Cursor(sorted, |sorted|);
    WalkMasked(text, sorted, 0, 0);
    MaskedOnlyAppend(Walk(text, sorted, 0, 0), Remainder(text, last));
    assert MaskedOnly(Remainder(text, last)) == [] by {
      if last < |text| {
        assert MaskedOnly(Remainder(text, last)) == [] + MaskedOnly([]);
      }
    }
  }

  /**
   * One masked segment per span, in the order of the stably sorted copy (so by ascending
   * start, and a permutation of the caller's spans, which are themselves left as they are);
   * the k-th masked segment shows `text.slice(start, end)` of its span and has index k.
   */
  lemma MaskedInOrder(text: string, spans: seq<Span>)
    requires spans != []
    ensures MaskedOnly(Segments(text, spans)) == Masks(text, SortByStart(spans))
    ensures |MaskedOnly(Segments(text, spans))| == |spans|
  {
    CutMasked(text, SortByStart(spans));
  }

  /** A masked segment of a span inside the text shows exactly `text[start..end)`. */
  lemma MaskedTextInBounds(text: string, spans: seq<Span>, k: nat)
    requires spans != [] && k < |spans|
    requires AllWellFormed(spans, |text|)
    ensures k < |MaskedOnly(Segments(text, spans))|
      && WellFormed(SortByStart(spans)[k], |text|)
      && MaskedOnly(Segments(text, spans))[k].text
           == text[SortByStart(spans)[k].start..SortByStart(spans)[k].end]
  {
    MaskedInOrder(text, spans);
    SortedWellFormed(spans, |text|);
  }

  /** A walk over spans inside the text pushes no empty plain segment. */
  lemma {:induction false} WalkPlainNonEmpty(text: string, sorted: seq<Span>, index: nat, lastIndex: int)
    requires index <= |sorted| && 0 <= lastIndex
    requires forall k :: index <= k < |sorted| ==> WellFormed(sorted[k], |text|)
    ensures forall j :: (0 <= j < |Walk(text, sorted, index, lastIndex)|
                         && Walk(text, sorted, index, lastIndex)[j].Plain?)
                        ==> Walk(text, sorted, index, lastIndex)[j].text != []
    decreases |sorted| - index
  {
    if index < |sorted| {
      var span := sorted[index];
      WalkPlainNonEmpty(text, sorted, index + 1, span.end);
      var g := Gap(text, lastIndex, span.start);
      var m := [Masked(JsSlice(text, span.start, span.end), span, index)];
      var rest := Walk(text, sorted, index + 1, span.end);
      if span.start > lastIndex {
        assert g[0].text == text[lastIndex..span.start];
      }
      forall j | 0 <= j < |g + m + rest| && (g + m + rest)[j].Plain?
        ensures (g + m + rest)[j].text != []
      {
        if j >= |g + m| {
          assert (g + m + rest)[j] == rest[j - |g + m|];
        }
      }
    }
  }

  lemma CutPlainNonEmpty(text: string, sorted: seq<Span>)
    requires sorted != [] && AllWellFormed(sorted, |text|)
    ensures forall j :: (0 <= j < |Cut(text, sorted)| && Cut(text, sorted)[j].Plain?)
                        ==> Cut(text, sorted)[j].text != []
  {
    WalkPlainNonEmpty(text, sorted, 0, 0);
    var w := Walk(text, sorted, 0, 0);
    var last := Cursor(sorted, |sorted|);
    assert 0 < last <= |text| by { assert WellFormed(sorted[|sorted| - 1], |text|); }
    var rem := Remainder(text, last);
    if last < |text| {
      assert rem[0].text == text[last..|text|];
    }
    forall j | 0 <= j < |w + rem| && (w + rem)[j].Plain? ensures (w + rem)[j].text != [] {
      if j < |w| { assert (w + rem)[j] == w[j]; }
    }
  }

  /** When there are spans and all lie inside the text, every plain segment is non-empty. */
  lemma PlainSegmentsNonEmpty(text: string, spans: seq<Span>)
    requires spans != [] && AllWellFormed(spans, |text|)
    ensures forall j :: (0 <= j < |Segments(text, spans)| && Segments(text, spans)[j].Plain?)
                        ==> Segments(text, spans)[j].text != []
  {
    SortedWellFormed(spans, |text|);
    CutPlainNonEmpty(text, SortByStart(spans));
  }

  /** Sorting keeps every span inside the text. */
  lemma SortedWellFormed(spans: seq<Span>, n: int)
    requires AllWellFormed(spans, n)
    ensures AllWellFormed(SortByStart(spans), n)
  {
    var sorted := SortByStart(spans);
    forall k | 0 <= k < |sorted| ensures WellFormed(sorted[k], n) {
      assert sorted[k] in multiset(spans);
      var i :| 0 <= i < |spans| && spans[i] == sorted[k];
      assert WellFormed(spans[i], n);
    }
  }

  /** The texts of the segments, joined in order. */
  function Concat(segs: seq<Segment>): string {
    if segs == [] then [] else segs[0].text + Concat(segs[1..])
  }

  lemma {:induction false} ConcatAppend(a: seq<Segment>, b: seq<Segment>)
    ensures Concat(a + b) == Concat(a) + Concat(b)
    decreases a
  {
    if a != [] {
      assert (a + b)[0] == a[0];
      assert (a + b)[1..] == a[1..] + b;
      ConcatAppend(a[1..], b);
    } else {
      assert a + b == b;
    }
  }

  lemma SliceJoin(text: string, a: nat, b: nat, c: nat)
    requires a <= b <= c <= |text|
    ensures text[a..b] + text[b..c] == text[a..c]
  {
  }

  /** Consecutive sorted spans do not overlap. */
  predicate Chained(sorted: seq<Span>) {
    forall k :: 0 <= k < |sorted| - 1 ==> sorted[k].end <= sorted[k + 1].start
  }

  /** A walk over chained in-bounds spans spells out the text from the cursor to the last end. */
  lemma {:induction false} WalkCovers(text: string, sorted: seq<Span>, index: nat, lastIndex: int)
    requires index < |sorted| && 0 <= lastIndex <= sorted[index].start
    requires forall k :: index <= k < |sorted| ==> WellFormed(sorted[k], |text|)
    requires Chained(sorted)
    ensures lastIndex <= sorted[|sorted| - 1].end <= |text|
    ensures Concat(Walk(text, sorted, index, lastIndex)) == text[lastIndex..sorted[|sorted| - 1].end]
    decreases |sorted| - index
  {
    var span := sorted[index];
    assert WellFormed(span, |text|);
    var g := Gap(text, lastIndex, span.start);
    var m := [Masked(JsSlice(text, span.start, span.end), span, index)];
    var rest := Walk(text, sorted, index + 1, span.end);
    ConcatAppend(g + m, rest);
    ConcatAppend(g, m);
    assert Concat(g) == text[lastIndex..span.start];
    assert Concat(m) == text[span.start..span.end];
    SliceJoin(text, lastIndex, span.start, span.end);
    if index + 1 < |sorted| {
      WalkCovers(text, sorted, index + 1, span.end);
      SliceJoin(text, lastIndex, span.end, sorted[|sorted| - 1].end);
    } else {
      assert Concat(rest) == [];
    }
  }

  /** Chained spans inside the text: the cut spells out the text. */
  lemma CutCovers(text: string, sorted: seq<Span>)
    requires sorted != [] && AllWellFormed(sorted, |text|) && Chained(sorted)
    ensures Concat(Cut(text, sorted)) == text
  {
    assert WellFormed(sorted[0], |text|);
    WalkCovers(text, sorted, 0, 0);
    var last := Cursor(sorted, |sorted|);
    var rem := Remainder(text, last);
    ConcatAppend(Walk(text, sorted, 0, 0), rem);
    if last < |text| {
      assert Concat(rem) == text[last..|text|] + Concat([]);
      SliceJoin(text, 0, last, |text|);
    } else {
      assert Concat(rem) == [];
    }
  }

  /**
   * Pairwise disjoint, non-empty spans inside the text: the segment texts, joined in order,
   * are the text itself.
   */
  lemma Coverage(text: string, spans: seq<Span>)
    requires AllWellFormed(spans, |text|)
    requires forall i, j :: 0 <= i < j < |spans| ==> Apart(spans[i], spans[j])
    ensures Concat(Segments(text, spans)) == text
  {
    if spans == [] {
      assert Concat([Plain(text)]) == text + Concat([]);
    } else {
      var sorted := SortByStart(spans);
      SortedWellFormed(spans, |text|);
      forall i, j | 0 <= i < j < |sorted| ensures Apart(sorted[i], sorted[j]) {
        PermutedApart(spans, sorted, i, j);
      }
      Chain(sorted, |text|);
      CutCovers(text, sorted);
    }
  }

  /** Sorted, pairwise disjoint spans inside a text are chained. */
  lemma Chain(sorted: seq<Span>, n: int)
    requires SortedByStart(sorted) && AllWellFormed(sorted, n)
    requires forall i, j :: 0 <= i < j < |sorted| ==> Apart(sorted[i], sorted[j])
    ensures Chained(sorted)
  {
    forall k | 0 <= k < |sorted| - 1 ensures sorted[k].end <= sorted[k + 1].start {
      assert Apart(sorted[k], sorted[k + 1]);
      assert WellFormed(sorted[k + 1], n);
    }
  }

  /**
   * Overlapping spans break coverage: when a span over the whole text is followed by one
   * nested inside it, the nested slice and everything after it are shown a second time.
   */
  lemma NestedRepeatsText(text: string, outer: Span, inner: Span)
    requires outer.start == 0 && outer.end == |text|
    requires 0 < inner.start < inner.end < |text|
    ensures Concat(Segments(text, [outer, inner])) == text + text[inner.start..]
  {
    var spans := [outer, inner];
    SortedPair(outer, inner);
    assert Segments(text, spans) == Cut(text, spans);
    CutNested(text, spans);
    ConcatNested(text, outer, inner);
  }

  lemma ConcatNested(text: string, outer: Span, inner: Span)
    requires 0 < inner.start < inner.end < |text|
    ensures Concat([Masked(text[0..|text|], outer, 0)]
               + ([Masked(text[inner.start..inner.end], inner, 1)] + [Plain(text[inner.end..|text|])]))
      == text + text[inner.start..]
  {
    var m0 := Masked(text[0..|text|], outer, 0);
    var m1 := Masked(text[inner.start..inner.end], inner, 1);
    var tail := Plain(text[inner.end..|text|]);
    ConcatAppend([m0], [m1] + [tail]);
    ConcatAppend([m1], [tail]);
    assert Concat([m0]) == text[0..|text|] + Concat([]);
    assert Concat([m1]) == text[inner.start..inner.end] + Concat([]);
    assert Concat([tail]) == text[inner.end..|text|] + Concat([]);
    assert text[inner.start..inner.end] + text[inner.end..|text|] == text[inner.start..];
  }

  lemma SortedPair(a: Span, b: Span)
    requires a.start <= b.start
    ensures SortByStart([a, b]) == [a, b]
  {
    assert [a, b][1..] == [b];
    assert SortByStart([b]) == Insert(b, SortByStart([]));
  }

  lemma CutNested(text: string, spans: seq<Span>)
    requires |spans| == 2 && spans[0].start == 0 && spans[0].end == |text|
    requires 0 < spans[1].start < spans[1].end < |text|
    ensures Cut(text, spans)
      == [Masked(text[0..|text|], spans[0], 0)]
         + ([Masked(text[spans[1].start..spans[1].end], spans[1], 1)] + [Plain(text[spans[1].end..|text|])])
  {
    WalkStep(text, spans, 0, 0);
    WalkStep(text, spans, 1, |text|);
  }

  /**
   * Spans of the shape the detector keeps in `Resolver.OverlapSortedSurvives`, an email over `[0, 32)`
   * and a phone over `[13, 25)` inside it, render 51 characters for a 32-character text.
   */
  lemma OverlapRepeatsText(text: string)
    requires |text| == 32
    ensures Concat(Segments(text, [Span(0, 32, Email), Span(13, 25, Phone)])) == text + text[13..]
    ensures |Concat(Segments(text, [Span(0, 32, Email), Span(13, 25, Phone)]))| == 51
  {
    NestedRepeatsText(text, Span(0, 32, Email), Span(13, 25, Phone));
  }

  /** The React key of a masked segment: `pii-${start}-${end}-${index}`. */
  function Key(seg: Segment): (int, int, int)
    requires seg.Masked?
  {
    (seg.span.start, seg.span.end, seg.index)
  }

  /**
   * The keys of the masked segments are distinct even when two spans are equal, because the
   * key includes the position in the sorted list; they say nothing about the content.
   */
  lemma KeysDistinct(text: string, spans: seq<Span>)
    requires spans != []
    ensures forall i, j :: 0 <= i < j < |MaskedOnly(Segments(text, spans))|
                           ==> Key(MaskedOnly(Segments(text, spans))[i]) != Key(MaskedOnly(Segments(text, spans))[j])
  {
    MaskedInOrder(text, spans);
  }

  /**
   * One rendered spoiler with its own `isRevealed` state. `clicks` counts the clicks since
   * mount, so `Valid` says that the slice is revealed exactly after an odd number of them.
   */
  class Spoiler {
    const text: string
    const kind: PiiType
    var isRevealed: bool
    ghost var clicks: nat

    ghost predicate Valid()
      reads this
    {
      isRevealed <==> clicks % 2 == 1
    }

    /** A spoiler mounts hidden. */
    constructor(text: string, kind: PiiType)
      ensures Valid() && !isRevealed && clicks == 0
      ensures this.text == text && this.kind == kind
    {
      this.text := text;
      this.kind := kind;
      isRevealed := false;
      clicks := 0;
    }

    /** A click while revealed hides; a click while hidden reveals. */
    method Click()
      requires Valid()
      modifies this
      ensures Valid() && clicks == old(clicks) + 1
      ensures isRevealed == !old(isRevealed)
    {
      if isRevealed {
        isRevealed := false;
      } else {
        isRevealed := true;
      }
      clicks := clicks + 1;
    }

    /** The hover title of each state. */
    function Title(): string
      reads this
    {
      if isRevealed then "Click to hide" else TypeName(kind) + " - Click to reveal"
    }
  }

  /** The state a spoiler is in after `clicks` clicks since mount. */
  function RevealedAfter(clicks: nat): bool {
    if clicks == 0 then false else !RevealedAfter(clicks - 1)
  }

  /** Two clicks restore the state, and the slice is revealed exactly after an odd count. */
  lemma {:induction false} TwoClicksRestore(clicks: nat)
    ensures RevealedAfter(clicks + 2) == RevealedAfter(clicks)
    ensures RevealedAfter(clicks) <==> clicks % 2 == 1
  {
    if clicks > 0 {
      TwoClicksRestore(clicks - 1);
    }
  }
}
