/**
 * The three matchers of `detectPII`: the email and phone regexes (run by the backtracking
 * matcher of module Regex), the name regex (a direct scanner), and the `exec` loop that
 * collects every match left to right.
 */
module Matchers {
  import opened Wrappers
  import opened Chars
  import opened PiiSpans
  import opened Regex

  /** `\b[A-Za-z0-9._%+-]+@[A-Za-z0-9.-]+\.[A-Z|a-z]{2,}\b` */
  const EmailPattern: seq<Node> := [
    WordBoundary,
    One(EmailLocal), Many(EmailLocal),
    One(Exactly('@')),
    One(EmailDomain), Many(EmailDomain),
    One(Exactly('.')),
    One(EmailTld), One(EmailTld), Many(EmailTld),
    WordBoundary
  ]

  /** `\b(\+?1[-.\s]?)?\(?([0-9]{3})\)?[-.\s]?([0-9]{3})[-.\s]?([0-9]{4})\b` */
  const PhonePattern: seq<Node> := [
    WordBoundary,
    Optional([Optional([One(Exactly('+'))]), One(Exactly('1')), Optional([One(Separator)])]),
    Optional([One(Exactly('('))]),
    One(Digit), One(Digit), One(Digit),
    Optional([One(Exactly(')'))]),
    Optional([One(Separator)]),
    One(Digit), One(Digit), One(Digit),
    Optional([One(Separator)]),
    One(Digit), One(Digit), One(Digit), One(Digit),
    WordBoundary
  ]

  /** `t[i..j]` is all lower-case letters. */
  predicate LowerRun(t: seq<char>, i: nat, j: nat)
    requires i <= j <= |t|
  {
    forall k :: i <= k < j ==> IsLower(t[k])
  }

  /** `t[i..j]` is all `\s` characters. */
  predicate SpaceRun(t: seq<char>, i: nat, j: nat)
    requires i <= j <= |t|
  {
    forall k :: i <= k < j ==> IsJsSpace(t[k])
  }

  /** The end of the maximal run of lower-case letters starting at `i`. */
  function LowerRunEnd(t: seq<char>, i: nat): (r: nat)
    requires i <= |t|
    ensures i <= r <= |t|
    ensures LowerRun(t, i, r)
    ensures r == |t| || !IsLower(t[r])
    decreases |t| - i
  {
    if i < |t| && IsLower(t[i]) then LowerRunEnd(t, i + 1) else i
  }

  /** The end of the maximal run of `\s` characters starting at `i`. */
  function SpaceRunEnd(t: seq<char>, i: nat): (r: nat)
    requires i <= |t|
    ensures i <= r <= |t|
    ensures SpaceRun(t, i, r)
    ensures r == |t| || !IsJsSpace(t[r])
    decreases |t| - i
  {
    if i < |t| && IsJsSpace(t[i]) then SpaceRunEnd(t, i + 1) else i
  }

  /**
   * `t[p..f]` matches `\b([A-Z][a-z]+)\s+([A-Z][a-z]+)\b`, the first word being `t[p..m]`
   * and the second `t[s..f]`.
   */
  predicate NameShape(t: seq<char>, p: nat, m: nat, s: nat, f: nat) {
    && p + 1 < m < s && s + 1 < f <= |t|
    && IsBoundary(t, p) && IsUpper(t[p])
    && LowerRun(t, p + 1, m)
    && SpaceRun(t, m, s)
    && IsUpper(t[s])
    && LowerRun(t, s + 1, f)
    && IsBoundary(t, f)
  }

  lemma {:induction false} LowerRunEndAt(t: seq<char>, i: nat, m: nat)
    requires i <= m <= |t|
    requires LowerRun(t, i, m)
    requires m == |t| || !IsLower(t[m])
    ensures LowerRunEnd(t, i) == m
    decreases m - i
  {
    if i < m { LowerRunEndAt(t, i + 1, m); }
  }

  lemma {:induction false} SpaceRunEndAt(t: seq<char>, i: nat, m: nat)
    requires i <= m <= |t|
    requires SpaceRun(t, i, m)
    requires m == |t| || !IsJsSpace(t[m])
    ensures SpaceRunEnd(t, i) == m
    decreases m - i
  {
    if i < m { SpaceRunEndAt(t, i + 1, m); }
  }

  datatype NameParts = NameParts(firstEnd: nat, secondStart: nat, end: nat)

  /**
   * The name regex at position `p`: each run is taken greedily. `NameAtComplete` shows that
   * no other match exists, so this is the one `exec` reports.
   */
  function NameAt(t: seq<char>, p: nat): (r: Option<NameParts>)
    requires p <= |t|
    ensures r.Some? ==> NameShape(t, p, r.value.firstEnd, r.value.secondStart, r.value.end)
  {
    if p < |t| && IsBoundary(t, p) && IsUpper(t[p]) then
      var m := LowerRunEnd(t, p + 1);
      var s := SpaceRunEnd(t, m);
      if m > p + 1 && s > m && s < |t| && IsUpper(t[s]) then
        var f := LowerRunEnd(t, s + 1);
        if f > s + 1 && IsBoundary(t, f) then Some(NameParts(m, s, f)) else None
      else None
    else None
  }

  /** Every way `t[p..f]` can match the name regex is the one `NameAt` finds. */
  lemma NameAtComplete(t: seq<char>, p: nat, m: nat, s: nat, f: nat)
    requires p <= |t| && NameShape(t, p, m, s, f)
    ensures NameAt(t, p) == Some(NameParts(m, s, f))
  {
    LowerRunEndAt(t, p + 1, m);
    SpaceRunEndAt(t, m, s);
    LowerRunEndAt(t, s + 1, f);
    assert p < |t| && IsBoundary(t, p) && IsUpper(t[p]);
    assert m > p + 1 && s > m && s < |t| && IsUpper(t[s]);
    assert f > s + 1 && IsBoundary(t, f);
  }

  /** The three rules in the order `detectPII` runs them. */
  datatype Rule = EmailRule | PhoneRule | NameRule

  function KindOf(rule: Rule): (k: PiiType)
    ensures Detectable(k)
  {
    match rule
    case EmailRule => Email
    case PhoneRule => Phone
    case NameRule => Name
  }

  /** A match of one rule: `[start, end)`, with `groupEnd` the end of capture group 1 for names. */
  datatype Hit = Hit(start: nat, end: nat, groupEnd: nat)

  /** What the rule's regex matches when tried exactly at position `p`. */
  function MatchAt(rule: Rule, t: seq<char>, p: nat): (r: Option<Hit>)
    requires p <= |t|
    ensures r.Some? ==> r.value.start == p < r.value.groupEnd <= r.value.end <= |t|
  {
    if rule == NameRule then NameHit(t, p)
    else
      PatternsConsume();
      PatternHit(PatternOf(rule), t, p)
  }

  /** Every match of the name shape at `p` is the one `NameAt` finds. */
  lemma NameAtCompleteAll(t: seq<char>, p: nat)
    requires p <= |t|
    ensures forall m, s, f :: NameShape(t, p, m, s, f) ==> NameAt(t, p) == Some(NameParts(m, s, f))
  {
    forall m, s, f | NameShape(t, p, m, s, f) ensures NameAt(t, p) == Some(NameParts(m, s, f)) {
      NameAtComplete(t, p, m, s, f);
    }
  }

  /**
   * A match of the name regex at `p`: the hit covers the whole match and capture group 1,
   * the first word, ends at `groupEnd`; there is a hit exactly where the name shape matches.
   */
  function NameHit(t: seq<char>, p: nat): (r: Option<Hit>)
    requires p <= |t|
    ensures r.Some? ==> r.value.start == p < r.value.groupEnd <= r.value.end <= |t|
    ensures r.Some? ==> exists s :: NameShape(t, p, r.value.groupEnd, s, r.value.end)
    ensures forall m, s, f :: NameShape(t, p, m, s, f) ==> r == Some(Hit(p, f, m))
    ensures r.Some? <==> NameAt(t, p).Some?
  {
    NameAtCompleteAll(t, p);
    match NameAt(t, p)
    case Some(parts) =>
      assert NameShape(t, p, parts.firstEnd, parts.secondStart, parts.end);
      Some(Hit(p, parts.end, parts.firstEnd))
    case None => None
  }

  /** Whenever the pattern matches at `i` with some end, the search finds a match at `i`. */
  lemma MatchCompleteAll(ns: seq<Node>, t: seq<char>, i: nat)
    requires i <= |t|
    ensures forall j :: i <= j <= |t| && Matches(ns, t, i, j) ==> Match(ns, t, i).Some?
  {
    forall j | i <= j <= |t| && Matches(ns, t, i, j) ensures Match(ns, t, i).Some? {
      MatchComplete(ns, t, i, j);
    }
  }

  /**
   * A match of a pattern that consumes at least one character; the whole match is the group.
   * A hit is a match of the pattern over `[p, end)`, and there is one wherever the pattern
   * matches at `p`.
   */
  function PatternHit(ns: seq<Node>, t: seq<char>, p: nat): (r: Option<Hit>)
    requires p <= |t| && MinLength(ns) > 0
    ensures r.Some? ==> r.value.start == p < r.value.groupEnd == r.value.end <= |t|
    ensures r.Some? ==> Matches(ns, t, p, r.value.end)
    ensures forall j :: p <= j <= |t| && Matches(ns, t, p, j) ==> r.Some?
  {
    MatchSound(ns, t, p);
    MatchCompleteAll(ns, t, p);
    match Match(ns, t, p)
    case Some(j) => Some(Hit(p, j, j))
    case None => None
  }

  /** Every match of the email or phone pattern is non-empty. */
  lemma PatternsConsume()
    ensures MinLength(EmailPattern) > 0 && MinLength(PhonePattern) > 0
  {
  }

  function PatternOf(rule: Rule): seq<Node> {
    if rule == PhoneRule then PhonePattern else EmailPattern
  }

  /**
   * A table of attempts, one per position: the entry at `p` is what the regex matches when
   * tried exactly at `p`. The last position is the end of the text.
   */
  predicate Sticky(hits: seq<Option<Hit>>) {
    forall p :: 0 <= p < |hits| && hits[p].Some? ==>
      hits[p].value.start == p < hits[p].value.groupEnd <= hits[p].value.end < |hits|
  }

  /** The rule's regex tried at every position `0..|t|` of `t`. */
  function Attempts(rule: Rule, t: seq<char>): (r: seq<Option<Hit>>)
    ensures |r| == |t| + 1 && Sticky(r)
    ensures forall p :: 0 <= p <= |t| ==> r[p] == MatchAt(rule, t, p)
  {
    seq(|t| + 1, p requires 0 <= p <= |t| => MatchAt(rule, t, p))
  }

  /** The leftmost successful attempt at or after `from`. */
  function Search(hits: seq<Option<Hit>>, from: nat): (r: Option<Hit>)
    requires Sticky(hits) && from < |hits|
    ensures r.Some? ==> from <= r.value.start < |hits| && hits[r.value.start] == r
    decreases |hits| - from
  {
    if hits[from].Some? then hits[from]
    else if from == |hits| - 1 then None
    else Search(hits, from + 1)
  }

  /** `Search` skips nothing: a successful attempt at `q >= from` means one is found at or before `q`. */
  lemma {:induction false} SearchLeftmost(hits: seq<Option<Hit>>, from: nat, q: nat)
    requires Sticky(hits) && from <= q < |hits|
    ensures hits[q].Some? ==> Search(hits, from).Some? && Search(hits, from).value.start <= q
    decreases q - from
  {
    if from < q && hits[from].None? {
      SearchLeftmost(hits, from + 1, q);
    }
  }

  /** `re.exec(text)` with `lastIndex == from`: the leftmost position at or after `from` where the rule matches. */
  function FindFrom(rule: Rule, t: seq<char>, from: nat): (r: Option<Hit>)
    requires from <= |t|
    ensures r.Some? ==> from <= r.value.start < r.value.groupEnd <= r.value.end <= |t|
    ensures r.Some? ==> MatchAt(rule, t, r.value.start) == r
  {
    Search(Attempts(rule, t), from)
  }

  /** No match is skipped: a match at `q >= from` means `exec` reports one at or before `q`. */
  lemma FindFromLeftmost(rule: Rule, t: seq<char>, from: nat, q: nat)
    requires from <= q <= |t|
    ensures MatchAt(rule, t, q).Some? ==>
      FindFrom(rule, t, from).Some? && FindFrom(rule, t, from).value.start <= q
  {
    SearchLeftmost(Attempts(rule, t), from, q);
  }

  /** A position where the rule does not match is passed over: `exec` from there is `exec` from the next one. */
  lemma FindFromSkip(rule: Rule, t: seq<char>, p: nat)
    requires p < |t| && MatchAt(rule, t, p).None?
    ensures FindFrom(rule, t, p) == FindFrom(rule, t, p + 1)
  {
  }

  const Stoplist: seq<string> := ["The", "This", "That", "There", "They", "Then"]

  /** Every hit yields a span except a name whose first word is on the stoplist. */
  predicate Accepted(rule: Rule, t: seq<char>, h: Hit)
    requires h.start <= h.groupEnd <= |t|
  {
    rule != NameRule || t[h.start..h.groupEnd] !in Stoplist
  }

  /** The spans of one hit: one span, or none for a stoplisted name. */
  function Pushed(rule: Rule, t: seq<char>, h: Hit): (r: seq<Span>)
    requires h.start <= h.groupEnd <= |t|
    ensures |r| <= 1
  {
    if Accepted(rule, t, h) then [Span(h.start, h.end, KindOf(rule))] else []
  }

  /**
   * The exec loop over a table of attempts for `t`, starting at `from`: each search resumes
   * at the end of the previous match, whether or not that match was accepted.
   */
  function Collect(rule: Rule, t: seq<char>, hits: seq<Option<Hit>>, from: nat): (r: seq<Span>)
    requires |hits| == |t| + 1 && Sticky(hits) && from <= |t|
    ensures forall i :: 0 <= i < |r| ==> from <= r[i].start && WellFormed(r[i], |t|)
    ensures forall i :: 0 <= i < |r| ==> r[i].kind == KindOf(rule)
    ensures forall i :: 0 < i < |r| ==> r[i - 1].end <= r[i].start
    decreases |t| - from
  {
    match Search(hits, from)
    case None => []
    case Some(h) =>
      Pushed(rule, t, h) + Collect(rule, t, hits, h.end)
  }

  /**
   * The spans the `while ((match = re.exec(text)) !== null)` loop pushes, starting with
   * `lastIndex == from`: they lie after `from`, inside the text, are non-empty, all of the
   * rule's kind, and each starts at or after the end of the one before.
   */
  function Scan(rule: Rule, t: seq<char>, from: nat): (r: seq<Span>)
    requires from <= |t|
    ensures forall i :: 0 <= i < |r| ==> from <= r[i].start && WellFormed(r[i], |t|)
    ensures forall i :: 0 <= i < |r| ==> r[i].kind == KindOf(rule)
    ensures forall i :: 0 < i < |r| ==> r[i - 1].end <= r[i].start
  {
    Collect(rule, t, Attempts(rule, t), from)
  }

  /** One round of the loop: the hit found from `from`, then the search from its end. */
  lemma ScanStep(rule: Rule, t: seq<char>, from: nat)
    requires from <= |t| && FindFrom(rule, t, from).Some?
    ensures var h := FindFrom(rule, t, from).value;
      Scan(rule, t, from) == Pushed(rule, t, h) + Scan(rule, t, h.end)
  {
  }

  /** When nothing more matches, the loop ends. */
  lemma ScanDone(rule: Rule, t: seq<char>, from: nat)
    requires from <= |t| && FindFrom(rule, t, from).None?
    ensures Scan(rule, t, from) == []
  {
  }
}
