/**
 * `detectPII`: run the email, phone and name matchers in that order, concatenate their
 * spans, stable-sort by start and drop every span that starts before its sorted predecessor
 * ends.
 */
module PiiDetector {
  import opened Wrappers
  import opened Chars
  import opened PiiSpans
  import opened Regex
  import opened Matchers
  import opened Resolver

  /** The array `spans` after the three matcher loops, in push order. */
  function RawSpans(text: string): seq<Span> {
    Scan(EmailRule, text, 0) + Scan(PhoneRule, text, 0) + Scan(NameRule, text, 0)
  }

  /** The value `detectPII(text)` returns. */
  function Detect(text: string): seq<Span> {
    Resolve(SortByStart(RawSpans(text)))
  }

  /** One `while ((match = re.exec(text)) !== null)` loop, pushing a span per accepted match. */
  method ExecAll(rule: Rule, text: string) returns (found: seq<Span>)
    ensures found == Scan(rule, text, 0)
  {
    found := [];
    var lastIndex: nat := 0;
    var next := FindFrom(rule, text, lastIndex);
    while next.Some?
      invariant lastIndex <= |text|
      invariant next == FindFrom(rule, text, lastIndex)
      invariant found + Scan(rule, text, lastIndex) == Scan(rule, text, 0)
      decreases |text| - lastIndex
    {
      var hit := next.value;
      ScanStep(rule, text, lastIndex);
      AppendAssoc(found, Pushed(rule, text, hit), Scan(rule, text, hit.end));
      ghost var before := found;
      if Accepted(rule, text, hit) {
        found := found + [Span(hit.start, hit.end, KindOf(rule))];
      }
      assert found == before + Pushed(rule, text, hit);
      lastIndex := hit.end;
      next := FindFrom(rule, text, lastIndex);
    }
    ScanDone(rule, text, lastIndex);
  }

  lemma AppendAssoc(a: seq<Span>, b: seq<Span>, c: seq<Span>)
    ensures a + (b + c) == (a + b) + c
  {
  }

  method DetectPII(text: string) returns (result: seq<Span>)
    ensures result == Detect(text)
    ensures forall i :: 0 <= i < |result| ==> WellFormed(result[i], |text|) && Detectable(result[i].kind)
    ensures forall i, j :: 0 <= i < j < |result| ==> result[i].start < result[j].start
  {
    var emails := ExecAll(EmailRule, text);
    var phones := ExecAll(PhoneRule, text);
    var names := ExecAll(NameRule, text);
    var spans := emails + phones + names;
    result := Resolve(SortByStart(spans));
    DetectWellFormed(text);
    DetectStrictlySorted(text);
  }

  lemma RawWellFormed(text: string)
    ensures forall x :: x in RawSpans(text) ==> WellFormed(x, |text|) && Detectable(x.kind)
  {
    ScanMembers(EmailRule, text);
    ScanMembers(PhoneRule, text);
    ScanMembers(NameRule, text);
  }

  /** Every span of one matcher loop lies in the text and has the rule's kind. */
  lemma ScanMembers(rule: Rule, text: string)
    ensures forall x :: x in Scan(rule, text, 0) ==> WellFormed(x, |text|) && x.kind == KindOf(rule)
  {
  }

  /** Every detected span lies inside the text, is non-empty, and is an email, phone or name span. */
  lemma DetectWellFormed(text: string)
    ensures forall i :: 0 <= i < |Detect(text)| ==> WellFormed(Detect(text)[i], |text|) && Detectable(Detect(text)[i].kind)
  {
    RawWellFormed(text);
    ResolvedWellFormed(RawSpans(text), |text|);
  }

  lemma ResolvedWellFormed(raw: seq<Span>, n: int)
    requires forall x :: x in raw ==> WellFormed(x, n) && Detectable(x.kind)
    ensures forall i :: 0 <= i < |Resolve(SortByStart(raw))| ==>
      WellFormed(Resolve(SortByStart(raw))[i], n) && Detectable(Resolve(SortByStart(raw))[i].kind)
  {
    SortResolveMembers(raw);
  }

  /** The result is sorted by start with no two spans sharing a start. */
  lemma DetectStrictlySorted(text: string)
    ensures forall i, j :: 0 <= i < j < |Detect(text)| ==> Detect(text)[i].start < Detect(text)[j].start
  {
    RawWellFormed(text);
    SortResolveStrictlySorted(RawSpans(text));
  }

  /**
   * The result is a subsequence of the stable-sorted raw spans; the sorted span at `i` is
   * kept exactly when `i == 0` or it starts at or after the end of the sorted span at `i - 1`,
   * kept or not.
   */
  lemma DetectKeepsByPredecessor(text: string, sorted: seq<Span>)
    requires sorted == SortByStart(RawSpans(text))
    ensures |KeptIndices(sorted, |sorted|)| == |Detect(text)|
    ensures forall j :: 0 <= j < |KeptIndices(sorted, |sorted|)| ==>
      KeptIndices(sorted, |sorted|)[j] < |sorted| && Detect(text)[j] == sorted[KeptIndices(sorted, |sorted|)[j]]
    ensures forall j, j' :: 0 <= j < j' < |KeptIndices(sorted, |sorted|)| ==>
      KeptIndices(sorted, |sorted|)[j] < KeptIndices(sorted, |sorted|)[j']
    ensures forall i :: 0 <= i < |sorted| ==>
      (i in KeptIndices(sorted, |sorted|) <==> (i == 0 || sorted[i].start >= sorted[i - 1].end))
  {
    ResolveByPredecessor(sorted);
  }

  /** If anything matched, the first span in sorted order is always reported. */
  lemma DetectKeepsFirst(text: string)
    requires RawSpans(text) != []
    ensures Detect(text) != [] && Detect(text)[0] == SortByStart(RawSpans(text))[0]
  {
    FirstIsKept(SortByStart(RawSpans(text)));
  }

  /** When the raw spans are pairwise disjoint, nothing is dropped. */
  lemma DetectKeepsDisjoint(text: string)
    requires forall i, j :: 0 <= i < j < |RawSpans(text)| ==> Apart(RawSpans(text)[i], RawSpans(text)[j])
    ensures Detect(text) == SortByStart(RawSpans(text))
  {
    RawWellFormed(text);
    SortResolveDisjoint(RawSpans(text));
  }

  /**
   * The first span with start `k` in the push order `e + p + n` comes from `e` when `e` has
   * one, and otherwise from `p` when `p` has one.
   */
  lemma PushOrderHead(e: seq<Span>, p: seq<Span>, n: seq<Span>, k: int)
    ensures (exists y :: y in e && y.start == k) ==>
      WithStart(e + p + n, k) != [] && WithStart(e + p + n, k)[0] in e
    ensures ((forall y :: y in e ==> y.start != k) && (exists y :: y in p && y.start == k)) ==>
      WithStart(e + p + n, k) != [] && WithStart(e + p + n, k)[0] in p
  {
    WithStartAppend(e + p, n, k);
    WithStartAppend(e, p, k);
    var ek, pk, nk := WithStart(e, k), WithStart(p, k), WithStart(n, k);
    assert WithStart(e + p + n, k) == ek + pk + nk;
    WithStartMembers(e, k);
    WithStartMembers(p, k);
    if y :| y in e && y.start == k {
      WithStartHas(e, y);
      assert ek != [] && ek[0] in ek;
      assert (ek + pk + nk)[0] == ek[0];
    }
    if (forall y :: y in e ==> y.start != k) && (exists y :: y in p && y.start == k) {
      WithStartNone(e, k);
      var y :| y in p && y.start == k;
      WithStartHas(p, y);
      assert pk != [] && pk[0] in pk;
      assert (ek + pk + nk)[0] == pk[0];
    }
  }

  lemma {:induction false} WithStartNone(s: seq<Span>, k: int)
    requires forall y :: y in s ==> y.start != k
    ensures WithStart(s, k) == []
    decreases s
  {
    if s != [] {
      assert s[0] in s;
      WithStartNone(s[1..], k);
    }
  }

  lemma WithStartHas(s: seq<Span>, y: Span)
    requires y in s
    ensures WithStart(s, y.start) != []
  {
    var i :| 0 <= i < |s| && s[i] == y;
    WithStartFrom(s, i);
  }

  lemma {:induction false} WithStartFrom(s: seq<Span>, i: nat)
    requires i < |s|
    ensures WithStart(s, s[i].start) != []
    decreases i
  {
    if i > 0 && s[0].start != s[i].start {
      WithStartFrom(s[1..], i - 1);
    }
  }

  /**
   * Of the spans that start at one position, the one reported is the first pushed: an email
   * wins over a phone, and a phone over a name.
   */
  lemma TiePrecedence(text: string, x: Span)
    requires x in Detect(text)
    ensures WithStart(RawSpans(text), x.start) != [] && x == WithStart(RawSpans(text), x.start)[0]
    ensures (exists e :: e in Scan(EmailRule, text, 0) && e.start == x.start) ==> x.kind == Email
    ensures ((forall e :: e in Scan(EmailRule, text, 0) ==> e.start != x.start)
             && (exists p :: p in Scan(PhoneRule, text, 0) && p.start == x.start)) ==> x.kind == Phone
  {
    ScanMembers(EmailRule, text);
    ScanMembers(PhoneRule, text);
    ScanMembers(NameRule, text);
    FirstPushedWins(Scan(EmailRule, text, 0), Scan(PhoneRule, text, 0), Scan(NameRule, text, 0), x);
  }

  /** `TiePrecedence` for any three pushed runs of emails `e`, phones `p` and further spans `n`. */
  lemma FirstPushedWins(e: seq<Span>, p: seq<Span>, n: seq<Span>, x: Span)
    requires forall y :: y in e ==> y.start < y.end && y.kind == Email
    requires forall y :: y in p ==> y.start < y.end && y.kind == Phone
    requires forall y :: y in n ==> y.start < y.end
    requires x in Resolve(SortByStart(e + p + n))
    ensures WithStart(e + p + n, x.start) != [] && x == WithStart(e + p + n, x.start)[0]
    ensures (exists y :: y in e && y.start == x.start) ==> x.kind == Email
    ensures ((forall y :: y in e ==> y.start != x.start) && (exists y :: y in p && y.start == x.start)) ==> x.kind == Phone
  {
    SortResolveHeads(e + p + n);
    PushOrderHead(e, p, n, x.start);
  }

  /** Nothing is found in the empty text. */
  lemma DetectEmpty()
    ensures Detect("") == []
  {
    assert FindFrom(EmailRule, "", 0).None?;
    assert FindFrom(PhoneRule, "", 0).None?;
    assert FindFrom(NameRule, "", 0).None?;
  }

  /**
   * A name match whose first word is on the stoplist yields no span, and the next search
   * starts after its second word, so no name span starts inside the discarded match.
   */
  lemma StoplistSkips(text: string, from: nat)
    requires from <= |text|
    requires FindFrom(NameRule, text, from).Some?
    requires var h := FindFrom(NameRule, text, from).value; text[h.start..h.groupEnd] in Stoplist
    ensures var h := FindFrom(NameRule, text, from).value;
      && Scan(NameRule, text, from) == Scan(NameRule, text, h.end)
      && forall y :: y in Scan(NameRule, text, from) ==> y.start >= h.end
  {
  }

  /**
   * Every name span covers `[A-Z][a-z]+`, whitespace, `[A-Z][a-z]+`, starts and ends at a word
   * boundary, and its first word is not on the stoplist.
   */
  lemma {:induction false} NameSpansShape(text: string, from: nat)
    requires from <= |text|
    ensures forall y :: y in Scan(NameRule, text, from) ==>
      exists m: nat, s: nat :: NameShape(text, y.start, m, s, y.end) && text[y.start..m] !in Stoplist
    decreases |text| - from
  {
    match FindFrom(NameRule, text, from)
    case None =>
    case Some(h) =>
      NameSpansShape(text, h.end);
      var parts := NameAt(text, h.start).value;
      assert NameShape(text, h.start, parts.firstEnd, parts.secondStart, h.end);
  }

  /** Every email span is a match of the email pattern. */
  lemma {:induction false} EmailSpansMatch(text: string, from: nat)
    requires from <= |text|
    ensures forall y :: y in Scan(EmailRule, text, from) ==> Matches(EmailPattern, text, y.start, y.end)
    decreases |text| - from
  {
    match FindFrom(EmailRule, text, from)
    case None =>
    case Some(h) =>
      EmailSpansMatch(text, h.end);
      MatchSound(EmailPattern, text, h.start);
  }

  /** Every phone span is a match of the phone pattern. */
  lemma {:induction false} PhoneSpansMatch(text: string, from: nat)
    requires from <= |text|
    ensures forall y :: y in Scan(PhoneRule, text, from) ==> Matches(PhonePattern, text, y.start, y.end)
    decreases |text| - from
  {
    match FindFrom(PhoneRule, text, from)
    case None =>
    case Some(h) =>
      PhoneSpansMatch(text, h.end);
      MatchSound(PhonePattern, text, h.start);
  }


  /** A capitalised word followed by a first and last name. */
  const CallJohnText: string := "Call John Smith at 555-123-4567"

  /**
   * The name regex is tried left to right from `lastIndex`, so in `CallJohnText` it matches
   * "Call John" over `[0, 9)` and resumes after it: "John Smith" over `[5, 15)` is never
   * reported, and "Smith" is left unmasked.
   */
  lemma CallJohnNotJohnSmith()
    ensures Span(0, 9, Name) in RawSpans(CallJohnText)
    ensures Span(5, 15, Name) !in Detect(CallJohnText)
  {
    CallJohnShape(CallJohnText);
    CallNotStoplisted(CallJohnText);
    CallJohnFirstHit(CallJohnText);
    FirstNameHitSkips(CallJohnText, Hit(0, 9, 4));
  }

  /** "Call John" at the start of `CallJohnText` has the name shape, and "Call" is not stoplisted. */
  lemma CallJohnShape(t: string)
    requires t == CallJohnText
    ensures NameShape(t, 0, 4, 5, 9)
  {
    assert t[0] == 'C' && t[1] == 'a' && t[2] == 'l' && t[3] == 'l' && t[4] == ' ';
    assert t[5] == 'J' && t[6] == 'o' && t[7] == 'h' && t[8] == 'n' && t[9] == ' ';
    assert LowerRun(t, 1, 4) && LowerRun(t, 6, 9);
    assert SpaceRun(t, 4, 5);
  }

  /** "Call" is not stoplisted. */
  lemma CallNotStoplisted(t: string)
    requires t == CallJohnText
    ensures t[0..4] !in Stoplist
  {
    assert t[0..4] == "Call";
  }

  /** The first name match in `CallJohnText` is "Call John", with "Call" as its first word. */
  lemma CallJohnFirstHit(t: string)
    requires NameShape(t, 0, 4, 5, 9)
    ensures FindFrom(NameRule, t, 0) == Some(Hit(0, 9, 4))
  {
    FindFromLeftmost(NameRule, t, 0, 0);
  }

  /** An accepted first name match is the name scan's first span, and every later one starts after it. */
  lemma FirstNameScan(t: string, h: Hit)
    requires FindFrom(NameRule, t, 0) == Some(h) && t[h.start..h.groupEnd] !in Stoplist
    ensures Span(h.start, h.end, Name) in Scan(NameRule, t, 0)
    ensures forall x :: x in Scan(NameRule, t, 0) ==> x == Span(h.start, h.end, Name) || h.end <= x.start
  {
    ScanStep(NameRule, t, 0);
    var rest := Scan(NameRule, t, h.end);
    assert Scan(NameRule, t, 0) == [Span(h.start, h.end, Name)] + rest;
    assert forall x :: x in rest ==> h.end <= x.start;
  }

  /** Every detected name span comes from the name scan from 0. */
  lemma DetectNames(t: string)
    ensures forall x :: x in Detect(t) && x.kind == Name ==> x in Scan(NameRule, t, 0)
  {
    ScanMembers(EmailRule, t);
    ScanMembers(PhoneRule, t);
    SortResolveMembers(RawSpans(t));
  }

  /**
   * When the text's first name match is accepted, it is found, and no detected name span
   * starts strictly inside it.
   */
  lemma FirstNameHitSkips(t: string, h: Hit)
    requires FindFrom(NameRule, t, 0) == Some(h) && t[h.start..h.groupEnd] !in Stoplist
    ensures Span(h.start, h.end, Name) in RawSpans(t)
    ensures forall x :: x in Detect(t) && x.kind == Name ==> x == Span(h.start, h.end, Name) || h.end <= x.start
  {
    FirstNameScan(t, h);
    DetectNames(t);
  }

  /** An email with a sub-address and a two-part suffix, between two words. */
  const EmailText: string := "contact a.b+tag@example.co.uk now"

  /** Backtracking out of "co.uk": the domain run gives back ".uk" so that `\.` and the TLD match. */
  lemma EmailDomainEnd(t: string)
    requires t == EmailText
    ensures Match(EmailPattern[5..], t, 26) == Some(29)
  {
    var P := EmailPattern;
    assert Match(P[10..], t, 29) == Some(29);
    assert Match(P[9..], t, 29) == Some(29);
    assert Match(P[8..], t, 28) == Some(29);
    assert Match(P[7..], t, 27) == Some(29);
    assert Match(P[6..], t, 26) == Some(29);
    assert Match(P[6..], t, 27) == None;
    assert Match(P[6..], t, 28) == None;
    assert Match(P[6..], t, 29) == None;
    assert Match(P[5..], t, 29) == None;
    assert Match(P[5..], t, 28) == None;
    assert Match(P[5..], t, 27) == None;
  }

  /** The domain run from "example" ends the match at 29. */
  lemma EmailDomainRun(t: string)
    requires t == EmailText
    ensures Match(EmailPattern[4..], t, 16) == Some(29)
  {
    var P := EmailPattern;
    EmailDomainEnd(t);
    assert Match(P[5..], t, 25) == Some(29);
    assert Match(P[5..], t, 24) == Some(29);
    assert Match(P[5..], t, 23) == Some(29);
    assert Match(P[5..], t, 22) == Some(29);
    assert Match(P[5..], t, 21) == Some(29);
    assert Match(P[5..], t, 20) == Some(29);
    assert Match(P[5..], t, 19) == Some(29);
    assert Match(P[5..], t, 18) == Some(29);
    assert Match(P[5..], t, 17) == Some(29);
  }

  /** From the tail of the local part through `@`, the match ends at 29. */
  lemma EmailAtSign(t: string)
    requires t == EmailText
    ensures Match(EmailPattern[2..], t, 12) == Some(29)
  {
    var P := EmailPattern;
    EmailDomainRun(t);
    assert Match(P[3..], t, 15) == Some(29);
    assert Match(P[2..], t, 15) == Some(29);
    assert Match(P[2..], t, 14) == Some(29);
    assert Match(P[2..], t, 13) == Some(29);
  }

  /** The local-part run from 10 ends the match at 29. */
  lemma EmailLocalRun(t: string)
    requires t == EmailText
    ensures Match(EmailPattern[2..], t, 10) == Some(29)
  {
    EmailAtSign(t);
    assert Match(EmailPattern[2..], t, 11) == Some(29);
  }

  /** Tried at 8, the email regex matches "a.b+tag@example.co.uk", ending at 29. */
  lemma EmailHead(t: string)
    requires t == EmailText
    ensures Match(EmailPattern, t, 8) == Some(29)
  {
    EmailLocalRun(t);
    assert Match(EmailPattern[2..], t, 9) == Some(29);
    assert Match(EmailPattern[1..], t, 8) == Some(29);
  }

  /** "contact" is not followed by `@`, so the local-part run from 1 leads nowhere. */
  lemma EmailFirstWord(t: string)
    requires t == EmailText
    ensures Match(EmailPattern[2..], t, 1) == None
  {
    var P := EmailPattern;
    assert Match(P[2..], t, 7) == None;
    assert Match(P[2..], t, 6) == None;
    assert Match(P[2..], t, 5) == None;
    assert Match(P[2..], t, 4) == None;
    assert Match(P[2..], t, 3) == None;
    assert Match(P[2..], t, 2) == None;
  }

  /** The email regex matches at no position before 8. */
  lemma EmailMissesBefore(t: string)
    requires t == EmailText
    ensures Match(EmailPattern, t, 0) == None && Match(EmailPattern, t, 1) == None
    ensures Match(EmailPattern, t, 2) == None && Match(EmailPattern, t, 3) == None
    ensures Match(EmailPattern, t, 4) == None && Match(EmailPattern, t, 5) == None
    ensures Match(EmailPattern, t, 6) == None && Match(EmailPattern, t, 7) == None
  {
    EmailFirstWord(t);
    assert Match(EmailPattern[1..], t, 0) == None;
    assert Match(EmailPattern[1..], t, 7) == None;
    EmailNoBoundary(t);
  }

  /** Inside "contact" there is no word boundary for the regex to start at. */
  lemma EmailNoBoundary(t: string)
    requires t == EmailText
    ensures Match(EmailPattern, t, 1) == None && Match(EmailPattern, t, 2) == None
    ensures Match(EmailPattern, t, 3) == None && Match(EmailPattern, t, 4) == None
    ensures Match(EmailPattern, t, 5) == None && Match(EmailPattern, t, 6) == None
  {
    assert !IsBoundary(t, 1) && !IsBoundary(t, 2) && !IsBoundary(t, 3);
    assert !IsBoundary(t, 4) && !IsBoundary(t, 5) && !IsBoundary(t, 6);
  }

  /** The email regex matches at no position of " now". */
  lemma EmailMissesAfter(t: string)
    requires t == EmailText
    ensures Match(EmailPattern, t, 29) == None && Match(EmailPattern, t, 30) == None
    ensures Match(EmailPattern, t, 31) == None && Match(EmailPattern, t, 32) == None
    ensures Match(EmailPattern, t, 33) == None
  {
    var P := EmailPattern;
    assert Match(P[2..], t, 33) == None;
    assert Match(P[2..], t, 32) == None;
    assert Match(P[2..], t, 31) == None;
  }

  /** `exec` from 0 finds the email at 8, ending at 29. */
  lemma EmailFirstHit(t: string)
    requires t == EmailText
    ensures FindFrom(EmailRule, t, 0) == Some(Hit(8, 29, 29))
  {
    EmailHead(t);
    EmailMissesBefore(t);
    FindFromSkip(EmailRule, t, 0);
    FindFromSkip(EmailRule, t, 1);
    FindFromSkip(EmailRule, t, 2);
    FindFromSkip(EmailRule, t, 3);
    FindFromSkip(EmailRule, t, 4);
    FindFromSkip(EmailRule, t, 5);
    FindFromSkip(EmailRule, t, 6);
    FindFromSkip(EmailRule, t, 7);
  }

  /** `exec` from 29 finds nothing. */
  lemma EmailNoHitAfter(t: string)
    requires t == EmailText
    ensures FindFrom(EmailRule, t, 29) == None
  {
    EmailMissesAfter(t);
    FindFromSkip(EmailRule, t, 29);
    FindFromSkip(EmailRule, t, 30);
    FindFromSkip(EmailRule, t, 31);
    FindFromSkip(EmailRule, t, 32);
  }

  /**
   * The email scan of `EmailText` reports exactly "a.b+tag@example.co.uk": the backtracking
   * match keeps the longest domain that still leaves `\.` and a TLD, so the second-level
   * suffix ".uk" is part of the span.
   */
  lemma EmailScanExample()
    ensures Scan(EmailRule, EmailText, 0) == [Span(8, 29, Email)]
  {
    EmailFirstHit(EmailText);
    EmailNoHitAfter(EmailText);
    ScanStep(EmailRule, EmailText, 0);
  }

  /** A short email at the start of the text. */
  const ShortEmailText: string := "a@b.co"

  /** The same text with one digit appended, as a further stream chunk would. */
  const DigitAppendedText: string := "a@b.co9"

  /** In `ShortEmailText`, the domain run from "." ends the match at the end of the text. */
  lemma ShortEmailTail(t: string)
    requires t == ShortEmailText
    ensures Match(EmailPattern[5..], t, 3) == Some(6)
  {
    var P := EmailPattern;
    assert Match(P[10..], t, 6) == Some(6);
    assert Match(P[9..], t, 6) == Some(6);
    assert Match(P[8..], t, 5) == Some(6);
    assert Match(P[7..], t, 4) == Some(6);
    assert Match(P[6..], t, 3) == Some(6);
    assert Match(P[6..], t, 4) == None;
    assert Match(P[6..], t, 5) == None;
    assert Match(P[6..], t, 6) == None;
    assert Match(P[5..], t, 6) == None;
    assert Match(P[5..], t, 5) == None;
    assert Match(P[5..], t, 4) == None;
  }

  /** Tried at 0, the email regex matches all of `ShortEmailText`. */
  lemma ShortEmailHead(t: string)
    requires t == ShortEmailText
    ensures Match(EmailPattern, t, 0) == Some(6)
  {
    var P := EmailPattern;
    ShortEmailTail(t);
    assert Match(P[4..], t, 2) == Some(6);
    assert Match(P[3..], t, 1) == Some(6);
    assert Match(P[2..], t, 1) == Some(6);
    assert Match(P[1..], t, 0) == Some(6);
  }

  /** The email scan of `ShortEmailText` reports the whole text. */
  lemma ShortEmailScan(t: string)
    requires t == ShortEmailText
    ensures Scan(EmailRule, t, 0) == [Span(0, 6, Email)]
  {
    ShortEmailHead(t);
    assert Match(EmailPattern, t, 6) == None;
    assert FindFrom(EmailRule, t, 0) == Some(Hit(0, 6, 6));
    assert FindFrom(EmailRule, t, 6) == None;
    ScanStep(EmailRule, t, 0);
  }

  /** In `DigitAppendedText`, no split of ".co9" leaves a TLD followed by a word boundary. */
  lemma DigitTail(t: string)
    requires t == DigitAppendedText
    ensures Match(EmailPattern[5..], t, 3) == None
  {
    var P := EmailPattern;
    assert Match(P[10..], t, 6) == None;
    assert Match(P[9..], t, 6) == None;
    assert Match(P[8..], t, 5) == None;
    assert Match(P[7..], t, 4) == None;
    assert Match(P[6..], t, 3) == None;
    assert Match(P[6..], t, 4) == None;
    assert Match(P[6..], t, 5) == None;
    assert Match(P[6..], t, 6) == None;
    assert Match(P[6..], t, 7) == None;
    assert Match(P[5..], t, 7) == None;
    assert Match(P[5..], t, 6) == None;
    assert Match(P[5..], t, 5) == None;
    assert Match(P[5..], t, 4) == None;
  }

  /** In `DigitAppendedText`, a local part starting after "@" never reaches another "@". */
  lemma DigitLocalRuns(t: string)
    requires t == DigitAppendedText
    ensures Match(EmailPattern[2..], t, 3) == None
    ensures Match(EmailPattern[2..], t, 4) == None
    ensures Match(EmailPattern[2..], t, 5) == None
  {
    var P := EmailPattern;
    assert Match(P[3..], t, 7) == None && Match(P[3..], t, 6) == None && Match(P[3..], t, 5) == None;
    assert Match(P[3..], t, 4) == None && Match(P[3..], t, 3) == None;
    assert Match(P[2..], t, 7) == None;
    assert Match(P[2..], t, 6) == None;
    assert Match(P[2..], t, 5) == None;
    assert Match(P[2..], t, 4) == None;
  }

  /** The email regex matches nowhere in `DigitAppendedText`. */
  lemma DigitMisses(t: string)
    requires t == DigitAppendedText
    ensures Match(EmailPattern, t, 0) == None && Match(EmailPattern, t, 1) == None
    ensures Match(EmailPattern, t, 2) == None && Match(EmailPattern, t, 3) == None
    ensures Match(EmailPattern, t, 4) == None && Match(EmailPattern, t, 5) == None
    ensures Match(EmailPattern, t, 6) == None && Match(EmailPattern, t, 7) == None
  {
    var P := EmailPattern;
    DigitTail(t);
    DigitLocalRuns(t);
    assert Match(P[4..], t, 2) == None;
    assert Match(P[3..], t, 1) == None;
    assert Match(P[2..], t, 1) == None;
    assert Match(P[1..], t, 0) == None;
    assert Match(P[1..], t, 1) == None;
    assert Match(P[1..], t, 2) == None;
    assert Match(P[1..], t, 3) == None;
    assert Match(P[1..], t, 4) == None;
    assert !IsBoundary(t, 5) && !IsBoundary(t, 6);
  }

  /** The email scan of `DigitAppendedText` reports nothing. */
  lemma DigitScan(t: string)
    requires t == DigitAppendedText
    ensures Scan(EmailRule, t, 0) == []
  {
    DigitMisses(t);
    FindFromSkip(EmailRule, t, 0);
    FindFromSkip(EmailRule, t, 1);
    FindFromSkip(EmailRule, t, 2);
    FindFromSkip(EmailRule, t, 3);
    FindFromSkip(EmailRule, t, 4);
    FindFromSkip(EmailRule, t, 5);
    FindFromSkip(EmailRule, t, 6);
    assert FindFrom(EmailRule, t, 7) == None;
  }

  /** Every detected email span comes from the email scan from 0. */
  lemma DetectEmails(t: string)
    ensures forall x :: x in Detect(t) && x.kind == Email ==> x in Scan(EmailRule, t, 0)
  {
    ScanMembers(PhoneRule, t);
    ScanMembers(NameRule, t);
    SortResolveMembers(RawSpans(t));
  }

  /** The email spans are raw spans. */
  lemma EmailsAreRaw(t: string)
    ensures forall x :: x in Scan(EmailRule, t, 0) ==> x in RawSpans(t)
  {
  }

  /** A raw span at 0 makes the first detected span start at 0. */
  lemma DetectHeadAtZero(t: string, e: Span)
    requires e in RawSpans(t) && e.start == 0
    ensures Detect(t) != [] && Detect(t)[0].start == 0
  {
    ResolvedHeadStart(RawSpans(t), e);
    DetectWellFormed(t);
  }

  /** A detected span that starts where the only email span starts is that email span. */
  lemma DetectedAtOnlyEmail(t: string, e: Span, x: Span)
    requires Scan(EmailRule, t, 0) == [e] && x in Detect(t) && x.start == e.start
    ensures x == e
  {
    TiePrecedence(t, x);
    DetectEmails(t);
  }

  /** A text whose only email span starts at 0 has that span first in its detection. */
  lemma LeadingEmailFirst(t: string, e: Span)
    requires Scan(EmailRule, t, 0) == [e] && e.start == 0
    ensures Detect(t) != [] && Detect(t)[0] == e
  {
    EmailsAreRaw(t);
    DetectHeadAtZero(t, e);
    var d := Detect(t);
    assert d[0] in d;
    DetectedAtOnlyEmail(t, e, d[0]);
  }

  /**
   * Appending one character can remove a span: the email detected in `ShortEmailText` is
   * not detected once a digit is appended, since the TLD is then not followed by a word
   * boundary.
   */
  lemma AppendDropsEmail()
    ensures Detect(ShortEmailText) != [] && Detect(ShortEmailText)[0] == Span(0, 6, Email)
    ensures forall x :: x in Detect(DigitAppendedText) ==> x.kind != Email
  {
    ShortEmailScan(ShortEmailText);
    LeadingEmailFirst(ShortEmailText, Span(0, 6, Email));
    DigitScan(DigitAppendedText);
    DetectEmails(DigitAppendedText);
  }
}
