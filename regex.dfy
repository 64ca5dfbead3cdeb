/**
 * A small backtracking matcher for the fragment of JavaScript regular expressions that the
 * email and phone patterns use: single-character classes, greedy `*`, greedy `?` over a
 * group, and `\b`. `Match` explores alternatives in the order the JavaScript engine does
 * (a greedy element first tries to consume), so the end it returns is the one `exec` reports.
 * `Matches` is the relational meaning of a pattern; `Match` is sound and complete for it.
 */
module Regex {
  import opened Wrappers
  import opened Chars

  /** The character classes of the two patterns. */
  datatype CharClass =
    | Exactly(c: char)
    | Digit          // [0-9]
    | EmailLocal     // [A-Za-z0-9._%+-]
    | EmailDomain    // [A-Za-z0-9.-]
    | EmailTld       // [A-Z|a-z]: letters and a literal '|'
    | Separator      // [-.\s]

  predicate InClass(k: CharClass, c: char) {
    match k
    case Exactly(d) => c == d
    case Digit => IsDigit(c)
    case EmailLocal => IsLetter(c) || IsDigit(c) || c == '.' || c == '_' || c == '%' || c == '+' || c == '-'
    case EmailDomain => IsLetter(c) || IsDigit(c) || c == '.' || c == '-'
    case EmailTld => IsLetter(c) || c == '|'
    case Separator => c == '-' || c == '.' || IsJsSpace(c)
  }

  /** One element of a pattern. `X+` is written `One(X), Many(X)`; `X{2,}` as two `One`s and a `Many`. */
  datatype Node =
    | One(k: CharClass)           // exactly one character of the class
    | Many(k: CharClass)          // greedy `*`
    | Optional(body: seq<Node>)   // greedy `(...)?`
    | WordBoundary                // `\b`

  function Size(ns: seq<Node>): nat
    decreases ns
  {
    if ns == [] then 0
    else (match ns[0] case Optional(body) => 1 + Size(body) case _ => 1) + Size(ns[1..])
  }

  lemma {:induction false} SizeAppend(a: seq<Node>, b: seq<Node>)
    ensures Size(a + b) == Size(a) + Size(b)
    decreases a
  {
    if a == [] {
      assert a + b == b;
    } else {
      assert (a + b)[0] == a[0];
      assert (a + b)[1..] == a[1..] + b;
      SizeAppend(a[1..], b);
    }
  }

  /** The fewest characters any match of `ns` consumes. */
  function MinLength(ns: seq<Node>): nat
    decreases ns
  {
    if ns == [] then 0 else (if ns[0].One? then 1 else 0) + MinLength(ns[1..])
  }

  lemma {:induction false} MinLengthAppend(a: seq<Node>, b: seq<Node>)
    ensures MinLength(a + b) == MinLength(a) + MinLength(b)
    decreases a
  {
    if a == [] {
      assert a + b == b;
    } else {
      assert (a + b)[0] == a[0];
      assert (a + b)[1..] == a[1..] + b;
      MinLengthAppend(a[1..], b);
    }
  }

  /**
   * The end of the first match of `ns` at position `i` in backtracking order, if any.
   */
  function Match(ns: seq<Node>, t: seq<char>, i: nat): (r: Option<nat>)
    requires i <= |t|
    ensures r.Some? ==> i + MinLength(ns) <= r.value <= |t|
    decreases Size(ns), |t| - i
  {
    if ns == [] then Some(i)
    else
      match ns[0]
      case One(k) =>
        if i < |t| && InClass(k, t[i]) then Match(ns[1..], t, i + 1) else None
      case WordBoundary =>
        if IsBoundary(t, i) then Match(ns[1..], t, i) else None
      case Many(k) =>
        if i < |t| && InClass(k, t[i]) then
          var longer := Match(ns, t, i + 1);
          if longer.Some? then longer else Match(ns[1..], t, i)
        else Match(ns[1..], t, i)
      case Optional(body) =>
        SizeAppend(body, ns[1..]);
        MinLengthAppend(body, ns[1..]);
        var taken := Match(body + ns[1..], t, i);
        if taken.Some? then taken else Match(ns[1..], t, i)
  }

  /** `t[i..j]` is matched by the pattern `ns` along some path of choices. */
  predicate Matches(ns: seq<Node>, t: seq<char>, i: nat, j: nat)
    requires i <= |t|
    decreases Size(ns), |t| - i
  {
    if ns == [] then j == i
    else
      match ns[0]
      case One(k) => i < |t| && InClass(k, t[i]) && Matches(ns[1..], t, i + 1, j)
      case WordBoundary => IsBoundary(t, i) && Matches(ns[1..], t, i, j)
      case Many(k) =>
        (i < |t| && InClass(k, t[i]) && Matches(ns, t, i + 1, j)) || Matches(ns[1..], t, i, j)
      case Optional(body) =>
        SizeAppend(body, ns[1..]);
        Matches(body + ns[1..], t, i, j) || Matches(ns[1..], t, i, j)
  }

  /** Whatever `Match` returns is a match. */
  lemma {:induction false} MatchSound(ns: seq<Node>, t: seq<char>, i: nat)
    requires i <= |t|
    ensures Match(ns, t, i).Some? ==> Matches(ns, t, i, Match(ns, t, i).value)
    decreases Size(ns), |t| - i
  {
    if ns != [] {
      match ns[0]
      case One(k) =>
        if i < |t| && InClass(k, t[i]) { MatchSound(ns[1..], t, i + 1); }
      case WordBoundary =>
        if IsBoundary(t, i) { MatchSound(ns[1..], t, i); }
      case Many(k) =>
        if i < |t| && InClass(k, t[i]) { MatchSound(ns, t, i + 1); }
        MatchSound(ns[1..], t, i);
      case Optional(body) =>
        SizeAppend(body, ns[1..]);
        MatchSound(body + ns[1..], t, i);
        MatchSound(ns[1..], t, i);
    }
  }

  /** If any path matches, backtracking finds a match: `Match` misses nothing. */
  lemma {:induction false} MatchComplete(ns: seq<Node>, t: seq<char>, i: nat, j: nat)
    requires i <= |t|
    requires Matches(ns, t, i, j)
    ensures Match(ns, t, i).Some?
    decreases Size(ns), |t| - i
  {
    if ns != [] {
      match ns[0]
      case One(k) =>
        MatchComplete(ns[1..], t, i + 1, j);
      case WordBoundary =>
        MatchComplete(ns[1..], t, i, j);
      case Many(k) =>
        if i < |t| && InClass(k, t[i]) && Matches(ns, t, i + 1, j) {
          MatchComplete(ns, t, i + 1, j);
        } else {
          MatchComplete(ns[1..], t, i, j);
        }
      case Optional(body) =>
        SizeAppend(body, ns[1..]);
        if Matches(body + ns[1..], t, i, j) {
          MatchComplete(body + ns[1..], t, i, j);
        } else {
          MatchComplete(ns[1..], t, i, j);
        }
    }
  }
}
