/** The `PIISpan` record and the chat records that carry spans. */
module PiiSpans {
  import opened Wrappers

  /** The closed set of span categories; detection only ever produces the first three. */
  datatype PiiType = Email | Phone | Name | Ssn | CreditCard

  /** The `type` string of a span of this category. */
  function TypeName(k: PiiType): string {
    match k
    case Email => "email"
    case Phone => "phone"
    case Name => "name"
    case Ssn => "ssn"
    case CreditCard => "credit_card"
  }

  /** A half-open range `[start, end)` of code-unit offsets, tagged with a category. */
  datatype Span = Span(start: int, end: int, kind: PiiType)

  /** A span that lies inside a text of length `n` and is not empty. */
  predicate WellFormed(x: Span, n: int) {
    0 <= x.start < x.end <= n
  }

  predicate AllWellFormed(s: seq<Span>, n: int) {
    forall i :: 0 <= i < |s| ==> WellFormed(s[i], n)
  }

  /** One of the categories the regex detector has a matcher for. */
  predicate Detectable(k: PiiType) {
    k == Email || k == Phone || k == Name
  }

  /** Neither span overlaps the other. */
  predicate Apart(a: Span, b: Span) {
    a.end <= b.start || b.end <= a.start
  }

  /** A chat message; `piiSpans` is `None` where the source leaves it `undefined`. */
  datatype Message = Message(id: string, text: string, isUser: bool, piiSpans: Option<seq<Span>>)

  /** A sidebar entry. */
  datatype Chat = Chat(id: string, title: string, time: string)
}
