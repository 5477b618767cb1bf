/**
 * What the models of Python's `re` module share: spans of the subject string, and `re.search`
 * for a pattern given by the function that tries it at one position.
 */
module Regex {
  import opened Optional

  /** A capture group `s[start..end]`. */
  datatype Span = Span(start: nat, end: nat)

  /** A match of `re.search`: where it starts and the span of its group. */
  datatype Hit = Hit(pos: nat, group: Span)

  predicate SpanIn(s: string, g: Span) { g.start <= g.end <= |s| }

  /** The text of a group. */
  function Group(s: string, g: Span): string
    requires SpanIn(s, g)
  {
    s[g.start..g.end]
  }

  /** `a|b`: the second alternative is tried only when the first does not match. */
  function OrElse<T>(a: Option<T>, b: Option<T>): (r: Option<T>)
    ensures r == a || r == b
    ensures a.Some? ==> r == a
    ensures r.None? <==> a.None? && b.None?
  {
    if a.Some? then a else b
  }

  /** `re.search(pattern, s[i:])` for the pattern tried at each position by `at`. */
  function Search(s: string, i: nat, at: (string, nat) -> Option<Span>): (r: Option<Hit>)
    ensures r.Some? ==> i <= r.value.pos <= |s| && at(s, r.value.pos) == Some(r.value.group)
    ensures r.Some? ==> forall j :: i <= j < r.value.pos ==> at(s, j).None?
    ensures r.None? <==> forall j :: i <= j <= |s| ==> at(s, j).None?
    decreases |s| + 1 - i
  {
    if i > |s| then None
    else match at(s, i)
      case Some(g) => Some(Hit(i, g))
      case None => Search(s, i + 1, at)
  }
}
