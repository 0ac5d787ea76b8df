/**
  The backtracking semantics of ECMAScript regular expressions, for the
  patterns the gallery uses: a sequence of literal code units and `.*`
  (optionally inside a capturing group), without flags. `.` matches any code
  unit except a line terminator, and `*` is greedy: it first takes every code
  unit up to the end of the line and then gives them back one at a time until
  the rest of the pattern matches. A search tries the start positions 0, 1,
  ..., |s| in order and reports the first one that matches, as
  `String.prototype.match` and `String.prototype.replace` do for a regular
  expression without the `g` flag.
*/
module Regex {
  import opened Wrappers
  import opened JsString

  /** A pattern element: a literal code unit, or `.*`, captured in group 1 when
      `capture` holds. */
  datatype Item = Unit(c: CodeUnit) | AnyStar(capture: bool)

  type Pattern = seq<Item>

  /** The half-open interval [lo, hi) of the subject. */
  datatype Span = Span(lo: nat, hi: nat)

  /** Where a successful match of a pattern suffix ends, and capture group 1. */
  datatype Tail = Tail(end: nat, group: Option<Span>)

  /** A successful search: the matched span and capture group 1. */
  datatype Match = Match(start: nat, end: nat, group: Option<Span>)

  /** A match that starts at `i` lies within [i, |s|], and so does its group. */
  predicate TailWithin(s: JsString, i: nat, t: Tail) {
    i <= t.end <= |s| &&
    (t.group.Some? ==> i <= t.group.value.lo <= t.group.value.hi <= t.end)
  }

  /** The first match, in backtracking order, of `pat` anchored at `i`. */
  function MatchHere(s: JsString, pat: Pattern, i: nat): (r: Option<Tail>)
    requires i <= |s|
    ensures r.Some? ==> TailWithin(s, i, r.value)
    decreases |pat|, |s| - i + 2
  {
    if pat == [] then Some(Tail(i, None))
    else match pat[0]
      case Unit(c) =>
        if i < |s| && s[i] == c then MatchHere(s, pat[1..], i + 1) else None
      case AnyStar(_) => StarFrom(s, pat, i, LineEnd(s, i))
  }

  /** The `.*` at the head of `pat`, started at `i`, after it has given back
      everything beyond `k`: try to continue at k, k - 1, ..., i. */
  function StarFrom(s: JsString, pat: Pattern, i: nat, k: nat): (r: Option<Tail>)
    requires pat != [] && pat[0].AnyStar?
    requires i <= |s| && i <= k <= LineEnd(s, i)
    ensures r.Some? ==> TailWithin(s, i, r.value)
    decreases |pat|, k - i + 1
  {
    match MatchHere(s, pat[1..], k)
    case Some(t) => Some(Extend(pat[0], i, k, t))
    case None => if k == i then None else StarFrom(s, pat, i, k - 1)
  }

  /** A `.*` that consumed [i, k) in front of the match `t` of the rest. */
  function Extend(star: Item, i: nat, k: nat, t: Tail): Tail
    requires star.AnyStar?
  {
    if star.capture then Tail(t.end, Some(Span(i, k))) else t
  }

  /** The leftmost match that starts at or after `p`. */
  function SearchFrom(s: JsString, pat: Pattern, p: nat): (r: Option<Match>)
    requires p <= |s|
    ensures r.Some? ==> p <= r.value.start && TailWithin(s, r.value.start, Tail(r.value.end, r.value.group))
    decreases |s| - p
  {
    match MatchHere(s, pat, p)
    case Some(t) => Some(Match(p, t.end, t.group))
    case None => if p == |s| then None else SearchFrom(s, pat, p + 1)
  }

  /** `s.match(re)` for a regular expression without flags. */
  function FirstMatch(s: JsString, pat: Pattern): (r: Option<Match>)
    ensures r.Some? ==> TailWithin(s, r.value.start, Tail(r.value.end, r.value.group))
  {
    SearchFrom(s, pat, 0)
  }

  /** `s.replace(re, rep)` for a regular expression without flags and a
      replacement string without `$` patterns: only the first match is replaced. */
  function Replace(s: JsString, pat: Pattern, rep: JsString): (r: JsString)
    ensures (forall y :: 0 <= y <= |s| ==> MatchHere(s, pat, y).None?) ==> r == s
    ensures forall x ::
      (0 <= x <= |s| && MatchHere(s, pat, x).Some? && (forall y :: 0 <= y < x ==> MatchHere(s, pat, y).None?)) ==>
      r == s[..x] + rep + s[MatchHere(s, pat, x).value.end..]
  {
    SearchFromFails(s, pat, 0);
    match FirstMatch(s, pat)
    case Some(m) =>
      SearchFromChoice(s, pat, 0);
      s[..m.start] + rep + s[m.end..]
    case None => s
  }

  // ----- What the backtracking order chooses ------------------------------

  /** `.*` settles on the longest consumption after which the rest matches. */
  lemma {:induction false} StarFromPicks(s: JsString, pat: Pattern, i: nat, k: nat, x: nat)
    requires pat != [] && pat[0].AnyStar? && i <= |s| && i <= x <= k <= LineEnd(s, i)
    requires MatchHere(s, pat[1..], x).Some?
    requires forall y :: x < y <= k ==> MatchHere(s, pat[1..], y).None?
    ensures StarFrom(s, pat, i, k) == Some(Extend(pat[0], i, x, MatchHere(s, pat[1..], x).value))
    decreases k - x
  {
    if x < k {
      StarFromPicks(s, pat, i, k - 1, x);
    }
  }

  /** `.*` fails exactly when the rest fails after every consumption. */
  lemma {:induction false} StarFromFails(s: JsString, pat: Pattern, i: nat, k: nat)
    requires pat != [] && pat[0].AnyStar? && i <= |s| && i <= k <= LineEnd(s, i)
    ensures StarFrom(s, pat, i, k).None? <==> forall y :: i <= y <= k ==> MatchHere(s, pat[1..], y).None?
    decreases k - i
  {
    if MatchHere(s, pat[1..], k).Some? {
      assert StarFrom(s, pat, i, k) == Some(Extend(pat[0], i, k, MatchHere(s, pat[1..], k).value));
    } else if k > i {
      StarFromFails(s, pat, i, k - 1);
    }
  }

  /** When `.*` succeeds, the consumption it settled on. */
  lemma {:induction false} StarFromChoice(s: JsString, pat: Pattern, i: nat, k: nat) returns (x: nat)
    requires pat != [] && pat[0].AnyStar? && i <= |s| && i <= k <= LineEnd(s, i)
    requires StarFrom(s, pat, i, k).Some?
    ensures i <= x <= k && MatchHere(s, pat[1..], x).Some?
    ensures forall y :: x < y <= k ==> MatchHere(s, pat[1..], y).None?
    ensures StarFrom(s, pat, i, k) == Some(Extend(pat[0], i, x, MatchHere(s, pat[1..], x).value))
    decreases k - i
  {
    if MatchHere(s, pat[1..], k).Some? {
      x := k;
    } else {
      x := StarFromChoice(s, pat, i, k - 1);
    }
  }

  /** The search reports the leftmost start position that matches. */
  lemma {:induction false} SearchFromPicks(s: JsString, pat: Pattern, p: nat, x: nat)
    requires p <= x <= |s| && MatchHere(s, pat, x).Some?
    requires forall y :: p <= y < x ==> MatchHere(s, pat, y).None?
    ensures SearchFrom(s, pat, p) == Some(Match(x, MatchHere(s, pat, x).value.end, MatchHere(s, pat, x).value.group))
    decreases x - p
  {
    if p < x {
      SearchFromPicks(s, pat, p + 1, x);
    }
  }

  /** The search fails exactly when no start position matches. */
  lemma {:induction false} SearchFromFails(s: JsString, pat: Pattern, p: nat)
    requires p <= |s|
    ensures SearchFrom(s, pat, p).None? <==> forall y :: p <= y <= |s| ==> MatchHere(s, pat, y).None?
    decreases |s| - p
  {
    if MatchHere(s, pat, p).Some? {
      assert SearchFrom(s, pat, p) == Some(Match(p, MatchHere(s, pat, p).value.end, MatchHere(s, pat, p).value.group));
    } else if p < |s| {
      SearchFromFails(s, pat, p + 1);
    }
  }

  /** A successful search is the anchored match at its start, and no earlier
      start matches. */
  lemma {:induction false} SearchFromChoice(s: JsString, pat: Pattern, p: nat)
    requires p <= |s| && SearchFrom(s, pat, p).Some?
    ensures var m := SearchFrom(s, pat, p).value;
      p <= m.start <= |s| && MatchHere(s, pat, m.start) == Some(Tail(m.end, m.group)) &&
      forall y :: p <= y < m.start ==> MatchHere(s, pat, y).None?
    decreases |s| - p
  {
    if MatchHere(s, pat, p).None? {
      SearchFromChoice(s, pat, p + 1);
    }
  }
}
