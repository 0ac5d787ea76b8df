/**
  `processMarkdown`: before a page's content is shown as a preview, every
  property line (`key:: value`) is emptied. The source repeats
  `markdown.replace` with the regular expression `.*::.*` and "" while the pattern still matches; this module
  proves that the loop ends, and that its result is the content with the text
  of every line containing `::` removed and every line terminator kept.
*/
module Markdown {
  import opened Wrappers
  import opened JsString
  import opened Regex

  /** The regular expression `.*::.*`, written without its slashes. */
  const PropsPattern: Pattern := [AnyStar(false), Unit(COLON), Unit(COLON), AnyStar(false)]

  /** `::` occurs at index q. */
  predicate ColonsAt(s: JsString, q: nat) {
    q + 1 < |s| && s[q] == COLON && s[q + 1] == COLON
  }

  /** `::` occurs somewhere in s. */
  predicate HasColons(s: JsString)
    decreases |s|
  {
    |s| >= 2 && ((s[0] == COLON && s[1] == COLON) || HasColons(s[1..]))
  }

  lemma {:induction false} ColonsFound(s: JsString, q: nat)
    requires ColonsAt(s, q)
    ensures HasColons(s)
    decreases q
  {
    if q > 0 {
      assert ColonsAt(s[1..], q - 1);
      ColonsFound(s[1..], q - 1);
    }
  }

  lemma {:induction false} NoColonsAt(s: JsString, q: nat)
    requires !HasColons(s)
    ensures !ColonsAt(s, q)
    decreases q
  {
    if q > 0 && |s| >= 2 {
      assert ColonsAt(s, q) == ColonsAt(s[1..], q - 1);
      NoColonsAt(s[1..], q - 1);
    }
  }

  lemma {:induction false} NoColonsIntro(s: JsString)
    requires forall q :: 0 <= q < |s| ==> !ColonsAt(s, q)
    ensures !HasColons(s)
    decreases |s|
  {
    if |s| >= 2 {
      assert !ColonsAt(s, 0);
      forall q | 0 <= q < |s| - 1 ensures !ColonsAt(s[1..], q) {
        assert !ColonsAt(s, q + 1);
      }
      NoColonsIntro(s[1..]);
    }
  }

  lemma {:induction false} ColonsWitness(s: JsString) returns (q: nat)
    requires HasColons(s)
    ensures ColonsAt(s, q)
    decreases |s|
  {
    if s[0] == COLON && s[1] == COLON {
      q := 0;
    } else {
      var q' := ColonsWitness(s[1..]);
      q := q' + 1;
    }
  }

  /** What happens to one line: a property line becomes empty. */
  function StripLine(line: JsString): JsString {
    if HasColons(line) then [] else line
  }

  /** The reference result: each line stripped, the line terminators kept. */
  function StripProperties(s: JsString): JsString
    decreases |s|, 1
  {
    StripWith(s, LineEnd(s, 0))
  }

  /** The reference result, given the end e of the first line. */
  function StripWith(s: JsString, e: nat): JsString
    requires e <= |s|
    decreases |s|, 0
  {
    StripLine(s[..e]) + (if e == |s| then [] else [s[e]] + StripProperties(s[e + 1..]))
  }

  /** The value `processMarkdown` returns: `undefined` stays `undefined`. */
  function Sanitize(markdown: Option<JsString>): (r: Option<JsString>)
    ensures r.None? <==> markdown.None?
    ensures r.Some? ==> !HasColons(r.value) && (r.value == markdown.value <==> !HasColons(markdown.value))
  {
    match markdown
    case None => None
    case Some(s) =>
      StripHasNoColons(s);
      StripUnchanged(s);
      Some(StripProperties(s))
  }

  /** The lines of s: the maximal runs without a line terminator. */
  function Lines(s: JsString): (ls: seq<JsString>)
    ensures |ls| >= 1
    decreases |s|
  {
    var e := LineEnd(s, 0);
    [s[..e]] + (if e == |s| then [] else Lines(s[e + 1..]))
  }

  /** The line terminators of s, in order. */
  function Terminators(s: JsString): JsString
    decreases |s|
  {
    var e := LineEnd(s, 0);
    if e == |s| then [] else [s[e]] + Terminators(s[e + 1..])
  }

  /** `processMarkdown(markdown)`. */
  method ProcessMarkdown(markdown: Option<JsString>) returns (r: Option<JsString>)
    ensures r == Sanitize(markdown)
  {
    if markdown.None? || markdown.value == [] {
      assert markdown.Some? ==> StripProperties([]) == [] by {
        assert LineEnd([], 0) == 0;
        assert !HasColons([]);
      }
      return markdown;
    }
    var md := markdown.value;
    while FirstMatch(md, PropsPattern).Some?
      invariant StripProperties(md) == StripProperties(markdown.value)
      decreases |md|
    {
      ReplaceEmptiesPropertyLine(md);
      md := Replace(md, PropsPattern, []);
    }
    PropsFirstMatch(md);
    StripUnchanged(md);
    return Some(md);
  }

  // ----- What `.*::.*` matches -------------------------------------------

  lemma PropsRest(s: JsString, y: nat)
    requires y <= |s|
    ensures MatchHere(s, PropsPattern[1..], y) ==
      if ColonsAt(s, y) then Some(Tail(LineEnd(s, y + 2), None)) else None
  {
    var p1 := PropsPattern[1..];
    assert p1 == [Unit(COLON), Unit(COLON), AnyStar(false)];
    assert p1[1..] == [Unit(COLON), AnyStar(false)];
    assert p1[1..][1..] == [AnyStar(false)];
    assert p1[1..][1..][1..] == [];
    if ColonsAt(s, y) {
      var e := LineEnd(s, y + 2);
      assert MatchHere(s, [AnyStar(false)], y + 2) == StarFrom(s, [AnyStar(false)], y + 2, e);
      assert [AnyStar(false)][1..] == [];
    }
  }

  /** Anchored at p, the pattern matches exactly when `::` occurs later on p's
      line, and the match then runs to the end of that line. */
  lemma PropsAt(s: JsString, p: nat)
    requires p <= |s|
    ensures MatchHere(s, PropsPattern, p).Some? <==> exists q :: p <= q < LineEnd(s, p) && ColonsAt(s, q)
    ensures MatchHere(s, PropsPattern, p).Some? ==> MatchHere(s, PropsPattern, p).value == Tail(LineEnd(s, p), None)
  {
    var e := LineEnd(s, p);
    LineEndSpec(s, p);
    assert MatchHere(s, PropsPattern, p) == StarFrom(s, PropsPattern, p, e);
    forall y | p <= y <= e
      ensures MatchHere(s, PropsPattern[1..], y) ==
        if ColonsAt(s, y) then Some(Tail(LineEnd(s, y + 2), None)) else None
    {
      PropsRest(s, y);
    }
    StarFromFails(s, PropsPattern, p, e);
    if StarFrom(s, PropsPattern, p, e).Some? {
      var x := StarFromChoice(s, PropsPattern, p, e);
      assert ColonsAt(s, x);
      assert x + 2 <= e;
      SameLine(s, p, x + 2);
    } else {
      forall q | p <= q < e ensures !ColonsAt(s, q) {
        assert MatchHere(s, PropsPattern[1..], q).None?;
      }
    }
  }

  /** `::` anywhere is the start of an anchored match. */
  lemma ColonsMatch(s: JsString, q: nat)
    requires ColonsAt(s, q)
    ensures MatchHere(s, PropsPattern, q).Some?
  {
    var e := LineEnd(s, q);
    LineEndSpec(s, q);
    assert q + 1 < e;
    PropsAt(s, q);
  }

  /** `.*::.*` matches somewhere exactly when some line contains `::`. */
  lemma PropsMatchExists(s: JsString)
    ensures FirstMatch(s, PropsPattern).None? <==> !HasColons(s)
  {
    SearchFromFails(s, PropsPattern, 0);
    if HasColons(s) {
      var q := ColonsWitness(s);
      ColonsMatch(s, q);
    } else {
      forall y | 0 <= y <= |s| ensures MatchHere(s, PropsPattern, y).None? {
        forall q | y <= q < LineEnd(s, y) ensures !ColonsAt(s, q) {
          NoColonsAt(s, q);
        }
        PropsAt(s, y);
      }
    }
  }

  /** The first match of `.*::.*` is the whole text, without its terminator,
      of the first line that contains `::`; there is none when no line does. */
  lemma PropsFirstMatch(s: JsString)
    ensures FirstMatch(s, PropsPattern).None? <==> !HasColons(s)
    ensures FirstMatch(s, PropsPattern).Some? ==>
      var m := FirstMatch(s, PropsPattern).value;
      m.group == None &&
      (m.start == 0 || IsLineTerminator(s[m.start - 1])) &&
      m.end == LineEnd(s, m.start) &&
      HasColons(s[m.start..m.end]) &&
      !HasColons(s[..m.start])
  {
    PropsMatchExists(s);
    if FirstMatch(s, PropsPattern).Some? {
      SearchFromChoice(s, PropsPattern, 0);
      var m := FirstMatch(s, PropsPattern).value;
      PropsLineStart(s, m.start);
      PropsBefore(s, m.start);
    }
  }

  /** Where the first match starts, its line starts, and the match is that line. */
  lemma PropsLineStart(s: JsString, p: nat)
    requires p <= |s| && MatchHere(s, PropsPattern, p).Some?
    requires forall y :: 0 <= y < p ==> MatchHere(s, PropsPattern, y).None?
    ensures p == 0 || IsLineTerminator(s[p - 1])
    ensures MatchHere(s, PropsPattern, p).value == Tail(LineEnd(s, p), None)
    ensures HasColons(s[p..LineEnd(s, p)])
  {
    PropsAt(s, p);
    var e := LineEnd(s, p);
    LineEndSpec(s, p);
    var q :| p <= q < e && ColonsAt(s, q);
    assert ColonsAt(s[p..e], q - p);
    ColonsFound(s[p..e], q - p);
    if p > 0 && !IsLineTerminator(s[p - 1]) {
      LineEndIs(s, p - 1, e);
      PropsAt(s, p - 1);
      assert false;
    }
  }

  /** No `::` occurs before the first match. */
  lemma PropsBefore(s: JsString, p: nat)
    requires p <= |s|
    requires forall y :: 0 <= y < p ==> MatchHere(s, PropsPattern, y).None?
    ensures !HasColons(s[..p])
  {
    forall q | 0 <= q < p ensures !ColonsAt(s[..p], q) {
      if ColonsAt(s[..p], q) {
        assert ColonsAt(s, q);
        ColonsMatch(s, q);
        assert false;
      }
    }
    NoColonsIntro(s[..p]);
  }

  /** One step of the loop: replacing the first match with "" empties the text
      of one property line, which the reference result does not notice. */
  lemma ReplaceEmptiesPropertyLine(s: JsString)
    requires FirstMatch(s, PropsPattern).Some?
    ensures StripProperties(Replace(s, PropsPattern, [])) == StripProperties(s)
    ensures |Replace(s, PropsPattern, [])| < |s|
  {
    PropsFirstMatch(s);
    var m := FirstMatch(s, PropsPattern).value;
    var a, x, b := s[..m.start], s[m.start..m.end], s[m.end..];
    LineEndSpec(s, m.start);
    assert NoLineTerminator(x) by {
      forall k | 0 <= k < |x| ensures !IsLineTerminator(x[k]) {
        assert x[k] == s[m.start + k];
      }
    }
    assert s == a + x + b;
    assert Replace(s, PropsPattern, []) == a + b;
    assert |x| >= 2;
    StripSplice(a, x, b);
  }

  // ----- The reference result ----------------------------------------------

  /** The definition unfolded at a known line end. */
  lemma StripAt(s: JsString, e: nat)
    requires e <= |s| && (e == |s| || IsLineTerminator(s[e]))
    requires forall k :: 0 <= k < e ==> !IsLineTerminator(s[k])
    ensures StripProperties(s) == StripWith(s, e)
  {
    LineEndIs(s, 0, e);
  }

  /** Emptying the text of a line that contains `::` does not change the result. */
  lemma StripSplice(a: JsString, x: JsString, b: JsString)
    requires a == [] || IsLineTerminator(a[|a| - 1])
    requires NoLineTerminator(x) && HasColons(x)
    requires b == [] || IsLineTerminator(b[0])
    ensures StripProperties(a + x + b) == StripProperties(a + b)
  {
    AppendAssoc(a, x, b);
    StripAfterLine(a, x + b);
    StripAfterLine(a, b);
    StripSpliceFirst(x, b);
  }

  lemma StripSpliceFirst(x: JsString, b: JsString)
    requires NoLineTerminator(x) && HasColons(x)
    requires b == [] || IsLineTerminator(b[0])
    ensures StripProperties(x + b) == StripProperties(b)
  {
    var s := x + b;
    assert forall k :: 0 <= k < |x| ==> !IsLineTerminator(s[k]) by {
      forall k | 0 <= k < |x| ensures !IsLineTerminator(s[k]) {
        assert s[k] == x[k];
      }
    }
    StripAt(s, |x|);
    PrefixOfConcat(x, b, |x|);
    AppendEmpty(x);
    StripAt(b, 0);
    assert StripLine(x) == [] && StripLine(b[..0]) == [];
    if b != [] {
      assert s[|x|] == b[0];
      SuffixPastLeft(x, b, |x| + 1);
    }
  }

  /** Text that ends with a line break is stripped independently of what
      follows it. */
  lemma {:induction false} StripAfterLine(a: JsString, c: JsString)
    requires a == [] || IsLineTerminator(a[|a| - 1])
    ensures StripProperties(a + c) == StripProperties(a) + StripProperties(c)
    decreases |a|
  {
    if a == [] {
      calc {
        StripProperties(a + c);
        { AppendEmpty(c); }
        StripProperties(c);
        { StripAt(a, 0); }
        StripProperties(a) + StripProperties(c);
      }
    } else {
      var e := LineEnd(a, 0);
      StripFirstLineOf(a, c);
      var a' := a[e + 1..];
      var prefix := StripLine(a[..e]) + [a[e]];
      assert StripProperties(a) == prefix + StripProperties(a') by {
        StripFirstLineOf(a, []);
        AppendEmpty(a);
        AppendEmpty(a');
      }
      assert StripProperties(a' + c) == StripProperties(a') + StripProperties(c) by {
        if a' != [] {
          assert a'[|a'| - 1] == a[|a| - 1];
        }
        StripAfterLine(a', c);
      }
      Regroup(StripProperties(a + c), prefix, StripProperties(a'), StripProperties(c), StripProperties(a));
    }
  }

  /** When the first line of `a` ends inside `a`, what follows `a` does not
      change how that line is stripped. */
  lemma StripFirstLineOf(a: JsString, c: JsString)
    requires a != [] && IsLineTerminator(a[|a| - 1])
    ensures LineEnd(a, 0) < |a|
    ensures var e := LineEnd(a, 0);
      StripProperties(a + c) == StripLine(a[..e]) + [a[e]] + StripProperties(a[e + 1..] + c)
  {
    var e := LineEnd(a, 0);
    LineEndSpec(a, 0);
    var s := a + c;
    forall k | 0 <= k < e ensures !IsLineTerminator(s[k]) {
      assert s[k] == a[k];
    }
    assert s[e] == a[e];
    StripAt(s, e);
    PrefixOfConcat(a, c, e);
    SuffixOfConcat(a, c, e + 1);
    var rest := StripProperties(a[e + 1..] + c);
    assert StripProperties(s) == StripLine(a[..e]) + ([a[e]] + rest);
    AppendAssoc(StripLine(a[..e]), [a[e]], rest);
  }

  lemma NoColonsJoin(l: JsString, t: CodeUnit, r: JsString)
    requires !HasColons(l) && IsLineTerminator(t) && !HasColons(r)
    ensures !HasColons(l + [t] + r)
  {
    var s := l + [t] + r;
    forall q | 0 <= q < |s| ensures !ColonsAt(s, q) {
      if q + 1 < |l| {
        NoColonsAt(l, q);
      } else if q > |l| {
        NoColonsAt(r, q - |l| - 1);
      }
    }
    NoColonsIntro(s);
  }

  lemma NoColonsSlice(s: JsString, i: nat, j: nat)
    requires i <= j <= |s| && !HasColons(s)
    ensures !HasColons(s[i..j])
  {
    forall q | 0 <= q < j - i ensures !ColonsAt(s[i..j], q) {
      NoColonsAt(s, i + q);
    }
    NoColonsIntro(s[i..j]);
  }

  /** The result splits into its first line and the result for the rest. */
  lemma {:induction false} StripFirstLine(s: JsString)
    ensures var e := LineEnd(s, 0); var r := StripProperties(s); var y := StripLine(s[..e]);
      LineEnd(r, 0) == |y| && r[..|y|] == y &&
      (e == |s| ==> r == y) &&
      (e < |s| ==> |y| < |r| && r[|y|] == s[e] && r[|y| + 1..] == StripProperties(s[e + 1..]))
  {
    var e := LineEnd(s, 0);
    var r := StripProperties(s);
    var y := StripLine(s[..e]);
    assert NoLineTerminator(y) by {
      LineEndSpec(s, 0);
      assert NoLineTerminator(s[..e]);
    }
    assert r == StripWith(s, e);
    AppendEmpty(y);
    if e < |s| {
      var tail := [s[e]] + StripProperties(s[e + 1..]);
      assert r == y + tail;
      LineEndSpec(s, 0);
      LineEndOfConcat(y, tail);
      PrefixOfConcat(y, tail, |y|);
      AppendAssoc(y, [s[e]], StripProperties(s[e + 1..]));
      SuffixPastLeft(y + [s[e]], StripProperties(s[e + 1..]), |y| + 1);
    } else {
      LineEndOfConcat(y, []);
    }
  }

  /** No line of the result contains `::`. */
  lemma {:induction false} StripHasNoColons(s: JsString)
    ensures !HasColons(StripProperties(s))
    decreases |s|
  {
    var e := LineEnd(s, 0);
    var y := StripLine(s[..e]);
    LineEndSpec(s, 0);
    assert StripProperties(s) == StripWith(s, e);
    if e < |s| {
      StripHasNoColons(s[e + 1..]);
      NoColonsJoin(y, s[e], StripProperties(s[e + 1..]));
      assert StripProperties(s) == y + [s[e]] + StripProperties(s[e + 1..]);
    } else {
      assert StripProperties(s) == y;
      assert !HasColons(y);
    }
  }

  /** The result is shorter than s exactly when s contains `::`. */
  lemma {:induction false} StripShortens(s: JsString)
    ensures |StripProperties(s)| <= |s|
    ensures HasColons(s) ==> |StripProperties(s)| < |s|
    decreases |s|
  {
    var e := LineEnd(s, 0);
    LineEndSpec(s, 0);
    assert StripProperties(s) == StripWith(s, e);
    if e < |s| {
      StripShortens(s[e + 1..]);
    }
    if HasColons(s) {
      var q := ColonsWitness(s);
      if q < e {
        assert ColonsAt(s[..e], q);
        ColonsFound(s[..e], q);
      } else {
        assert q != e && q + 1 != e;
        assert ColonsAt(s[e + 1..], q - e - 1);
        ColonsFound(s[e + 1..], q - e - 1);
      }
    }
  }

  /** The content is returned unchanged exactly when no line contains `::`. */
  lemma StripUnchanged(s: JsString)
    ensures StripProperties(s) == s <==> !HasColons(s)
  {
    StripShortens(s);
    if !HasColons(s) {
      StripNoColons(s);
    }
  }

  lemma {:induction false} StripNoColons(s: JsString)
    requires !HasColons(s)
    ensures StripProperties(s) == s
    decreases |s|
  {
    var e := LineEnd(s, 0);
    NoColonsSlice(s, 0, e);
    if e < |s| {
      NoColonsSlice(s, e + 1, |s|);
      SliceToEnd(s, e + 1);
      StripNoColons(s[e + 1..]);
    }
    StripKeepsLine(s, e);
  }

  /** A first line without `::` is kept, followed by the result for the rest. */
  lemma StripKeepsLine(s: JsString, e: nat)
    requires e == LineEnd(s, 0) && !HasColons(s[..e])
    requires e < |s| ==> StripProperties(s[e + 1..]) == s[e + 1..]
    ensures StripProperties(s) == s
  {
    assert StripProperties(s) == StripWith(s, e);
    var line := s[..e];
    assert StripLine(line) == line;
    if e < |s| {
      var rest := s[e + 1..];
      assert StripWith(s, e) == line + ([s[e]] + rest);
      AppendAssoc(line, [s[e]], rest);
      SplitAt(s, e);
    } else {
      assert StripWith(s, e) == line + [];
      AppendEmpty(s);
    }
  }

  /** Stripping twice is stripping once. */
  lemma StripIdempotent(s: JsString)
    ensures StripProperties(StripProperties(s)) == StripProperties(s)
  {
    StripHasNoColons(s);
    StripUnchanged(StripProperties(s));
  }

  /** Line by line: the result has as many lines as s, a line with `::` is
      empty and every other line is kept as it is. */
  lemma {:induction false} StripLines(s: JsString)
    ensures |Lines(StripProperties(s))| == |Lines(s)|
    ensures forall i :: 0 <= i < |Lines(s)| ==> Lines(StripProperties(s))[i] == StripLine(Lines(s)[i])
    decreases |s|
  {
    var e := LineEnd(s, 0);
    var r := StripProperties(s);
    var y := StripLine(s[..e]);
    StripFirstLine(s);
    if e < |s| {
      var rest := s[e + 1..];
      StripLines(rest);
      LinesCons(r, |y|);
      LinesCons(s, e);
      LinesStep(Lines(s), Lines(r), s[..e], y, Lines(rest), Lines(StripProperties(rest)));
    } else {
      assert Lines(r) == [y];
      assert Lines(s) == [s[..e]];
    }
  }

  /** Line-wise stripping extends from the remaining lines to all lines. */
  lemma LinesStep(ls: seq<JsString>, lr: seq<JsString>, l0: JsString, y: JsString, lsRest: seq<JsString>, lrRest: seq<JsString>)
    requires ls == [l0] + lsRest && lr == [y] + lrRest && y == StripLine(l0)
    requires |lrRest| == |lsRest| && forall i :: 0 <= i < |lsRest| ==> lrRest[i] == StripLine(lsRest[i])
    ensures |lr| == |ls| && forall i :: 0 <= i < |ls| ==> lr[i] == StripLine(ls[i])
  {
    forall i | 0 <= i < |ls| ensures lr[i] == StripLine(ls[i]) {
      if i > 0 {
        assert lr[i] == lrRest[i - 1] && ls[i] == lsRest[i - 1];
      }
    }
  }

  /** The lines of s are its first line followed by the lines after it. */
  lemma LinesCons(s: JsString, e: nat)
    requires e == LineEnd(s, 0) && e < |s|
    ensures Lines(s) == [s[..e]] + Lines(s[e + 1..])
  {
  }

  /** Every line terminator is kept, in order. */
  lemma {:induction false} StripKeepsTerminators(s: JsString)
    ensures Terminators(StripProperties(s)) == Terminators(s)
    decreases |s|
  {
    var e := LineEnd(s, 0);
    var r := StripProperties(s);
    var y := StripLine(s[..e]);
    StripFirstLine(s);
    if e < |s| {
      StripKeepsTerminators(s[e + 1..]);
      assert Terminators(r) == [r[|y|]] + Terminators(r[|y| + 1..]);
    } else {
      LineEndSpec(r, 0);
    }
  }

  /** The result is empty exactly when s is empty or is a single line that
      contains `::`; content made of property lines and line breaks keeps its
      line breaks, so the result is not empty. */
  lemma StripEmpty(s: JsString)
    ensures StripProperties(s) == [] <==> s == [] || (NoLineTerminator(s) && HasColons(s))
  {
    var e := LineEnd(s, 0);
    LineEndSpec(s, 0);
    assert StripProperties(s) == StripWith(s, e);
    if NoLineTerminator(s) {
      LineEndIs(s, 0, |s|);
      AppendEmpty(s);
    } else {
      assert e < |s|;
    }
  }
}
