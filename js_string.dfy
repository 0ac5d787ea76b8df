/**
  JavaScript strings as the gallery sees them: sequences of UTF-16 code units,
  with the few built-in string operations it calls (`trim`, `startsWith`,
  `replace` with a string pattern, `String(array)`) and the line structure that
  the regular expressions' `.` depends on.
*/
module JsString {
  import opened Wrappers

  /** One UTF-16 code unit; `charCodeAt` returns one of these. */
  newtype CodeUnit = x: int | 0 <= x < 0x1_0000

  type JsString = seq<CodeUnit>

  // Code units that the gallery's patterns and literals mention.
  const NUMBER_SIGN: CodeUnit := 0x23         // '#'
  const EXCLAMATION_MARK: CodeUnit := 0x21    // '!'
  const LEFT_PARENTHESIS: CodeUnit := 0x28    // '('
  const RIGHT_PARENTHESIS: CodeUnit := 0x29   // ')'
  const COMMA: CodeUnit := 0x2C               // ','
  const FULL_STOP: CodeUnit := 0x2E           // '.'
  const DIGIT_ZERO: CodeUnit := 0x30          // '0'
  const COLON: CodeUnit := 0x3A               // ':'
  const LEFT_SQUARE_BRACKET: CodeUnit := 0x5B  // '['
  const RIGHT_SQUARE_BRACKET: CodeUnit := 0x5D // ']'
  const SMALL_A: CodeUnit := 0x61             // 'a'

  /** ECMAScript LineTerminator: LF, CR, LINE SEPARATOR, PARAGRAPH SEPARATOR.
      These are the code units that the regular expression `.` does not match. */
  predicate IsLineTerminator(c: CodeUnit) {
    c == 0x000A || c == 0x000D || c == 0x2028 || c == 0x2029
  }

  /** ECMAScript WhiteSpace: TAB, VT, FF, ZWNBSP and the space separators (Zs). */
  predicate IsWhiteSpace(c: CodeUnit) {
    c == 0x0009 || c == 0x000B || c == 0x000C || c == 0xFEFF ||
    c == 0x0020 || c == 0x00A0 || c == 0x1680 || (0x2000 <= c <= 0x200A) ||
    c == 0x202F || c == 0x205F || c == 0x3000
  }

  /** What `String.prototype.trim` removes from either end. */
  predicate IsTrimmable(c: CodeUnit) {
    IsWhiteSpace(c) || IsLineTerminator(c)
  }

  predicate AllTrimmable(s: JsString) {
    forall k :: 0 <= k < |s| ==> IsTrimmable(s[k])
  }

  predicate NoLineTerminator(s: JsString) {
    forall k :: 0 <= k < |s| ==> !IsLineTerminator(s[k])
  }

  /** The first index at or after `i` whose code unit is not trimmable, or |s|. */
  function SkipLeading(s: JsString, i: nat): (a: nat)
    requires i <= |s|
    ensures i <= a <= |s|
    ensures forall k :: i <= k < a ==> IsTrimmable(s[k])
    ensures a < |s| ==> !IsTrimmable(s[a])
    decreases |s| - i
  {
    if i < |s| && IsTrimmable(s[i]) then SkipLeading(s, i + 1) else i
  }

  /** The least index `b` in [lo, j] such that s[b..j] is all trimmable. */
  function SkipTrailing(s: JsString, lo: nat, j: nat): (b: nat)
    requires lo <= j <= |s|
    ensures lo <= b <= j
    ensures forall k :: b <= k < j ==> IsTrimmable(s[k])
    ensures b > lo ==> !IsTrimmable(s[b - 1])
    decreases j
  {
    if j > lo && IsTrimmable(s[j - 1]) then SkipTrailing(s, lo, j - 1) else j
  }

  /** `String.prototype.trim`. */
  function Trim(s: JsString): (r: JsString)
    ensures |r| <= |s|
    ensures r == [] || (!IsTrimmable(r[0]) && !IsTrimmable(r[|r| - 1]))
    ensures r == [] <==> AllTrimmable(s)
  {
    var a := SkipLeading(s, 0);
    var b := SkipTrailing(s, a, |s|);
    assert a < |s| ==> s[a] == s[a..b][0] || a == b;
    s[a..b]
  }

  /** Trimming leaves a string alone exactly when both its ends are kept. */
  lemma TrimUnchanged(s: JsString)
    ensures Trim(s) == s <==> (s == [] || (!IsTrimmable(s[0]) && !IsTrimmable(s[|s| - 1])))
  {
    if s != [] && !IsTrimmable(s[0]) && !IsTrimmable(s[|s| - 1]) {
      assert SkipLeading(s, 0) == 0;
      assert SkipTrailing(s, 0, |s|) == |s|;
    }
  }

  /** Trimming removes trimmable padding around a string whose ends are kept. */
  lemma TrimPadded(w1: JsString, s: JsString, w2: JsString)
    requires AllTrimmable(w1) && AllTrimmable(w2)
    requires s != [] && !IsTrimmable(s[0]) && !IsTrimmable(s[|s| - 1])
    ensures Trim(w1 + s + w2) == s
  {
    var t := w1 + s + w2;
    assert t[|w1|] == s[0];
    assert t[|w1| + |s| - 1] == s[|s| - 1];
    SkipLeadingTo(t, 0, |w1|);
    SkipTrailingTo(t, |w1|, |t|, |w1| + |s|);
    assert t[|w1|..|w1| + |s|] == s;
  }

  lemma {:induction false} SkipLeadingTo(t: JsString, i: nat, a: nat)
    requires i <= a < |t| && !IsTrimmable(t[a])
    requires forall k :: i <= k < a ==> IsTrimmable(t[k])
    ensures SkipLeading(t, i) == a
    decreases a - i
  {
    if i < a {
      SkipLeadingTo(t, i + 1, a);
    }
  }

  lemma {:induction false} SkipTrailingTo(t: JsString, lo: nat, j: nat, b: nat)
    requires lo < b <= j <= |t| && !IsTrimmable(t[b - 1])
    requires forall k :: b <= k < j ==> IsTrimmable(t[k])
    ensures SkipTrailing(t, lo, j) == b
    decreases j - b
  {
    if b < j {
      SkipTrailingTo(t, lo, j - 1, b);
    }
  }

  /** The end of the line that index `i` lies on: the first line terminator at or
      after `i`, or |s|. */
  function LineEnd(s: JsString, i: nat): (e: nat)
    requires i <= |s|
    ensures i <= e <= |s|
    decreases |s| - i
  {
    if i == |s| || IsLineTerminator(s[i]) then i else LineEnd(s, i + 1)
  }

  lemma {:induction false} LineEndSpec(s: JsString, i: nat)
    requires i <= |s|
    ensures LineEnd(s, i) == |s| || IsLineTerminator(s[LineEnd(s, i)])
    ensures forall k :: i <= k < LineEnd(s, i) ==> !IsLineTerminator(s[k])
    decreases |s| - i
  {
    if i < |s| && !IsLineTerminator(s[i]) {
      LineEndSpec(s, i + 1);
    }
  }

  /** Every index between `i` and its line end shares that line end. */
  lemma {:induction false} SameLine(s: JsString, i: nat, x: nat)
    requires i <= |s| && i <= x <= LineEnd(s, i)
    ensures LineEnd(s, x) == LineEnd(s, i)
    decreases x - i
  {
    if x > i {
      SameLine(s, i + 1, x);
    }
  }

  /** The line end is the first line terminator at or after `i`. */
  lemma LineEndIs(s: JsString, i: nat, e: nat)
    requires i <= e <= |s|
    requires forall k :: i <= k < e ==> !IsLineTerminator(s[k])
    requires e == |s| || IsLineTerminator(s[e])
    ensures LineEnd(s, i) == e
    decreases e - i
  {
    if i < e {
      LineEndIs(s, i + 1, e);
    }
  }

  /** s split around the unit at e. */
  lemma SplitAt(s: JsString, e: nat)
    requires e < |s|
    ensures s == s[..e] + [s[e]] + s[e + 1..]
  {
  }

  /** A prefix of a concatenation that ends inside its left part. */
  lemma PrefixOfConcat(a: JsString, c: JsString, i: nat)
    requires i <= |a|
    ensures (a + c)[..i] == a[..i]
  {
  }

  lemma AppendEmpty(a: JsString)
    ensures a + [] == a && [] + a == a && a[..|a|] == a
  {
  }

  /** Regrouping a concatenation: `p + (m + c)` is `(p + m) + c`. */
  lemma Regroup(whole: JsString, p: JsString, m: JsString, c: JsString, left: JsString)
    requires whole == p + (m + c) && left == p + m
    ensures whole == left + c
  {
  }

  lemma AppendAssoc(a: JsString, b: JsString, c: JsString)
    ensures a + (b + c) == (a + b) + c
  {
  }

  /** A suffix of a concatenation that starts inside its right part. */
  lemma SuffixPastLeft(a: JsString, c: JsString, i: nat)
    requires |a| <= i <= |a| + |c|
    ensures (a + c)[i..] == c[i - |a|..]
  {
  }

  lemma SliceToEnd(s: JsString, i: nat)
    requires i <= |s|
    ensures s[i..|s|] == s[i..]
  {
  }

  /** A suffix of a concatenation that starts inside its left part. */
  lemma SuffixOfConcat(a: JsString, c: JsString, i: nat)
    requires i <= |a|
    ensures (a + c)[i..] == a[i..] + c
  {
    forall k | 0 <= k < |a| + |c| - i ensures (a + c)[i..][k] == (a[i..] + c)[k] {
      if k < |a| - i {
        assert (a + c)[i..][k] == a[i + k];
      } else {
        assert (a + c)[i..][k] == c[k - (|a| - i)];
      }
    }
  }

  /** A line with no terminator followed by a line break (or by nothing)
      forms the first line of the concatenation. */
  lemma LineEndOfConcat(y: JsString, c: JsString)
    requires NoLineTerminator(y) && (c == [] || IsLineTerminator(c[0]))
    ensures LineEnd(y + c, 0) == |y|
  {
    var s := y + c;
    forall k | 0 <= k < |y| ensures !IsLineTerminator(s[k]) {
      assert s[k] == y[k];
    }
    if c != [] {
      assert s[|y|] == c[0];
    }
    LineEndIs(s, 0, |y|);
  }

  /** `s.startsWith(prefix)`. */
  predicate StartsWith(s: JsString, prefix: JsString)
    ensures StartsWith(s, prefix) <==> exists t :: s == prefix + t
  {
    if |prefix| <= |s| && s[..|prefix|] == prefix then
      assert s == prefix + s[|prefix|..];
      true
    else false
  }

  predicate OccursAt(s: JsString, pat: JsString, k: nat) {
    k + |pat| <= |s| && s[k..k + |pat|] == pat
  }

  /** `s.indexOf(pat, i)`: where `pat` first occurs at or after `i`. */
  function IndexOfFrom(s: JsString, pat: JsString, i: nat): (r: Option<nat>)
    requires i <= |s|
    ensures r.Some? ==> i <= r.value && OccursAt(s, pat, r.value)
    ensures r.Some? ==> forall k :: i <= k < r.value ==> !OccursAt(s, pat, k)
    ensures r.None? ==> forall k :: i <= k ==> !OccursAt(s, pat, k)
    decreases |s| - i
  {
    if i + |pat| > |s| then None
    else if s[i..i + |pat|] == pat then Some(i)
    else IndexOfFrom(s, pat, i + 1)
  }

  /** `s.replace(pat, rep)` with a string pattern: only the first occurrence
      is replaced. */
  function ReplaceString(s: JsString, pat: JsString, rep: JsString): (r: JsString)
    ensures (forall k :: 0 <= k ==> !OccursAt(s, pat, k)) ==> r == s
    ensures forall k: nat :: OccursAt(s, pat, k) && (forall k' :: 0 <= k' < k ==> !OccursAt(s, pat, k')) ==>
      r == s[..k] + rep + s[k + |pat|..]
  {
    match IndexOfFrom(s, pat, 0)
    case Some(i) => s[..i] + rep + s[i + |pat|..]
    case None => s
  }

  /** `String(items)` for an array of strings, which joins them with commas. */
  function JoinWithCommas(items: seq<JsString>): (r: JsString)
    ensures items == [] ==> r == []
    ensures |items| == 1 ==> r == items[0]
  {
    if items == [] then []
    else if |items| == 1 then items[0]
    else items[0] + [COMMA] + JoinWithCommas(items[1..])
  }
}
