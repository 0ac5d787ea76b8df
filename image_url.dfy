/** `processImageURL`: a cover property is either a plain path or URL, or a
    Markdown image `![alt](url)` whose url is wanted. */
module ImageUrl {
  import opened Wrappers
  import opened JsString
  import opened Regex

  /** `/!\[.*\]\((.*)\)/`: the url of an image reference is group 1. */
  const ImagePattern: Pattern := [
    Unit(EXCLAMATION_MARK), Unit(LEFT_SQUARE_BRACKET), AnyStar(false),
    Unit(RIGHT_SQUARE_BRACKET), Unit(LEFT_PARENTHESIS), AnyStar(true),
    Unit(RIGHT_PARENTHESIS)]

  /** `processImageURL(rawImageURL)`: the trimmed value, or group 1 of the
      first match when there is one. */
  function ProcessImageUrl(raw: JsString): (r: JsString)
    ensures |r| <= |Trim(raw)| <= |raw|
  {
    var t := Trim(raw);
    match FirstMatch(t, ImagePattern)
    case Some(Match(_, _, Some(g))) => t[g.lo..g.hi]
    case _ => t
  }

  // ----- Image references, independently of the engine --------------------

  /** An image reference in t: `![` at p, `](` at k and `)` at j, in this
      order and all on one line; its url would be t[k + 2..j]. */
  predicate RefAt(t: JsString, p: nat, k: nat, j: nat) {
    p + 2 <= k && k + 2 <= j < |t| &&
    t[p] == EXCLAMATION_MARK && t[p + 1] == LEFT_SQUARE_BRACKET &&
    t[k] == RIGHT_SQUARE_BRACKET && t[k + 1] == LEFT_PARENTHESIS &&
    t[j] == RIGHT_PARENTHESIS &&
    forall m :: p <= m <= j ==> !IsLineTerminator(t[m])
  }

  /** The reference the greedy `.*`s settle on for a start p: the last `)`
      of the line, and before it the last `](`. */
  ghost predicate GreedyRef(t: JsString, p: nat, k: nat, j: nat) {
    RefAt(t, p, k, j) &&
    (forall k': nat, j': nat :: RefAt(t, p, k', j') ==> j' <= j) &&
    (forall k': nat :: RefAt(t, p, k', j) ==> k' <= k)
  }

  /** The greedy reference at the first start position that has one. */
  ghost predicate FirstRef(t: JsString, p: nat, k: nat, j: nat) {
    GreedyRef(t, p, k, j) && forall p': nat, k': nat, j': nat :: p' < p ==> !RefAt(t, p', k', j')
  }

  /** `[alt](url)` behind `!`, as a string. */
  function ImageRef(alt: JsString, url: JsString): JsString {
    [EXCLAMATION_MARK, LEFT_SQUARE_BRACKET] + alt + [RIGHT_SQUARE_BRACKET, LEFT_PARENTHESIS] + url + [RIGHT_PARENTHESIS]
  }

  // ----- What the engine does with the pattern ------------------------------

  lemma PatternTails()
    ensures ImagePattern[2..][1..] == ImagePattern[3..]
    ensures ImagePattern[3..][1..][1..] == ImagePattern[5..]
    ensures ImagePattern[5..][1..] == [Unit(RIGHT_PARENTHESIS)]
    ensures [Unit(RIGHT_PARENTHESIS)][1..] == []
    ensures ImagePattern[1..] == ImagePattern[1..][..1] + ImagePattern[2..]
  {
  }

  /** `\)` at j. */
  lemma CloseRest(t: JsString, j: nat)
    requires j <= |t|
    ensures MatchHere(t, [Unit(RIGHT_PARENTHESIS)], j) ==
      if j < |t| && t[j] == RIGHT_PARENTHESIS then Some(Tail(j + 1, None)) else None
  {
    PatternTails();
  }

  /** `(.*)\)` from g fails exactly when no `)` follows on g's line. */
  lemma GroupFails(t: JsString, g: nat)
    requires g <= |t|
    ensures MatchHere(t, ImagePattern[5..], g).None? <==>
      forall j :: g <= j < LineEnd(t, g) ==> t[j] != RIGHT_PARENTHESIS
  {
    var p5 := ImagePattern[5..];
    var e := LineEnd(t, g);
    LineEndSpec(t, g);
    PatternTails();
    assert MatchHere(t, p5, g) == StarFrom(t, p5, g, e);
    StarFromFails(t, p5, g, e);
    if MatchHere(t, p5, g).None? {
      forall j | g <= j < e ensures t[j] != RIGHT_PARENTHESIS {
        CloseRest(t, j);
      }
    } else {
      var j := GroupChoice(t, g);
    }
  }

  /** When `(.*)\)` matches from g, group 1 runs from g to the last `)` of the line. */
  lemma GroupChoice(t: JsString, g: nat) returns (j: nat)
    requires g <= |t| && MatchHere(t, ImagePattern[5..], g).Some?
    ensures g <= j < LineEnd(t, g) && t[j] == RIGHT_PARENTHESIS
    ensures forall j' :: j < j' < LineEnd(t, g) ==> t[j'] != RIGHT_PARENTHESIS
    ensures MatchHere(t, ImagePattern[5..], g) == Some(Tail(j + 1, Some(Span(g, j))))
  {
    var p5 := ImagePattern[5..];
    var e := LineEnd(t, g);
    LineEndSpec(t, g);
    PatternTails();
    assert MatchHere(t, p5, g) == StarFrom(t, p5, g, e);
    j := StarFromChoice(t, p5, g, e);
    CloseRest(t, j);
    forall j' | j < j' < e ensures t[j'] != RIGHT_PARENTHESIS {
      CloseRest(t, j');
    }
  }

  /** `\]\((.*)\)` at k. */
  lemma RestAt(t: JsString, k: nat)
    requires k <= |t|
    ensures MatchHere(t, ImagePattern[3..], k) ==
      if k + 1 < |t| && t[k] == RIGHT_SQUARE_BRACKET && t[k + 1] == LEFT_PARENTHESIS
      then MatchHere(t, ImagePattern[5..], k + 2) else None
  {
    PatternTails();
  }

  /** The whole pattern at p. */
  lemma PatternAt(t: JsString, p: nat)
    requires p <= |t|
    ensures MatchHere(t, ImagePattern, p) ==
      if p + 1 < |t| && t[p] == EXCLAMATION_MARK && t[p + 1] == LEFT_SQUARE_BRACKET
      then StarFrom(t, ImagePattern[2..], p + 2, LineEnd(t, p + 2)) else None
  {
    PatternTails();
    var p1 := ImagePattern[1..];
    var p2 := ImagePattern[2..];
    assert p1[1..] == p2;
    if p + 1 < |t| && t[p] == EXCLAMATION_MARK && t[p + 1] == LEFT_SQUARE_BRACKET {
      assert MatchHere(t, ImagePattern, p) == MatchHere(t, p1, p + 1);
      assert MatchHere(t, p1, p + 1) == MatchHere(t, p2, p + 2);
    }
  }

  /** A reference lies within the line of any position between its `![` and its `)`. */
  lemma RefOnLine(t: JsString, p: nat, k: nat, j: nat, i: nat)
    requires RefAt(t, p, k, j) && p <= i <= j
    ensures j < LineEnd(t, i)
  {
    LineEndSpec(t, i);
  }

  /** The `](` at k of a reference from p, seen from the `.*` after `![`. */
  lemma RefRest(t: JsString, p: nat, k: nat, j: nat)
    requires RefAt(t, p, k, j)
    ensures k <= LineEnd(t, p + 2)
    ensures LineEnd(t, k + 2) == LineEnd(t, p + 2)
    ensures MatchHere(t, ImagePattern[3..], k).Some?
  {
    RefOnLine(t, p, k, j, p + 2);
    SameLine(t, p + 2, k + 2);
    RestAt(t, k);
    GroupFails(t, k + 2);
  }

  /** Anchored at p, the pattern fails exactly when no reference starts at p. */
  lemma AnchoredFails(t: JsString, p: nat)
    requires p <= |t|
    ensures MatchHere(t, ImagePattern, p).None? <==> forall k: nat, j: nat :: !RefAt(t, p, k, j)
  {
    PatternAt(t, p);
    if MatchHere(t, ImagePattern, p).Some? {
      var k, j := AnchoredChoice(t, p);
    } else {
      forall k: nat, j: nat | RefAt(t, p, k, j) ensures false {
        RefRest(t, p, k, j);
        var p2 := ImagePattern[2..];
        PatternTails();
        StarFromFails(t, p2, p + 2, LineEnd(t, p + 2));
      }
    }
  }

  /** Anchored at p, a match is the greedy reference at p, and group 1 its url. */
  lemma AnchoredChoice(t: JsString, p: nat) returns (k: nat, j: nat)
    requires p <= |t| && MatchHere(t, ImagePattern, p).Some?
    ensures GreedyRef(t, p, k, j)
    ensures MatchHere(t, ImagePattern, p) == Some(Tail(j + 1, Some(Span(k + 2, j))))
  {
    PatternAt(t, p);
    PatternTails();
    var p2 := ImagePattern[2..];
    var i := p + 2;
    var e := LineEnd(t, i);
    LineEndSpec(t, i);
    k := StarFromChoice(t, p2, i, e);
    RestAt(t, k);
    assert k + 2 <= e;
    SameLine(t, i, k + 2);
    j := GroupChoice(t, k + 2);
    assert RefAt(t, p, k, j);
    forall k': nat, j': nat | RefAt(t, p, k', j') ensures j' <= j {
      RefOnLine(t, p, k', j', i);
    }
    forall k': nat | RefAt(t, p, k', j) ensures k' <= k {
      RefRest(t, p, k', j);
    }
  }

  lemma GreedyUnique(t: JsString, p: nat, k: nat, j: nat, k': nat, j': nat)
    requires GreedyRef(t, p, k, j) && GreedyRef(t, p, k', j')
    ensures k == k' && j == j'
  {
  }

  // ----- processImageURL ------------------------------------------------------

  /** Without an image reference the trimmed value is returned. */
  lemma ImageUrlUnmatched(raw: JsString)
    requires forall p: nat, k: nat, j: nat :: !RefAt(Trim(raw), p, k, j)
    ensures ProcessImageUrl(raw) == Trim(raw)
  {
    var t := Trim(raw);
    SearchFromFails(t, ImagePattern, 0);
    forall y | 0 <= y <= |t| ensures MatchHere(t, ImagePattern, y).None? {
      AnchoredFails(t, y);
    }
  }

  /** With an image reference, the url of the first one, taken greedily, is returned. */
  lemma ImageUrlMatched(raw: JsString, p: nat, k: nat, j: nat)
    requires FirstRef(Trim(raw), p, k, j)
    ensures ProcessImageUrl(raw) == Trim(raw)[k + 2..j]
  {
    var t := Trim(raw);
    forall y | 0 <= y < p ensures MatchHere(t, ImagePattern, y).None? {
      AnchoredFails(t, y);
    }
    AnchoredFails(t, p);
    var k', j' := AnchoredChoice(t, p);
    GreedyUnique(t, p, k, j, k', j');
    SearchFromPicks(t, ImagePattern, 0, p);
  }

  /** Whenever a reference occurs, there is a first greedy one. */
  lemma FirstRefExists(t: JsString, p0: nat, k0: nat, j0: nat) returns (p: nat, k: nat, j: nat)
    requires RefAt(t, p0, k0, j0)
    ensures FirstRef(t, p, k, j)
  {
    AnchoredFails(t, p0);
    SearchFromFails(t, ImagePattern, 0);
    SearchFromChoice(t, ImagePattern, 0);
    p := FirstMatch(t, ImagePattern).value.start;
    k, j := AnchoredChoice(t, p);
    forall p': nat, k': nat, j': nat | p' < p ensures !RefAt(t, p', k', j') {
      AnchoredFails(t, p');
    }
  }

  /** The result is the trimmed value when there is no reference; otherwise it
      is a url that occurs in the trimmed value as `](url)`, on one line. */
  lemma ImageUrlShape(raw: JsString)
    ensures var t := Trim(raw); var r := ProcessImageUrl(raw);
      ((forall p: nat, k: nat, j: nat :: !RefAt(t, p, k, j)) ==> r == t) &&
      ((exists p: nat, k: nat, j: nat :: RefAt(t, p, k, j)) ==>
        NoLineTerminator(r) &&
        exists k: nat :: OccursAt(t, [RIGHT_SQUARE_BRACKET, LEFT_PARENTHESIS] + r + [RIGHT_PARENTHESIS], k))
  {
    var t := Trim(raw);
    if forall p: nat, k: nat, j: nat :: !RefAt(t, p, k, j) {
      ImageUrlUnmatched(raw);
    } else {
      var p0: nat, k0: nat, j0: nat :| RefAt(t, p0, k0, j0);
      var p, k, j := FirstRefExists(t, p0, k0, j0);
      ImageUrlMatched(raw, p, k, j);
      UrlOccurs(t, p, k, j);
    }
  }

  /** The url of a reference, framed by `](` and `)`, occurs at its `](`. */
  lemma UrlOccurs(t: JsString, p: nat, k: nat, j: nat)
    requires RefAt(t, p, k, j)
    ensures var r := t[k + 2..j];
      NoLineTerminator(r) && OccursAt(t, [RIGHT_SQUARE_BRACKET, LEFT_PARENTHESIS] + r + [RIGHT_PARENTHESIS], k)
  {
    var r := t[k + 2..j];
    forall m | 0 <= m < |r| ensures !IsLineTerminator(r[m]) {
      assert r[m] == t[k + 2 + m];
    }
    assert t[k..j + 1] == [RIGHT_SQUARE_BRACKET, LEFT_PARENTHESIS] + r + [RIGHT_PARENTHESIS];
  }

  /** `![alt](url)` on one line, with surrounding white space and a url
      without `](`, gives url: `![alt](foo/bar.png)` gives `foo/bar.png`,
      `![alt]()` gives the empty string, `![a](b)c)` gives `b)c`, and for the
      text `![a](b) ![c](d)` (alt `a](b) ![c`, url `d`) the greedy `.*`s give
      `d`. */
  lemma ImageUrlOfRef(w1: JsString, alt: JsString, url: JsString, w2: JsString)
    requires AllTrimmable(w1) && AllTrimmable(w2)
    requires NoLineTerminator(alt) && NoLineTerminator(url)
    requires forall m :: 0 <= m < |url| - 1 ==> !(url[m] == RIGHT_SQUARE_BRACKET && url[m + 1] == LEFT_PARENTHESIS)
    ensures ProcessImageUrl(w1 + ImageRef(alt, url) + w2) == url
  {
    var t := ImageRef(alt, url);
    var k := 2 + |alt|;
    var j := |t| - 1;
    ImageRefUnits(alt, url);
    TrimPadded(w1, t, w2);
    ImageRefIsFirst(alt, url);
    ImageUrlMatched(w1 + t + w2, 0, k, j);
    assert t[k + 2..j] == url;
  }

  /** Where each part of `![alt](url)` sits. */
  lemma ImageRefUnits(alt: JsString, url: JsString)
    ensures var t := ImageRef(alt, url); var k := 2 + |alt|;
      |t| == k + |url| + 3 &&
      t[0] == EXCLAMATION_MARK && t[1] == LEFT_SQUARE_BRACKET &&
      (forall m :: 0 <= m < |alt| ==> t[2 + m] == alt[m]) &&
      t[k] == RIGHT_SQUARE_BRACKET && t[k + 1] == LEFT_PARENTHESIS &&
      (forall m :: 0 <= m < |url| ==> t[k + 2 + m] == url[m]) &&
      t[|t| - 1] == RIGHT_PARENTHESIS
  {
  }

  /** In `![alt](url)`, with a url free of `](`, the reference at 0
      ending at the last `)` is the first greedy one. */
  lemma ImageRefIsFirst(alt: JsString, url: JsString)
    requires NoLineTerminator(alt) && NoLineTerminator(url)
    requires forall m :: 0 <= m < |url| - 1 ==> !(url[m] == RIGHT_SQUARE_BRACKET && url[m + 1] == LEFT_PARENTHESIS)
    ensures var t := ImageRef(alt, url); FirstRef(t, 0, 2 + |alt|, |t| - 1)
  {
    var t := ImageRef(alt, url);
    var k := 2 + |alt|;
    var j := |t| - 1;
    ImageRefUnits(alt, url);
    forall m | 0 <= m <= j ensures !IsLineTerminator(t[m]) {
      if 2 <= m < k {
        assert t[m] == alt[m - 2];
      } else if k + 2 <= m < j {
        assert t[m] == url[m - k - 2];
      }
    }
    assert RefAt(t, 0, k, j);
    assert forall k': nat :: RefAt(t, 0, k', j) ==> k' <= k;
  }
}
