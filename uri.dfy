/**
  `encodeURI` as ECMA-262 defines it, through its Encode operation: every
  code unit outside the URI character set is replaced by the percent-encoded
  UTF-8 bytes of its code point, a surrogate pair standing for one code
  point; a lone surrogate is a URIError, here `None`.
*/
module Uri {
  import opened Wrappers
  import opened JsString

  const PERCENT_SIGN: CodeUnit := 0x25

  /** The code units `encodeURI` keeps: letters, digits, `-_.!~*'()`,
      `;/?:@&=+$,` and `#`. */
  predicate IsUriKept(c: CodeUnit) {
    (0x41 <= c <= 0x5A) || (0x61 <= c <= 0x7A) || (0x30 <= c <= 0x39) ||
    c in {0x2D, 0x5F, 0x2E, 0x21, 0x7E, 0x2A, 0x27, 0x28, 0x29,
          0x3B, 0x2F, 0x3F, 0x3A, 0x40, 0x26, 0x3D, 0x2B, 0x24, 0x2C, 0x23}
  }

  predicate AllKept(s: JsString) {
    forall k :: 0 <= k < |s| ==> IsUriKept(s[k])
  }

  predicate IsHighSurrogate(c: CodeUnit) {
    0xD800 <= c <= 0xDBFF
  }

  predicate IsLowSurrogate(c: CodeUnit) {
    0xDC00 <= c <= 0xDFFF
  }

  /** The code unit at k is a surrogate that is not part of a pair. */
  predicate LoneAt(s: JsString, k: nat)
    requires k < |s|
  {
    (IsHighSurrogate(s[k]) && (k + 1 == |s| || !IsLowSurrogate(s[k + 1]))) ||
    (IsLowSurrogate(s[k]) && (k == 0 || !IsHighSurrogate(s[k - 1])))
  }

  predicate HasLoneSurrogate(s: JsString) {
    exists k :: 0 <= k < |s| && LoneAt(s, k)
  }

  /** An upper-case hexadecimal digit, as `encodeURI` writes them. */
  function UpperHexDigit(d: nat): (c: CodeUnit)
    requires d < 16
    ensures IsUriKept(c)
  {
    if d < 10 then (0x30 + d) as CodeUnit else (0x41 + d - 10) as CodeUnit
  }

  /** The UTF-8 encoding of a code point. */
  function Utf8(cp: nat): (bytes: seq<nat>)
    requires cp < 0x11_0000
    ensures 1 <= |bytes| <= 4 && forall i :: 0 <= i < |bytes| ==> bytes[i] < 256
  {
    if cp < 0x80 then [cp]
    else if cp < 0x800 then [0xC0 + cp / 64, 0x80 + cp % 64]
    else if cp < 0x1_0000 then [0xE0 + cp / 4096, 0x80 + cp / 64 % 64, 0x80 + cp % 64]
    else [0xF0 + cp / 262144, 0x80 + cp / 4096 % 64, 0x80 + cp / 64 % 64, 0x80 + cp % 64]
  }

  /** `%XY` for every byte. */
  function Escape(bytes: seq<nat>): (r: JsString)
    requires forall i :: 0 <= i < |bytes| ==> bytes[i] < 256
    ensures |r| == 3 * |bytes|
    ensures forall k :: 0 <= k < |r| ==> IsUriKept(r[k]) || r[k] == PERCENT_SIGN
  {
    if bytes == [] then []
    else [PERCENT_SIGN, UpperHexDigit(bytes[0] / 16), UpperHexDigit(bytes[0] % 16)] + Escape(bytes[1..])
  }

  function Prepend(p: JsString, r: Option<JsString>): Option<JsString> {
    match r
    case Some(t) => Some(p + t)
    case None => None
  }

  /** `encodeURI(s)`; `None` is the URIError. The result is at least as long
      as s and made of kept code units and `%` only. */
  function EncodeUri(s: JsString): (r: Option<JsString>)
    ensures r.Some? ==>
      |r.value| >= |s| &&
      (forall k :: 0 <= k < |r.value| ==> IsUriKept(r.value[k]) || r.value[k] == PERCENT_SIGN)
    decreases |s|
  {
    if s == [] then Some([])
    else
      var c := s[0];
      if IsUriKept(c) then Prepend([c], EncodeUri(s[1..]))
      else if !IsHighSurrogate(c) && !IsLowSurrogate(c) then Prepend(Escape(Utf8(c as nat)), EncodeUri(s[1..]))
      else if IsHighSurrogate(c) && |s| >= 2 && IsLowSurrogate(s[1]) then
        var cp := 0x1_0000 + (c as nat - 0xD800) * 0x400 + (s[1] as nat - 0xDC00);
        Prepend(Escape(Utf8(cp)), EncodeUri(s[2..]))
      else None
  }

  // ----- Properties ----------------------------------------------------------

  /** `encodeURI` fails exactly when the string holds a lone surrogate. */
  lemma {:induction false} EncodeFails(s: JsString)
    ensures EncodeUri(s).None? <==> HasLoneSurrogate(s)
    decreases |s|
  {
    if s != [] {
      var c := s[0];
      if !IsHighSurrogate(c) && !IsLowSurrogate(c) {
        assert !LoneAt(s, 0);
        LoneRest(s, 1);
        EncodeFails(s[1..]);
      } else if IsHighSurrogate(c) && |s| >= 2 && IsLowSurrogate(s[1]) {
        assert !LoneAt(s, 0) && !LoneAt(s, 1);
        LoneRest(s, 2);
        EncodeFails(s[2..]);
      } else {
        assert LoneAt(s, 0);
      }
    }
  }

  /** Past a prefix without lone surrogates that does not end in a high
      surrogate, the lone surrogates are those of the rest. */
  lemma LoneRest(s: JsString, d: nat)
    requires 1 <= d <= |s| && !IsHighSurrogate(s[d - 1])
    requires forall k :: 0 <= k < d ==> !LoneAt(s, k)
    ensures HasLoneSurrogate(s) <==> HasLoneSurrogate(s[d..])
  {
    var t := s[d..];
    if HasLoneSurrogate(s) {
      var k :| 0 <= k < |s| && LoneAt(s, k);
      assert k >= d;
      assert t[k - d] == s[k];
      assert k + 1 < |s| ==> t[k - d + 1] == s[k + 1];
      assert k > d ==> t[k - d - 1] == s[k - 1];
      assert LoneAt(t, k - d);
    }
    if HasLoneSurrogate(t) {
      var k :| 0 <= k < |t| && LoneAt(t, k);
      assert s[k + d] == t[k];
      assert k + 1 < |t| ==> s[k + d + 1] == t[k + 1];
      assert k > 0 ==> s[k + d - 1] == t[k - 1];
      assert LoneAt(s, k + d);
    }
  }

  /** Kept code units are copied: a string of them is its own encoding. */
  lemma {:induction false} EncodeKept(s: JsString)
    requires AllKept(s)
    ensures EncodeUri(s) == Some(s)
    decreases |s|
  {
    if s != [] {
      EncodeKept(s[1..]);
      assert [s[0]] + s[1..] == s;
    }
  }

  /** A prefix of kept code units is copied in front of the encoding of the rest. */
  lemma {:induction false} EncodeKeptPrefix(a: JsString, x: JsString)
    requires AllKept(a)
    ensures EncodeUri(a + x) == Prepend(a, EncodeUri(x))
    decreases |a|
  {
    if a == [] {
      assert a + x == x;
      if EncodeUri(x).Some? {
        assert a + EncodeUri(x).value == EncodeUri(x).value;
      }
    } else {
      var s := a + x;
      assert s[0] == a[0] && s[1..] == a[1..] + x;
      EncodeKeptPrefix(a[1..], x);
      if EncodeUri(x).Some? {
        assert [a[0]] + (a[1..] + EncodeUri(x).value) == a + EncodeUri(x).value;
      }
    }
  }

  /** A space becomes `%20`. */
  lemma EncodeSpace()
    ensures EncodeUri([0x20]) == Some([PERCENT_SIGN, 0x32, 0x30])
  {
    var s: JsString := [0x20];
    assert !IsUriKept(s[0]) && s[1..] == [];
    assert Utf8(0x20) == [0x20];
    assert Escape([0x20]) == [PERCENT_SIGN, UpperHexDigit(2), UpperHexDigit(0)] + Escape([]);
    assert EncodeUri(s) == Prepend(Escape([0x20]), EncodeUri([]));
    assert EncodeUri([]) == Some([]) && Escape([]) == [];
    assert UpperHexDigit(2) == 0x32 && UpperHexDigit(0) == 0x30;
    assert [PERCENT_SIGN, 0x32, 0x30] + [] == [PERCENT_SIGN, 0x32, 0x30];
  }
}
