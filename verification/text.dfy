/**
  String helpers with Python's meaning: `str.strip()` with no argument and
  `sep.join(parts)`. Strings are sequences of Unicode scalar values. Python's
  `str` indexes and measures code points too, but it can also hold lone
  surrogates (U+D800 to U+DFFF), which a Dafny `char` cannot.
 */
module Text {

  /** The code points for which Python's `str.isspace()` holds; `str.strip()` removes exactly these. */
  predicate IsWhitespace(c: char) {
    || ('\t' <= c <= '\r')
    || ('\U{1C}' <= c <= ' ')
    || c == '\U{85}' || c == '\U{A0}' || c == '\U{1680}'
    || ('\U{2000}' <= c <= '\U{200A}')
    || c == '\U{2028}' || c == '\U{2029}' || c == '\U{202F}' || c == '\U{205F}' || c == '\U{3000}'
  }

  predicate AllWhitespace(s: string) {
    forall i :: 0 <= i < |s| ==> IsWhitespace(s[i])
  }

  /** Neither end of `s` is whitespace: what `strip()` leaves behind. */
  predicate IsTrimmed(s: string) {
    |s| == 0 || (!IsWhitespace(s[0]) && !IsWhitespace(s[|s| - 1]))
  }

  /** `s.lstrip()`: the longest suffix of `s` that does not start with whitespace. */
  function TrimStart(s: string): (r: string)
    ensures |r| <= |s| && r == s[|s| - |r|..]
    ensures r == [] || !IsWhitespace(r[0])
  {
    if |s| > 0 && IsWhitespace(s[0]) then
      var r := TrimStart(s[1..]);
      assert s[1..][|s| - 1 - |r|..] == s[|s| - |r|..];
      r
    else
      s
  }

  /** `s.rstrip()`: the longest prefix of `s` that does not end with whitespace. */
  function TrimEnd(s: string): (r: string)
    ensures |r| <= |s| && r == s[..|r|]
    ensures r == [] || !IsWhitespace(r[|r| - 1])
  {
    if |s| > 0 && IsWhitespace(s[|s| - 1]) then
      var r := TrimEnd(s[..|s| - 1]);
      assert s[..|s| - 1][..|r|] == s[..|r|];
      r
    else
      s
  }

  /**
    `s.strip()`: what is left after removing whitespace from both ends. The
    result is trimmed, and a string that is already trimmed is left as it is;
    `StripEmpty` and `StripIsInfix` state what was removed.
   */
  function Strip(s: string): (r: string)
    ensures IsTrimmed(r)
    ensures IsTrimmed(s) ==> r == s
  {
    var t := TrimStart(s);
    var r := TrimEnd(t);
    assert r == [] || r[0] == t[0];
    r
  }

  /** A concatenation is all whitespace exactly when both halves are. */
  lemma AllWhitespaceConcat(a: string, b: string)
    ensures AllWhitespace(a + b) <==> AllWhitespace(a) && AllWhitespace(b)
  {
    assert forall i :: 0 <= i < |a| ==> (a + b)[i] == a[i];
    assert forall i :: 0 <= i < |b| ==> (a + b)[|a| + i] == b[i];
  }

  /** What `lstrip()` removes is whitespace. */
  lemma {:induction false} TrimStartDropsWhitespace(s: string)
    ensures AllWhitespace(s[..|s| - |TrimStart(s)|])
    decreases |s|
  {
    if |s| > 0 && IsWhitespace(s[0]) {
      var t := s[1..];
      TrimStartDropsWhitespace(t);
      var n := |s| - |TrimStart(s)|;
      assert s[..n] == [s[0]] + t[..n - 1];
      AllWhitespaceConcat([s[0]], t[..n - 1]);
    }
  }

  /** What `rstrip()` removes is whitespace. */
  lemma {:induction false} TrimEndDropsWhitespace(s: string)
    ensures AllWhitespace(s[|TrimEnd(s)|..])
    decreases |s|
  {
    if |s| > 0 && IsWhitespace(s[|s| - 1]) {
      var t := s[..|s| - 1];
      TrimEndDropsWhitespace(t);
      var n := |TrimEnd(s)|;
      assert s[n..] == t[n..] + [s[|s| - 1]];
      AllWhitespaceConcat(t[n..], [s[|s| - 1]]);
    }
  }

  /** What `Strip` removes is whitespace, from the two ends only. */
  lemma StripIsInfix(s: string)
    ensures exists i :: 0 <= i <= |s| - |Strip(s)| && Strip(s) == s[i..i + |Strip(s)|]
                        && AllWhitespace(s[..i]) && AllWhitespace(s[i + |Strip(s)|..])
  {
    var t := TrimStart(s);
    var r := TrimEnd(t);
    var i := |s| - |t|;
    TrimStartDropsWhitespace(s);
    TrimEndDropsWhitespace(t);
    assert r == s[i..i + |r|];
    assert s[i + |r|..] == t[|r|..];
    assert 0 <= i <= |s| - |r| && r == s[i..i + |r|] && AllWhitespace(s[..i]) && AllWhitespace(s[i + |r|..]);
  }

  /** Stripping leaves nothing exactly when the string is all whitespace. */
  lemma StripEmpty(s: string)
    ensures Strip(s) == [] <==> AllWhitespace(s)
  {
    var t := TrimStart(s);
    TrimStartEmpty(s);
    TrimEndEmpty(t);
    NoLeadingWhitespace(t);
  }

  /** `lstrip()` leaves nothing exactly when the string is all whitespace. */
  lemma TrimStartEmpty(s: string)
    ensures TrimStart(s) == [] <==> AllWhitespace(s)
  {
    var r := TrimStart(s);
    var i := |s| - |r|;
    TrimStartDropsWhitespace(s);
    assert s == s[..i] + r;
    AllWhitespaceConcat(s[..i], r);
    NoLeadingWhitespace(r);
  }

  /** `rstrip()` leaves nothing exactly when the string is all whitespace. */
  lemma TrimEndEmpty(t: string)
    ensures TrimEnd(t) == [] <==> AllWhitespace(t)
  {
    var r := TrimEnd(t);
    TrimEndDropsWhitespace(t);
    assert t == r + t[|r|..];
    AllWhitespaceConcat(r, t[|r|..]);
    NoTrailingWhitespace(r);
  }

  /** A string that does not start with whitespace is all whitespace only when empty. */
  lemma NoLeadingWhitespace(t: string)
    requires t == [] || !IsWhitespace(t[0])
    ensures AllWhitespace(t) ==> t == []
  {
  }

  /** A string that does not end with whitespace is all whitespace only when empty. */
  lemma NoTrailingWhitespace(t: string)
    requires t == [] || !IsWhitespace(t[|t| - 1])
    ensures AllWhitespace(t) ==> t == []
  {
  }

  /** Python's `sep.join(parts)`. */
  function Join(sep: string, parts: seq<string>): string
  {
    if |parts| == 0 then ""
    else if |parts| == 1 then parts[0]
    else Join(sep, parts[..|parts| - 1]) + sep + parts[|parts| - 1]
  }

  /** A join starts with its first part and ends with its last part. */
  lemma {:induction false} JoinEnds(sep: string, parts: seq<string>)
    requires |parts| > 0
    ensures parts[0] <= Join(sep, parts)
    ensures |parts[|parts| - 1]| <= |Join(sep, parts)|
    ensures Join(sep, parts)[|Join(sep, parts)| - |parts[|parts| - 1]|..] == parts[|parts| - 1]
  {
    if |parts| > 1 {
      var init := parts[..|parts| - 1];
      JoinEnds(sep, init);
      assert init[0] == parts[0];
    }
  }

  /** Joining two non-empty lists is joining their joins. */
  lemma {:induction false} JoinConcat(sep: string, xs: seq<string>, ys: seq<string>)
    requires |xs| > 0 && |ys| > 0
    ensures Join(sep, xs + ys) == Join(sep, xs) + sep + Join(sep, ys)
    decreases |ys|
  {
    var zs := xs + ys;
    if |ys| == 1 {
      assert zs[..|zs| - 1] == xs;
    } else {
      var ys' := ys[..|ys| - 1];
      assert zs[..|zs| - 1] == xs + ys';
      assert zs[|zs| - 1] == ys[|ys| - 1];
      JoinConcat(sep, xs, ys');
      assert Join(sep, ys) == Join(sep, ys') + sep + ys[|ys| - 1];
    }
  }

  /** Joining non-empty trimmed parts gives a non-empty trimmed string, whatever the separator. */
  lemma JoinTrimmed(sep: string, parts: seq<string>)
    requires |parts| > 0
    requires forall j :: 0 <= j < |parts| ==> |parts[j]| > 0 && IsTrimmed(parts[j])
    ensures |Join(sep, parts)| > 0 && IsTrimmed(Join(sep, parts))
  {
    var r := Join(sep, parts);
    JoinEnds(sep, parts);
    var last := parts[|parts| - 1];
    assert r[0] == parts[0][0];
    assert r[|r| - 1] == r[|r| - |last|..][|last| - 1] == last[|last| - 1];
  }
}
