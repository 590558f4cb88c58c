/** The JavaScript string operations the page logic relies on:
    `String.prototype.trim`, `replace(/\s/g, '-')`, `split(' ')[0]`, and
    the prefix and suffix tests. */
module JsText {

  /** The characters ECMAScript counts as white space or line terminators:
      the set removed by `trim()` and matched by the regular-expression
      class `\s` (tab, vertical tab, form feed, space, no-break space,
      byte-order mark, the other space separators, LF, CR, LS and PS). */
  predicate IsWhitespace(c: char) {
    || c == '\t' || c == '\n' || c == '\U{000B}' || c == '\U{000C}' || c == '\r'
    || c == ' ' || c == '\U{00A0}' || c == '\U{1680}'
    || ('\U{2000}' <= c <= '\U{200A}')
    || c == '\U{2028}' || c == '\U{2029}' || c == '\U{202F}' || c == '\U{205F}'
    || c == '\U{3000}' || c == '\U{FEFF}'
  }

  predicate AllWhitespace(s: string) {
    forall i :: 0 <= i < |s| ==> IsWhitespace(s[i])
  }

  /** `s` with its leading white space removed. */
  function TrimStart(s: string): (r: string)
    ensures |r| <= |s| && r == s[|s| - |r|..]
    ensures AllWhitespace(s[..|s| - |r|])
    ensures r == [] || !IsWhitespace(r[0])
    decreases |s|
  {
    if |s| > 0 && IsWhitespace(s[0]) then
      var r := TrimStart(s[1..]);
      assert s[..|s| - |r|] == [s[0]] + s[1..][..|s| - 1 - |r|];
      r
    else s
  }

  /** `s` with its trailing white space removed. */
  function TrimEnd(s: string): (r: string)
    ensures |r| <= |s| && r == s[..|r|]
    ensures AllWhitespace(s[|r|..])
    ensures r == [] || !IsWhitespace(r[|r| - 1])
    decreases |s|
  {
    if |s| > 0 && IsWhitespace(s[|s| - 1]) then
      var r := TrimEnd(s[..|s| - 1]);
      assert s[|r|..] == s[..|s| - 1][|r|..] + [s[|s| - 1]];
      r
    else s
  }

  /** `r` sits at offset `i` of `s` with only white space around it. */
  ghost predicate Padded(s: string, r: string, i: int) {
    && 0 <= i && i + |r| <= |s|
    && s[i..i + |r|] == r
    && AllWhitespace(s[..i])
    && AllWhitespace(s[i + |r|..])
  }

  /** `String.prototype.trim`. */
  function Trim(s: string): (r: string)
    ensures exists i :: Padded(s, r, i)
    ensures r == [] || (!IsWhitespace(r[0]) && !IsWhitespace(r[|r| - 1]))
  {
    SuffixPrefixPadded(s, TrimStart(s), TrimEnd(TrimStart(s)));
    TrimEnd(TrimStart(s))
  }

  /** A prefix `r` of a suffix `t` of `s`, with white space cut off on both
      sides, is padded in `s`, and keeps the visible ends of `t` and `r`. */
  lemma SuffixPrefixPadded(s: string, t: string, r: string)
    requires |t| <= |s| && t == s[|s| - |t|..] && AllWhitespace(s[..|s| - |t|])
    requires t == [] || !IsWhitespace(t[0])
    requires |r| <= |t| && r == t[..|r|] && AllWhitespace(t[|r|..])
    requires r == [] || !IsWhitespace(r[|r| - 1])
    ensures exists i :: Padded(s, r, i)
    ensures r == [] || (!IsWhitespace(r[0]) && !IsWhitespace(r[|r| - 1]))
  {
    var i := |s| - |t|;
    assert s[i..i + |r|] == t[..|r|];
    assert s[i + |r|..] == t[|r|..];
    assert Padded(s, r, i);
    assert r != [] ==> r[0] == t[0];
  }

  /** A string trims to nothing exactly when it is all white space; this is
      the falsy test `!s.trim()` the page applies to its inputs. */
  lemma TrimEmptyIff(s: string)
    ensures Trim(s) == [] <==> AllWhitespace(s)
  {
    var r := Trim(s);
    var i :| Padded(s, r, i);
    if r == [] {
      assert s == s[..i] + s[i..];
    } else {
      assert s[i] == r[0];
    }
  }

  /** What a padding says about the characters of `s` one by one. */
  lemma PaddedCharacters(s: string, r: string, i: int)
    requires Padded(s, r, i)
    ensures forall k :: 0 <= k < i ==> IsWhitespace(s[k])
    ensures forall k :: i <= k < i + |r| ==> s[k] == r[k - i]
    ensures forall k :: i + |r| <= k < |s| ==> IsWhitespace(s[k])
  {
    assert forall k :: 0 <= k < i ==> s[..i][k] == s[k];
    assert forall k :: i <= k < i + |r| ==> s[i..i + |r|][k - i] == s[k];
    assert forall k :: i + |r| <= k < |s| ==> s[i + |r|..][k - i - |r|] == s[k];
  }

  /** Trim returns the only white-space-padded infix of `s` whose ends are
      not white space: no other reading of "trimmed `s`" exists. */
  lemma TrimUnique(s: string, r: string, i: int)
    requires Padded(s, r, i)
    requires r == [] || (!IsWhitespace(r[0]) && !IsWhitespace(r[|r| - 1]))
    ensures r == Trim(s)
  {
    var t := Trim(s);
    var j :| Padded(s, t, j);
    TrimEmptyIff(s);
    PaddedCharacters(s, r, i);
    if r == [] {
      assert s == s[..i] + s[i..];
    } else {
      assert s[i] == r[0];
      PaddedCharacters(s, t, j);
      assert s[j] == t[0];
      assert i == j;
      assert s[i + |r| - 1] == r[|r| - 1];
      assert s[j + |t| - 1] == t[|t| - 1];
      assert |r| == |t|;
      assert r == s[i..i + |r|];
    }
  }

  /** Trimming twice is trimming once. */
  lemma TrimIdempotent(s: string)
    ensures Trim(Trim(s)) == Trim(s)
  {
    var r := Trim(s);
    assert Padded(r, r, 0);
    TrimUnique(r, r, 0);
  }

  /** A string with visible first and last characters is its own trim. */
  lemma TrimVisible(s: string)
    requires s != [] && !IsWhitespace(s[0]) && !IsWhitespace(s[|s| - 1])
    ensures Trim(s) == s
  {
    assert Padded(s, s, 0);
    TrimUnique(s, s, 0);
  }

  /** `s.replace(/\s/g, '-')`: every white-space character becomes a hyphen. */
  function Slug(s: string): (r: string)
    ensures |r| == |s|
    ensures forall i :: 0 <= i < |s| && IsWhitespace(s[i]) ==> r[i] == '-'
    ensures forall i :: 0 <= i < |s| && !IsWhitespace(s[i]) ==> r[i] == s[i]
    ensures forall i :: 0 <= i < |r| ==> !IsWhitespace(r[i])
    decreases |s|
  {
    if s == [] then []
    else [if IsWhitespace(s[0]) then '-' else s[0]] + Slug(s[1..])
  }

  /** `s.split(' ')[0]`: the text before the first plain space, or all of `s`. */
  function FirstWord(s: string): (r: string)
    ensures |r| <= |s| && r == s[..|r|]
    ensures forall i :: 0 <= i < |r| ==> r[i] != ' '
    ensures |r| == |s| || s[|r|] == ' '
    decreases |s|
  {
    if s == [] || s[0] == ' ' then [] else [s[0]] + FirstWord(s[1..])
  }

  /** `s.startsWith(t)`. */
  predicate StartsWith(s: string, t: string) {
    |t| <= |s| && s[..|t|] == t
  }

  /** `s.endsWith(t)`. */
  predicate EndsWith(s: string, t: string) {
    |t| <= |s| && s[|s| - |t|..] == t
  }

  lemma PrefixOfJoin(a: string, b: string)
    ensures StartsWith(a + b, a)
  {
    assert (a + b)[..|a|] == a;
  }

  /** A string ending with a non-empty `t` ends with `t`'s last character. */
  lemma EndsWithLast(s: string, t: string)
    requires t != []
    ensures EndsWith(s, t) ==> s[|s| - 1] == t[|t| - 1]
  {
    if EndsWith(s, t) {
      assert s[|s| - |t|..][|t| - 1] == s[|s| - 1];
    }
  }
}
