/**
 Characters, scanning and line counting as tinyxml2 does them.

 A text is a `string` whose characters stand for bytes; reading one past its end
 gives the terminating NUL, as in the source's NUL-terminated buffers.
 */
module XmlText {
  import opened Wrappers

  const NUL: char := '\0'
  const LF: char := '\n'
  const CR: char := '\r'

  /** The byte a pointer into the text at offset `i` sees: the terminator from the end on. */
  function At(s: string, i: nat): char {
    if i < |s| then s[i] else NUL
  }

  ghost predicate NulFree(s: string) {
    forall i | 0 <= i < |s| :: s[i] != NUL
  }

  /** What a C string function sees of these bytes: everything before the first NUL. */
  function CStr(t: string): (r: string)
    ensures r <= t
    ensures NulFree(r)
    ensures |r| < |t| ==> t[|r|] == NUL
  {
    if t == "" || t[0] == NUL then "" else
      var rest := CStr(t[1..]);
      assert t == [t[0]] + t[1..];
      [t[0]] + rest
  }

  lemma {:induction false} CStrOfNulFree(t: string)
    requires NulFree(t)
    ensures CStr(t) == t
  {
    assert |CStr(t)| == |t|;
  }

  /** `isspace` of the C locale, never true of a byte with the high bit set. */
  predicate IsWhiteSpace(c: char) {
    c == ' ' || '\t' <= c <= '\r'
  }

  predicate IsNameStartChar(c: char) {
    c as int >= 128 || 'a' <= c <= 'z' || 'A' <= c <= 'Z' || c == ':' || c == '_'
  }

  predicate IsNameChar(c: char) {
    IsNameStartChar(c) || '0' <= c <= '9' || c == '.' || c == '-'
  }

  /** `XMLUtil::SkipWhiteSpace`: the first offset from `i` on that holds no whitespace. */
  function SkipWs(s: string, i: nat): (j: nat)
    requires i <= |s|
    ensures i <= j <= |s|
    ensures j < |s| ==> !IsWhiteSpace(s[j])
    ensures forall k | i <= k < j :: IsWhiteSpace(s[k])
    decreases |s| - i
  {
    if i < |s| && IsWhiteSpace(s[i]) then SkipWs(s, i + 1) else i
  }

  /** The line number the parser's counter shows after consuming `s[..i]`. */
  function LineAt(s: string, i: nat): nat
    requires i <= |s|
  {
    if i == 0 then 1 else LineAt(s, i - 1) + if s[i - 1] == LF then 1 else 0
  }

  /** `strncmp( p, tag, strlen( tag ) ) == 0` at offset `i`. */
  predicate Matches(s: string, i: nat, tag: string) {
    i + |tag| <= |s| && s[i..i + |tag|] == tag
  }

  /** Where the scan of `StrPair::ParseText` finds its end tag. */
  function FindTag(s: string, i: nat, tag: string): (r: Option<nat>)
    requires i <= |s|
    ensures r.Some? ==> i <= r.value && Matches(s, r.value, tag)
    ensures r.Some? ==> forall k | i <= k < r.value :: !Matches(s, k, tag)
    ensures r.None? ==> forall k | i <= k < |s| :: !Matches(s, k, tag)
    decreases |s| - i
  {
    if i >= |s| then None
    else if Matches(s, i, tag) then Some(i)
    else FindTag(s, i + 1, tag)
  }

  lemma {:induction false} FindTagAt(s: string, i: nat, j: nat, tag: string)
    requires i <= j < |s| && Matches(s, j, tag)
    requires forall k | i <= k < j :: !Matches(s, k, tag)
    ensures FindTag(s, i, tag) == Some(j)
  {
    var r := FindTag(s, i, tag);
    assert r.Some?;
    assert r.value <= j;
  }

  /** The end of the run of name characters that starts at `i`. */
  function NameEnd(s: string, i: nat): (j: nat)
    requires i <= |s|
    ensures i <= j <= |s|
    ensures j < |s| ==> !IsNameChar(s[j])
    ensures forall k | i <= k < j :: IsNameChar(s[k])
    decreases |s| - i
  {
    if i < |s| && IsNameChar(s[i]) then NameEnd(s, i + 1) else i
  }

  lemma {:induction false} SkipWsAt(s: string, i: nat, j: nat)
    requires i <= j <= |s|
    requires forall k | i <= k < j :: IsWhiteSpace(s[k])
    requires j < |s| ==> !IsWhiteSpace(s[j])
    ensures SkipWs(s, i) == j
  {
    var r := SkipWs(s, i);
    assert r == j;
  }

  lemma {:induction false} NameEndAt(s: string, i: nat, j: nat)
    requires i <= j <= |s|
    requires forall k | i <= k < j :: IsNameChar(s[k])
    requires j < |s| ==> !IsNameChar(s[j])
    ensures NameEnd(s, i) == j
  {
    var r := NameEnd(s, i);
    assert r == j;
  }

  /** A text found at an offset splits like the concatenation it is. */
  lemma {:induction false} MatchesConcat(s: string, i: nat, a: string, b: string)
    ensures Matches(s, i, a + b) <==> Matches(s, i, a) && Matches(s, i + |a|, b)
  {
    var ab := a + b;
    if Matches(s, i, ab) {
      assert s[i..i + |a|] == s[i..i + |ab|][..|a|] == ab[..|a|] == a;
      assert s[i + |a|..i + |a| + |b|] == s[i..i + |ab|][|a|..] == ab[|a|..] == b;
    }
    if Matches(s, i, a) && Matches(s, i + |a|, b) {
      assert s[i..i + |ab|] == s[i..i + |a|] + s[i + |a|..i + |a| + |b|];
    }
  }

  lemma {:induction false} MatchesChar(s: string, i: nat, w: string, k: nat)
    requires Matches(s, i, w) && k < |w|
    ensures i + k < |s| && s[i + k] == w[k]
  {
    assert s[i..i + |w|][k] == s[i + k];
  }

  lemma {:induction false} NoMatch(s: string, i: nat, w: string, k: nat)
    requires k < |w| && At(s, i + k) != w[k]
    requires w[k] != NUL
    ensures !Matches(s, i, w)
  {
    if i + |w| <= |s| {
      assert s[i..i + |w|][k] == s[i + k];
    }
  }

  lemma {:induction false} MatchesInside(s: string, i: nat, v: string, k: nat, w: string)
    requires Matches(s, i, v) && k + |w| <= |v|
    ensures Matches(s, i + k, w) <==> Matches(v, k, w)
  {
    forall j | k <= j < k + |w| ensures s[i + j] == v[j] {
      MatchesChar(s, i, v, j);
    }
    assert s[i + k..i + k + |w|] == v[k..k + |w|];
  }

  lemma {:induction false} ConcatAssociative(a: string, b: string, c: string)
    ensures a + (b + c) == a + b + c
  {
  }

  lemma {:induction false} MatchesBounds(s: string, i: nat, w: string)
    requires Matches(s, i, w)
    ensures i + |w| <= |s|
  {
  }
}
