/**
 The in-place string routines of tinyxml2 on one NUL-terminated character buffer.

 Pointers are indices.  A routine that reads a text `t` is told, as ghost arguments, where
 the text lies: it starts at `base`, and from offset `from` on it is still as it was.
 */
module XmlBuffer {
  import opened Wrappers
  import opened XmlText
  import opened XmlDecode
  import opened XmlTree

  /** From offset `from` on, the buffer holds the text `t` that lies at `base`, and its terminator. */
  ghost predicate Holds(buf: array<char>, base: nat, t: string, from: nat)
    reads buf
  {
    && base + |t| < buf.Length
    && buf[base + |t|] == NUL
    && forall k | from <= k < |t| :: buf[base + k] == t[k]
  }

  /** The C string at `i` is `v`. */
  ghost predicate CStringAt(buf: array<char>, i: nat, v: string)
    reads buf
  {
    NulFree(v) && Holds(buf, i, v, 0)
  }

  /** Nothing outside `lo..hi` differs from the earlier contents. */
  ghost predicate OnlyWithin(now: seq<char>, before: seq<char>, lo: int, hi: int) {
    |now| == |before| && forall k | 0 <= k < |now| && !(lo <= k < hi) :: now[k] == before[k]
  }

  lemma WithinSelf(b: seq<char>, lo: int, hi: int)
    ensures OnlyWithin(b, b, lo, hi)
  {
  }

  lemma {:induction false} WithinTwice(c: seq<char>, b: seq<char>, a: seq<char>, lo: int, mid: int, hi: int)
    requires OnlyWithin(b, a, lo, mid) && OnlyWithin(c, b, lo, hi) && mid <= hi
    ensures OnlyWithin(c, a, lo, hi)
  {
  }

  lemma {:induction false} WithinWider(b: seq<char>, a: seq<char>, lo: int, hi: int, lo': int, hi': int)
    requires OnlyWithin(b, a, lo, hi) && lo' <= lo && hi <= hi'
    ensures OnlyWithin(b, a, lo', hi')
  {
  }

  // ------------------------------------------------------------- reading

  /** `strncmp( p, pattern, strlen( pattern ) ) == 0`. */
  method StartsWith(buf: array<char>, p: nat, pattern: string, ghost base: nat, ghost t: string) returns (b: bool)
    requires base <= p <= base + |t| && Holds(buf, base, t, p - base) && NulFree(pattern)
    ensures b <==> Matches(t, p - base, pattern)
  {
    ghost var i := p - base;
    var k := 0;
    while k < |pattern|
      invariant k <= |pattern| && i + k <= |t|
      invariant forall j | 0 <= j < k :: t[i + j] == pattern[j]
    {
      if buf[p + k] != pattern[k] {
        assert At(t, i + k) != pattern[k];
        NoMatch(t, i, pattern, k);
        return false;
      }
      k := k + 1;
    }
    assert t[i..i + |pattern|] == pattern;
    return true;
  }

  /** `strchr( q, ';' )`, or -1 for its null result. */
  method FindSemicolonIn(buf: array<char>, q: nat, ghost base: nat, ghost t: string) returns (r: int)
    requires base <= q <= base + |t| && Holds(buf, base, t, q - base)
    ensures match FindSemicolon(t, q - base)
            case None => r == -1
            case Some(j) => r == base + j
  {
    r := q;
    while buf[r] != NUL && buf[r] != ';'
      invariant q <= r <= base + |t|
      invariant FindSemicolon(t, q - base) == FindSemicolon(t, r - base)
      decreases base + |t| - r
    {
      r := r + 1;
    }
    if buf[r] == NUL {
      r := -1;
    }
  }

  /** `XMLUtil::SkipWhiteSpace` without a line counter. */
  method SkipWhiteSpace(buf: array<char>, p: nat, ghost base: nat, ghost t: string) returns (r: nat)
    requires base <= p <= base + |t| && Holds(buf, base, t, p - base)
    ensures r == base + SkipWs(t, p - base)
  {
    r := p;
    while IsWhiteSpace(buf[r])
      invariant p <= r <= base + |t|
      invariant SkipWs(t, p - base) == SkipWs(t, r - base)
      decreases base + |t| - r
    {
      r := r + 1;
    }
  }

  /** `XMLUtil::StringEqual` on two C strings in the buffer. */
  method StringEqual(buf: array<char>, p: nat, q: nat, ghost v: string, ghost w: string) returns (b: bool)
    requires CStringAt(buf, p, v) && CStringAt(buf, q, w)
    ensures b <==> v == w
  {
    var k := 0;
    while buf[p + k] == buf[q + k] && buf[p + k] != NUL
      invariant k <= |v| && k <= |w|
      invariant forall j | 0 <= j < k :: v[j] == w[j]
      decreases |v| - k
    {
      k := k + 1;
    }
    b := buf[p + k] == buf[q + k];
    assert k < |v| ==> buf[p + k] == v[k] != NUL;
    assert k < |w| ==> buf[q + k] == w[k] != NUL;
  }

  // ------------------------------------------------------------- character references

  /** `XMLUtil::ConvertUTF32ToUTF8`: continuation bytes are written from the last to the first. */
  method ConvertUTF32ToUTF8(input: nat, output: array<char>) returns (length: nat)
    requires output.Length >= 4
    modifies output
    ensures length == |Utf8(input)| && output[..length] == Utf8(input)
  {
    if input < 0x80 {
      length := 1;
    } else if input < 0x800 {
      length := 2;
    } else if input < 0x10000 {
      length := 3;
    } else if input < 0x20_0000 {
      length := 4;
    } else {
      length := 0;
      return;
    }
    var u := input;
    if length == 4 {
      output[3] := Continuation(u);
      u := u / 64;
    }
    if length >= 3 {
      output[2] := Continuation(u);
      u := u / 64;
    }
    if length >= 2 {
      output[1] := Continuation(u);
      u := u / 64;
    }
    var mark := if length == 1 then 0 else if length == 2 then 0xC0 else if length == 3 then 0xE0 else 0xF0;
    output[0] := ByteOf(mark, u);
  }

  /** The digit loop of `XMLUtil::GetCharacterRef`; -1 stands for its null result. */
  method ScanDigits(buf: array<char>, from: nat, stop: char, numberBase: nat, ghost base: nat, ghost t: string, ghost lo: nat)
    returns (ucs: int)
    requires base <= from < base + |t| && lo <= from - base && t[lo] == stop && Holds(buf, base, t, lo)
    requires numberBase == 10 || numberBase == 16
    ensures match ScanBack(t, from - base, stop, numberBase, 1, 0, lo)
            case None => ucs == -1
            case Some(u) => ucs == u
  {
    ucs := 0;
    var q, mult := from, 1;
    while buf[q] != stop
      invariant base + lo <= q <= from && ucs >= 0 && mult >= 0
      invariant ScanBack(t, from - base, stop, numberBase, 1, 0, lo) == ScanBack(t, q - base, stop, numberBase, mult, ucs, lo)
      decreases q
    {
      var digit := DigitOf(buf[q], numberBase);
      if digit.None? {
        return -1;
      }
      ucs := ucs + mult * digit.value % TWO_32;
      mult := mult * numberBase % TWO_32;
      q := q - 1;
    }
  }

  /** `XMLUtil::GetCharacterRef`: the new read position, or -1, and the bytes put into `value`. */
  method CharacterRef(buf: array<char>, p: nat, value: array<char>, ghost base: nat, ghost t: string)
    returns (adjusted: int, length: nat)
    requires value != buf && value.Length == 10
    requires base <= p && p - base + 1 < |t| && Holds(buf, base, t, p - base) && t[p - base + 1] == '#'
    modifies value
    ensures match GetCharacterRef(t, p - base)
            case None => adjusted == -1
            case Some(ref) => adjusted == base + ref.next && length == |ref.bytes| <= 4 && value[..length] == ref.bytes
  {
    hide ScanBack, FindSemicolon, Utf8, DigitOf;
    length := 0;
    if buf[p + 2] == NUL {
      return p + 1, 0;
    }
    var first, numberBase := p + 2, 10;
    if buf[p + 2] == 'x' {
      first, numberBase := p + 3, 16;
    }
    if buf[first] == NUL {
      return -1, 0;
    }
    var semi := FindSemicolonIn(buf, first, base, t);
    if semi == -1 {
      return -1, 0;
    }
    var ucs := ScanDigits(buf, semi - 1, buf[first - 1], numberBase, base, t, first - 1 - base);
    if ucs == -1 {
      return -1, 0;
    }
    length := ConvertUTF32ToUTF8(ucs, value);
    adjusted := semi + 1;
  }

  // ------------------------------------------------------------- StrPair

  /**
   The write cursor chasing the read cursor `p`: the bytes `out` lie between `outStart` and
   the write cursor, the text `t` at `base` is untouched from the write cursor on, and
   nothing outside the text has changed since the buffer held `before`.
   */
  ghost predicate Chasing(buf: array<char>, before: seq<char>, base: nat, t: string, outStart: nat, out: string, p: nat)
    reads buf
  {
    && base <= outStart && outStart + |out| <= p <= base + |t|
    && Holds(buf, base, t, outStart + |out| - base)
    && buf[outStart..outStart + |out|] == out
    && OnlyWithin(buf[..], before, base, base + |t| + 1)
  }

  /** One byte through the write cursor. */
  method Put(buf: array<char>, q: nat, c: char,
             ghost before: seq<char>, ghost base: nat, ghost t: string, ghost outStart: nat, ghost out: string, ghost p: nat)
    requires Chasing(buf, before, base, t, outStart, out, p)
    requires q == outStart + |out| < p
    modifies buf
    ensures Chasing(buf, before, base, t, outStart, out + [c], p)
    ensures OnlyWithin(buf[..], old(buf[..]), q, q + 1)
  {
    buf[q] := c;
    assert buf[outStart..outStart + |out| + 1] == buf[outStart..outStart + |out|] + [c];
  }

  /** The final terminator. */
  method Terminate(buf: array<char>, q: nat,
                   ghost before: seq<char>, ghost base: nat, ghost t: string, ghost outStart: nat, ghost out: string, ghost p: nat)
    requires Chasing(buf, before, base, t, outStart, out, p)
    requires q == outStart + |out| && NulFree(CStr(out))
    modifies buf
    ensures buf[outStart..outStart + |out|] == out && outStart + |out| < buf.Length && buf[outStart + |out|] == NUL
    ensures CStringAt(buf, outStart, CStr(out))
    ensures OnlyWithin(buf[..], before, base, base + |t| + 1)
  {
    buf[q] := NUL;
    forall k | 0 <= k < |CStr(out)| ensures buf[outStart + k] == CStr(out)[k] {
      assert buf[outStart + k] == buf[outStart..outStart + |out|][k];
    }
  }

  /** What the read cursor sees. */
  lemma {:induction false} ChasingReads(buf: array<char>, before: seq<char>, base: nat, t: string, outStart: nat, out: string, p: nat)
    requires Chasing(buf, before, base, t, outStart, out, p)
    ensures base <= outStart && outStart + |out| <= p <= base + |t| < buf.Length && Holds(buf, base, t, p - base)
    ensures buf[p] == At(t, p - base)
  {
  }

  lemma {:induction false} ChasingStart(buf: array<char>, base: nat, t: string, outStart: nat)
    requires base <= outStart <= base + |t| && Holds(buf, base, t, 0)
    ensures Chasing(buf, buf[..], base, t, outStart, "", outStart)
  {
  }

  lemma {:induction false} ChasingLater(buf: array<char>, before: seq<char>, base: nat, t: string, outStart: nat, out: string, p: nat, r: nat)
    requires Chasing(buf, before, base, t, outStart, out, p) && p <= r <= base + |t|
    ensures Chasing(buf, before, base, t, outStart, out, r)
  {
  }

  /** One byte from the read cursor to the write cursor, both of which then advance. */
  method Copy(buf: array<char>, q: nat, p: nat,
              ghost before: seq<char>, ghost base: nat, ghost t: string, ghost outStart: nat, ghost out: string)
    requires Chasing(buf, before, base, t, outStart, out, p)
    requires q == outStart + |out| && p < base + |t|
    modifies buf
    ensures Chasing(buf, before, base, t, outStart, out + [t[p - base]], p + 1)
    ensures OnlyWithin(buf[..], old(buf[..]), q, q + 1)
  {
    hide Chasing, OnlyWithin;
    ChasingReads(buf, before, base, t, outStart, out, p);
    ChasingLater(buf, before, base, t, outStart, out, p, p + 1);
    Put(buf, q, buf[p], before, base, t, outStart, out, p + 1);
  }

  /** `StrPair::CollapseWhitespace` on the C string `t` at `start`; the new `_start` is returned. */
  method CollapseWhitespace(buf: array<char>, start: nat, ghost t: string) returns (newStart: nat)
    requires CStringAt(buf, start, t)
    modifies buf
    ensures start <= newStart && newStart + |Collapse(t)| <= start + |t|
    ensures CStringAt(buf, newStart, Collapse(t))
    ensures OnlyWithin(buf[..], old(buf[..]), start, start + |t| + 1)
  {
    newStart := SkipWhiteSpace(buf, start, start, t);
    SqueezeEnd(t);
    if buf[newStart] != NUL {
      CollapseWords(buf, newStart, start, t);
    }
  }

  lemma {:induction false} CollapseIsSqueeze(t: string)
    ensures Collapse(t) == "" + Squeeze(t, SkipWs(t, 0))
  {
  }

  /** The loop of `StrPair::CollapseWhitespace`. */
  method CollapseWords(buf: array<char>, start: nat, ghost base: nat, ghost t: string)
    requires NulFree(t) && Holds(buf, base, t, 0) && start == base + SkipWs(t, 0)
    modifies buf
    ensures CStringAt(buf, start, Collapse(t))
    ensures OnlyWithin(buf[..], old(buf[..]), base, base + |t| + 1)
  {
    hide Squeeze, SkipWs, CStr, Chasing, OnlyWithin, CStringAt, Collapse, IsWhiteSpace, NulFree, Holds;
    CollapseIsSqueeze(t);
    ghost var before := buf[..];
    var p, q := start, start;
    ghost var out := "";
    ChasingStart(buf, base, t, start);
    ChasingReads(buf, before, base, t, start, out, p);
    while buf[p] != NUL
      invariant start <= q <= p <= base + |t| < buf.Length && q == start + |out|
      invariant Chasing(buf, before, base, t, start, out, p) && buf[p] == At(t, p - base)
      invariant Collapse(t) == out + Squeeze(t, p - base)
      decreases base + |t| - p
    {
      if IsWhiteSpace(buf[p]) {
        p, q, out := CollapseGap(buf, p, q, before, base, t, start, out);
        ChasingReads(buf, before, base, t, start, out, p);
        if buf[p] == NUL {
          break;
        }
      }
      SqueezeLetter(t, p - base, out);
      Copy(buf, q, p, before, base, t, start, out);
      out := out + [t[p - base]];
      q := q + 1;
      p := p + 1;
      ChasingReads(buf, before, base, t, start, out, p);
    }
    SqueezeDone(t, p - base, out);
    Terminate(buf, q, before, base, t, start, out, p);
  }

  /** Whitespace between words becomes one space, and whitespace at the end nothing. */
  method CollapseGap(buf: array<char>, p: nat, q: nat,
                     ghost before: seq<char>, ghost base: nat, ghost t: string, ghost start: nat, ghost out: string)
    returns (p': nat, q': nat, ghost out': string)
    requires NulFree(t) && Chasing(buf, before, base, t, start, out, p) && q == start + |out|
    requires base <= p < base + |t| && IsWhiteSpace(t[p - base])
    modifies buf
    ensures base <= p' <= base + |t| && p < p' && q' == start + |out'|
    ensures p' < base + |t| ==> !IsWhiteSpace(t[p' - base])
    ensures Chasing(buf, before, base, t, start, out', p') && out + Squeeze(t, p - base) == out' + Squeeze(t, p' - base)
  {
    hide Squeeze, Chasing, OnlyWithin, Holds;
    ChasingReads(buf, before, base, t, start, out, p);
    SqueezeGap(t, p - base, out);
    p' := SkipWhiteSpace(buf, p, base, t);
    ChasingLater(buf, before, base, t, start, out, p, p');
    ChasingReads(buf, before, base, t, start, out, p');
    q', out' := q, out;
    if buf[p'] != NUL {
      Put(buf, q, ' ', before, base, t, start, out, p');
      q', out' := q + 1, out + [' '];
    }
  }

  lemma {:induction false} SqueezeLetter(t: string, i: nat, out: string)
    requires i < |t| && !IsWhiteSpace(t[i])
    ensures out + Squeeze(t, i) == out + [t[i]] + Squeeze(t, i + 1)
  {
    ConcatAssociative(out, [t[i]], Squeeze(t, i + 1));
  }

  lemma {:induction false} SqueezeGap(t: string, i: nat, out: string)
    requires i < |t| && IsWhiteSpace(t[i])
    ensures var j := SkipWs(t, i); out + Squeeze(t, i) == if j == |t| then out + Squeeze(t, j) else out + [' '] + Squeeze(t, j)
  {
    hide Squeeze;
    var j := SkipWs(t, i);
    SpaceSqueezed(t, i);
    if j < |t| {
      ConcatAssociative(out, [' '], Squeeze(t, j));
    }
  }

  lemma SpaceSqueezed(t: string, i: nat)
    requires i < |t| && IsWhiteSpace(t[i])
    ensures var j := SkipWs(t, i); Squeeze(t, i) == (if j == |t| then "" else [' ']) + Squeeze(t, j)
  {
    hide SkipWs, IsWhiteSpace;
    var j := SkipWs(t, i);
    if j < |t| {
      ConcatAssociative([' '], [t[j]], Squeeze(t, j + 1));
    }
  }

  /** Once all is read, what was written is the collapsed text, and a C string. */
  lemma {:induction false} SqueezeDone(t: string, i: nat, out: string)
    requires NulFree(t) && i <= |t| && At(t, i) == NUL && Collapse(t) == out + Squeeze(t, i)
    ensures out == Collapse(t) && NulFree(CStr(out)) && CStr(out) == out
  {
    hide Squeeze, CStr, Collapse;
    assert i == |t|;
    SqueezeEnd(t);
    CollapseNulFree(t);
    CStrOfNulFree(Collapse(t));
  }

  /** The write cursor steps over a byte: what lay there stays. */
  lemma {:induction false} ChasingOver(buf: array<char>, before: seq<char>, base: nat, t: string, outStart: nat, out: string, p: nat)
    requires Chasing(buf, before, base, t, outStart, out, p) && outStart + |out| < p
    ensures outStart + |out| - base < |t|
    ensures Chasing(buf, before, base, t, outStart, out + [t[outStart + |out| - base]], p)
  {
    var q := outStart + |out|;
    assert buf[outStart..q + 1] == buf[outStart..q] + [buf[q]];
  }

  /** `memcpy` of a short run of bytes to the write cursor. */
  method PutAll(buf: array<char>, q: nat, value: array<char>, length: nat,
                ghost before: seq<char>, ghost base: nat, ghost t: string, ghost outStart: nat, ghost out: string, ghost p: nat)
    requires buf != value && length <= value.Length
    requires Chasing(buf, before, base, t, outStart, out, p) && q == outStart + |out| && q + length <= p
    modifies buf
    ensures Chasing(buf, before, base, t, outStart, out + value[..length], p)
  {
    hide Chasing, OnlyWithin;
    var k := 0;
    assert out + value[..0] == out;
    while k < length
      invariant k <= length
      invariant Chasing(buf, before, base, t, outStart, out + value[..k], p)
    {
      assert value[..k + 1] == value[..k] + [value[k]];
      ConcatAssociative(out, value[..k], [value[k]]);
      Put(buf, q + k, value[k], before, base, t, outStart, out + value[..k], p);
      k := k + 1;
    }
  }

  /** The branch of `GetStr` for `&#`. */
  method ConvertReference(buf: array<char>, p: nat, q: nat,
                          ghost before: seq<char>, ghost base: nat, ghost t: string, ghost outStart: nat, ghost out: string)
    returns (p': nat, q': nat)
    requires Chasing(buf, before, base, t, outStart, out, p) && q == outStart + |out|
    requires p - base + 1 < |t| && t[p - base + 1] == '#'
    modifies buf
    ensures match GetCharacterRef(t, p - base)
            case None => p' == p + 1 && q' == q + 1 && Chasing(buf, before, base, t, outStart, out + [t[p - base]], p')
            case Some(ref) => p' == base + ref.next && q' == q + |ref.bytes|
                              && Chasing(buf, before, base, t, outStart, out + ref.bytes, p')
  {
    hide Chasing, OnlyWithin, GetCharacterRef;
    ChasingReads(buf, before, base, t, outStart, out, p);
    var value := new char[10](_ => NUL);
    ChasingReads(buf, before, base, t, outStart, out, p);
    var adjusted, length := CharacterRef(buf, p, value, base, t);
    if adjusted == -1 {
      Copy(buf, q, p, before, base, t, outStart, out);
      return p + 1, q + 1;
    }
    ChasingLater(buf, before, base, t, outStart, out, p, adjusted);
    PutAll(buf, q, value, length, before, base, t, outStart, out, adjusted);
    return adjusted, q + length;
  }

  /** Whether the text behind the ampersand at `p` spells out an entity's pattern and a semicolon. */
  method SpellsEntity(buf: array<char>, p: nat, pattern: string, ghost base: nat, ghost t: string) returns (b: bool)
    requires base <= p < base + |t| && Holds(buf, base, t, p - base) && NulFree(pattern)
    ensures b <==> Matches(t, p - base + 1, pattern) && At(t, p - base + |pattern| + 1) == ';'
  {
    b := StartsWith(buf, p + 1, pattern, base, t);
    if b {
      MatchesBounds(t, p + 1 - base, pattern);
      b := buf[p + |pattern| + 1] == ';';
    }
  }

  /** The branch of `GetStr` for an ampersand that starts no numeric reference. */
  method ConvertEntity(buf: array<char>, p: nat, q: nat,
                       ghost before: seq<char>, ghost base: nat, ghost t: string, ghost outStart: nat, ghost out: string)
    returns (p': nat, q': nat)
    requires Chasing(buf, before, base, t, outStart, out, p) && q == outStart + |out| && p - base < |t|
    modifies buf
    ensures q' == q + 1
    ensures match EntityAt(t, p - base, 0)
            case None => p' == p + 1 && q - base < |t| && Chasing(buf, before, base, t, outStart, out + [t[q - base]], p')
            case Some(e) => p' == p + |PATTERNS[e]| + 2 && Chasing(buf, before, base, t, outStart, out + [VALUES[e]], p')
  {
    hide Chasing, OnlyWithin, Holds, Matches;
    ChasingReads(buf, before, base, t, outStart, out, p);
    var i := 0;
    while i < 5
      invariant i <= 5
      invariant EntityAt(t, p - base, 0) == EntityAt(t, p - base, i)
      invariant Chasing(buf, before, base, t, outStart, out, p) && Holds(buf, base, t, p - base)
    {
      PatternNulFree(i);
      var found := SpellsEntity(buf, p, PATTERNS[i], base, t);
      if found {
        p', q' := p + |PATTERNS[i]| + 2, q + 1;
        ChasingLater(buf, before, base, t, outStart, out, p, p');
        Put(buf, q, VALUES[i], before, base, t, outStart, out, p');
        return;
      }
      i := i + 1;
    }
    ChasingLater(buf, before, base, t, outStart, out, p, p + 1);
    ChasingOver(buf, before, base, t, outStart, out, p + 1);
    return p + 1, q + 1;
  }

  lemma {:induction false} PatternNulFree(i: nat)
    requires i < 5
    ensures NulFree(PATTERNS[i])
  {
  }

  /** The branch of `GetStr` for a line end: it and a partner become one line feed. */
  method ConvertLineEnd(buf: array<char>, p: nat, q: nat, partner: char,
                        ghost before: seq<char>, ghost base: nat, ghost t: string, ghost outStart: nat, ghost out: string)
    returns (p': nat)
    requires Chasing(buf, before, base, t, outStart, out, p) && q == outStart + |out| && p - base < |t|
    requires partner != NUL
    modifies buf
    ensures p' == if At(t, p - base + 1) == partner then p + 2 else p + 1
    ensures p' <= base + |t| && Chasing(buf, before, base, t, outStart, out + [LF], p')
  {
    hide Chasing, OnlyWithin, Holds;
    ChasingReads(buf, before, base, t, outStart, out, p);
    ChasingLater(buf, before, base, t, outStart, out, p, p + 1);
    ChasingReads(buf, before, base, t, outStart, out, p + 1);
    p' := if buf[p + 1] == partner then p + 2 else p + 1;
    ChasingLater(buf, before, base, t, outStart, out, p, p');
    Put(buf, q, LF, before, base, t, outStart, out, p');
  }

  /** The byte a decoding step leaves behind in place of `out`. */
  function Written(t: string, out: string, st: Step): string
    requires st.stale ==> |out| < |t|
  {
    out + if st.stale then [t[|out|]] else st.bytes
  }

  lemma DecodedFrom(t: string, f: Flags)
    ensures Decoded(t, f) == DecodeFrom(t, 0, "", f)
  {
  }

  lemma DecodedNext(t: string, i: nat, out: string, f: Flags)
    requires i < |t| && |out| <= i
    ensures var st := DecodeStep(t, i, f);
      |Written(t, out, st)| <= st.next && DecodeFrom(t, i, out, f) == DecodeFrom(t, st.next, Written(t, out, st), f)
  {
    hide DecodeStep;
  }

  lemma DecodedEnd(t: string, out: string, f: Flags)
    requires |out| <= |t|
    ensures DecodeFrom(t, |t|, out, f) == out
  {
  }

  /** One turn of the loop of `GetStr`. */
  method ConvertNext(buf: array<char>, p: nat, q: nat, f: Flags,
                     ghost before: seq<char>, ghost base: nat, ghost t: string, ghost out: string)
    returns (p': nat, q': nat, ghost out': string)
    requires Chasing(buf, before, base, t, base, out, p) && q == base + |out| && p < base + |t|
    modifies buf
    ensures p <= base + |t| && p - base < |t| && |out| <= p - base
    ensures var st := DecodeStep(t, p - base, f);
            && p' == base + st.next && out' == Written(t, out, st) && q' == base + |out'|
    ensures Chasing(buf, before, base, t, base, out', p')
  {
    hide Chasing, OnlyWithin, Holds, GetCharacterRef, EntityAt;
    ChasingReads(buf, before, base, t, base, out, p);
    ChasingLater(buf, before, base, t, base, out, p, p + 1);
    ChasingReads(buf, before, base, t, base, out, p + 1);
    if f.newlines && buf[p] == CR {
      p' := ConvertLineEnd(buf, p, q, LF, before, base, t, base, out);
      q', out' := q + 1, out + [LF];
    } else if f.newlines && buf[p] == LF {
      p' := ConvertLineEnd(buf, p, q, CR, before, base, t, base, out);
      q', out' := q + 1, out + [LF];
    } else if f.entities && buf[p] == '&' {
      out' := Written(t, out, DecodeStep(t, p - base, f));
      if buf[p + 1] == '#' {
        p', q' := ConvertReference(buf, p, q, before, base, t, base, out);
      } else {
        p', q' := ConvertEntity(buf, p, q, before, base, t, base, out);
      }
    } else {
      Copy(buf, q, p, before, base, t, base, out);
      p', q', out' := p + 1, q + 1, out + [t[p - base]];
    }
  }

  /** The decoding loop of `GetStr`, for flags that ask for any decoding. */
  method DecodeInPlace(buf: array<char>, start: nat, end: nat, f: Flags, ghost t: string)
    requires end == start + |t| && Holds(buf, start, t, 0)
    modifies buf
    ensures buf[start..start + |Decoded(t, f)|] == Decoded(t, f)
    ensures CStringAt(buf, start, CStr(Decoded(t, f)))
    ensures OnlyWithin(buf[..], old(buf[..]), start, end + 1)
  {
    hide Chasing, OnlyWithin, Holds, DecodeStep, CStringAt, Decoded, DecodeFrom, Written;
    ghost var before := buf[..];
    var p, q := start, start;
    ghost var out := "";
    DecodedFrom(t, f);
    ChasingStart(buf, start, t, start);
    while p < end
      invariant start <= q <= p <= end && q == start + |out|
      invariant Chasing(buf, before, start, t, start, out, p)
      invariant Decoded(t, f) == DecodeFrom(t, p - start, out, f)
      decreases end - p
    {
      DecodedNext(t, p - start, out, f);
      p, q, out := ConvertNext(buf, p, q, f, before, start, t, out);
      ChasingReads(buf, before, start, t, start, out, p);
    }
    DecodedEnd(t, out, f);
    Terminate(buf, q, before, start, t, start, out, p);
  }

  /**
   `StrPair::GetStr`.  A pair that still needs its flush is terminated and decoded in
   place; `_start` moves only if leading whitespace is trimmed.  Afterwards reading it
   again changes nothing.
   */
  method GetStr(buf: array<char>, sp: StrPair) returns (sp': StrPair)
    requires sp.start <= sp.end < buf.Length
    modifies buf
    ensures !sp.flush ==> sp' == sp && buf[..] == old(buf[..])
    ensures sp.flush ==> sp.start <= sp'.start <= sp.end && sp' == StrPair(sp'.start, sp.end, PLAIN, false)
    ensures sp.flush ==>
              var v := Value(old(buf[sp.start..sp.end]), sp.flags);
              sp'.start + |v| <= sp.end && CStringAt(buf, sp'.start, v)
    ensures sp.flush && sp.flags != PLAIN && !sp.flags.collapse ==>
              var d := Decoded(old(buf[sp.start..sp.end]), sp.flags);
              buf[sp.start..sp.start + |d|] == d
    ensures OnlyWithin(buf[..], old(buf[..]), sp.start, sp.end + 1)
    ensures sp.flush && sp.flags == PLAIN ==>
              sp'.start == sp.start && buf[sp.end] == NUL && OnlyWithin(buf[..], old(buf[..]), sp.end, sp.end + 1)
  {
    if !sp.flush {
      return sp;
    }
    var start := Flush(buf, sp, buf[sp.start..sp.end]);
    sp' := StrPair(start, sp.end, PLAIN, false);
  }

  /** The work of `GetStr` on a pair that has not been read. */
  method Flush(buf: array<char>, sp: StrPair, ghost t: string) returns (start: nat)
    requires sp.start <= sp.end < buf.Length && t == buf[sp.start..sp.end]
    modifies buf
    ensures sp.start <= start <= sp.end
    ensures start + |Value(t, sp.flags)| <= sp.end && CStringAt(buf, start, Value(t, sp.flags))
    ensures sp.flags != PLAIN && !sp.flags.collapse ==>
              buf[sp.start..sp.start + |Decoded(t, sp.flags)|] == Decoded(t, sp.flags)
    ensures OnlyWithin(buf[..], old(buf[..]), sp.start, sp.end + 1)
    ensures sp.flags == PLAIN ==>
              start == sp.start && buf[sp.end] == NUL && OnlyWithin(buf[..], old(buf[..]), sp.end, sp.end + 1)
  {
    hide Decoded, Collapse, CStringAt, OnlyWithin, Holds, CStr;
    ghost var before := buf[..];
    TerminatePair(buf, sp.start, sp.end, t);
    WithinWider(buf[..], before, sp.end, sp.end + 1, sp.start, sp.end + 1);
    start := sp.start;
    if sp.flags != PLAIN {
      ghost var closed := buf[..];
      start := FlushDecoded(buf, sp, t);
      WithinTwice(buf[..], closed, before, sp.start, sp.end + 1, sp.end + 1);
    }
  }

  /** The part of it for a pair that has something to decode. */
  method FlushDecoded(buf: array<char>, sp: StrPair, ghost t: string) returns (start: nat)
    requires sp.flags != PLAIN && sp.end == sp.start + |t| && Holds(buf, sp.start, t, 0)
    modifies buf
    ensures sp.start <= start && start + |Value(t, sp.flags)| <= sp.end && CStringAt(buf, start, Value(t, sp.flags))
    ensures !sp.flags.collapse ==> buf[sp.start..sp.start + |Decoded(t, sp.flags)|] == Decoded(t, sp.flags)
    ensures OnlyWithin(buf[..], old(buf[..]), sp.start, sp.end + 1)
  {
    hide Decoded, Collapse, CStringAt, OnlyWithin, Holds, CStr;
    ghost var before := buf[..];
    DecodeInPlace(buf, sp.start, sp.end, sp.flags, t);
    start := sp.start;
    if sp.flags.collapse {
      ghost var decoded, c := buf[..], CStr(Decoded(t, sp.flags));
      start := CollapseWhitespace(buf, sp.start, c);
      WithinWider(buf[..], decoded, sp.start, sp.start + |c| + 1, sp.start, sp.end + 1);
      WithinTwice(buf[..], decoded, before, sp.start, sp.end + 1, sp.end + 1);
    }
  }

  method TerminatePair(buf: array<char>, start: nat, end: nat, ghost t: string)
    requires start <= end < buf.Length && t == buf[start..end]
    modifies buf
    ensures buf[end] == NUL && Holds(buf, start, t, 0) && CStringAt(buf, start, CStr(t))
    ensures OnlyWithin(buf[..], old(buf[..]), end, end + 1)
  {
    buf[end] := NUL;
    assert forall k | 0 <= k < |CStr(t)| :: CStr(t)[k] == t[k];
  }
}
