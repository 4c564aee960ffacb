/**
 Escaping a string and decoding it again gives the string with its line ends normalised.
 */
module XmlEscape {
  import opened Wrappers
  import opened XmlText
  import opened XmlDecode
  import opened XmlTree
  import opened XmlParserSpec
  import opened XmlPrinterSpec

  /** How the values of a parsed text or attribute are decoded with entity processing on. */
  const TEXT_FLAGS := Flags(true, true, false)

  predicate Escaped(c: char, restricted: bool) {
    c == '&' || c == '<' || c == '>' || (!restricted && (c == '"' || c == '\''))
  }

  lemma {:induction false} EscapeAppend(a: string, b: string, restricted: bool)
    ensures Escape(a + b, restricted) == Escape(a, restricted) + Escape(b, restricted)
  {
    if a == "" {
      assert a + b == b;
    } else {
      assert (a + b)[0] == a[0] && (a + b)[1..] == a[1..] + b;
      EscapeAppend(a[1..], b, restricted);
    }
  }

  /** No escaped string contains `<`, and a fully escaped one contains no quote. */
  lemma {:induction false} EscapeHasNoDelimiter(v: string, restricted: bool)
    ensures forall k | 0 <= k < |Escape(v, restricted)| ::
              var c := Escape(v, restricted)[k];
              c != '<' && (!restricted ==> c != '"' && c != '\'')
  {
    if v != "" {
      EscapeHasNoDelimiter(v[1..], restricted);
      assert forall k | 0 <= k < |EscapeChar(v[0], restricted)| ::
          var c := EscapeChar(v[0], restricted)[k];
          c != '<' && (!restricted ==> c != '"' && c != '\'');
    }
  }

  lemma {:induction false} EscapeNulFree(v: string, restricted: bool)
    requires NulFree(v)
    ensures NulFree(Escape(v, restricted))
  {
    if v != "" {
      EscapeNulFree(v[1..], restricted);
      assert NulFree(EscapeChar(v[0], restricted));
    }
  }

  lemma EscapeCharHead(c: char, restricted: bool)
    ensures var e := EscapeChar(c, restricted); e != "" && (e == [c] || (!IsWhiteSpace(c) && !IsWhiteSpace(e[0])))
  {
  }

  /** Line ends are not escaped, and what is escaped is no line end. */
  lemma {:induction false} EscapeHead(v: string, restricted: bool)
    ensures Escape(v, restricted) == "" <==> v == ""
    ensures At(Escape(v, restricted), 0) == LF <==> At(v, 0) == LF
    ensures At(Escape(v, restricted), 0) == CR <==> At(v, 0) == CR
    ensures v != "" ==> (IsWhiteSpace(Escape(v, restricted)[0]) <==> IsWhiteSpace(v[0]))
    ensures v != "" && IsWhiteSpace(v[0]) ==> Escape(v, restricted) == [v[0]] + Escape(v[1..], restricted)
  {
    hide EscapeChar;
    if v != "" {
      EscapeCharHead(v[0], restricted);
      assert Escape(v, restricted)[0] == EscapeChar(v[0], restricted)[0];
    }
  }

  /** The entity written for a character is found again. */
  lemma {:induction false} EntityRead(e: string, p: nat, c: char, restricted: bool)
    requires Escaped(c, restricted)
    requires Matches(e, p, EscapeChar(c, restricted))
    ensures p < |e|
    ensures DecodeStep(e, p, TEXT_FLAGS) == Step(p + |EscapeChar(c, restricted)|, [c], false)
  {
    var w := EscapeChar(c, restricted);
    forall k | 0 <= k < |w| ensures p + k < |e| && e[p + k] == w[k] {
      MatchesChar(e, p, w, k);
    }
    assert e[p] == '&';
    assert e[p + 1] == w[1];
    var id := if c == '"' then 0 else if c == '&' then 1 else if c == '\'' then 2 else if c == '<' then 3 else 4;
    assert w == "&" + PATTERNS[id] + ";";
    forall k | 0 <= k < |PATTERNS[id]| ensures e[p + 1 + k] == PATTERNS[id][k] {
      MatchesChar(e, p, w, k + 1);
    }
    MatchesChar(e, p, w, |w| - 1);
    EntityFound(e, p, id);
  }

  /** The five patterns are told apart by the characters behind the ampersand. */
  lemma {:induction false} EntityFound(e: string, p: nat, id: nat)
    requires id < 5
    requires p + |PATTERNS[id]| + 2 <= |e|
    requires forall k | 0 <= k < |PATTERNS[id]| :: e[p + 1 + k] == PATTERNS[id][k]
    requires e[p + |PATTERNS[id]| + 1] == ';'
    ensures EntityAt(e, p, 0) == Some(id)
  {
    assert e[p + 1..p + 1 + |PATTERNS[id]|] == PATTERNS[id];
    assert EntityAt(e, p, id) == Some(id);
    assert e[p + 1] == PATTERNS[id][0] && e[p + 2] == PATTERNS[id][1];
    EntityPassed(e, p, 0, id);
  }

  lemma {:induction false} EntityPassed(e: string, p: nat, i: nat, id: nat)
    requires i <= id < 5
    requires p + 2 < |e| && e[p + 1] == PATTERNS[id][0] && e[p + 2] == PATTERNS[id][1]
    requires EntityAt(e, p, id) == Some(id)
    ensures EntityAt(e, p, i) == Some(id)
    decreases id - i
  {
    if i < id {
      EntityPassed(e, p, i + 1, id);
      NoMatch(e, p + 1, PATTERNS[i], if PATTERNS[i][0] != e[p + 1] then 0 else 1);
    }
  }

  /** One decoding step on `v`, and the step on its escaped form that goes with it. */
  lemma {:induction false} EscapedStep(v: string, k: nat, e: string, p: nat, restricted: bool)
    requires k < |v| && p <= |e| && e[p..] == Escape(v[k..], restricted)
    requires Escaped(v[k], restricted)
    ensures p < |e|
    ensures DecodeStep(v, k, MARKUP_FLAGS) == Step(k + 1, [v[k]], false)
    ensures var st := DecodeStep(e, p, TEXT_FLAGS);
            st.bytes == [v[k]] && !st.stale && e[st.next..] == Escape(v[k + 1..], restricted)
  {
    var c, w, rest := v[k], EscapeChar(v[k], restricted), Escape(v[k + 1..], restricted);
    assert v[k..][0] == c && v[k..][1..] == v[k + 1..];
    assert e[p..] == w + rest;
    assert e[p + |w|..] == e[p..][|w|..] == rest;
    assert e[p..p + |w|] == e[p..][..|w|] == w;
    EntityRead(e, p, c, restricted);
  }

  lemma {:induction false} UnescapedStep(v: string, k: nat, e: string, p: nat, restricted: bool)
    requires k < |v| && p <= |e| && e[p..] == Escape(v[k..], restricted)
    requires !Escaped(v[k], restricted)
    ensures p < |e|
    ensures var pl, st := DecodeStep(v, k, MARKUP_FLAGS), DecodeStep(e, p, TEXT_FLAGS);
            !pl.stale && st.bytes == pl.bytes && !st.stale && e[st.next..] == Escape(v[pl.next..], restricted)
  {
    assert v[k..][0] == v[k] && v[k..][1..] == v[k + 1..];
    var rest := Escape(v[k + 1..], restricted);
    assert e[p..] == [v[k]] + rest;
    assert e[p + 1..] == e[p..][1..] == rest;
    assert e[p] == e[p..][0] == v[k];
    NextCharacter(v, k + 1, e, p + 1, restricted);
    if k + 1 < |v| && (v[k + 1] == LF || v[k + 1] == CR) {
      assert e[p + 2..] == e[p + 1..][1..] == Escape(v[k + 2..], restricted);
    }
  }

  /**
   Decoding an escaped rest of `v` runs in step with decoding that rest itself: each step
   reads one escaped character, or a pair of line-end characters, on both sides.
   */
  lemma {:induction false} DecodeEscapedFrom(v: string, k: nat, e: string, p: nat, out: string, restricted: bool)
    requires |out| <= k <= |v| && |out| <= p <= |e|
    requires e[p..] == Escape(v[k..], restricted)
    ensures DecodeFrom(e, p, out, TEXT_FLAGS) == DecodeFrom(v, k, out, MARKUP_FLAGS)
    decreases |v| - k
  {
    hide DecodeStep, Escape;
    EscapeHead(v[k..], restricted);
    if k < |v| {
      if Escaped(v[k], restricted) {
        EscapedStep(v, k, e, p, restricted);
      } else {
        UnescapedStep(v, k, e, p, restricted);
      }
      var pl, st := DecodeStep(v, k, MARKUP_FLAGS), DecodeStep(e, p, TEXT_FLAGS);
      DecodeEscapedFrom(v, pl.next, e, st.next, out + pl.bytes, restricted);
    }
  }

  /** Looking ahead for a line end sees the same on both sides. */
  lemma {:induction false} NextCharacter(v: string, k: nat, e: string, p: nat, restricted: bool)
    requires k <= |v| && p <= |e| && e[p..] == Escape(v[k..], restricted)
    ensures At(e, p) == LF <==> At(v, k) == LF
    ensures At(e, p) == CR <==> At(v, k) == CR
    ensures k < |v| && (v[k] == LF || v[k] == CR) ==> e[p..] == [v[k]] + Escape(v[k + 1..], restricted)
  {
    EscapeHead(v[k..], restricted);
    assert At(e, p) == At(e[p..], 0);
    assert At(v, k) == At(v[k..], 0);
    if k < |v| { assert v[k..][1..] == v[k + 1..]; }
  }

  /** Newline normalisation brings in no NUL. */
  lemma {:induction false} NormalFromNulFree(v: string, k: nat, out: string)
    requires |out| <= k <= |v| && NulFree(v) && NulFree(out)
    ensures NulFree(DecodeFrom(v, k, out, MARKUP_FLAGS))
    decreases |v| - k
  {
    if k < |v| {
      var st := DecodeStep(v, k, MARKUP_FLAGS);
      NormalFromNulFree(v, st.next, out + st.bytes);
    }
  }

  /** Main result: the value of an escaped string is the string with normal line ends. */
  lemma {:induction false} ValueOfEscaped(v: string, restricted: bool)
    requires NulFree(v)
    ensures Value(Escape(v, restricted), TEXT_FLAGS) == Normal(v)
  {
    var e := Escape(v, restricted);
    assert v[0..] == v && e[0..] == e;
    DecodeEscapedFrom(v, 0, e, 0, "", restricted);
    NormalFromNulFree(v, 0, "");
    CStrOfNulFree(Normal(v));
  }

  lemma {:induction false} ValueOfMarkup(v: string)
    requires NulFree(v)
    ensures Value(v, MARKUP_FLAGS) == Normal(v)
  {
    NormalFromNulFree(v, 0, "");
    CStrOfNulFree(Normal(v));
  }

  lemma {:induction false} NormalStep(v: string, k: nat)
    requires k < |v|
    ensures var st := DecodeStep(v, k, MARKUP_FLAGS);
            && !st.stale && |st.bytes| == 1 && st.bytes[0] != CR
            && (v[k] != CR && At(v, k + 1) != CR ==> st == Step(k + 1, [v[k]], false))
  {
  }

  /** A string without carriage returns is its own normal form, and no other string is. */
  lemma {:induction false} NormalFromFixed(v: string, k: nat, out: string)
    requires |out| <= k <= |v|
    ensures forall m | |out| <= m < |DecodeFrom(v, k, out, MARKUP_FLAGS)| :: DecodeFrom(v, k, out, MARKUP_FLAGS)[m] != CR
    ensures (forall m | k <= m < |v| :: v[m] != CR) ==> DecodeFrom(v, k, out, MARKUP_FLAGS) == out + v[k..]
    decreases |v| - k
  {
    if k < |v| {
      var st := DecodeStep(v, k, MARKUP_FLAGS);
      NormalStep(v, k);
      hide DecodeStep;
      NormalFromFixed(v, st.next, out + st.bytes);
      if forall m | k <= m < |v| :: v[m] != CR {
        assert v[k..] == [v[k]] + v[k + 1..];
        ConcatAssociative(out, [v[k]], v[k + 1..]);
      }
    }
  }

  predicate CrFree(v: string) {
    forall k | 0 <= k < |v| :: v[k] != CR
  }

  lemma {:induction false} NormalIsFixpoint(v: string)
    ensures CrFree(Normal(v))
    ensures Normal(v) == v <==> CrFree(v)
  {
    NormalFromFixed(v, 0, "");
    assert "" + v[0..] == v;
  }
}
