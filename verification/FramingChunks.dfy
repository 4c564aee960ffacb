/**
 A stream of frames cut into reads anywhere, also across the boundaries of frames: when exactly
 the decoder run after every read gives the messages that were sent.
 */
module FramingChunks {
  import opened Bytes
  import opened Framing

  /** All messages given by the reads, in order. */
  function AllOut(outs: seq<seq<Message>>): (r: seq<Message>) {
    if outs == [] then [] else outs[0] + AllOut(outs[1..])
  }

  /** The reads of `chunks`, with `u` left over from before, give the messages and leave nothing. */
  predicate Delivered(ms: seq<Message>, u: seq<byte>, chunks: seq<seq<byte>>) {
    var (rest, outs, failed) := Fed(u, chunks);
    rest == [] && !failed && AllOut(outs) == ms
  }

  /** Where the first `k` frames end. */
  function EndOf(ms: seq<Message>, k: nat): nat
    requires k <= |ms|
  {
    |AllEncoded(ms[..k])|
  }

  /** Some read ends at offset `e`, when `before` bytes were there before the first. */
  ghost predicate Boundary(before: nat, chunks: seq<seq<byte>>, e: nat) {
    exists k :: 0 <= k <= |chunks| && before + |Joined(chunks[..k])| == e
  }

  /** No read that completes a frame with data also holds bytes behind it. */
  ghost predicate DataEndsReads(ms: seq<Message>, before: nat, chunks: seq<seq<byte>>) {
    forall i | 0 <= i < |ms| && ms[i].data != [] :: Boundary(before, chunks, EndOf(ms, i + 1))
  }

  // ------------------------------------------------------------- lists of frames

  lemma {:induction false} EncodedSplit(ms: seq<Message>, j: nat)
    requires j <= |ms|
    ensures AllEncoded(ms) == AllEncoded(ms[..j]) + AllEncoded(ms[j..])
  {
    hide Encode;
    if j == 0 {
      assert ms[..0] == [] && ms[0..] == ms;
    } else {
      EncodedSplit(ms[1..], j - 1);
      assert ms[..j][1..] == ms[1..][..j - 1] && ms[1..][j - 1..] == ms[j..];
      assert Encode(ms[0]) + (AllEncoded(ms[..j][1..]) + AllEncoded(ms[j..])) == Encode(ms[0]) + AllEncoded(ms[..j][1..]) + AllEncoded(ms[j..]);
    }
  }

  lemma {:induction false} EndsBehind(ms: seq<Message>, j: nat, i: nat)
    requires j + i <= |ms|
    ensures EndOf(ms, j + i) == EndOf(ms, j) + EndOf(ms[j..], i)
  {
    EncodedSplit(ms[..j + i], j);
    assert ms[..j + i][..j] == ms[..j] && ms[..j + i][j..] == ms[j..][..i];
  }

  lemma {:induction false} EndsGrow(ms: seq<Message>, i: nat, j: nat)
    requires i <= j <= |ms|
    ensures EndOf(ms, i) <= EndOf(ms, j) && (i < j ==> EndOf(ms, i) + 8 <= EndOf(ms, j))
  {
    EndsBehind(ms, i, j - i);
    if i < j {
      assert ms[i..][..j - i] == [ms[i]] + ms[i..][..j - i][1..];
    }
    hide AllEncoded;
  }

  lemma FirstEnd(ms: seq<Message>)
    ensures EndOf(ms, 0) == 0 && (ms != [] ==> EndOf(ms, 1) == |Encode(ms[0])|)
  {
    if ms != [] {
      assert ms[..1] == [ms[0]] && [ms[0]][1..] == [];
    }
  }

  lemma {:induction false} JoinedCons(c: seq<byte>, tail: seq<seq<byte>>)
    ensures Joined([c] + tail) == c + Joined(tail)
  {
    var n := |tail|;
    var chunks := [c] + tail;
    if n == 0 {
      assert chunks[..0] == [] && [] + c == c && c + [] == c;
    } else {
      assert chunks[..n] == [c] + tail[..n - 1] && chunks[n] == tail[n - 1];
      JoinedCons(c, tail[..n - 1]);
      assert c + Joined(tail[..n - 1]) + tail[n - 1] == c + (Joined(tail[..n - 1]) + tail[n - 1]);
    }
  }

  // ------------------------------------------------------------- one read

  /** Frames with data among the first `j` end where `w` does. */
  ghost predicate DataAtEnd(ms: seq<Message>, j: nat, w: seq<byte>)
    requires j <= |ms|
  {
    forall i | 0 <= i < j && ms[i].data != [] :: EndOf(ms, i + 1) == |w|
  }

  /** `w` holds `j` whole frames, and part of the next. */
  ghost predicate Holding(ms: seq<Message>, j: nat, w: seq<byte>) {
    j <= |ms| && EndOf(ms, j) <= |w| && (j < |ms| ==> |w| < EndOf(ms, j + 1))
  }

  /** What the decoder should give on `w`. */
  ghost predicate Right(ms: seq<Message>, j: nat, w: seq<byte>)
    requires j <= |ms| && EndOf(ms, j) <= |w|
  {
    Decode(w) == Decoded(ms[..j], w[EndOf(ms, j)..], false)
  }

  /** Something that was not sent. */
  ghost predicate Wrong(ms: seq<Message>, w: seq<byte>) {
    !Decode(w).failed && !(Decode(w).out <= ms)
  }

  /** `j` frames are in `w`, and the decoder is right on it exactly when those with data end there. */
  ghost predicate Front(ms: seq<Message>, j: nat, w: seq<byte>) {
    Holding(ms, j, w) && if DataAtEnd(ms, j, w) then Right(ms, j, w) else Wrong(ms, w)
  }

  /**
   The decoder on the front part of a stream: right as far as it goes exactly when no frame with
   data is followed by further bytes, and wrong for good otherwise.
   */
  lemma {:induction false} FrontDecoded(ms: seq<Message>, w: seq<byte>) returns (j: nat)
    requires w <= AllEncoded(ms) && |w| < 0x8000_0000 && forall i | 0 <= i < |ms| :: Sendable(ms[i])
    ensures Holding(ms, j, w)
    ensures if DataAtEnd(ms, j, w) then Right(ms, j, w) else Wrong(ms, w)
  {
    hide Encode, AllEncoded, Decode, EndOf, Holding, Right, Wrong, DataAtEnd;
    if ms == [] || |w| < |Encode(ms[0])| {
      j := 0;
      NoFrame(ms, w);
    } else {
      var w' := BehindFrame(ms, w);
      j := FrontDecoded(ms[1..], w');
      FrontStep(ms, w, w', j);
      j := j + 1;
    }
  }

  lemma {:induction false} NoFrame(ms: seq<Message>, w: seq<byte>)
    requires w <= AllEncoded(ms) && |w| < 0x8000_0000 && forall i | 0 <= i < |ms| :: Sendable(ms[i])
    requires ms == [] || |w| < |Encode(ms[0])|
    ensures Front(ms, 0, w)
  {
    FirstEnd(ms);
    hide Encode, Decode;
    if ms == [] {
      DecodeRounds([]);
    } else {
      assert w <= Encode(ms[0]);
      DecodePrefix(ms[0], w);
    }
    assert w[0..] == w;
  }

  lemma BehindFrame(ms: seq<Message>, w: seq<byte>) returns (w': seq<byte>)
    requires w <= AllEncoded(ms) && ms != [] && |Encode(ms[0])| <= |w|
    ensures w == Encode(ms[0]) + w' && w' <= AllEncoded(ms[1..])
  {
    hide Encode;
    var f := Encode(ms[0]);
    w' := w[|f|..];
    assert AllEncoded(ms) == f + AllEncoded(ms[1..]);
    assert w[..|f|] == f;
  }

  lemma {:induction false} FrontStep(ms: seq<Message>, w: seq<byte>, w': seq<byte>, j: nat)
    requires ms != [] && w == Encode(ms[0]) + w' && |w| < 0x8000_0000 && Sendable(ms[0])
    requires Front(ms[1..], j, w')
    ensures Front(ms, j + 1, w)
  {
    hide EndOf, Encode, Decode, Load, Holding, Right, Wrong, DataAtEnd;
    var m, tail := ms[0], ms[1..];
    EndsOneMore(ms);
    EncodedThen(m, w', w);
    DecodeHead(w);
    if m.data == [] {
      NoDataFirst(ms, w, w', j);
    } else {
      DataFirst(ms, w, w', j);
    }
  }

  lemma {:induction false} NoDataFirst(ms: seq<Message>, w: seq<byte>, w': seq<byte>, j: nat)
    requires ms != [] && ms[0].data == [] && w == Encode(ms[0]) + w' && Front(ms[1..], j, w')
    requires forall i | 0 <= i <= |ms[1..]| :: EndOf(ms, i + 1) == |Encode(ms[0])| + EndOf(ms[1..], i)
    requires Decode(w) == Then(ms[0], Decode(w'))
    ensures Front(ms, j + 1, w)
  {
    hide EndOf, Encode, Decode, DataAtEnd;
    var m, tail := ms[0], ms[1..];
    DataStep(ms, w, w', j);
    if DataAtEnd(tail, j, w') {
      assert w[EndOf(ms, j + 1)..] == w'[EndOf(tail, j)..];
      assert ms[..j + 1] == [m] + tail[..j];
    } else {
      PrefixBehind(m, Decode(w').out, tail);
      assert ms == [m] + tail;
    }
  }

  lemma {:induction false} EndsOneMore(ms: seq<Message>)
    requires ms != []
    ensures forall i | 0 <= i <= |ms[1..]| :: EndOf(ms, i + 1) == |Encode(ms[0])| + EndOf(ms[1..], i)
  {
    hide EndOf, Encode;
    FirstEnd(ms);
    forall i | 0 <= i <= |ms[1..]| ensures EndOf(ms, i + 1) == |Encode(ms[0])| + EndOf(ms[1..], i) {
      EndsBehind(ms, 1, i);
    }
  }

  lemma PrefixBehind(m: Message, out: seq<Message>, tail: seq<Message>)
    ensures [m] + out <= [m] + tail ==> out <= tail
  {
    assert ([m] + out)[1..] == out && ([m] + tail)[1..] == tail;
    if [m] + out <= [m] + tail {
      forall i | 0 <= i < |out| ensures out[i] == tail[i] {
        assert ([m] + out)[i + 1] == ([m] + tail)[i + 1];
      }
    }
  }

  lemma {:induction false} DataStep(ms: seq<Message>, w: seq<byte>, w': seq<byte>, j: nat)
    requires ms != [] && ms[0].data == [] && |w| == |Encode(ms[0])| + |w'| && j <= |ms[1..]|
    requires forall i | 0 <= i <= |ms[1..]| :: EndOf(ms, i + 1) == |Encode(ms[0])| + EndOf(ms[1..], i)
    ensures DataAtEnd(ms, j + 1, w) <==> DataAtEnd(ms[1..], j, w')
  {
    hide EndOf, Encode;
    if DataAtEnd(ms, j + 1, w) {
      forall i | 0 <= i < j && ms[1..][i].data != [] ensures EndOf(ms[1..], i + 1) == |w'| {
        assert ms[1..][i] == ms[i + 1] && EndOf(ms, i + 2) == |w|;
      }
    }
    if DataAtEnd(ms[1..], j, w') {
      forall i | 0 <= i < j + 1 && ms[i].data != [] ensures EndOf(ms, i + 1) == |w| {
        assert ms[i] == ms[1..][i - 1] && EndOf(ms[1..], i) == |w'|;
      }
    }
  }

  lemma {:induction false} DataFirst(ms: seq<Message>, w: seq<byte>, w': seq<byte>, j: nat)
    requires ms != [] && ms[0].data != [] && w == Encode(ms[0]) + w' && Front(ms[1..], j, w')
    requires forall i | 0 <= i <= |ms[1..]| :: EndOf(ms, i + 1) == |Encode(ms[0])| + EndOf(ms[1..], i)
    requires Decode(w) == Decoded([Message(ms[0].id, ms[0].data + w')], [], false)
    ensures Front(ms, j + 1, w)
  {
    hide EndOf, Encode, Decode, Right, Wrong;
    FirstEnd(ms[1..]);
    if w' == [] {
      EndsGrow(ms[1..], 0, j);
      DataLast(ms, w);
    } else {
      assert EndOf(ms, 1) != |w|;
      DataCovered(ms, w, w');
    }
  }

  lemma DataLast(ms: seq<Message>, w: seq<byte>)
    requires ms != [] && EndOf(ms, 1) == |w| && Decode(w) == Decoded([Message(ms[0].id, ms[0].data + [])], [], false)
    ensures Right(ms, 1, w)
  {
    hide EndOf, Decode;
    assert ms[..1] == [ms[0]] && ms[0].data + [] == ms[0].data && w[|w|..] == [];
  }

  lemma DataCovered(ms: seq<Message>, w: seq<byte>, w': seq<byte>)
    requires ms != [] && w' != [] && Decode(w) == Decoded([Message(ms[0].id, ms[0].data + w')], [], false)
    ensures Wrong(ms, w)
  {
    hide Decode;
    assert Decode(w).out[0].data != ms[0].data;
  }

  // ------------------------------------------------------------- all reads

  lemma {:induction false} BoundaryCons(before: nat, c: seq<byte>, tail: seq<seq<byte>>, e: nat)
    ensures Boundary(before, [c] + tail, e) <==> e == before || Boundary(before + |c|, tail, e)
  {
    var chunks := [c] + tail;
    assert Joined(chunks[..0]) == [];
    forall k | 0 <= k <= |tail| ensures |Joined(chunks[..k + 1])| == |c| + |Joined(tail[..k])| {
      assert chunks[..k + 1] == [c] + tail[..k];
      JoinedCons(c, tail[..k]);
    }
    hide Joined;
    if Boundary(before, chunks, e) {
      var k :| 0 <= k <= |chunks| && before + |Joined(chunks[..k])| == e;
      assert k > 0 ==> before + |c| + |Joined(tail[..k - 1])| == e;
    }
    if Boundary(before + |c|, tail, e) {
      var k :| 0 <= k <= |tail| && before + |c| + |Joined(tail[..k])| == e;
      assert before + |Joined(chunks[..k + 1])| == e;
    }
  }

  lemma {:induction false} BoundaryShift(before: nat, d: nat, chunks: seq<seq<byte>>, e: nat)
    ensures Boundary(before + d, chunks, e + d) <==> Boundary(before, chunks, e)
  {
    hide Joined;
    if Boundary(before + d, chunks, e + d) {
      var k :| 0 <= k <= |chunks| && before + d + |Joined(chunks[..k])| == e + d;
      assert before + |Joined(chunks[..k])| == e;
    }
    if Boundary(before, chunks, e) {
      var k :| 0 <= k <= |chunks| && before + |Joined(chunks[..k])| == e;
      assert before + d + |Joined(chunks[..k])| == e + d;
    }
  }

  /** A frame completed by the first read ends at a boundary only if that read ends there. */
  lemma {:induction false} ConditionFirst(ms: seq<Message>, u: seq<byte>, c: seq<byte>, tail: seq<seq<byte>>, j: nat, i: nat)
    requires Holding(ms, 0, u) && Holding(ms, j, u + c) && i < j
    ensures Boundary(|u|, [c] + tail, EndOf(ms, i + 1)) <==> EndOf(ms, i + 1) == |u + c|
  {
    hide EndOf;
    assert Joined(tail[..0]) == [];
    hide Joined;
    var e := EndOf(ms, i + 1);
    EndsGrow(ms, 1, i + 1);
    EndsGrow(ms, i + 1, j);
    assert |u| < e <= |u + c|;
    BoundaryCons(|u|, c, tail, e);
    if e == |u + c| {
      assert |u + c| + |Joined(tail[..0])| == e;
    }
  }

  /** A frame completed later ends at a boundary of the later reads, or at none. */
  lemma {:induction false} ConditionLater(ms: seq<Message>, u: seq<byte>, c: seq<byte>, tail: seq<seq<byte>>, j: nat, i: nat)
    requires Holding(ms, 0, u) && Holding(ms, j, u + c) && j <= i < |ms|
    ensures Boundary(|u|, [c] + tail, EndOf(ms, i + 1)) <==> Boundary(|u + c| - EndOf(ms, j), tail, EndOf(ms[j..], i + 1 - j))
  {
    hide EndOf, Boundary;
    var e, d := EndOf(ms, i + 1), EndOf(ms, j);
    EndsGrow(ms, 1, i + 1);
    assert |u| < e;
    BoundaryCons(|u|, c, tail, e);
    EndsBehind(ms, j, i + 1 - j);
    BoundaryShift(|u + c| - d, d, tail, EndOf(ms[j..], i + 1 - j));
  }

  /** The first read settles the frames it completes, and the others are a matter of the later ones. */
  lemma {:induction false} ConditionCons(ms: seq<Message>, u: seq<byte>, c: seq<byte>, tail: seq<seq<byte>>, j: nat)
    requires Holding(ms, 0, u) && Holding(ms, j, u + c)
    ensures DataEndsReads(ms, |u|, [c] + tail)
      <==> DataAtEnd(ms, j, u + c) && DataEndsReads(ms[j..], |u + c| - EndOf(ms, j), tail)
  {
    hide EndOf, Boundary;
    var d := EndOf(ms, j);
    if DataEndsReads(ms, |u|, [c] + tail) {
      forall i | 0 <= i < j && ms[i].data != [] ensures EndOf(ms, i + 1) == |u + c| {
        ConditionFirst(ms, u, c, tail, j, i);
      }
      forall i | 0 <= i < |ms[j..]| && ms[j..][i].data != [] ensures Boundary(|u + c| - d, tail, EndOf(ms[j..], i + 1)) {
        assert ms[j + i].data != [];
        ConditionLater(ms, u, c, tail, j, j + i);
      }
    }
    if DataAtEnd(ms, j, u + c) && DataEndsReads(ms[j..], |u + c| - d, tail) {
      forall i | 0 <= i < |ms| && ms[i].data != [] ensures Boundary(|u|, [c] + tail, EndOf(ms, i + 1)) {
        if i < j {
          ConditionFirst(ms, u, c, tail, j, i);
        } else {
          assert ms[j..][i - j].data != [];
          ConditionLater(ms, u, c, tail, j, i);
        }
      }
    }
  }

  lemma {:induction false} FedOne(u: seq<byte>, c: seq<byte>)
    ensures var d := Decode(u + c);
      Fed(u, [c]) == (d.rest, if d.failed then [] else [d.out], d.failed)
  {
    hide Decode;
    assert [c][..0] == [] && Fed(u, []) == (u, [], false);
    var d := Decode(u + c);
    assert [] + [d.out] == [d.out];
  }

  lemma {:induction false} FedCons(u: seq<byte>, c: seq<byte>, tail: seq<seq<byte>>)
    requires !Decode(u + c).failed
    ensures var d := Decode(u + c); var (rest, outs, failed) := Fed(d.rest, tail);
      Fed(u, [c] + tail) == (rest, [d.out] + outs, failed)
  {
    hide Decode, Fed;
    FedOne(u, c);
    FedInTwo(u, [c], tail);
  }

  lemma {:induction false} DeliveredCons(ms: seq<Message>, u: seq<byte>, c: seq<byte>, tail: seq<seq<byte>>, j: nat)
    requires Holding(ms, j, u + c)
    ensures Right(ms, j, u + c) ==>
      (Delivered(ms, u, [c] + tail) <==> Delivered(ms[j..], (u + c)[EndOf(ms, j)..], tail))
    ensures Wrong(ms, u + c) ==> !Delivered(ms, u, [c] + tail)
  {
    var d := Decode(u + c);
    if !d.failed {
      FedCons(u, c, tail);
      var (rest, outs, failed) := Fed(d.rest, tail);
      assert ([d.out] + outs)[1..] == outs;
      assert AllOut([d.out] + outs) == d.out + AllOut(outs);
      hide Decode, Fed, AllOut;
      assert ms == ms[..j] + ms[j..];
      if Right(ms, j, u + c) && ms[..j] + AllOut(outs) == ms {
        assert AllOut(outs) == ms[j..] by { assert (ms[..j] + AllOut(outs))[j..] == AllOut(outs); }
      }
    }
  }

  /**
   Main result.  However a stream of frames is cut into reads, the messages sent come out, and
   nothing else, if and only if no read that completes a frame with data also holds bytes behind
   it.  A frame and a read must fit a 32-bit size together; the stream need not.
   */
  lemma {:induction false} ChunksExact(ms: seq<Message>, u: seq<byte>, chunks: seq<seq<byte>>, most: nat)
    requires forall i | 0 <= i < |ms| :: |Encode(ms[i])| + most < 0x8000_0000
    requires forall i | 0 <= i < |chunks| :: |chunks[i]| <= most < 0x8000_0000
    requires Holding(ms, 0, u) && u + Joined(chunks) == AllEncoded(ms)
    ensures Delivered(ms, u, chunks) <==> DataEndsReads(ms, |u|, chunks)
    decreases |chunks|
  {
    FirstEnd(ms);
    if chunks == [] {
      AllThere(ms, u);
    } else {
      var c, tail := chunks[0], chunks[1..];
      var w := u + c;
      assert chunks == [c] + tail;
      JoinedCons(c, tail);
      assert w + Joined(tail) == AllEncoded(ms);
      assert ms != [] ==> |u| < |Encode(ms[0])|;
      assert ms == [] ==> u == [];
      hide Decode, Fed, Joined, AllEncoded, Encode, DataEndsReads, Delivered;
      var j := FrontDecoded(ms, w);
      ConditionCons(ms, u, c, tail, j);
      DeliveredCons(ms, u, c, tail, j);
      if DataAtEnd(ms, j, w) {
        RestHolds(ms, w, tail, j);
        ChunksExact(ms[j..], w[EndOf(ms, j)..], tail, most);
      }
    }
  }

  lemma {:induction false} AllThere(ms: seq<Message>, u: seq<byte>)
    requires Holding(ms, 0, u) && u + Joined([]) == AllEncoded(ms)
    ensures Delivered(ms, u, []) && DataEndsReads(ms, |u|, [])
  {
    FirstEnd(ms);
    assert u + [] == u;
  }

  lemma {:induction false} RestHolds(ms: seq<Message>, w: seq<byte>, tail: seq<seq<byte>>, j: nat)
    requires Holding(ms, j, w) && w + Joined(tail) == AllEncoded(ms)
    ensures var rest := w[EndOf(ms, j)..];
      Holding(ms[j..], 0, rest) && rest + Joined(tail) == AllEncoded(ms[j..])
  {
    hide AllEncoded, Joined;
    EncodedSplit(ms, j);
    FirstEnd(ms[j..]);
    var rest := w[EndOf(ms, j)..];
    if j < |ms| {
      EndsBehind(ms, j, 1);
    }
    assert (w + Joined(tail))[EndOf(ms, j)..] == rest + Joined(tail);
    assert (AllEncoded(ms[..j]) + AllEncoded(ms[j..]))[EndOf(ms, j)..] == AllEncoded(ms[j..]);
  }

  /** The same for a connection from its start, with the read buffer of 1024 bytes. */
  lemma {:induction false} StreamExact(ms: seq<Message>, chunks: seq<seq<byte>>)
    requires forall i | 0 <= i < |ms| :: |Encode(ms[i])| + 1024 < 0x8000_0000
    requires forall i | 0 <= i < |chunks| :: |chunks[i]| <= 1024
    requires Joined(chunks) == AllEncoded(ms)
    ensures Delivered(ms, [], chunks) <==> DataEndsReads(ms, 0, chunks)
  {
    FirstEnd(ms);
    assert [] + Joined(chunks) == Joined(chunks);
    ChunksExact(ms, [], chunks, 1024);
  }
}
