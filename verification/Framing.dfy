/**
 The network framing: a byte buffer read from the front and written at the back, a frame of
 length, id and data, and the decoder that is run after every read.
 */
module Framing {
  import opened Bytes

  datatype Message = Message(id: int32, data: seq<byte>)

  /** What the decoder makes of the bytes not yet read: the messages, the bytes left, and whether it threw. */
  datatype Decoded = Decoded(out: seq<Message>, rest: seq<byte>, failed: bool)

  // ------------------------------------------------------------- the codec

  /** `callbackMessageEncoder`. */
  function Encode(m: Message): (r: seq<byte>)
    ensures |r| == 8 + |m.data|
  {
    Store(AsInt32(8 + |m.data|)) + Store(m.id) + m.data
  }

  /** The frame of a message on the wire, byte for byte. */
  lemma FrameBytes()
    ensures Encode(Message(0x0403_0201, [9, 8])) == [10, 0, 0, 0, 1, 2, 3, 4, 9, 8]
  {
  }

  /** `callbackMessageDecoder`: a frame with data takes all that is left of the buffer. */
  function Decode(u: seq<byte>): (r: Decoded)
    decreases |u|
  {
    var size := AsInt32(|u|);
    if size < 8 then Decoded([], u, false)
    else
      var len := Load(u[..4]);
      if len < 8 then Decoded([], u, true)
      else if len > size then Decoded([], u, false)
      else
        var data := if len > 8 then u[8..] else [];
        var more := Decode(if len > 8 then [] else u[8..]);
        Decoded([Message(Load(u[4..8]), data)] + more.out, more.rest, more.failed)
  }

  /** The decoder one would expect: a frame takes its own bytes and no more. */
  function Ideal(u: seq<byte>): (r: Decoded)
    decreases |u|
  {
    if |u| < 8 then Decoded([], u, false)
    else
      var len := Load(u[..4]);
      if len < 8 then Decoded([], u, true)
      else if len > |u| then Decoded([], u, false)
      else
        var more := Ideal(u[len..]);
        Decoded([Message(Load(u[4..8]), u[8..len])] + more.out, more.rest, more.failed)
  }

  /** No frame with data is followed by further bytes. */
  predicate Alone(u: seq<byte>)
    decreases |u|
  {
    |u| < 8 ||
    var len := Load(u[..4]);
    len < 8 || len > |u| || (if len > 8 then len == |u| else Alone(u[8..]))
  }

  /**
   On a buffer of less than 2^31 bytes the decoder gives what one would expect if and only if no
   complete frame with data is followed by further bytes.
   */
  lemma {:induction false} DecodeExact(u: seq<byte>)
    requires |u| < 0x8000_0000
    ensures Decode(u) == Ideal(u) <==> Alone(u)
    decreases |u|
  {
    hide Load;
    if |u| >= 8 && 8 <= Load(u[..4]) <= |u| {
      var len := Load(u[..4]);
      if len > 8 {
        assert u[8..][..|u| - 8] == u[8..];
        assert Decode([]) == Decoded([], [], false);
        if len == |u| {
          assert u[8..len] == u[8..] && u[len..] == [];
        } else {
          assert Decode(u).out[0].data != Ideal(u).out[0].data;
        }
      } else {
        DecodeExact(u[8..]);
        assert u[8..8] == [];
        var d, i := Decode(u[8..]), Ideal(u[8..]);
        assert Decode(u).out[1..] == d.out && Ideal(u).out[1..] == i.out;
      }
    }
  }

  lemma DecodeRounds(u: seq<byte>)
    ensures AsInt32(|u|) < 8 ==> Decode(u) == Decoded([], u, false)
    ensures AsInt32(|u|) >= 8 ==> |u| >= 8
    ensures AsInt32(|u|) >= 8 && Load(u[..4]) < 8 ==> Decode(u) == Decoded([], u, true)
    ensures AsInt32(|u|) >= 8 && Load(u[..4]) > AsInt32(|u|) ==> Decode(u) == Decoded([], u, false)
    ensures AsInt32(|u|) >= 8 && 8 <= Load(u[..4]) <= AsInt32(|u|) ==>
      var len := Load(u[..4]);
      var more := Decode(if len > 8 then [] else u[8..]);
      Decode(u) == Decoded([Message(Load(u[4..8]), if len > 8 then u[8..] else [])] + more.out, more.rest, more.failed)
  {
    hide Load;
  }

  // ------------------------------------------------------------- frames in chunks

  /** A frame the length field can tell the size of. */
  predicate Sendable(m: Message) {
    8 + |m.data| < 0x8000_0000
  }

  lemma HeadOf(m: Message, u: seq<byte>)
    requires Sendable(m) && u <= Encode(m)
    ensures |u| >= 4 ==> Load(u[..4]) == 8 + |m.data|
    ensures |u| >= 8 ==> Load(u[4..8]) == m.id
    ensures |u| == 8 + |m.data| ==> u == Encode(m) && u[8..] == m.data
  {
    hide Load, Store;
    var f := Encode(m);
    LoadStored(AsInt32(8 + |m.data|));
    LoadStored(m.id);
    if |u| >= 4 {
      assert u[..4] == f[..4] == Store(AsInt32(8 + |m.data|));
    }
    if |u| >= 8 {
      assert u[4..8] == f[4..8] == Store(m.id);
    }
    if |u| == |f| {
      assert u == f;
    }
  }

  /** Part of a frame gives nothing, and the whole frame gives the message and leaves nothing. */
  lemma {:induction false} DecodePrefix(m: Message, u: seq<byte>)
    requires Sendable(m) && u <= Encode(m)
    ensures Decode(u) == if u == Encode(m) then Decoded([m], [], false) else Decoded([], u, false)
  {
    hide Load, Encode, Decode;
    HeadOf(m, u);
    DecodeRounds(u);
    DecodeRounds([]);
    assert |u| == 8 ==> u[8..] == [];
  }

  function Joined(chunks: seq<seq<byte>>): (r: seq<byte>) {
    if chunks == [] then [] else Joined(chunks[..|chunks| - 1]) + chunks[|chunks| - 1]
  }

  /** What is left in the buffer after chunks were read, one by one, starting with `u`; and what each read gave. */
  function Fed(u: seq<byte>, chunks: seq<seq<byte>>): (r: (seq<byte>, seq<seq<Message>>, bool))
    ensures |r.1| <= |chunks|
  {
    if chunks == [] then (u, [], false)
    else
      var (rest, outs, failed) := Fed(u, chunks[..|chunks| - 1]);
      if failed then (rest, outs, true)
      else
        var d := Decode(rest + chunks[|chunks| - 1]);
        if d.failed then (d.rest, outs, true) else (d.rest, outs + [d.out], false)
  }

  function Nothing(n: nat): (r: seq<seq<Message>>)
    ensures |r| == n
  {
    seq(n, i => [])
  }

  lemma {:induction false} JoinedPrefix(chunks: seq<seq<byte>>, k: nat)
    requires k <= |chunks|
    ensures Joined(chunks[..k]) <= Joined(chunks)
    ensures k < |chunks| && (forall i | 0 <= i < |chunks| :: chunks[i] != []) ==> |Joined(chunks[..k])| < |Joined(chunks)|
  {
    if k == |chunks| {
      assert chunks[..k] == chunks;
    } else {
      var n := |chunks| - 1;
      JoinedPrefix(chunks[..n], k);
      assert chunks[..n][..k] == chunks[..k];
      if k == n {
        assert chunks[..n][..k] == chunks[..n];
      }
    }
  }

  /** The chunks of an unfinished frame pile up in the buffer. */
  lemma {:induction false} Unfinished(m: Message, chunks: seq<seq<byte>>)
    requires Sendable(m) && Joined(chunks) <= Encode(m) && Joined(chunks) != Encode(m)
    ensures Fed([], chunks) == (Joined(chunks), Nothing(|chunks|), false)
  {
    if chunks != [] {
      var n := |chunks| - 1;
      Unfinished(m, chunks[..n]);
      DecodePrefix(m, Joined(chunks));
      assert Nothing(n) + [[]] == Nothing(n + 1);
    }
  }

  /** However a frame is cut into chunks, nothing comes out until the last one, and then exactly the message. */
  lemma {:induction false} OneFrame(m: Message, chunks: seq<seq<byte>>)
    requires Sendable(m) && Joined(chunks) == Encode(m) && forall i | 0 <= i < |chunks| :: chunks[i] != []
    ensures chunks != [] && Fed([], chunks) == ([], Nothing(|chunks| - 1) + [[m]], false)
  {
    var n := |chunks| - 1;
    JoinedPrefix(chunks, n);
    Unfinished(m, chunks[..n]);
    DecodePrefix(m, Encode(m));
  }

  /** Chunk by chunk is the same whether or not it is done in two goes. */
  lemma {:induction false} FedInTwo(u: seq<byte>, a: seq<seq<byte>>, b: seq<seq<byte>>)
    requires !Fed(u, a).2
    ensures var (rest, outs, _) := Fed(u, a); var (rest', outs', failed) := Fed(rest, b);
      Fed(u, a + b) == (rest', outs + outs', failed)
  {
    if b == [] {
      assert a + b == a && Fed(u, a).1 + [] == Fed(u, a).1;
    } else {
      var n := |b| - 1;
      FedInTwo(u, a, b[..n]);
      assert (a + b)[..|a + b| - 1] == a + b[..n] && (a + b)[|a + b| - 1] == b[n];
      var (rest, outs, _) := Fed(u, a);
      var (rest', outs', failed) := Fed(rest, b[..n]);
      if !failed {
        var d := Decode(rest' + b[n]);
        hide Decode;
        assert outs + (outs' + [d.out]) == outs + outs' + [d.out];
      }
    }
  }

  function Flattened(groups: seq<seq<seq<byte>>>): (r: seq<seq<byte>>) {
    if groups == [] then [] else Flattened(groups[..|groups| - 1]) + groups[|groups| - 1]
  }

  /** What the reads should give: each message with the last chunk of its frame. */
  function Expected(ms: seq<Message>, groups: seq<seq<seq<byte>>>): (r: seq<seq<Message>>)
    requires |ms| == |groups| && forall i | 0 <= i < |groups| :: groups[i] != []
  {
    if ms == [] then []
    else
      var n := |ms| - 1;
      Expected(ms[..n], groups[..n]) + Nothing(|groups[n]| - 1) + [[ms[n]]]
  }

  /** The chunks of group `i` make up the frame of message `i`. */
  predicate Cut(ms: seq<Message>, groups: seq<seq<seq<byte>>>) {
    |ms| == |groups| && forall i | 0 <= i < |ms| :: Sendable(ms[i]) && CutOne(ms[i], groups[i])
  }

  predicate CutOne(m: Message, chunks: seq<seq<byte>>) {
    chunks != [] && Joined(chunks) == Encode(m) && forall i | 0 <= i < |chunks| :: chunks[i] != []
  }

  /** Any number of frames, each cut anyhow, with no chunk across a frame boundary. */
  lemma {:induction false} AllFrames(ms: seq<Message>, groups: seq<seq<seq<byte>>>)
    requires Cut(ms, groups)
    ensures Fed([], Flattened(groups)) == ([], Expected(ms, groups), false)
  {
    hide Fed, Sendable, Joined, Encode, CutOne;
    if ms == [] {
      FedNothing([]);
    } else {
      var n := |ms| - 1;
      CutChunks(ms, groups);
      OneFrame(ms[n], groups[n]);
      AllFrames(ms[..n], groups[..n]);
      FedInTwo([], Flattened(groups[..n]), groups[n]);
      assert Expected(ms[..n], groups[..n]) + (Nothing(|groups[n]| - 1) + [[ms[n]]]) == Expected(ms, groups);
    }
  }

  lemma FedNothing(u: seq<byte>)
    ensures Fed(u, []) == (u, [], false)
  {
  }

  lemma CutChunks(ms: seq<Message>, groups: seq<seq<seq<byte>>>)
    requires Cut(ms, groups)
    ensures forall i | 0 <= i < |ms| :: groups[i] != [] && Joined(groups[i]) == Encode(ms[i])
    ensures forall i, k | 0 <= i < |ms| && 0 <= k < |groups[i]| :: groups[i][k] != []
  {
  }

  // ------------------------------------------------------------- frames in one piece

  function AllEncoded(ms: seq<Message>): (r: seq<byte>) {
    if ms == [] then [] else Encode(ms[0]) + AllEncoded(ms[1..])
  }

  /** Only the last message has data. */
  predicate OnlyLastHasData(ms: seq<Message>) {
    forall i | 0 <= i < |ms| - 1 :: ms[i].data == []
  }

  /** Frames that arrive together come out right if and only if only the last of them has data. */
  lemma {:induction false} TogetherExact(ms: seq<Message>)
    requires |AllEncoded(ms)| < 0x8000_0000
    ensures Decode(AllEncoded(ms)) == Decoded(ms, [], false) <==> OnlyLastHasData(ms)
  {
    if ms != [] {
      TogetherHead(ms);
      if ms[0].data == [] {
        TogetherExact(ms[1..]);
        hide Decode, AllEncoded;
        assert OnlyLastHasData(ms) <==> OnlyLastHasData(ms[1..]);
        assert ms == [ms[0]] + ms[1..];
        assert Decode(AllEncoded(ms)).out[1..] == Decode(AllEncoded(ms[1..])).out;
      } else {
        assert |ms| == 1 ==> AllEncoded(ms[1..]) == [] && ms[0].data + [] == ms[0].data;
        hide Decode, AllEncoded;
        if |ms| == 1 {
          assert ms == [ms[0]];
        } else {
          assert ms[0].data != [] && 0 < |ms| - 1;
        }
      }
    }
  }

  function Then(m: Message, d: Decoded): Decoded {
    Decoded([m] + d.out, d.rest, d.failed)
  }

  /** What comes out first of frames that arrive together. */
  lemma {:induction false} TogetherHead(ms: seq<Message>)
    requires ms != [] && |AllEncoded(ms)| < 0x8000_0000
    ensures |AllEncoded(ms[1..])| < 0x8000_0000 && (|ms| > 1 <==> AllEncoded(ms[1..]) != [])
    ensures Decode(AllEncoded(ms)) ==
      if ms[0].data == [] then Then(ms[0], Decode(AllEncoded(ms[1..])))
      else Decoded([Message(ms[0].id, ms[0].data + AllEncoded(ms[1..]))], [], false)
  {
    hide Decode;
    var m, u, rest := ms[0], AllEncoded(ms), AllEncoded(ms[1..]);
    assert u == Encode(m) + rest;
    assert |ms| > 1 <==> rest != [];
    hide AllEncoded;
    EncodedThen(m, rest, u);
    DecodeHead(u);
  }

  lemma EncodedThen(m: Message, rest: seq<byte>, u: seq<byte>)
    requires u == Encode(m) + rest && |u| < 0x8000_0000
    ensures |u| >= 8 && Load(u[..4]) == 8 + |m.data| && Load(u[4..8]) == m.id && u[8..] == m.data + rest
    ensures m.data == [] ==> u[8..] == rest
  {
    hide Load, Encode;
    HeadOf(m, Encode(m));
    assert u[..4] == Encode(m)[..4] && u[4..8] == Encode(m)[4..8];
    assert Encode(m)[8..] == m.data;
    assert u[8..] == Encode(m)[8..] + rest;
    assert [] + rest == rest;
  }

  /** One round of the decoder on a complete frame. */
  lemma DecodeHead(u: seq<byte>)
    requires 8 <= |u| < 0x8000_0000 && 8 <= Load(u[..4]) <= |u|
    ensures Decode(u) ==
      if Load(u[..4]) == 8 then Then(Message(Load(u[4..8]), []), Decode(u[8..]))
      else Decoded([Message(Load(u[4..8]), u[8..])], [], false)
  {
    hide Load, Decode;
    DecodeRounds(u);
    DecodeRounds([]);
  }

  // ------------------------------------------------------------- the buffer

  class ByteBuffer {
    var rpos: nat
    var wpos: nat
    var storage: seq<byte>

    ghost predicate Valid()
      reads this
    {
      rpos <= wpos == |storage|
    }

    ghost function Unread(): seq<byte>
      requires Valid()
      reads this
    {
      storage[rpos..wpos]
    }

    constructor ()
      ensures Valid() && Unread() == []
    {
      rpos, wpos, storage := 0, 0, [];
    }

    method ByteSize() returns (n: nat)
      requires Valid()
      ensures n == |Unread()|
    {
      n := wpos - rpos;
    }

    method ByteEmpty() returns (empty: bool)
      requires Valid()
      ensures empty <==> Unread() == []
    {
      empty := rpos == |storage|;
    }

    method Append(src: seq<byte>)
      requires Valid()
      modifies this
      ensures Valid() && Unread() == old(Unread()) + src && rpos == old(rpos)
    {
      if |src| == 0 {
        assert Unread() + src == Unread();
        return;
      }
      if |storage| < wpos + |src| {
        storage := storage + seq(wpos + |src| - |storage|, i => 0);
      }
      storage := storage[..wpos] + src + storage[wpos + |src|..];
      wpos := wpos + |src|;
    }

    /** `read` of an integer, which throws when the buffer is too short and consumes nothing. */
    method ReadInt32() returns (ok: bool, v: int32)
      requires Valid()
      ensures ok <==> 4 <= |Unread()|
      ensures ok ==> v == Load(Unread()[..4])
    {
      v := 0;
      var n := ByteSize();
      ok := 4 <= n;
      if ok {
        v := Load(storage[rpos..rpos + 4]);
        assert storage[rpos..wpos][..4] == storage[rpos..rpos + 4];
      }
    }

    method ReadSkip(skip: nat) returns (ok: bool)
      requires Valid()
      modifies this`rpos
      ensures Valid() && (ok <==> skip <= |old(Unread())|)
      ensures Unread() == if ok then old(Unread())[skip..] else old(Unread())
    {
      var n := ByteSize();
      ok := skip <= n;
      if ok {
        rpos := rpos + skip;
      }
    }

    /** `operator>>` for an integer. */
    method ExtractInt32() returns (ok: bool, v: int32)
      requires Valid()
      modifies this`rpos
      ensures Valid() && (ok <==> 4 <= |old(Unread())|)
      ensures if ok then v == Load(old(Unread())[..4]) && Unread() == old(Unread())[4..] else Unread() == old(Unread())
    {
      ok, v := ReadInt32();
      if ok {
        var skipped := ReadSkip(4);
      }
    }

    /** `operator>>` for a vector of bytes: all that is left. */
    method ExtractAll() returns (val: seq<byte>)
      requires Valid()
      modifies this`rpos
      ensures Valid() && val == old(Unread()) && Unread() == []
    {
      val := [];
      var empty := ByteEmpty();
      if !empty {
        val := storage[rpos..wpos];
        var skipped := ReadSkip(|val|);
      }
    }

    /** The bytes not read move to the front, and the storage shrinks to hold just them. */
    method ShrinkToFit()
      requires Valid()
      modifies this
      ensures Valid() && Unread() == old(Unread()) && rpos == 0
    {
      if rpos == 0 {
        return;
      }
      var len := ByteSize();
      if len == 0 {
        rpos, wpos, storage := 0, 0, [];
        return;
      }
      storage := storage[rpos..rpos + len] + storage[len..];
      rpos := 0;
      wpos := len;
      storage := storage[..wpos];
    }
  }

  /** `out` is a front part of what `d` gives, and `more` the rest. */
  predicate Continues(d: Decoded, out: seq<Message>, more: Decoded) {
    d == Decoded(out + more.out, more.rest, more.failed)
  }

  lemma ContinuesEnds(d: Decoded, out: seq<Message>, more: Decoded)
    ensures out == [] && more == d ==> Continues(d, out, more)
    ensures Continues(d, out, more) && more.out == [] ==> d == Decoded(out, more.rest, more.failed)
  {
    assert [] + d.out == d.out && out + [] == out;
  }

  lemma ContinuesOne(d: Decoded, out: seq<Message>, m: Message, mid: Decoded, more: Decoded)
    requires Continues(d, out, mid) && mid == Decoded([m] + more.out, more.rest, more.failed)
    ensures Continues(d, out + [m], more)
  {
  }

  method CallbackMessageDecoder(buffer: ByteBuffer) returns (out: seq<Message>, failed: bool)
    requires buffer.Valid()
    modifies buffer`rpos
    ensures buffer.Valid() && Decoded(out, buffer.Unread(), failed) == Decode(old(buffer.Unread()))
  {
    hide Decode, Load, Continues;
    out, failed := [], false;
    ghost var d := Decode(buffer.Unread());
    ContinuesEnds(d, [], d);
    while true
      invariant buffer.Valid() && Continues(d, out, Decode(buffer.Unread())) && !failed
      decreases |buffer.Unread()|
    {
      ghost var u := buffer.Unread();
      DecodeRounds(u);
      ContinuesEnds(d, out, Decode(u));
      var n := buffer.ByteSize();
      var size := AsInt32(n);
      if size < 8 {
        break;
      }
      var ok, len := buffer.ReadInt32();
      if len < 8 {
        failed := true;
        break;
      }
      if len <= size {
        var skipped := buffer.ReadSkip(4);
        var ok2, id := buffer.ExtractInt32();
        assert u[4..][..4] == u[4..8] && u[4..][4..] == u[8..];
        var data := [];
        if len - 8 > 0 {
          data := buffer.ExtractAll();
        }
        ContinuesOne(d, out, Message(id, data), Decode(u), Decode(buffer.Unread()));
        out := out + [Message(id, data)];
      } else {
        break;
      }
    }
  }

  /** `callbackMessageEncoder`, filling its vector from the front. */
  method CallbackMessageEncoder(id: int32, data: seq<byte>) returns (r: array<byte>)
    ensures fresh(r) && r[..] == Encode(Message(id, data))
  {
    r := new byte[8 + |data|];
    var pos := 0;
    CopyTo(r, pos, Store(AsInt32(r.Length)));
    pos := pos + 4;
    CopyTo(r, pos, Store(id));
    pos := pos + 4;
    if data != [] {
      CopyTo(r, pos, data);
    }
  }

  /** What a read does to the buffer; after a failure the connection is closed and not read again. */
  method DoReadCallback(buffer: ByteBuffer, chunk: seq<byte>) returns (out: seq<Message>, failed: bool)
    requires buffer.Valid()
    modifies buffer
    ensures buffer.Valid() && Decoded(out, buffer.Unread(), failed) == Decode(old(buffer.Unread()) + chunk)
    ensures !failed ==> buffer.rpos == 0
  {
    buffer.Append(chunk);
    out, failed := CallbackMessageDecoder(buffer);
    if !failed {
      buffer.ShrinkToFit();
    }
  }

  /** A connection that reads `chunks`. */
  method ReadAll(buffer: ByteBuffer, chunks: seq<seq<byte>>) returns (outs: seq<seq<Message>>, failed: bool)
    requires buffer.Valid()
    modifies buffer
    ensures buffer.Valid() && Fed(old(buffer.Unread()), chunks) == (buffer.Unread(), outs, failed)
  {
    outs, failed := [], false;
    var i := 0;
    while i < |chunks| && !failed
      invariant i <= |chunks| && buffer.Valid() && Fed(old(buffer.Unread()), chunks[..i]) == (buffer.Unread(), outs, failed)
    {
      assert chunks[..i + 1][..i] == chunks[..i];
      var out: seq<Message>;
      out, failed := DoReadCallback(buffer, chunks[i]);
      if !failed {
        outs := outs + [out];
      }
      i := i + 1;
    }
    FedFailed(old(buffer.Unread()), chunks, i);
  }

  lemma {:induction false} FedFailed(u: seq<byte>, chunks: seq<seq<byte>>, i: nat)
    requires i <= |chunks| && (Fed(u, chunks[..i]).2 || i == |chunks|)
    ensures Fed(u, chunks) == Fed(u, chunks[..i])
  {
    if i == |chunks| {
      assert chunks[..i] == chunks;
    } else {
      assert chunks[..|chunks| - 1][..i] == chunks[..i];
      FedFailed(u, chunks[..|chunks| - 1], i);
    }
  }
}
