/**
 The socket envelope around an AIBus frame,
     "AidFSock", opcode, frame length + 1, frame..., checksum
 as the navigation computer's server writes it (AIBus_Socket.cpp) and the Rust client
 takes a received buffer apart again (ipc.rs `get_aibus_messages`).
 */
module Envelope {
  import opened Bytes
  import opened AIBus
  import opened Seqs

  /** The ASCII codes of "AidFSock". */
  const SOCKET_START: seq<byte> := [0x41, 0x69, 0x64, 0x46, 0x53, 0x6F, 0x63, 0x6B]

  /** Client to server, and server to client. */
  const OPCODE_TO_SERVER: byte := 0x18
  const OPCODE_TO_CLIENT: byte := 0x68

  const HEADER := |SOCKET_START| + 2

  function Head(opcode: byte, payload: seq<byte>): seq<byte> {
    SOCKET_START + [opcode, Low(|payload| + 1)] + payload
  }

  function Wrap(opcode: byte, payload: seq<byte>): (e: seq<byte>)
    ensures |e| == HEADER + |payload| + 1
  {
    Head(opcode, payload) + [Checksum(Head(opcode, payload))]
  }

  /**
   The last byte closes the envelope: all its bytes XOR to zero, as the C++ reader of the socket checks, and
   no longer do so when any one of them is changed. The Rust client does not look at it.
   */
  lemma EnvelopeClosed(opcode: byte, payload: seq<byte>, i: nat, b: byte)
    ensures Checksum(Wrap(opcode, payload)) == 0
    ensures i < |Wrap(opcode, payload)| && Wrap(opcode, payload)[i] != b ==> Checksum(Wrap(opcode, payload)[i := b]) != 0
  {
    hide Checksum, Head;
    ChecksumClosed(Head(opcode, payload), Checksum(Head(opcode, payload)));
    if i < |Wrap(opcode, payload)| && Wrap(opcode, payload)[i] != b {
      ChecksumDetectsChange(Wrap(opcode, payload), i, b);
    }
  }

  /** The null message, the decoder's word for a rejected frame, is not passed on. */
  function Kept(m: Message): seq<Message> {
    if m != NULL_MESSAGE then [m] else []
  }

  /** A buffer that starts with a complete envelope of the client's opcode. */
  predicate Complete(data: seq<byte>) {
    && |data| > HEADER
    && data[..|SOCKET_START|] == SOCKET_START
    && data[|SOCKET_START|] == OPCODE_TO_CLIENT
    && HEADER + data[|SOCKET_START| + 1] <= |data|
  }

  function FirstFrame(data: seq<byte>): seq<byte>
    requires Complete(data)
  {
    var len := data[|SOCKET_START| + 1];
    if len == 0 then [] else data[HEADER..HEADER + len - 1]
  }

  function AfterFirst(data: seq<byte>): seq<byte>
    requires Complete(data)
  {
    data[HEADER + data[|SOCKET_START| + 1]..]
  }

  /** The messages that one received buffer yields. */
  function Parse(data: seq<byte>): seq<Message>
    decreases |data|
  {
    if !Complete(data) then []
    else
      Kept(Decode(FirstFrame(data))) + Parse(AfterFirst(data))
  }

  function WrapAll(frames: seq<seq<byte>>): seq<byte> {
    if frames == [] then [] else Wrap(OPCODE_TO_CLIENT, frames[0]) + WrapAll(frames[1..])
  }

  function DecodeAll(frames: seq<seq<byte>>): seq<Message> {
    if frames == [] then [] else Kept(Decode(frames[0])) + DecodeAll(frames[1..])
  }

  lemma WrapComplete(payload: seq<byte>, rest: seq<byte>)
    requires |payload| <= 254
    ensures var data := Wrap(OPCODE_TO_CLIENT, payload) + rest;
            && Complete(data)
            && FirstFrame(data) == payload
            && AfterFirst(data) == rest
  {
    hide Checksum;
    var data, n := Wrap(OPCODE_TO_CLIENT, payload) + rest, |payload|;
    HeadRead(OPCODE_TO_CLIENT, payload, data[HEADER + n..]) by {
      assert data == Head(OPCODE_TO_CLIENT, payload) + data[HEADER + n..];
    }
    assert data == Head(OPCODE_TO_CLIENT, payload) + data[HEADER + n..];
    assert data[HEADER + n + 1..] == rest;
  }

  lemma HeadRead(opcode: byte, payload: seq<byte>, rest: seq<byte>)
    requires |payload| <= 254
    ensures var data, n := Head(opcode, payload) + rest, |SOCKET_START|;
            && data[..n] == SOCKET_START && data[n] == opcode && data[n + 1] == |payload| + 1
            && data[HEADER..HEADER + |payload|] == payload
  {
    var data := SOCKET_START + ([opcode, Low(|payload| + 1)] + payload + rest);
    assert Head(opcode, payload) + rest == data;
  }

  /** A cut-off envelope is never mistaken for a whole one. */
  lemma PrefixIncomplete(tail: seq<byte>, payload: seq<byte>)
    requires |payload| <= 254
    requires tail < Wrap(OPCODE_TO_CLIENT, payload)
    ensures !Complete(tail)
  {
    if |tail| > HEADER {
      assert tail[|SOCKET_START| + 1] == |payload| + 1;
    }
  }

  lemma ParseWrapped(payload: seq<byte>, rest: seq<byte>)
    requires |payload| <= 254
    ensures Parse(Wrap(OPCODE_TO_CLIENT, payload) + rest) == Kept(Decode(payload)) + Parse(rest)
  {
    hide Decode, Kept, Wrap, Complete, FirstFrame, AfterFirst;
    WrapComplete(payload, rest);
  }

  /** What follows some whole envelopes and is none itself yields nothing. */
  lemma {:induction false} ParseThen(frames: seq<seq<byte>>, tail: seq<byte>)
    requires (forall f :: f in frames ==> |f| <= 254) && !Complete(tail)
    ensures Parse(WrapAll(frames) + tail) == DecodeAll(frames)
  {
    hide Decode, Kept, Wrap, Complete, FirstFrame, AfterFirst;
    if frames == [] {
      assert WrapAll(frames) + tail == tail;
    } else {
      var rest := WrapAll(frames[1..]);
      ParseThen(frames[1..], tail);
      ParseWrapped(frames[0], rest + tail);
      Associative(Wrap(OPCODE_TO_CLIENT, frames[0]), rest, tail);
    }
  }

  /**
   A buffer of whole envelopes followed by the beginning of one more yields exactly the
   messages of the whole ones, in order, whatever bytes the frames hold.
   */
  lemma ParseStream(frames: seq<seq<byte>>, tail: seq<byte>, next: seq<byte>)
    requires forall f :: f in frames ==> |f| <= 254
    requires |next| <= 254 && tail < Wrap(OPCODE_TO_CLIENT, next)
    ensures Parse(WrapAll(frames) + tail) == DecodeAll(frames)
  {
    hide Parse, Complete, Wrap;
    PrefixIncomplete(tail, next);
    ParseThen(frames, tail);
  }

  /** An envelope with another opcode ends the parse: all that follows in the same read is lost. */
  lemma StrangerEnds(frames: seq<seq<byte>>, opcode: byte, payload: seq<byte>, rest: seq<byte>)
    requires (forall f :: f in frames ==> |f| <= 254) && opcode != 0x68
    ensures Parse(WrapAll(frames) + Wrap(opcode, payload) + rest) == DecodeAll(frames)
  {
    hide Parse, Complete, Wrap, WrapAll;
    OtherOpcode(opcode, payload, rest);
    Associative(WrapAll(frames), Wrap(opcode, payload), rest);
    ParseThen(frames, Wrap(opcode, payload) + rest);
  }

  lemma OtherOpcode(opcode: byte, payload: seq<byte>, rest: seq<byte>)
    requires opcode != 0x68
    ensures !Complete(Wrap(opcode, payload) + rest)
  {
    hide Checksum;
    assert (Wrap(opcode, payload) + rest)[|SOCKET_START|] == opcode;
  }

  function Frames(ms: seq<Message>): seq<seq<byte>> {
    if ms == [] then [] else [Frame(ms[0])] + Frames(ms[1..])
  }

  /** A message that comes through the decoder: neither the null message nor an echo. */
  predicate Visible(m: Message) {
    m != NULL_MESSAGE && !EchoPayload(m)
  }

  /** Sending messages through the server and reading them back loses the null and echo messages only. */
  lemma {:induction false} RelayedMessages(ms: seq<Message>, tail: seq<byte>, next: seq<byte>)
    requires forall m :: m in ms ==> |m.data| <= 250
    requires |next| <= 254 && tail < Wrap(OPCODE_TO_CLIENT, next)
    ensures Parse(WrapAll(Frames(ms)) + tail) == Filter(ms, Visible)
  {
    DecodeFrames(ms);
    FramesFit(ms);
    ParseStream(Frames(ms), tail, next);
  }

  lemma {:induction false} FramesFit(ms: seq<Message>)
    requires forall m :: m in ms ==> |m.data| <= 250
    ensures forall f :: f in Frames(ms) ==> |f| <= 254
  {
    if ms != [] {
      FramesFit(ms[1..]);
    }
  }

  lemma {:induction false} DecodeFrames(ms: seq<Message>)
    ensures DecodeAll(Frames(ms)) == Filter(ms, Visible)
  {
    hide Decode, Frame, Frames, DecodeAll, Filter, Visible, Kept;
    FramesUnfold(ms);
    if ms == [] {
      FilterAll([], Visible);
    } else {
      var m, rest := ms[0], ms[1..];
      DecodeFrames(rest);
      DecodeFrame(m);
      FilterConcat([m], rest, Visible);
      assert [m] + rest == ms;
      FilterPush([], m, Visible);
      FilterAll([], Visible);
      assert [] + [m] == [m];
    }
  }

  lemma FramesUnfold(ms: seq<Message>)
    ensures DecodeAll(Frames(ms)) == if ms == [] then [] else Kept(Decode(Frame(ms[0]))) + DecodeAll(Frames(ms[1..]))
  {
    hide Decode, Frame, Kept;
    assert ms != [] ==> Frames(ms)[1..] == Frames(ms[1..]);
  }

  lemma DecodeFrame(m: Message)
    ensures Kept(Decode(Frame(m))) == if Visible(m) then [m] else []
  {
    hide Checksum;
    DecodeEncode(m);
    EchoExactly(m);
  }

  // ---------- one stream, several reads ----------

  /** What successive reads bring, each of some whole envelopes: one group of messages a read. */
  function ParseReads(groups: seq<seq<Message>>): seq<Message> {
    if groups == [] then []
    else ParseReads(groups[..|groups| - 1]) + Parse(WrapAll(Frames(groups[|groups| - 1])))
  }

  function Flat(groups: seq<seq<Message>>): seq<Message> {
    if groups == [] then [] else Flat(groups[..|groups| - 1]) + groups[|groups| - 1]
  }

  /** It does not matter how the envelopes are spread over the reads. */
  lemma {:induction false} ReadsTogether(groups: seq<seq<Message>>)
    requires forall m :: m in Flat(groups) ==> |m.data| <= 250
    ensures ParseReads(groups) == Filter(Flat(groups), Visible)
  {
    hide Filter, Frames, WrapAll, Parse;
    if groups == [] {
      FilterAll([], Visible);
    } else {
      var front, g := groups[..|groups| - 1], groups[|groups| - 1];
      assert Flat(groups) == Flat(front) + g;
      ReadsTogether(front);
      NothingFollows(WrapAll(Frames(g)));
      RelayedMessages(g, [], []);
      FilterConcat(Flat(front), g, Visible);
    }
  }

  lemma NothingFollows(data: seq<byte>)
    ensures data + [] == data && [] < Wrap(OPCODE_TO_CLIENT, [])
  {
  }

  /**
   A read that ends inside an envelope loses it: this read yields the whole envelopes only, and
   the next one yields nothing at all unless it happens to begin with the start of an envelope,
   which it cannot if the cut was in the start or right after it.
   */
  lemma CutRead(frames: seq<seq<byte>>, next: seq<byte>, i: nat, rest: seq<byte>)
    requires (forall f :: f in frames ==> |f| <= 254) && |next| <= 254
    requires 0 < i < |Wrap(OPCODE_TO_CLIENT, next)|
    ensures var e := Wrap(OPCODE_TO_CLIENT, next);
            && Parse(WrapAll(frames) + e[..i]) == DecodeAll(frames)
            && (!(SOCKET_START <= e[i..] + rest) ==> Parse(e[i..] + rest) == [])
            && (i <= |SOCKET_START| ==> !(SOCKET_START <= e[i..] + rest))
  {
    hide Checksum, Frame, Parse;
    var e := Wrap(OPCODE_TO_CLIENT, next);
    ParseStream(frames, e[..i], next);
    NotAStart(e[i..] + rest);
    assert (e[i..] + rest)[0] == e[i];
    assert i <= |SOCKET_START| ==> e[i] != SOCKET_START[0];
  }

  lemma NotAStart(data: seq<byte>)
    ensures !(SOCKET_START <= data) ==> Parse(data) == []
  {
    assert |data| >= |SOCKET_START| ==> data == data[..|SOCKET_START|] + data[|SOCKET_START|..];
  }

  /** AIBus_Socket.cpp `writeSocketMessage`; nothing is sent when the length does not fit its byte. */
  method WriteSocketMessage(opcode: byte, payload: seq<byte>) returns (sent: seq<byte>)
    ensures sent == if |payload| + 1 > 255 then [] else Wrap(opcode, payload)
  {
    if |payload| + 1 > 255 {
      return [];
    }
    var byteLen, start := |payload| + |SOCKET_START| + 3, |SOCKET_START|;
    var data := new byte[byteLen](_ => 0);
    for i := 0 to start
      invariant data[..i] == SOCKET_START[..i]
    {
      data[i] := SOCKET_START[i];
    }
    assert data[..start] == SOCKET_START;
    data[start] := opcode;
    data[start + 1] := Low(|payload| + 1);
    assert data[..HEADER] == data[..start] + [opcode, Low(|payload| + 1)];
    for i := 0 to |payload|
      invariant data[..HEADER] == Head(opcode, payload)[..HEADER]
      invariant data[HEADER..HEADER + i] == payload[..i]
    {
      data[start + 2 + i] := payload[i];
    }
    sent := CloseBuffer(data, Head(opcode, payload));
  }

  method CloseBuffer(data: array<byte>, ghost head: seq<byte>) returns (sent: seq<byte>)
    requires data.Length == |head| + 1 && data[..|head|] == head
    modifies data
    ensures sent == head + [Checksum(head)]
  {
    var n := data.Length - 1;
    var checksum := XorFirst(data[..], n);
    data[n] := checksum;
    sent := data[..];
    assert sent[..n] == head;
  }

  lemma LowNext(n: nat)
    ensures Low(Low(n) + 1) == Low(n + 1)
  {
  }

  /** ipc.rs `get_full_bytes`, which pushes byte by byte; the length byte wraps, as in a release build. */
  method GetFullBytes(m: Message) returns (data: seq<byte>)
    ensures data == Wrap(OPCODE_TO_SERVER, Frame(m))
  {
    hide Low, Frame, Checksum;
    data := SOCKET_START;
    data := data + [OPCODE_TO_SERVER];
    var aiBytes := GetBytes(m);
    LowNext(|aiBytes|);
    data := data + [Low(Low(|aiBytes|) + 1)];
    ghost var head := data;
    for i := 0 to |aiBytes|
      invariant data == head + aiBytes[..i]
    {
      data := data + [aiBytes[i]];
    }
    assert head + aiBytes[..|aiBytes|] == Head(OPCODE_TO_SERVER, aiBytes);
    var chex := XorFirst(data, |data|);
    assert data[..|data|] == data;
    data := data + [chex];
  }

  /** ipc.rs `get_aibus_messages`: each round takes one envelope, of ten bytes or more, off the front. */
  method GetAIBusMessages(origData: seq<byte>) returns (messages: seq<Message>)
    ensures messages == Parse(origData)
  {
    messages := [];
    var data := origData;
    while |data| > HEADER
      invariant messages + Parse(data) == Parse(origData)
      decreases |data|
    {
      var complete, m, rest := TakeFirst(data);
      if !complete {
        assert Parse(data) == [];
        return;
      }
      ParseRound(data, m, messages);
      ghost var before := messages;
      if |m.data| > 0 || m.sender != 0 || m.receiver != 0 {
        messages := messages + [m];
      }
      assert messages == before + Kept(m);
      data := rest;
    }
    assert Parse(data) == [];
  }

  /** One round of the loop: check the start, the opcode and the length, then decode. */
  method TakeFirst(data: seq<byte>) returns (complete: bool, m: Message, rest: seq<byte>)
    requires |data| > HEADER
    ensures complete <==> Complete(data)
    ensures complete ==> m == Decode(FirstFrame(data)) && rest == AfterFirst(data) && |rest| + HEADER <= |data|
  {
    complete, m, rest := false, NULL_MESSAGE, [];
    for i := 0 to |SOCKET_START|
      invariant data[..i] == SOCKET_START[..i]
    {
      if data[i] != SOCKET_START[i] {
        assert data[..|SOCKET_START|][i] != SOCKET_START[i];
        return;
      }
    }
    assert data[..|SOCKET_START|] == SOCKET_START;
    var opcode := data[|SOCKET_START|];
    var start := HEADER;
    var len := data[|SOCKET_START| + 1];
    if opcode != OPCODE_TO_CLIENT || start + len > |data| {
      return;
    }
    var aiBytes := CopyRange(data, start, start + len - 1);
    m := GetAIBusMessage(aiBytes);
    complete, rest := true, data[start + len..];
  }

  lemma ParseRound(data: seq<byte>, m: Message, before: seq<Message>)
    requires Complete(data) && m == Decode(FirstFrame(data))
    ensures before + Parse(data) == before + Kept(m) + Parse(AfterFirst(data))
  {
    ParseUnfold(data);
    Associative(before, Kept(m), Parse(AfterFirst(data)));
  }

  lemma ParseUnfold(data: seq<byte>)
    requires Complete(data)
    ensures Parse(data) == Kept(Decode(FirstFrame(data))) + Parse(AfterFirst(data))
  {
    hide Decode, Checksum;
  }

  /** Bytes from lo up to hi; none when hi is one below lo, as for an envelope of length 0. */
  method CopyRange(data: seq<byte>, lo: nat, hi: int) returns (bytes: seq<byte>)
    requires lo - 1 <= hi <= |data| && lo <= |data|
    ensures bytes == if lo <= hi then data[lo..hi] else []
  {
    bytes := [];
    var i := lo;
    while i < hi
      invariant lo <= i && (i <= hi || i == lo)
      invariant bytes == data[lo..i]
    {
      bytes := bytes + [data[i]];
      i := i + 1;
    }
  }
}
