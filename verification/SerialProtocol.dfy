/**
 The serial line (Serial_AIBus_Handler.cpp): how `readAIData` takes frames off the port,
 what it does with each, and why a transfer survives whatever order nested reads impose.
 */
module SerialProtocol {
  import opened Bytes
  import opened AIBus
  import ClientProtocol
  import opened Fragmentation
  import opened Quotients
  import opened ResendCache
  import opened Seqs

  // ---------- framing ----------

  /** What is left on the port after one read, and the message taken off it, if any. */
  datatype Scan = Scan(rest: seq<byte>, got: seq<Message>)

  /** A read with at least four bytes waiting. */
  function Deframe(port: seq<byte>): (s: Scan)
    requires |port| >= 4
    ensures |s.rest| + 2 <= |port| && |s.got| <= 1
  {
    var l := port[1];
    if l > AIDATA_LIMIT + 5 then Scan(port[2..], [])       // length misread
    else if l < 2 || |port| - 2 < l then Scan([], [])      // nonsense, or cut off: the line is drained
    else
      var f := port[..l + 2];
      if !WellFormed(f) then Scan([], [])
      else if EchoShaped(f) then Scan(port[l + 2..], [])
      else Scan(port[l + 2..], [Unframe(f)])
  }

  /** n reads, or as many as find four bytes. */
  function ScanN(port: seq<byte>, n: nat): Scan
    decreases n
  {
    if n == 0 || |port| < 4 then Scan(port, [])
    else
      var first := Deframe(port);
      var more := ScanN(first.rest, n - 1);
      Scan(more.rest, first.got + more.got)
  }

  lemma {:induction false} ScanConcat(port: seq<byte>, a: nat, b: nat)
    ensures ScanN(port, a + b) == Scan(ScanN(ScanN(port, a).rest, b).rest,
                                       ScanN(port, a).got + ScanN(ScanN(port, a).rest, b).got)
    decreases a
  {
    hide Deframe;
    if a == 0 || |port| < 4 {
      assert [] + ScanN(port, b).got == ScanN(port, b).got;
    } else {
      var first := Deframe(port);
      ScanConcat(first.rest, a - 1, b);
      var x, y, z := first.got, ScanN(first.rest, a - 1).got, ScanN(ScanN(port, a).rest, b).got;
      assert x + (y + z) == x + y + z;
    }
  }

  /** The frames of some messages, one after the other. */
  function Wire(ms: seq<Message>): seq<byte> {
    if ms == [] then [] else Frame(ms[0]) + Wire(ms[1..])
  }

  /** What the serial reader lets through: short enough, and not shaped like an echo. */
  predicate Passable(m: Message) {
    |m.data| <= AIDATA_LIMIT + 3 && !EchoPayload(m)
  }

  lemma DeframeFirst(m: Message, rest: seq<byte>)
    requires Passable(m)
    ensures |Frame(m) + rest| >= 4 && Deframe(Frame(m) + rest) == Scan(rest, [m])
  {
    hide Frame, Deframe;
    UnescapedFrame(m, rest);
  }

  /** A frame put on the line without the escape is skipped exactly if its payload is `[sender, 4]`. */
  lemma UnescapedFrame(m: Message, rest: seq<byte>)
    requires |m.data| <= AIDATA_LIMIT + 3
    ensures |Frame(m) + rest| >= 4 && Deframe(Frame(m) + rest) == Scan(rest, if EchoPayload(m) then [] else [m])
  {
    var port := Frame(m) + rest;
    FrameWellFormed(m);
    EchoExactly(m);
    assert port[1] == |m.data| + 2;
    assert port[..|m.data| + 4] == Frame(m);
    assert port[|m.data| + 4..] == rest;
  }

  /**
   The Rust client queues this payload as it is, and the server puts the client's frames on the
   line as they are: no serial reader ever sees it, and the Rust decoder would not either.
   */
  lemma ClientEcho(receiver: byte, rest: seq<byte>)
    ensures var m := Message(ClientProtocol.ME, receiver, [ClientProtocol.ME, 4]);
            && Outgoing(m) == [m] && !m.StartsWith(RESEND) && !m.IsFragment()
            && Deframe(Frame(m) + rest) == Scan(rest, []) && Decode(Frame(m)) == NULL_MESSAGE
  {
    var m := Message(ClientProtocol.ME, receiver, [ClientProtocol.ME, 4]);
    UnescapedFrame(m, rest);
    EchoExactly(m);
  }

  /** Reading the frames of passable messages n times yields the first n messages, in order. */
  lemma {:induction false} ScanWire(ms: seq<Message>, n: nat)
    requires forall m :: m in ms ==> Passable(m)
    ensures ScanN(Wire(ms), n) == ScanResult(ms, n)
  {
    hide Frame, Deframe, Passable, ScanN, Wire, ScanResult;
    ScanTrivial(Wire(ms));
    WireUnfold(ms);
    ResultEnds(ms, n);
    if n > 0 {
      if ms == [] {
        ScanShort([], n);
      } else {
        var rest := ms[1..];
        assert forall m :: m in rest ==> m in ms;
        ScanWire(rest, n - 1);
        ScanNext(ms[0], Wire(rest), n);
        ResultNext(ms, n);
      }
    }
  }

  /** What n reads make of the frames of some messages. */
  function ScanResult(ms: seq<Message>, n: nat): Scan {
    if n <= |ms| then Scan(Wire(ms[n..]), ms[..n]) else Scan([], ms)
  }

  lemma ResultEnds(ms: seq<Message>, n: nat)
    ensures n == 0 ==> ScanResult(ms, n) == Scan(Wire(ms), [])
    ensures n > 0 && ms == [] ==> ScanResult(ms, n) == Scan([], [])
  {
    assert ms[0..] == ms && ms[..0] == [];
  }

  lemma ResultNext(ms: seq<Message>, n: nat)
    requires ms != [] && n > 0
    ensures var more := ScanResult(ms[1..], n - 1);
            ScanResult(ms, n) == Scan(more.rest, [ms[0]] + more.got)
  {
    hide Wire;
    SliceNext(ms, n);
  }

  lemma ScanTrivial(port: seq<byte>)
    ensures ScanN(port, 0) == Scan(port, [])
  {
  }

  lemma ScanShort(port: seq<byte>, n: nat)
    requires |port| < 4
    ensures ScanN(port, n) == Scan(port, [])
  {
  }

  lemma WireUnfold(ms: seq<Message>)
    ensures Wire(ms) == if ms == [] then [] else Frame(ms[0]) + Wire(ms[1..])
  {
  }

  lemma SliceNext(ms: seq<Message>, n: nat)
    requires ms != [] && n > 0
    ensures n <= |ms| ==> ms[1..][n - 1..] == ms[n..] && [ms[0]] + ms[1..][..n - 1] == ms[..n]
    ensures [ms[0]] + ms[1..] == ms
  {
  }

  lemma ScanNext(m: Message, rest: seq<byte>, n: nat)
    requires Passable(m) && n > 0
    ensures ScanN(Frame(m) + rest, n) == Scan(ScanN(rest, n - 1).rest, [m] + ScanN(rest, n - 1).got)
  {
    hide Deframe, Passable;
    DeframeFirst(m, rest);
  }

  /** A length byte that no frame has makes the reader skip it and the byte before, and read on with the frames behind. */
  lemma MisreadSkipped(s: byte, l: byte, ms: seq<Message>, n: nat)
    requires l > 37 && ms != [] && forall m :: m in ms ==> Passable(m)
    ensures |[s, l] + Wire(ms)| >= 4
    ensures ScanN([s, l] + Wire(ms), n + 1).got == if n <= |ms| then ms[..n] else ms
  {
    hide Frame, Wire, ScanN, Deframe, Passable;
    WireUnfold(ms);
    Misread(s, l, Wire(ms), n);
    ScanWire(ms, n);
  }

  lemma Misread(s: byte, l: byte, rest: seq<byte>, n: nat)
    requires l > 37 && |rest| >= 2
    ensures Deframe([s, l] + rest) == Scan(rest, []) && ScanN([s, l] + rest, n + 1) == ScanN(rest, n)
  {
    var port := [s, l] + rest;
    assert port[1] == l && port[2..] == rest;
    assert [] + ScanN(rest, n).got == ScanN(rest, n).got;
  }

  /** A changed byte other than the length drains the line, whatever follows; a changed length byte does so if it is below 2. */
  lemma DamagedDrained(m: Message, i: nat, b: byte, rest: seq<byte>)
    requires |m.data| <= 35 && i < |Frame(m)| && Frame(m)[i] != b
    ensures i != 1 || b < 2 ==> Deframe(Frame(m)[i := b] + rest) == Scan([], [])
    ensures i == 1 && b > 37 ==> Deframe(Frame(m)[i := b] + rest) == Scan(Frame(m)[2..] + rest, [])
  {
    hide Checksum;
    var f := Frame(m)[i := b];
    var port := f + rest;
    assert port[1] == f[1];
    if i != 1 {
      CorruptionRejected(m, i, b);
      assert port[..|f|] == f;
    } else if b > 37 {
      assert port[2..] == Frame(m)[2..] + rest;
    }
  }

  /** So does a frame that is cut off. */
  lemma CutOffDrained(m: Message, port: seq<byte>)
    requires |m.data| <= 35 && 4 <= |port| && port < Frame(m)
    ensures Deframe(port) == Scan([], [])
  {
    hide Checksum, WellFormed;
    assert port[1] == Frame(m)[1];
  }

  // ---------- the writer's escape ----------

  /** writeAIBusToSerial appends a zero to the one payload that would look like an echo. */
  function Escaped(m: Message): Message {
    if EchoPayload(m) then m.(data := m.data + [0]) else m
  }

  function EscapedAll(ms: seq<Message>): (es: seq<Message>)
    ensures |es| == |ms| && forall i :: 0 <= i < |es| ==> es[i] == Escaped(ms[i])
  {
    seq(|ms|, i requires 0 <= i < |ms| => Escaped(ms[i]))
  }

  /** The test in the writer, on payload and checksum, is exactly the echo payload. */
  lemma EscapeTest(m: Message)
    requires |m.data| == 2
    ensures m.data[0] == m.sender && Checksum(Body(m)) == m.receiver <==> EchoPayload(m)
  {
    assert Body(m) == [m.sender, 4, m.receiver, m.data[0], m.data[1]];
    assert m.data == [m.data[0], m.data[1]];
    EchoChecksum(m.sender, m.receiver, m.data[0], m.data[1]);
  }

  /** Nothing the writer puts on the line is ever dropped as an echo or for its length. */
  lemma EscapedPassable(m: Message, x: Message)
    requires x in Outgoing(m)
    ensures Passable(Escaped(x))
  {
    OutgoingFits(m, x);
  }

  /** A long message's fragments need no escape. */
  lemma FragmentsPassable(m: Message)
    requires IsLong(m)
    ensures EscapedAll(Fragments(m)) == Fragments(m)
    ensures forall x :: x in Fragments(m) ==> Passable(x)
  {
    forall k | 0 <= k < Total(m)
      ensures Escaped(Fragments(m)[k]) == Fragments(m)[k] && Passable(Fragments(m)[k])
    {
      FragmentShape(m, k);
    }
  }

  // ---------- handling ----------

  /** What happens to the reassembler: a message is handled, one is ignored as foreign, or 500 ms pass. */
  datatype Input = Got(msg: Message) | Ignored(msg: Message) | Expired

  datatype Reassembly = Reassembly(cache: seq<Message>, expected: int)

  const IDLE := Reassembly([], -1)

  predicate Collected(id: byte, x: Message) {
    x.IsFragment() && (x.receiver == id || x.receiver == BROADCAST)
  }

  /** The reassembler's next state and what readAIData then returns. */
  function Core(id: byte, st: Reassembly, x: Message): (Reassembly, seq<Message>) {
    if x.StartsWith(RESEND) then (st, [])
    else if !Collected(id, x) then (st, [x])
    else if st.expected <= 0 && x.data[1] == 0 then (st, [])
    else
      var expected := if st.expected <= 0 then x.data[1] else st.expected;
      var cache := st.cache + [x];
      if |cache| >= expected then
        (IDLE, [Message(x.sender, x.receiver, AssembleLast(cache, expected, expected, x))])
      else (Reassembly(cache, expected), [])
  }

  function Advance(id: byte, st: Reassembly, i: Input): Reassembly {
    if i.Got? then Core(id, st, i.msg).0 else if i.Expired? then IDLE else st
  }

  function PutOut(id: byte, st: Reassembly, i: Input): seq<Message> {
    if i.Got? then Core(id, st, i.msg).1 else []
  }

  function CoreState(id: byte, inputs: seq<Input>): Reassembly {
    if inputs == [] then IDLE
    else
      Advance(id, CoreState(id, inputs[..|inputs| - 1]), inputs[|inputs| - 1])
  }

  function Outs(id: byte, inputs: seq<Input>): seq<Message> {
    if inputs == [] then []
    else
      Outs(id, inputs[..|inputs| - 1]) + PutOut(id, CoreState(id, inputs[..|inputs| - 1]), inputs[|inputs| - 1])
  }

  function Msgs(inputs: seq<Input>): seq<Message> {
    if inputs == [] then []
    else Msgs(inputs[..|inputs| - 1]) + (if inputs[|inputs| - 1].Expired? then [] else [inputs[|inputs| - 1].msg])
  }

  /** A message is only ever ignored as a fragment of a second pair, and only a collection expires. */
  predicate Legal(id: byte, inputs: seq<Input>) {
    inputs == [] ||
    (var front, last := inputs[..|inputs| - 1], inputs[|inputs| - 1];
     && Legal(id, front)
     && (last.Ignored? ==> Foreign(CoreState(id, front).cache, last.msg))
     && (last.Expired? ==> CoreState(id, front).cache != []))
  }

  lemma InputsPush(id: byte, inputs: seq<Input>, i: Input)
    ensures CoreState(id, inputs + [i]) == Advance(id, CoreState(id, inputs), i)
    ensures Outs(id, inputs + [i]) == Outs(id, inputs) + PutOut(id, CoreState(id, inputs), i)
    ensures Msgs(inputs + [i]) == Msgs(inputs) + if i.Expired? then [] else [i.msg]
    ensures Legal(id, inputs + [i]) <==>
            Legal(id, inputs)
            && (i.Ignored? ==> Foreign(CoreState(id, inputs).cache, i.msg))
            && (i.Expired? ==> CoreState(id, inputs).cache != [])
  {
    assert (inputs + [i])[..|inputs|] == inputs;
  }

  predicate NoExpiry(inputs: seq<Input>) {
    forall i :: i in inputs ==> !i.Expired?
  }

  lemma OwnFragment(m: Message, ms: seq<Message>, i: nat)
    requires i < |ms| && multiset(ms) <= multiset(Fragments(m)) && Total(m) <= 255 && IsLong(m)
    ensures ms[i].IsFragment() && ms[i].SamePair(m) && ms[i].data[1] == Total(m)
  {
    assert ms[i] in multiset(ms);
    assert ms[i] in multiset(Fragments(m));
    var k :| 0 <= k < Total(m) && ms[i] == Fragments(m)[k];
    FragmentShape(m, k);
    FragmentFields(m, k);
  }

  /** A reassembler that holds some fragments of m and nothing else. */
  predicate Holding(st: Reassembly, ms: seq<Message>, m: Message) {
    && st == Reassembly(ms, if ms == [] then -1 else Total(m))
    && forall x :: x in ms ==> x.SamePair(m)
  }

  /** One more fragment of m: never ignored, collected, and the message put out when it is the last. */
  lemma FragmentInput(id: byte, st: Reassembly, ms: seq<Message>, m: Message, i: Input)
    requires Holding(st, ms, m) && !i.Expired?
    requires m.receiver == id || m.receiver == BROADCAST
    requires IsLong(m) && Total(m) <= 255 && |ms| < Total(m)
    requires multiset(ms + [i.msg]) <= multiset(Fragments(m))
    requires i.Ignored? ==> Foreign(st.cache, i.msg)
    ensures |ms| + 1 < Total(m) ==> Holding(Advance(id, st, i), ms + [i.msg], m) && PutOut(id, st, i) == []
    ensures |ms| + 1 == Total(m) && multiset(ms + [i.msg]) == multiset(Fragments(m)) ==>
              Advance(id, st, i) == IDLE && PutOut(id, st, i) == [m]
  {
    hide AssembleLast;
    var x, cache := i.msg, ms + [i.msg];
    OwnFragment(m, cache, |ms|);
    assert ms != [] ==> ms[0] in ms;
    assert i.Got? && Collected(id, x) && !x.StartsWith(RESEND);
    if multiset(cache) == multiset(Fragments(m)) {
      AssembleAnyOrder(m, cache);
      AssembledForPair(cache, Total(m), Total(m), m, x);
    }
  }

  /** While fragments of one long message come in, in any order, they are collected and nothing else happens. */
  lemma {:induction false} CollectingInputs(id: byte, before: seq<Input>, more: seq<Input>, m: Message)
    requires Legal(id, before + more) && CoreState(id, before) == IDLE && NoExpiry(more)
    requires m.receiver == id || m.receiver == BROADCAST
    requires IsLong(m) && Total(m) <= 255
    requires multiset(Msgs(more)) <= multiset(Fragments(m)) && |Msgs(more)| < Total(m)
    ensures Holding(CoreState(id, before + more), Msgs(more), m)
    ensures Outs(id, before + more) == Outs(id, before)
  {
    if more == [] {
      assert before + more == before;
    } else {
      var front, last := more[..|more| - 1], more[|more| - 1];
      SplitLast(id, before, more);
      CollectingInputs(id, before, front, m);
      FragmentInput(id, CoreState(id, before + front), Msgs(front), m, last);
    }
  }

  lemma SplitLast(id: byte, before: seq<Input>, more: seq<Input>)
    requires more != [] && NoExpiry(more)
    ensures var front, last := more[..|more| - 1], more[|more| - 1];
            && NoExpiry(front) && !last.Expired?
            && Msgs(more) == Msgs(front) + [last.msg]
            && CoreState(id, before + more) == Advance(id, CoreState(id, before + front), last)
            && Outs(id, before + more) == Outs(id, before + front) + PutOut(id, CoreState(id, before + front), last)
            && (Legal(id, before + more) ==>
                  Legal(id, before + front)
                  && (last.Ignored? ==> Foreign(CoreState(id, before + front).cache, last.msg)))
  {
    hide Advance, PutOut, Legal, CoreState, Outs, Msgs;
    var front, last := more[..|more| - 1], more[|more| - 1];
    assert more == front + [last] && before + more == before + front + [last];
    assert last in more;
    InputsPush(id, front, last);
    InputsPush(id, before + front, last);
  }

  /**
   Once all fragments of a long message have been handled, in whatever order, the reassembler
   is idle again and has put out that message, once, with the very last of them.
   */
  lemma AllInputs(id: byte, before: seq<Input>, more: seq<Input>, m: Message)
    requires Legal(id, before + more) && CoreState(id, before) == IDLE && NoExpiry(more)
    requires m.receiver == id || m.receiver == BROADCAST
    requires IsLong(m) && Total(m) <= 255
    requires multiset(Msgs(more)) == multiset(Fragments(m))
    ensures more != [] && CoreState(id, before + more) == IDLE
    ensures Outs(id, before + more) == Outs(id, before) + [m]
    ensures Outs(id, before + more[..|more| - 1]) == Outs(id, before)
  {
    assert |Msgs(more)| == |multiset(Msgs(more))| == |multiset(Fragments(m))| == Total(m);
    var front, last := more[..|more| - 1], more[|more| - 1];
    SplitLast(id, before, more);
    CollectingInputs(id, before, front, m);
    FragmentInput(id, CoreState(id, before + front), Msgs(front), m, last);
  }

  // ---------- exactly which messages survive a transfer ----------

  /** What a caller can check before writing a message. */
  predicate Transferable(m: Message) {
    if IsLong(m) then |m.data| <= MAX_PAYLOAD else !m.StartsWith(RESEND) && !Escaped(m).IsFragment()
  }

  function OnWire(m: Message): seq<Message> {
    EscapedAll(Outgoing(m))
  }

  /** Handling, in any order, the first k messages of a transferable message's k or more: nothing comes out until the last. */
  lemma TransferInputs(id: byte, before: seq<Input>, more: seq<Input>, m: Message, k: nat)
    requires Legal(id, before + more) && CoreState(id, before) == IDLE && NoExpiry(more)
    requires m.receiver == id || m.receiver == BROADCAST
    requires Transferable(m) && 0 < k <= |OnWire(m)|
    requires multiset(Msgs(more)) == multiset(OnWire(m)[..k])
    ensures more != []
    ensures var out := if k == |OnWire(m)| then [Escaped(m)] else [];
            && Outs(id, before + more) == Outs(id, before) + out
            && PutOut(id, CoreState(id, before + more[..|more| - 1]), more[|more| - 1]) == out
    ensures k == |OnWire(m)| ==> CoreState(id, before + more) == IDLE
  {
    hide Core, CoreState, Outs, Msgs, Legal, Advance, PutOut, NoExpiry, Fragments;
    assert |Msgs(more)| == |multiset(Msgs(more))| == |multiset(OnWire(m)[..k])| == k;
    MsgsCount(more);
    if IsLong(m) {
      FragmentsPassable(m);
      LongInputs(id, before, more, m, k);
    } else {
      SplitLast(id, before, more);
      SingleInput(id, before, more, m);
    }
  }

  lemma LongInputs(id: byte, before: seq<Input>, more: seq<Input>, m: Message, k: nat)
    requires Legal(id, before + more) && CoreState(id, before) == IDLE && NoExpiry(more) && more != []
    requires m.receiver == id || m.receiver == BROADCAST
    requires IsLong(m) && Transferable(m) && 0 < k <= |Fragments(m)| && |Msgs(more)| == k
    requires multiset(Msgs(more)) == multiset(Fragments(m)[..k])
    ensures var out := if k == |Fragments(m)| then [m] else [];
            && Outs(id, before + more) == Outs(id, before) + out
            && PutOut(id, CoreState(id, before + more[..|more| - 1]), more[|more| - 1]) == out
    ensures k == |Fragments(m)| ==> CoreState(id, before + more) == IDLE
  {
    hide Core, CoreState, Outs, Msgs, Legal, Advance, PutOut, NoExpiry, Holding, Foreign, Fragment, Escaped;
    var w, last := Fragments(m), PutOut(id, CoreState(id, before + more[..|more| - 1]), more[|more| - 1]);
    SplitLast(id, before, more);
    if k == |w| {
      assert w[..k] == w;
      AllInputs(id, before, more, m);
      OutsSuffix(Outs(id, before), last, [m]);
    } else {
      assert w == w[..k] + w[k..];
      CollectingInputs(id, before, more, m);
      CollectingFront(id, before, more, m);
      OutsSuffix(Outs(id, before), last, []);
    }
  }

  lemma OutsSuffix(a: seq<Message>, b: seq<Message>, c: seq<Message>)
    requires a + b == a + c
    ensures b == c
  {
    assert (a + b)[|a|..] == b && (a + c)[|a|..] == c;
  }

  lemma {:induction false} MsgsCount(more: seq<Input>)
    requires NoExpiry(more)
    ensures |Msgs(more)| == |more|
  {
    if more != [] {
      assert more[|more| - 1] in more;
      MsgsCount(more[..|more| - 1]);
    }
  }

  lemma CollectingFront(id: byte, before: seq<Input>, more: seq<Input>, m: Message)
    requires more != []
    requires Legal(id, before + more) && CoreState(id, before) == IDLE && NoExpiry(more)
    requires m.receiver == id || m.receiver == BROADCAST
    requires IsLong(m) && Total(m) <= 255
    requires multiset(Msgs(more)) <= multiset(Fragments(m)) && |Msgs(more)| < Total(m)
    ensures Outs(id, before + more[..|more| - 1]) == Outs(id, before)
  {
    hide Core, CoreState, Outs, Msgs, Legal, Advance, PutOut, NoExpiry, Holding, Foreign;
    var front, last := more[..|more| - 1], more[|more| - 1];
    SplitLast(id, before, more);
    assert multiset(Msgs(more)) == multiset(Msgs(front)) + multiset{last.msg};
    CollectingInputs(id, before, front, m);
  }

  lemma SingleInput(id: byte, before: seq<Input>, more: seq<Input>, m: Message)
    requires Legal(id, before + more) && CoreState(id, before) == IDLE && NoExpiry(more)
    requires !IsLong(m) && Transferable(m)
    requires multiset(Msgs(more)) == multiset(OnWire(m)[..1]) && more != []
    ensures var front, last := more[..|more| - 1], more[|more| - 1];
            && CoreState(id, before + front) == IDLE && Outs(id, before + front) == Outs(id, before)
            && PutOut(id, CoreState(id, before + front), last) == [Escaped(m)]
            && CoreState(id, before + more) == IDLE
  {
    hide CoreState, Outs, Legal, Msgs, PutOut, Advance, Escaped, NoExpiry, Foreign;
    var front, last := more[..|more| - 1], more[|more| - 1];
    SplitLast(id, before, more);
    OneMessage(more, Escaped(m));
    assert front == [] && before + front == before;
    assert last.msg == Escaped(m);
    EscapedPlain(m);
    PlainAtRest(id, last, Escaped(m));
  }

  lemma EscapedPlain(m: Message)
    requires !IsLong(m) && Transferable(m)
    ensures !Escaped(m).StartsWith(RESEND) && !Escaped(m).IsFragment()
  {
  }

  lemma OneMessage(more: seq<Input>, x: Message)
    requires NoExpiry(more) && multiset(Msgs(more)) == multiset{x} && more != []
    ensures |more| == 1 && more[0].msg == x
  {
    hide Msgs;
    MsgsCount(more);
    assert |Msgs(more)| == |multiset(Msgs(more))| == 1;
    assert more == [more[0]] && more[0] in more;
    LoneMsg(more[0]);
    assert more[0].msg in multiset(Msgs(more));
  }

  lemma LoneMsg(i: Input)
    requires !i.Expired?
    ensures Msgs([i]) == [i.msg]
  {
    assert [i][..0] == [] && Msgs([]) == [];
  }

  /** A plain message that finds the reassembler idle is put out. */
  lemma PlainAtRest(id: byte, i: Input, x: Message)
    requires !i.Expired? && i.msg == x && (i.Ignored? ==> Foreign(IDLE.cache, x))
    requires !x.StartsWith(RESEND) && !x.IsFragment()
    ensures PutOut(id, IDLE, i) == [x] && Advance(id, IDLE, i) == IDLE
  {
  }

  function Gots(ms: seq<Message>): (inputs: seq<Input>)
    ensures |inputs| == |ms| && forall i :: 0 <= i < |ms| ==> inputs[i] == Got(ms[i])
  {
    seq(|ms|, i requires 0 <= i < |ms| => Got(ms[i]))
  }

  /**
   What one device writes, handled in order by an idle reader, puts out exactly the message
   as escaped if and only if the message is transferable. A payload beyond 8160 bytes wraps
   the fragment count; the escape turns `[0x91, 4]` from device 0x91 into a fragment.
   */
  lemma SerialTransferExactly(id: byte, m: Message)
    requires m.receiver == id || m.receiver == BROADCAST
    ensures Outs(id, Gots(OnWire(m))) == [Escaped(m)] <==> Transferable(m)
  {
    hide CoreState, Outs, Escaped;
    if Transferable(m) {
      InOrder(id, m);
    } else if IsLong(m) {
      SerialOverflow(id, m);
    } else {
      LoneInput(id, m, Escaped(m));
      assert OnWire(m) == [Escaped(m)];
    }
  }

  lemma InOrder(id: byte, m: Message)
    requires Transferable(m) && (m.receiver == id || m.receiver == BROADCAST)
    ensures Outs(id, Gots(OnWire(m))) == [Escaped(m)]
  {
    hide CoreState, Outs, Legal, Msgs, Transferable, OnWire, Escaped, PutOut, NoExpiry;
    SomethingOnWire(m);
    GotsLegal(id, OnWire(m));
    FirstTransfer(id, Gots(OnWire(m)), m);
  }

  lemma FirstTransfer(id: byte, more: seq<Input>, m: Message)
    requires Legal(id, more) && NoExpiry(more) && Msgs(more) == OnWire(m) && |OnWire(m)| > 0
    requires Transferable(m) && (m.receiver == id || m.receiver == BROADCAST)
    ensures Outs(id, more) == [Escaped(m)]
  {
    hide CoreState, Outs, Legal, Msgs, Transferable, OnWire, Escaped, PutOut, NoExpiry;
    NoInputs(id);
    assert [] + more == more;
    assert OnWire(m)[..|OnWire(m)|] == OnWire(m);
    TransferInputs(id, [], more, m, |OnWire(m)|);
  }

  lemma SomethingOnWire(m: Message)
    ensures |OnWire(m)| == |Outgoing(m)| > 0
  {
    hide Fragment, Escaped;
  }

  lemma NoInputs(id: byte)
    ensures CoreState(id, []) == IDLE && Outs(id, []) == []
  {
  }

  lemma SerialOverflow(id: byte, m: Message)
    requires m.receiver == id || m.receiver == BROADCAST
    requires |m.data| > MAX_PAYLOAD
    ensures |Outs(id, Gots(OnWire(m)))| != 1
  {
    hide CoreState, Outs, Core, Fragment;
    FragmentsPassable(m);
    FragmentsAnnounce(m);
    var t := Low(Total(m));
    SerialBatches(id, OnWire(m), m, t);
    if t != 0 {
      AtLeastTwo(Total(m), t);
    }
  }

  lemma GotsPush(ms: seq<Message>, x: Message)
    ensures Gots(ms + [x]) == Gots(ms) + [Got(x)]
  {
  }

  lemma {:induction false} GotsLegal(id: byte, ms: seq<Message>)
    ensures Legal(id, Gots(ms)) && NoExpiry(Gots(ms)) && Msgs(Gots(ms)) == ms
  {
    if ms != [] {
      var front, x := ms[..|ms| - 1], ms[|ms| - 1];
      GotsLegal(id, front);
      assert ms == front + [x];
      GotsPush(front, x);
      InputsPush(id, Gots(front), Got(x));
    }
  }

  lemma LoneInput(id: byte, m: Message, x: Message)
    requires m.receiver == id || m.receiver == BROADCAST
    requires x == Escaped(m) && !IsLong(m) && !Transferable(m)
    ensures Outs(id, Gots([x])) != [x]
  {
    GotsPush([], x);
    InputsPush(id, [], Got(x));
    assert [] + [x] == [x] && Gots([]) == [];
    if x.IsFragment() {
      LoneAssembly(x, x.data[1]);
    }
  }

  lemma {:induction false} LoneAssembly(x: Message, k: nat)
    requires x.IsFragment()
    ensures |AssembleLast([x], x.data[1], k, x)| <= |x.data| - 3
    ensures k <= x.data[2] ==> AssembleLast([x], x.data[1], k, x) == []
  {
    if k != 0 {
      LoneAssembly(x, k - 1);
      assert [x][..0] == [];
      assert CollectLast([], x.data[1], k - 1, x) == [];
    }
  }

  /** Fragments of one pair that all announce t put out one message for every t of them, or none if t is 0. */
  lemma {:induction false} SerialBatches(id: byte, ms: seq<Message>, m: Message, t: byte)
    requires m.receiver == id || m.receiver == BROADCAST
    requires forall x :: x in ms ==> x.IsFragment() && x.SamePair(m) && x.data[1] == t
    ensures t == 0 ==> CoreState(id, Gots(ms)) == IDLE && Outs(id, Gots(ms)) == []
    ensures t != 0 ==>
              && |Outs(id, Gots(ms))| == |ms| / t
              && |CoreState(id, Gots(ms)).cache| == |ms| % t
              && CoreState(id, Gots(ms)).expected == if CoreState(id, Gots(ms)).cache == [] then -1 else t
  {
    hide Advance, PutOut, Core, CoreState, Outs;
    NoInputs(id);
    if ms == [] {
      if t != 0 {
        SmallQuotient(0, t);
      }
    } else {
      var front, x := ms[..|ms| - 1], ms[|ms| - 1];
      assert ms == front + [x];
      SerialBatches(id, front, m, t);
      GotsPush(front, x);
      InputsPush(id, Gots(front), Got(x));
      SerialBatchStep(id, CoreState(id, Gots(front)), x, t);
      if t != 0 {
        QuotientStep(|front|, t);
      }
    }
  }

  /** How many fragments are collected is what the first of them announces, whatever the others do. */
  lemma {:induction false} SerialFirstAnnounces(id: byte, m: Message, fs: seq<Message>)
    requires m.receiver == id || m.receiver == BROADCAST
    requires fs != [] && fs[0].IsFragment() && forall x :: x in fs ==> x.IsFragment() && x.SamePair(m)
    requires |fs| <= fs[0].data[1]
    ensures var t := fs[0].data[1];
            if |fs| < t then CoreState(id, Gots(fs)) == Reassembly(fs, t) && Outs(id, Gots(fs)) == []
            else CoreState(id, Gots(fs)) == IDLE && Outs(id, Gots(fs)) == [Message(m.sender, m.receiver, AssembleLast(fs, t, t, m))]
  {
    hide Advance, PutOut, Core, CoreState, Outs, AssembleLast, Legal, Msgs;
    NoInputs(id);
    var front, x := fs[..|fs| - 1], fs[|fs| - 1];
    assert fs == front + [x];
    GotsPush(front, x);
    InputsPush(id, Gots(front), Got(x));
    assert x in fs && (front != [] ==> front[0] == fs[0]);
    if front == [] {
      assert Gots(front) == [];
      AnnouncedInput(id, IDLE, m, fs[0].data[1], x);
    } else {
      SerialFirstAnnounces(id, m, front);
      AnnouncedInput(id, CoreState(id, Gots(front)), m, fs[0].data[1], x);
    }
  }

  lemma AnnouncedInput(id: byte, st: Reassembly, m: Message, t: byte, x: Message)
    requires (m.receiver == id || m.receiver == BROADCAST) && x.IsFragment() && x.SamePair(m) && |st.cache| < t
    requires if st.cache == [] then st.expected == -1 && x.data[1] == t else st.expected == t
    ensures var next, out, all := Advance(id, st, Got(x)), PutOut(id, st, Got(x)), st.cache + [x];
            if |all| < t then next == Reassembly(all, t) && out == []
            else next == IDLE && out == [Message(m.sender, m.receiver, AssembleLast(all, t, t, m))]
  {
    hide AssembleLast;
    AssembledForPair(st.cache + [x], t, t, m, x);
  }

  lemma SerialBatchStep(id: byte, st: Reassembly, x: Message, t: byte)
    requires Collected(id, x) && x.data[1] == t
    requires if t == 0 then st == IDLE else |st.cache| < t && st.expected == if st.cache == [] then -1 else t
    ensures var next, out := Advance(id, st, Got(x)), PutOut(id, st, Got(x));
            if t == 0 then next == IDLE && out == []
            else if |st.cache| + 1 == t then next == IDLE && |out| == 1
            else next == Reassembly(st.cache + [x], t) && out == []
  {
    hide AssembleLast;
  }

  // ---------- the handler between two moments ----------

  /**
   Why a frame was written: it was queued, acknowledges a message, answers a resend request,
   retries a message, or asks a device to send again what got lost.
   */
  datatype Kind =
    Queued | Answer(to: Message) | Resend(request: Message, last: Message) | Retry(of: Message) | Ask(device: byte)

  datatype Wired = Wired(msg: Message, kind: Kind)

  /** Some messages, written for one reason. */
  function WiredAll(ms: seq<Message>, kind: Kind): (log: seq<Wired>)
    ensures |log| == |ms| && forall i :: 0 <= i < |log| ==> log[i] == Wired(ms[i], kind)
  {
    seq(|ms|, i requires 0 <= i < |ms| => Wired(ms[i], kind))
  }

  /** What readAIData acknowledges. */
  predicate Wants(id: byte, x: Message) {
    x.receiver == id && |x.data| > 0 && x.data[0] != ACK
  }

  function Acknowledgement(x: Message): Message {
    Message(x.receiver, x.sender, [ACK])
  }

  function ResendRequest(id: byte, device: byte): Message {
    Message(id, device, [RESEND])
  }

  /** What an unanswered message is written as the next time. */
  function Again(m: Message): Message {
    if |m.data| == 2 && m.data[0] != 0xA1 then m.(data := m.data + [0]) else m
  }

  /** Every frame other than a queued one has a proper reason and is what that reason calls for. */
  predicate Justified(id: byte, w: Wired) {
    match w.kind
    case Queued => true
    case Answer(x) => Wants(id, x) && w.msg == Acknowledgement(x)
    case Resend(r, m) =>
      r.StartsWith(RESEND) && r.receiver == id && For(m, r.receiver, r.sender) && w.msg in EscapedAll(Outgoing(m))
    case Retry(m) => w.msg == Escaped(Again(m))
    case Ask(d) => w.msg == ResendRequest(id, d)
  }

  /** A message that may be written for this reason. */
  predicate Fits(id: byte, m: Message, kind: Kind) {
    && (kind.Answer? ==> !IsLong(m))
    && forall x :: x in EscapedAll(Outgoing(m)) ==> Justified(id, Wired(x, kind))
  }

  lemma FitsParts(id: byte, m: Message, kind: Kind, i: nat)
    requires Fits(id, m, kind) && i < |Outgoing(m)| && !IsLong(Outgoing(m)[i])
    ensures Fits(id, Outgoing(m)[i], kind) && Justified(id, Wired(Escaped(Outgoing(m)[i]), kind))
  {
    hide Justified, Escaped, Fragments;
    var x := Outgoing(m)[i];
    assert EscapedAll(Outgoing(m))[i] == Escaped(x);
    assert EscapedAll(Outgoing(x)) == [Escaped(x)];
  }

  lemma FitsAnswer(id: byte, x: Message)
    requires Wants(id, x)
    ensures Fits(id, Acknowledgement(x), Answer(x))
  {
  }

  lemma FitsResend(id: byte, r: Message, m: Message)
    requires r.StartsWith(RESEND) && r.receiver == id && For(m, r.receiver, r.sender)
    ensures Fits(id, m, Resend(r, m))
  {
    hide Outgoing;
  }

  lemma FitsAsk(id: byte, device: byte)
    ensures Fits(id, ResendRequest(id, device), Ask(device)) && !IsLong(ResendRequest(id, device))
  {
  }

  lemma FitsRetry(id: byte, m: Message)
    requires !IsLong(m)
    ensures Fits(id, Again(m), Retry(m))
  {
    assert Outgoing(Again(m)) == [Again(m)];
  }

  /** The messages acknowledged. */
  function AnsweredOf(log: seq<Wired>): multiset<Message> {
    if log == [] then multiset{}
    else
      var kind := log[|log| - 1].kind;
      AnsweredOf(log[..|log| - 1]) + if kind.Answer? then multiset{kind.to} else multiset{}
  }

  /** The messages handled that had to be acknowledged. */
  function WantedOf(id: byte, inputs: seq<Input>): multiset<Message> {
    if inputs == [] then multiset{} else WantedOf(id, inputs[..|inputs| - 1]) + WantedBy(id, inputs[|inputs| - 1])
  }

  function WantedBy(id: byte, i: Input): multiset<Message> {
    if i.Got? && Wants(id, i.msg) then multiset{i.msg} else multiset{}
  }

  lemma WantedPush(id: byte, inputs: seq<Input>, i: Input)
    ensures WantedOf(id, inputs + [i]) == WantedOf(id, inputs) + WantedBy(id, i)
  {
    assert (inputs + [i])[..|inputs|] == inputs;
  }

  function CountOf(log: seq<Wired>, kind: Kind): nat {
    if log == [] then 0 else CountOf(log[..|log| - 1], kind) + if log[|log| - 1].kind == kind then 1 else 0
  }

  lemma {:induction false} CountGrows(a: seq<Wired>, b: seq<Wired>, kind: Kind)
    requires a <= b
    ensures CountOf(a, kind) <= CountOf(b, kind)
  {
    if a != b {
      assert a <= b[..|b| - 1];
      CountGrows(a, b[..|b| - 1], kind);
    } else {
      assert a == b;
    }
  }

  /** Between two moments these messages have been written for this reason, in this order, whatever else was. */
  predicate Written(a: seq<Wired>, b: seq<Wired>, ms: seq<Message>, kind: Kind) {
    a <= b && Within(WiredAll(ms, kind), b[|a|..])
  }

  lemma WrittenNone(a: seq<Wired>, kind: Kind)
    ensures Written(a, a, [], kind)
  {
    assert WiredAll([], kind) == [];
  }

  lemma WrittenOne(a: seq<Wired>, x: Message, kind: Kind)
    ensures Written(a, a + [Wired(x, kind)], [x], kind)
  {
    assert WiredAll([x], kind) == [] + [Wired(x, kind)] == (a + [Wired(x, kind)])[|a|..];
    WithinPush([], [], Wired(x, kind));
  }

  lemma WrittenThen(a: seq<Wired>, b: seq<Wired>, c: seq<Wired>, ms: seq<Message>, ns: seq<Message>, kind: Kind)
    requires Written(a, b, ms, kind) && Written(b, c, ns, kind)
    ensures Written(a, c, ms + ns, kind)
  {
    hide Within;
    WithinConcat(WiredAll(ms, kind), b[|a|..], WiredAll(ns, kind), c[|b|..]);
    assert c[|a|..] == b[|a|..] + c[|b|..];
    assert WiredAll(ms + ns, kind) == WiredAll(ms, kind) + WiredAll(ns, kind);
  }

  /** Anything may be written before and after. */
  lemma WrittenAmid(a: seq<Wired>, b: seq<Wired>, c: seq<Wired>, d: seq<Wired>, ms: seq<Message>, kind: Kind)
    requires a <= b && Written(b, c, ms, kind) && c <= d
    ensures Written(a, d, ms, kind)
  {
    hide Within;
    NothingWithin(b[|a|..]);
    WithinConcat([], b[|a|..], WiredAll(ms, kind), c[|b|..]);
    WithinGrows(WiredAll(ms, kind), c[|a|..], d[|c|..]) by {
      assert b[|a|..] + c[|b|..] == c[|a|..] && [] + WiredAll(ms, kind) == WiredAll(ms, kind);
    }
    assert d[|a|..] == c[|a|..] + d[|c|..];
  }

  lemma WrittenSince(a: seq<Wired>, b: seq<Wired>, c: seq<Wired>, ms: seq<Message>, kind: Kind)
    requires a <= b && Written(b, c, ms, kind)
    ensures Written(a, c, ms, kind)
  {
    hide Within;
    WrittenAmid(a, b, c, c, ms, kind);
  }

  lemma NothingWithin<T>(b: seq<T>)
    ensures Within([], b)
  {
  }

  lemma WrittenCount(a: seq<Wired>, b: seq<Wired>, ms: seq<Message>, kind: Kind)
    requires Written(a, b, ms, kind)
    ensures CountOf(b, kind) >= CountOf(a, kind) + |ms|
  {
    hide Within, CountOf;
    CountConcat(a, b[|a|..], kind);
    assert b == a + b[|a|..];
    CountWithin(ms, b[|a|..], kind);
  }

  lemma {:induction false} CountConcat(a: seq<Wired>, b: seq<Wired>, kind: Kind)
    ensures CountOf(a + b, kind) == CountOf(a, kind) + CountOf(b, kind)
  {
    if b == [] {
      assert a + b == a;
    } else {
      assert (a + b)[..|a + b| - 1] == a + b[..|b| - 1];
      CountConcat(a, b[..|b| - 1], kind);
    }
  }

  lemma {:induction false} CountWithin(ms: seq<Message>, log: seq<Wired>, kind: Kind)
    requires Within(WiredAll(ms, kind), log)
    ensures CountOf(log, kind) >= |ms|
    decreases |log|
  {
    if ms != [] {
      var all, front := WiredAll(ms, kind), log[..|log| - 1];
      if all[|all| - 1] == log[|log| - 1] && Within(all[..|all| - 1], front) {
        assert all[..|all| - 1] == WiredAll(ms[..|ms| - 1], kind);
        CountWithin(ms[..|ms| - 1], front, kind);
      } else {
        CountWithin(ms, front, kind);
      }
    }
  }

  /** A message has been written again n times or more. */
  predicate Repeated(a: seq<Wired>, b: seq<Wired>, x: Message, n: nat) {
    CountOf(b, Retry(x)) >= CountOf(a, Retry(x)) + n
  }

  lemma RepeatedSince(a: seq<Wired>, b: seq<Wired>, c: seq<Wired>, x: Message, n: nat)
    requires a <= b
    ensures Repeated(b, c, x, n) ==> Repeated(a, c, x, n)
  {
    CountGrows(a, b, Retry(x));
  }

  function WiredMsgs(log: seq<Wired>): seq<Message> {
    if log == [] then [] else WiredMsgs(log[..|log| - 1]) + [log[|log| - 1].msg]
  }

  /** The queued messages among the frames written. */
  function QueuedOf(log: seq<Wired>): seq<Message> {
    if log == [] then []
    else QueuedOf(log[..|log| - 1]) + (if log[|log| - 1].kind.Queued? then [log[|log| - 1].msg] else [])
  }

  lemma LogPush(log: seq<Wired>, w: Wired)
    ensures WiredMsgs(log + [w]) == WiredMsgs(log) + [w.msg]
    ensures QueuedOf(log + [w]) == QueuedOf(log) + (if w.kind.Queued? then [w.msg] else [])
    ensures AnsweredOf(log + [w]) == AnsweredOf(log) + if w.kind.Answer? then multiset{w.kind.to} else multiset{}
    ensures forall kind :: CountOf(log + [w], kind) == CountOf(log, kind) + if w.kind == kind then 1 else 0
  {
    assert (log + [w])[..|log|] == log;
  }

  lemma {:induction false} WirePush(ms: seq<Message>, m: Message)
    ensures Wire(ms + [m]) == Wire(ms) + Frame(m)
  {
    if ms != [] {
      WirePush(ms[1..], m);
      assert (ms + [m])[1..] == ms[1..] + [m];
    } else {
      assert (ms + [m])[1..] == [];
    }
  }

  /** The handler's fields, and the ghost record of what it has done. */
  datatype Snapshot = Snapshot(
    port: seq<byte>, written: seq<byte>, st: Reassembly, rx: seq<Message>, recent: seq<Message>,
    log: seq<Wired>, inputs: seq<Input>, deframed: seq<Message>, steps: nat, heard: seq<Heard>,
    sends: seq<Send>)

  // ---------- what is remembered for resending ----------

  /** Something that may have to be sent again later; fragments are not, the whole message is. */
  predicate Remembered(m: Message) {
    m.receiver != BROADCAST && |m.data| >= 1 && m.data[0] != ACK && (m.data[0] != MULTI || IsLong(m))
  }

  /** The list of remembered messages after one message has been given to the writer. */
  function Recalled(recent: seq<Message>, m: Message): seq<Message> {
    if Remembered(m) then Remember(recent, m) else recent
  }

  function RecalledAll(recent: seq<Message>, ms: seq<Message>): seq<Message> {
    if ms == [] then recent else Recalled(RecalledAll(recent, ms[..|ms| - 1]), ms[|ms| - 1])
  }

  /** Over any sequence of messages given to the writer the list answers for each pair with the last eligible one. */
  lemma {:induction false} RecalledIsLastSent(ms: seq<Message>, s: byte, r: byte)
    ensures OnePerPair(RecalledAll([], ms))
    ensures Lookup(RecalledAll([], ms), s, r) == LastSent(Filter(ms, Remembered), s, r)
  {
    hide Filter;
    FoldFiltered(ms);
    CacheIsLastSent(Filter(ms, Remembered), s, r);
  }

  /**
   The same written out: eligible is what is not broadcast, not empty, no acknowledgement, and no
   fragment unless it is too long to be one.
   */
  lemma {:induction false} RecalledLast(ms: seq<Message>, i: nat, s: byte, r: byte)
    requires i <= |ms|
    requires i < |ms| ==> ms[i].sender == s && ms[i].receiver == r && r != 0xFF && |ms[i].data| > 0 && ms[i].data[0] != 0x80
                          && (ms[i].data[0] != 0x91 || |ms[i].data| > 35)
    requires forall k :: 0 <= k < |ms| && (k > i || i == |ms|) && ms[k].sender == s && ms[k].receiver == r ==>
               r == 0xFF || |ms[k].data| == 0 || ms[k].data[0] == 0x80 || (ms[k].data[0] == 0x91 && |ms[k].data| <= 35)
    ensures Lookup(RecalledAll([], ms), s, r) == if i < |ms| then Some(ms[i]) else None
  {
    hide Lookup, Remember;
    if ms == [] {
      assert Lookup([], s, r) == None by { LookupAbsent([], s, r); }
    } else {
      var front, m := ms[..|ms| - 1], ms[|ms| - 1];
      RecalledIsLastSent(front, s, r);
      if Remembered(m) {
        RememberRefines(RecalledAll([], front), m, s, r);
      }
      if i != |ms| - 1 {
        RecalledLast(front, if i == |ms| then |front| else i, s, r);
      }
    }
  }

  lemma {:induction false} FoldFiltered(ms: seq<Message>)
    ensures RecalledAll([], ms) == RememberAll([], Filter(ms, Remembered))
  {
    hide Remember;
    if ms != [] {
      var front, m := ms[..|ms| - 1], ms[|ms| - 1];
      FoldFiltered(front);
      assert ms == front + [m];
      FilterPush(front, m, Remembered);
      RememberAllPush([], Filter(front, Remembered), m);
      assert Filter(front, Remembered) + [] == Filter(front, Remembered);
    }
  }

  lemma RememberAllPush(recent: seq<Message>, sends: seq<Message>, m: Message)
    ensures RememberAll(recent, sends + [m]) == Remember(RememberAll(recent, sends), m)
  {
    assert (sends + [m])[..|sends|] == sends;
  }

  /** An eligible message given to the writer when `at` inputs had been handled. */
  datatype Send = Send(msg: Message, at: nat)

  function SentMsgs(sends: seq<Send>): (ms: seq<Message>)
    ensures |ms| == |sends| && forall i :: 0 <= i < |ms| ==> ms[i] == sends[i].msg
  {
    seq(|sends|, i requires 0 <= i < |sends| => sends[i].msg)
  }

  /** A message is given to the writer. */
  function Recall(g: Snapshot, m: Message): Snapshot {
    if Remembered(m) then g.(recent := Remember(g.recent, m), sends := g.sends + [Send(m, |g.inputs|)]) else g
  }

  /** The list of remembered messages is what the eligible sends make of it. */
  predicate Recorded(recent: seq<Message>, sends: seq<Send>) {
    && recent == RememberAll([], SentMsgs(sends)) && OnePerPair(recent)
    && forall i :: 0 <= i < |sends| ==> Remembered(sends[i].msg)
  }

  lemma RecordedOn(g: Snapshot, m: Message)
    requires Recorded(g.recent, g.sends)
    ensures Recorded(Recall(g, m).recent, Recall(g, m).sends)
  {
    hide RememberAll, Remember, OnePerPair;
    if Remembered(m) {
      assert SentMsgs(g.sends + [Send(m, |g.inputs|)]) == SentMsgs(g.sends) + [m];
      RememberAllPush([], SentMsgs(g.sends), m);
      RememberRefines(g.recent, m, 0, 0);
    }
  }

  /** What one message given to the writer does to the answers, written out. */
  lemma RecalledExactly(g: Snapshot, m: Message, s: byte, r: byte)
    requires Recorded(g.recent, g.sends)
    ensures Lookup(Recall(g, m).recent, s, r) ==
            if s == m.sender && r == m.receiver && r != 0xFF && |m.data| > 0 && m.data[0] != 0x80
               && (m.data[0] != 0x91 || |m.data| > 35)
            then Some(m) else Lookup(g.recent, s, r)
  {
    hide Lookup, Remember;
    if Remembered(m) {
      RememberRefines(g.recent, m, s, r);
    }
  }

  /** The i-th thing that happened to the reassembler was that it gave up what it had begun to collect from r. */
  predicate ExpiredAt(id: byte, inputs: seq<Input>, i: nat, r: byte) {
    && i < |inputs| && inputs[i].Expired?
    && CoreState(id, inputs[..i]).cache != [] && CoreState(id, inputs[..i]).cache[0].sender == r
  }

  /** What decides how resend requests are answered. */
  datatype Memory = Memory(inputs: seq<Input>, recent: seq<Message>, sends: seq<Send>)

  function MemoryOf(g: Snapshot): Memory {
    Memory(g.inputs, g.recent, g.sends)
  }

  /** What a resend request is answered with: the last eligible message given to the writer for its pair. */
  lemma AnswerIsLastSent(g: Memory, s: byte, r: byte)
    requires Recorded(g.recent, g.sends)
    ensures Lookup(g.recent, s, r) == LastSent(SentMsgs(g.sends), s, r)
  {
    CacheIsLastSent(SentMsgs(g.sends), s, r);
  }

  predicate ExpiredSince(id: byte, a: Memory, b: Memory, r: byte) {
    exists i :: |a.inputs| <= i < |b.inputs| && ExpiredAt(id, b.inputs, i, r)
  }

  predicate SentAt(sends: seq<Send>, from: nat, send: Send) {
    exists j :: from <= j < |sends| && sends[j] == send
  }

  /** Each collection given up since a led to a resend request at once. */
  ghost predicate Requested(id: byte, a: Memory, b: Memory) {
    forall i: nat, r: byte :: |a.inputs| <= i && ExpiredAt(id, b.inputs, i, r) && r != BROADCAST ==>
      SentAt(b.sends, |a.sends|, Send(ResendRequest(id, r), i + 1))
  }

  /**
   From a to b the answer for a pair has stayed, up to the zero of a retry; or a collection from
   the other device was given up and the request to it has become the answer.
   */
  ghost predicate AnswerKept(id: byte, a: Memory, b: Memory, s: byte, r: byte) {
    var x, y := Lookup(a.recent, s, r), Lookup(b.recent, s, r);
    || (x == None && y == None) || (x.Some? && y.Some? && PadOf(x.value, y.value))
    || (s == id && y == Some(ResendRequest(id, r)) && ExpiredSince(id, a, b, r))
  }

  ghost predicate Kept(id: byte, a: Memory, b: Memory) {
    && a.inputs <= b.inputs && a.sends <= b.sends && Requested(id, a, b)
    && forall s: byte, r: byte :: AnswerKept(id, a, b, s, r)
  }

  lemma KeptSelf(id: byte, a: Memory)
    ensures Kept(id, a, a)
  {
    forall s: byte, r: byte
      ensures AnswerKept(id, a, a, s, r)
    {
    }
  }

  lemma ExpiredStays(id: byte, inputs: seq<Input>, more: seq<Input>, i: nat, r: byte)
    requires inputs <= more && i < |inputs|
    ensures ExpiredAt(id, inputs, i, r) <==> ExpiredAt(id, more, i, r)
  {
    assert inputs[..i] == more[..i];
  }

  lemma KeptOn(id: byte, a: Memory, b: Memory, c: Memory)
    requires Kept(id, a, b) && Kept(id, b, c)
    ensures Kept(id, a, c)
  {
    hide ExpiredAt, Lookup;
    forall s: byte, r: byte
      ensures AnswerKept(id, a, c, s, r)
    {
      assert AnswerKept(id, a, b, s, r) && AnswerKept(id, b, c, s, r);
      ExpiredLater(id, a, b, c, r);
    }
    RequestedOn(id, a, b, c);
  }

  lemma ExpiredLater(id: byte, a: Memory, b: Memory, c: Memory, r: byte)
    requires a.inputs <= b.inputs <= c.inputs
    ensures ExpiredSince(id, a, b, r) || ExpiredSince(id, b, c, r) ==> ExpiredSince(id, a, c, r)
  {
    hide ExpiredAt;
    if ExpiredSince(id, a, b, r) {
      var i :| |a.inputs| <= i < |b.inputs| && ExpiredAt(id, b.inputs, i, r);
      ExpiredStays(id, b.inputs, c.inputs, i, r);
    }
  }

  lemma RequestedOn(id: byte, a: Memory, b: Memory, c: Memory)
    requires a.inputs <= b.inputs <= c.inputs && a.sends <= b.sends <= c.sends
    requires Requested(id, a, b) && Requested(id, b, c)
    ensures Requested(id, a, c)
  {
    hide ExpiredAt;
    forall i: nat, r: byte | |a.inputs| <= i && ExpiredAt(id, c.inputs, i, r) && r != BROADCAST
      ensures SentAt(c.sends, |a.sends|, Send(ResendRequest(id, r), i + 1))
    {
      if i < |b.inputs| {
        ExpiredStays(id, b.inputs, c.inputs, i, r);
        assert SentAt(b.sends, |a.sends|, Send(ResendRequest(id, r), i + 1));
        var j :| |a.sends| <= j < |b.sends| && b.sends[j] == Send(ResendRequest(id, r), i + 1);
        assert c.sends[j] == b.sends[j];
      } else {
        var j :| |b.sends| <= j < |c.sends| && c.sends[j] == Send(ResendRequest(id, r), i + 1);
      }
    }
  }

  /** Nothing has happened to the reassembler, and no answer has changed but for a zero. */
  lemma KeptQuietly(id: byte, a: Memory, b: Memory)
    requires b.inputs == a.inputs && a.sends <= b.sends && KeepsAnswers(a.recent, b.recent)
    ensures Kept(id, a, b)
  {
    hide CoreState;
    forall s: byte, r: byte
      ensures AnswerKept(id, a, b, s, r)
    {
      var x, y := Lookup(a.recent, s, r), Lookup(b.recent, s, r);
      assert (x == None && y == None) || (x.Some? && y.Some? && PadOf(x.value, y.value));
    }
  }

  /** A message is handled, or ignored. */
  lemma KeptHandles(id: byte, a: Memory, b: Memory, i: Input)
    requires Kept(id, a, b) && !i.Expired?
    ensures Kept(id, a, b.(inputs := b.inputs + [i]))
  {
    hide Lookup;
    var c := b.(inputs := b.inputs + [i]);
    forall s: byte, r: byte
      ensures AnswerKept(id, b, c, s, r)
    {
    }
    assert Requested(id, b, c);
    KeptOn(id, a, b, c);
  }

  /** A remembered message is given to the writer again. */
  lemma ResentKept(id: byte, g: Snapshot, m: Message)
    requires Recorded(g.recent, g.sends) && Lookup(g.recent, m.sender, m.receiver) == Some(m)
    ensures Kept(id, MemoryOf(g), MemoryOf(Recall(g, m)))
  {
    KeepsSelf(g.recent);
    KeepsResent(g.recent, m, m);
    KeptQuietly(id, MemoryOf(g), MemoryOf(Recall(g, m)));
  }

  /** A resend request for m's pair is answered with m, or m with the zero of a retry. */
  predicate Answers(recent: seq<Message>, m: Message) {
    Lookup(recent, m.sender, m.receiver).Some? && PadOf(m, Lookup(recent, m.sender, m.receiver).value)
  }

  lemma AnswersRecalled(g: Snapshot, m: Message)
    requires Recorded(g.recent, g.sends) && Remembered(m)
    ensures Answers(Recall(g, m).recent, m)
  {
    RememberRefines(g.recent, m, m.sender, m.receiver);
  }

  /** A message that was the answer at first is given to the writer again, padded or not, whatever the answer has become. */
  lemma RetryKept(id: byte, start: Memory, g: Snapshot, m: Message)
    requires Kept(id, start, MemoryOf(g)) && Recorded(g.recent, g.sends) && (Remembered(m) ==> Answers(start.recent, m)) && !IsLong(m)
    ensures Kept(id, start, MemoryOf(Recall(g, Again(m))))
  {
    hide ExpiredAt, Lookup, Remember;
    var h, again := MemoryOf(Recall(g, Again(m))), Again(m);
    forall s: byte, r: byte
      ensures AnswerKept(id, start, h, s, r)
    {
      assert AnswerKept(id, start, MemoryOf(g), s, r);
      if Remembered(again) {
        RememberRefines(g.recent, again, s, r);
      }
    }
    forall i: nat, r: byte | |start.inputs| <= i && ExpiredAt(id, h.inputs, i, r) && r != BROADCAST
      ensures SentAt(h.sends, |start.sends|, Send(ResendRequest(id, r), i + 1))
    {
      var j :| |start.sends| <= j < |g.sends| && g.sends[j] == Send(ResendRequest(id, r), i + 1);
      assert h.sends[j] == g.sends[j];
    }
  }

  /** A collection from device r is given up, and the request to r given to the writer. */
  lemma RequestKept(id: byte, a: Snapshot, r: byte)
    requires Recorded(a.recent, a.sends) && a.st == CoreState(id, a.inputs) && a.st.cache != [] && a.st.cache[0].sender == r
    ensures var b := a.(st := IDLE, inputs := a.inputs + [Expired]);
            && (r != BROADCAST ==> Kept(id, MemoryOf(a), MemoryOf(Recall(b, ResendRequest(id, r))))
                                   && Lookup(Recall(b, ResendRequest(id, r)).recent, id, r) == Some(ResendRequest(id, r)))
            && (r == BROADCAST ==> Kept(id, MemoryOf(a), MemoryOf(b)))
  {
    hide CoreState, Lookup, Remember;
    var b := a.(st := IDLE, inputs := a.inputs + [Expired]);
    var request := ResendRequest(id, r);
    var c := MemoryOf(if r == BROADCAST then b else Recall(b, request));
    assert c.inputs[..|a.inputs|] == a.inputs;
    assert ExpiredAt(id, c.inputs, |a.inputs|, r);
    forall s: byte, d: byte
      ensures AnswerKept(id, MemoryOf(a), c, s, d)
    {
      if r != BROADCAST {
        RememberRefines(a.recent, request, s, d);
      }
    }
    forall i: nat, d: byte | |a.inputs| <= i && ExpiredAt(id, c.inputs, i, d) && d != BROADCAST
      ensures SentAt(c.sends, |a.sends|, Send(ResendRequest(id, d), i + 1))
    {
      assert c.sends[|a.sends|] == Send(request, |a.inputs| + 1);
    }
    if r != BROADCAST {
      RememberRefines(a.recent, request, id, r);
    }
  }

  /** Once the request is the answer it stays. */
  lemma RequestStays(id: byte, a: Memory, b: Memory, r: byte)
    requires Kept(id, a, b) && Lookup(a.recent, id, r) == Some(ResendRequest(id, r))
    ensures Lookup(b.recent, id, r) == Some(ResendRequest(id, r))
  {
    hide ExpiredAt, Lookup;
    assert AnswerKept(id, a, b, id, r);
  }

  /**
   Exactly when an answer changes by itself: that for (s, r), only if this device is s and has given
   up a collection from r since; and then, until something eligible for that pair is written, it
   is the request.
   */
  lemma ExpiredAnswered(id: byte, a: Memory, g: Memory, i: nat, r: byte) returns (j: nat)
    requires Requested(id, a, g) && Recorded(g.recent, g.sends)
    requires |a.inputs| <= i && ExpiredAt(id, g.inputs, i, r) && r != BROADCAST
    ensures |a.sends| <= j < |g.sends| && g.sends[j] == Send(ResendRequest(id, r), i + 1)
    ensures (forall k :: j < k < |g.sends| ==> !For(g.sends[k].msg, id, r)) ==>
              Lookup(g.recent, id, r) == Some(ResendRequest(id, r))
  {
    hide ExpiredAt, Lookup, RememberAll;
    assert SentAt(g.sends, |a.sends|, Send(ResendRequest(id, r), i + 1));
    j :| |a.sends| <= j < |g.sends| && g.sends[j] == Send(ResendRequest(id, r), i + 1);
    AnswerIsLastSent(g, id, r);
    if forall k :: j < k < |g.sends| ==> !For(g.sends[k].msg, id, r) {
      LastOf(SentMsgs(g.sends), j, id, r);
    }
  }

  lemma {:induction false} LastOf(ms: seq<Message>, j: nat, s: byte, r: byte)
    requires j < |ms| && For(ms[j], s, r) && forall k :: j < k < |ms| ==> !For(ms[k], s, r)
    ensures LastSent(ms, s, r) == Some(ms[j])
  {
    if j < |ms| - 1 {
      LastOf(ms[..|ms| - 1], j, s, r);
    }
  }

  lemma AnswerChanged(id: byte, a: Memory, b: Memory, s: byte, r: byte)
    requires Kept(id, a, b)
    ensures var x, y := Lookup(a.recent, s, r), Lookup(b.recent, s, r);
            && (x.Some? ==> y.Some?)
            && (x != y && !(x.Some? && y.Some? && PadOf(x.value, y.value)) ==>
                  s == id && y == Some(ResendRequest(id, r)) && ExpiredSince(id, a, b, r))
  {
    assert AnswerKept(id, a, b, s, r);
  }

  // ---------- what is heard while writing ----------

  /**
   A message returned by a read that was made while writing, or while waiting for an answer,
   on behalf of the device `writing`; `acks` says whether acknowledgements were kept as well.
   */
  datatype Heard = Heard(msg: Message, writing: byte, acks: bool)

  /** Whether such a message is cached for later; any other is dropped. */
  predicate Keeps(h: Heard) {
    && h.msg.sender != h.writing && (h.msg.receiver == h.writing || h.msg.receiver == BROADCAST)
    && ((|h.msg.data| >= 1 && h.msg.data[0] != ACK) || h.acks)
  }

  function KeptOf(heard: seq<Heard>): seq<Message> {
    if heard == [] then []
    else KeptOf(heard[..|heard| - 1]) + if Keeps(heard[|heard| - 1]) then [heard[|heard| - 1].msg] else []
  }

  function DroppedOf(heard: seq<Heard>): seq<Message> {
    if heard == [] then []
    else DroppedOf(heard[..|heard| - 1]) + if Keeps(heard[|heard| - 1]) then [] else [heard[|heard| - 1].msg]
  }

  function Voices(heard: seq<Heard>): seq<Message> {
    if heard == [] then [] else Voices(heard[..|heard| - 1]) + [heard[|heard| - 1].msg]
  }

  lemma HeardPush(heard: seq<Heard>, h: Heard)
    ensures KeptOf(heard + [h]) == if Keeps(h) then KeptOf(heard) + [h.msg] else KeptOf(heard)
    ensures DroppedOf(heard + [h]) == if Keeps(h) then DroppedOf(heard) else DroppedOf(heard) + [h.msg]
    ensures Voices(heard + [h]) == Voices(heard) + [h.msg]
  {
    assert (heard + [h])[..|heard|] == heard;
  }

  lemma {:induction false} HeardConcat(a: seq<Heard>, b: seq<Heard>)
    ensures KeptOf(a + b) == KeptOf(a) + KeptOf(b) && Voices(a + b) == Voices(a) + Voices(b)
  {
    hide KeptOf, Voices, DroppedOf, Keeps;
    if b == [] {
      assert a + b == a;
      NothingHeard();
    } else {
      var front, h := b[..|b| - 1], b[|b| - 1];
      HeardConcat(a, front);
      assert b == front + [h] && a + b == a + front + [h];
      HeardPush(front, h);
      HeardPush(a + front, h);
    }
  }

  lemma NothingHeard()
    ensures KeptOf([]) == [] && Voices([]) == [] && DroppedOf([]) == []
  {
  }

  /** Everything heard is either kept or dropped. */
  lemma {:induction false} KeptOrDropped(heard: seq<Heard>)
    ensures multiset(Voices(heard)) == multiset(KeptOf(heard)) + multiset(DroppedOf(heard)) && |Voices(heard)| == |heard|
  {
    if heard != [] {
      KeptOrDropped(heard[..|heard| - 1]);
    }
  }

  /** How often x was heard while writing for the device it is addressed to, or as a broadcast, and not as an acknowledgement unless these are kept. */
  function HeardFor(heard: seq<Heard>, x: Message): nat {
    if heard == [] then 0
    else
      var h := heard[|heard| - 1];
      HeardFor(heard[..|heard| - 1], x)
      + if && h.msg == x && x.sender != h.writing && (x.receiver == h.writing || x.receiver == 0xFF)
           && (h.acks || (|x.data| > 0 && x.data[0] != 0x80))
        then 1 else 0
  }

  /** Just that is kept of it, in order. */
  lemma KeptExactly(heard: seq<Heard>, x: Message)
    ensures multiset(KeptOf(heard))[x] == HeardFor(heard, x) && Within(KeptOf(heard), Voices(heard))
  {
    KeptCount(heard, x);
    KeptInOrder(heard);
  }

  lemma {:induction false} KeptCount(heard: seq<Heard>, x: Message)
    ensures multiset(KeptOf(heard))[x] == HeardFor(heard, x)
  {
    if heard != [] {
      KeptCount(heard[..|heard| - 1], x);
    }
  }

  lemma {:induction false} KeptInOrder(heard: seq<Heard>)
    ensures Within(KeptOf(heard), Voices(heard))
  {
    hide Within, KeptOf, Voices, DroppedOf, Keeps;
    if heard == [] {
      NothingHeard();
      NothingWithin<Message>([]);
    } else {
      var front, h := heard[..|heard| - 1], heard[|heard| - 1];
      KeptInOrder(front);
      WithinPush(KeptOf(front), Voices(front), h.msg);
      assert heard == front + [h];
      HeardPush(front, h);
    }
  }

  /** What reads that have not returned yet have taken off the port, and what of it they have acknowledged. */
  datatype Flight = Flight(open: multiset<Message>, acked: multiset<Message>)

  const NONE := Flight(multiset{}, multiset{})

  function Landed(inflight: Flight, kind: Kind): Flight {
    if kind.Answer? then inflight.(acked := inflight.acked + multiset{kind.to}) else inflight
  }

  function Taken(inflight: Flight, got: multiset<Message>): Flight {
    inflight.(open := inflight.open + got)
  }

  /** A read still has x in hand, acknowledged if it has to be. */
  function InHand(id: byte, inflight: Flight, i: Input): Flight {
    if i.Expired? then inflight
    else Flight(inflight.open + multiset{i.msg}, inflight.acked + WantedBy(id, i))
  }

  /**
   Everything taken off the port has been handled or ignored once, or is in the hands of a
   read that has not returned yet; the reassembler is where that leads; what had to be
   acknowledged has been, once; and every frame ever written has its reason and passes the
   readers' length and echo tests.
   */
  predicate Good(id: byte, g: Snapshot, inflight: Flight) {
    && g.st == CoreState(id, g.inputs)
    && Legal(id, g.inputs)
    && multiset(Msgs(g.inputs)) + inflight.open == multiset(g.deframed)
    && AnsweredOf(g.log) == WantedOf(id, g.inputs) + inflight.acked
    && Recorded(g.recent, g.sends)
    && g.written == Wire(WiredMsgs(g.log))
    && forall w :: w in g.log ==> Passable(w.msg) && Justified(id, w)
  }

  const NOTHING: multiset<Message> := multiset{}

  function Result(ok: bool, msg: Message): multiset<Message> {
    if ok then multiset{msg} else NOTHING
  }

  /** What has been heard between a and b. */
  function News(a: Snapshot, b: Snapshot): seq<Heard> {
    if |a.heard| <= |b.heard| then b.heard[|a.heard|..] else []
  }

  predicate WritingFor(heard: seq<Heard>, id: byte, w: byte) {
    forall i :: 0 <= i < |heard| ==> heard[i].writing == id || heard[i].writing == w
  }

  /**
   From a to b, while this device wrote for itself or for w: everything that the reassembler has
   put out has been heard or returned (`taken`), and of what was heard just what is to be kept
   has been cached, in order.
   */
  predicate Listened(id: byte, w: byte, a: Snapshot, b: Snapshot, taken: multiset<Message>) {
    && a.heard <= b.heard && WritingFor(News(a, b), id, w)
    && b.rx == a.rx + KeptOf(News(a, b))
    && multiset(Outs(id, b.inputs)) == multiset(Outs(id, a.inputs)) + multiset(Voices(News(a, b))) + taken
  }

  /**
   b comes after a: some reads of the port later, with everything recorded in between. `gapless`
   says that 500 ms never pass between two fragments.
   */
  predicate Later(id: byte, gapless: bool, w: byte, a: Snapshot, b: Snapshot, taken: multiset<Message>) {
    && a.steps <= b.steps && a.deframed <= b.deframed && a.log <= b.log
    && ScanN(a.port, b.steps - a.steps) == Scan(b.port, b.deframed[|a.deframed|..])
    && |b.port| <= |a.port|
    && a.inputs <= b.inputs && (gapless ==> NoExpiry(b.inputs[|a.inputs|..]))
    && Listened(id, w, a, b, taken)
  }

  /** Nothing has been read in between; what is remembered for resending may have changed. */
  lemma LaterIdle(id: byte, gapless: bool, w: byte, a: Snapshot, b: Snapshot)
    requires b.port == a.port && b.steps == a.steps && b.deframed == a.deframed && b.log == a.log
    requires b.inputs == a.inputs && b.heard == a.heard && b.rx == a.rx
    ensures Later(id, gapless, w, a, b, NOTHING)
  {
    hide Outs, ScanN, Listened;
    ScanOnce(a.port);
    ListenedIdle(id, w, a, b);
    assert b.deframed[|a.deframed|..] == [] && b.inputs[|a.inputs|..] == [];
  }

  lemma LaterSelf(id: byte, gapless: bool, w: byte, a: Snapshot)
    ensures Later(id, gapless, w, a, a, NOTHING)
  {
    hide Later;
    LaterIdle(id, gapless, w, a, a);
  }

  /** Nothing put out and nothing heard. */
  lemma ListenedIdle(id: byte, w: byte, a: Snapshot, b: Snapshot)
    requires b.heard == a.heard && b.rx == a.rx && Outs(id, b.inputs) == Outs(id, a.inputs)
    ensures Listened(id, w, a, b, NOTHING)
  {
    hide Outs;
    NothingHeard();
    assert News(a, b) == [] && a.rx + [] == a.rx;
  }

  lemma NoExpiryConcat(a: seq<Input>, b: seq<Input>)
    ensures NoExpiry(a + b) <==> NoExpiry(a) && NoExpiry(b)
  {
    assert forall i :: i in a ==> i in a + b;
    assert forall i :: i in b ==> i in a + b;
  }

  lemma NewsConcat(a: Snapshot, b: Snapshot, c: Snapshot)
    requires a.heard <= b.heard <= c.heard
    ensures News(a, c) == News(a, b) + News(b, c)
  {
  }

  lemma WritingBoth(a: seq<Heard>, b: seq<Heard>, id: byte, w: byte, v: byte)
    requires WritingFor(a, id, w) && WritingFor(b, id, v) && (v == w || v == id)
    ensures WritingFor(a + b, id, w)
  {
  }

  lemma ListenedOn(id: byte, w: byte, v: byte, a: Snapshot, b: Snapshot, c: Snapshot, m: multiset<Message>, n: multiset<Message>)
    requires Listened(id, w, a, b, m) && Listened(id, v, b, c, n) && (v == w || v == id)
    ensures Listened(id, w, a, c, m + n)
  {
    hide Outs, KeptOf, Voices, News, WritingFor;
    NewsConcat(a, b, c);
    WritingBoth(News(a, b), News(b, c), id, w, v);
    HeardConcat(News(a, b), News(b, c));
    Associative(a.rx, KeptOf(News(a, b)), KeptOf(News(b, c)));
  }

  lemma LaterOn(id: byte, gapless: bool, w: byte, v: byte, a: Snapshot, b: Snapshot, c: Snapshot,
                m: multiset<Message>, n: multiset<Message>)
    requires Later(id, gapless, w, a, b, m) && Later(id, gapless, v, b, c, n) && (v == w || v == id)
    ensures Later(id, gapless, w, a, c, m + n)
  {
    hide ScanN, Outs, NoExpiry, Listened;
    ScanConcat(a.port, b.steps - a.steps, c.steps - b.steps);
    NoExpiryConcat(b.inputs[|a.inputs|..], c.inputs[|b.inputs|..]);
    assert c.deframed[|a.deframed|..] == b.deframed[|a.deframed|..] + c.deframed[|b.deframed|..];
    assert c.inputs[|a.inputs|..] == b.inputs[|a.inputs|..] + c.inputs[|b.inputs|..];
    ListenedOn(id, w, v, a, b, c, m, n);
  }

  lemma LaterThen(id: byte, gapless: bool, w: byte, v: byte, a: Snapshot, b: Snapshot, c: Snapshot, n: multiset<Message>)
    requires Later(id, gapless, w, a, b, NOTHING) && Later(id, gapless, v, b, c, n) && (v == w || v == id)
    ensures Later(id, gapless, w, a, c, n)
  {
    hide Later;
    LaterOn(id, gapless, w, v, a, b, c, NOTHING, n);
    assert NOTHING + n == n;
  }

  /** A message that a read returned while writing for h.writing. */
  lemma LaterHears(id: byte, gapless: bool, w: byte, a: Snapshot, b: Snapshot, h: Heard)
    requires Later(id, gapless, w, a, b, multiset{h.msg}) && (h.writing == id || h.writing == w)
    ensures Later(id, gapless, w, a,
                  b.(heard := b.heard + [h], rx := if Keeps(h) then b.rx + [h.msg] else b.rx), NOTHING)
  {
    hide ScanN, Outs, NoExpiry, Keeps, Listened;
    ListenedHears(id, w, a, b, h);
  }

  lemma ListenedHears(id: byte, w: byte, a: Snapshot, b: Snapshot, h: Heard)
    requires Listened(id, w, a, b, multiset{h.msg}) && (h.writing == id || h.writing == w)
    ensures Listened(id, w, a, b.(heard := b.heard + [h], rx := if Keeps(h) then b.rx + [h.msg] else b.rx), NOTHING)
  {
    hide Outs, Keeps, KeptOf, Voices, DroppedOf;
    var c := b.(heard := b.heard + [h], rx := if Keeps(h) then b.rx + [h.msg] else b.rx);
    var before := News(a, b);
    assert News(a, c) == before + [h];
    HeardPush(before, h);
    Associative(a.rx, KeptOf(before), [h.msg]);
    assert multiset(Voices(before) + [h.msg]) == multiset(Voices(before)) + multiset{h.msg};
  }

  /** Writing leaves the reading side alone. */
  lemma LaterWrites(id: byte, gapless: bool, w: byte, a: Snapshot, b: Snapshot, m: multiset<Message>, c: Snapshot)
    requires Later(id, gapless, w, a, b, m)
    requires c == b.(written := c.written, log := c.log, recent := c.recent, sends := c.sends) && b.log <= c.log
    ensures Later(id, gapless, w, a, c, m)
  {
    hide ScanN, Outs, NoExpiry, KeptOf, Voices;
    assert News(a, c) == News(a, b);
  }

  lemma WireOne(x: Message)
    ensures Wire([x]) == Frame(x)
  {
    assert [x][1..] == [] && Frame(x) + [] == Frame(x);
  }

  lemma {:induction false} WireConcat(a: seq<Message>, b: seq<Message>)
    ensures Wire(a + b) == Wire(a) + Wire(b)
  {
    hide Frame, Wire;
    WireUnfold(a);
    if a == [] {
      assert a + b == b;
    } else {
      WireConcat(a[1..], b);
      WireUnfold(a + b);
      assert (a + b)[1..] == a[1..] + b;
      Associative(Frame(a[0]), Wire(a[1..]), Wire(b));
    }
  }

  lemma {:induction false} LogConcat(a: seq<Wired>, b: seq<Wired>)
    ensures WiredMsgs(a + b) == WiredMsgs(a) + WiredMsgs(b) && QueuedOf(a + b) == QueuedOf(a) + QueuedOf(b)
  {
    hide WiredMsgs, QueuedOf, AnsweredOf, CountOf;
    if b == [] {
      assert a + b == a;
      EmptyLog();
    } else {
      var front, w := b[..|b| - 1], b[|b| - 1];
      LogConcat(a, front);
      assert b == front + [w] && a + b == a + front + [w];
      LogPush(front, w);
      LogPush(a + front, w);
    }
  }

  lemma EmptyLog()
    ensures WiredMsgs([]) == [] && QueuedOf([]) == []
  {
  }

  predicate AllQueued(log: seq<Wired>) {
    forall i :: 0 <= i < |log| ==> log[i].kind.Queued?
  }

  lemma {:induction false} QueuedIsAll(log: seq<Wired>)
    requires AllQueued(log)
    ensures QueuedOf(log) == WiredMsgs(log)
  {
    if log != [] {
      QueuedIsAll(log[..|log| - 1]);
    }
  }

  /** When nothing but queued frames has been written since a, the bytes are those of these frames. */
  lemma OnlyQueued(id: byte, a: Snapshot, b: Snapshot, i: Flight, j: Flight, ms: seq<Message>)
    requires Good(id, a, i) && Good(id, b, j) && a.log <= b.log
    requires QueuedOf(b.log) == QueuedOf(a.log) + ms && AllQueued(b.log[|a.log|..])
    ensures b.written == a.written + Wire(ms)
  {
    hide WiredMsgs, QueuedOf, Wire, CoreState, Legal, Msgs, AnsweredOf, WantedOf, Recorded, Passable, Justified;
    var more := b.log[|a.log|..];
    assert b.log == a.log + more;
    LogConcat(a.log, more);
    QueuedIsAll(more);
    assert QueuedOf(more) == ms by {
      assert (QueuedOf(a.log) + QueuedOf(more))[|QueuedOf(a.log)|..] == QueuedOf(more);
      assert (QueuedOf(a.log) + ms)[|QueuedOf(a.log)|..] == ms;
    }
    WireConcat(WiredMsgs(a.log), WiredMsgs(more));
  }

  lemma GoodWrites(id: byte, g: Snapshot, inflight: Flight, m: Message, kind: Kind)
    requires Good(id, g, inflight) && Passable(m) && Justified(id, Wired(m, kind))
    ensures Good(id, g.(written := g.written + Frame(m), log := g.log + [Wired(m, kind)]), Landed(inflight, kind))
  {
    hide Justified, Passable, Legal, CoreState, Msgs, Recorded, Wire, WiredMsgs, AnsweredOf, WantedOf, Frame, CountOf;
    LogPush(g.log, Wired(m, kind));
    WirePush(WiredMsgs(g.log), m);
  }

  /** One read takes a message off the port. */
  lemma GoodTakes(id: byte, gapless: bool, w: byte, g: Snapshot, inflight: Flight)
    requires Good(id, g, inflight) && |g.port| >= 4
    ensures var s := Deframe(g.port);
            var h := g.(port := s.rest, deframed := g.deframed + s.got, steps := g.steps + 1);
            && Good(id, h, Taken(inflight, multiset(s.got)))
            && Later(id, gapless, w, g, h, NOTHING)
  {
    hide Deframe, Legal, CoreState, Outs, Msgs, Wire, WiredMsgs, Passable, Recorded, Justified, AnsweredOf, WantedOf;
    var s := Deframe(g.port);
    var h := g.(port := s.rest, deframed := g.deframed + s.got, steps := g.steps + 1);
    ScanOnce(g.port);
    ListenedIdle(id, w, g, h);
    assert h.deframed[|g.deframed|..] == s.got;
    assert h.inputs[|g.inputs|..] == [];
  }

  lemma ScanOnce(port: seq<byte>)
    ensures ScanN(port, 0) == Scan(port, [])
    ensures |port| >= 4 ==> ScanN(port, 1) == Deframe(port)
  {
    if |port| >= 4 {
      var s := Deframe(port);
      assert ScanN(s.rest, 0) == Scan(s.rest, []);
      assert s.got + [] == s.got;
    }
  }

  /** An input to the reassembler is recorded; what it puts out is returned. */
  lemma GoodHandles(id: byte, gapless: bool, w: byte, g: Snapshot, inflight: Flight, i: Input)
    requires Good(id, g, InHand(id, inflight, i))
    requires i.Expired? ==> !gapless && g.st.cache != []
    requires i.Ignored? ==> Foreign(g.st.cache, i.msg)
    ensures var h := g.(st := Advance(id, g.st, i), inputs := g.inputs + [i]);
            && Good(id, h, inflight)
            && Later(id, gapless, w, g, h, multiset(PutOut(id, g.st, i)))
  {
    hide Deframe, ScanN, Legal, CoreState, Outs, Msgs, Wire, WiredMsgs, Passable, Recorded, Advance, PutOut, Foreign,
      Justified, AnsweredOf, WantedOf, Wants, Later;
    InputsPush(id, g.inputs, i);
    WantedPush(id, g.inputs, i);
    var h := g.(st := Advance(id, g.st, i), inputs := g.inputs + [i]);
    HandlesLater(id, gapless, w, g, h, i);
    assert multiset(Msgs(h.inputs)) == multiset(Msgs(g.inputs)) + if i.Expired? then multiset{} else multiset{i.msg};
  }

  lemma HandlesLater(id: byte, gapless: bool, w: byte, g: Snapshot, h: Snapshot, i: Input)
    requires h == g.(st := h.st, inputs := g.inputs + [i]) && g.st == CoreState(id, g.inputs)
    requires i.Expired? ==> !gapless
    ensures Later(id, gapless, w, g, h, multiset(PutOut(id, g.st, i)))
  {
    hide ScanN, Legal, CoreState, Outs, Msgs, Advance, PutOut;
    InputsPush(id, g.inputs, i);
    ScanOnce(g.port);
    NothingHeard();
    assert News(g, h) == [] && g.rx + [] == g.rx;
    assert h.inputs[|g.inputs|..] == [i];
    assert h.deframed[|g.deframed|..] == [];
  }

  lemma GoodRecalls(id: byte, gapless: bool, w: byte, g: Snapshot, inflight: Flight, m: Message)
    requires Good(id, g, inflight)
    ensures Good(id, Recall(g, m), inflight)
    ensures Later(id, gapless, w, g, Recall(g, m), NOTHING)
  {
    hide ScanN, Legal, CoreState, Outs, Msgs, Wire, WiredMsgs, Passable, Recorded, Justified, AnsweredOf, WantedOf, Remember,
      Remembered, Later;
    RecordedOn(g, m);
    LaterIdle(id, gapless, w, g, Recall(g, m));
  }

  lemma GoodCaches(id: byte, g: Snapshot, inflight: Flight, rx: seq<Message>, heard: seq<Heard>)
    requires Good(id, g, inflight)
    ensures Good(id, g.(rx := rx, heard := heard), inflight)
  {
  }

  lemma GoodRecorded(id: byte, g: Snapshot, inflight: Flight)
    requires Good(id, g, inflight)
    ensures Recorded(g.recent, g.sends) && g.st == CoreState(id, g.inputs)
  {
  }

  // ---------- acknowledged means delivered ----------

  /** How often x has been handled. */
  function Handled(inputs: seq<Input>, x: Message): nat {
    if inputs == [] then 0
    else Handled(inputs[..|inputs| - 1], x) + if inputs[|inputs| - 1] == Got(x) then 1 else 0
  }

  /** The messages put together from fragments. */
  function AssembledOf(id: byte, inputs: seq<Input>): seq<Message> {
    if inputs == [] then []
    else AssembledOf(id, inputs[..|inputs| - 1]) + AssembledBy(id, CoreState(id, inputs[..|inputs| - 1]), inputs[|inputs| - 1])
  }

  function AssembledBy(id: byte, st: Reassembly, i: Input): seq<Message> {
    if i.Got? && Collected(id, i.msg) then PutOut(id, st, i) else []
  }

  /**
   A message that is not to be collected is put out exactly as often as it is handled, and as an
   equal one is put together; a resend request is never put out for itself.
   */
  lemma {:induction false} PutOutExactly(id: byte, inputs: seq<Input>, x: Message)
    requires !(|x.data| >= 3 && x.data[0] == 0x91 && x.receiver in {id, 0xFF})
    ensures multiset(Outs(id, inputs))[x] ==
            (if |x.data| > 0 && x.data[0] == 0x92 then 0 else Handled(inputs, x)) + multiset(AssembledOf(id, inputs))[x]
  {
    hide CoreState, PutOut, Advance, AssembledBy;
    if inputs != [] {
      var front, i := inputs[..|inputs| - 1], inputs[|inputs| - 1];
      PutOutExactly(id, front, x);
      OnePutOut(id, CoreState(id, front), i, x);
      assert inputs == front + [i];
      InputsPush(id, front, i);
    }
  }

  lemma OnePutOut(id: byte, st: Reassembly, i: Input, x: Message)
    requires !(|x.data| >= 3 && x.data[0] == 0x91 && x.receiver in {id, 0xFF})
    ensures multiset(PutOut(id, st, i))[x] ==
            (if i == Got(x) && !(|x.data| > 0 && x.data[0] == 0x92) then 1 else 0) + multiset(AssembledBy(id, st, i))[x]
  {
    hide AssembleLast;
    if i.Got? && !Collected(id, i.msg) && !i.msg.StartsWith(RESEND) {
      assert PutOut(id, st, i) == [i.msg];
    }
  }

  /** A plain message is put out exactly as often as it is handled, and as an equal one is put together. */
  lemma PlainPutOut(id: byte, inputs: seq<Input>, x: Message)
    requires !x.StartsWith(RESEND) && !x.IsFragment()
    ensures multiset(Outs(id, inputs))[x] == Handled(inputs, x) + multiset(AssembledOf(id, inputs))[x]
  {
    PutOutExactly(id, inputs, x);
  }

  lemma {:induction false} WantedCount(id: byte, inputs: seq<Input>, x: Message)
    ensures WantedOf(id, inputs)[x] == if Wants(id, x) then Handled(inputs, x) else 0
  {
    if inputs != [] {
      WantedCount(id, inputs[..|inputs| - 1], x);
    }
  }

  /** What acknowledges m. */
  predicate Acks(x: Message, m: Message) {
    x.sender == m.receiver && x.receiver == m.sender && x.StartsWith(ACK)
  }

  /** Every frame ever written other than a queued one, and why. */
  lemma EveryFrame(id: byte, g: Snapshot, inflight: Flight, w: Wired)
    requires Good(id, g, inflight) && w in g.log
    ensures w.kind.Answer? ==>
              var x := w.kind.to;
              && x.receiver == id && |x.data| > 0 && x.data[0] != 0x80
              && w.msg == Message(x.receiver, x.sender, [0x80]) && Acks(w.msg, x)
    ensures w.kind.Resend? ==>
              var r, m := w.kind.request, w.kind.last;
              && r.receiver == id && |r.data| > 0 && r.data[0] == 0x92 && m.sender == id && m.receiver == r.sender
              && w.msg in EscapedAll(Outgoing(m))
    ensures w.kind.Retry? ==>
              var m := w.kind.of;
              w.msg == Escaped(if |m.data| == 2 && m.data[0] != 0xA1 then m.(data := m.data + [0]) else m)
    ensures w.kind.Ask? ==> w.msg == Message(id, w.kind.device, [0x92])
  {
    hide Legal, CoreState, Msgs, Recorded, Wire, WiredMsgs, AnsweredOf, WantedOf, Passable;
    assert Justified(id, w);
  }

  /** The acknowledgements of the serial devices are what the Rust client waits for, and conversely. */
  lemma AckAwaited(x: Message)
    ensures x.sender == 0x8E ==> ClientProtocol.Acknowledges(Acknowledgement(x), x)
    ensures x.receiver == 0x8E ==> Acks(ClientProtocol.AckMessage(x), x) && ClientProtocol.AckMessage(x) == Acknowledgement(x)
  {
  }

  /**
   Between reads, whatever has happened: a message that has to be acknowledged has been, exactly
   as often as it was handled, with the message that its sender waits for, and no other ever;
   and a plain one has been put out exactly as often as it was acknowledged and as an equal one
   was put together from fragments.
   */
  lemma SerialAckLaw(id: byte, g: Snapshot, x: Message)
    requires Good(id, g, NONE)
    ensures AnsweredOf(g.log)[x] == if x.receiver == id && |x.data| > 0 && x.data[0] != 0x80 then Handled(g.inputs, x) else 0
    ensures forall w :: w in g.log && w.kind == Answer(x) ==> w.msg == Message(x.receiver, x.sender, [0x80]) && Acks(w.msg, x)
    ensures Wants(id, x) && !x.StartsWith(RESEND) && !x.IsFragment() ==>
              multiset(Outs(id, g.inputs))[x] == AnsweredOf(g.log)[x] + multiset(AssembledOf(id, g.inputs))[x]
  {
    hide Outs, Wire, AssembledOf, Recorded;
    WantedCount(id, g.inputs, x);
    if !x.StartsWith(RESEND) && !x.IsFragment() {
      PlainPutOut(id, g.inputs, x);
    }
  }

  /** How often x was heard while writing for another device than id. */
  function HeardAbroad(heard: seq<Heard>, id: byte, x: Message): nat {
    if heard == [] then 0
    else
      var h := heard[|heard| - 1];
      HeardAbroad(heard[..|heard| - 1], id, x) + if h.msg == x && h.writing != id then 1 else 0
  }

  /** A message to this device is dropped exactly if it is heard while writing for another one. */
  lemma {:induction false} DroppedExactly(id: byte, heard: seq<Heard>, x: Message)
    requires Wants(id, x) && x.sender != id && id != BROADCAST
    ensures multiset(DroppedOf(heard))[x] == HeardAbroad(heard, id, x)
  {
    if heard != [] {
      var front, h := heard[..|heard| - 1], heard[|heard| - 1];
      DroppedExactly(id, front, x);
      assert h.msg == x ==> (Keeps(h) <==> h.writing == id);
    }
  }

  /** A broadcast is dropped exactly if it is heard while writing for the very device that sent it. */
  lemma BroadcastDropped(h: Heard)
    requires h.msg.receiver == BROADCAST && |h.msg.data| > 0 && h.msg.data[0] != ACK
    ensures Keeps(h) <==> h.writing != h.msg.sender
  {
  }

  /**
   Everything ever put out has been returned to the caller, lies in the cache, or was dropped,
   exactly once each.
   */
  predicate Conserved(id: byte, g: Snapshot, returned: seq<Message>) {
    multiset(Outs(id, g.inputs)) == multiset(returned) + multiset(g.rx) + multiset(DroppedOf(g.heard))
  }

  /** Reads and writes conserve the messages, whoever is written for, if what is returned is counted. */
  lemma ConservedOn(id: byte, w: byte, a: Snapshot, b: Snapshot, returned: seq<Message>, taken: seq<Message>)
    requires Conserved(id, a, returned) && Listened(id, w, a, b, multiset(taken))
    ensures Conserved(id, b, returned + taken)
  {
    hide Outs, KeptOf, DroppedOf, Voices;
    KeptOrDropped(News(a, b));
    assert b.heard == a.heard + News(a, b);
    DroppedConcat(a.heard, News(a, b));
  }

  lemma {:induction false} DroppedConcat(a: seq<Heard>, b: seq<Heard>)
    ensures DroppedOf(a + b) == DroppedOf(a) + DroppedOf(b)
  {
    hide KeptOf, Voices, DroppedOf, Keeps;
    if b == [] {
      assert a + b == a;
      NothingHeard();
    } else {
      var front, h := b[..|b| - 1], b[|b| - 1];
      DroppedConcat(a, front);
      assert b == front + [h] && a + b == a + front + [h];
      HeardPush(front, h);
      HeardPush(a + front, h);
    }
  }

  /** A cached message is returned. */
  lemma ConservedReturn(id: byte, g: Snapshot, returned: seq<Message>)
    requires Conserved(id, g, returned) && g.rx != []
    ensures Conserved(id, g.(rx := g.rx[1..]), returned + [g.rx[0]])
  {
    hide Outs, DroppedOf;
    assert g.rx == [g.rx[0]] + g.rx[1..];
  }

  /**
   Acknowledged means delivered, but for what is heard abroad: in every state between reads, a
   plain message to this device from another one has been acknowledged, or put together from
   fragments, exactly as often as it was returned, lies in the cache, or was heard while writing
   for another device.
   */
  lemma SerialDelivery(id: byte, g: Snapshot, returned: seq<Message>, x: Message)
    requires Good(id, g, NONE) && Conserved(id, g, returned)
    requires Wants(id, x) && x.sender != id && id != BROADCAST && !x.StartsWith(RESEND) && !x.IsFragment()
    ensures AnsweredOf(g.log)[x] + multiset(AssembledOf(id, g.inputs))[x] ==
            multiset(returned)[x] + multiset(g.rx)[x] + HeardAbroad(g.heard, id, x)
  {
    hide Outs, Wire, CoreState, Legal, Msgs, AssembledOf, Recorded;
    SerialAckLaw(id, g, x);
    DroppedExactly(id, g.heard, x);
  }

  /** A device that has written only for itself since then has dropped nothing that was meant for it. */
  lemma NothingAbroad(id: byte, a: Snapshot, g: Snapshot, taken: multiset<Message>, x: Message)
    requires Listened(id, id, a, g, taken)
    ensures HeardAbroad(News(a, g), id, x) == 0
  {
    AtHome(News(a, g), id, x);
  }

  lemma {:induction false} AtHome(heard: seq<Heard>, id: byte, x: Message)
    requires WritingFor(heard, id, id)
    ensures HeardAbroad(heard, id, x) == 0
  {
    if heard != [] {
      AtHome(heard[..|heard| - 1], id, x);
    }
  }
}
