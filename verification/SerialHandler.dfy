/**
 The serial handler (Serial_AIBus_Handler.cpp `SerialAIBusHandler`). Reading a message writes
 an acknowledgement, writing first drains what waits on the port, and waiting for an answer
 reads: the methods call one another, and the clock decides how often.
 */
module SerialHandler {
  import opened Bytes
  import opened AIBus
  import opened Fragmentation
  import opened ResendCache
  import opened Seqs
  import opened SerialProtocol

  const MAX_REPEAT := 50

  class SerialAIBusHandler {
    const id: byte
    /** Whether the clock never shows 500 ms between two fragments of a message. */
    const gapless: bool

    var port: seq<byte>
    var written: seq<byte>
    var cachedRx: seq<Message>
    var recentTx: seq<Message>
    var multiCache: seq<Message>
    var multiExpectedSize: int
    var useAckCache: bool
    var ackCache: seq<Message>

    ghost var log: seq<Wired>
    ghost var inputs: seq<Input>
    ghost var deframed: seq<Message>
    ghost var steps: nat
    /** What has been read while writing or waiting, and for whom. */
    ghost var heard: seq<Heard>
    /** Every eligible message given to the writer. */
    ghost var sends: seq<Send>
    /** Everything that readAIData has returned to the program. */
    ghost var returned: seq<Message>

    constructor (id: byte, gapless: bool)
      ensures this.id == id && this.gapless == gapless
      ensures Valid() && Now().st == IDLE && port == [] && cachedRx == [] && recentTx == []
      ensures Outs(id, inputs) == [] && heard == [] && log == [] && inputs == [] && deframed == [] && sends == [] && returned == []
    {
      this.id, this.gapless := id, gapless;
      port, written, cachedRx, recentTx, multiCache, multiExpectedSize := [], [], [], [], [], -1;
      useAckCache, ackCache := false, [];
      log, inputs, deframed, steps, heard, sends, returned := [], [], [], 0, [], [], [];
    }

    ghost function Now(): Snapshot
      reads this
    {
      Snapshot(port, written, Reassembly(multiCache, multiExpectedSize), cachedRx, recentTx, log, inputs, deframed, steps,
        heard, sends)
    }

    /** What every method of the handler keeps while writing for w, whatever arrives and whatever the clock does. */
    ghost predicate After(w: byte, before: Snapshot, inflight: Flight, taken: multiset<Message>)
      reads this
    {
      && Good(id, Now(), inflight)
      && Later(id, gapless, w, before, Now(), taken)
    }

    ghost function Memo(): Memory
      reads this
    {
      Memory(inputs, recentTx, sends)
    }

    /** Resend requests are answered as before, but for collections given up since then. */
    ghost predicate SameAnswers(before: Snapshot)
      reads this
    {
      Kept(id, MemoryOf(before), Memo())
    }

    /**
     What holds whenever the handler is not busy: all is recorded, every message put out has been
     returned, cached or dropped, and every collection ever given up has been asked for again.
     */
    ghost predicate Valid()
      reads this
    {
      && Good(id, Now(), NONE)
      && Conserved(id, Now(), returned)
      && Requested(id, Memory([], [], []), Memo())
    }

    function Collecting(): nat
      reads this`multiCache
    {
      if |multiCache| > 0 then 1 else 0
    }

    // ---------- reading ----------

    /** The framing of readAIData: one frame off the port, or nothing. */
    method ReadFrame() returns (got: seq<Message>)
      requires |port| >= 4
      modifies this`port
      ensures Scan(port, got) == Deframe(old(port))
    {
      var s, l := port[0], port[1];
      port := port[2..];
      if l > AIDATA_LIMIT + 5 {
        return [];
      }
      if l < 2 {
        port := [];
        return [];
      }
      if |port| < l {
        port := [];
        return [];
      }
      var r, d := port[0], port[1..l];
      ghost var frame := old(port)[..l + 2];
      port := port[l..];
      var chex := [s, l, r] + d;
      FrameRead(old(port), s, l, r, d, port);
      var valid := CheckValidity(chex);
      if !valid {
        port := [];
        return [];
      }
      if |d| == 3 && d[0] == s && d[1] == l && d[2] == r {
        return [];
      }
      var data := d[..l - 2];
      got := [Message(s, r, data)];
      assert data == frame[3..|frame| - 1];
    }

    /** readAIData on the serial branch, without the cache of earlier messages. */
    method Read(ghost inflight: Flight) returns (ok: bool, msg: Message)
      requires Good(id, Now(), inflight)
      modifies this
      decreases |port|, Collecting(), 0, 1
      ensures After(id, old(Now()), inflight, Result(ok, msg))
      ensures SameAnswers(old(Now())) && QueuedOf(log) == QueuedOf(old(log))
      ensures |old(port)| >= 4 ==> |port| < |old(port)|
      ensures |old(port)| < 4 ==> !ok && Now() == old(Now())
      ensures useAckCache == old(useAckCache) && old(inputs) <= inputs
      ensures ok ==> msg in OutsSince(id, old(inputs), inputs)
      ensures gapless || old(multiCache) == [] ==> Returned(id, old(inputs), inputs, ok, msg)
      ensures forall x :: Alone(old(Now()), gapless, x) ==> Handles(id, old(Now()), Now(), x)
    {
      hide Good, Later, Kept, QueuedOf, Returned, OutsSince, Alone, Handles;
      ok, msg := false, NULL_MESSAGE;
      LaterSelf(id, gapless, id, Now());
      KeptSelf(id, Memo());
      ReturnedNothing(id, inputs, msg);
      ghost var g := Now();
      if |port| < 4 {
        AloneIs(g, gapless, [], []);
        return;
      }
      var late: bool := *;
      if !gapless && late && multiExpectedSize > 0 && |multiCache| > 0 {
        GiveUp(inflight);
        NotAlone(g, gapless);
        if |port| < 4 {
          return;
        }
      }
      ghost var mid := inputs;
      ok, msg := ReadNext(inflight, g);
      OutLater(id, old(inputs), mid, inputs, msg);
    }

    /** The frame at the front of the port. */
    method ReadNext(ghost inflight: Flight, ghost start: Snapshot) returns (ok: bool, msg: Message)
      requires Good(id, Now(), inflight) && |port| >= 4
      requires Later(id, gapless, id, start, Now(), NOTHING) && Kept(id, MemoryOf(start), Memo())
      modifies this
      decreases |port|, Collecting(), 0, 0
      ensures After(id, start, inflight, Result(ok, msg))
      ensures SameAnswers(start) && QueuedOf(log) == QueuedOf(old(log))
      ensures |port| < |old(port)| && useAckCache == old(useAckCache) && old(inputs) <= inputs
      ensures ok ==> msg in OutsSince(id, old(inputs), inputs)
      ensures Returned(id, old(inputs), inputs, ok, msg)
      ensures forall x :: Alone(old(Now()), gapless, x) ==> Handles(id, old(Now()), Now(), x)
    {
      hide Good, Later, Kept, QueuedOf, Deframe, Returned, OutsSince, Wrote, Alone, Handles;
      ok, msg := false, NULL_MESSAGE;
      ReturnedNothing(id, inputs, msg);
      ghost var g := Now();
      var got := TakeFrame(inflight, start);
      AloneIs(g, gapless, port, got);
      ghost var taken := Now();
      if |got| == 0 {
        assert Taken(inflight, multiset(got)) == inflight;
        return;
      }
      assert got == [got[0]] && multiset(got) == multiset{got[0]};
      ok, msg := ReadMessage(got[0], inflight, start);
      ReturnedOut(id, g.inputs, inputs, ok, msg);
      HandlesSame(id, g, taken, Now(), got[0]);
    }

    /** 500 ms without a fragment: what was collected is given up, and its sender asked to send again. */
    method GiveUp(ghost inflight: Flight)
      requires Good(id, Now(), inflight) && !gapless && multiCache != []
      modifies this
      decreases |port|, 0, 9
      ensures After(id, old(Now()), inflight, NOTHING)
      ensures SameAnswers(old(Now())) && QueuedOf(log) == QueuedOf(old(log))
      ensures old(inputs) + [Expired] <= inputs
      ensures var device := old(multiCache)[0].sender;
              device != BROADCAST ==>
                CountOf(log, Ask(device)) > CountOf(old(log), Ask(device))
                && Lookup(recentTx, id, device) == Some(ResendRequest(id, device))
      ensures |port| <= |old(port)| && useAckCache == old(useAckCache)
    {
      hide Good, Later, Kept, QueuedOf, Lookup, ExpiredAt;
      var sender := multiCache[0].sender;
      GoodRecorded(id, Now(), inflight);
      RequestKept(id, Now(), sender);
      Expire(inflight);
      ghost var g := Now();
      RequestResend(sender, inflight);
      LaterThen(id, gapless, id, id, old(Now()), g, Now(), NOTHING);
      if sender != BROADCAST {
        KeptOn(id, old(Memo()), MemoryOf(Recall(g, ResendRequest(id, sender))), Memo());
        RequestStays(id, MemoryOf(Recall(g, ResendRequest(id, sender))), Memo(), sender);
      }
    }

    /** requestResend: the request is itself remembered, in place of what was last sent to that device. */
    method RequestResend(device: byte, ghost inflight: Flight)
      requires Good(id, Now(), inflight)
      modifies this
      decreases |port|, Collecting(), 5, 2
      ensures After(id, old(Now()), inflight, NOTHING)
      ensures QueuedOf(log) == QueuedOf(old(log)) && old(inputs) <= inputs
      ensures device != BROADCAST ==> SameAnswers(Recall(old(Now()), ResendRequest(id, device)))
      ensures device != BROADCAST ==> CountOf(log, Ask(device)) > CountOf(old(log), Ask(device))
      ensures device != BROADCAST ==>
                var request := Message(id, device, [0x92]);
                || AckSeen(id, request, cachedRx, old(inputs), inputs)
                || Repeated(old(log), log, request, if useAckCache then 1 else 50)
      ensures device == BROADCAST ==> Now() == old(Now())
      ensures |port| <= |old(port)| && useAckCache == old(useAckCache)
    {
      hide Good, Later, Kept, QueuedOf, Fits, CountOf, EscapedAll, Wrote, Written, Repeated, AckSeen;
      LaterSelf(id, gapless, id, Now());
      if device == BROADCAST {
        return;
      }
      FitsAsk(id, device);
      var sent, count := Write(Message(id, device, [RESEND]), MAX_REPEAT, true, Ask(device), inflight);
      WrittenCount(old(log), log, OnWire(Message(id, device, [RESEND]))[..count], Ask(device));
    }

    /** One frame off the port, recorded. */
    method TakeFrame(ghost inflight: Flight, ghost start: Snapshot) returns (got: seq<Message>)
      requires Good(id, Now(), inflight) && Later(id, gapless, id, start, Now(), NOTHING) && |port| >= 4
      modifies this`port, this`deframed, this`steps
      ensures After(id, start, Taken(inflight, multiset(got)), NOTHING) && |got| <= 1
      ensures |port| + 2 <= |old(port)| && Scan(port, got) == Deframe(old(port))
    {
      hide Good, Later, Deframe;
      ghost var g := Now();
      GoodTakes(id, gapless, id, g, inflight);
      got := ReadFrame();
      deframed, steps := deframed + got, steps + 1;
      LaterThen(id, gapless, id, id, start, g, Now(), NOTHING);
    }

    /** 500 ms without a fragment: what was collected is given up. */
    method Expire(ghost inflight: Flight)
      requires Good(id, Now(), inflight) && !gapless && multiCache != []
      modifies this`multiCache, this`multiExpectedSize, this`inputs
      ensures After(id, old(Now()), inflight, NOTHING)
      ensures inputs == old(inputs) + [Expired] && Now() == old(Now()).(st := IDLE, inputs := inputs)
    {
      hide Good, Later;
      GoodHandles(id, gapless, id, Now(), inflight, Expired);
      multiCache, multiExpectedSize := [], -1;
      inputs := inputs + [Expired];
    }

    /** The rest of readAIData, from the message that the frame held. */
    method ReadMessage(x: Message, ghost inflight: Flight, ghost start: Snapshot) returns (ok: bool, msg: Message)
      requires Good(id, Now(), Taken(inflight, multiset{x}))
      requires Later(id, gapless, id, start, Now(), NOTHING) && Kept(id, MemoryOf(start), Memo())
      modifies this
      decreases |port|, Collecting(), 7
      ensures After(id, start, inflight, Result(ok, msg))
      ensures SameAnswers(start) && QueuedOf(log) == QueuedOf(old(log))
      ensures |port| <= |old(port)|
      ensures useAckCache == old(useAckCache)
      ensures old(inputs) < inputs && Returned(id, old(inputs), inputs, ok, msg)
      ensures |old(port)| < 4 && !(|x.data| > 0 && x.data[0] == 0x92) ==> port == old(port) && Handles(id, old(Now()), Now(), x)
    {
      hide Good, Later, Kept, QueuedOf, Handles, Wrote, Returned;
      ok, msg := false, NULL_MESSAGE;
      if |multiCache| > 0 && x.IsFragment()
         && (multiCache[0].sender != x.sender || multiCache[0].receiver != x.receiver) {
        ghost var g := Now();
        Ignore(x, inflight, start);
        HandlesOther(id, g, Now(), x);
        return;
      }
      ghost var g := Now();
      ghost var last, count := Respond(x, Taken(inflight, multiset{x}));
      ghost var mid := Now();
      assert Answering(id, x, Taken(inflight, multiset{x})) == InHand(id, inflight, Got(x));
      LaterThen(id, gapless, id, id, start, g, Now(), NOTHING);
      KeptOn(id, MemoryOf(start), MemoryOf(g), Memo());
      KeptHandles(id, MemoryOf(start), Memo(), Got(x));
      ok, msg := Finish(x, inflight, start, old(inputs));
      if |old(port)| < 4 && !(|x.data| > 0 && x.data[0] == 0x92) {
        HandlesOwn(id, g, mid, Now(), x);
      }
    }

    /** A fragment of another pair than the one being collected is dropped; only the record says so. */
    ghost method Ignore(x: Message, inflight: Flight, start: Snapshot)
      requires Good(id, Now(), Taken(inflight, multiset{x})) && x.IsFragment()
      requires |multiCache| > 0 && (multiCache[0].sender != x.sender || multiCache[0].receiver != x.receiver)
      requires Later(id, gapless, id, start, Now(), NOTHING) && Kept(id, MemoryOf(start), Memo())
      modifies this`inputs
      ensures After(id, start, inflight, NOTHING) && SameAnswers(start)
      ensures inputs == old(inputs) + [Ignored(x)] && Returned(id, old(inputs), inputs, false, NULL_MESSAGE)
    {
      hide Good, Later, Kept;
      assert InHand(id, inflight, Ignored(x)) == Taken(inflight, multiset{x});
      GoodHandles(id, gapless, id, Now(), inflight, Ignored(x));
      var g := Now();
      OwnInput(id, g, InHand(id, inflight, Ignored(x)), Ignored(x), inputs, false, NULL_MESSAGE);
      KeptHandles(id, MemoryOf(start), Memo(), Ignored(x));
      inputs := inputs + [Ignored(x)];
      LaterThen(id, gapless, id, id, start, g, Now(), NOTHING);
    }

    /** The acknowledgement of a message addressed to this device, and the answer to a resend request. */
    method Respond(x: Message, ghost inflight: Flight) returns (ghost m: Message, ghost count: nat)
      requires Good(id, Now(), inflight)
      modifies this
      decreases |port|, Collecting(), 6
      ensures After(id, old(Now()), Answering(id, x, inflight), NOTHING)
      ensures |old(port)| < 4 && !(|x.data| > 0 && x.data[0] == 0x92) ==>
                Now() == if x.receiver == id && |x.data| > 0 && x.data[0] != 0x80
                         then Wrote(old(Now()), [Message(x.receiver, x.sender, [0x80])], Answer(x)) else old(Now())
      ensures |x.data| > 0 && x.data[0] == 0x92 && x.receiver == id && Lookup(old(recentTx), x.receiver, x.sender).Some? ==>
                && (PadOf(Lookup(old(recentTx), x.receiver, x.sender).value, m)
                    || (m == Message(id, x.sender, [0x92]) && ExpiredSince(id, old(Memo()), Memo(), x.sender)))
                && 0 < count <= |Outgoing(m)| && Written(old(log), log, OnWire(m)[..count], Resend(x, m))
                && (count < |Outgoing(m)| ==> Repeated(old(log), log, Outgoing(m)[count - 1], if useAckCache then 1 else 50))
      ensures SameAnswers(old(Now())) && QueuedOf(log) == QueuedOf(old(log))
      ensures |port| <= |old(port)| && old(inputs) <= inputs && useAckCache == old(useAckCache)
    {
      hide Good, Later, Kept, QueuedOf, Wrote, Written, Repeated, Outgoing, Lookup, ExpiredSince, EscapedAll, AckSeen;
      m, count := x, 0;
      LaterSelf(id, gapless, id, Now());
      KeptSelf(id, Memo());
      if x.receiver == id && |x.data| > 0 && x.data[0] != ACK {
        SendAcknowledgement(x, x.receiver, x.sender, inflight);
      }
      if |x.data| >= 1 && x.data[0] == RESEND && x.receiver == id {
        ghost var g := Now();
        AnswerChanged(id, old(Memo()), MemoryOf(g), x.receiver, x.sender);
        m, count := AnswerRequest(x, Answering(id, x, inflight));
        LaterThen(id, gapless, id, id, old(Now()), g, Now(), NOTHING);
        ExpiredLater(id, old(Memo()), MemoryOf(g), Memo(), x.sender) by {
          KeptPrefix(id, old(Memo()), MemoryOf(g));
          KeptPrefix(id, MemoryOf(g), Memo());
        }
        KeptOn(id, old(Memo()), MemoryOf(g), Memo());
        LaterLogs(id, gapless, id, old(Now()), g, NOTHING);
        if Lookup(g.recent, x.receiver, x.sender).Some? {
          WrittenSince(old(log), g.log, log, OnWire(m)[..count], Resend(x, m));
          RepeatedSince(old(log), g.log, log, Outgoing(m)[count - 1], if useAckCache then 1 else 50);
        }
      }
    }

    /** The message remembered for a resend request's pair, if there is one, is written again. */
    method AnswerRequest(x: Message, ghost inflight: Flight) returns (ghost m: Message, ghost count: nat)
      requires Good(id, Now(), inflight) && x.StartsWith(RESEND) && x.receiver == id
      modifies this
      decreases |port|, Collecting(), 5, 2
      ensures After(id, old(Now()), inflight, NOTHING)
      ensures Lookup(old(recentTx), x.receiver, x.sender).Some? ==>
                && m == Lookup(old(recentTx), x.receiver, x.sender).value
                && 0 < count <= |Outgoing(m)| && Written(old(log), log, OnWire(m)[..count], Resend(x, m))
                && (count < |Outgoing(m)| ==> Repeated(old(log), log, Outgoing(m)[count - 1], if useAckCache then 1 else 50))
                && (m.receiver != 0xFF && |m.data| > 0 && m.data[0] != 0x80 ==>
                      || AckSeen(id, m, cachedRx, old(inputs), inputs)
                      || Repeated(old(log), log, Outgoing(m)[count - 1], if useAckCache then 1 else 50))
      ensures SameAnswers(old(Now())) && QueuedOf(log) == QueuedOf(old(log))
      ensures |port| <= |old(port)| && old(inputs) <= inputs && useAckCache == old(useAckCache)
    {
      hide Good, Later, Kept, QueuedOf, Wrote, Written, Repeated, Outgoing, OnWire, AckSeen;
      m, count := x, 0;
      LaterSelf(id, gapless, id, Now());
      KeptSelf(id, Memo());
      var last := FindRecent(recentTx, x.receiver, x.sender);
      LookupFor(recentTx, x.receiver, x.sender);
      if last.Some? {
        m := last.value;
        count := ResendLast(x, last.value, inflight);
      }
    }

    method Finish(x: Message, ghost inflight: Flight, ghost start: Snapshot, ghost before: seq<Input>)
      returns (ok: bool, msg: Message)
      requires Good(id, Now(), InHand(id, inflight, Got(x))) && Later(id, gapless, id, start, Now(), NOTHING) && before <= inputs
      modifies this`multiCache, this`multiExpectedSize, this`inputs
      ensures After(id, start, inflight, Result(ok, msg))
      ensures before < inputs && Returned(id, before, inputs, ok, msg)
      ensures Memo() == old(Memo()).(inputs := old(inputs) + [Got(x)])
    {
      hide Good, Later, Returned;
      ghost var g := Now();
      GoodHandles(id, gapless, id, g, inflight, Got(x));
      ok, msg := Handle(x);
      assert multiset(if ok then [msg] else []) == Result(ok, msg);
      OwnInput(id, g, InHand(id, inflight, Got(x)), Got(x), before, ok, msg);
      inputs := inputs + [Got(x)];
      LaterThen(id, gapless, id, id, start, g, Now(), Result(ok, msg));
    }

    /** Ordinary messages are returned; fragments are collected and, with the last, put together. */
    method Handle(x: Message) returns (ok: bool, msg: Message)
      modifies this`multiCache, this`multiExpectedSize
      ensures (Now().st, if ok then [msg] else []) == Core(id, old(Now().st), x)
    {
      ok, msg := false, NULL_MESSAGE;
      if |x.data| >= 1 && x.data[0] == RESEND {
        return;
      }
      if |x.data| >= 3 && x.data[0] == MULTI && (x.receiver == id || x.receiver == BROADCAST) {
        if multiExpectedSize <= 0 {
          var count := x.data[1];
          if count <= 0 {
            return;
          }
          multiExpectedSize := count;
        }
        multiCache := multiCache + [x];
        if |multiCache| >= multiExpectedSize {
          var bytes := AssembleGroup(multiCache, multiExpectedSize, x);
          msg := Message(x.sender, x.receiver, bytes);
          multiCache, multiExpectedSize := [], -1;
          return true, msg;
        }
        return;
      }
      return true, x;
    }

    // ---------- writing ----------

    method SendAcknowledgement(ghost x: Message, sender: byte, receiver: byte, ghost inflight: Flight)
      requires Good(id, Now(), inflight)
      requires Wants(id, x) && sender == x.receiver && receiver == x.sender
      modifies this
      decreases |port|, Collecting(), 3
      ensures |port| == |old(port)| ==> multiCache == old(multiCache)
      ensures After(id, old(Now()), Landed(inflight, Answer(x)), NOTHING)
      ensures |old(port)| < 4 ==> Now() == Wrote(old(Now()), [Message(sender, receiver, [0x80])], Answer(x))
      ensures SameAnswers(old(Now())) && QueuedOf(log) == QueuedOf(old(log))
      ensures |port| <= |old(port)| && old(inputs) <= inputs && useAckCache == old(useAckCache)
    {
      hide Good, Later, Kept, QueuedOf, EscapedAll, Fits, Wrote, Written, Repeated;
      FitsAnswer(id, x);
      AckOnWire(sender, receiver);
      assert Recall(Now(), Message(sender, receiver, [ACK])) == Now();
      var sent, count := Write(Message(sender, receiver, [ACK]), 0, true, Answer(x), inflight);
    }

    /** writeAIData for a remembered message. */
    method ResendLast(ghost request: Message, tx: Message, ghost inflight: Flight) returns (ghost count: nat)
      requires Good(id, Now(), inflight)
      requires Lookup(recentTx, tx.sender, tx.receiver) == Some(tx)
      requires request.StartsWith(RESEND) && request.receiver == id && For(tx, request.receiver, request.sender)
      modifies this
      decreases |port|, Collecting(), 5, 1
      ensures |port| == |old(port)| ==> multiCache == old(multiCache)
      ensures After(id, old(Now()), inflight, NOTHING)
      ensures SameAnswers(old(Now())) && QueuedOf(log) == QueuedOf(old(log))
      ensures |port| <= |old(port)| && old(inputs) <= inputs && useAckCache == old(useAckCache)
      ensures 0 < count <= |Outgoing(tx)| && Written(old(log), log, OnWire(tx)[..count], Resend(request, tx))
      ensures count < |Outgoing(tx)| ==> Repeated(old(log), log, Outgoing(tx)[count - 1], if useAckCache then 1 else 50)
      ensures tx.receiver != 0xFF && |tx.data| > 0 && tx.data[0] != 0x80 ==>
                || AckSeen(id, tx, cachedRx, old(inputs), inputs)
                || Repeated(old(log), log, Outgoing(tx)[count - 1], if useAckCache then 1 else 50)
    {
      hide Good, Later, Kept, QueuedOf, EscapedAll, Fits, Wrote, Written, Repeated, AckSeen;
      GoodRecorded(id, Now(), inflight);
      ResentKept(id, Now(), tx);
      FitsResend(id, request, tx);
      var ackCount := if tx.receiver != BROADCAST && !tx.StartsWith(ACK) then MAX_REPEAT else 0;
      var sent;
      sent, count := Write(tx, ackCount, true, Resend(request, tx), inflight);
      KeptOn(id, old(Memo()), MemoryOf(Recall(old(Now()), tx)), Memo());
    }

    /**
     writeAIBusToSerial. The frames of the message are written in order, escaped where they
     would look like an echo; all of them when every awaited answer came or none was awaited.
     True is answered only if an awaited acknowledgement has been read.
     */
    method Write(m: Message, ackCount: nat, allowAckCache: bool, ghost kind: Kind, ghost inflight: Flight)
      returns (sent: bool, ghost count: nat)
      requires Good(id, Now(), inflight) && Fits(id, m, kind)
      modifies this
      decreases |port|, Collecting(), if IsLong(m) then 5 else if ackCount > 0 then 4 else 2, 0
      ensures |port| == |old(port)| ==> multiCache == old(multiCache)
      ensures After(m.sender, old(Now()), Landed(inflight, kind), NOTHING)
      ensures |old(port)| < 4 && ackCount == 0 && !(IsLong(m) && old(useAckCache) && allowAckCache) ==>
                sent && Now() == Wrote(Recall(old(Now()), m), OnWire(m), kind)
      ensures SameAnswers(Recall(old(Now()), m))
      ensures |port| <= |old(port)| && old(inputs) <= inputs && useAckCache == old(useAckCache)
      ensures 0 < count <= |Outgoing(m)| && (sent || ackCount == 0 ==> count == |Outgoing(m)|)
      ensures sent && ackCount > 0 ==> AckSeen(id, m, cachedRx, old(inputs), inputs)
      ensures Written(old(log), log, OnWire(m)[..count], kind)
      ensures !sent && ackCount > 0 ==>
                Repeated(old(log), log, Outgoing(m)[count - 1], if useAckCache && allowAckCache then 1 else ackCount)
      ensures !sent && useAckCache && allowAckCache ==>
                |Outgoing(m)| <= |ackCache| && ackCache[|ackCache| - |Outgoing(m)|..] == Outgoing(m)
      ensures QueuedOf(log) ==
              QueuedOf(old(log)) + if kind == Queued then EscapedAll(Outgoing(m))[..count] else []
    {
      hide Good, Later, Kept, QueuedOf, EscapedAll, Remember, Fits, AckSeen, Answers, Written, Repeated, Outgoing, Wrote, Recall;
      LaterSelf(id, gapless, m.sender, Now());
      GoodRecalls(id, gapless, m.sender, Now(), inflight, m);
      if Remembered(m) {
        AnswersRecalled(Now(), m) by { GoodRecorded(id, Now(), inflight); }
      }
      Memorize(m);
      ghost var start := Now();
      sent, count := WriteOut(m, ackCount, allowAckCache, kind, inflight);
      LaterThen(id, gapless, m.sender, m.sender, old(Now()), start, Now(), NOTHING);
    }

    /** As a group of fragments if it is too long for one frame. */
    method WriteOut(m: Message, ackCount: nat, allowAckCache: bool, ghost kind: Kind, ghost inflight: Flight)
      returns (sent: bool, ghost count: nat)
      requires Good(id, Now(), inflight) && Fits(id, m, kind)
      requires Remembered(m) ==> Answers(recentTx, m)
      modifies this
      decreases |port|, Collecting(), if IsLong(m) then 4 else if ackCount > 0 then 3 else 1, 10
      ensures |port| == |old(port)| ==> multiCache == old(multiCache)
      ensures After(m.sender, old(Now()), Landed(inflight, kind), NOTHING)
      ensures |old(port)| < 4 && ackCount == 0 && !(IsLong(m) && old(useAckCache) && allowAckCache) ==>
                sent && Now() == Wrote(old(Now()), OnWire(m), kind)
      ensures SameAnswers(old(Now()))
      ensures |port| <= |old(port)| && old(inputs) <= inputs && useAckCache == old(useAckCache)
      ensures 0 < count <= |Outgoing(m)| && (sent || ackCount == 0 ==> count == |Outgoing(m)|)
      ensures sent && ackCount > 0 ==> AckSeen(id, m, cachedRx, old(inputs), inputs)
      ensures Written(old(log), log, OnWire(m)[..count], kind)
      ensures !sent && ackCount > 0 ==>
                Repeated(old(log), log, Outgoing(m)[count - 1], if useAckCache && allowAckCache then 1 else ackCount)
      ensures !sent && useAckCache && allowAckCache ==>
                |Outgoing(m)| <= |ackCache| && ackCache[|ackCache| - |Outgoing(m)|..] == Outgoing(m)
      ensures QueuedOf(log) ==
              QueuedOf(old(log)) + if kind == Queued then EscapedAll(Outgoing(m))[..count] else []
    {
      hide Good, Later, Kept, QueuedOf, EscapedAll, Fits, AckSeen, Answers, Written, Repeated, Fragments, Wrote;
      if |m.data| > AIDATA_LIMIT + 3 {
        sent, count := WriteGroup(m, ackCount, allowAckCache, kind, inflight);
      } else {
        sent := WriteOne(m, ackCount, allowAckCache, kind, inflight);
        count := 1;
        assert EscapedAll([m])[..1] == [Escaped(m)] == EscapedAll([m]);
      }
    }

    /** A message given to the writer takes the place of the one remembered for its pair, if it is eligible. */
    method Memorize(m: Message)
      modifies this`recentTx, this`sends
      ensures Now() == Recall(old(Now()), m)
    {
      hide Remember;
      if Remembered(m) {
        recentTx := CacheTx(recentTx, m);
        sends := sends + [Send(m, |inputs|)];
      }
    }

    /** A long message as its group of fragments; the first unanswered one ends it. */
    method WriteGroup(m: Message, ackCount: nat, allowAckCache: bool, ghost kind: Kind, ghost inflight: Flight)
      returns (sent: bool, ghost count: nat)
      requires IsLong(m) && Good(id, Now(), inflight) && Fits(id, m, kind)
      modifies this
      decreases |port|, Collecting(), 4, 9
      ensures |port| == |old(port)| ==> multiCache == old(multiCache)
      ensures After(m.sender, old(Now()), Landed(inflight, kind), NOTHING)
      ensures |old(port)| < 4 && ackCount == 0 && !(old(useAckCache) && allowAckCache) ==>
                sent && Now() == Wrote(old(Now()), OnWire(m), kind)
      ensures SameAnswers(old(Now()))
      ensures |port| <= |old(port)| && old(inputs) <= inputs && useAckCache == old(useAckCache)
      ensures 0 < count <= |Outgoing(m)| && (sent || ackCount == 0 ==> count == |Outgoing(m)|)
      ensures sent && ackCount > 0 ==> AckSeen(id, m, cachedRx, old(inputs), inputs)
      ensures Written(old(log), log, OnWire(m)[..count], kind)
      ensures !sent && ackCount > 0 ==>
                Repeated(old(log), log, Outgoing(m)[count - 1], if useAckCache && allowAckCache then 1 else ackCount)
      ensures !sent && useAckCache && allowAckCache ==>
                |Outgoing(m)| <= |ackCache| && ackCache[|ackCache| - |Outgoing(m)|..] == Outgoing(m)
      ensures QueuedOf(log) ==
              QueuedOf(old(log)) + if kind == Queued then EscapedAll(Outgoing(m))[..count] else []
    {
      hide Wrote, Good, Later, Kept, QueuedOf, EscapedAll, Fragment, Fragments, Remember, Fits, Written, Repeated, AckSeen, Total;
      LaterSelf(id, gapless, m.sender, Now());
      KeptSelf(id, Memo());
      assert Landed(inflight, kind) == inflight by { FitsLong(id, m, kind); }
      var group := SplitGroup(m);
      LongHasParts(m);
      WroteNothing(Now(), EscapedAll(group), kind);
      WrittenNone(log, kind);
      assert OnWire(m)[..0] == [];
      ghost var quiet := |port| < 4 && ackCount == 0 && !(useAckCache && allowAckCache);
      var ack;
      ack, count := WriteParts(m, group, ackCount, allowAckCache, old(Now()), quiet, kind, inflight);
      assert EscapedAll(group)[..|group|] == EscapedAll(group);
      if !ack && ackCount > 0 && (!useAckCache || !allowAckCache) {
        return false, count;
      }
      if !ack && useAckCache && allowAckCache {
        ackCache := ackCache + group;
      }
      sent := ack;
    }

    /** The loop over the fragments. */
    method WriteParts(m: Message, group: seq<Message>, ackCount: nat, allowAckCache: bool, ghost start: Snapshot, ghost quiet: bool,
                      ghost kind: Kind, ghost inflight: Flight)
      returns (ack: bool, ghost count: nat)
      requires IsLong(m) && Fits(id, m, kind) && Landed(inflight, kind) == inflight && group == Fragments(m) && |group| > 0
      requires Partway(start, m, 0, ackCount, true, quiet, kind, inflight)
      requires quiet ==> |start.port| < 4 && ackCount == 0 && !(useAckCache && allowAckCache)
      modifies this
      decreases |port|, Collecting(), 4, 8, 1
      ensures useAckCache == old(useAckCache) && 0 < count <= |group|
      ensures ack || ackCount == 0 ==> count == |group|
      ensures Partway(start, m, count, ackCount, ack, quiet, kind, inflight)
      ensures !ack && ackCount > 0 ==>
                Repeated(start.log, log, Fragments(m)[count - 1], if useAckCache && allowAckCache then 1 else ackCount)
      ensures |port| <= |old(port)| && (|port| == |old(port)| ==> multiCache == old(multiCache))
    {
      hide Partway, Fits, Fragments, IsLong, Repeated;
      ack, count := true, 0;
      var i := 0;
      while i < |group|
        invariant count == i <= |group| && useAckCache == old(useAckCache)
        invariant |port| <= |old(port)| && (|port| == |old(port)| ==> multiCache == old(multiCache))
        invariant Partway(start, m, i, ackCount, ack, quiet, kind, inflight)
        invariant !ack ==> ackCount == 0
        decreases |group| - i
      {
        ack := WritePart(m, i, group[i], ackCount, if useAckCache && allowAckCache then 1 else ackCount, ack, start, quiet, kind, inflight);
        i, count := i + 1, count + 1;
        if !ack && ackCount > 0 {
          break;
        }
      }
    }

    /** What holds with i fragments written. */
    ghost predicate Partway(start: Snapshot, m: Message, i: nat, ackCount: nat, ack: bool, quiet: bool, kind: Kind, inflight: Flight)
      reads this
    {
      && Good(id, Now(), inflight) && Later(id, gapless, m.sender, start, Now(), NOTHING)
      && Kept(id, MemoryOf(start), Memo())
      && |port| <= |start.port| && start.inputs <= inputs && i <= |OnWire(m)|
      && (|port| == |start.port| ==> multiCache == start.st.cache)
      && (i > 0 && ack && ackCount > 0 ==> AckSeen(id, m, cachedRx, start.inputs, inputs))
      && Written(start.log, log, OnWire(m)[..i], kind)
      && QueuedOf(log) == QueuedOf(start.log) + (if kind == Queued then OnWire(m)[..i] else [])
      && (quiet ==> ack && Now() == Wrote(start, OnWire(m)[..i], kind))
    }

    /** The i-th fragment of a group. */
    method WritePart(m: Message, i: nat, x: Message, ackCount: nat, partCount: nat, ack: bool, ghost start: Snapshot, ghost quiet: bool,
                     ghost kind: Kind, ghost inflight: Flight)
      returns (acked: bool)
      requires IsLong(m) && Fits(id, m, kind) && Landed(inflight, kind) == inflight
      requires i < |Fragments(m)| && x == Fragments(m)[i] && (ackCount > 0 ==> partCount > 0)
      requires Partway(start, m, i, ackCount, ack, quiet, kind, inflight)
      requires quiet ==> |start.port| < 4 && partCount == 0
      modifies this
      decreases |port|, Collecting(), 4, 8, 0
      ensures |port| == |old(port)| ==> multiCache == old(multiCache)
      ensures useAckCache == old(useAckCache) && |port| <= |old(port)|
      ensures Partway(start, m, i + 1, ackCount, acked, quiet, kind, inflight)
      ensures ack && !acked && ackCount > 0 ==> Repeated(start.log, log, x, partCount)
    {
      hide Wrote, Good, Later, Kept, QueuedOf, EscapedAll, Fragment, Fragments, Remember, Fits, Written, Repeated, AckSeen, Total;
      ghost var g := Now();
      FragmentShape(m, i);
      FitsParts(id, m, kind, i);
      var one, n := Write(x, partCount, false, kind, inflight);
      LaterThen(id, gapless, m.sender, m.sender, start, g, Now(), NOTHING);
      KeptOn(id, MemoryOf(start), MemoryOf(g), Memo());
      EscapedNext(Fragments(m), i);
      FragmentForgotten(x, g);
      assert OnWire(x) == EscapedAll([x]) && n == 1 && OnWire(x)[..1] == [Escaped(x)];
      WrittenThen(start.log, g.log, log, OnWire(m)[..i], [Escaped(x)], kind);
      LaterLogs(id, gapless, m.sender, start, g, NOTHING);
      RepeatedSince(start.log, g.log, log, x, partCount);
      WroteMore(start, OnWire(m)[..i], EscapedAll([x]), kind);
      SeenForPair(id, x, m, cachedRx, g.inputs, inputs);
      SeenSince(id, m, cachedRx, start.inputs, g.inputs, inputs);
      acked := ack && one;
    }

    /** One frame: what waits on the port is read first, then the frame is written and its answer awaited. */
    method WriteOne(m: Message, ackCount: nat, allowAckCache: bool, ghost kind: Kind, ghost inflight: Flight)
      returns (sent: bool)
      requires !IsLong(m) && Good(id, Now(), inflight) && Fits(id, m, kind)
      requires Remembered(m) ==> Answers(recentTx, m)
      modifies this
      decreases |port|, Collecting(), if ackCount > 0 then 3 else 1, 5
      ensures |port| == |old(port)| ==> multiCache == old(multiCache)
      ensures After(m.sender, old(Now()), Landed(inflight, kind), NOTHING)
      ensures sent && ackCount > 0 ==> AckSeen(id, m, cachedRx, old(inputs), inputs)
      ensures Written(old(log), log, [Escaped(m)], kind)
      ensures !sent && ackCount > 0 ==> Repeated(old(log), log, m, if useAckCache && allowAckCache then 1 else ackCount)
      ensures !sent && useAckCache && allowAckCache ==> 1 <= |ackCache| && ackCache[|ackCache| - 1..] == [m]
      ensures |old(port)| < 4 && ackCount == 0 ==> sent && Now() == Wrote(old(Now()), [Escaped(m)], kind)
      ensures SameAnswers(old(Now()))
      ensures |port| <= |old(port)| && old(inputs) <= inputs && useAckCache == old(useAckCache)
      ensures QueuedOf(log) == QueuedOf(old(log)) + if kind == Queued then [Escaped(m)] else []
    {
      hide Good, Later, Kept, QueuedOf, EscapedAll, Checksum, Answers, Fits, Written, Repeated, AckSeen, AckNext, Wrote;
      SendFrame(m, kind, inflight);
      sent := true;
      if ackCount > 0 {
        ghost var h := Now();
        sent := Await(m, if useAckCache && allowAckCache then 1 else ackCount, Landed(inflight, kind), old(Now()));
        LaterLogs(id, gapless, m.sender, h, Now(), NOTHING);
        WrittenAmid(old(log), old(log), h.log, log, [Escaped(m)], kind);
        RepeatedSince(old(log), h.log, log, m, if useAckCache && allowAckCache then 1 else ackCount);
        SeenSince(id, m, cachedRx, old(inputs), h.inputs, inputs);
        LaterThen(id, gapless, m.sender, m.sender, old(Now()), h, Now(), NOTHING);
        if !sent && useAckCache && allowAckCache {
          ackCache := ackCache + [m];
        }
      }
    }

    /** What waits on the port is read first, then the frame is written. */
    method SendFrame(m: Message, ghost kind: Kind, ghost inflight: Flight)
      requires !IsLong(m) && Good(id, Now(), inflight) && Fits(id, m, kind)
      modifies this
      decreases |port|, Collecting(), 1, 4
      ensures |port| == |old(port)| ==> multiCache == old(multiCache)
      ensures After(m.sender, old(Now()), Landed(inflight, kind), NOTHING)
      ensures old(log) <= log && Written(old(log), log, [Escaped(m)], kind)
      ensures |old(port)| < 4 ==> Now() == Wrote(old(Now()), [Escaped(m)], kind)
      ensures SameAnswers(old(Now()))
      ensures |port| <= |old(port)| && old(inputs) <= inputs && useAckCache == old(useAckCache)
      ensures QueuedOf(log) == QueuedOf(old(log)) + if kind == Queued then [Escaped(m)] else []
    {
      hide Good, Later, Kept, QueuedOf, EscapedAll, Checksum, Fits, Written, Escaped;
      Drain(m.sender, inflight);
      ghost var d := Now();
      LaterLogs(id, gapless, m.sender, old(Now()), d, NOTHING);
      WriteFrame(m, kind, inflight, old(Now()));
      assert log == d.log + [Wired(Escaped(m), kind)];
      WrittenOne(d.log, Escaped(m), kind);
      WrittenSince(old(log), d.log, log, [Escaped(m)], kind);
    }

    /** The frame itself, with a zero appended to the payload that would make it look like an echo. */
    method WriteFrame(m: Message, ghost kind: Kind, ghost inflight: Flight, ghost start: Snapshot)
      requires !IsLong(m) && Good(id, Now(), inflight) && Fits(id, m, kind) && Later(id, gapless, m.sender, start, Now(), NOTHING)
      modifies this`written, this`log
      ensures After(m.sender, start, Landed(inflight, kind), NOTHING)
      ensures Now() == Wrote(old(Now()), [Escaped(m)], kind)
      ensures QueuedOf(log) == QueuedOf(old(log)) + if kind == Queued then [Escaped(m)] else []
    {
      hide Good, Later, QueuedOf, Checksum, Passable, Fits, CountOf, Justified, Escaped, Frame;
      ghost var g := Now();
      FitsParts(id, m, kind, 0);
      EscapedPassable(m, m);
      GoodWrites(id, g, inflight, Escaped(m), kind);
      LogPush(log, Wired(Escaped(m), kind));
      PutEscaped(m, kind);
      WireOne(Escaped(m));
      LaterWrites(id, gapless, m.sender, start, g, NOTHING, Now());
    }

    /** A frame that would read like an acknowledgement echo goes out with a zero byte more. */
    method PutEscaped(m: Message, ghost kind: Kind)
      modifies this`written, this`log
      ensures written == old(written) + Frame(Escaped(m)) && log == old(log) + [Wired(Escaped(m), kind)]
    {
      hide Checksum, Frame;
      if |m.data| == 2 {
        EscapeTest(m);
      }
      if |m.data| == 2 && m.data[0] == m.sender && Checksum(Body(m)) == m.receiver {
        Put(m.(data := m.data + [0]), kind);
      } else {
        Put(m, kind);
      }
    }

    method Put(x: Message, ghost kind: Kind)
      modifies this`written, this`log
      ensures written == old(written) + Frame(x) && log == old(log) + [Wired(x, kind)]
    {
      var bytes := GetBytes(x);
      written := written + bytes;
      log := log + [Wired(x, kind)];
    }

    /** Whatever has arrived is read and cached before the line is written, for 5 ms at most. */
    method Drain(sender: byte, ghost inflight: Flight)
      requires Good(id, Now(), inflight)
      modifies this
      decreases |port|, Collecting(), 1, 0
      ensures |port| == |old(port)| ==> multiCache == old(multiCache)
      ensures After(sender, old(Now()), inflight, NOTHING)
      ensures SameAnswers(old(Now())) && QueuedOf(log) == QueuedOf(old(log))
      ensures |old(port)| < 4 ==> Now() == old(Now())
      ensures |port| <= |old(port)| && old(inputs) <= inputs && useAckCache == old(useAckCache)
    {
      hide Good, Later, Kept, QueuedOf;
      LaterSelf(id, gapless, sender, Now());
      KeptSelf(id, Memo());
      var inTime: bool := *;
      while |port| >= 4 && inTime
        invariant Good(id, Now(), inflight) && Later(id, gapless, sender, old(Now()), Now(), NOTHING)
        invariant Kept(id, old(Memo()), Memo()) && QueuedOf(log) == QueuedOf(old(log))
        invariant |old(port)| < 4 ==> Now() == old(Now())
        invariant |port| <= |old(port)| && old(inputs) <= inputs && useAckCache == old(useAckCache)
        invariant |port| == |old(port)| ==> multiCache == old(multiCache)
        decreases |port|
      {
        ghost var g := Now();
        var ok, msg := Read(inflight);
        LaterThen(id, gapless, sender, id, old(Now()), g, Now(), Result(ok, msg));
        KeptOn(id, old(Memo()), MemoryOf(g), Memo());
        if ok {
          ghost var h := Heard(msg, sender, useAckCache);
          LaterHears(id, gapless, sender, old(Now()), Now(), h);
          GoodCaches(id, Now(), inflight, if Keeps(h) then cachedRx + [msg] else cachedRx, heard + [h]);
          heard := heard + [h];
          if msg.sender != sender && (msg.receiver == sender || msg.receiver == BROADCAST)
             && ((|msg.data| >= 1 && msg.data[0] != ACK) || useAckCache) {
            cachedRx := cachedRx + [msg];
          }
        }
        inTime := *;
      }
    }

    /**
     awaitAcknowledgement: read until the answer comes, writing the message again, padded if
     it is two bytes long, whenever 100 ms have passed, ackCount times at most.
     */
    method Await(m: Message, ackCount: nat, ghost inflight: Flight, ghost first: Snapshot) returns (acknowledged: bool)
      requires !IsLong(m) && Good(id, Now(), inflight)
      requires SameAnswers(first) && (Remembered(m) ==> Answers(first.recent, m))
      modifies this
      decreases |port|, Collecting(), 3, 0
      ensures |port| == |old(port)| ==> multiCache == old(multiCache)
      ensures After(m.sender, old(Now()), inflight, NOTHING)
      ensures SameAnswers(first) && QueuedOf(log) == QueuedOf(old(log))
      ensures acknowledged ==> AckSeen(id, m, cachedRx, old(inputs), inputs)
      ensures !acknowledged ==> Repeated(old(log), log, m, ackCount)
      ensures ackCount > 0 && AckNext(old(Now()), gapless, m) ==> acknowledged
      ensures |port| <= |old(port)| && old(inputs) <= inputs && useAckCache == old(useAckCache)
    {
      hide Good, Later, Kept, QueuedOf, Answers, CountOf, AckSeen, AckNext;
      LaterSelf(id, gapless, m.sender, Now());
      acknowledged := false;
      var tries := 0;
      AckAtHand(Now(), gapless, m);
      ghost var first' := true;
      while !acknowledged && tries < ackCount
        invariant Good(id, Now(), inflight) && Later(id, gapless, m.sender, old(Now()), Now(), NOTHING)
        invariant SameAnswers(first) && QueuedOf(log) == QueuedOf(old(log))
        invariant |port| <= |old(port)| && old(inputs) <= inputs && useAckCache == old(useAckCache)
        invariant acknowledged ==> AckSeen(id, m, cachedRx, old(inputs), inputs)
        invariant tries <= ackCount && CountOf(log, Retry(m)) >= CountOf(old(log), Retry(m)) + tries
        invariant if first' then Now() == old(Now()) && tries == 0 && !acknowledged
                  else AckNext(old(Now()), gapless, m) ==> acknowledged
        invariant |port| == |old(port)| ==> multiCache == old(multiCache)
        decreases ackCount - tries, |port|
      {
        var due := |port| < 4;
        ghost var g := Now();
        first' := false;
        if |port| >= 4 {
          ghost var ok, msg;
          acknowledged, ok, msg := HearOne(m, inflight, old(Now()));
          CountGrows(g.log, log, Retry(m));
          SeenSince(id, m, cachedRx, old(inputs), g.inputs, inputs);
          KeptOn(id, MemoryOf(first), MemoryOf(g), Memo());
          due := *;
        }
        if !acknowledged && due {
          TryAgain(m, inflight, old(Now()), first);
          tries := tries + 1;
        }
      }
    }

    /** One read of the waiting loop, and the search of what has been cached. */
    method HearOne(m: Message, ghost inflight: Flight, ghost start: Snapshot)
      returns (acknowledged: bool, ghost ok: bool, ghost msg: Message)
      requires Good(id, Now(), inflight) && Later(id, gapless, m.sender, start, Now(), NOTHING)
      requires |port| >= 4
      modifies this
      decreases |port|, Collecting(), 2, 9
      ensures After(m.sender, start, inflight, NOTHING)
      ensures SameAnswers(old(Now())) && QueuedOf(log) == QueuedOf(old(log))
      ensures acknowledged ==> AckSeen(id, m, cachedRx, old(inputs), inputs)
      ensures acknowledged <==>
                && !(ok && msg.sender == m.sender)
                && ((ok && Acks(msg, m)) || exists x :: x in cachedRx && Acks(x, m))
      ensures AckNext(old(Now()), gapless, m) ==> acknowledged
      ensures gapless ==> Returned(id, old(inputs), inputs, ok, msg)
      ensures ok ==> heard != [] && heard[|heard| - 1] == Heard(msg, m.sender, false)
      ensures old(log) <= log && |port| < |old(port)| && old(inputs) <= inputs && useAckCache == old(useAckCache)
    {
      hide Good, Later, Kept, QueuedOf, Returned, Alone, Handles, AckNext;
      ghost var g := Now();
      var got, x := Read(inflight);
      ok, msg := got, x;
      AckReturned(id, gapless, g, Now(), m, got, x);
      LaterThen(id, gapless, m.sender, id, start, g, Now(), Result(got, x));
      LaterLogs(id, gapless, id, g, Now(), Result(got, x));
      acknowledged := false;
      if got {
        ghost var h := Heard(x, m.sender, false);
        LaterHears(id, gapless, m.sender, start, Now(), h);
        GoodCaches(id, Now(), inflight, if Keeps(h) then cachedRx + [x] else cachedRx, heard + [h]);
        heard := heard + [h];
        if x.sender == m.sender {
          return false, ok, msg;
        }
        if x.sender == m.receiver && x.receiver == m.sender && |x.data| > 0 && x.data[0] == ACK {
          assert Acks(x, m);
          return true, ok, msg;
        }
        if (x.receiver == m.sender || x.receiver == BROADCAST) && |x.data| >= 1 && x.data[0] != ACK {
          cachedRx := cachedRx + [x];
        }
      }
      acknowledged := AckCached(m);
    }

    /** The search for the acknowledgement among what has been cached. */
    method AckCached(m: Message) returns (found: bool)
      ensures found <==> exists x :: x in cachedRx && Acks(x, m)
    {
      for i := 0 to |cachedRx|
        invariant !exists x :: x in cachedRx[..i] && Acks(x, m)
      {
        var rx := cachedRx[i];
        if rx.sender == m.receiver && rx.receiver == m.sender && |rx.data| > 0 && rx.data[0] == ACK {
          assert Acks(rx, m);
          return true;
        }
      }
      assert cachedRx[..|cachedRx|] == cachedRx;
      found := false;
    }

    /** The message is written once more; whether it is remembered padded or not, the answers stay. */
    method TryAgain(m: Message, ghost inflight: Flight, ghost start: Snapshot, ghost first: Snapshot)
      requires !IsLong(m) && Good(id, Now(), inflight) && Later(id, gapless, m.sender, start, Now(), NOTHING)
      requires SameAnswers(first) && (Remembered(m) ==> Answers(first.recent, m))
      modifies this
      decreases |port|, Collecting(), 2, 9
      ensures |port| == |old(port)| ==> multiCache == old(multiCache)
      ensures After(m.sender, start, inflight, NOTHING)
      ensures SameAnswers(first) && QueuedOf(log) == QueuedOf(old(log))
      ensures CountOf(log, Retry(m)) > CountOf(old(log), Retry(m))
      ensures |port| <= |old(port)| && old(inputs) <= inputs && useAckCache == old(useAckCache)
    {
      hide Good, Later, Kept, QueuedOf, EscapedAll, Remember, Fits, CountOf, Answers, Written, Repeated, Wrote;
      ghost var g := Now();
      var again := m;
      if |m.data| == 2 && m.data[0] != 0xA1 {
        again := m.(data := m.data + [0]);
      }
      GoodRecorded(id, g, inflight);
      RetryKept(id, MemoryOf(first), g, m);
      FitsRetry(id, m);
      var sent, count := Write(again, 0, true, Retry(m), inflight);
      WrittenCount(g.log, log, OnWire(again)[..count], Retry(m));
      KeptOn(id, MemoryOf(first), MemoryOf(Recall(g, again)), Memo());
      LaterThen(id, gapless, m.sender, m.sender, start, g, Now(), NOTHING);
    }

    // ---------- end to end ----------

    /**
     The bytes that another handler writes for a transferable message, however the reads are
     nested and whatever the clock does short of a 500 ms gap: reading until the port is empty
     returns the message, escaped if need be, exactly once, and nothing else.
     */
    method ReceiveTransfer(m: Message) returns (received: seq<Message>)
      requires Valid() && Now().st == IDLE && gapless
      requires m.receiver == id || m.receiver == BROADCAST
      requires Transferable(m) && port == Wire(OnWire(m))
      modifies this
      ensures received == [Escaped(m)] && cachedRx == old(cachedRx) && returned == old(returned) + received
      ensures port == [] && Now().st == IDLE && Valid()
    {
      received := ReceiveAll(m, true);
    }

    /** Reading until fewer than four bytes are left. `clean` says that the bytes are those of m and of nothing else. */
    method ReceiveAll(ghost m: Message, ghost clean: bool) returns (received: seq<Message>)
      requires Valid()
      requires clean ==> Now().st == IDLE && gapless && (m.receiver == id || m.receiver == BROADCAST)
      requires clean ==> Transferable(m) && port == Wire(OnWire(m))
      modifies this
      ensures Valid() && returned == old(returned) + received && SameAnswers(old(Now()))
      ensures Later(id, gapless, id, old(Now()), Now(), multiset(received)) && |port| < 4
      ensures clean ==> received == [Escaped(m)] && cachedRx == old(cachedRx) && port == [] && Now().st == IDLE
    {
      hide Good, Later, Kept, QueuedOf, Outs, CoreState, Wire, OnWire, Transferable, Returned, Conserved, Requested;
      LaterSelf(id, gapless, id, Now());
      KeptSelf(id, Memo());
      received := [];
      ghost var k := 0;
      if clean {
        TransferStart(id, Now(), m);
      }
      while |port| >= 4
        invariant Valid() && returned == old(returned) + received && SameAnswers(old(Now()))
        invariant Later(id, gapless, id, old(Now()), Now(), multiset(received))
        invariant clean ==> Underway(id, old(Now()), Now(), m, k) && received == if k < |OnWire(m)| then [] else [Escaped(m)]
        decreases |port|
      {
        ghost var g := Now();
        var ok, msg := ReadLine();
        LaterOn(id, gapless, id, id, old(Now()), g, Now(), multiset(received), Result(ok, msg));
        KeptOn(id, old(Memo()), MemoryOf(g), Memo());
        if clean {
          k := TransferRead(id, old(Now()), g, Now(), m, k, multiset(received) + Result(ok, msg), ok, msg);
        }
        assert multiset(received) + NOTHING == multiset(received);
        received := if ok then received + [msg] else received;
      }
      if clean {
        TransferEnd(id, old(Now()), Now(), m, k, multiset(received));
      }
    }

    /** The part of readAIData that reads the line, for the program. */
    method ReadLine() returns (ok: bool, msg: Message)
      requires Valid()
      modifies this
      ensures Valid() && returned == old(returned) + (if ok then [msg] else [])
      ensures Later(id, gapless, id, old(Now()), Now(), Result(ok, msg)) && SameAnswers(old(Now()))
      ensures |old(port)| >= 4 ==> |port| < |old(port)|
      ensures gapless || old(multiCache) == [] ==> Returned(id, old(inputs), inputs, ok, msg)
      ensures forall x :: Alone(old(Now()), gapless, x) ==> Handles(id, old(Now()), Now(), x)
    {
      hide Good, Later, Kept, Conserved, Returned, Outs, Handles, Alone;
      ghost var g := Now();
      ok, msg := Read(NONE);
      ghost var taken := if ok then [msg] else [];
      assert multiset(taken) == Result(ok, msg);
      StillConserved(id, gapless, id, g, Now(), old(returned), taken);
      StillRequested(id, MemoryOf(g), Memo());
      returned := old(returned) + taken;
    }

    /** readAIData: what was cached while writing or waiting comes first. */
    method ReadAIData() returns (ok: bool, msg: Message)
      requires Valid()
      modifies this
      ensures Valid() && returned == old(returned) + (if ok then [msg] else [])
      ensures old(cachedRx) != [] ==>
                ok && msg == old(cachedRx)[0] && Now() == old(Now()).(rx := old(cachedRx)[1..])
      ensures old(cachedRx) == [] ==>
                && Later(id, gapless, id, old(Now()), Now(), Result(ok, msg)) && SameAnswers(old(Now()))
                && (gapless ==> Returned(id, old(inputs), inputs, ok, msg))
    {
      hide Good, Later, Returned, Conserved, Kept;
      if |cachedRx| > 0 {
        ok, msg := true, cachedRx[0];
        GoodCaches(id, Now(), NONE, cachedRx[1..], heard);
        ConservedReturn(id, Now(), returned);
        cachedRx := cachedRx[1..];
        returned := returned + [msg];
      } else {
        ok, msg := ReadLine();
      }
    }

    /**
     writeAIData, for any sender: the message is given to the writer and becomes the answer for its
     pair, up to the zero of a retry or the request for a collection that expires meanwhile, if it is
     not broadcast, not empty, no acknowledgement, and no fragment unless it is too long to be one.
     */
    method WriteAIData(m: Message, ackCount: nat) returns (sent: bool, ghost count: nat)
      requires Valid()
      modifies this
      ensures Valid() && returned == old(returned)
      ensures Later(id, gapless, m.sender, old(Now()), Now(), NOTHING)
      ensures SameAnswers(Recall(old(Now()), m))
      ensures if m.receiver != 0xFF && |m.data| > 0 && m.data[0] != 0x80 && (m.data[0] != 0x91 || |m.data| > 35) then
                var now := Lookup(recentTx, m.sender, m.receiver);
                || (now.Some? && PadOf(m, now.value))
                || (m.sender == id && now == Some(Message(id, m.receiver, [0x92]))
                    && ExpiredSince(id, old(Memo()), Memo(), m.receiver))
              else SameAnswers(old(Now()))
      ensures |old(port)| < 4 && ackCount == 0 && !(IsLong(m) && old(useAckCache)) ==>
                sent && Now() == Wrote(Recall(old(Now()), m), OnWire(m), Queued)
      ensures 0 < count <= |Outgoing(m)| && (sent || ackCount == 0 ==> count == |Outgoing(m)|)
      ensures sent && ackCount > 0 ==> AckSeen(id, m, cachedRx, old(inputs), inputs)
      ensures !sent && ackCount > 0 ==> Repeated(old(log), log, Outgoing(m)[count - 1], if useAckCache then 1 else ackCount)
      ensures !sent && useAckCache ==> |Outgoing(m)| <= |ackCache| && ackCache[|ackCache| - |Outgoing(m)|..] == Outgoing(m)
      ensures QueuedOf(log) == QueuedOf(old(log)) + OnWire(m)[..count]
    {
      hide Good, Later, Kept, Conserved, QueuedOf, Fits, CountOf, AckSeen, Wrote, Written, Repeated, Lookup;
      ghost var g := Now();
      FitsQueued(id, m);
      sent, count := Write(m, ackCount, true, Queued, NONE);
      returned := old(returned);
      assert returned + [] == returned;
      StillConserved(id, gapless, m.sender, g, Now(), returned, []);
      RecallRequested(id, g, m);
      RecalledNow(id, g, m, Memo()) by { GoodRecorded(id, g, NONE); }
      StillRequested(id, MemoryOf(Recall(g, m)), Memo());
    }
  }

  /**
   From one handler to another: the bytes that `writer` puts on the line for a transferable
   message are read by `reader`, which returns that message, escaped if need be, exactly once,
   and nothing else. So it is whenever the writer had nothing to read and awaited nothing; and,
   if it awaited answers and read whatever came in meanwhile, whenever it got them without
   writing anything but the message.
   */
  method Transfer(writer: SerialAIBusHandler, reader: SerialAIBusHandler, m: Message, ackCount: nat)
    returns (sent: bool, received: seq<Message>)
    requires writer != reader && writer.Valid() && reader.Valid()
    requires reader.Now().st == IDLE && reader.port == [] && reader.gapless
    requires (m.receiver == reader.id || m.receiver == BROADCAST) && Transferable(m)
    modifies writer, reader
    ensures writer.Valid() && reader.Valid()
    ensures |old(writer.port)| < 4 && ackCount == 0 && !(IsLong(m) && old(writer.useAckCache)) ==>
              sent && received == [Escaped(m)]
    ensures old(writer.log) <= writer.log
    ensures (sent || ackCount == 0) && AllQueued(writer.log[|old(writer.log)|..]) ==>
              && received == [Escaped(m)] && reader.cachedRx == old(reader.cachedRx)
              && reader.port == [] && reader.Now().st == IDLE
  {
    hide Good, Later, Outs, CoreState, Wire, Transferable, QueuedOf, Fits, Kept, CountOf, Wrote, Escaped, Outgoing, Conserved, Requested;
    ghost var g, quiet := writer.Now(), |writer.port| < 4 && ackCount == 0 && !(IsLong(m) && writer.useAckCache);
    var n := |writer.written|;
    ghost var count;
    sent, count := writer.WriteAIData(m, ackCount);
    LaterLogs(writer.id, writer.gapless, m.sender, g, writer.Now(), NOTHING);
    ghost var clean := (sent || ackCount == 0) && AllQueued(writer.log[|g.log|..]);
    WrittenGrows(writer.id, g, writer.Now());
    if quiet {
      WroteQueued(g, Recall(g, m), OnWire(m));
    }
    if clean {
      assert OnWire(m)[..count] == OnWire(m);
      OnlyQueued(writer.id, g, writer.Now(), NONE, NONE, OnWire(m));
      assert (g.written + Wire(OnWire(m)))[n..] == Wire(OnWire(m));
    }
    PortFilled(reader.id, reader.Now(), reader.returned, writer.written[n..]);
    reader.port := writer.written[n..];
    received := reader.ReceiveAll(m, clean);
  }

  /**
   A plain message to this device that comes in while it waits for an answer on behalf of another
   device is acknowledged, and lost.
   */
  method LostAbroad(h: SerialAIBusHandler, m: Message, x: Message)
    requires Good(h.id, h.Now(), NONE) && h.gapless && h.inputs == [] && h.deframed == [] && h.heard == [] && h.cachedRx == []
    requires h.port == Frame(x) && Passable(x)
    requires Wants(h.id, x) && x.sender != h.id && !x.StartsWith(RESEND) && !x.IsFragment()
    requires !IsLong(m) && m.sender != h.id && h.id != BROADCAST
    modifies h
    ensures AnsweredOf(h.log) == multiset{x} && h.heard == [Heard(x, m.sender, false)]
    ensures DroppedOf(h.heard) == [x] && h.cachedRx == []
  {
    hide Good, Later, Kept, Returned, Frame;
    ghost var a := h.Now();
    LaterSelf(h.id, h.gapless, m.sender, a);
    assert |Frame(x)| == |x.data| + 4;
    var acknowledged;
    ghost var ok, msg;
    acknowledged, ok, msg := h.HearOne(m, NONE, h.Now());
    OneHeard(h.id, a, h.Now(), x, m.sender, ok, msg);
  }

  /**
   When a collection is given up, whatever was the answer for its sender before, that device's
   own resend request x is answered with the resend request that this device has sent to it.
   */
  method OverwrittenByExpiry(h: SerialAIBusHandler, x: Message)
    requires h.Valid() && !h.gapless && h.multiCache != [] && h.multiCache[0].sender == x.sender && x.sender != BROADCAST
    requires x.StartsWith(RESEND) && x.receiver == h.id
    modifies h
    ensures Lookup(h.recentTx, h.id, x.sender) == Some(ResendRequest(h.id, x.sender))
    ensures CountOf(h.log, Resend(x, ResendRequest(h.id, x.sender))) > CountOf(old(h.log), Resend(x, ResendRequest(h.id, x.sender)))
  {
    hide Good, Later, Kept, Conserved, Requested, CountOf, Lookup, ExpiredSince, QueuedOf, Written, Repeated, Wrote;
    ghost var request, a := ResendRequest(h.id, x.sender), h.Now();
    h.GiveUp(NONE);
    ghost var b := h.Now();
    LaterLogs(h.id, h.gapless, h.id, a, b, NOTHING);
    CountGrows(a.log, b.log, Resend(x, request));
    ghost var m, count := h.Respond(x, NONE);
    RequestStays(h.id, MemoryOf(b), h.Memo(), x.sender);
    WrittenCount(b.log, h.log, OnWire(m)[..count], Resend(x, m));
  }

  /**
   A long message is sent again as a whole: a resend request from its receiver is answered with
   all of its fragments, in order, up to the first that goes unanswered 50 times.
   */
  method ResentWhole(h: SerialAIBusHandler, m: Message, ackCount: nat, x: Message) returns (sent: bool, ghost count: nat)
    requires h.Valid() && h.gapless
    requires |m.data| > 35 && m.data[0] != 0x80 && m.sender == h.id && m.receiver != 0xFF
    requires x.sender == m.receiver && x.receiver == h.id && |x.data| > 0 && x.data[0] == 0x92
    modifies h
    ensures old(h.log) <= h.log && 0 < count <= |Fragments(m)|
    ensures Written(old(h.log), h.log, Fragments(m)[..count], Resend(x, m))
    ensures count < |Fragments(m)| ==> Repeated(old(h.log), h.log, Fragments(m)[count - 1], if h.useAckCache then 1 else 50)
  {
    hide Good, Later, Kept, Conserved, Requested, QueuedOf, Fits, Wrote, Written, Repeated, Lookup, ExpiredSince, AckSeen, Fragment;
    ghost var a := h.Now();
    ghost var c;
    sent, c := h.WriteAIData(m, ackCount);
    ghost var b := h.Now();
    LaterLogs(h.id, h.gapless, m.sender, a, b, NOTHING);
    NeverExpired(h.id, m.sender, a, b, x.sender);
    ghost var last;
    last, count := h.Respond(x, NONE);
    LaterLogs(h.id, h.gapless, h.id, b, h.Now(), NOTHING);
    NeverExpired(h.id, h.id, b, h.Now(), x.sender);
    FragmentsPassable(m);
    WrittenSince(a.log, b.log, h.log, Fragments(m)[..count], Resend(x, m));
    RepeatedSince(a.log, b.log, h.log, Fragments(m)[count - 1], if h.useAckCache then 1 else 50);
  }

  lemma NeverExpired(id: byte, w: byte, a: Snapshot, b: Snapshot, r: byte)
    requires Later(id, true, w, a, b, NOTHING)
    ensures !ExpiredSince(id, MemoryOf(a), MemoryOf(b), r)
  {
    hide ScanN, Listened, CoreState;
    assert forall i :: |a.inputs| <= i < |b.inputs| ==> b.inputs[i] == b.inputs[|a.inputs|..][i - |a.inputs|];
  }

  /**
   From the frame to its acknowledgement and back: one device writes a message, the device to
   which it is addressed reads it, and the bytes that this writes end the first one's wait.
   */
  method AnswerHeard(writer: SerialAIBusHandler, reader: SerialAIBusHandler, x: Message)
    returns (ok: bool, msg: Message, acknowledged: bool)
    requires writer != reader && writer.Valid() && reader.Valid()
    requires writer.Now().st == IDLE && reader.Now().st == IDLE
    requires !IsLong(x) && |x.data| > 0 && x.data[0] != 0x80 && x.data[0] != 0x92
    requires x.receiver == reader.id && x.sender != x.receiver
    modifies writer, reader
    ensures acknowledged && reader.Valid()
    ensures x.data[0] != 0x91 ==> ok && msg == Escaped(x)
  {
    hide Good, Later, Kept, Conserved, Requested, QueuedOf, Fits, Frame, Deframe, Checksum, Returned, Justified, Escaped, AckNext;
    var n, k := |writer.written|, |reader.written|;
    ghost var y, ack := Escaped(x), Message(x.receiver, x.sender, [0x80]);
    EscapedHead(x);
    LaterSelf(writer.id, writer.gapless, x.sender, writer.Now());
    FitsQueued(writer.id, x);
    writer.WriteFrame(x, Queued, NONE, writer.Now());
    WireOne(y);
    assert writer.written[n..] == Frame(y);
    PortFilled(reader.id, reader.Now(), reader.returned, writer.written[n..]);
    reader.port := writer.written[n..];
    EscapedPassable(x, x);
    DeframeAlone(y);
    ghost var g := reader.Now();
    assert Alone(g, reader.gapless, y);
    ok, msg := reader.ReadLine();
    FrameAdded(reader.id, g, reader.Now(), Wired(ack, Answer(y)));
    if x.data[0] != 0x91 {
      GotReturned(reader.id, g.inputs, reader.inputs, y, ok, msg);
    }
    PortChanged(writer.id, writer.Now(), reader.written[k..]);
    writer.port := reader.written[k..];
    assert writer.port == Frame(ack);
    DeframeAlone(ack);
    AckIsNext(writer.Now(), writer.gapless, x);
    LaterSelf(writer.id, writer.gapless, x.sender, writer.Now());
    ghost var heardOk, heard;
    acknowledged, heardOk, heard := writer.HearOne(x, NONE, writer.Now());
  }

  lemma EscapedHead(x: Message)
    requires !IsLong(x) && |x.data| > 0
    ensures Escaped(x).SamePair(x) && |Escaped(x).data| > 0 && Escaped(x).data[0] == x.data[0]
    ensures Outgoing(x) == [x]
  {
  }

  lemma DeframeAlone(x: Message)
    requires Passable(x)
    ensures |Frame(x)| >= 4 && Deframe(Frame(x)) == Scan([], [x])
  {
    hide Deframe;
    DeframeFirst(x, []);
    assert Frame(x) + [] == Frame(x);
  }

  lemma PortChanged(id: byte, g: Snapshot, port: seq<byte>)
    requires Good(id, g, NONE)
    ensures Good(id, g.(port := port), NONE)
  {
  }

  lemma FrameAdded(id: byte, a: Snapshot, b: Snapshot, w: Wired)
    requires Good(id, a, NONE) && Good(id, b, NONE) && b.log == a.log + [w]
    ensures b.written == a.written + Frame(w.msg)
  {
    hide Frame, Wire, WiredMsgs, CoreState, Legal, Msgs, AnsweredOf, WantedOf, Recorded, Passable, Justified;
    LogPush(a.log, w);
    WirePush(WiredMsgs(a.log), w.msg);
  }

  lemma AckIsNext(g: Snapshot, gapless: bool, x: Message)
    requires g.st.cache == [] && x.sender != x.receiver
    requires |g.port| >= 4 && Deframe(g.port) == Scan([], [Message(x.receiver, x.sender, [0x80])])
    ensures AckNext(g, gapless, x)
  {
    hide Deframe;
    assert Alone(g, gapless, Message(x.receiver, x.sender, [0x80]));
  }

  lemma OneHeard(id: byte, a: Snapshot, g: Snapshot, x: Message, w: byte, ok: bool, msg: Message)
    requires a.inputs == [] && a.deframed == [] && a.heard == [] && a.rx == [] && a.port == Frame(x) && Passable(x)
    requires Good(id, g, NONE) && Later(id, true, w, a, g, NOTHING) && |g.port| < |a.port|
    requires Wants(id, x) && !x.StartsWith(RESEND) && !x.IsFragment() && w != id && id != BROADCAST
    requires Returned(id, [], g.inputs, ok, msg) && (ok ==> g.heard != [] && g.heard[|g.heard| - 1] == Heard(msg, w, false))
    ensures AnsweredOf(g.log) == multiset{x} && g.heard == [Heard(x, w, false)]
    ensures DroppedOf(g.heard) == [x] && g.rx == []
  {
    hide Wire, ScanN, Frame, Passable, Justified, Outs, Legal, KeptOf, Voices, DroppedOf, AnsweredOf, WantedOf, CoreState, PutOut,
      Msgs, WiredMsgs, Recorded, NoExpiry, Wants, Keeps;
    OneFrame(x, g.steps - a.steps, g.port, g.deframed);
    assert g.inputs[|a.inputs|..] == g.inputs && News(a, g) == g.heard;
    OneInput(id, g.inputs, x);
    assert g.inputs[..|g.inputs| - 1] == [];
    assert ok && [msg] == [x] && [msg][0] == [x][0];
    assert multiset(Voices(g.heard)) == multiset{x};
    OneVoice(id, g.heard, x, w);
  }

  lemma OneFrame(x: Message, n: nat, rest: seq<byte>, got: seq<Message>)
    requires Passable(x) && ScanN(Frame(x), n) == Scan(rest, got) && |rest| < |Frame(x)|
    ensures got == [x]
  {
    hide ScanN, Frame, Passable;
    WireOne(x);
    ScanWire([x], n);
    ScanTrivial(Frame(x));
    if n == 1 {
      assert [x][..1] == [x];
    }
  }

  lemma {:induction false} OneVoice(id: byte, heard: seq<Heard>, x: Message, w: byte)
    requires multiset(Voices(heard)) == multiset{x} && heard != [] && heard[|heard| - 1] == Heard(x, w, false)
    requires Wants(id, x) && w != id && id != BROADCAST
    ensures heard == [Heard(x, w, false)] && DroppedOf(heard) == [x] && KeptOf(heard) == []
  {
    KeptOrDropped(heard);
    assert |Voices(heard)| == |multiset(Voices(heard))| == 1;
    assert heard == [] + [Heard(x, w, false)];
    HeardPush([], Heard(x, w, false));
    NothingHeard();
  }

  lemma NoInputsYet(id: byte)
    ensures CoreState(id, []) == IDLE && Outs(id, []) == [] && Msgs([]) == [] && WantedOf(id, []) == multiset{}
  {
  }

  lemma PlainOut(id: byte, st: Reassembly, x: Message)
    requires !x.StartsWith(RESEND) && !x.IsFragment()
    ensures PutOut(id, st, Got(x)) == [x]
  {
  }

  lemma OneInput(id: byte, inputs: seq<Input>, x: Message)
    requires Legal(id, inputs) && NoExpiry(inputs) && multiset(Msgs(inputs)) == multiset{x}
    requires Wants(id, x) && !x.StartsWith(RESEND) && !x.IsFragment()
    ensures inputs == [Got(x)] && Outs(id, inputs) == [x] && WantedOf(id, inputs) == multiset{x}
    ensures PutOut(id, CoreState(id, []), Got(x)) == [x] && Outs(id, []) == []
  {
    hide Legal, CoreState, Outs, Msgs, PutOut, WantedOf, Advance, Wants;
    MsgsCount(inputs);
    assert |Msgs(inputs)| == |multiset(Msgs(inputs))| == 1;
    var i := inputs[0];
    assert inputs == [] + [i] && i in inputs;
    NoInputsYet(id);
    InputsPush(id, [], i);
    WantedPush(id, [], i);
    assert Msgs(inputs) == [i.msg] && i.msg in multiset(Msgs(inputs));
    assert i == Got(x);
    PlainOut(id, IDLE, x);
  }

  lemma FitsQueued(id: byte, m: Message)
    ensures Fits(id, m, Queued)
  {
  }

  lemma PortFilled(id: byte, g: Snapshot, returned: seq<Message>, port: seq<byte>)
    requires Good(id, g, NONE) && Conserved(id, g, returned)
    ensures Good(id, g.(port := port), NONE) && Conserved(id, g.(port := port), returned)
  {
  }

  lemma StillConserved(id: byte, gapless: bool, w: byte, a: Snapshot, b: Snapshot, returned: seq<Message>, taken: seq<Message>)
    requires Conserved(id, a, returned) && Later(id, gapless, w, a, b, multiset(taken))
    ensures Conserved(id, b, returned + taken)
  {
    hide Conserved, Listened, ScanN;
    ConservedOn(id, w, a, b, returned, taken);
  }

  lemma StillRequested(id: byte, a: Memory, b: Memory)
    requires Requested(id, Memory([], [], []), a) && Kept(id, a, b)
    ensures Requested(id, Memory([], [], []), b)
  {
    hide Requested, AnswerKept;
    RequestedOn(id, Memory([], [], []), a, b);
  }

  lemma RecallRequested(id: byte, g: Snapshot, m: Message)
    requires Requested(id, Memory([], [], []), MemoryOf(g))
    ensures Requested(id, Memory([], [], []), MemoryOf(Recall(g, m)))
  {
    hide ExpiredAt, Remember;
    var h := Recall(g, m);
    forall i: nat, r: byte | ExpiredAt(id, h.inputs, i, r) && r != BROADCAST
      ensures SentAt(h.sends, 0, Send(ResendRequest(id, r), i + 1))
    {
      assert SentAt(g.sends, 0, Send(ResendRequest(id, r), i + 1));
      var j :| 0 <= j < |g.sends| && g.sends[j] == Send(ResendRequest(id, r), i + 1);
      assert h.sends[j] == g.sends[j];
    }
  }

  lemma RecalledNow(id: byte, g: Snapshot, m: Message, now: Memory)
    requires Recorded(g.recent, g.sends) && Kept(id, MemoryOf(Recall(g, m)), now)
    ensures if m.receiver != 0xFF && |m.data| > 0 && m.data[0] != 0x80 && (m.data[0] != 0x91 || |m.data| > 35) then
              var last := Lookup(now.recent, m.sender, m.receiver);
              || (last.Some? && PadOf(m, last.value))
              || (m.sender == id && last == Some(Message(id, m.receiver, [0x92])) && ExpiredSince(id, MemoryOf(g), now, m.receiver))
            else Kept(id, MemoryOf(g), now)
  {
    hide Lookup, Kept, ExpiredAt, Remember;
    RecalledExactly(g, m, m.sender, m.receiver);
    AnswerChanged(id, MemoryOf(Recall(g, m)), now, m.sender, m.receiver);
  }

  lemma KeptPrefix(id: byte, a: Memory, b: Memory)
    requires Kept(id, a, b)
    ensures a.inputs <= b.inputs && a.sends <= b.sends
  {
  }

  lemma WrittenGrows(id: byte, a: Snapshot, b: Snapshot)
    requires Good(id, a, NONE) && Good(id, b, NONE) && a.log <= b.log
    ensures a.written <= b.written
  {
    hide Wire, WiredMsgs, CoreState, Legal, Msgs, AnsweredOf, WantedOf, Recorded, Passable, Justified;
    assert b.log == a.log + b.log[|a.log|..];
    LogConcat(a.log, b.log[|a.log|..]);
    WireConcat(WiredMsgs(a.log), WiredMsgs(b.log[|a.log|..]));
  }

  lemma WroteQueued(g: Snapshot, h: Snapshot, ms: seq<Message>)
    requires h.log == g.log
    ensures var k := Wrote(h, ms, Queued);
            k.log == g.log + WiredAll(ms, Queued) && AllQueued(k.log[|g.log|..])
  {
  }

  /** What a handler is after writing these frames and nothing else. */
  function Wrote(g: Snapshot, ms: seq<Message>, kind: Kind): Snapshot {
    g.(written := g.written + Wire(ms), log := g.log + WiredAll(ms, kind))
  }

  lemma WroteNothing(g: Snapshot, ms: seq<Message>, kind: Kind)
    ensures Wrote(g, ms[..0], kind) == g
  {
    assert g.written + Wire(ms[..0]) == g.written && g.log + WiredAll(ms[..0], kind) == g.log;
  }

  lemma WroteMore(g: Snapshot, ms: seq<Message>, more: seq<Message>, kind: Kind)
    ensures Wrote(Wrote(g, ms, kind), more, kind) == Wrote(g, ms + more, kind)
  {
    hide Wire;
    WireConcat(ms, more);
    Associative(g.written, Wire(ms), Wire(more));
    assert WiredAll(ms + more, kind) == WiredAll(ms, kind) + WiredAll(more, kind);
    Associative(g.log, WiredAll(ms, kind), WiredAll(more, kind));
  }

  lemma FragmentForgotten(x: Message, g: Snapshot)
    requires x.IsFragment() && !IsLong(x)
    ensures Recall(g, x) == g
  {
  }

  /** What was read piece by piece is the frame at the front of the port. */
  lemma FrameRead(all: seq<byte>, s: byte, l: byte, r: byte, d: seq<byte>, rest: seq<byte>)
    requires |all| >= 4 && s == all[0] && l == all[1] && 2 <= l && |all[2..]| >= l
    requires r == all[2..][0] && d == all[2..][1..l] && rest == all[2..][l..]
    ensures [s, l, r] + d == all[..l + 2] && d == all[..l + 2][3..] && rest == all[l + 2..]
  {
    assert |d| == l - 1 && forall i :: 0 <= i < |d| ==> d[i] == all[3 + i];
  }

  lemma AckOnWire(sender: byte, receiver: byte)
    ensures OnWire(Message(sender, receiver, [0x80])) == [Message(sender, receiver, [0x80])]
    ensures !IsLong(Message(sender, receiver, [0x80]))
  {
  }

  /** The one frame that waits on the port holds x, which is no resend request; and no collection can expire. */
  predicate Alone(g: Snapshot, gapless: bool, x: Message) {
    && |g.port| >= 4 && (gapless || g.st.cache == [])
    && Deframe(g.port).got == [x] && |Deframe(g.port).rest| < 4
    && !(|x.data| > 0 && x.data[0] == 0x92)
  }

  lemma AloneIs(g: Snapshot, gapless: bool, rest: seq<byte>, got: seq<Message>)
    requires |g.port| >= 4 ==> Scan(rest, got) == Deframe(g.port)
    ensures forall x :: Alone(g, gapless, x) ==>
              |g.port| >= 4 && got == [x] && |rest| < 4 && (gapless || g.st.cache == []) && !(|x.data| > 0 && x.data[0] == 0x92)
    ensures forall x :: Alone(g, gapless, x) ==> got[0] == x
  {
  }

  /** It is the acknowledgement of m. */
  ghost predicate AckNext(g: Snapshot, gapless: bool, m: Message) {
    m.sender != m.receiver && exists x :: Alone(g, gapless, x) && Acks(x, m)
  }

  lemma AckAtHand(g: Snapshot, gapless: bool, m: Message)
    ensures AckNext(g, gapless, m) ==> |g.port| >= 4
  {
  }

  lemma GotReturned(id: byte, before: seq<Input>, after: seq<Input>, x: Message, ok: bool, msg: Message)
    requires Returned(id, before, after, ok, msg) && after == before + [Got(x)]
    requires !x.StartsWith(RESEND) && !x.IsFragment()
    ensures ok && msg == x
  {
    PlainOut(id, CoreState(id, before), x);
    assert after[..|after| - 1] == before;
    assert ok && [msg][0] == [x][0];
  }

  lemma AckReturned(id: byte, gapless: bool, a: Snapshot, b: Snapshot, m: Message, ok: bool, msg: Message)
    requires forall x :: Alone(a, gapless, x) ==> Handles(id, a, b, x)
    requires gapless || a.st.cache == [] ==> Returned(id, a.inputs, b.inputs, ok, msg)
    ensures AckNext(a, gapless, m) ==> ok && Acks(msg, m) && msg.sender != m.sender
  {
    hide Returned, Deframe;
    if AckNext(a, gapless, m) {
      var x :| Alone(a, gapless, x) && Acks(x, m);
      GotReturned(id, a.inputs, b.inputs, x, ok, msg);
    }
  }

  /** A fragment of another pair than the one that is being collected. */
  predicate OtherPair(st: Reassembly, x: Message) {
    && |x.data| >= 3 && x.data[0] == 0x91 && st.cache != []
    && (st.cache[0].sender != x.sender || st.cache[0].receiver != x.receiver)
  }

  /**
   What the read of x does to the record if nothing that waits behind it is read meanwhile: a fragment
   of another pair than the one being collected is ignored; anything else is handled, and
   acknowledged to its sender if it is for this device, not empty and no acknowledgement.
   */
  predicate Handles(id: byte, before: Snapshot, after: Snapshot, x: Message) {
    var foreign := OtherPair(before.st, x);
    && after.inputs == before.inputs + [if foreign then Ignored(x) else Got(x)]
    && after.log == before.log + if !foreign && x.receiver == id && |x.data| > 0 && x.data[0] != 0x80
                                 then [Wired(Message(x.receiver, x.sender, [0x80]), Answer(x))] else []
  }

  lemma NotAlone(g: Snapshot, gapless: bool)
    requires !gapless && g.st.cache != []
    ensures forall x :: !Alone(g, gapless, x)
  {
  }

  lemma HandlesSame(id: byte, a: Snapshot, b: Snapshot, c: Snapshot, x: Message)
    requires b.inputs == a.inputs && b.log == a.log && b.st == a.st
    ensures Handles(id, b, c, x) ==> Handles(id, a, c, x)
  {
  }

  lemma HandlesOther(id: byte, a: Snapshot, b: Snapshot, x: Message)
    requires OtherPair(a.st, x) && b.inputs == a.inputs + [Ignored(x)] && b.log == a.log
    ensures Handles(id, a, b, x)
  {
  }

  lemma HandlesOwn(id: byte, a: Snapshot, mid: Snapshot, b: Snapshot, x: Message)
    requires !OtherPair(a.st, x)
    requires mid == if x.receiver == id && |x.data| > 0 && x.data[0] != 0x80
                    then Wrote(a, [Message(x.receiver, x.sender, [0x80])], Answer(x)) else a
    requires b.inputs == mid.inputs + [Got(x)] && b.log == mid.log
    ensures Handles(id, a, b, x) && mid.port == a.port
  {
    assert a.log + [] == a.log;
    assert WiredAll([Message(x.receiver, x.sender, [0x80])], Answer(x)) == [Wired(Message(x.receiver, x.sender, [0x80]), Answer(x))];
  }

  /** The reads still out, once x has been acknowledged if it has to be. */
  function Answering(id: byte, x: Message, inflight: Flight): Flight {
    if Wants(id, x) then Landed(inflight, Answer(x)) else inflight
  }

  /** What has been put out since then. */
  function OutsSince(id: byte, before: seq<Input>, inputs: seq<Input>): seq<Message> {
    if |Outs(id, before)| <= |Outs(id, inputs)| then Outs(id, inputs)[|Outs(id, before)|..] else []
  }

  /** An acknowledgement of m lies in the cache, or has been put out since then. */
  predicate AckSeen(id: byte, m: Message, cachedRx: seq<Message>, before: seq<Input>, inputs: seq<Input>) {
    (exists x :: x in cachedRx && Acks(x, m)) || (exists x :: x in OutsSince(id, before, inputs) && Acks(x, m))
  }

  lemma SeenForPair(id: byte, part: Message, m: Message, cachedRx: seq<Message>, before: seq<Input>, inputs: seq<Input>)
    requires part.SamePair(m)
    ensures AckSeen(id, part, cachedRx, before, inputs) ==> AckSeen(id, m, cachedRx, before, inputs)
  {
    hide Outs;
  }

  /** Seen since a later moment is seen since an earlier one. */
  lemma SeenSince(id: byte, m: Message, cachedRx: seq<Message>, before: seq<Input>, mid: seq<Input>, inputs: seq<Input>)
    requires before <= mid <= inputs
    ensures AckSeen(id, m, cachedRx, mid, inputs) ==> AckSeen(id, m, cachedRx, before, inputs)
  {
    hide Outs;
    OutsGrow(id, before, mid);
    OutsGrow(id, mid, inputs);
    var a, b, c := Outs(id, before), Outs(id, mid), Outs(id, inputs);
    assert c[|a|..] == c[|a|..|b|] + c[|b|..];
  }

  lemma OutLater(id: byte, before: seq<Input>, mid: seq<Input>, inputs: seq<Input>, msg: Message)
    requires before <= mid <= inputs
    ensures msg in OutsSince(id, mid, inputs) ==> msg in OutsSince(id, before, inputs)
  {
    hide Outs;
    OutsGrow(id, before, mid);
    OutsGrow(id, mid, inputs);
    var a, b, c := Outs(id, before), Outs(id, mid), Outs(id, inputs);
    assert c[|a|..] == c[|a|..|b|] + c[|b|..];
  }

  lemma {:induction false} OutsGrow(id: byte, a: seq<Input>, b: seq<Input>)
    requires a <= b
    ensures Outs(id, a) <= Outs(id, b)
  {
    if a != b {
      assert a <= b[..|b| - 1];
      OutsGrow(id, a, b[..|b| - 1]);
    } else {
      assert a == b;
    }
  }

  lemma LaterLogs(id: byte, gapless: bool, w: byte, a: Snapshot, b: Snapshot, taken: multiset<Message>)
    requires Later(id, gapless, w, a, b, taken)
    ensures a.log <= b.log
  {
  }

  lemma LongHasParts(m: Message)
    requires IsLong(m)
    ensures |Fragments(m)| > 0
  {
  }

  lemma FitsLong(id: byte, m: Message, kind: Kind)
    requires Fits(id, m, kind) && IsLong(m)
    ensures !kind.Answer?
  {
  }

  lemma ReturnedOut(id: byte, before: seq<Input>, after: seq<Input>, ok: bool, msg: Message)
    requires Returned(id, before, after, ok, msg)
    ensures ok ==> msg in OutsSince(id, before, after)
  {
    if ok {
      var front, last := after[..|after| - 1], after[|after| - 1];
      assert after == front + [last];
      InputsPush(id, front, last);
      OutsGrow(id, before, front);
      assert OutsSince(id, before, after)[|OutsSince(id, before, after)| - 1] == msg;
    }
  }

  /** A read returns exactly what the reassembler puts out for the last input, which is its own message. */
  predicate Returned(id: byte, before: seq<Input>, after: seq<Input>, ok: bool, msg: Message) {
    && before <= after
    && (ok ==> before < after)
    && (before < after ==>
          var front, last := after[..|after| - 1], after[|after| - 1];
          PutOut(id, CoreState(id, front), last) == if ok then [msg] else [])
  }

  lemma OwnInput(id: byte, g: Snapshot, inflight: Flight, i: Input, before: seq<Input>, ok: bool, msg: Message)
    requires Good(id, g, inflight) && before <= g.inputs
    requires PutOut(id, g.st, i) == if ok then [msg] else []
    ensures Returned(id, before, g.inputs + [i], ok, msg)
  {
    assert (g.inputs + [i])[..|g.inputs|] == g.inputs;
  }

  lemma ReturnedNothing(id: byte, inputs: seq<Input>, msg: Message)
    ensures Returned(id, inputs, inputs, false, msg)
  {
  }

  /** The reader's loops over the fragment cache: for each index the last fragment that carries it. */
  method AssembleGroup(cache: seq<Message>, total: nat, x: Message) returns (bytes: seq<byte>)
    ensures bytes == AssembleLast(cache, total, total, x)
  {
    bytes := [];
    for m := 0 to total
      invariant bytes == AssembleLast(cache, total, m, x)
    {
      var part: seq<byte> := [];
      for t := 0 to |cache|
        invariant part == CollectLast(cache[..t], total, m, x)
      {
        var test := cache[t];
        assert cache[..t + 1][..t] == cache[..t];
        if |test.data| < 3 || test.data[0] != MULTI || test.data[1] != total {
          continue;
        }
        if test.data[2] != m {
          continue;
        }
        if test.sender != x.sender || test.receiver != x.receiver {
          continue;
        }
        part := test.data[3..];
      }
      assert cache[..|cache|] == cache;
      bytes := bytes + part;
    }
  }

  lemma EscapedNext(group: seq<Message>, i: nat)
    requires i < |group|
    ensures EscapedAll([group[i]]) == [Escaped(group[i])]
    ensures EscapedAll(group)[..i + 1] == EscapedAll(group)[..i] + [Escaped(group[i])]
  {
  }

  // ---------- the progress of a transfer ----------

  /** k of the messages on the wire have been read since a; the reassembler has put out m only if that is all. */
  predicate Underway(id: byte, a: Snapshot, g: Snapshot, m: Message, k: nat) {
    && k <= |OnWire(m)|
    && g.port == Wire(OnWire(m)[k..])
    && a.inputs <= g.inputs && |g.inputs| == |a.inputs| + k
    && Outs(id, g.inputs) == Outs(id, a.inputs) + (if k < |OnWire(m)| then [] else [Escaped(m)])
    && (k == |OnWire(m)| ==> CoreState(id, g.inputs) == IDLE)
  }

  lemma TransferStart(id: byte, a: Snapshot, m: Message)
    requires a.port == Wire(OnWire(m))
    ensures Underway(id, a, a, m, 0) && |OnWire(m)| > 0
  {
    hide Wire, Outs;
    assert OnWire(m)[0..] == OnWire(m);
  }

  /** One read takes at least one more message off the wire, and returns m exactly if it was the last. */
  lemma TransferRead(id: byte, a: Snapshot, g: Snapshot, h: Snapshot, m: Message, k: nat,
                     n: multiset<Message>, ok: bool, msg: Message)
    returns (next: nat)
    requires Good(id, a, NONE) && a.st == IDLE && a.port == Wire(OnWire(m))
    requires Transferable(m) && (m.receiver == id || m.receiver == BROADCAST)
    requires Underway(id, a, g, m, k)
    requires Good(id, h, NONE) && Later(id, true, id, a, h, n)
    requires Returned(id, g.inputs, h.inputs, ok, msg) && |h.port| < |g.port|
    ensures k < next && Underway(id, a, h, m, next)
    ensures ok <==> next == |OnWire(m)|
    ensures ok ==> msg == Escaped(m)
  {
    hide Wire, Outs, CoreState, Legal, Msgs, Transferable, OnWire, PutOut, Good, Later, NoExpiry;
    var more;
    next, more := WireProgress(id, a, h, m, n);
    WireShrinks(OnWire(m), k, next);
    MsgsCount(more);
    assert |multiset(Msgs(more))| == |Msgs(more)|;
    TransferInputs(id, a.inputs, more, m, next);
    assert h.inputs[..|h.inputs| - 1] == a.inputs + more[..|more| - 1];
    if ok {
      assert [msg] == [msg];
    }
  }

  lemma WireProgress(id: byte, a: Snapshot, h: Snapshot, m: Message, n: multiset<Message>) returns (k: nat, more: seq<Input>)
    requires Good(id, a, NONE) && a.st == IDLE && a.port == Wire(OnWire(m))
    requires Good(id, h, NONE) && Later(id, true, id, a, h, n)
    ensures k <= |OnWire(m)| && h.port == Wire(OnWire(m)[k..])
    ensures h.inputs == a.inputs + more && NoExpiry(more)
    ensures multiset(Msgs(more)) == multiset(OnWire(m)[..k])
    ensures CoreState(id, a.inputs) == IDLE && Legal(id, h.inputs)
  {
    hide Wire, Outs, CoreState, Legal, Msgs, OnWire, NoExpiry, Passable, WiredMsgs, Recorded, ScanN, Listened, Justified,
      AnsweredOf, WantedOf;
    var w := OnWire(m);
    OnWirePassable(m);
    ScanWire(w, h.steps - a.steps);
    k := if h.steps - a.steps <= |w| then h.steps - a.steps else |w|;
    NothingLeft(w);
    more := h.inputs[|a.inputs|..];
    assert h.deframed == a.deframed + w[..k];
    MsgsConcat(a.inputs, more);
    assert h.inputs == a.inputs + more;
    assert multiset(Msgs(h.inputs)) == multiset(Msgs(a.inputs)) + multiset(Msgs(more));
    assert multiset(h.deframed) == multiset(a.deframed) + multiset(w[..k]);
    assert multiset(a.deframed) + multiset(Msgs(more)) == multiset(a.deframed) + multiset(w[..k]);
    MultisetCancel(multiset(a.deframed), multiset(Msgs(more)), multiset(w[..k]));
  }

  lemma NothingLeft(w: seq<Message>)
    ensures Wire(w[|w|..]) == [] && w[..|w|] == w
  {
  }

  lemma MultisetCancel<T>(a: multiset<T>, b: multiset<T>, c: multiset<T>)
    requires a + b == a + c
    ensures b == c
  {
    assert b == (a + b) - a;
    assert c == (a + c) - a;
  }

  lemma OnWirePassable(m: Message)
    ensures forall x :: x in OnWire(m) ==> Passable(x)
  {
    forall x | x in OnWire(m)
      ensures Passable(x)
    {
      var k :| 0 <= k < |Outgoing(m)| && x == Escaped(Outgoing(m)[k]);
      EscapedPassable(m, Outgoing(m)[k]);
    }
  }

  lemma {:induction false} MsgsConcat(a: seq<Input>, b: seq<Input>)
    ensures Msgs(a + b) == Msgs(a) + Msgs(b)
  {
    if b == [] {
      assert a + b == a;
    } else {
      assert (a + b)[..|a + b| - 1] == a + b[..|b| - 1];
      MsgsConcat(a, b[..|b| - 1]);
    }
  }

  /** The fewer bytes are left, the more messages have been taken. */
  lemma WireShrinks(w: seq<Message>, k: nat, next: nat)
    requires k <= |w| && next <= |w| && |Wire(w[next..])| < |Wire(w[k..])|
    ensures k < next
  {
    if next <= k {
      WireLonger(w, next, k);
    }
  }

  lemma {:induction false} WireLonger(w: seq<Message>, i: nat, k: nat)
    requires i <= k <= |w|
    ensures |Wire(w[i..])| >= |Wire(w[k..])|
    decreases k - i
  {
    if i < k {
      assert w[i..][1..] == w[i + 1..];
      WireLonger(w, i + 1, k);
    }
  }

  lemma TransferEnd(id: byte, a: Snapshot, h: Snapshot, m: Message, k: nat, n: multiset<Message>)
    requires Underway(id, a, h, m, k) && Later(id, true, id, a, h, n) && Good(id, h, NONE)
    requires |h.port| < 4 && n == (if k < |OnWire(m)| then NOTHING else multiset{Escaped(m)})
    ensures k == |OnWire(m)| && h.port == [] && h.st == IDLE && h.rx == a.rx
  {
    hide Outs, CoreState, OnWire, ScanN, Legal, Msgs, WiredMsgs, Passable, Recorded, Wire;
    WireShort(OnWire(m), k);
    NothingLeft(OnWire(m));
    NoneCached(id, a, h, Escaped(m));
  }

  /** What has been put out has been returned, so nothing was cached. */
  lemma NoneCached(id: byte, a: Snapshot, h: Snapshot, x: Message)
    requires Later(id, true, id, a, h, multiset{x}) && Outs(id, h.inputs) == Outs(id, a.inputs) + [x]
    ensures h.rx == a.rx
  {
    hide Outs, ScanN, KeptOf, Voices;
    assert multiset(Outs(id, h.inputs)) == multiset(Outs(id, a.inputs)) + multiset{x};
    KeptOrDropped(News(a, h));
    MultisetCancel(multiset(Outs(id, a.inputs)) + multiset{x}, multiset(Voices(News(a, h))), multiset{});
    assert |multiset(Voices(News(a, h)))| == |Voices(News(a, h))| == |News(a, h)|;
    NothingHeard();
    assert a.rx + [] == a.rx;
  }

  lemma WireShort(w: seq<Message>, k: nat)
    requires k <= |w| && |Wire(w[k..])| < 4
    ensures k == |w|
  {
    WireUnfold(w[k..]);
  }
}
