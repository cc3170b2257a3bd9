/**
 The Rust client's handler (ipc.rs `ClientAIBusHandler`): reading, writing with bounded
 waiting for acknowledgements, and the retry cache. The socket is a list of what its reads
 return; the clock is a nondeterministic boolean wherever the source compares instants.
 */
module ClientHandler {
  import opened Bytes
  import opened AIBus
  import opened ClientProtocol
  import opened Envelope
  import opened Fragmentation
  import opened ResendCache
  import opened RetryCache
  import opened Seqs
  import opened Unanswered

  function OutgoingAll(ms: seq<Message>): seq<Message> {
    if ms == [] then [] else OutgoingAll(ms[..|ms| - 1]) + Outgoing(ms[|ms| - 1])
  }

  /** After write_stream has sent a long message last, what is remembered for its pair is its last fragment alone. */
  lemma LongRemembered(recent: seq<Message>, queue: seq<Message>, m: Message)
    requires OnePerPair(recent) && IsLong(m)
    ensures Lookup(RememberAll(recent, OutgoingAll(queue + [m])), m.sender, m.receiver) == Some(Fragment(m, Total(m) - 1))
  {
    hide RememberAll, Lookup, Fragment;
    var sends := OutgoingAll(queue + [m]);
    LastOut(queue, m);
    FragmentShape(m, Total(m) - 1);
    RememberAllLookup(recent, sends, m.sender, m.receiver);
  }

  lemma LastOut(queue: seq<Message>, m: Message)
    requires IsLong(m)
    ensures var sends := OutgoingAll(queue + [m]); sends != [] && sends[|sends| - 1] == Fragment(m, Total(m) - 1)
  {
    hide Fragment;
    assert (queue + [m])[..|queue|] == queue;
    assert OutgoingAll(queue + [m]) == OutgoingAll(queue) + Fragments(m);
  }

  /** So that a resend request from its receiver is answered with that fragment. */
  lemma LongResent(st: State, sends: seq<Message>, queue: seq<Message>, m: Message, x: Message)
    requires IsLong(m) && m.sender == 0x8E && x.sender == m.receiver && x.receiver == 0x8E && |x.data| > 0 && x.data[0] == 0x92
    ensures Step(st, RememberAll([], sends + OutgoingAll(queue + [m])), Arrival(x, false)) ==
            st.(trace := st.trace + [Acked(x), Resent(Fragment(m, Total(m) - 1))])
  {
    hide RememberAll, Lookup, Fragment, Step, OutgoingAll;
    var all, last := sends + OutgoingAll(queue + [m]), Fragment(m, Total(m) - 1);
    LastOut(queue, m);
    FragmentShape(m, Total(m) - 1);
    assert all[|all| - 1] == last;
    ResendAnswered(st, all, x);
    assert st.trace + [Acked(x)] + [Resent(last)] == st.trace + [Acked(x), Resent(last)];
  }

  lemma RunNone(st: State, recent: seq<Message>)
    ensures Run(st, recent, []) == st && RunPushes(st, recent, []) == []
  {
  }

  lemma RunNext(st: State, recent: seq<Message>, arrivals: seq<Arrival>, a: Arrival)
    ensures Run(st, recent, arrivals + [a]) == Step(Run(st, recent, arrivals), recent, a)
    ensures RunPushes(st, recent, arrivals + [a]) ==
            RunPushes(st, recent, arrivals) + Pushes(Expire(Run(st, recent, arrivals), a.late), a.msg)
    ensures Messages(arrivals + [a]) == Messages(arrivals) + [a.msg]
  {
    assert (arrivals + [a])[..|arrivals|] == arrivals;
  }

  lemma QuietWait(trace: seq<Event>, sent: Message)
    ensures OnlyWaited(trace, trace, sent, 0)
  {
  }

  lemma WaitMore(a: seq<Event>, b: seq<Event>, c: seq<Event>, sent: Message, n: nat)
    requires OnlyWaited(a, b, sent, n) && OnlyWaited(b, c, sent, 0)
    ensures OnlyWaited(a, c, sent, n)
  {
    hide Project, Retries;
    RetriedOnlyOn(a, b, c, [sent], [sent]);
  }

  lemma WaitAtMost(a: seq<Event>, b: seq<Event>, sent: Message, n: nat, limit: nat)
    requires OnlyWaited(a, b, sent, n) && n <= limit
    ensures OnlyWaited(a, b, sent, limit)
  {
  }

  lemma NothingHeard(sent: Message)
    ensures !Answered([], sent) && Filter([], TakenWhileWaiting) == []
  {
  }

  lemma HeardMore(heard: seq<Read>, pass: Read, sent: Message)
    ensures Filter(Heard(heard + [pass]), TakenWhileWaiting) ==
            Filter(Heard(heard), TakenWhileWaiting) + Filter(Parse(pass.bytes), TakenWhileWaiting)
    ensures Answered(Heard(heard + [pass]), sent) <==>
            Answered(Heard(heard), sent) || Answered(Parse(pass.bytes), sent)
  {
    hide Filter, Parse;
    assert (heard + [pass])[..|heard|] == heard;
    FilterConcat(Heard(heard), Parse(pass.bytes), TakenWhileWaiting);
    assert forall x :: x in Heard(heard + [pass]) <==> x in Heard(heard) || x in Parse(pass.bytes);
  }

  lemma AnsweredPush(heard: seq<Message>, x: Message, sent: Message)
    ensures Answered(heard + [x], sent) <==> Answered(heard, sent) || Acknowledges(x, sent)
  {
    assert x in heard + [x];
    assert forall y :: y in heard ==> y in heard + [x];
  }

  lemma WaitedChanges(before: seq<Event>, after: seq<Event>, sent: Message, n: nat)
    requires OnlyWaited(before, after, sent, n)
    ensures Received(after) == Received(before) && Project(after, IsSent) == Project(before, IsSent)
    ensures Retries(before) <= Retries(after) <= Retries(before) + n && RetriedOnly(before, after, [sent])
  {
  }

  lemma SentKeepsLaw(trace: seq<Event>, held: seq<Message>, m: Message)
    requires AckLaw(trace, held)
    ensures AckLaw(trace + [Sent(m)], held)
    ensures Received(trace + [Sent(m)]) == Received(trace)
    ensures Project(trace + [Sent(m)], IsSent) == Project(trace, IsSent) + [m]
    ensures Project(trace + [Sent(m)], IsAck) == Project(trace, IsAck)
  {
    LawSkips(trace, held, Sent(m));
    ReceivedPush(trace, Sent(m));
    ProjectPush(trace, Sent(m), IsSent);
    ProjectPush(trace, Sent(m), IsAck);
  }

  lemma RetriesPush(trace: seq<Event>, e: Event)
    ensures Retries(trace + [e]) == Retries(trace) + if IsRetry(e) then 1 else 0
  {
    assert (trace + [e])[..|trace|] == trace;
  }

  lemma RetryKeepsLaw(before: seq<Event>, after: seq<Event>, held: seq<Message>, m: Message, n: nat, e: Event)
    requires AckLaw(after, held) && OnlyWaited(before, after, m, n) && (e == Retried(m) || e == Bare(m))
    ensures AckLaw(after + [e], held) && OnlyWaited(before, after + [e], m, n + 1)
  {
    LawSkips(after, held, e);
    WaitPush(before, after, m, n, e);
  }

  lemma NothingRetried(trace: seq<Event>, ms: seq<Message>)
    ensures RetriedOnly(trace, trace, ms)
  {
  }

  lemma SentNotRetried(before: seq<Event>, after: seq<Event>, ms: seq<Message>, m: Message)
    requires RetriedOnly(before, after, ms)
    ensures RetriedOnly(before, after + [Sent(m)], ms)
  {
  }

  /** The nested loops that put the cached fragments together, index by index. */
  method AssembleCache(cache: seq<Message>, total: int, x: Message) returns (fullData: seq<byte>)
    requires total >= 0
    ensures fullData == AssembleEvery(cache, total, total, x)
  {
    hide CollectEvery;
    fullData := [];
    for m := 0 to total
      invariant fullData == AssembleEvery(cache, total, m, x)
    {
      ghost var done := fullData;
      CollectNone(cache, total, m, x);
      for t := 0 to |cache|
        invariant fullData == done + CollectEvery(cache[..t], total, m, x)
      {
        var test := cache[t];
        CollectNext(cache, total, m, x, t, done);
        if |test.data| < 3 || test.data[0] != MULTI || test.data[1] != total {
          continue;
        }
        if test.data[2] != m {
          continue;
        }
        if test.sender != x.sender || test.receiver != x.receiver {
          continue;
        }
        fullData := AppendFrom(fullData, test.data);
      }
      assert cache[..|cache|] == cache;
    }
  }

  lemma CollectNone(cache: seq<Message>, total: int, m: int, x: Message)
    ensures CollectEvery(cache[..0], total, m, x) == []
  {
  }

  lemma CollectNext(cache: seq<Message>, total: int, m: int, x: Message, t: nat, done: seq<byte>)
    requires t < |cache|
    ensures done + CollectEvery(cache[..t + 1], total, m, x) ==
            if Matches(cache[t], total, m, x) then done + CollectEvery(cache[..t], total, m, x) + cache[t].data[3..]
            else done + CollectEvery(cache[..t], total, m, x)
  {
    assert cache[..t + 1][..t] == cache[..t];
    var before := CollectEvery(cache[..t], total, m, x);
    assert before + [] == before;
    if Matches(cache[t], total, m, x) {
      Associative(done, before, cache[t].data[3..]);
    }
  }

  /** The payload behind the fragment header, pushed byte by byte. */
  method AppendFrom(fullData: seq<byte>, data: seq<byte>) returns (all: seq<byte>)
    requires |data| >= 3
    ensures all == fullData + data[3..]
  {
    all := fullData;
    var i := 3;
    while i < |data|
      invariant 3 <= i <= |data|
      invariant all == fullData + data[3..i]
    {
      all := all + [data[i]];
      i := i + 1;
    }
    assert data[3..|data|] == data[3..];
  }

  /** aibus_handler.rs: the queues shared with the rest of the program. */
  class AIBusHandler {
    var aiRx: seq<Message>
    var aiTx: seq<Message>

    constructor ()
      ensures aiRx == [] && aiTx == []
    {
      aiRx, aiTx := [], [];
    }
  }

  class ClientAIBusHandler {
    const aibus: AIBusHandler

    var incoming: seq<Read>
    var multiCache: seq<Message>
    var multiExpectedLen: int
    var recentTx: seq<Message>
    var useAckCache: bool
    var autoAckCacheOff: bool
    var ackCache: seq<Pending>
    var processActive: bool

    /** The bytes written to the socket. */
    var written: seq<byte>

    /** Everything written and pushed so far. */
    ghost var trace: seq<Event>
    /** The messages ever put into the retry cache are numbered; ids[i] is the number of ackCache[i]. */
    ghost var ids: seq<nat>
    /** How many rounds of the retry loop each of them has had. */
    ghost var book: seq<Pending>
    /** Every message ever sent. */
    ghost var sends: seq<Message>

    ghost function View(): State
      reads this`multiCache, this`multiExpectedLen, this`trace
    {
      State(multiCache, multiExpectedLen, trace)
    }

    /** The trace tells exactly what has been written. */
    ghost predicate Linked()
      reads this`trace, this`written
    {
      written == BytesOf(trace)
    }

    /** So it does, and what was acknowledged has been delivered but for the messages in `held`. */
    ghost predicate Law(held: seq<Message>)
      reads this`trace, this`written
    {
      Linked() && AckLaw(trace, held)
    }

    /** The reassembler is consistent and everything acknowledged has been delivered. */
    ghost predicate ReceiverValid()
      reads this`multiCache, this`multiExpectedLen, this`trace, this`written
    {
      View().Consistent() && Law([])
    }

    /** What is remembered is what was last sent. */
    ghost predicate SenderValid()
      reads this`recentTx, this`sends
    {
      recentTx == RememberAll([], sends)
    }

    ghost predicate RetryValid()
      reads this`ackCache, this`ids, this`book
    {
      RetryBound(ackCache, ids, book)
    }

    ghost predicate Valid()
      reads this
    {
      ReceiverValid() && SenderValid() && RetryValid()
    }

    constructor (handler: AIBusHandler)
      ensures Valid() && aibus == handler && trace == [] && ackCache == [] && sends == [] && View().Idle()
    {
      aibus := handler;
      incoming, multiCache, multiExpectedLen, recentTx := [], [], -1, [];
      useAckCache, autoAckCacheOff, ackCache, processActive := false, false, [], false;
      trace, written, ids, book, sends := [], [], [], [], [];
    }

    // ---------- read_stream ----------

    /**
     One read of the socket. When the handler is active the messages in the buffer run
     through the protocol of ClientProtocol.Run, at whatever times the clock says.
     */
    method ReadStream() returns (ghost arrivals: seq<Arrival>)
      requires ReceiverValid() && SenderValid()
      modifies this`incoming, this`multiCache, this`multiExpectedLen, this`trace, this`written, aibus`aiRx
      ensures ReceiverValid()
      ensures incoming == if old(incoming) == [] then [] else old(incoming)[1..]
      ensures Messages(arrivals) == if old(incoming) != [] && processActive then Parse(old(incoming)[0].bytes) else []
      ensures View() == Run(old(View()), recentTx, arrivals)
      ensures aibus.aiRx == old(aibus.aiRx) + RunPushes(old(View()), recentTx, arrivals)
    {
      arrivals := [];
      if |incoming| == 0 {
        return;
      }
      var bytes := incoming[0].bytes;
      incoming := incoming[1..];
      var messages := GetAIBusMessages(bytes);
      if !processActive {
        return;
      }
      arrivals := ReceiveAll(messages);
      RunConsistent(old(View()), recentTx, arrivals);
      RunAckLaw(old(View()), recentTx, arrivals);
    }

    method ReceiveAll(messages: seq<Message>) returns (ghost arrivals: seq<Arrival>)
      requires Linked() && SenderValid()
      modifies this`multiCache, this`multiExpectedLen, this`trace, this`written, aibus`aiRx
      ensures Linked() && Messages(arrivals) == messages
      ensures View() == Run(old(View()), recentTx, arrivals)
      ensures aibus.aiRx == old(aibus.aiRx) + RunPushes(old(View()), recentTx, arrivals)
    {
      arrivals := [];
      RunNone(View(), recentTx);
      hide Run, RunPushes, Step, Pushes, Expire, BytesOf;
      for i := 0 to |messages|
        invariant Linked() && Messages(arrivals) == messages[..i]
        invariant View() == Run(old(View()), recentTx, arrivals)
        invariant aibus.aiRx == old(aibus.aiRx) + RunPushes(old(View()), recentTx, arrivals)
      {
        var late: bool := *;
        ghost var a := Arrival(messages[i], late);
        ReceiveOne(messages[i], late);
        RunNext(old(View()), recentTx, arrivals, a);
        arrivals := arrivals + [a];
      }
    }

    /**
     The body of the read loop for one message. A resend request to this device is answered with
     an acknowledgement and the message last sent to the device that asks.
     */
    method ReceiveOne(x: Message, late: bool)
      requires Linked() && SenderValid()
      modifies this`multiCache, this`multiExpectedLen, this`trace, this`written, aibus`aiRx
      ensures Linked() && View() == Step(old(View()), recentTx, Arrival(x, late))
      ensures aibus.aiRx == old(aibus.aiRx) + Pushes(Expire(old(View()), late), x)
      ensures x.receiver == 0x8E && |x.data| > 0 && x.data[0] == 0x92 ==>
                && aibus.aiRx == old(aibus.aiRx)
                && written == old(written) + Wrap(0x18, Frame(Message(0x8E, x.sender, [0x80])))
                              + match LastSent(sends, 0x8E, x.sender)
                                case Some(m) => Wrap(0x18, Frame(m))
                                case None => []
      ensures x.receiver == 0x8E && |x.data| > 0 && x.data[0] !in {0x80, 0x91, 0x92} ==>
                && aibus.aiRx == old(aibus.aiRx) + [x]
                && written == old(written) + Wrap(0x18, Frame(Message(0x8E, x.sender, [0x80])))
      ensures x.receiver !in {0x8E, 0xFF} ==> aibus.aiRx == old(aibus.aiRx) && written == old(written)
    {
      hide BytesOf, Wrap, Frame, AssembleEvery, LastSent, RememberAll, Take, Completed;
      assert aibus.aiRx + [] == aibus.aiRx;
      if multiExpectedLen > 0 && |multiCache| > 0 && late {
        multiExpectedLen := -1;
        multiCache := [];
      }
      if x.receiver != BROADCAST && x.receiver != ME {
        return;
      }
      if |x.data| >= 3 && x.data[0] == MULTI && |multiCache| > 0
         && (multiCache[0].sender != x.sender || multiCache[0].receiver != x.receiver) {
        return;
      }
      TakeOne(x);
    }

    /** The rest of the body, for a message that is not skipped. */
    method TakeOne(x: Message)
      requires Linked() && SenderValid() && Addressed(x) && !Foreign(multiCache, x)
      modifies this`multiCache, this`multiExpectedLen, this`trace, this`written, aibus`aiRx
      ensures Linked() && View() == Take(old(View()), recentTx, x)
      ensures aibus.aiRx == old(aibus.aiRx) + Pushes(old(View()), x)
      ensures x.receiver == 0x8E && |x.data| > 0 && x.data[0] == 0x92 ==>
                && aibus.aiRx == old(aibus.aiRx)
                && written == old(written) + Wrap(0x18, Frame(Message(0x8E, x.sender, [0x80])))
                              + match LastSent(sends, 0x8E, x.sender)
                                case Some(m) => Wrap(0x18, Frame(m))
                                case None => []
      ensures x.receiver == 0x8E && |x.data| > 0 && x.data[0] !in {0x80, 0x91, 0x92} ==>
                && aibus.aiRx == old(aibus.aiRx) + [x]
                && written == old(written) + Wrap(0x18, Frame(Message(0x8E, x.sender, [0x80])))
    {
      hide BytesOf, Wrap, Frame, AssembleEvery, LastSent, RememberAll, Lookup, AckEvents, ResendEvents, Collect;
      assert aibus.aiRx + [] == aibus.aiRx;
      Acknowledge(x);
      if |x.data| >= 1 && x.data[0] == RESEND {
        SendAgain(x);
      } else if |x.data| >= 3 && x.data[0] == MULTI {
        CollectFragment(x);
      } else {
        BytesPush(trace, Delivered(x));
        trace := trace + [Delivered(x)];
        aibus.aiRx := aibus.aiRx + [x];
      }
    }

    /** A non-empty message to this device that is no acknowledgement is acknowledged. */
    method Acknowledge(x: Message)
      requires Linked()
      modifies this`trace, this`written
      ensures Linked() && trace == old(trace) + AckEvents(x)
      ensures written == old(written) + if x.receiver == 0x8E && |x.data| > 0 && x.data[0] != 0x80
                                        then Wrap(0x18, Frame(Message(0x8E, x.sender, [0x80]))) else []
    {
      hide BytesOf, Wrap, Frame;
      assert trace + [] == trace && written + [] == written;
      if x.receiver == ME && |x.data| > 0 && x.data[0] != ACK {
        Emit(Message(ME, x.sender, [ACK]), Acked(x));
      }
    }

    /** A resend request is answered with the message last sent from the device asked to the one that asks. */
    method SendAgain(x: Message)
      requires Linked() && SenderValid()
      modifies this`trace, this`written
      ensures Linked() && trace == old(trace) + ResendEvents(recentTx, x)
      ensures written == old(written) + match LastSent(sends, x.receiver, x.sender)
                                        case Some(m) => Wrap(0x18, Frame(m))
                                        case None => []
    {
      hide BytesOf, Wrap, Frame, Lookup, LastSent, RememberAll;
      CacheIsLastSent(sends, x.receiver, x.sender);
      var last := FindRecent(recentTx, x.receiver, x.sender);
      assert trace + [] == trace && written + [] == written;
      if last.Some? {
        Emit(last.value, Resent(last.value));
      }
    }

    method CollectFragment(x: Message)
      requires x.IsFragment() && Linked()
      modifies this`multiCache, this`multiExpectedLen, this`trace, this`written, aibus`aiRx
      ensures Linked() && written == old(written) && View() == Collect(old(View()), x)
      ensures aibus.aiRx == old(aibus.aiRx) + Completed(old(View()), x)
    {
      hide BytesOf, AssembleEvery;
      if multiExpectedLen <= 0 {
        multiExpectedLen := x.data[1];
      }
      multiCache := multiCache + [x];
      if |multiCache| >= multiExpectedLen {
        var fullData := AssembleCache(multiCache, multiExpectedLen, x);
        var full := Message(x.sender, x.receiver, fullData);
        BytesPush(trace, Assembled(full));
        trace := trace + [Assembled(full)];
        aibus.aiRx := aibus.aiRx + [full];
        multiCache := [];
        multiExpectedLen := -1;
      }
    }

    /** A message in its envelope goes out over the socket. */
    method Emit(m: Message, ghost e: Event)
      requires Linked() && EventBytes(e) == Enveloped(m)
      modifies this`trace, this`written
      ensures Linked() && trace == old(trace) + [e]
      ensures written == old(written) + Wrap(0x18, Frame(m))
    {
      hide BytesOf, EventBytes;
      BytesPush(trace, e);
      var bytes := GetFullBytes(m);
      written := written + bytes;
      trace := trace + [e];
    }

    // ---------- await_acknowledgment ----------

    function Limit(): nat
      reads this`useAckCache
    {
      if useAckCache then 2 else 20
    }

    /**
     Waits for the acknowledgement of `sent`, writing it again when 100 ms have passed, twice
     or twenty times at most, and exactly as often before giving up; once `incoming` is used up
     nothing more is heard. It answers true exactly when an acknowledgement was among the messages
     heard, and hands back, acknowledged, the messages that the caller must deliver.
     */
    method AwaitAcknowledgment(sent: Message, ghost held: seq<Message>)
      returns (ack: bool, recs: seq<Message>, ghost heard: seq<Read>)
      requires Law(held)
      modifies this`incoming, this`trace, this`written
      ensures old(incoming) == heard + incoming
      ensures ack <==> Answered(Heard(heard), sent)
      ensures sent.sender == 0x8E ==>
                (ack <==> exists x :: x in Heard(heard) && x.sender == sent.receiver && x.receiver == 0x8E
                                      && |x.data| > 0 && x.data[0] == 0x80)
      ensures !ack ==> Retries(trace) == Retries(old(trace)) + if useAckCache then 2 else 20
      ensures recs == Filter(Heard(heard), TakenWhileWaiting) && AllHeard(recs, Heard(heard))
      ensures Project(trace, IsAck) == Project(old(trace), IsAck) + recs
      ensures Law(held + recs)
      ensures OnlyWaited(old(trace), trace, sent, Limit())
    {
      hide AckLaw, BytesOf, OnlyWaited, Retries, Filter, Heard, Answered, Parse, Project, AllHeard, WantsAck;
      QuietWait(trace, sent);
      NothingHeard(sent);
      HeardNothing();
      ack, recs, heard := false, [], [];
      var tries := 0;
      var limit := if useAckCache then 2 else 20;
      assert held + recs == held;
      while !ack && tries < limit
        invariant tries <= limit && Retries(trace) == Retries(old(trace)) + tries
        invariant old(incoming) == heard + incoming
        invariant ack <==> Answered(Heard(heard), sent)
        invariant recs == Filter(Heard(heard), TakenWhileWaiting)
        invariant Project(trace, IsAck) == Project(old(trace), IsAck) + recs
        invariant Law(held + recs)
        invariant OnlyWaited(old(trace), trace, sent, tries)
        decreases |incoming| + limit - tries
      {
        var due := true;
        if |incoming| > 0 {
          var pass := incoming[0];
          assert heard + incoming == heard + [pass] + incoming[1..];
          incoming := incoming[1..];
          var list := GetAIBusMessages(pass.bytes);
          HeardMore(heard, pass, sent);
          ghost var before := trace;
          ack, recs := Hear(list, sent, held, recs);
          heard := heard + [pass];
          WaitedChanges(before, trace, sent, 0);
          WaitMore(old(trace), before, trace, sent, tries);
          due := pass.retryDue;
        }
        if !ack && due {
          RetryKeepsLaw(old(trace), trace, held + recs, sent, tries, Retried(sent));
          RetriesPush(trace, Retried(sent));
          ProjectPush(trace, Retried(sent), IsAck);
          Emit(sent, Retried(sent));
          tries := tries + 1;
        }
      }
      WaitAtMost(old(trace), trace, sent, tries, limit);
      TakenExactly(Heard(heard));
      if sent.sender == 0x8E {
        AnsweredExactly(Heard(heard), sent);
      }
    }

    /** The messages of one read, while waiting. */
    method Hear(list: seq<Message>, sent: Message, ghost held: seq<Message>, taken: seq<Message>)
      returns (ack: bool, recs: seq<Message>)
      requires Law(held + taken)
      modifies this`trace, this`written
      ensures ack <==> Answered(list, sent)
      ensures recs == taken + Filter(list, TakenWhileWaiting)
      ensures Project(trace, IsAck) == Project(old(trace), IsAck) + Filter(list, TakenWhileWaiting)
      ensures Law(held + recs)
      ensures OnlyWaited(old(trace), trace, sent, 0)
    {
      hide AckLaw, BytesOf, OnlyWaited, Filter, Answered, Project;
      QuietWait(trace, sent);
      NothingHeard(sent);
      assert list[..0] == [];
      ack, recs := false, taken;
      for i := 0 to |list|
        invariant ack <==> Answered(list[..i], sent)
        invariant recs == taken + Filter(list[..i], TakenWhileWaiting)
        invariant Project(trace, IsAck) == Project(old(trace), IsAck) + Filter(list[..i], TakenWhileWaiting)
        invariant Law(held + recs)
        invariant OnlyWaited(old(trace), trace, sent, 0)
      {
        var rec := list[i];
        assert list[..i + 1] == list[..i] + [rec];
        FilterPush(list[..i], rec, TakenWhileWaiting);
        AnsweredPush(list[..i], rec, sent);
        if rec.receiver != BROADCAST && rec.receiver != ME {
          continue;
        }
        if rec.receiver == sent.sender && rec.sender == sent.receiver && |rec.data| > 0 && rec.data[0] == ACK {
          ack := true;
        } else if rec.receiver == ME && |rec.data| > 0 && rec.data[0] != ACK && rec.data[0] != MULTI {
          LawAcks(trace, held + recs, rec);
          WaitPush(old(trace), trace, sent, 0, Acked(rec));
          ProjectPush(trace, Acked(rec), IsAck);
          Emit(Message(ME, rec.sender, [ACK]), Acked(rec));
          assert held + recs + [rec] == held + (recs + [rec]);
          recs := recs + [rec];
        }
      }
      assert list[..|list|] == list;
    }

    /** Pushing messages that were acknowledged while waiting. */
    method Deliver(recs: seq<Message>)
      requires Law(recs)
      modifies this`trace, this`written, aibus`aiRx
      ensures Law([])
      ensures aibus.aiRx == old(aibus.aiRx) + recs && Received(trace) == Received(old(trace)) + recs
      ensures Project(trace, IsSent) == Project(old(trace), IsSent) && Retries(trace) == Retries(old(trace))
      ensures Project(trace, IsAck) == Project(old(trace), IsAck)
      ensures RetriedOnly(old(trace), trace, [])
    {
      hide AckLaw, BytesOf, Project, Retries;
      assert recs[0..] == recs;
      for i := 0 to |recs|
        invariant Law(recs[i..])
        invariant aibus.aiRx == old(aibus.aiRx) + recs[..i] && Received(trace) == Received(old(trace)) + recs[..i]
        invariant Project(trace, IsSent) == Project(old(trace), IsSent) && Retries(trace) == Retries(old(trace))
        invariant Project(trace, IsAck) == Project(old(trace), IsAck)
        invariant RetriedOnly(old(trace), trace, [])
      {
        assert recs[i..] == [recs[i]] + recs[i + 1..];
        LawDelivers(trace, recs[i], recs[i + 1..]);
        ReceivedPush(trace, Delivered(recs[i]));
        ProjectPush(trace, Delivered(recs[i]), IsSent);
        ProjectPush(trace, Delivered(recs[i]), IsAck);
        RetriesPush(trace, Delivered(recs[i]));
        BytesPush(trace, Delivered(recs[i]));
        trace := trace + [Delivered(recs[i])];
        aibus.aiRx := aibus.aiRx + [recs[i]];
      }
      assert recs[..|recs|] == recs;
    }

    // ---------- write_stream ----------

    /** Long messages are queued as their fragments. */
    method TxList(queue: seq<Message>) returns (list: seq<Message>)
      ensures list == OutgoingAll(queue)
    {
      list := [];
      for i := 0 to |queue|
        invariant list == OutgoingAll(queue[..i])
      {
        assert queue[..i + 1][..i] == queue[..i];
        if |queue[i].data| > AIDATA_LIMIT + 3 {
          var fragments := SplitQueued(queue[i]);
          list := list + fragments;
        } else {
          list := list + [queue[i]];
        }
      }
      assert queue[..|queue|] == queue;
    }

    /**
     Sends everything that is queued: each message or fragment is written once, in order, and
     remembered for resending; what was heard while waiting for acknowledgements is delivered,
     and the messages for which none was heard go into the retry cache.
     */
    method WriteStream() returns (ghost waits: seq<Wait>)
      requires Valid()
      modifies this`incoming, this`trace, this`written, this`recentTx, this`sends, this`ackCache, this`ids, this`book, aibus
      ensures Valid()
      ensures aibus.aiTx == []
      ensures Project(trace, IsSent) == Project(old(trace), IsSent) + OutgoingAll(old(aibus.aiTx))
      ensures sends == old(sends) + OutgoingAll(old(aibus.aiTx))
      ensures RetriedOnly(old(trace), trace, OutgoingAll(old(aibus.aiTx)))
      ensures old(incoming) == ReadsOf(waits) + incoming
      ensures aibus.aiRx == old(aibus.aiRx) + Filter(Heard(ReadsOf(waits)), TakenWhileWaiting)
      ensures Received(trace) == Received(old(trace)) + Filter(Heard(ReadsOf(waits)), TakenWhileWaiting)
      ensures old(aibus.aiRx) <= aibus.aiRx && AllHeard(aibus.aiRx[|old(aibus.aiRx)|..], Heard(ReadsOf(waits)))
      ensures Project(trace, IsAck) == Project(old(trace), IsAck) + aibus.aiRx[|old(aibus.aiRx)|..]
      ensures var list := OutgoingAll(old(aibus.aiTx));
              && InTurn(waits, |list|) && WaitsRight(list, waits, |list|)
              && Places(Missed(list, waits), |list|)
              && (forall k :: 0 <= k < |waits| ==> list[waits[k].at].receiver != 0xFF)
              && (forall i :: 0 <= i < |list| && list[i].receiver !in {0xFF, 0x10, 0x07, 0xC8, 0x11} ==>
                    exists k :: 0 <= k < |waits| && waits[k].at == i)
              && ackCache == old(ackCache) + if useAckCache then Fresh(ToRetry(list, Missed(list, waits))) else []
    {
      hide AckLaw, BytesOf, OutgoingAll, RememberAll, Project, OnePerPair, RetryBound, Heard, Filter, Missed, NoteAll, InTurn, WaitsRight,
        Places, ReadsOf, RetriedOnly, ToRetry, AllHeard;
      var list := TxList(aibus.aiTx);
      var unanswered, longIndices, rxList;
      unanswered, longIndices, rxList, waits := SendAll(list);
      MissedPlaces(list, waits);
      WaitsExactly(list, waits);
      TakenAppended(aibus.aiRx, Heard(ReadsOf(waits)), aibus.aiRx + rxList);
      aibus.aiTx := [];
      ghost var before := trace;
      Deliver(rxList);
      RetriedOnlyOn(old(trace), before, trace, [], list);
      RememberSent(list);
      assert ackCache + [] == ackCache;
      if useAckCache {
        CacheNotes(list, unanswered, longIndices, Missed(list, waits));
      }
    }

    /** What was noted down goes to the retry cache, the fragments of the noted group last. */
    method CacheNotes(list: seq<Message>, unanswered: seq<Message>, longIndices: seq<nat>, ghost missed: seq<nat>)
      requires RetryValid() && useAckCache && Places(missed, |list|) && Places(longIndices, |list|)
      requires Notes(unanswered, longIndices) == NoteAll(list, missed)
      modifies this`ackCache, this`ids, this`book
      ensures RetryValid() && ackCache == old(ackCache) + Fresh(ToRetry(list, missed))
    {
      hide NoteAll, Places, RetryValid;
      RetryOfNotes(list, missed);
      var group := GroupMessages(list, longIndices);
      CacheUnanswered(unanswered + group);
    }

    method GroupMessages(list: seq<Message>, longIndices: seq<nat>) returns (group: seq<Message>)
      requires Places(longIndices, |list|)
      ensures group == At(list, longIndices)
    {
      group := [];
      for l := 0 to |longIndices|
        invariant group == At(list, longIndices)[..l]
      {
        group := group + [list[longIndices[l]]];
      }
    }

    method CacheUnanswered(unanswered: seq<Message>)
      requires RetryValid() && useAckCache
      modifies this`ackCache, this`ids, this`book
      ensures RetryValid()
      ensures ackCache == old(ackCache) + Fresh(unanswered)
    {
      hide RetryBound;
      for i := 0 to |unanswered|
        invariant RetryValid() && ackCache == old(ackCache) + Fresh(unanswered)[..i]
      {
        AddAckCache(unanswered[i]);
      }
      assert Fresh(unanswered)[..|unanswered|] == Fresh(unanswered);
    }

    /** The sending loop of write_stream, with its record of which messages went unanswered. */
    method SendAll(list: seq<Message>)
      returns (unanswered: seq<Message>, longIndices: seq<nat>, rxList: seq<Message>, ghost waits: seq<Wait>)
      requires Law([])
      modifies this`incoming, this`trace, this`written
      ensures Law(rxList)
      ensures Project(trace, IsSent) == Project(old(trace), IsSent) + list
      ensures Project(trace, IsAck) == Project(old(trace), IsAck) + rxList
      ensures Received(trace) == Received(old(trace))
      ensures RetriedOnly(old(trace), trace, list)
      ensures old(incoming) == ReadsOf(waits) + incoming
      ensures rxList == Filter(Heard(ReadsOf(waits)), TakenWhileWaiting)
      ensures InTurn(waits, |list|) && WaitsRight(list, waits, |list|) && Places(Missed(list, waits), |list|)
      ensures Notes(unanswered, longIndices) == if useAckCache then NoteAll(list, Missed(list, waits)) else Notes([], [])
      ensures Places(longIndices, |list|)
    {
      hide AckLaw, BytesOf, Enveloped, OnlyWaited, Project, Heard, Filter, Missed, NoteAll, InTurn, WaitsRight, ReadsOf, Answered,
        RunKnown, Places, GroupStart, RetriedOnly;
      unanswered, longIndices, rxList, waits := [], [], [], [];
      var firstLong, longSet := 0, false;
      NothingMissed(list);
      NoRun(list);
      NothingRetried(trace, list);
      for m := 0 to |list|
        invariant RunKnown(list, m, longSet, firstLong)
        invariant Law(rxList)
        invariant Project(trace, IsSent) == Project(old(trace), IsSent) + list[..m]
        invariant Project(trace, IsAck) == Project(old(trace), IsAck) + rxList
        invariant Received(trace) == Received(old(trace))
        invariant RetriedOnly(old(trace), trace, list)
        invariant old(incoming) == ReadsOf(waits) + incoming
        invariant rxList == Filter(Heard(ReadsOf(waits)), TakenWhileWaiting)
        invariant InTurn(waits, m) && InTurn(waits, |list|) && WaitsRight(list, waits, m)
        invariant Places(Missed(list, waits), |list|)
        invariant Notes(unanswered, longIndices) == if useAckCache then NoteAll(list, Missed(list, waits)) else Notes([], [])
      {
        var x := list[m];
        SentKeepsLaw(trace, rxList, x);
        SentNotRetried(old(trace), trace, list, x);
        Emit(x, Sent(x));
        assert list[..m + 1] == list[..m] + [x];
        firstLong, longSet := FollowRun(list, m, firstLong, longSet);
        KnownRun(list, m, longSet, firstLong);
        ghost var before := trace;
        unanswered, longIndices, rxList, waits := WaitIfWanted(list, m, firstLong, unanswered, longIndices, rxList, waits);
        RetriedOnlyOn(old(trace), before, trace, [x], list) by { assert x in list; }
      }
      assert list[..|list|] == list;
      GroupPlaces(list, Missed(list, waits));
      NoPlaces(|list|);
    }

    /** The wait that follows a message, unless it is a broadcast or goes to an optional device that is not connected. */
    method WaitIfWanted(list: seq<Message>, m: nat, firstLong: nat, unanswered: seq<Message>, longIndices: seq<nat>,
                        rxList: seq<Message>, ghost waits: seq<Wait>)
      returns (messages: seq<Message>, group: seq<nat>, rx: seq<Message>, ghost all: seq<Wait>)
      requires m < |list| && (list[m].StartsWith(MULTI) ==> firstLong == GroupStart(list, m))
      requires Law(rxList) && rxList == Filter(Heard(ReadsOf(waits)), TakenWhileWaiting)
      requires InTurn(waits, m) && InTurn(waits, |list|) && WaitsRight(list, waits, m) && Places(Missed(list, waits), |list|)
      requires Notes(unanswered, longIndices) == if useAckCache then NoteAll(list, Missed(list, waits)) else Notes([], [])
      modifies this`incoming, this`trace, this`written
      ensures Law(rx)
      ensures Project(trace, IsSent) == Project(old(trace), IsSent) && Received(trace) == Received(old(trace))
      ensures rxList <= rx && Project(trace, IsAck) == Project(old(trace), IsAck) + rx[|rxList|..]
      ensures RetriedOnly(old(trace), trace, [list[m]])
      ensures ReadsOf(waits) + old(incoming) == ReadsOf(all) + incoming
      ensures rx == Filter(Heard(ReadsOf(all)), TakenWhileWaiting)
      ensures InTurn(all, m + 1) && InTurn(all, |list|) && WaitsRight(list, all, m + 1) && Places(Missed(list, all), |list|)
      ensures Notes(messages, group) == if useAckCache then NoteAll(list, Missed(list, all)) else Notes([], [])
    {
      hide AckLaw, BytesOf, Enveloped, OnlyWaited, Project, Heard, Filter, Missed, NoteAll, InTurn, WaitsRight, ReadsOf, Answered,
        Places, GroupStart, RetriedOnly, Optional;
      var x := list[m];
      messages, group, rx, all := unanswered, longIndices, rxList, waits;
      var connected: bool := *;
      NothingRetried(trace, [x]);
      InTurnUpTo(waits, m, m + 1);
      WaitsRightNext(list, waits, m, Wait(m, []));
      if x.receiver != BROADCAST && (connected || !Optional(x.receiver)) {
        ghost var heard;
        messages, group, rx, heard := WaitFor(list, m, firstLong, unanswered, longIndices, rxList, waits);
        WaitPushed(list, waits, Wait(m, heard));
        WaitsRightNext(list, waits, m, Wait(m, heard));
        Associative(ReadsOf(waits), heard, incoming);
        all := waits + [Wait(m, heard)];
      }
    }

    /** The wait for the acknowledgement of message m, and the note if none comes. */
    method WaitFor(list: seq<Message>, m: nat, firstLong: nat, unanswered: seq<Message>, longIndices: seq<nat>,
                   rxList: seq<Message>, ghost waits: seq<Wait>)
      returns (messages: seq<Message>, group: seq<nat>, rx: seq<Message>, ghost heard: seq<Read>)
      requires m < |list| && (list[m].StartsWith(MULTI) ==> firstLong == GroupStart(list, m))
      requires Law(rxList) && rxList == Filter(Heard(ReadsOf(waits)), TakenWhileWaiting)
      requires InTurn(waits, m) && InTurn(waits, |list|) && Places(Missed(list, waits), |list|)
      requires Notes(unanswered, longIndices) == if useAckCache then NoteAll(list, Missed(list, waits)) else Notes([], [])
      modifies this`incoming, this`trace, this`written
      ensures Law(rx)
      ensures Project(trace, IsSent) == Project(old(trace), IsSent) && Received(trace) == Received(old(trace))
      ensures rxList <= rx && Project(trace, IsAck) == Project(old(trace), IsAck) + rx[|rxList|..]
      ensures RetriedOnly(old(trace), trace, [list[m]])
      ensures old(incoming) == heard + incoming
      ensures var all := waits + [Wait(m, heard)];
              && rx == Filter(Heard(ReadsOf(all)), TakenWhileWaiting)
              && InTurn(all, |list|) && Places(Missed(list, all), |list|)
              && Notes(messages, group) == if useAckCache then NoteAll(list, Missed(list, all)) else Notes([], [])
    {
      hide AckLaw, BytesOf, OnlyWaited, Project, Heard, Filter, Missed, NoteAll, InTurn, ReadsOf, Answered, Places, Note;
      ghost var before := trace;
      var answered, recs;
      answered, recs, heard := AwaitAcknowledgment(list[m], rxList);
      WaitedChanges(before, trace, list[m], Limit());
      WaitPushed(list, waits, Wait(m, heard));
      TakenConcat(ReadsOf(waits), heard);
      MissedPlaces(list, waits + [Wait(m, heard)]);
      messages, group, rx := unanswered, longIndices, rxList + recs;
      if !answered && useAckCache {
        NotePushed(list, Missed(list, waits), m);
        messages, group := NoteDown(list, m, firstLong, unanswered, longIndices);
      }
    }

    /** Where the run of fragments that message m belongs to began. */
    method FollowRun(list: seq<Message>, m: nat, firstLong: nat, longSet: bool) returns (first: nat, isSet: bool)
      requires m < |list| && RunKnown(list, m, longSet, firstLong)
      ensures RunKnown(list, m + 1, isSet, first)
    {
      first, isSet := firstLong, longSet;
      var x := list[m];
      if !longSet && |x.data| > 0 && x.data[0] == MULTI {
        first, isSet := m, true;
      } else if |x.data| <= 0 || x.data[0] != MULTI {
        isSet := false;
      }
    }

    /** An unanswered message is noted down, or with its first fragment the whole group. */
    method NoteDown(list: seq<Message>, m: nat, firstLong: nat, unanswered: seq<Message>, longIndices: seq<nat>)
      returns (messages: seq<Message>, group: seq<nat>)
      requires m < |list| && (list[m].StartsWith(MULTI) ==> firstLong == GroupStart(list, m))
      ensures Notes(messages, group) == Note(list, Notes(unanswered, longIndices), m)
    {
      messages, group := unanswered, longIndices;
      if |list[m].data| > 0 && list[m].data[0] == MULTI && |longIndices| == 0 {
        group := FragmentIndices(list, firstLong);
      } else {
        if |longIndices| > 0 {
          group := [];
        }
        messages := messages + [list[m]];
      }
    }

    method FragmentIndices(list: seq<Message>, first: nat) returns (indices: seq<nat>)
      requires first <= |list|
      ensures indices == FragmentPlaces(list, first, |list|)
    {
      hide FragmentPlaces;
      indices := [];
      NoPlaceYet(list, first);
      for i := first to |list|
        invariant indices == FragmentPlaces(list, first, i)
      {
        NextPlace(list, first, i);
        if |list[i].data| > 0 && list[i].data[0] == MULTI {
          indices := indices + [i];
        }
      }
    }

    /** `cache_tx` for every message sent. */
    method RememberSent(list: seq<Message>)
      requires SenderValid()
      modifies this`recentTx, this`sends
      ensures SenderValid() && sends == old(sends) + list
    {
      for i := 0 to |list|
        invariant SenderValid() && sends == old(sends) + list[..i]
      {
        assert list[..i + 1] == list[..i] + [list[i]];
        assert (sends + [list[i]])[..|sends|] == sends;
        recentTx := CacheTx(recentTx, list[i]);
        sends := sends + [list[i]];
      }
      assert list[..|list|] == list;
    }

    // ---------- the retry cache ----------

    method SetAckCache(use: bool, autoOff: bool)
      requires RetryValid()
      modifies this`useAckCache, this`autoAckCacheOff, this`ackCache, this`ids
      ensures RetryValid()
      ensures useAckCache == use && autoAckCacheOff == autoOff
      ensures ackCache == if use then old(ackCache) else []
    {
      useAckCache := use;
      autoAckCacheOff := autoOff;
      if !useAckCache {
        ackCache, ids := [], [];
      }
    }

    method AddAckCache(m: Message)
      requires RetryValid()
      modifies this`ackCache, this`ids, this`book
      ensures RetryValid()
      ensures ackCache == if useAckCache then old(ackCache) + [Pending(m, 0)] else old(ackCache)
    {
      if !useAckCache {
        return;
      }
      BoundAdds(ackCache, ids, book, m);
      ackCache := ackCache + [Pending(m, 0)];
      ids := ids + [|book|];
      book := book + [Pending(m, 0)];
    }

    method RemoveEntry(i: nat)
      requires i < |ackCache| && |ids| == |ackCache|
      modifies this`ackCache, this`ids
      ensures ackCache == old(ackCache[..i] + ackCache[i + 1..])
      ensures ids == old(ids[..i] + ids[i + 1..])
    {
      ackCache := ackCache[..i] + ackCache[i + 1..];
      ids := ids[..i] + ids[i + 1..];
    }

    /** Acknowledgements that have reached ai_rx in the meantime strike out cached messages. */
    method DropAnswered()
      requires RetryValid()
      modifies this`ackCache, this`ids
      ensures RetryValid() && ackCache == StruckAll(old(ackCache), aibus.aiRx)
      ensures Accounted(old(ids), ids, book, aibus.aiRx, [])
      ensures Potential(ackCache) <= Potential(old(ackCache))
    {
      hide RetryBound, Potential, Accounted, Struck, StruckAll;
      AccountedAtFirst(ids, book, aibus.aiRx, []);
      StruckByNone(ackCache);
      var rx := aibus.aiRx;
      assert rx[..0] == [];
      for n := 0 to |rx|
        invariant RetryValid() && ackCache == StruckAll(old(ackCache), rx[..n])
        invariant Accounted(old(ids), ids, book, rx, [])
        invariant Potential(ackCache) <= Potential(old(ackCache))
      {
        var x := rx[n];
        StruckAllPush(old(ackCache), rx, n);
        if x.sender == ME || |x.data| <= 0 || x.data[0] != ACK {
          continue;
        }
        StrikeOut(x, old(ids));
      }
      assert rx[..|rx|] == rx;
    }

    /** The first cached message that x acknowledges is removed. */
    method StrikeOut(x: Message, ghost before: seq<nat>)
      requires RetryValid() && x in aibus.aiRx && x.StartsWith(ACK)
      requires Accounted(before, ids, book, aibus.aiRx, [])
      modifies this`ackCache, this`ids
      ensures RetryValid() && ackCache == Struck(old(ackCache), x)
      ensures Accounted(before, ids, book, aibus.aiRx, [])
      ensures Potential(ackCache) <= Potential(old(ackCache))
    {
      hide RetryBound, Potential, Accounted, Struck;
      StruckAtEnds(ackCache, x);
      for i := 0 to |ackCache|
        invariant ackCache == old(ackCache) && ids == old(ids)
        invariant ackCache[..i] + Struck(ackCache[i..], x) == Struck(ackCache, x)
      {
        var test := ackCache[i].msg;
        StruckAt(ackCache, x, i);
        if test.sender == x.receiver && test.receiver == x.sender {
          PotentialAt(ackCache, i);
          BoundAt(ackCache, ids, book, i);
          BoundDrops(ackCache, ids, book, i);
          AccountedDrops(before, ackCache, ids, book, aibus.aiRx, [], i, book);
          RemoveEntry(i);
          return;
        }
      }
    }

    /** Whether an acknowledgement of tx lies in ai_rx. */
    method FoundAck(tx: Message) returns (found: bool)
      ensures found <==> exists x :: x in aibus.aiRx && x.sender != ME && AckFor(x, tx)
    {
      found := false;
      for i := 0 to |aibus.aiRx|
        invariant !exists x :: x in aibus.aiRx[..i] && x.sender != ME && AckFor(x, tx)
      {
        var x := aibus.aiRx[i];
        if x.sender == ME {
          continue;
        }
        if x.sender == tx.receiver && x.receiver == tx.sender && |x.data| > 0 && x.data[0] == ACK {
          return true;
        }
      }
      assert aibus.aiRx[..|aibus.aiRx|] == aibus.aiRx;
    }

    /** Writes tx again, as the bare frame, and waits; three writes in all at most. */
    method TryAgain(tx: Message) returns (answered: bool, ghost heard: seq<Read>)
      requires useAckCache && Law([])
      modifies this`incoming, this`trace, this`written, aibus`aiRx
      ensures Law([])
      ensures old(incoming) == heard + incoming && (answered <==> Answered(Heard(heard), tx))
      ensures aibus.aiRx == old(aibus.aiRx) + Filter(Heard(heard), TakenWhileWaiting)
      ensures Received(trace) == Received(old(trace)) + Filter(Heard(heard), TakenWhileWaiting)
      ensures Project(trace, IsSent) == Project(old(trace), IsSent)
      ensures Project(trace, IsAck) == Project(old(trace), IsAck) + Filter(Heard(heard), TakenWhileWaiting)
      ensures Retries(old(trace)) < Retries(trace) <= Retries(old(trace)) + 3
      ensures RetriedOnly(old(trace), trace, [tx])
      ensures |trace| > |old(trace)| && trace[|old(trace)|] == Bare(tx)
    {
      hide AckLaw, BytesOf, OnlyWaited, Project, Retries, Heard, Filter, Answered, RetriedOnly, AllHeard;
      WriteBare(tx);
      ghost var bare, before := trace, trace;
      var recs;
      answered, recs, heard := AwaitAcknowledgment(tx, []);
      WaitedChanges(before, trace, tx, 2);
      RetriedOnlyOn(old(trace), before, trace, [tx], [tx]);
      assert [] + recs == recs;
      before := trace;
      Deliver(recs);
      RetriedOnlyOn(old(trace), before, trace, [], [tx]);
      Grown(bare, before, [tx]);
      Grown(before, trace, []);
    }

    /** The frame without its envelope. */
    method WriteBare(tx: Message)
      requires Law([])
      modifies this`trace, this`written
      ensures Law([]) && trace == old(trace) + [Bare(tx)] && written == old(written) + Frame(tx)
      ensures Received(trace) == Received(old(trace)) && Project(trace, IsSent) == Project(old(trace), IsSent)
      ensures Project(trace, IsAck) == Project(old(trace), IsAck)
      ensures Retries(trace) == Retries(old(trace)) + 1 && RetriedOnly(old(trace), trace, [tx])
    {
      hide AckLaw, BytesOf, OnlyWaited, Project, Retries, Frame, RetriedOnly;
      QuietWait(trace, tx);
      RetryKeepsLaw(trace, trace, [], tx, 0, Bare(tx));
      WaitedChanges(trace, trace + [Bare(tx)], tx, 1);
      RetriesPush(trace, Bare(tx));
      ProjectPush(trace, Bare(tx), IsAck);
      BytesPush(trace, Bare(tx));
      var bytes := GetBytes(tx);
      written := written + bytes;
      trace := trace + [Bare(tx)];
    }

    /**
     One pass of the inner retry loop for entry i: the message is tried again, and stays, with
     one more failed round, unless it is answered or has had all its rounds.
     */
    method Round(i: nat, ghost before: seq<nat>, ghost sofar: seq<Read>) returns (kept: bool, ghost heard: seq<Read>)
      requires i < |ackCache| && useAckCache
      requires Law([]) && RetryValid()
      requires Accounted(before, ids, book, aibus.aiRx, sofar)
      modifies this`incoming, this`trace, this`written, this`ackCache, this`ids, this`book, aibus`aiRx
      ensures Law([]) && RetryValid()
      ensures old(incoming) == heard + incoming
      ensures aibus.aiRx == old(aibus.aiRx) + Filter(Heard(heard), TakenWhileWaiting)
      ensures Received(trace) == Received(old(trace)) + Filter(Heard(heard), TakenWhileWaiting)
      ensures Project(trace, IsSent) == Project(old(trace), IsSent)
      ensures Project(trace, IsAck) == Project(old(trace), IsAck) + Filter(Heard(heard), TakenWhileWaiting)
      ensures Retries(old(trace)) < Retries(trace) <= Retries(old(trace)) + 3
      ensures RetriedOnly(old(trace), trace, [old(ackCache)[i].msg])
      ensures Answered(Heard(heard), old(ackCache)[i].msg) ==> !kept
      ensures ackCache == if kept then old(ackCache)[i := Failed(old(ackCache)[i])] else old(ackCache[..i] + ackCache[i + 1..])
      ensures Accounted(before, ids, book, aibus.aiRx, sofar + heard)
      ensures Potential(ackCache) < Potential(old(ackCache))
    {
      hide AckLaw, BytesOf, Project, Retries, Potential, RetryBound, Heard, Filter, Answered, Accounted, Confirmed;
      PotentialAt(ackCache, i);
      BoundAt(ackCache, ids, book, i);
      BoundDrops(ackCache, ids, book, i);
      if ackCache[i].count < MAX_COUNT {
        BoundFails(ackCache, ids, book, i);
      }
      var tx, count := ackCache[i].msg, ackCache[i].count;
      var answered;
      answered, heard := TryAgain(tx);
      EvidenceGrows(before, ids, book, old(aibus.aiRx), sofar, aibus.aiRx, heard, tx);
      ghost var was, failed := ackCache, book[ids[i] := Failed(book[ids[i]])];
      if answered {
        AccountedDrops(before, was, ids, book, aibus.aiRx, sofar + heard, i, book);
        RemoveEntry(i);
        return false, heard;
      }
      ackCache := ackCache[i := Pending(tx, count + 1)];
      var polled: bool := *;
      var found := false;
      if polled {
        found := FoundAck(tx);
        FoundConfirms(tx, aibus.aiRx, sofar + heard, found);
      }
      kept := !(found || ackCache[i].count > MAX_COUNT);
      if kept {
        AccountedFails(before, ids, book, aibus.aiRx, sofar + heard, i);
      } else {
        AccountedDrops(before, was, ids, book, aibus.aiRx, sofar + heard, i, failed);
        assert ackCache[..i] == was[..i] && ackCache[i + 1..] == was[i + 1..];
        RemoveEntry(i);
      }
      book := failed;
    }

    /**
     `await_cached_acknowledgment`. Both loops end even if the clock never runs out, because
     each pass uses up one of the at most 26 rounds of some cached message; the writes of the
     whole call are bounded by what the cache loses; and no message leaves the cache unless it
     is acknowledged or has had its 26 rounds.
     */
    method AwaitCachedAcknowledgment() returns (ghost heard: seq<Read>)
      requires Valid()
      modifies this`incoming, this`trace, this`written, this`ackCache, this`useAckCache, this`ids, this`book, aibus`aiRx
      ensures Valid()
      ensures old(incoming) == heard + incoming
      ensures aibus.aiRx == old(aibus.aiRx) + Filter(Heard(heard), TakenWhileWaiting)
      ensures Received(trace) == Received(old(trace)) + Filter(Heard(heard), TakenWhileWaiting)
      ensures Project(trace, IsSent) == Project(old(trace), IsSent)
      ensures Project(trace, IsAck) == Project(old(trace), IsAck) + Filter(Heard(heard), TakenWhileWaiting)
      ensures Retries(trace) + 3 * Potential(ackCache) <= Retries(old(trace)) + 3 * Potential(old(ackCache))
      ensures Accounted(old(ids), ids, book, aibus.aiRx, heard)
      ensures useAckCache <==> old(useAckCache) && !(autoAckCacheOff && ackCache == [])
      ensures old(aibus.aiRx) <= aibus.aiRx && AllHeard(aibus.aiRx[|old(aibus.aiRx)|..], Heard(heard))
    {
      hide AckLaw, BytesOf, Project, Retries, Potential, RetryBound, Heard, Filter, Accounted, StruckAll, AllHeard;
      heard := [];
      NothingTaken(aibus.aiRx, Received(trace));
      TakenAppended(aibus.aiRx, Heard(heard), aibus.aiRx);
      AccountedAtFirst(ids, book, aibus.aiRx, []);
      if !useAckCache {
        return;
      }
      DropAnswered();
      if |ackCache| == 0 {
        if autoAckCacheOff {
          useAckCache := false;
        }
        return;
      }
      var inTime: bool := *;
      while inTime && |ackCache| > 0
        invariant useAckCache && RetriesSoFar(old(incoming), old(trace), old(aibus.aiRx), old(ids), heard)
        invariant Retries(trace) + 3 * Potential(ackCache) <= Retries(old(trace)) + 3 * Potential(old(ackCache))
        decreases Potential(ackCache)
      {
        BoundPotential(ackCache, ids, book);
        var i := 0;
        ghost var atStart := Potential(ackCache);
        while i < |ackCache| && inTime
          invariant i <= |ackCache| && useAckCache && RetriesSoFar(old(incoming), old(trace), old(aibus.aiRx), old(ids), heard)
          invariant Retries(trace) + 3 * Potential(ackCache) <= Retries(old(trace)) + 3 * Potential(old(ackCache))
          invariant Potential(ackCache) < atStart || (i < |ackCache| && inTime && Potential(ackCache) == atStart)
          decreases Potential(ackCache)
        {
          BoundPotential(ackCache, ids, book);
          var kept;
          kept, heard := NextRound(i, old(incoming), old(trace), old(aibus.aiRx), old(ids), heard);
          BoundPotential(ackCache, ids, book);
          if kept {
            inTime := *;
            i := if inTime then i + 1 else i;
          }
        }
        if |ackCache| > 0 {
          inTime := *;
        }
      }
      TakenAppended(old(aibus.aiRx), Heard(heard), aibus.aiRx);
      if |ackCache| == 0 && autoAckCacheOff {
        useAckCache := false;
      }
    }

    /** What holds between two rounds of one call, with what has been read since its start. */
    ghost predicate RetriesSoFar(incoming0: seq<Read>, trace0: seq<Event>, rx0: seq<Message>, ids0: seq<nat>, heard: seq<Read>)
      reads this, aibus`aiRx
    {
      && Law([]) && RetryValid()
      && incoming0 == heard + incoming
      && aibus.aiRx == rx0 + Filter(Heard(heard), TakenWhileWaiting)
      && Received(trace) == Received(trace0) + Filter(Heard(heard), TakenWhileWaiting)
      && Project(trace, IsSent) == Project(trace0, IsSent)
      && Project(trace, IsAck) == Project(trace0, IsAck) + Filter(Heard(heard), TakenWhileWaiting)
      && Accounted(ids0, ids, book, aibus.aiRx, heard)
    }

    /** One more round. */
    method NextRound(i: nat, ghost incoming0: seq<Read>, ghost trace0: seq<Event>, ghost rx0: seq<Message>,
                     ghost ids0: seq<nat>, ghost heard: seq<Read>) returns (kept: bool, ghost more: seq<Read>)
      requires i < |ackCache| && useAckCache && RetriesSoFar(incoming0, trace0, rx0, ids0, heard)
      modifies this`incoming, this`trace, this`written, this`ackCache, this`ids, this`book, aibus`aiRx
      ensures RetriesSoFar(incoming0, trace0, rx0, ids0, more)
      ensures Retries(trace) <= Retries(old(trace)) + 3 && Potential(ackCache) < Potential(old(ackCache))
      ensures kept ==> |ackCache| == |old(ackCache)|
      ensures !kept ==> |ackCache| == |old(ackCache)| - 1
    {
      hide AckLaw, BytesOf, Project, Retries, Potential, RetryBound, Heard, Filter, Accounted, Answered;
      ghost var h;
      kept, h := Round(i, ids0, heard);
      TakenConcat(heard, h);
      more := heard + h;
      ghost var a, b := Filter(Heard(heard), TakenWhileWaiting), Filter(Heard(h), TakenWhileWaiting);
      Associative(rx0, a, b);
      Associative(Received(trace0), a, b);
      Associative(Project(trace0, IsAck), a, b);
      Associative(heard, h, incoming);
    }
  }

  lemma Grown(before: seq<Event>, after: seq<Event>, ms: seq<Message>)
    requires RetriedOnly(before, after, ms)
    ensures before <= after
  {
  }

  /** What was taken, seen in the queue onto which it was pushed. */
  lemma TakenAppended(before: seq<Message>, heard: seq<Message>, after: seq<Message>)
    requires after == before + Filter(heard, TakenWhileWaiting)
    ensures before <= after && after[|before|..] == Filter(heard, TakenWhileWaiting) && AllHeard(after[|before|..], heard)
  {
    hide AllHeard;
    TakenExactly(heard);
  }

  /** An acknowledgement of a message of this device, written out. */
  lemma AnsweredExactly(heard: seq<Message>, sent: Message)
    requires sent.sender == 0x8E
    ensures Answered(heard, sent) <==>
            exists x :: x in heard && x.sender == sent.receiver && x.receiver == 0x8E && |x.data| > 0 && x.data[0] == 0x80
  {
  }

  lemma NothingTaken(rx: seq<Message>, received: seq<Message>)
    ensures rx == rx + Filter(Heard([]), TakenWhileWaiting) && received == received + Filter(Heard([]), TakenWhileWaiting)
  {
  }

  /** What is heard in a round adds to the evidence; an answer is evidence for its message. */
  lemma EvidenceGrows(before: seq<nat>, ids: seq<nat>, book: seq<Pending>, rx: seq<Message>, sofar: seq<Read>,
                      rx': seq<Message>, heard: seq<Read>, tx: Message)
    requires Accounted(before, ids, book, rx, sofar) && rx <= rx'
    ensures Accounted(before, ids, book, rx', sofar + heard)
    ensures Answered(Heard(heard), tx) ==> Confirmed(tx, rx', sofar + heard)
  {
    hide Heard, Accounted;
    HeardConcat(sofar, heard);
    AccountedGrows(before, ids, book, rx, sofar, rx', sofar + heard);
    if Answered(Heard(heard), tx) {
      var x :| x in Heard(heard) && Acknowledges(x, tx);
      assert x in Heard(sofar + heard) && AckFor(x, tx);
    }
  }

  lemma FoundConfirms(tx: Message, rx: seq<Message>, heard: seq<Read>, found: bool)
    requires found <==> exists x :: x in rx && x.sender != ME && AckFor(x, tx)
    ensures found ==> Confirmed(tx, rx, heard)
  {
    hide Heard;
  }

  lemma StruckByNone(cache: seq<Pending>)
    ensures StruckAll(cache, []) == cache
  {
  }
}
