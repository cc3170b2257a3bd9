/**
 The receiving side of the Rust client (ipc.rs `read_stream`) as a state machine over the
 messages parsed from the socket: acknowledgement, resend requests and reassembly.
 */
module ClientProtocol {
  import opened Bytes
  import opened AIBus
  import opened Envelope
  import opened Fragmentation
  import opened Quotients
  import opened ResendCache
  import opened Seqs

  /** AIBUS_DEVICE_AMIRROR, the address of this device. */
  const ME: byte := 0x8E

  /** Everything the outside can observe, in the order in which it happens. */
  datatype Event =
    | Acked(msg: Message)      // an acknowledgement was written in answer to msg
    | Resent(msg: Message)     // a remembered message was written again
    | Sent(msg: Message)       // a queued message was written for the first time
    | Retried(msg: Message)    // an unanswered message was written again
    | Bare(msg: Message)       // a message from the retry cache was written again, without its envelope
    | Delivered(msg: Message)  // an arrival was pushed onto ai_rx as it came
    | Assembled(msg: Message)  // a message put together from fragments was pushed onto ai_rx

  /** One parsed message; `late` says that more than 500 ms have passed since the last fragment. */
  datatype Arrival = Arrival(msg: Message, late: bool)

  datatype State = State(cache: seq<Message>, expected: int, trace: seq<Event>)
  {
    predicate Idle() {
      cache == [] && expected == -1
    }

    predicate Assembling() {
      && 0 < |cache| < expected <= 255
      && forall i :: 0 <= i < |cache| ==> cache[i].IsFragment() && cache[i].SamePair(cache[0])
    }

    predicate Consistent() {
      Idle() || Assembling()
    }

    function Log(events: seq<Event>): State {
      this.(trace := trace + events)
    }
  }

  predicate Addressed(x: Message) {
    x.receiver == BROADCAST || x.receiver == ME
  }

  /** A message that the device answers with an acknowledgement. */
  predicate WantsAck(x: Message) {
    x.receiver == ME && |x.data| > 0 && x.data[0] != ACK
  }

  function AckEvents(x: Message): seq<Event> {
    if WantsAck(x) then [Acked(x)] else []
  }

  function ResendEvents(recent: seq<Message>, x: Message): seq<Event> {
    match Lookup(recent, x.receiver, x.sender)
    case Some(m) => [Resent(m)]
    case None => []
  }

  function Expire(st: State, late: bool): State {
    if st.expected > 0 && |st.cache| > 0 && late then st.(cache := [], expected := -1) else st
  }

  function Collect(st: State, x: Message): State
    requires x.IsFragment()
  {
    var expected := if st.expected <= 0 then x.data[1] else st.expected;
    var cache := st.cache + [x];
    if |cache| >= expected then
      State([], -1, st.trace + [Assembled(Message(x.sender, x.receiver, AssembleEvery(cache, expected, expected, x)))])
    else
      State(cache, expected, st.trace)
  }

  function Step(st: State, recent: seq<Message>, a: Arrival): State {
    var x, st := a.msg, Expire(st, a.late);
    if !Addressed(x) || Foreign(st.cache, x) then st else Take(st, recent, x)
  }

  /** What is not skipped is acknowledged if it has to be, and then answered, collected or delivered. */
  function Take(st: State, recent: seq<Message>, x: Message): State {
    var st := st.Log(AckEvents(x));
    if x.StartsWith(RESEND) then st.Log(ResendEvents(recent, x))
    else if x.IsFragment() then Collect(st, x)
    else st.Log([Delivered(x)])
  }

  function Messages(arrivals: seq<Arrival>): (ms: seq<Message>)
    ensures |ms| == |arrivals| && forall i :: 0 <= i < |ms| ==> ms[i] == arrivals[i].msg
  {
    seq(|arrivals|, i requires 0 <= i < |arrivals| => arrivals[i].msg)
  }

  function Run(st: State, recent: seq<Message>, arrivals: seq<Arrival>): State {
    if arrivals == [] then st
    else Step(Run(st, recent, arrivals[..|arrivals| - 1]), recent, arrivals[|arrivals| - 1])
  }

  // ---------- what a trace puts on the wire ----------

  function Enveloped(m: Message): seq<byte> {
    Wrap(OPCODE_TO_SERVER, Frame(m))
  }

  function AckMessage(x: Message): Message {
    Message(ME, x.sender, [ACK])
  }

  function EventBytes(e: Event): seq<byte> {
    match e
    case Acked(x) => Enveloped(AckMessage(x))
    case Resent(m) => Enveloped(m)
    case Sent(m) => Enveloped(m)
    case Retried(m) => Enveloped(m)
    case Bare(m) => Frame(m)
    case Delivered(_) => []
    case Assembled(_) => []
  }

  /** Every byte written to the socket. */
  function BytesOf(trace: seq<Event>): seq<byte> {
    if trace == [] then [] else BytesOf(trace[..|trace| - 1]) + EventBytes(trace[|trace| - 1])
  }

  lemma BytesPush(trace: seq<Event>, e: Event)
    ensures BytesOf(trace + [e]) == BytesOf(trace) + EventBytes(e)
    ensures IsPush(e) ==> BytesOf(trace + [e]) == BytesOf(trace)
  {
    assert (trace + [e])[..|trace|] == trace;
  }

  // ---------- what a trace says ----------

  /** The messages of the events that satisfy p, in order. */
  function Project(trace: seq<Event>, p: Event -> bool): seq<Message> {
    if trace == [] then []
    else Project(trace[..|trace| - 1], p) + (if p(trace[|trace| - 1]) then [trace[|trace| - 1].msg] else [])
  }

  lemma ProjectPush(trace: seq<Event>, e: Event, p: Event -> bool)
    ensures Project(trace + [e], p) == Project(trace, p) + (if p(e) then [e.msg] else [])
  {
    assert (trace + [e])[..|trace|] == trace;
  }

  lemma {:induction false} ProjectConcat(a: seq<Event>, b: seq<Event>, p: Event -> bool)
    ensures Project(a + b, p) == Project(a, p) + Project(b, p)
  {
    if b == [] {
      assert a + b == a;
    } else {
      assert (a + b)[..|a + b| - 1] == a + b[..|b| - 1];
      ProjectConcat(a, b[..|b| - 1], p);
    }
  }

  predicate IsPush(e: Event) {
    e.Delivered? || e.Assembled?
  }

  /** What has been pushed onto ai_rx. */
  function Received(trace: seq<Event>): seq<Message> {
    Project(trace, IsPush)
  }

  lemma ReceivedPush(trace: seq<Event>, e: Event)
    ensures Received(trace + [e]) == Received(trace) + (if IsPush(e) then [e.msg] else [])
  {
    ProjectPush(trace, e, IsPush);
  }

  /** What a run of the read loop pushes onto ai_rx. */
  function RunPushes(st: State, recent: seq<Message>, arrivals: seq<Arrival>): seq<Message> {
    if arrivals == [] then []
    else
      var front, a := arrivals[..|arrivals| - 1], arrivals[|arrivals| - 1];
      RunPushes(st, recent, front) + Pushes(Expire(Run(st, recent, front), a.late), a.msg)
  }

  lemma {:induction false} RunReceives(st: State, recent: seq<Message>, arrivals: seq<Arrival>)
    ensures Received(Run(st, recent, arrivals).trace) == Received(st.trace) + RunPushes(st, recent, arrivals)
  {
    if arrivals != [] {
      var front, a := arrivals[..|arrivals| - 1], arrivals[|arrivals| - 1];
      RunReceives(st, recent, front);
      StepPushes(Run(st, recent, front), recent, a);
    }
  }

  // ---------- the reassembler's invariant ----------

  /**
   After every message the fragment cache is empty with no expectation, or it holds fewer
   fragments than expected, at most 255, all of one sender and receiver.
   */
  lemma StepConsistent(st: State, recent: seq<Message>, a: Arrival)
    requires st.Consistent()
    ensures Step(st, recent, a).Consistent()
  {
  }

  lemma {:induction false} RunConsistent(st: State, recent: seq<Message>, arrivals: seq<Arrival>)
    requires st.Consistent()
    ensures Run(st, recent, arrivals).Consistent()
    ensures st.trace <= Run(st, recent, arrivals).trace
  {
    if arrivals != [] {
      RunConsistent(st, recent, arrivals[..|arrivals| - 1]);
      StepConsistent(Run(st, recent, arrivals[..|arrivals| - 1]), recent, arrivals[|arrivals| - 1]);
    }
  }

  // ---------- acknowledged means delivered ----------

  /**
   A non-empty message addressed to this device that is neither an acknowledgement, a resend
   request nor a fragment.
   */
  predicate Plain(x: Message) {
    WantsAck(x) && !x.StartsWith(RESEND) && !x.IsFragment()
  }

  predicate IsPlainAck(e: Event) {
    e.Acked? && Plain(e.msg)
  }

  predicate IsPlainDelivery(e: Event) {
    e.Delivered? && Plain(e.msg)
  }

  /**
   The plain messages acknowledged so far are, in order and with repetitions, the plain
   messages delivered so far followed by those in `held`; and no acknowledgement has ever
   been written in answer to an acknowledgement or for a message to another device.
   */
  predicate AckLaw(trace: seq<Event>, held: seq<Message>) {
    && Project(trace, IsPlainAck) == Project(trace, IsPlainDelivery) + Filter(held, Plain)
    && forall e :: e in trace && e.Acked? ==> WantsAck(e.msg)
  }

  lemma LawSkips(trace: seq<Event>, held: seq<Message>, e: Event)
    requires AckLaw(trace, held)
    requires e.Acked? ==> WantsAck(e.msg) && !Plain(e.msg)
    requires e.Delivered? ==> !Plain(e.msg)
    ensures AckLaw(trace + [e], held)
  {
    ProjectPush(trace, e, IsPlainAck);
    ProjectPush(trace, e, IsPlainDelivery);
  }

  lemma LawAcks(trace: seq<Event>, held: seq<Message>, x: Message)
    requires AckLaw(trace, held) && WantsAck(x)
    ensures AckLaw(trace + [Acked(x)], held + [x])
  {
    hide Project, Filter;
    ProjectPush(trace, Acked(x), IsPlainAck);
    ProjectPush(trace, Acked(x), IsPlainDelivery);
    FilterPush(held, x, Plain);
  }

  lemma LawDelivers(trace: seq<Event>, x: Message, held: seq<Message>)
    requires AckLaw(trace, [x] + held)
    ensures AckLaw(trace + [Delivered(x)], held)
  {
    hide Project, Filter;
    ProjectPush(trace, Delivered(x), IsPlainAck);
    ProjectPush(trace, Delivered(x), IsPlainDelivery);
    FilterFront(x, held);
    var d, own := Project(trace, IsPlainDelivery), if Plain(x) then [x] else [];
    assert d + (own + Filter(held, Plain)) == d + own + Filter(held, Plain);
  }

  lemma FilterFront(x: Message, held: seq<Message>)
    ensures Filter([x] + held, Plain) == (if Plain(x) then [x] else []) + Filter(held, Plain)
  {
    FilterConcat([x], held, Plain);
    FilterPush([], x, Plain);
    assert [] + [x] == [x];
  }

  /** Every step of the read loop keeps the law. */
  lemma StepAckLaw(st: State, recent: seq<Message>, a: Arrival)
    requires AckLaw(st.trace, [])
    ensures AckLaw(Step(st, recent, a).trace, [])
  {
    hide Project, Filter, AssembleEvery, AckLaw, Lookup;
    var x, live := a.msg, Expire(st, a.late);
    if Addressed(x) && !Foreign(live.cache, x) {
      var t := live.trace;
      if Plain(x) {
        LawAcks(t, [], x);
        assert [] + [x] == [x] + [];
        LawDelivers(t + [Acked(x)], x, []);
      } else {
        AckKeepsLaw(t, x);
        OtherEventsKeepLaw(t + AckEvents(x), recent, live, x);
      }
    }
  }

  lemma AckKeepsLaw(t: seq<Event>, x: Message)
    requires AckLaw(t, []) && !Plain(x)
    ensures AckLaw(t + AckEvents(x), [])
  {
    hide Project, Filter, AckLaw;
    if WantsAck(x) {
      LawSkips(t, [], Acked(x));
    } else {
      assert t + [] == t;
    }
  }

  lemma OtherEventsKeepLaw(acked: seq<Event>, recent: seq<Message>, live: State, x: Message)
    requires AckLaw(acked, []) && !Plain(x)
    ensures AckLaw(acked + ResendEvents(recent, x), [])
    ensures AckLaw(acked + [Delivered(x)], [])
    ensures x.IsFragment() ==> AckLaw(Collect(live.(trace := acked), x).trace, [])
  {
    hide Project, Filter, AssembleEvery, AckLaw, Lookup;
    match Lookup(recent, x.receiver, x.sender) {
      case Some(m) => LawSkips(acked, [], Resent(m));
      case None => assert acked + [] == acked;
    }
    LawSkips(acked, [], Delivered(x));
    if x.IsFragment() {
      var end := Collect(live.(trace := acked), x);
      if end.trace != acked {
        LawSkips(acked, [], end.trace[|end.trace| - 1]);
        assert end.trace == acked + [end.trace[|end.trace| - 1]];
      }
    }
  }

  /** The read loop over any arrivals keeps the law: acknowledged means delivered, exactly once. */
  lemma {:induction false} RunAckLaw(st: State, recent: seq<Message>, arrivals: seq<Arrival>)
    requires AckLaw(st.trace, [])
    ensures AckLaw(Run(st, recent, arrivals).trace, [])
  {
    if arrivals != [] {
      RunAckLaw(st, recent, arrivals[..|arrivals| - 1]);
      StepAckLaw(Run(st, recent, arrivals[..|arrivals| - 1]), recent, arrivals[|arrivals| - 1]);
    }
  }

  // ---------- what each arrival is answered with ----------

  predicate IsAck(e: Event) {
    e.Acked?
  }

  predicate IsDelivery(e: Event) {
    e.Delivered?
  }

  /** How often x has been acknowledged. */
  function TimesAcked(trace: seq<Event>, x: Message): nat {
    multiset(Project(trace, IsAck))[x]
  }

  /** How often x has been delivered as it came. */
  function TimesDelivered(trace: seq<Event>, x: Message): nat {
    multiset(Project(trace, IsDelivery))[x]
  }

  lemma TimesPush(trace: seq<Event>, e: Event, x: Message)
    ensures TimesAcked(trace + [e], x) == TimesAcked(trace, x) + if e == Acked(x) then 1 else 0
    ensures TimesDelivered(trace + [e], x) == TimesDelivered(trace, x) + if e == Delivered(x) then 1 else 0
  {
    ProjectPush(trace, e, IsAck);
    ProjectPush(trace, e, IsDelivery);
  }

  /**
   Over every run a message that is no fragment is acknowledged as often as it arrives if it is
   addressed to this device, non-empty and no acknowledgement, and never otherwise; and it is
   delivered as often as it arrives if it is for this device or broadcast and no resend request.
   */
  lemma {:induction false} RunAnswers(st: State, recent: seq<Message>, arrivals: seq<Arrival>, x: Message)
    requires !(|x.data| >= 3 && x.data[0] == 0x91)
    ensures TimesAcked(Run(st, recent, arrivals).trace, x) ==
            TimesAcked(st.trace, x)
            + if x.receiver == 0x8E && |x.data| > 0 && x.data[0] != 0x80 then multiset(Messages(arrivals))[x] else 0
    ensures TimesDelivered(Run(st, recent, arrivals).trace, x) ==
            TimesDelivered(st.trace, x)
            + if x.receiver in {0x8E, 0xFF} && !(|x.data| > 0 && x.data[0] == 0x92) then multiset(Messages(arrivals))[x] else 0
  {
    hide TimesAcked, TimesDelivered, Step;
    if arrivals != [] {
      var front, a := arrivals[..|arrivals| - 1], arrivals[|arrivals| - 1];
      RunAnswers(st, recent, front, x);
      StepAnswers(Run(st, recent, front), recent, a, x);
      assert Messages(arrivals) == Messages(front) + [a.msg];
    }
  }

  lemma StepAnswers(st: State, recent: seq<Message>, a: Arrival, x: Message)
    requires !(|x.data| >= 3 && x.data[0] == 0x91)
    ensures TimesAcked(Step(st, recent, a).trace, x) ==
            TimesAcked(st.trace, x) + if a.msg == x && x.receiver == 0x8E && |x.data| > 0 && x.data[0] != 0x80 then 1 else 0
    ensures TimesDelivered(Step(st, recent, a).trace, x) ==
            TimesDelivered(st.trace, x)
            + if a.msg == x && x.receiver in {0x8E, 0xFF} && !(|x.data| > 0 && x.data[0] == 0x92) then 1 else 0
  {
    hide TimesAcked, TimesDelivered, Collect, AckEvents, ResendEvents;
    var y, live := a.msg, Expire(st, a.late);
    if Addressed(y) && !Foreign(live.cache, y) {
      var acked := live.trace + AckEvents(y);
      AckCounted(live.trace, y, x);
      ResendCounted(acked, recent, y, x);
      if y.IsFragment() {
        CollectCounted(live.(trace := acked), y, x);
      }
      TimesPush(acked, Delivered(y), x);
    }
  }

  lemma AckCounted(trace: seq<Event>, y: Message, x: Message)
    ensures TimesAcked(trace + AckEvents(y), x) ==
            TimesAcked(trace, x) + if y == x && x.receiver == 0x8E && |x.data| > 0 && x.data[0] != 0x80 then 1 else 0
    ensures TimesDelivered(trace + AckEvents(y), x) == TimesDelivered(trace, x)
  {
    hide TimesAcked, TimesDelivered;
    TimesPush(trace, Acked(y), x);
    assert trace + [] == trace;
  }

  lemma ResendCounted(trace: seq<Event>, recent: seq<Message>, y: Message, x: Message)
    ensures TimesAcked(trace + ResendEvents(recent, y), x) == TimesAcked(trace, x)
    ensures TimesDelivered(trace + ResendEvents(recent, y), x) == TimesDelivered(trace, x)
  {
    hide TimesAcked, TimesDelivered, Lookup;
    match Lookup(recent, y.receiver, y.sender) {
      case Some(m) => TimesPush(trace, Resent(m), x);
      case None => assert trace + [] == trace;
    }
  }

  lemma CollectCounted(st: State, y: Message, x: Message)
    requires y.IsFragment()
    ensures TimesAcked(Collect(st, y).trace, x) == TimesAcked(st.trace, x)
    ensures TimesDelivered(Collect(st, y).trace, x) == TimesDelivered(st.trace, x)
  {
    hide TimesAcked, TimesDelivered, AssembleEvery;
    var end := Collect(st, y);
    if end.trace != st.trace {
      TimesPush(st.trace, end.trace[|st.trace|], x);
    }
  }

  /** A fragment is ignored altogether while one of another pair is being collected; else it is acknowledged if it is for this device. */
  lemma FragmentAnswered(st: State, recent: seq<Message>, x: Message)
    requires |x.data| >= 3 && x.data[0] == 0x91 && x.receiver in {0x8E, 0xFF}
    ensures var end := Step(st, recent, Arrival(x, false));
            if st.cache != [] && (st.cache[0].sender != x.sender || st.cache[0].receiver != x.receiver) then end == st
            else Project(end.trace, IsAck) == Project(st.trace, IsAck) + if x.receiver == 0x8E then [x] else []
  {
    hide Project, AssembleEvery;
    var acked := st.trace + AckEvents(x);
    if WantsAck(x) {
      ProjectPush(st.trace, Acked(x), IsAck);
    } else {
      assert acked == st.trace && Project(acked, IsAck) + [] == Project(acked, IsAck);
    }
    forall m: Message
      ensures Project(acked + [Assembled(m)], IsAck) == Project(acked, IsAck)
    {
      ProjectPush(acked, Assembled(m), IsAck);
    }
  }

  /**
   A resend request to this device is acknowledged and answered with the message last sent to
   the device that asks, if there is one, and nothing else happens.
   */
  lemma ResendAnswered(st: State, sends: seq<Message>, x: Message)
    requires x.receiver == 0x8E && |x.data| > 0 && x.data[0] == 0x92
    ensures Step(st, RememberAll([], sends), Arrival(x, false)) ==
            st.(trace := st.trace + [Acked(x)] + match LastSent(sends, 0x8E, x.sender)
                                                 case Some(m) => [Resent(m)]
                                                 case None => [])
  {
    CacheIsLastSent(sends, 0x8E, x.sender);
  }

  // ---------- waiting for an acknowledgement ----------

  /** The bytes of one socket read while waiting, and whether 100 ms have passed since the last try. */
  datatype Read = Read(bytes: seq<byte>, retryDue: bool)

  function Heard(passes: seq<Read>): seq<Message> {
    if passes == [] then [] else Heard(passes[..|passes| - 1]) + Parse(passes[|passes| - 1].bytes)
  }

  predicate Acknowledges(x: Message, sent: Message) {
    Addressed(x) && x.receiver == sent.sender && x.sender == sent.receiver && x.StartsWith(ACK)
  }

  /** What the waiting loop acknowledges and hands back; broadcasts and fragments heard then are lost. */
  predicate TakenWhileWaiting(x: Message) {
    WantsAck(x) && x.data[0] != MULTI
  }

  /** Every message heard to this device that is non-empty and neither an acknowledgement nor a fragment, as often as it was heard, in order. */
  ghost predicate AllHeard(recs: seq<Message>, heard: seq<Message>) {
    && Within(recs, heard)
    && forall x ::
         multiset(recs)[x] ==
         if x.receiver == 0x8E && |x.data| > 0 && x.data[0] != 0x80 && x.data[0] != 0x91 then multiset(heard)[x] else 0
  }

  lemma TakenExactly(heard: seq<Message>)
    ensures AllHeard(Filter(heard, TakenWhileWaiting), heard)
  {
    FilterWithin(heard, TakenWhileWaiting);
    forall x
      ensures multiset(Filter(heard, TakenWhileWaiting))[x] == if TakenWhileWaiting(x) then multiset(heard)[x] else 0
    {
      FilterCount(heard, TakenWhileWaiting, x);
    }
  }

  predicate Answered(heard: seq<Message>, sent: Message) {
    exists x :: x in heard && Acknowledges(x, sent)
  }

  predicate IsSent(e: Event) {
    e.Sent?
  }

  predicate IsRetry(e: Event) {
    e.Retried? || e.Bare?
  }

  /** How often messages have been written again. */
  function Retries(trace: seq<Event>): nat {
    if trace == [] then 0 else Retries(trace[..|trace| - 1]) + if IsRetry(trace[|trace| - 1]) then 1 else 0
  }

  /** Whatever has been written again since then is one of these messages. */
  predicate RetriedOnly(before: seq<Event>, after: seq<Event>, ms: seq<Message>) {
    before <= after && forall i :: |before| <= i < |after| && IsRetry(after[i]) ==> after[i].msg in ms
  }

  lemma RetriedOnlyOn(a: seq<Event>, b: seq<Event>, c: seq<Event>, some: seq<Message>, all: seq<Message>)
    requires RetriedOnly(a, b, all) && RetriedOnly(b, c, some) && forall m :: m in some ==> m in all
    ensures RetriedOnly(a, c, all)
  {
  }

  /** Nothing but acknowledgements and at most n retries of one message have been added. */
  predicate OnlyWaited(before: seq<Event>, after: seq<Event>, sent: Message, n: nat) {
    && Received(after) == Received(before)
    && Project(after, IsSent) == Project(before, IsSent)
    && RetriedOnly(before, after, [sent])
    && Retries(before) <= Retries(after) <= Retries(before) + n
  }

  lemma WaitPush(before: seq<Event>, after: seq<Event>, sent: Message, n: nat, e: Event)
    requires OnlyWaited(before, after, sent, n) && (e.Acked? || e == Retried(sent) || e == Bare(sent))
    ensures OnlyWaited(before, after + [e], sent, if IsRetry(e) then n + 1 else n)
  {
    ReceivedPush(after, e);
    ProjectPush(after, e, IsSent);
    assert (after + [e])[..|after|] == after;
  }

  // ---------- any-order reassembly ----------

  function OnTime(msgs: seq<Message>): (arrivals: seq<Arrival>)
    ensures |arrivals| == |msgs|
  {
    seq(|msgs|, i requires 0 <= i < |msgs| => Arrival(msgs[i], false))
  }

  lemma RunPush(st: State, recent: seq<Message>, msgs: seq<Message>, x: Message)
    ensures Run(st, recent, OnTime(msgs + [x])) == Step(Run(st, recent, OnTime(msgs)), recent, Arrival(x, false))
  {
    assert OnTime(msgs + [x])[..|msgs|] == OnTime(msgs);
  }

  function OwnOf(m: Message): Message -> bool {
    (x: Message) => x.IsFragment() && x.SamePair(m)
  }

  /** An arrival that goes straight to ai_rx. */
  predicate Ordinary(x: Message) {
    Addressed(x) && !x.IsFragment() && !x.StartsWith(RESEND)
  }

  lemma {:induction false} Collecting(st: State, recent: seq<Message>, m: Message, msgs: seq<Message>)
    requires st.Idle() && Addressed(m)
    requires 2 <= Total(m) <= 255
    requires msgs != [] ==> OwnOf(m)(msgs[0])
    requires |Filter(msgs, OwnOf(m))| < Total(m)
    requires forall x :: x in msgs && OwnOf(m)(x) ==> x.data[1] == Total(m)
    ensures var end := Run(st, recent, OnTime(msgs));
            && end.cache == Filter(msgs, OwnOf(m))
            && end.expected == (if msgs == [] then -1 else Total(m))
            && Received(end.trace) == Received(st.trace) + Filter(msgs, Ordinary)
    ensures msgs != [] ==> |Filter(msgs, OwnOf(m))| > 0 && Filter(msgs, OwnOf(m))[0].SamePair(m)
  {
    if msgs != [] {
      var front, x := msgs[..|msgs| - 1], msgs[|msgs| - 1];
      assert msgs == front + [x];
      Collecting(st, recent, m, front);
      CollectingNext(st, recent, m, front, x);
    }
  }

  lemma CollectingNext(st: State, recent: seq<Message>, m: Message, front: seq<Message>, x: Message)
    requires st.Idle() && Addressed(m)
    requires front == [] ==> OwnOf(m)(x)
    requires OwnOf(m)(x) ==> x.data[1] == Total(m) && |Filter(front, OwnOf(m))| + 1 < Total(m)
    requires var mid := Run(st, recent, OnTime(front));
             && mid.cache == Filter(front, OwnOf(m))
             && mid.expected == (if front == [] then -1 else Total(m))
             && Received(mid.trace) == Received(st.trace) + Filter(front, Ordinary)
    requires front == [] ==> Filter(front, OwnOf(m)) == []
    requires front != [] ==> |Filter(front, OwnOf(m))| > 0 && Filter(front, OwnOf(m))[0].SamePair(m)
    ensures var end := Run(st, recent, OnTime(front + [x]));
            && end.cache == Filter(front + [x], OwnOf(m))
            && end.expected == Total(m)
            && Received(end.trace) == Received(st.trace) + Filter(front + [x], Ordinary)
    ensures Filter(front + [x], OwnOf(m)) != [] && Filter(front + [x], OwnOf(m))[0].SamePair(m)
  {
    hide Run, Step, Filter, Project, Ordinary;
    RunPush(st, recent, front, x);
    FilterPush(front, x, OwnOf(m));
    FilterPush(front, x, Ordinary);
    CollectingStep(Run(st, recent, OnTime(front)), recent, m, x);
  }

  lemma CollectingStep(st: State, recent: seq<Message>, m: Message, x: Message)
    requires Addressed(m)
    requires OwnOf(m)(x) ==> x.data[1] == Total(m) && |st.cache| + 1 < Total(m)
    requires (st.cache == [] && st.expected == -1 && OwnOf(m)(x)) ||
             (|st.cache| > 0 && st.cache[0].SamePair(m) && st.expected == Total(m))
    ensures var end := Step(st, recent, Arrival(x, false));
            && end.cache == st.cache + (if OwnOf(m)(x) then [x] else [])
            && end.expected == Total(m)
            && Received(end.trace) == Received(st.trace) + (if Ordinary(x) then [x] else [])
  {
    StepPushes(st, recent, Arrival(x, false));
    if OwnOf(m)(x) {
      assert st.cache != [] ==> st.cache[0].SamePair(x);
    } else {
      assert x.IsFragment() ==> Foreign(st.cache, x);
    }
  }

  /** What one arrival adds to ai_rx, seen from the state in which it is handled. */
  function Pushes(st: State, x: Message): seq<Message> {
    if !Addressed(x) || Foreign(st.cache, x) || x.StartsWith(RESEND) then []
    else if !x.IsFragment() then [x]
    else Completed(st, x)
  }

  function Completed(st: State, x: Message): seq<Message>
    requires x.IsFragment()
  {
    var total := if st.expected <= 0 then x.data[1] else st.expected;
    if |st.cache| + 1 >= total
    then [Message(x.sender, x.receiver, AssembleEvery(st.cache + [x], total, total, x))]
    else []
  }

  lemma StepPushes(st: State, recent: seq<Message>, a: Arrival)
    ensures Received(Step(st, recent, a).trace) == Received(st.trace) + Pushes(Expire(st, a.late), a.msg)
  {
    var x, live := a.msg, Expire(st, a.late);
    if Addressed(x) && !Foreign(live.cache, x) {
      AcksDeliverNothing(live.trace, x);
      var acked := live.trace + AckEvents(x);
      if x.StartsWith(RESEND) {
        ResendDeliversNothing(acked, recent, x);
      } else if x.IsFragment() {
        forall m: Message
          ensures Received(acked + [Assembled(m)]) == Received(acked) + [m]
        {
          ReceivedPush(acked, Assembled(m));
        }
      } else {
        ReceivedPush(acked, Delivered(x));
      }
    }
  }

  lemma AcksDeliverNothing(trace: seq<Event>, x: Message)
    ensures Received(trace + AckEvents(x)) == Received(trace)
  {
    if WantsAck(x) {
      ReceivedPush(trace, Acked(x));
    } else {
      assert trace + [] == trace;
    }
  }

  lemma ResendDeliversNothing(trace: seq<Event>, recent: seq<Message>, x: Message)
    ensures Received(trace + ResendEvents(recent, x)) == Received(trace)
  {
    match Lookup(recent, x.receiver, x.sender)
    case Some(m) => ReceivedPush(trace, Resent(m));
    case None => assert trace + [] == trace;
  }

  /**
   From an idle state, the fragments of one message in any order, mixed after the first with
   ordinary messages, acknowledgements, resend requests, messages for other devices and
   fragments of other pairs, put the message onto ai_rx exactly once, when the last of its
   fragments arrives, and every ordinary message in its place before it.
   */
  lemma AnyOrderReassembly(st: State, recent: seq<Message>, m: Message, msgs: seq<Message>)
    requires st.Idle() && Addressed(m)
    requires IsLong(m) && |m.data| <= MAX_PAYLOAD
    requires multiset(Filter(msgs, OwnOf(m))) == multiset(Fragments(m))
    requires |msgs| > 0 && OwnOf(m)(msgs[0]) && OwnOf(m)(msgs[|msgs| - 1])
    ensures Run(st, recent, OnTime(msgs)).Idle()
    ensures Received(Run(st, recent, OnTime(msgs)).trace) == Received(st.trace) + Filter(msgs, Ordinary) + [m]
  {
    var front, x := msgs[..|msgs| - 1], msgs[|msgs| - 1];
    assert msgs == front + [x];
    var own := Filter(msgs, OwnOf(m));
    PermutedFragments(m, own);
    assert forall y :: y in front ==> y in msgs;
    Collecting(st, recent, m, front);
    RunPush(st, recent, front, x);
    LastFragment(Run(st, recent, OnTime(front)), recent, m, x, own);
    assert Filter(msgs, Ordinary) == Filter(front, Ordinary);
  }

  lemma PermutedFragments(m: Message, own: seq<Message>)
    requires multiset(own) == multiset(Fragments(m)) && Total(m) <= 255
    ensures |own| == Total(m)
    ensures forall y :: y in own ==> |y.data| >= 3 && y.data[1] == Total(m)
  {
    assert |own| == |multiset(own)| == |multiset(Fragments(m))|;
    forall y | y in own
      ensures |y.data| >= 3 && y.data[1] == Total(m)
    {
      assert y in multiset(Fragments(m));
      var k :| 0 <= k < Total(m) && y == Fragments(m)[k];
      FragmentFields(m, k);
    }
  }

  lemma LastFragment(st: State, recent: seq<Message>, m: Message, x: Message, own: seq<Message>)
    requires Addressed(m) && IsLong(m) && Total(m) <= 255
    requires OwnOf(m)(x) && own == st.cache + [x] && multiset(own) == multiset(Fragments(m)) && |own| == Total(m)
    requires st.expected == Total(m) && st.cache[0].SamePair(m)
    ensures Step(st, recent, Arrival(x, false)).Idle()
    ensures Received(Step(st, recent, Arrival(x, false)).trace) == Received(st.trace) + [m]
  {
    StepPushes(st, recent, Arrival(x, false));
    AssembleAnyOrder(m, own);
    AssembledForPair(own, Total(m), Total(m), m, x);
  }

  /**
   When 500 ms have passed without a fragment, the message whose fragments come next, in any
   order, is put together as if nothing had been collected before.
   */
  lemma LateReassembly(st: State, recent: seq<Message>, m: Message, fs: seq<Message>)
    requires st.Consistent() && Addressed(m) && IsLong(m) && |m.data| <= MAX_PAYLOAD
    requires multiset(fs) == multiset(Fragments(m)) && fs != []
    ensures var end := Run(st, recent, [Arrival(fs[0], true)] + OnTime(fs[1..]));
            end.Idle() && Received(end.trace) == Received(st.trace) + [m]
  {
    hide Run, Step, Filter, Project, Fragment;
    var anew := st.(cache := [], expected := -1);
    FragmentsAnnounce(m);
    forall y | y in fs
      ensures OwnOf(m)(y)
    {
      assert y in multiset(Fragments(m));
    }
    FilterAll(fs, OwnOf(m));
    FilterNone(fs, Ordinary);
    AnyOrderReassembly(anew, recent, m, fs);
    LateIsAnew(st, recent, fs[0]);
    RunFirst(st, recent, Arrival(fs[0], true), OnTime(fs[1..]));
    RunFirst(anew, recent, Arrival(fs[0], false), OnTime(fs[1..]));
    assert OnTime(fs) == [Arrival(fs[0], false)] + OnTime(fs[1..]);
  }

  lemma LateIsAnew(st: State, recent: seq<Message>, x: Message)
    requires st.Consistent()
    ensures Step(st, recent, Arrival(x, true)) == Step(st.(cache := [], expected := -1), recent, Arrival(x, false))
  {
    hide AssembleEvery;
  }

  lemma {:induction false} RunFirst(st: State, recent: seq<Message>, a: Arrival, rest: seq<Arrival>)
    ensures Run(st, recent, [a] + rest) == Run(Step(st, recent, a), recent, rest)
  {
    hide Step;
    if rest == [] {
      assert [a] + rest == [a] && [a][..0] == [];
      assert Run(st, recent, []) == st;
    } else {
      assert ([a] + rest)[..|rest|] == [a] + rest[..|rest| - 1];
      RunFirst(st, recent, a, rest[..|rest| - 1]);
    }
  }

  // ---------- exactly which messages survive a transfer ----------

  /** What a caller can check before queueing a message. */
  predicate Transferable(m: Message) {
    if IsLong(m) then |m.data| <= MAX_PAYLOAD
    else !m.StartsWith(RESEND) && !m.IsFragment() && !EchoPayload(m)
  }

  /**
   The bytes of the messages that one client puts on the wire, relayed in their envelopes and
   read back in order, however the envelopes are spread over the reads, yield exactly the
   queued message if and only if it is transferable. The decoder takes `[sender, 4]` for an
   echo; a payload beyond 8160 bytes wraps the one-byte fragment count and arrives as several
   messages.
   */
  lemma TransferExactly(st: State, recent: seq<Message>, m: Message, groups: seq<seq<Message>>)
    requires st.Idle() && Addressed(m) && Flat(groups) == Outgoing(m)
    ensures Received(Run(st, recent, OnTime(ParseReads(groups))).trace) == Received(st.trace) + [m] <==> Transferable(m)
  {
    hide Run, Project, ParseReads;
    OutgoingSeen(m);
    ReadsTogether(groups);
    if EchoPayload(m) {
      EchoNeverArrives(st, recent, m);
    } else {
      MessagesTransfer(st, recent, m);
    }
  }

  /** What the decoder lets through of the messages on the wire. */
  lemma OutgoingSeen(m: Message)
    requires Addressed(m)
    ensures forall x :: x in Outgoing(m) ==> |x.data| <= 250
    ensures Filter(Outgoing(m), Visible) == if EchoPayload(m) then [] else Outgoing(m)
  {
    hide Filter, Fragment;
    forall x | x in Outgoing(m)
      ensures |x.data| <= 250 && (Visible(x) <==> !EchoPayload(m))
    {
      OutgoingFits(m, x);
      if IsLong(m) {
        var k :| 0 <= k < |Fragments(m)| && x == Fragments(m)[k];
        FragmentShape(m, k);
      }
    }
    if EchoPayload(m) {
      FilterNone(Outgoing(m), Visible);
    } else {
      FilterAll(Outgoing(m), Visible);
    }
  }

  lemma EchoNeverArrives(st: State, recent: seq<Message>, m: Message)
    ensures Run(st, recent, OnTime([])) == st
    ensures Received(st.trace) != Received(st.trace) + [m]
  {
    var r := Received(st.trace);
    assert |r + [m]| == |r| + 1;
  }

  /** The same of the messages alone, as the decoder hands them over. */
  lemma MessagesTransfer(st: State, recent: seq<Message>, m: Message)
    requires st.Idle() && Addressed(m) && !EchoPayload(m)
    ensures Received(Run(st, recent, OnTime(Outgoing(m))).trace) == Received(st.trace) + [m] <==> Transferable(m)
  {
    if !IsLong(m) {
      ShortTransfer(st, recent, m);
    } else if Transferable(m) {
      LongTransfer(st, recent, m);
    } else {
      LongOverflow(st, recent, m);
    }
  }

  lemma LongTransfer(st: State, recent: seq<Message>, m: Message)
    requires st.Idle() && Addressed(m) && IsLong(m) && |m.data| <= MAX_PAYLOAD
    ensures Received(Run(st, recent, OnTime(Fragments(m))).trace) == Received(st.trace) + [m]
  {
    hide Run, Step, Filter, Project, Fragment;
    var fs := Fragments(m);
    FragmentsAnnounce(m);
    FilterAll(fs, OwnOf(m));
    FilterNone(fs, Ordinary);
    assert fs[0] in fs && fs[|fs| - 1] in fs;
    AnyOrderReassembly(st, recent, m, fs);
  }

  lemma ShortTransfer(st: State, recent: seq<Message>, m: Message)
    requires st.Idle() && Addressed(m) && !IsLong(m) && !EchoPayload(m)
    ensures Received(Run(st, recent, OnTime([m])).trace) == Received(st.trace) + [m] <==> Transferable(m)
  {
    RunPush(st, recent, [], m);
    assert [] + [m] == [m];
    StepPushes(st, recent, Arrival(m, false));
    hide Step, Project, AssembleEvery;
    if !m.StartsWith(RESEND) && m.IsFragment() {
      NeverWhole(st, m);
    }
  }

  /** A lone fragment never passes for the message that it is. */
  lemma NeverWhole(st: State, m: Message)
    requires st.Idle() && m.IsFragment()
    ensures Received(st.trace) + Completed(st, m) != Received(st.trace) + [m]
  {
    hide Project, AssembleEvery;
    var t := m.data[1];
    AssembleSingle(m, t, t);
    assert st.cache + [m] == [m];
    var a := Message(m.sender, m.receiver, AssembleEvery([m], t, t, m));
    var r := Received(st.trace);
    assert (r + [a])[|r|] == a && (r + [m])[|r|] == m;
  }

  lemma {:induction false} AssembleSingle(x: Message, total: int, k: nat)
    requires x.IsFragment()
    ensures |AssembleEvery([x], total, k, x)| <= |x.data| - 3
    ensures k <= x.data[2] ==> AssembleEvery([x], total, k, x) == []
  {
    hide CollectEvery;
    if k != 0 {
      AssembleSingle(x, total, k - 1);
      CollectSingle(x, total, k - 1);
    }
  }

  lemma CollectSingle(x: Message, total: int, k: int)
    ensures CollectEvery([x], total, k, x) == if Matches(x, total, k, x) then x.data[3..] else []
  {
    assert [x][..0] == [];
    assert CollectEvery([], total, k, x) == [];
  }

  lemma LongOverflow(st: State, recent: seq<Message>, m: Message)
    requires st.Idle() && Addressed(m) && |m.data| > MAX_PAYLOAD
    ensures |Received(Run(st, recent, OnTime(Fragments(m))).trace)| >= |Received(st.trace)| + 2
  {
    hide Run, Step, Project, Fragment;
    FragmentsAnnounce(m);
    var t := Low(Total(m));
    Batches(st, recent, m, Fragments(m), t);
    AtLeastTwo(Total(m), BatchSize(t));
  }

  /** How many fragments are collected is what the first of them announces, whatever the others do. */
  lemma {:induction false} FirstAnnounces(st: State, recent: seq<Message>, m: Message, fs: seq<Message>)
    requires st.Idle() && Addressed(m) && fs != [] && fs[0].IsFragment() && forall x :: x in fs ==> OwnOf(m)(x)
    requires |fs| <= BatchSize(fs[0].data[1])
    ensures var end, t := Run(st, recent, OnTime(fs)), fs[0].data[1];
            if |fs| < BatchSize(t) then end.cache == fs && end.expected == t && Received(end.trace) == Received(st.trace)
            else
              end.Idle() && Received(end.trace) == Received(st.trace) + [Message(m.sender, m.receiver, AssembleEvery(fs, t, t, m))]
  {
    hide Run, Step, Project, AssembleEvery;
    var front, x := fs[..|fs| - 1], fs[|fs| - 1];
    assert fs == front + [x];
    RunPush(st, recent, front, x);
    assert x in fs && (front != [] ==> front[0] in fs && front[0] == fs[0]);
    if front == [] {
      NothingRun(st, recent);
      AnnouncedStep(st, recent, m, fs[0].data[1], x);
    } else {
      FirstAnnounces(st, recent, m, front);
      AnnouncedStep(Run(st, recent, OnTime(front)), recent, m, fs[0].data[1], x);
    }
  }

  lemma NothingRun(st: State, recent: seq<Message>)
    ensures Run(st, recent, OnTime([])) == st
  {
  }

  lemma AnnouncedStep(st: State, recent: seq<Message>, m: Message, t: byte, x: Message)
    requires Addressed(m) && OwnOf(m)(x) && |st.cache| < BatchSize(t)
    requires if st.cache == [] then st.expected == -1 && x.data[1] == t else st.expected == t && st.cache[0].SamePair(m)
    ensures var end, all := Step(st, recent, Arrival(x, false)), st.cache + [x];
            if |all| < BatchSize(t) then end.cache == all && end.expected == t && Received(end.trace) == Received(st.trace)
            else
              end.Idle() && Received(end.trace) == Received(st.trace) + [Message(m.sender, m.receiver, AssembleEvery(all, t, t, m))]
  {
    hide AssembleEvery, Project, AckEvents, ResendEvents, Foreign;
    StepPushes(st, recent, Arrival(x, false));
    AssembledForPair(st.cache + [x], t, t, m, x);
    NotForeign(st, m, x);
    CollectEnds(st.Log(AckEvents(x)), x);
    assert Step(st, recent, Arrival(x, false)) == Collect(st.Log(AckEvents(x)), x);
  }

  lemma NotForeign(st: State, m: Message, x: Message)
    requires OwnOf(m)(x) && (st.cache != [] ==> st.cache[0].SamePair(m))
    ensures x.IsFragment() && !Foreign(st.cache, x) && !x.StartsWith(RESEND)
  {
  }

  lemma CollectEnds(st: State, x: Message)
    requires x.IsFragment()
    ensures var end, t := Collect(st, x), if st.expected <= 0 then x.data[1] else st.expected;
            if |st.cache| + 1 >= t then end.Idle() else end.cache == st.cache + [x] && end.expected == t
  {
    hide AssembleEvery;
  }

  function BatchSize(t: byte): nat {
    if t == 0 then 1 else t
  }

  /** Fragments of one pair that all announce t come out as one message for every t of them. */
  lemma {:induction false} Batches(st: State, recent: seq<Message>, m: Message, msgs: seq<Message>, t: byte)
    requires st.Idle() && Addressed(m)
    requires forall x :: x in msgs ==> OwnOf(m)(x) && x.data[1] == t
    ensures var end := Run(st, recent, OnTime(msgs));
            && |Received(end.trace)| == |Received(st.trace)| + |msgs| / BatchSize(t)
            && |end.cache| == |msgs| % BatchSize(t)
            && (if end.cache == [] then end.expected == -1 else end.expected == t && end.cache[0].SamePair(m))
  {
    if msgs == [] {
      SmallQuotient(0, BatchSize(t));
    } else {
      var front, x := msgs[..|msgs| - 1], msgs[|msgs| - 1];
      assert msgs == front + [x];
      Batches(st, recent, m, front, t);
      RunPush(st, recent, front, x);
      BatchStep(Run(st, recent, OnTime(front)), recent, m, x, t);
      QuotientStep(|front|, BatchSize(t));
    }
  }

  lemma BatchStep(st: State, recent: seq<Message>, m: Message, x: Message, t: byte)
    requires Addressed(m) && OwnOf(m)(x) && x.data[1] == t
    requires |st.cache| < BatchSize(t)
    requires if st.cache == [] then st.expected == -1 else st.expected == t && st.cache[0].SamePair(m)
    ensures var end := Step(st, recent, Arrival(x, false));
            if |st.cache| + 1 == BatchSize(t) then
              end.cache == [] && end.expected == -1 && |Received(end.trace)| == |Received(st.trace)| + 1
            else
              end.cache == st.cache + [x] && end.expected == t && end.cache[0].SamePair(m)
              && Received(end.trace) == Received(st.trace)
  {
    StepPushes(st, recent, Arrival(x, false));
    assert st.cache != [] ==> st.cache[0].SamePair(x);
    assert !Foreign(st.cache, x) && !x.StartsWith(RESEND);
    var end := Collect(st.Log(AckEvents(x)), x);
    assert Step(st, recent, Arrival(x, false)) == end;
  }
}
