/**
 The C++ socket client (Client_AIBus_Handler.cpp `cacheAIData`): it takes a run of bytes
 apart into frames, skipping a frame that fails its checksum by the length it announces.
 */
module SocketClient {
  import opened Bytes
  import opened AIBus
  import opened Fragmentation
  import opened ResendCache
  import opened Seqs

  // ---------- splitting ----------

  function FrameLength(data: seq<byte>): nat
    requires |data| >= 4
  {
    data[1] as int + 2
  }

  /** The checksum test of one frame. */
  predicate Intact(f: seq<byte>)
    requires |f| >= 2
  {
    Checksum(f[..|f| - 1]) == f[|f| - 1]
  }

  /** Sender, receiver and payload; a length byte below 2 leaves no payload. */
  function Content(data: seq<byte>): Message
    requires |data| >= 4 && FrameLength(data) <= |data|
  {
    Message(data[0], data[2], if FrameLength(data) < 4 then [] else data[3..FrameLength(data) - 1])
  }

  /** The messages of the frames that pass the checksum, in order; a cut-off frame ends the run. */
  function Split(data: seq<byte>): seq<Message>
    decreases |data|
  {
    if |data| < 4 || |data| < FrameLength(data) then []
    else
      var n := FrameLength(data);
      (if Intact(data[..n]) then [Content(data)] else []) + Split(data[n..])
  }

  // ---------- one corrupted byte per frame ----------

  /** A frame on its way: as it was sent, or with one byte replaced. */
  datatype Slot = Clean(msg: Message) | Corrupt(msg: Message, at: nat, to: byte)

  /** The frame fits its length byte, and a corruption really changes one of the other bytes. */
  predicate Plausible(s: Slot) {
    && |s.msg.data| <= 253
    && (s.Corrupt? ==> s.at < |Frame(s.msg)| && s.at != 1 && Frame(s.msg)[s.at] != s.to)
  }

  function SlotBytes(s: Slot): seq<byte>
    requires Plausible(s)
  {
    match s
    case Clean(m) => Frame(m)
    case Corrupt(m, i, b) => Frame(m)[i := b]
  }

  function Stream(slots: seq<Slot>): seq<byte>
    requires forall s :: s in slots ==> Plausible(s)
  {
    if slots == [] then [] else SlotBytes(slots[0]) + Stream(slots[1..])
  }

  function CleanMsgs(slots: seq<Slot>): seq<Message> {
    if slots == [] then []
    else (if slots[0].Clean? then [slots[0].msg] else []) + CleanMsgs(slots[1..])
  }

  lemma SlotFrame(s: Slot, rest: seq<byte>)
    requires Plausible(s)
    ensures var data := SlotBytes(s) + rest;
            && |data| >= 4 && FrameLength(data) == |SlotBytes(s)| <= |data|
            && data[..|SlotBytes(s)|] == SlotBytes(s) && data[|SlotBytes(s)|..] == rest
            && (Intact(SlotBytes(s)) <==> s.Clean?)
            && (s.Clean? ==> Content(data) == s.msg)
  {
    var f, g := Frame(s.msg), SlotBytes(s);
    var data := g + rest;
    FrameWellFormed(s.msg);
    assert g[1] == f[1] == |f| - 2;
    assert data[..|g|] == g && data[|g|..] == rest;
    if s.Corrupt? {
      CorruptionRejected(s.msg, s.at, s.to);
    } else {
      assert data[3..|g| - 1] == f[3..|f| - 1];
    }
  }

  /**
   However many of the frames are hit in one byte other than the length, and even if the run
   is cut off in the middle of a frame, exactly the intact frames come out, in order.
   */
  lemma {:induction false} Resync(slots: seq<Slot>, tail: seq<byte>, next: Message)
    requires forall s :: s in slots ==> Plausible(s)
    requires |next.data| <= 253 && tail < Frame(next)
    ensures Split(Stream(slots) + tail) == CleanMsgs(slots)
  {
    hide Split, SlotBytes, Frame, Plausible;
    if slots == [] {
      assert Stream(slots) + tail == tail;
      CutOff(tail, next);
    } else {
      var s, rest := slots[0], Stream(slots[1..]) + tail;
      assert forall x :: x in slots[1..] ==> x in slots;
      Resync(slots[1..], tail, next);
      SplitSlot(s, rest);
      assert Stream(slots) + tail == SlotBytes(s) + rest;
    }
  }

  lemma CutOff(tail: seq<byte>, next: Message)
    requires |next.data| <= 253 && tail < Frame(next)
    ensures Split(tail) == []
  {
    assert |tail| >= 4 ==> tail[1] == Frame(next)[1] == |next.data| + 2;
  }

  lemma SplitSlot(s: Slot, rest: seq<byte>)
    requires Plausible(s)
    ensures Split(SlotBytes(s) + rest) == (if s.Clean? then [s.msg] else []) + Split(rest)
  {
    hide Intact, Frame, Checksum;
    SlotFrame(s, rest);
  }

  // ---------- handling ----------

  datatype Event = Acked(msg: Message) | Resent(msg: Message)

  datatype State = State(multi: seq<Message>, rx: seq<Message>, events: seq<Event>)

  predicate ForMe(id: byte, x: Message) {
    (x.receiver == id || x.receiver == BROADCAST) && x.sender != id
  }

  predicate AllFragments(cache: seq<Message>) {
    forall i :: 0 <= i < |cache| ==> cache[i].IsFragment()
  }

  /** The payloads of the first n cached fragments, in order of arrival. */
  function Gathered(cache: seq<Message>, n: nat): seq<byte>
    requires n <= |cache| && AllFragments(cache)
  {
    if n == 0 then [] else Gathered(cache, n - 1) + cache[n - 1].data[3..]
  }

  function Handle(id: byte, recent: seq<Message>, st: State, x: Message): State
    requires AllFragments(st.multi)
  {
    if !ForMe(id, x) then st
    else
      var acks := if x.receiver == id && |x.data| > 0 && x.data[0] != ACK then [Acked(x)] else [];
      var st := st.(events := st.events + acks);
      if x.StartsWith(RESEND) then
        match Lookup(recent, x.receiver, x.sender)
        case Some(m) => st.(events := st.events + [Resent(m)])
        case None => st
      else if x.IsFragment() then
        var multi := st.multi + [x];
        if |multi| >= x.data[1] then
          st.(multi := [], rx := st.rx + [Message(x.sender, x.receiver, Gathered(multi, x.data[1]))])
        else st.(multi := multi)
      else st.(rx := st.rx + [x])
  }

  function HandleAll(id: byte, recent: seq<Message>, st: State, xs: seq<Message>): (r: State)
    requires AllFragments(st.multi)
    ensures AllFragments(r.multi)
  {
    if xs == [] then st else Handle(id, recent, HandleAll(id, recent, st, xs[..|xs| - 1]), xs[|xs| - 1])
  }

  predicate Simple(x: Message) {
    !x.IsFragment() && !x.StartsWith(RESEND)
  }

  /**
   Of a stream of ordinary frames with arbitrary single-byte corruption, the client caches
   exactly the intact ones that are addressed to it or broadcast and not its own, in order.
   */
  lemma IntactDelivered(id: byte, recent: seq<Message>, st: State, slots: seq<Slot>, tail: seq<byte>, next: Message)
    requires AllFragments(st.multi)
    requires forall s :: s in slots ==> Plausible(s) && Simple(s.msg)
    requires |next.data| <= 253 && tail < Frame(next)
    ensures var end := HandleAll(id, recent, st, Split(Stream(slots) + tail));
            && end.rx == st.rx + Filter(CleanMsgs(slots), (x: Message) => x.receiver in {id, 0xFF} && x.sender != id)
            && end.multi == st.multi
  {
    Resync(slots, tail, next);
    CleanSimple(slots);
    SimpleDelivered(id, recent, st, CleanMsgs(slots));
  }

  lemma {:induction false} CleanSimple(slots: seq<Slot>)
    requires forall s :: s in slots ==> Simple(s.msg)
    ensures forall x :: x in CleanMsgs(slots) ==> Simple(x)
  {
    if slots != [] {
      CleanSimple(slots[1..]);
      assert slots[0] in slots;
    }
  }

  lemma {:induction false} SimpleDelivered(id: byte, recent: seq<Message>, st: State, xs: seq<Message>)
    requires AllFragments(st.multi)
    requires forall x :: x in xs ==> Simple(x)
    ensures HandleAll(id, recent, st, xs).rx == st.rx + Filter(xs, (x: Message) => x.receiver in {id, 0xFF} && x.sender != id)
    ensures HandleAll(id, recent, st, xs).multi == st.multi
  {
    if xs != [] {
      SimpleDelivered(id, recent, st, xs[..|xs| - 1]);
      assert xs[|xs| - 1] in xs;
    }
  }

  // ---------- what each message is answered with ----------

  /** The messages acknowledged. */
  function AckedOf(events: seq<Event>): seq<Message> {
    if events == [] then []
    else AckedOf(events[..|events| - 1]) + (if events[|events| - 1].Acked? then [events[|events| - 1].msg] else [])
  }

  /** The messages sent again. */
  function ResentOf(events: seq<Event>): seq<Message> {
    if events == [] then []
    else ResentOf(events[..|events| - 1]) + (if events[|events| - 1].Resent? then [events[|events| - 1].msg] else [])
  }

  lemma EventsPush(events: seq<Event>, e: Event)
    ensures AckedOf(events + [e]) == AckedOf(events) + (if e.Acked? then [e.msg] else [])
    ensures ResentOf(events + [e]) == ResentOf(events) + (if e.Resent? then [e.msg] else [])
  {
    assert (events + [e])[..|events|] == events;
  }

  /** What a resend request calls for: the message last sent from the device asked to the one that asks. */
  function CalledFor(id: byte, sends: seq<Message>, x: Message): seq<Message> {
    if x.receiver in {id, 0xFF} && x.sender != id && |x.data| > 0 && x.data[0] == 0x92 then
      match LastSent(sends, x.receiver, x.sender)
      case Some(m) => [m]
      case None => []
    else []
  }

  function CalledForAll(id: byte, sends: seq<Message>, xs: seq<Message>): seq<Message> {
    if xs == [] then [] else CalledForAll(id, sends, xs[..|xs| - 1]) + CalledFor(id, sends, xs[|xs| - 1])
  }

  /**
   Of any run of messages exactly those from other devices to this one are acknowledged, in order,
   that are neither empty nor acknowledgements, and exactly what the resend requests among them
   call for is sent again, in order.
   */
  lemma {:induction false} AnsweredExactly(id: byte, sends: seq<Message>, st: State, xs: seq<Message>)
    requires AllFragments(st.multi)
    ensures var events := HandleAll(id, RememberAll([], sends), st, xs).events;
            && AckedOf(events) ==
               AckedOf(st.events)
               + Filter(xs, (x: Message) => x.receiver == id && x.sender != id && |x.data| > 0 && x.data[0] != 0x80)
            && ResentOf(events) == ResentOf(st.events) + CalledForAll(id, sends, xs)
  {
    hide Handle, AckedOf, ResentOf, RememberAll, CalledFor;
    if xs != [] {
      var front, x := xs[..|xs| - 1], xs[|xs| - 1];
      AnsweredExactly(id, sends, st, front);
      AnsweredOne(id, sends, HandleAll(id, RememberAll([], sends), st, front), x);
    }
  }

  lemma AnsweredOne(id: byte, sends: seq<Message>, st: State, x: Message)
    requires AllFragments(st.multi)
    ensures var events := Handle(id, RememberAll([], sends), st, x).events;
            && AckedOf(events) ==
               AckedOf(st.events) + (if x.receiver == id && x.sender != id && |x.data| > 0 && x.data[0] != 0x80 then [x] else [])
            && ResentOf(events) == ResentOf(st.events) + CalledFor(id, sends, x)
  {
    hide AckedOf, ResentOf, RememberAll, Lookup, LastSent, Gathered;
    CacheIsLastSent(sends, x.receiver, x.sender);
    EventsPush(st.events, Acked(x));
    var acked := if x.receiver == id && x.sender != id && |x.data| > 0 && x.data[0] != 0x80 then st.events + [Acked(x)] else st.events;
    assert st.events + [] == st.events;
    match LastSent(sends, x.receiver, x.sender) {
      case Some(m) => EventsPush(acked, Resent(m));
      case None =>
    }
  }

  // ---------- long messages: in order of arrival only ----------

  /**
   Fragments to this device that all announce their number are put together in the order of their
   arrival, whatever pairs they belong to, under the name of the last one's.
   */
  lemma {:induction false} PairsMixed(id: byte, recent: seq<Message>, st: State, t: byte, fs: seq<Message>)
    requires st.multi == [] && |fs| <= t
    requires forall i :: 0 <= i < |fs| ==>
               |fs[i].data| >= 3 && fs[i].data[0] == 0x91 && fs[i].data[1] == t
               && fs[i].receiver in {id, 0xFF} && fs[i].sender != id
    ensures AllFragments(fs)
    ensures var end := HandleAll(id, recent, st, fs);
            if |fs| < t || fs == [] then end.multi == fs && end.rx == st.rx
            else
              var last := fs[|fs| - 1];
              end.multi == [] && end.rx == st.rx + [Message(last.sender, last.receiver, Gathered(fs, |fs|))]
  {
    hide Handle, Gathered;
    if fs != [] {
      var front, x := fs[..|fs| - 1], fs[|fs| - 1];
      assert fs == front + [x];
      PairsMixed(id, recent, st, t, front);
      GatherNext(id, recent, HandleAll(id, recent, st, front), t, x);
    }
  }

  lemma GatherNext(id: byte, recent: seq<Message>, st: State, t: byte, x: Message)
    requires AllFragments(st.multi) && |st.multi| < t
    requires |x.data| >= 3 && x.data[0] == 0x91 && x.data[1] == t && x.receiver in {id, 0xFF} && x.sender != id
    ensures AllFragments(st.multi + [x])
    ensures var end, multi := Handle(id, recent, st, x), st.multi + [x];
            if |multi| < t then end.multi == multi && end.rx == st.rx
            else end.multi == [] && end.rx == st.rx + [Message(x.sender, x.receiver, Gathered(multi, |multi|))]
  {
  }

  /** k fragments of a message, in whatever order, are kept; with all of them something is delivered. */
  lemma {:induction false} FragmentsGathered(id: byte, recent: seq<Message>, st: State, m: Message, fs: seq<Message>)
    requires st.multi == [] && ForMe(id, m) && IsLong(m) && Total(m) <= 255
    requires forall i :: 0 <= i < |fs| ==> fs[i] in Fragments(m)
    requires |fs| <= Total(m)
    ensures AllFragments(fs)
    ensures var end := HandleAll(id, recent, st, fs);
            if |fs| < Total(m) then end.multi == fs && end.rx == st.rx
            else end.multi == [] && end.rx == st.rx + [Message(m.sender, m.receiver, Gathered(fs, |fs|))]
  {
    hide Handle, Fragment, Gathered;
    if fs != [] {
      var front, x := fs[..|fs| - 1], fs[|fs| - 1];
      assert fs == front + [x];
      FragmentsGathered(id, recent, st, m, front);
      FragmentsAnnounce(m);
      assert fs[|fs| - 1] in Fragments(m);
      GatherOne(id, recent, HandleAll(id, recent, st, front), m, x);
    }
  }

  lemma GatherOne(id: byte, recent: seq<Message>, st: State, m: Message, x: Message)
    requires ForMe(id, m) && x.IsFragment() && x.SamePair(m) && x.data[1] == Total(m)
    requires AllFragments(st.multi) && |st.multi| < Total(m)
    ensures var end, multi := Handle(id, recent, st, x), st.multi + [x];
            if |multi| < Total(m) then end.multi == multi && end.rx == st.rx
            else end.multi == [] && end.rx == st.rx + [Message(m.sender, m.receiver, Gathered(multi, |multi|))]
  {
  }

  /** In order of their indices the fragments give the message back. */
  lemma InOrderReassembled(id: byte, recent: seq<Message>, st: State, m: Message)
    requires st.multi == [] && ForMe(id, m) && IsLong(m) && |m.data| <= MAX_PAYLOAD
    ensures HandleAll(id, recent, st, Fragments(m)).rx == st.rx + [m]
    ensures HandleAll(id, recent, st, Fragments(m)).multi == []
  {
    hide HandleAll, Gathered, Fragment;
    FragmentsGathered(id, recent, st, m, Fragments(m));
    GatheredInOrder(m, Total(m));
    assert m.data[..ChunkEnd(m, Total(m))] == m.data;
  }

  lemma {:induction false} GatheredInOrder(m: Message, k: nat)
    requires IsLong(m) && k <= Total(m) <= 255
    requires AllFragments(Fragments(m))
    ensures Gathered(Fragments(m), k) == m.data[..ChunkEnd(m, k)]
  {
    if k != 0 {
      GatheredInOrder(m, k - 1);
      FragmentFields(m, k - 1);
      ChunkAppends(m, k - 1);
    }
  }

  /** The payload of the k-th fragment to arrive. */
  function Part(fs: seq<Message>, k: nat): seq<byte>
    requires k < |fs| && AllFragments(fs)
  {
    fs[k].data[3..]
  }

  lemma FragmentOf(m: Message, fs: seq<Message>, k: nat)
    requires IsLong(m) && Total(m) <= 255 && k < |fs| && multiset(fs) == multiset(Fragments(m))
    ensures |fs| == Total(m) && fs[k] in Fragments(m) && fs[k].IsFragment()
    ensures fs[k].data[2] < Total(m) && fs[k] == Fragment(m, fs[k].data[2]) && fs[k].data[3..] == Chunk(m, fs[k].data[2])
  {
    hide Fragment;
    assert |fs| == |multiset(fs)| == |multiset(Fragments(m))|;
    assert fs[k] in multiset(fs);
    var i :| 0 <= i < Total(m) && fs[k] == Fragments(m)[i];
    FragmentsAnnounce(m);
    FragmentFields(m, i);
  }

  lemma AllParts(m: Message, fs: seq<Message>)
    requires IsLong(m) && Total(m) <= 255 && multiset(fs) == multiset(Fragments(m))
    ensures |fs| == Total(m) && AllFragments(fs)
    ensures forall k :: 0 <= k < |fs| ==> fs[k] in Fragments(m)
  {
    hide Fragment;
    assert |fs| == |multiset(fs)| == |multiset(Fragments(m))|;
    forall k | 0 <= k < |fs|
      ensures fs[k].IsFragment() && fs[k] in Fragments(m)
    {
      FragmentOf(m, fs, k);
    }
  }

  /** Where the payload of the k-th fragment to arrive ends up, when the short one arrives at place j. */
  function Place(m: Message, j: nat, k: nat): nat
    requires j < Total(m) && k <= Total(m)
  {
    if k <= j then AIDATA_LIMIT * k else AIDATA_LIMIT * (k - 1) + |Chunk(m, Total(m) - 1)|
  }

  /** The bytes at the place of the k-th fragment to arrive. */
  function LyingAt(m: Message, j: nat, k: nat, data: seq<byte>): seq<byte>
    requires j < Total(m) && k < Total(m)
  {
    var lo, hi := Place(m, j, k), Place(m, j, k + 1);
    if lo <= hi <= |data| then data[lo..hi] else []
  }

  lemma PlaceFits(m: Message, j: nat, k: nat)
    requires IsLong(m) && j < Total(m) && k < Total(m)
    ensures Place(m, j, k) < Place(m, j, k + 1) <= |m.data| && Place(m, j, Total(m)) == |m.data|
    ensures Place(m, j, k + 1) == Place(m, j, k) + if k == j then |Chunk(m, Total(m) - 1)| else AIDATA_LIMIT
  {
  }

  lemma {:induction false} PartsLaidOut(m: Message, fs: seq<Message>, j: nat, n: nat)
    requires IsLong(m) && Total(m) <= 255 && multiset(fs) == multiset(Fragments(m))
    requires AllFragments(fs) && j < |fs| == Total(m) && n <= |fs| && fs[j] == Fragment(m, Total(m) - 1)
    ensures |Gathered(fs, n)| == Place(m, j, n)
    ensures forall k :: 0 <= k < n ==> LyingAt(m, j, k, Gathered(fs, n)) == Part(fs, k)
  {
    hide Fragment, Chunk, Total, Place;
    if n == 0 {
      FirstPlace(m, j);
    } else {
      PartsLaidOut(m, fs, j, n - 1);
      PartLength(m, fs, j, n - 1);
      var before, all := Gathered(fs, n - 1), Gathered(fs, n);
      assert all == before + Part(fs, n - 1);
      forall k | 0 <= k < n
        ensures LyingAt(m, j, k, all) == Part(fs, k)
      {
        PlaceFits(m, j, k);
        if k < n - 1 {
          PlaceOrder(m, j, k + 1, n - 1);
          assert LyingAt(m, j, k, before) == Part(fs, k);
          SliceOfPrefix(before, Part(fs, n - 1), Place(m, j, k), Place(m, j, k + 1));
        } else {
          assert all[Place(m, j, k)..Place(m, j, k + 1)] == Part(fs, k);
        }
      }
    }
  }

  lemma SliceOfPrefix<T>(a: seq<T>, b: seq<T>, lo: nat, hi: nat)
    requires lo <= hi <= |a|
    ensures (a + b)[lo..hi] == a[lo..hi]
  {
  }

  lemma FirstPlace(m: Message, j: nat)
    requires j < Total(m)
    ensures Place(m, j, 0) == 0
  {
  }

  lemma PlaceOrder(m: Message, j: nat, a: nat, b: nat)
    requires IsLong(m) && j < Total(m) && a <= b <= Total(m)
    ensures Place(m, j, a) <= Place(m, j, b)
  {
  }

  lemma PartLength(m: Message, fs: seq<Message>, j: nat, k: nat)
    requires IsLong(m) && Total(m) <= 255 && multiset(fs) == multiset(Fragments(m))
    requires AllFragments(fs) && j < |fs| == Total(m) && k < |fs| && fs[j] == Fragment(m, Total(m) - 1)
    ensures Place(m, j, k + 1) == Place(m, j, k) + |Part(fs, k)|
  {
    hide Fragment, Chunk, Place;
    FragmentOf(m, fs, k);
    FragmentFields(m, Total(m) - 1);
    PlaceFits(m, j, k);
    if k != j {
      FragmentsDistinct(m, Total(m) - 1);
      OnceOnly(fs, j, k);
      FullChunk(m, fs[k].data[2]);
    }
  }

  lemma FullChunk(m: Message, i: nat)
    requires i < Total(m)
    ensures i < Total(m) - 1 ==> |Chunk(m, i)| == AIDATA_LIMIT
    ensures |Chunk(m, i)| == AIDATA_LIMIT && i == Total(m) - 1 ==> |m.data| % AIDATA_LIMIT == 0
    ensures |m.data| % AIDATA_LIMIT == 0 ==> |Chunk(m, i)| == AIDATA_LIMIT
  {
  }

  lemma OnceOnly(fs: seq<Message>, j: nat, k: nat)
    requires j < |fs| && k < |fs| && j != k && multiset(fs)[fs[j]] == 1
    ensures fs[j] != fs[k]
  {
    var a, b := if j < k then j else k, if j < k then k else j;
    assert fs == fs[..a] + [fs[a]] + fs[a + 1..b] + [fs[b]] + fs[b + 1..];
  }

  /**
   All fragments of a long message arrive, in any order, the last one of them (the short one,
   if there is a short one) at place j. The client delivers the message exactly if each
   fragment carries just the bytes that belong where it comes to lie: at 32 times its place of
   arrival, shifted for those that come after the short one.
   */
  lemma AnyOrderDelivered(id: byte, recent: seq<Message>, st: State, m: Message, fs: seq<Message>, j: nat)
    requires st.multi == [] && ForMe(id, m) && IsLong(m) && |m.data| <= MAX_PAYLOAD
    requires multiset(fs) == multiset(Fragments(m))
    requires j < |fs| && fs[j] == Fragment(m, Total(m) - 1)
    ensures |fs| == Total(m) && AllFragments(fs)
    ensures var end := HandleAll(id, recent, st, fs);
            && end.multi == [] && |end.rx| == |st.rx| + 1
            && (end.rx == st.rx + [m] <==> forall k :: 0 <= k < |fs| ==> Part(fs, k) == LyingAt(m, j, k, m.data))
  {
    hide HandleAll, Gathered, Fragment, Chunk, Place, LyingAt;
    AllParts(m, fs);
    FragmentsGathered(id, recent, st, m, fs);
    PartsLaidOut(m, fs, j, |fs|);
    PlaceFits(m, j, j);
    var got := Message(m.sender, m.receiver, Gathered(fs, |fs|));
    assert (st.rx + [got])[|st.rx|] == got && (st.rx + [m])[|st.rx|] == m;
    if forall k :: 0 <= k < |fs| ==> Part(fs, k) == LyingAt(m, j, k, m.data) {
      forall k | 0 <= k < Total(m)
        ensures LyingAt(m, j, k, got.data) == LyingAt(m, j, k, m.data)
      {
        assert Part(fs, k) == LyingAt(m, j, k, m.data);
      }
      PiecesAgree(m, j, got.data, m.data, |fs|);
    }
  }

  lemma {:induction false} PiecesAgree(m: Message, j: nat, a: seq<byte>, b: seq<byte>, n: nat)
    requires IsLong(m) && j < Total(m) && n <= Total(m) && |a| == |b| == |m.data|
    requires forall k :: 0 <= k < Total(m) ==> LyingAt(m, j, k, a) == LyingAt(m, j, k, b)
    ensures Place(m, j, n) <= |m.data| && a[..Place(m, j, n)] == b[..Place(m, j, n)]
    ensures n == Total(m) ==> a == b
  {
    hide Total, Chunk, Place;
    if n > 0 {
      PiecesAgree(m, j, a, b, n - 1);
      PlaceFits(m, j, n - 1);
      var p, q := Place(m, j, n - 1), Place(m, j, n);
      assert LyingAt(m, j, n - 1, a) == LyingAt(m, j, n - 1, b);
      assert a[..q] == a[..p] + a[p..q] && b[..q] == b[..p] + b[p..q];
      if n == Total(m) {
        assert a[..|a|] == a && b[..|b|] == b;
      }
    } else {
      FirstPlace(m, j);
    }
  }

  /**
   In particular, if all fragments are of the same length or the short one comes last, exactly
   those orders deliver the message in which each place has the chunk that belongs there.
   */
  lemma AlignedOrderDelivered(id: byte, recent: seq<Message>, st: State, m: Message, fs: seq<Message>)
    requires st.multi == [] && ForMe(id, m) && IsLong(m) && |m.data| <= MAX_PAYLOAD
    requires multiset(fs) == multiset(Fragments(m)) && |fs| == Total(m) && AllFragments(fs)
    requires |m.data| % AIDATA_LIMIT == 0 || fs[|fs| - 1] == Fragment(m, Total(m) - 1)
    ensures HandleAll(id, recent, st, fs).rx == st.rx + [m] <==>
              forall k :: 0 <= k < |fs| ==> Part(fs, k) == Chunk(m, k)
  {
    hide HandleAll, Fragment, Place, LyingAt, Chunk;
    var j := LastAt(m, fs);
    AnyOrderDelivered(id, recent, st, m, fs, j);
    forall k | 0 <= k < |fs|
      ensures LyingAt(m, j, k, m.data) == Chunk(m, k)
    {
      ChunksAligned(m, j, k);
    }
  }

  /** Where the last fragment arrives. */
  lemma LastAt(m: Message, fs: seq<Message>) returns (j: nat)
    requires IsLong(m) && Total(m) <= 255 && |fs| == Total(m) && multiset(fs) == multiset(Fragments(m))
    ensures j < |fs| && fs[j] == Fragment(m, Total(m) - 1)
    ensures fs[|fs| - 1] == Fragment(m, Total(m) - 1) ==> j == |fs| - 1
  {
    hide Fragment;
    var last := Fragment(m, Total(m) - 1);
    if fs[|fs| - 1] == last {
      j := |fs| - 1;
    } else {
      assert Fragments(m)[Total(m) - 1] == last && last in multiset(Fragments(m));
      assert last in fs;
      j :| 0 <= j < |fs| && fs[j] == last;
    }
  }

  lemma ChunksAligned(m: Message, j: nat, k: nat)
    requires IsLong(m) && j < Total(m) && (|m.data| % AIDATA_LIMIT == 0 || j == Total(m) - 1)
    requires k < Total(m)
    ensures LyingAt(m, j, k, m.data) == Chunk(m, k)
  {
    PlaceFits(m, j, k);
    FullChunk(m, Total(m) - 1);
  }

  /** Unlike the other two receivers this one needs the order: any two swapped fragments that differ give another message. */
  lemma SwappedFragmentsDiffer(id: byte, recent: seq<Message>, st: State, m: Message, a: nat, b: nat)
    requires st.multi == [] && ForMe(id, m) && IsLong(m) && |m.data| <= MAX_PAYLOAD
    requires a < b < Total(m) && |Chunk(m, b)| == AIDATA_LIMIT
    ensures HandleAll(id, recent, st, Fragments(m)[a := Fragments(m)[b]][b := Fragments(m)[a]]).rx == st.rx + [m]
            <==> Chunk(m, a) == Chunk(m, b)
  {
    hide HandleAll, Fragment, Chunk;
    var order := Fragments(m);
    var fs := order[a := order[b]][b := order[a]];
    Swapped(order, a, b);
    AllParts(m, fs);
    FullChunk(m, b);
    AlignedOrderDelivered(id, recent, st, m, fs);
    forall k | 0 <= k < |fs|
      ensures Part(fs, k) == Chunk(m, if k == a then b else if k == b then a else k)
    {
      FragmentFields(m, if k == a then b else if k == b then a else k);
    }
    if forall k :: 0 <= k < |fs| ==> Part(fs, k) == Chunk(m, k) {
      assert Part(fs, a) == Chunk(m, a);
    }
  }

  lemma Swapped<T>(s: seq<T>, a: nat, b: nat)
    requires a < b < |s|
    ensures multiset(s[a := s[b]][b := s[a]]) == multiset(s)
  {
  }

  // ---------- the handler ----------

  class ClientAIBusHandler {
    const myId: byte
    var rxCache: seq<Message>
    var multiCache: seq<Message>
    var recentTx: seq<Message>
    ghost var events: seq<Event>

    constructor (id: byte)
      ensures myId == id && Valid() && rxCache == [] && recentTx == []
    {
      myId, rxCache, multiCache, recentTx, events := id, [], [], [], [];
    }

    ghost predicate Valid()
      reads this
    {
      AllFragments(multiCache)
    }

    ghost function View(): State
      reads this
    {
      State(multiCache, rxCache, events)
    }

    /** cacheAIData */
    method CacheAIData(data: seq<byte>)
      requires Valid()
      modifies this`rxCache, this`multiCache, this`events
      ensures Valid()
      ensures View() == HandleAll(myId, recentTx, old(View()), Split(data))
    {
      if |data| < 4 {
        return;
      }
      hide HandleAll, Split, Handle, AllFragments;
      ghost var done: seq<Message> := [];
      HandleNone(myId, recentTx, View());
      var dataVec := data;
      while |dataVec| > 0
        invariant Valid()
        invariant done + Split(dataVec) == Split(data)
        invariant View() == HandleAll(myId, recentTx, old(View()), done)
        decreases |dataVec|
      {
        SplitStops(dataVec, done);
        if |dataVec| < 4 {
          return;
        }
        var expectedLength := dataVec[1] as int + 2;
        if |dataVec| < expectedLength {
          return;
        }
        var n := expectedLength - 1;
        assert dataVec[..expectedLength][..n] == dataVec[..n];
        var chex := XorFirst(dataVec, n);
        SplitRound(dataVec, done);
        if chex == dataVec[n] {
          var x := Message(dataVec[0], dataVec[2], if expectedLength < 4 then [] else dataVec[3..n]);
          HandleFrame(x);
          HandleNext(myId, recentTx, old(View()), done, x);
          done := done + [x];
        }
        dataVec := dataVec[expectedLength..];
      }
      SplitStops(dataVec, done);
    }

    method HandleFrame(x: Message)
      requires Valid()
      modifies this`rxCache, this`multiCache, this`events
      ensures Valid()
      ensures View() == Handle(myId, recentTx, old(View()), x)
    {
      if (x.receiver == myId || x.receiver == BROADCAST) && x.sender != myId {
        assert events + [] == events;
        if x.receiver == myId && |x.data| > 0 && x.data[0] != ACK {
          events := events + [Acked(x)];
        }
        if |x.data| >= 1 && x.data[0] == RESEND {
          var last := FindRecent(recentTx, x.receiver, x.sender);
          if last.Some? {
            events := events + [Resent(last.value)];
          }
        } else if |x.data| >= 3 && x.data[0] == MULTI {
          var expectedSize := x.data[1];
          multiCache := multiCache + [x];
          if |multiCache| >= expectedSize {
            var fullData := Gather(multiCache, expectedSize);
            multiCache := [];
            rxCache := rxCache + [Message(x.sender, x.receiver, fullData)];
          }
        } else {
          rxCache := rxCache + [x];
        }
      }
    }
  }

  lemma SplitRound(data: seq<byte>, done: seq<Message>)
    requires |data| >= 4 && FrameLength(data) <= |data|
    ensures var n := FrameLength(data);
            done + Split(data) == (if Intact(data[..n]) then done + [Content(data)] else done) + Split(data[n..])
  {
    hide Intact, Content;
    var n := FrameLength(data);
    assert done + ([Content(data)] + Split(data[n..])) == done + [Content(data)] + Split(data[n..]);
    assert [] + Split(data[n..]) == Split(data[n..]);
  }

  lemma SplitStops(data: seq<byte>, done: seq<Message>)
    ensures |data| < 4 || |data| < FrameLength(data) ==> done + Split(data) == done
  {
  }

  lemma HandleNone(id: byte, recent: seq<Message>, st: State)
    requires AllFragments(st.multi)
    ensures HandleAll(id, recent, st, []) == st
  {
  }

  lemma HandleNext(id: byte, recent: seq<Message>, st: State, done: seq<Message>, x: Message)
    requires AllFragments(st.multi)
    ensures HandleAll(id, recent, st, done + [x]) == Handle(id, recent, HandleAll(id, recent, st, done), x)
  {
    assert (done + [x])[..|done|] == done;
  }

  method Gather(cache: seq<Message>, n: nat) returns (fullData: seq<byte>)
    requires n <= |cache| && AllFragments(cache)
    ensures fullData == Gathered(cache, n)
  {
    fullData := [];
    for m := 0 to n
      invariant fullData == Gathered(cache, m)
    {
      ghost var before := fullData;
      for i := 0 to |cache[m].data| - 3
        invariant fullData == before + cache[m].data[3..i + 3]
      {
        fullData := fullData + [cache[m].data[i + 3]];
      }
    }
  }
}
