/**
 The Android Auto transport (aap/aa_handler.rs): a message is cut into frames of at most
 0x4000 bytes, and the frames of different channels may be interleaved on the wire.
 */
module AapChannels {
  import opened Bytes
  import opened Seqs

  const MAX_FRAME := 0x4000
  const CHANNELS := 256

  /** The bits of the flag byte. */
  const FIRST := 1
  const LAST := 2
  const CONTROL := 4

  function Be16(n: nat): (b: seq<byte>)
    ensures |b| == 2
  {
    [Low(n / 256), Low(n)]
  }

  function Be32(n: nat): (b: seq<byte>)
    ensures |b| == 4
  {
    [Low(n / 0x100_0000), Low(n / 0x1_0000), Low(n / 256), Low(n)]
  }

  // ---------- frames ----------

  predicate IsFirst(f: seq<byte>)
    requires |f| >= 2
  {
    f[1] % 2 == 1
  }

  predicate IsLast(f: seq<byte>)
    requires |f| >= 2
  {
    f[1] / 2 % 2 == 1
  }

  predicate IsEncrypted(f: seq<byte>)
    requires |f| >= 2
  {
    f[1] / 8 % 2 == 1
  }

  /** Where the payload of a frame starts: the first of several frames also carries the total length. */
  function Start(f: seq<byte>): nat
    requires |f| >= 2
  {
    if IsFirst(f) && !IsLast(f) then 8 else 4
  }

  predicate Readable(f: seq<byte>) {
    |f| >= 4 && Start(f) <= |f| && !IsEncrypted(f)
  }

  function MessageType(m: seq<byte>): nat
    requires |m| >= 2
  {
    m[0] as int * 256 + m[1]
  }

  function InitFlags(channel: byte, m: seq<byte>): (flags: byte)
    requires |m| >= 2
    ensures flags == 0 || flags == 4
  {
    if channel != 0 && 2 <= MessageType(m) < 0x8000 then CONTROL else 0
  }

  /** Frames 0 to FrameCount - 1; a length that is a multiple of 0x4000 ends in an empty frame. */
  function FrameCount(m: seq<byte>): nat {
    |m| / MAX_FRAME + 1
  }

  function FrameEnd(m: seq<byte>, k: nat): nat {
    if k * MAX_FRAME <= |m| then k * MAX_FRAME else |m|
  }

  function FrameBytes(channel: byte, m: seq<byte>, k: nat): seq<byte>
    requires |m| >= 2 && k < FrameCount(m)
  {
    var first, last := k == 0, k + 1 == FrameCount(m);
    var flags := InitFlags(channel, m) as int + (if first then FIRST else 0) + (if last then LAST else 0);
    var payload := m[k * MAX_FRAME..FrameEnd(m, k + 1)];
    [channel, flags] + Be16(|payload|) + (if first && !last then Be32(|m|) else []) + payload
  }

  function MessageFrames(channel: byte, m: seq<byte>): (fs: seq<seq<byte>>)
    requires |m| >= 2
    ensures |fs| == FrameCount(m) && forall k :: 0 <= k < |fs| ==> fs[k] == FrameBytes(channel, m, k)
  {
    seq(FrameCount(m), k requires 0 <= k < FrameCount(m) => FrameBytes(channel, m, k))
  }

  lemma FrameShape(channel: byte, m: seq<byte>, k: nat)
    requires |m| >= 2 && k < FrameCount(m)
    ensures var f := FrameBytes(channel, m, k);
            && Readable(f) && f[0] == channel
            && (IsFirst(f) <==> k == 0) && (IsLast(f) <==> k + 1 == FrameCount(m))
            && f[Start(f)..] == m[k * MAX_FRAME..FrameEnd(m, k + 1)]
            && m[..k * MAX_FRAME] + f[Start(f)..] == m[..FrameEnd(m, k + 1)]
  {
    hide InitFlags, Be16, Be32;
  }

  /**
   What the header says, read as the receiver reads it: the control bit for messages of the types 2
   to 0x7FFF on every channel but 0, the payload's length, and on the first of several frames the
   length of the whole message.
   */
  lemma FrameHeader(channel: byte, m: seq<byte>, k: nat)
    requires |m| >= 2 && k < FrameCount(m)
    ensures var f := FrameBytes(channel, m, k);
            && |f| >= 4 && f[0] == channel && f[1] < 8
            && (f[1] % 2 == 1 <==> k == 0)
            && (f[1] / 2 % 2 == 1 <==> |m| < 0x4000 * (k + 1))
            && (f[1] / 4 % 2 == 1 <==> channel != 0 && 2 <= m[0] as int * 256 + m[1] < 0x8000)
            && f[2] as int * 256 + f[3] == |f| - (if k == 0 && |m| >= 0x4000 then 8 else 4)
            && (k == 0 && |m| >= 0x4000 ==>
                  |f| >= 8 && f[4] as int * 0x100_0000 + f[5] as int * 0x1_0000 + f[6] as int * 0x100 + f[7] == |m| % 0x1_0000_0000)
  {
    var f := FrameBytes(channel, m, k);
    var payload := m[k * MAX_FRAME..FrameEnd(m, k + 1)];
    assert |payload| <= MAX_FRAME;
    if k == 0 && |m| >= 0x4000 {
      Be32Read(|m|);
      assert f[4..8] == Be32(|m|);
    }
  }

  lemma Be32Read(n: nat)
    ensures var b := Be32(n);
            b[0] as int * 0x100_0000 + b[1] as int * 0x1_0000 + b[2] as int * 0x100 + b[3] == n % 0x1_0000_0000
  {
    hide Be32;
    var q := n / 0x1_0000;
    Be32Split(n);
    TwoBytes(q);
    TwoBytes(n);
    FourBytes(n);
  }

  lemma Be32Split(n: nat)
    ensures Be32(n) == [Low(n / 0x1_0000 / 0x100), Low(n / 0x1_0000), Low(n / 0x100), Low(n)]
  {
  }

  lemma TwoBytes(n: nat)
    ensures n % 0x1_0000 == Low(n / 0x100) * 0x100 + Low(n)
  {
    var q := n / 0x100;
    var p := q / 0x100;
    assert n == q * 0x100 + Low(n) && q == p * 0x100 + Low(q);
    Remainder(n, p, Low(q) * 0x100 + Low(n));
  }

  lemma Remainder(n: nat, p: nat, r: nat)
    requires n == p * 0x1_0000 + r && r < 0x1_0000
    ensures n % 0x1_0000 == r
  {
  }

  lemma FourBytes(n: nat)
    ensures n % 0x1_0000_0000 == n / 0x1_0000 % 0x1_0000 * 0x1_0000 + n % 0x1_0000
  {
  }

  // ---------- one channel ----------

  /** The bytes collected on a channel, and whether its last frame has come. */
  datatype Chan = Chan(buf: seq<byte>, complete: bool)

  const EMPTY := Chan([], false)

  /** The plain path of process_bytes, for a frame that has been read whole; other frames add nothing. */
  function Absorb(ch: Chan, f: seq<byte>): Chan {
    if |f| < 4 then ch
    else
      var ch := if IsFirst(f) then EMPTY else ch;
      if !Readable(f) then ch else Chan(ch.buf + f[Start(f)..], ch.complete || IsLast(f))
  }

  /** process_message hands a complete message on and clears the channel; below two bytes it does nothing. */
  function Served(ch: Chan): (Chan, seq<seq<byte>>) {
    if ch.complete && |ch.buf| >= 2 then (EMPTY, [ch.buf]) else (ch, [])
  }

  /** No channel holds a message that could be handed on. */
  predicate Settled(ch: Chan) {
    Served(ch).1 == []
  }

  /** A channel on its own: its final state and the messages handed on. */
  function RunChan(ch: Chan, fs: seq<seq<byte>>): (Chan, seq<seq<byte>>) {
    if fs == [] then (ch, [])
    else
      var (mid, out) := RunChan(ch, fs[..|fs| - 1]);
      var (end, more) := Served(Absorb(mid, fs[|fs| - 1]));
      (end, out + more)
  }

  lemma RunChanPush(ch: Chan, fs: seq<seq<byte>>, f: seq<byte>)
    ensures var mid := RunChan(ch, fs);
            RunChan(ch, fs + [f]) == (Served(Absorb(mid.0, f)).0, mid.1 + Served(Absorb(mid.0, f)).1)
  {
    assert (fs + [f])[..|fs|] == fs;
  }

  lemma {:induction false} RunChanConcat(ch: Chan, a: seq<seq<byte>>, b: seq<seq<byte>>)
    ensures var mid := RunChan(ch, a);
            RunChan(ch, a + b) == (RunChan(mid.0, b).0, mid.1 + RunChan(mid.0, b).1)
  {
    var mid := RunChan(ch, a);
    if b == [] {
      assert a + b == a && mid.1 + [] == mid.1;
    } else {
      var front, f := b[..|b| - 1], b[|b| - 1];
      RunChanConcat(ch, a, front);
      RunChanConcatStep(ch, a, front, f);
      assert front + [f] == b;
    }
  }

  lemma RunChanConcatStep(ch: Chan, a: seq<seq<byte>>, b: seq<seq<byte>>, f: seq<byte>)
    requires var mid := RunChan(ch, a);
             RunChan(ch, a + b) == (RunChan(mid.0, b).0, mid.1 + RunChan(mid.0, b).1)
    ensures var mid := RunChan(ch, a);
            RunChan(ch, a + (b + [f])) == (RunChan(mid.0, b + [f]).0, mid.1 + RunChan(mid.0, b + [f]).1)
  {
    hide RunChan, Absorb, Served;
    var mid := RunChan(ch, a);
    assert a + (b + [f]) == a + b + [f];
    RunChanPush(ch, a + b, f);
    RunChanPush(mid.0, b, f);
    var out := Served(Absorb(RunChan(mid.0, b).0, f)).1;
    assert mid.1 + (RunChan(mid.0, b).1 + out) == mid.1 + RunChan(mid.0, b).1 + out;
  }

  /** After k frames of a message but the last, its first k * 0x4000 bytes are there, incomplete. */
  lemma {:induction false} Midway(ch: Chan, channel: byte, m: seq<byte>, k: nat)
    requires |m| >= 2 && 0 < k < FrameCount(m)
    ensures RunChan(ch, MessageFrames(channel, m)[..k]) == (Chan(m[..k * MAX_FRAME], false), [])
  {
    hide RunChan, FrameBytes;
    var fs := MessageFrames(channel, m);
    assert fs[..k] == fs[..k - 1] + [fs[k - 1]];
    RunChanPush(ch, fs[..k - 1], fs[k - 1]);
    FrameShape(channel, m, k - 1);
    if k > 1 {
      Midway(ch, channel, m, k - 1);
    } else {
      assert fs[..0] == [];
      RunChanNone(ch);
    }
    assert FrameEnd(m, k) == k * MAX_FRAME;
    var mid := RunChan(ch, fs[..k - 1]);
    assert mid.1 == [] && (k > 1 ==> mid.0 == Chan(m[..(k - 1) * MAX_FRAME], false));
    assert Absorb(mid.0, fs[k - 1]) == Chan(m[..k * MAX_FRAME], false);
    assert mid.1 + Served(Absorb(mid.0, fs[k - 1])).1 == [];
  }

  lemma RunChanOne(ch: Chan, f: seq<byte>)
    ensures RunChan(ch, [f]) == Served(Absorb(ch, f))
  {
    RunChanNone(ch);
    RunChanPush(ch, [], f);
    assert [] + [f] == [f];
    var (end, out) := Served(Absorb(ch, f));
    assert [] + out == out;
  }

  lemma RunChanNone(ch: Chan)
    ensures RunChan(ch, []) == (ch, [])
  {
  }

  /** With its last frame the message is handed on whole, whatever the channel held before. */
  lemma OneMessage(ch: Chan, channel: byte, m: seq<byte>)
    requires |m| >= 2
    ensures RunChan(ch, MessageFrames(channel, m)) == (EMPTY, [m])
  {
    hide RunChan, FrameBytes;
    var fs := MessageFrames(channel, m);
    var n := |fs| - 1;
    assert fs == fs[..n] + [fs[n]];
    RunChanPush(ch, fs[..n], fs[n]);
    FrameShape(channel, m, n);
    if n > 0 {
      Midway(ch, channel, m, n);
    } else {
      assert fs[..n] == [];
      RunChanNone(ch);
    }
    assert m[..FrameEnd(m, n + 1)] == m;
    var mid := RunChan(ch, fs[..n]);
    assert Absorb(mid.0, fs[n]) == Chan(m, true);
    assert mid.1 + [m] == [m];
  }

  /** Without the frames before a, the rest of a message is added to what the channel holds, and that handed on. */
  lemma {:induction false} RestAppended(ch: Chan, channel: byte, m: seq<byte>, a: nat)
    requires |m| >= 2 && 0 < a < FrameCount(m) && !ch.complete
    ensures var out := ch.buf + m[a * MAX_FRAME..];
            RunChan(ch, MessageFrames(channel, m)[a..]) == if |out| >= 2 then (EMPTY, [out]) else (Chan(out, true), [])
    decreases FrameCount(m) - a
  {
    hide RunChan, FrameBytes;
    var fs := MessageFrames(channel, m);
    var next := ch.buf + m[a * MAX_FRAME..FrameEnd(m, a + 1)];
    FrameShape(channel, m, a);
    assert fs[a..] == [fs[a]] + fs[a + 1..];
    RunChanOne(ch, fs[a]);
    assert Absorb(ch, fs[a]) == Chan(next, a + 1 == FrameCount(m));
    if a + 1 < FrameCount(m) {
      RestAppended(Chan(next, false), channel, m, a + 1);
      RunChanConcat(ch, [fs[a]], fs[a + 1..]);
      var more := RunChan(Chan(next, false), fs[a + 1..]).1;
      assert [] + more == more;
      assert next + m[(a + 1) * MAX_FRAME..] == ch.buf + m[a * MAX_FRAME..];
    } else {
      assert fs[a + 1..] == [] && [fs[a]] + [] == [fs[a]];
      assert m[a * MAX_FRAME..FrameEnd(m, a + 1)] == m[a * MAX_FRAME..];
    }
  }

  /** Frames missing from the middle of a message are not noticed: it is handed on with a gap. */
  lemma GapUnnoticed(ch: Chan, channel: byte, m: seq<byte>, k: nat, a: nat)
    requires |m| >= 2 && 0 < k < a < FrameCount(m)
    ensures RunChan(ch, MessageFrames(channel, m)[..k] + MessageFrames(channel, m)[a..]) ==
            (EMPTY, [m[..k * MAX_FRAME] + m[a * MAX_FRAME..]])
  {
    hide RunChan, FrameBytes;
    var fs := MessageFrames(channel, m);
    Midway(ch, channel, m, k);
    RestAppended(Chan(m[..k * MAX_FRAME], false), channel, m, a);
    RunChanConcat(ch, fs[..k], fs[a..]);
    var out := m[..k * MAX_FRAME] + m[a * MAX_FRAME..];
    assert |out| >= 2 && [] + [out] == [out];
  }

  function AllFrames(channel: byte, ms: seq<seq<byte>>): seq<seq<byte>>
    requires forall m :: m in ms ==> |m| >= 2
  {
    if ms == [] then [] else AllFrames(channel, ms[..|ms| - 1]) + MessageFrames(channel, ms[|ms| - 1])
  }

  /** A channel that receives the frames of several messages hands on those messages. */
  lemma {:induction false} AllMessages(ch: Chan, channel: byte, ms: seq<seq<byte>>)
    requires forall m :: m in ms ==> |m| >= 2
    ensures RunChan(ch, AllFrames(channel, ms)) == (if ms == [] then ch else EMPTY, ms)
  {
    hide RunChan;
    if ms == [] {
      RunChanNone(ch);
    } else {
      var front, m := ms[..|ms| - 1], ms[|ms| - 1];
      AllMessages(ch, channel, front);
      OneMessage(RunChan(ch, AllFrames(channel, front)).0, channel, m);
      RunChanConcat(ch, AllFrames(channel, front), MessageFrames(channel, m));
      assert ms == front + [m];
    }
  }

  // ---------- all channels ----------

  datatype World = World(chans: seq<Chan>, delivered: seq<(byte, seq<byte>)>)
  {
    predicate Valid() {
      |chans| == CHANNELS && forall c :: 0 <= c < CHANNELS ==> Settled(chans[c])
    }
  }

  function Tagged(channel: byte, ms: seq<seq<byte>>): (r: seq<(byte, seq<byte>)>)
    ensures |r| == |ms|
  {
    seq(|ms|, i requires 0 <= i < |ms| => (channel, ms[i]))
  }

  /** One frame arrives, and what is complete is handed on. */
  function Step(w: World, f: seq<byte>): World
    requires |w.chans| == CHANNELS
  {
    if |f| < 4 then w
    else
      var (ch, out) := Served(Absorb(w.chans[f[0]], f));
      World(w.chans[f[0] := ch], w.delivered + Tagged(f[0], out))
  }

  function Run(w: World, wire: seq<seq<byte>>): (r: World)
    requires |w.chans| == CHANNELS
    ensures |r.chans| == CHANNELS
  {
    if wire == [] then w else Step(Run(w, wire[..|wire| - 1]), wire[|wire| - 1])
  }

  function Own(channel: byte, wire: seq<seq<byte>>): seq<seq<byte>> {
    Filter(wire, (f: seq<byte>) => |f| >= 4 && f[0] == channel)
  }

  lemma OwnNone(channel: byte)
    ensures Own(channel, []) == []
  {
  }

  lemma OwnPush(channel: byte, wire: seq<seq<byte>>, f: seq<byte>)
    ensures Own(channel, wire + [f]) ==
            if |f| >= 4 && f[0] == channel then Own(channel, wire) + [f] else Own(channel, wire)
  {
    FilterPush(wire, f, (f: seq<byte>) => |f| >= 4 && f[0] == channel);
  }

  /** The messages handed on for one channel. */
  function DeliveredOn(delivered: seq<(byte, seq<byte>)>, channel: byte): seq<seq<byte>> {
    if delivered == [] then []
    else
      DeliveredOn(delivered[..|delivered| - 1], channel)
      + (if delivered[|delivered| - 1].0 == channel then [delivered[|delivered| - 1].1] else [])
  }

  /** A channel sees its own frames and nothing else, however they are interleaved with those of others. */
  lemma {:induction false} Noninterference(w: World, wire: seq<seq<byte>>, c: byte)
    requires |w.chans| == CHANNELS
    ensures var own := RunChan(w.chans[c], Own(c, wire));
            && Run(w, wire).chans[c] == own.0
            && DeliveredOn(Run(w, wire).delivered, c) == DeliveredOn(w.delivered, c) + own.1
  {
    hide RunChan, DeliveredOn, Step, Own;
    if wire == [] {
      assert DeliveredOn(w.delivered, c) + [] == DeliveredOn(w.delivered, c);
      RunChanNone(w.chans[c]);
      OwnNone(c);
    } else {
      var front, f := wire[..|wire| - 1], wire[|wire| - 1];
      Noninterference(w, front, c);
      assert wire == front + [f];
      OwnPush(c, front, f);
      StepOnChannel(Run(w, front), f, c);
      assert DeliveredOn(Run(w, front).delivered, c) + [] == DeliveredOn(Run(w, front).delivered, c);
      if |f| >= 4 && f[0] == c {
        RunChanPush(w.chans[c], Own(c, front), f);
        var own := RunChan(w.chans[c], Own(c, front));
        var out := Served(Absorb(own.0, f)).1;
        assert DeliveredOn(w.delivered, c) + own.1 + out == DeliveredOn(w.delivered, c) + (own.1 + out);
      }
    }
  }

  lemma StepOnChannel(w: World, f: seq<byte>, c: byte)
    requires |w.chans| == CHANNELS
    ensures var mine := |f| >= 4 && f[0] == c;
            && Step(w, f).chans[c] == (if mine then Served(Absorb(w.chans[c], f)).0 else w.chans[c])
            && DeliveredOn(Step(w, f).delivered, c) ==
               DeliveredOn(w.delivered, c) + (if mine then Served(Absorb(w.chans[c], f)).1 else [])
  {
    hide Absorb;
    if |f| >= 4 {
      DeliveredPush(w.delivered, f[0], Served(Absorb(w.chans[f[0]], f)).1, c);
    }
  }

  lemma DeliveredPush(delivered: seq<(byte, seq<byte>)>, channel: byte, out: seq<seq<byte>>, c: byte)
    requires |out| <= 1
    ensures DeliveredOn(delivered + Tagged(channel, out), c) ==
            DeliveredOn(delivered, c) + (if channel == c then out else [])
  {
    if out == [] {
      assert delivered + Tagged(channel, out) == delivered;
    } else {
      assert (delivered + Tagged(channel, out))[..|delivered|] == delivered;
      assert out == [out[0]];
    }
  }

  /**
   Any number of messages of two bytes or more on each of the 256 channels, their frames
   interleaved in any way that keeps the order within a channel: every channel hands on
   exactly its own messages, in order, and ends empty if it had any.
   */
  lemma Multiplexing(w: World, wire: seq<seq<byte>>, msgs: seq<seq<seq<byte>>>)
    requires |w.chans| == CHANNELS == |msgs|
    requires forall c: byte :: forall m :: m in msgs[c] ==> |m| >= 2
    requires forall c: byte :: Own(c, wire) == AllFrames(c, msgs[c])
    ensures forall c: byte :: DeliveredOn(Run(w, wire).delivered, c) == DeliveredOn(w.delivered, c) + msgs[c]
    ensures forall c: byte :: Run(w, wire).chans[c] == if msgs[c] == [] then w.chans[c] else EMPTY
  {
    forall c: byte
      ensures DeliveredOn(Run(w, wire).delivered, c) == DeliveredOn(w.delivered, c) + msgs[c]
      ensures Run(w, wire).chans[c] == if msgs[c] == [] then w.chans[c] else EMPTY
    {
      Noninterference(w, wire, c);
      AllMessages(w.chans[c], c, msgs[c]);
    }
  }

  /** In between, a channel holds just the frames that have come of its current message, and is not complete. */
  lemma Interrupted(w: World, wire: seq<seq<byte>>, c: byte, done: seq<seq<byte>>, m: seq<byte>, k: nat)
    requires |w.chans| == CHANNELS
    requires (forall x :: x in done ==> |x| >= 2) && |m| >= 2 && 0 < k < FrameCount(m)
    requires Own(c, wire) == AllFrames(c, done) + MessageFrames(c, m)[..k]
    ensures Run(w, wire).chans[c] == Chan(m[..k * MAX_FRAME], false)
    ensures DeliveredOn(Run(w, wire).delivered, c) == DeliveredOn(w.delivered, c) + done
  {
    hide RunChan;
    Noninterference(w, wire, c);
    AllMessages(w.chans[c], c, done);
    Midway(RunChan(w.chans[c], AllFrames(c, done)).0, c, m, k);
    RunChanConcat(w.chans[c], AllFrames(c, done), MessageFrames(c, m)[..k]);
    assert done + [] == done;
  }

  // ---------- the handler ----------

  /** How one call of process_bytes ends. */
  datatype Outcome =
    | Done          // the frame was absorbed
    | Rejected      // too few bytes for a header
    | Underflow     // the header is cut so that the payload length would be negative
    | Starved       // the announced payload never arrives
    | Encrypted     // the encrypted path, which is not part of this model

  function Announced(data: seq<byte>): nat
    requires |data| >= 4
  {
    data[2] as int * 256 + data[3]
  }

  function Joined(chunks: seq<seq<byte>>): seq<byte> {
    if chunks == [] then [] else Joined(chunks[..|chunks| - 1]) + chunks[|chunks| - 1]
  }

  lemma JoinedPush(chunks: seq<seq<byte>>, n: nat)
    requires n < |chunks|
    ensures Joined(chunks[..n + 1]) == Joined(chunks[..n]) + chunks[n]
  {
    assert chunks[..n + 1][..n] == chunks[..n];
  }

  function Zipped(data: seq<seq<byte>>, complete: seq<bool>): (chans: seq<Chan>)
    requires |data| == |complete|
    ensures |chans| == |data| && forall c :: 0 <= c < |data| ==> chans[c] == Chan(data[c], complete[c])
  {
    seq(|data|, c requires 0 <= c < |data| => Chan(data[c], complete[c]))
  }

  /** The loop over all channels that hands complete messages on. */
  function ServeUpTo(w: World, n: nat): (v: World)
    requires |w.chans| == CHANNELS && n <= CHANNELS
    ensures |v.chans| == CHANNELS
  {
    if n == 0 then w
    else
      var v := ServeUpTo(w, n - 1);
      var (ch, out) := Served(v.chans[n - 1]);
      World(v.chans[n - 1 := ch], v.delivered + Tagged(n - 1, out))
  }

  /** When no other channel has anything to hand on, the loop serves just the channel of the last frame. */
  lemma {:induction false} ServeOnly(w: World, c: byte, n: nat)
    requires |w.chans| == CHANNELS && n <= CHANNELS
    requires forall d :: 0 <= d < CHANNELS && d != c ==> Settled(w.chans[d])
    ensures ServeUpTo(w, n) ==
            if c < n then World(w.chans[c := Served(w.chans[c]).0], w.delivered + Tagged(c, Served(w.chans[c]).1))
            else w
  {
    if n != 0 {
      ServeOnly(w, c, n - 1);
      var v := ServeUpTo(w, n - 1);
      if c != n - 1 {
        assert Settled(w.chans[n - 1]);
        assert v.chans[n - 1 := v.chans[n - 1]] == v.chans;
        assert v.delivered + Tagged(n - 1, []) == v.delivered;
      }
    }
  }

  /** The loop written out: every complete message of two bytes or more is handed on and cleared, and nothing else is. */
  lemma {:induction false} ServedExactly(w: World, n: nat, c: byte)
    requires |w.chans| == CHANNELS && n <= CHANNELS
    ensures var hands := c < n && w.chans[c].complete && |w.chans[c].buf| >= 2;
            && ServeUpTo(w, n).chans[c] == (if hands then Chan([], false) else w.chans[c])
            && DeliveredOn(ServeUpTo(w, n).delivered, c) ==
               DeliveredOn(w.delivered, c) + if hands then [w.chans[c].buf] else []
  {
    hide DeliveredOn;
    if n != 0 {
      ServedExactly(w, n - 1, c);
      var v := ServeUpTo(w, n - 1);
      ServeSoFar(w, n - 1);
      DeliveredPush(v.delivered, n - 1, Served(v.chans[n - 1]).1, c);
    }
  }

  lemma {:induction false} ServeSoFar(w: World, n: nat)
    requires |w.chans| == CHANNELS && n <= CHANNELS
    ensures ServeUpTo(w, n).chans[n..] == w.chans[n..]
  {
    if n != 0 {
      ServeSoFar(w, n - 1);
      var v := ServeUpTo(w, n - 1);
      assert ServeUpTo(w, n).chans[n..] == v.chans[n - 1..][1..] == w.chans[n - 1..][1..];
    }
  }

  class AapHandler {
    const currentData: array<seq<byte>>
    const dataComplete: array<bool>
    /** What the following reads of the USB endpoint return. */
    var usb: seq<seq<byte>>
    var written: seq<seq<byte>>
    var delivered: seq<(byte, seq<byte>)>

    ghost predicate Valid()
      reads this, currentData, dataComplete
    {
      && currentData.Length == dataComplete.Length == CHANNELS
      && View().Valid()
    }

    ghost function View(): (w: World)
      requires currentData.Length == dataComplete.Length
      reads this, currentData, dataComplete
    {
      World(Zipped(currentData[..], dataComplete[..]), delivered)
    }

    constructor ()
      ensures Valid() && fresh(currentData) && fresh(dataComplete)
      ensures (forall c :: 0 <= c < CHANNELS ==> View().chans[c] == EMPTY) && delivered == []
      ensures written == [] && usb == []
    {
      currentData := new seq<byte>[CHANNELS](_ => []);
      dataComplete := new bool[CHANNELS](_ => false);
      usb, written, delivered := [], [], [];
    }

    /** write_unencoded; nothing is written for fewer than two bytes. */
    method WriteUnencoded(channel: byte, data: seq<byte>) returns (ok: bool)
      modifies this`written
      ensures ok <==> |data| >= 2
      ensures written == old(written) + if |data| >= 2 then MessageFrames(channel, data) else []
    {
      if |data| < 2 {
        assert written + [] == written;
        return false;
      }
      var initFlags: byte := 0;
      var messageType := data[0] as int * 256 + data[1];
      if channel != 0 && messageType >= 2 && messageType < 0x8000 {
        initFlags := CONTROL;
      }
      var len := |data| / MAX_FRAME;
      for k := 0 to len + 1
        invariant written == old(written) + MessageFrames(channel, data)[..k]
      {
        var buffer := BuildFrame(channel, initFlags, data, k, len);
        written := written + [buffer];
      }
      assert MessageFrames(channel, data)[..len + 1] == MessageFrames(channel, data);
      return true;
    }

    method BuildFrame(channel: byte, initFlags: byte, data: seq<byte>, k: nat, len: nat) returns (buffer: seq<byte>)
      requires |data| >= 2 && len == |data| / MAX_FRAME && k <= len && initFlags == InitFlags(channel, data)
      ensures buffer == FrameBytes(channel, data, k)
    {
      var flags: int := initFlags;
      if k == 0 {
        flags := flags + FIRST;
      }
      var currentLength := MAX_FRAME;
      if k + 1 > len {
        flags := flags + LAST;
        currentLength := |data| - k * MAX_FRAME;
      }
      buffer := [channel, flags] + Be16(currentLength);
      if k == 0 && k + 1 <= len {
        buffer := buffer + Be32(|data|);
      }
      buffer := buffer + data[k * MAX_FRAME..k * MAX_FRAME + currentLength];
    }

    /**
     process_bytes, with the first read of a frame: as many further reads are taken as it
     needs to reach the announced length, and all their bytes belong to the frame.
     */
    method ProcessBytes(fullData: seq<byte>) returns (outcome: Outcome, ghost n: nat)
      requires currentData.Length == dataComplete.Length == CHANNELS
      modifies this`usb, currentData, dataComplete
      ensures n <= |old(usb)| && usb == old(usb)[n..]
      ensures var frame := fullData + Joined(old(usb)[..n]);
              && Explains(outcome, frame, n) && (outcome == Starved ==> usb == [])
              && View() == Received(old(View()), frame, outcome != Starved)
      ensures n > 0 ==> |fullData| >= 4 && |fullData + Joined(old(usb)[..n - 1])| < Start(fullData) + Announced(fullData)
    {
      n := 0;
      ghost var w := View();
      assert usb[..0] == [] && fullData + [] == fullData;
      if |fullData| < 4 {
        return Rejected, 0;
      }
      var currentChannel, flags := fullData[0], fullData[1];
      var len := fullData[2] as int * 256 + fullData[3];
      if flags % 2 == 1 {
        Restart(currentChannel);
      }
      var start := 4;
      if flags % 2 == 1 && flags / 2 % 2 == 0 {
        start := 8;
        if |fullData| < 6 {
          return Rejected, 0;
        }
      }
      if |fullData| < start {
        return Underflow, 0;
      }
      outcome, n := ReadPayload(fullData, start, len);
    }

    /** The rest of process_bytes, from a whole header on. */
    method ReadPayload(fullData: seq<byte>, start: nat, len: nat) returns (outcome: Outcome, ghost n: nat)
      requires currentData.Length == dataComplete.Length == CHANNELS
      requires |fullData| >= 4 && start == Start(fullData) <= |fullData| && len == Announced(fullData)
      modifies this`usb, currentData, dataComplete
      ensures n <= |old(usb)| && usb == old(usb)[n..]
      ensures n > 0 ==> |fullData + Joined(old(usb)[..n - 1])| < start + len
      ensures var frame := fullData + Joined(old(usb)[..n]);
              && Explains(outcome, frame, n) && (outcome == Starved ==> usb == [])
              && (outcome == Done || outcome == Starved || outcome == Encrypted)
              && var ch := old(View()).chans[fullData[0]];
                 View() == if outcome != Done then old(View())
                           else old(View()).(chans := old(View()).chans[fullData[0] := Chan(ch.buf + frame[start..], ch.complete || IsLast(frame))])
    {
      var data, enough;
      data, enough, n := MoreBytes(fullData, start + len);
      assert data[0] == fullData[0] && data[1] == fullData[1] && data[2] == fullData[2] && data[3] == fullData[3];
      if !enough {
        return Starved, n;
      }
      if data[1] / 8 % 2 == 1 {
        return Encrypted, n;
      }
      Append(data[0], data[start..], data[1] / 2 % 2 == 1);
      return Done, n;
    }

    /** A first frame begins its channel anew. */
    method Restart(channel: byte)
      requires currentData.Length == dataComplete.Length == CHANNELS
      modifies currentData, dataComplete
      ensures View() == old(View()).(chans := old(View()).chans[channel := EMPTY])
    {
      currentData[channel] := [];
      dataComplete[channel] := false;
    }

    /** The payload of a frame, and whether it was the last. */
    method Append(channel: byte, payload: seq<byte>, lastFrame: bool)
      requires currentData.Length == dataComplete.Length == CHANNELS
      modifies currentData, dataComplete
      ensures var ch := old(View()).chans[channel];
              View() == old(View()).(chans := old(View()).chans[channel := Chan(ch.buf + payload, ch.complete || lastFrame)])
    {
      currentData[channel] := currentData[channel] + payload;
      if lastFrame {
        dataComplete[channel] := true;
      }
    }

    /** Further reads until there are as many bytes as the frame needs. */
    method MoreBytes(fullData: seq<byte>, needed: nat) returns (data: seq<byte>, enough: bool, ghost n: nat)
      modifies this`usb
      ensures n <= |old(usb)| && usb == old(usb)[n..] && data == fullData + Joined(old(usb)[..n])
      ensures if enough then |data| >= needed else |data| < needed && usb == []
      ensures n > 0 ==> |fullData + Joined(old(usb)[..n - 1])| < needed
    {
      n, data := 0, fullData;
      assert usb[..0] == [] && fullData + [] == fullData;
      while |data| < needed
        invariant n <= |old(usb)| && usb == old(usb)[n..]
        invariant data == fullData + Joined(old(usb)[..n])
        invariant n > 0 ==> |fullData + Joined(old(usb)[..n - 1])| < needed
        decreases |usb|
      {
        if |usb| == 0 {
          return data, false, n;
        }
        JoinedPush(old(usb), n);
        data := data + usb[0];
        usb := usb[1..];
        n := n + 1;
      }
      return data, true, n;
    }

    /** One turn of the loop in process: what the endpoint returned is absorbed and complete messages handed on. */
    method ProcessRead(fullData: seq<byte>) returns (outcome: Outcome, ghost n: nat)
      requires Valid()
      modifies this`usb, this`delivered, currentData, dataComplete
      ensures Valid()
      ensures n <= |old(usb)| && usb == old(usb)[n..]
      ensures Explains(outcome, fullData + Joined(old(usb)[..n]), n)
      ensures outcome != Starved ==> View() == Step(old(View()), fullData + Joined(old(usb)[..n]))
      ensures outcome == Starved ==> usb == []
      ensures n > 0 ==> |fullData| >= 4 && |fullData + Joined(old(usb)[..n - 1])| < Start(fullData) + Announced(fullData)
    {
      outcome, n := ProcessBytes(fullData);
      ghost var frame := fullData + Joined(old(usb)[..n]);
      Dispatch();
      DispatchServes(old(View()), frame, outcome != Starved);
    }

    /**
     Turns of the loop in process until the endpoint has nothing more. If each frame is cut into
     reads of its own, in any way that leaves its header in the first, the channels go through
     exactly those frames.
     */
    method ProcessAll(ghost wire: seq<seq<byte>>, ghost cuts: seq<seq<seq<byte>>>)
      requires Valid() && |cuts| == |wire| && usb == Spread(cuts)
      requires forall i :: 0 <= i < |wire| ==> Cut(wire[i], cuts[i])
      modifies this`usb, this`delivered, currentData, dataComplete
      ensures Valid() && usb == [] && View() == Run(old(View()), wire)
    {
      hide Run, Step, Cut, Spread, Explains;
      ghost var i := 0;
      NothingRead(View(), wire, cuts);
      while |usb| > 0
        invariant Valid() && i <= |wire| && usb == Spread(cuts[i..])
        invariant View() == Run(old(View()), wire[..i])
        decreases |usb|
      {
        var fullData := usb[0];
        ghost var all := usb;
        usb := usb[1..];
        assert all == [fullData] + usb;
        if i < |wire| {
          CutRead(wire[i], cuts[i]);
        }
        SpreadNext(cuts[i..], fullData, usb);
        ghost var c := cuts[i];
        ghost var waiting := usb;
        assert Cut(wire[i], c);
        CutRead(wire[i], c);
        assert cuts[i..][0] == c && cuts[i..][1..] == cuts[i + 1..];
        if |fullData| > 0 {
          var outcome, n := ProcessRead(fullData);
          ReadsWhole(wire[i], c, waiting, Spread(cuts[i + 1..]), outcome, n);
        }
        RunNext(old(View()), wire, i);
        i := i + 1;
      }
      if i < |wire| {
        assert Cut(wire[i], cuts[i]);
        CutRead(wire[i], cuts[i]);
        SpreadFirst(cuts[i..]);
      }
      assert wire[..|wire|] == wire;
    }

    /** The loop over the channels in process, with process_message's guard and its clear_data. */
    method Dispatch()
      requires currentData.Length == dataComplete.Length == CHANNELS
      modifies this`delivered, currentData, dataComplete
      ensures View() == ServeUpTo(old(View()), CHANNELS)
    {
      for i := 0 to CHANNELS
        invariant View() == ServeUpTo(old(View()), i)
      {
        if dataComplete[i] && |currentData[i]| >= 2 {
          delivered := delivered + [(i, currentData[i])];
          currentData[i] := [];
          dataComplete[i] := false;
          assert Tagged(i, [old(View()).chans[i].buf]) == [(i, old(View()).chans[i].buf)];
        }
      }
    }
  }

  /** What the handler knows of a frame when it stops reading. */
  predicate Explains(outcome: Outcome, frame: seq<byte>, n: nat) {
    match outcome
    case Rejected => n == 0 && (|frame| < 4 || (|frame| < 6 && Start(frame) == 8))
    case Underflow => n == 0 && 4 <= |frame| < Start(frame)
    case Starved => |frame| >= 4 && |frame| < Start(frame) + Announced(frame)
    case Encrypted => |frame| >= 4 && IsEncrypted(frame) && |frame| >= Start(frame) + Announced(frame)
    case Done => Readable(frame) && |frame| >= Start(frame) + Announced(frame)
  }

  /** A frame reaches its channel; one that is still incomplete when the reads end at most clears it. */
  function Received(w: World, frame: seq<byte>, whole: bool): World
    requires |w.chans| == CHANNELS
  {
    if |frame| < 4 then w
    else
      var ch := w.chans[frame[0]];
      w.(chans := w.chans[frame[0] := if whole then Absorb(ch, frame) else if IsFirst(frame) then EMPTY else ch])
  }

  // ---------- frames over several reads ----------

  /** The reads of all frames, one after the other. */
  function Spread(cuts: seq<seq<seq<byte>>>): seq<seq<byte>> {
    if cuts == [] then [] else cuts[0] + Spread(cuts[1..])
  }

  /** A plain frame of the announced length, cut into reads of which the first holds the header. */
  predicate Cut(f: seq<byte>, c: seq<seq<byte>>) {
    && |f| >= 4 && Readable(f) && |f| == Start(f) + Announced(f)
    && c != [] && Joined(c) == f && |c[0]| >= Start(f)
    && forall i :: 0 <= i < |c| ==> c[i] != []
  }

  /** The writer's frames may be cut in this way. */
  lemma WrittenCut(channel: byte, m: seq<byte>, k: nat, c: seq<seq<byte>>)
    requires |m| >= 2 && k < FrameCount(m)
    requires c != [] && Joined(c) == FrameBytes(channel, m, k) && forall i :: 0 <= i < |c| ==> c[i] != []
    requires |FrameBytes(channel, m, k)| >= 2 && |c[0]| >= Start(FrameBytes(channel, m, k))
    ensures Cut(FrameBytes(channel, m, k), c)
  {
    hide Joined;
    FrameShape(channel, m, k);
  }

  lemma NothingRead(w: World, wire: seq<seq<byte>>, cuts: seq<seq<seq<byte>>>)
    requires |w.chans| == CHANNELS
    ensures cuts[0..] == cuts && Run(w, wire[..0]) == w && Spread([]) == []
  {
  }

  lemma SpreadFirst(cuts: seq<seq<seq<byte>>>)
    requires cuts != [] && cuts[0] != []
    ensures Spread(cuts) != []
  {
  }

  lemma CutRead(f: seq<byte>, c: seq<seq<byte>>)
    requires Cut(f, c)
    ensures c != [] && |c[0]| >= 4
  {
  }

  lemma SpreadUnfold(cuts: seq<seq<seq<byte>>>)
    ensures Spread(cuts) == if cuts == [] then [] else cuts[0] + Spread(cuts[1..])
  {
  }

  lemma SpreadNext(cuts: seq<seq<seq<byte>>>, first: seq<byte>, rest: seq<seq<byte>>)
    requires Spread(cuts) == [first] + rest
    requires cuts != [] ==> cuts[0] != []
    ensures cuts != [] && first == cuts[0][0] && rest == cuts[0][1..] + Spread(cuts[1..])
  {
    hide Spread;
    SpreadUnfold(cuts);
    var later := Spread(cuts[1..]);
    assert ([first] + rest)[0] == first && ([first] + rest)[1..] == rest;
    assert cuts != [] ==> (cuts[0] + later)[0] == cuts[0][0];
    assert (cuts[0] + later)[1..] == cuts[0][1..] + later;
  }

  lemma RunNext(w: World, wire: seq<seq<byte>>, i: nat)
    requires |w.chans| == CHANNELS && i < |wire|
    ensures Run(w, wire[..i + 1]) == Step(Run(w, wire[..i]), wire[i])
  {
    assert wire[..i + 1][..i] == wire[..i];
  }

  lemma {:induction false} JoinedConcat(a: seq<seq<byte>>, b: seq<seq<byte>>)
    ensures Joined(a + b) == Joined(a) + Joined(b)
  {
    hide Joined;
    if b == [] {
      assert a + b == a;
      JoinedNone();
    } else {
      var front, f := b[..|b| - 1], b[|b| - 1];
      JoinedConcat(a, front);
      assert b == front + [f] && a + b == a + front + [f];
      JoinedLast(front, f);
      JoinedLast(a + front, f);
      Associative(Joined(a), Joined(front), f);
    }
  }

  lemma JoinedNone()
    ensures Joined([]) == []
  {
  }

  lemma JoinedLast(chunks: seq<seq<byte>>, f: seq<byte>)
    ensures Joined(chunks + [f]) == Joined(chunks) + f
  {
    assert (chunks + [f])[..|chunks|] == chunks;
  }

  lemma {:induction false} JoinedLonger(c: seq<seq<byte>>, k: nat)
    requires k < |c| && forall i :: 0 <= i < |c| ==> c[i] != []
    ensures |Joined(c[..k])| < |Joined(c)|
  {
    assert c == c[..k] + c[k..];
    JoinedConcat(c[..k], c[k..]);
    var rest := c[k..];
    assert rest[|rest| - 1] != [];
  }

  /** The reads that process_bytes takes for a frame are just those into which it was cut. */
  lemma ReadsWhole(f: seq<byte>, c: seq<seq<byte>>, waiting: seq<seq<byte>>, later: seq<seq<byte>>, outcome: Outcome, n: nat)
    requires Cut(f, c) && waiting == c[1..] + later && n <= |waiting|
    requires Explains(outcome, c[0] + Joined(waiting[..n]), n) && (outcome == Starved ==> n == |waiting|)
    requires n > 0 ==> |c[0] + Joined(waiting[..n - 1])| < Start(c[0]) + Announced(c[0])
    ensures n == |c| - 1 && c[0] + Joined(waiting[..n]) == f && outcome == Done
  {
    hide Readable;
    HeaderRead(f, c);
    if n > |c| - 1 {
      PartBeyond(c, waiting, later, n - 1);
    } else {
      PartOf(c, waiting, later, n);
    }
  }

  lemma JoinedOne(chunk: seq<byte>)
    ensures Joined([chunk]) == chunk
  {
    var one := [chunk];
    assert one[..0] == [] && [] + chunk == chunk;
  }

  /** The header in the first read is the frame's. */
  lemma HeaderRead(f: seq<byte>, c: seq<seq<byte>>)
    requires Cut(f, c)
    ensures |c[0]| >= 4 && c[0] <= f && Start(c[0]) == Start(f) && Announced(c[0]) == Announced(f) && !IsEncrypted(f)
    ensures Start(f) <= |c[0]|
  {
    assert c == [c[0]] + c[1..];
    JoinedConcat([c[0]], c[1..]);
    JoinedOne(c[0]);
  }

  /** What the first k further reads add up to, as long as they do not reach beyond the frame's own. */
  lemma PartOf(c: seq<seq<byte>>, waiting: seq<seq<byte>>, later: seq<seq<byte>>, k: nat)
    requires c != [] && waiting == c[1..] + later && k <= |c| - 1
    requires forall i :: 0 <= i < |c| ==> c[i] != []
    ensures k == |c| - 1 ==> c[0] + Joined(waiting[..k]) == Joined(c)
    ensures k < |c| - 1 ==> |c[0] + Joined(waiting[..k])| < |Joined(c)| && c[0] + Joined(waiting[..k]) <= Joined(c)
  {
    hide Joined;
    JoinedConcat([c[0]], waiting[..k]);
    JoinedOne(c[0]);
    assert [c[0]] + waiting[..k] == c[..k + 1];
    if k < |c| - 1 {
      JoinedLonger(c, k + 1);
      JoinedConcat(c[..k + 1], c[k + 1..]);
      assert c == c[..k + 1] + c[k + 1..];
    } else {
      assert c[..k + 1] == c;
    }
  }

  lemma PartBeyond(c: seq<seq<byte>>, waiting: seq<seq<byte>>, later: seq<seq<byte>>, k: nat)
    requires c != [] && waiting == c[1..] + later && |c| - 1 <= k <= |waiting|
    ensures |c[0] + Joined(waiting[..k])| >= |Joined(c)|
  {
    hide Joined;
    JoinedConcat([c[0]], waiting[..k]);
    JoinedOne(c[0]);
    JoinedConcat(c, waiting[|c| - 1..k]);
    assert [c[0]] + waiting[..k] == c + waiting[|c| - 1..k];
  }

  /** A frame that does not end with its read swallows what follows, and only then is it not read as it should be. */
  lemma GluedRead(ch: Chan, f: seq<byte>, g: seq<byte>)
    requires |f| >= 4 && Readable(f)
    ensures Absorb(ch, f + g) == Chan(Absorb(ch, f).buf + g, Absorb(ch, f).complete)
    ensures Absorb(ch, f + g) == Absorb(ch, f) <==> g == []
  {
    assert (f + g)[Start(f)..] == f[Start(f)..] + g;
    var was := if IsFirst(f) then EMPTY else ch;
    assert was.buf + (f[Start(f)..] + g) == was.buf + f[Start(f)..] + g;
    assert |Absorb(ch, f).buf + g| == |Absorb(ch, f).buf| + |g|;
  }

  lemma DispatchServes(w: World, frame: seq<byte>, whole: bool)
    requires w.Valid()
    ensures var v := ServeUpTo(Received(w, frame, whole), CHANNELS);
            v.Valid() && (whole ==> v == Step(w, frame))
  {
    hide Absorb;
    if |frame| < 4 {
      ServeOnly(w, 0, CHANNELS);
      assert Settled(w.chans[0]);
      assert w.chans[0 := w.chans[0]] == w.chans && w.delivered + Tagged(0, []) == w.delivered;
    } else {
      ServeOnly(Received(w, frame, whole), frame[0], CHANNELS);
    }
  }

  // ---------- from one end to the other ----------

  /** Where a frame on the wire comes from. */
  lemma {:induction false} FrameOrigin(channel: byte, ms: seq<seq<byte>>, f: seq<byte>) returns (m: seq<byte>, k: nat)
    requires (forall m :: m in ms ==> |m| >= 2) && f in AllFrames(channel, ms)
    ensures m in ms && k < FrameCount(m) && f == FrameBytes(channel, m, k)
  {
    hide FrameBytes;
    var front, last := ms[..|ms| - 1], ms[|ms| - 1];
    var frames := MessageFrames(channel, last);
    if f in frames {
      var i :| 0 <= i < |frames| && frames[i] == f;
      m, k := last, i;
    } else {
      m, k := FrameOrigin(channel, front, f);
    }
  }

  /** A frame as it comes off the endpoint: in one or more reads, the header in the first. */
  predicate Chopped(f: seq<byte>, c: seq<seq<byte>>) {
    && c != [] && Joined(c) == f && (forall i :: 0 <= i < |c| ==> c[i] != [])
    && |f| >= 4 && |c[0]| >= Start(f)
  }

  lemma WiredCut(wire: seq<seq<byte>>, msgs: seq<seq<seq<byte>>>, i: nat, c: seq<seq<byte>>)
    requires |msgs| == CHANNELS && i < |wire| && Chopped(wire[i], c)
    requires forall d: byte :: forall m :: m in msgs[d] ==> |m| >= 2
    requires forall d: byte :: Own(d, wire) == AllFrames(d, msgs[d])
    ensures Cut(wire[i], c)
  {
    hide FrameBytes, Joined, AllFrames, Cut;
    var f := wire[i];
    assert f in wire && f in Own(f[0], wire);
    var m, k := FrameOrigin(f[0], msgs[f[0]], f);
    WrittenCut(f[0], m, k, c);
  }

  /**
   Any number of messages on every channel, their frames interleaved in any way that keeps the
   order within a channel, each coming off the endpoint in reads of its own: every channel hands
   on its own messages.
   */
  method ReceiveMessages(reader: AapHandler, ghost wire: seq<seq<byte>>, ghost cuts: seq<seq<seq<byte>>>,
                         ghost msgs: seq<seq<seq<byte>>>)
    requires reader.Valid() && |cuts| == |wire| && reader.usb == Spread(cuts)
    requires forall i :: 0 <= i < |wire| ==> Chopped(wire[i], cuts[i])
    requires |msgs| == CHANNELS && forall c: byte :: forall m :: m in msgs[c] ==> |m| >= 2
    requires forall c: byte :: Own(c, wire) == AllFrames(c, msgs[c])
    modifies reader`usb, reader`delivered, reader.currentData, reader.dataComplete
    ensures reader.Valid() && reader.usb == []
    ensures forall c: byte :: DeliveredOn(reader.delivered, c) == DeliveredOn(old(reader.delivered), c) + msgs[c]
    ensures forall c: byte :: reader.View().chans[c] == if msgs[c] == [] then old(reader.View()).chans[c] else EMPTY
  {
    hide Cut, Chopped, Own, AllFrames, Run, Spread, DeliveredOn, Settled;
    forall i | 0 <= i < |wire|
      ensures Cut(wire[i], cuts[i])
    {
      WiredCut(wire, msgs, i, cuts[i]);
    }
    Multiplexing(reader.View(), wire, msgs);
    reader.ProcessAll(wire, cuts);
  }

  /** What is sent on one channel; write_unencoded refuses messages of fewer than two bytes. */
  function SentOn(list: seq<(byte, seq<byte>)>, c: byte): (ms: seq<seq<byte>>)
    ensures forall m :: m in ms ==> |m| >= 2
  {
    if list == [] then []
    else
      var (d, m) := list[|list| - 1];
      SentOn(list[..|list| - 1], c) + if d == c && |m| >= 2 then [m] else []
  }

  function WireOf(list: seq<(byte, seq<byte>)>): seq<seq<byte>> {
    if list == [] then []
    else
      var (d, m) := list[|list| - 1];
      WireOf(list[..|list| - 1]) + if |m| >= 2 then MessageFrames(d, m) else []
  }

  lemma {:induction false} OwnConcat(c: byte, a: seq<seq<byte>>, b: seq<seq<byte>>)
    ensures Own(c, a + b) == Own(c, a) + Own(c, b)
  {
    FilterConcat(a, b, (f: seq<byte>) => |f| >= 4 && f[0] == c);
  }

  lemma OwnFrames(c: byte, d: byte, m: seq<byte>)
    requires |m| >= 2
    ensures Own(c, MessageFrames(d, m)) == if d == c then MessageFrames(d, m) else []
  {
    hide FrameBytes;
    var frames, mine := MessageFrames(d, m), (f: seq<byte>) => |f| >= 4 && f[0] == c;
    forall f | f in frames
      ensures mine(f) <==> d == c
    {
      var k :| 0 <= k < |frames| && frames[k] == f;
      FrameShape(d, m, k);
    }
    if d == c {
      FilterAll(frames, mine);
    } else {
      FilterNone(frames, mine);
    }
  }

  lemma {:induction false} OwnWire(list: seq<(byte, seq<byte>)>, c: byte)
    ensures Own(c, WireOf(list)) == AllFrames(c, SentOn(list, c))
  {
    hide MessageFrames, Own, AllFrames, WireOf, SentOn;
    if list == [] {
      OwnNone(c);
      NothingSent(c);
    } else {
      var front := list[..|list| - 1];
      var (d, m) := list[|list| - 1];
      OwnWire(front, c);
      WireOfNext(list, |list| - 1);
      SentOnNext(list, c);
      assert list[..|list|] == list;
      if |m| >= 2 {
        OwnConcat(c, WireOf(front), MessageFrames(d, m));
        OwnFrames(c, d, m);
        AllFramesPush(c, SentOn(front, c), m);
      }
      assert Own(c, WireOf(front)) + [] == Own(c, WireOf(front)) && WireOf(front) + [] == WireOf(front);
    }
  }

  lemma NothingSent(c: byte)
    ensures WireOf([]) == [] && SentOn([], c) == [] && AllFrames(c, []) == []
  {
  }

  lemma SentOnNext(list: seq<(byte, seq<byte>)>, c: byte)
    requires list != []
    ensures var (d, m) := list[|list| - 1];
            SentOn(list, c) == if d == c && |m| >= 2 then SentOn(list[..|list| - 1], c) + [m] else SentOn(list[..|list| - 1], c)
  {
  }

  lemma AllFramesPush(c: byte, ms: seq<seq<byte>>, m: seq<byte>)
    requires (forall x :: x in ms ==> |x| >= 2) && |m| >= 2
    ensures AllFrames(c, ms + [m]) == AllFrames(c, ms) + MessageFrames(c, m)
  {
    hide MessageFrames;
    assert (ms + [m])[..|ms|] == ms;
  }

  lemma {:induction false} WholeReads(list: seq<(byte, seq<byte>)>, i: nat)
    requires i < |WireOf(list)|
    ensures Chopped(WireOf(list)[i], [WireOf(list)[i]])
  {
    hide MessageFrames, FrameBytes;
    var front := list[..|list| - 1];
    var (d, m) := list[|list| - 1];
    if i < |WireOf(front)| {
      WholeReads(front, i);
    } else {
      FrameShape(d, m, i - |WireOf(front)|);
      JoinedOne(WireOf(list)[i]);
    }
  }

  lemma {:induction false} SpreadSingles(wire: seq<seq<byte>>, cuts: seq<seq<seq<byte>>>)
    requires |cuts| == |wire| && forall i :: 0 <= i < |wire| ==> cuts[i] == [wire[i]]
    ensures Spread(cuts) == wire
  {
    if wire != [] {
      SpreadSingles(wire[1..], cuts[1..]);
    }
  }

  method SendMessages(writer: AapHandler, list: seq<(byte, seq<byte>)>)
    modifies writer`written
    ensures writer.written == old(writer.written) + WireOf(list)
  {
    hide WireOf, MessageFrames;
    WireOfNone();
    for i := 0 to |list|
      invariant writer.written == old(writer.written) + WireOf(list[..i])
    {
      WireOfNext(list, i);
      var ok := writer.WriteUnencoded(list[i].0, list[i].1);
      Associative(old(writer.written), WireOf(list[..i]), if |list[i].1| >= 2 then MessageFrames(list[i].0, list[i].1) else []);
    }
    assert list[..|list|] == list;
  }

  /** One handler writes some messages, another reads what was written: every channel hands on what was sent on it. */
  method Exchange(writer: AapHandler, reader: AapHandler, list: seq<(byte, seq<byte>)>)
    requires writer != reader && reader.Valid()
    modifies writer`written, reader`usb, reader`delivered, reader.currentData, reader.dataComplete
    ensures reader.Valid() && writer.written == old(writer.written) + WireOf(list)
    ensures forall c: byte :: DeliveredOn(reader.delivered, c) == DeliveredOn(old(reader.delivered), c) + SentOn(list, c)
  {
    hide DeliveredOn, Own, AllFrames, Chopped, Settled, WireOf, SentOn, MessageFrames;
    var n := |writer.written|;
    SendMessages(writer, list);
    ghost var wire, w := WireOf(list), reader.View();
    reader.usb := writer.written[n..];
    assert reader.View() == w;
    ghost var cuts := seq(|wire|, i requires 0 <= i < |wire| => [wire[i]]);
    ghost var msgs := seq(CHANNELS, c requires 0 <= c < CHANNELS => SentOn(list, c));
    SpreadSingles(wire, cuts);
    forall i | 0 <= i < |wire|
      ensures Chopped(wire[i], cuts[i])
    {
      WholeReads(list, i);
    }
    forall c: byte
      ensures Own(c, wire) == AllFrames(c, msgs[c])
    {
      OwnWire(list, c);
    }
    ReceiveMessages(reader, wire, cuts, msgs);
    assert forall c: byte :: msgs[c] == SentOn(list, c);
  }

  lemma WireOfNone()
    ensures WireOf([]) == []
  {
  }

  lemma WireOfNext(list: seq<(byte, seq<byte>)>, i: nat)
    requires i < |list|
    ensures list[..0] == []
    ensures WireOf(list[..i + 1]) ==
            WireOf(list[..i]) + if |list[i].1| >= 2 then MessageFrames(list[i].0, list[i].1) else []
  {
    assert list[..i + 1][..i] == list[..i];
  }
}
