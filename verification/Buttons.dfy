/**
 The screen's buttons and toggles (Button_Handler.cpp): what is sent when a control is
 pressed, held and released, and how nav-push and the four directions exclude one another.
 */
module Buttons {
  import opened Bytes
  import opened AIBus

  const SCREEN: byte := 0x07
  const COMPUTER: byte := 0x01
  const RADIO: byte := 0x10

  datatype State = Released | Pressed | Held

  /** The state byte of a button message. */
  function StateByte(s: State): byte {
    match s
    case Pressed => 0x00
    case Held => 0x40
    case Released => 0x80
  }

  /** The controls: pins 0 to 17 in scanning order, pin 0 being eject, then the toggles 0 to 5. */
  const PINS := 18
  const TOGGLES := 6
  const CONTROLS := PINS + TOGGLES
  const EJECT := 0

  const VOL_PUSH := 0
  const NAV_DN := 1
  const NAV_UP := 2
  const NAV_RIGHT := 3
  const NAV_LEFT := 4
  const NAV_PUSH := 5

  /** source, audio, FM/AM, aux, skip up, skip down, info, tone, home, setup, back, F1 to F6; then the toggles. */
  const CODES: seq<byte> := [0, 0x23, 0x26, 0x36, 0x38, 0x25, 0x24, 0x53, 0x52, 0x20, 0x51, 0x27,
                             0x11, 0x12, 0x13, 0x14, 0x15, 0x16,
                             0x06, 0x29, 0x28, 0x2B, 0x2A, 0x07]

  lemma CodesDistinct(i: nat, j: nat)
    requires i < j < CONTROLS
    ensures CODES[i] != CODES[j]
  {
  }

  /** Where messages go, which devices are there, and whether the screen may open: all of it may change between scans. */
  datatype Parameters = Parameters(
    allDest: byte, audioDest: byte, sourceDest: byte, allowOpen: bool, computerConnected: bool, radioConnected: bool)

  /** Button presses by pin: source, FM/AM, aux and tone are for the audio, info, skip and F keys for the source. */
  function Recipient(p: Parameters, b: nat): byte {
    if b in {1, 3, 4, 8} then p.audioDest
    else if b in {5, 6, 7} || 12 <= b < 18 then p.sourceDest
    else p.allDest
  }

  function ToggleDest(p: Parameters, b: nat): byte {
    if b != VOL_PUSH then p.allDest else p.audioDest
  }

  function AwaitsAck(p: Parameters, recipient: byte): bool {
    !(recipient == COMPUTER && !p.computerConnected)
    && !(recipient == RADIO && !p.radioConnected)
    && recipient != BROADCAST && recipient != SCREEN
  }

  /**
   By code: source, FM/AM, aux, tone and the volume push go to the audio source's device; info, the skips
   and the F keys to the source's; all others to the common destination.
   */
  lemma RecipientByCode(p: Parameters, k: nat)
    requires 0 < k < CONTROLS
    ensures (if k < PINS then Recipient(p, k) else ToggleDest(p, k - PINS)) ==
            if CODES[k] in {0x23, 0x36, 0x38, 0x52, 0x06} then p.audioDest
            else if CODES[k] in {0x24, 0x25, 0x53, 0x11, 0x12, 0x13, 0x14, 0x15, 0x16} then p.sourceDest
            else p.allDest
  {
  }

  /** A message sent, and whether its acknowledgement was awaited. */
  datatype Out = Out(msg: Message, ack: bool)

  function ButtonMessage(p: Parameters, code: byte, s: State, recipient: byte): Out {
    Out(Message(SCREEN, recipient, [0x30, code, StateByte(s)]), AwaitsAck(p, recipient))
  }

  /** The messages about one control. */
  function History(log: seq<Out>, code: byte): seq<Out> {
    if log == [] then []
    else
      var out := log[|log| - 1];
      History(log[..|log| - 1], code) + if |out.msg.data| == 3 && out.msg.data[1] == code then [out] else []
  }

  lemma HistoryPush(log: seq<Out>, out: Out, code: byte)
    ensures History(log + [out], code) ==
            if |out.msg.data| == 3 && out.msg.data[1] == code then History(log, code) + [out] else History(log, code)
  {
    assert (log + [out])[..|log|] == log;
  }

  // ---------- the protocol of one control ----------

  /** Where a control's messages stand: between cycles, or in one that was begun towards a recipient. */
  datatype Phase = Idle | Down(rec: byte) | HeldDown(rec: byte) | Broken

  /** Press, then perhaps hold, then release, all to one recipient; unless `strict` the release may go elsewhere. */
  function Advance(ph: Phase, m: Message, strict: bool): Phase {
    if |m.data| != 3 then Broken
    else
      match ph
      case Idle => if m.data[2] == 0x00 then Down(m.receiver) else Broken
      case Down(r) =>
        if m.data[2] == 0x40 && m.receiver == r then HeldDown(r)
        else if m.data[2] == 0x80 && (m.receiver == r || !strict) then Idle
        else Broken
      case HeldDown(r) => if m.data[2] == 0x80 && (m.receiver == r || !strict) then Idle else Broken
      case Broken => Broken
  }

  function PhaseOf(outs: seq<Out>, strict: bool): Phase {
    if outs == [] then Idle else Advance(PhaseOf(outs[..|outs| - 1], strict), outs[|outs| - 1].msg, strict)
  }

  lemma PhasePush(outs: seq<Out>, out: Out, strict: bool)
    ensures PhaseOf(outs + [out], strict) == Advance(PhaseOf(outs, strict), out.msg, strict)
  {
    assert (outs + [out])[..|outs|] == outs;
  }

  // ---------- what the protocol means ----------

  /** What one message says, and to whom. */
  datatype Word = Word(state: byte, receiver: byte)

  /** A finished cycle: pressed and perhaps held towards `rec`, then released towards `released`. */
  datatype Cycle = Cycle(held: bool, rec: byte, released: byte)

  function CycleWords(c: Cycle): seq<Word> {
    OpenWords(if c.held then HeldDown(c.rec) else Down(c.rec)) + [Word(0x80, c.released)]
  }

  function CyclesWords(cycles: seq<Cycle>): seq<Word> {
    if cycles == [] then [] else CyclesWords(cycles[..|cycles| - 1]) + CycleWords(cycles[|cycles| - 1])
  }

  /** An unfinished cycle. */
  function OpenWords(ph: Phase): seq<Word> {
    match ph
    case Idle => []
    case Down(r) => [Word(0x00, r)]
    case HeldDown(r) => [Word(0x00, r), Word(0x40, r)]
    case Broken => []
  }

  function Words(outs: seq<Out>): seq<Word> {
    if outs == [] then []
    else
      var m := outs[|outs| - 1].msg;
      Words(outs[..|outs| - 1]) + if |m.data| == 3 then [Word(m.data[2], m.receiver)] else []
  }

  predicate OneRecipientEach(cycles: seq<Cycle>) {
    forall i :: 0 <= i < |cycles| ==> cycles[i].released == cycles[i].rec
  }

  /** Messages that never break the protocol are whole cycles followed by at most an unfinished one. */
  lemma {:induction false} PhaseMeans(outs: seq<Out>, strict: bool) returns (cycles: seq<Cycle>)
    requires PhaseOf(outs, strict) != Broken
    ensures Words(outs) == CyclesWords(cycles) + OpenWords(PhaseOf(outs, strict))
    ensures strict ==> OneRecipientEach(cycles)
  {
    if outs == [] {
      cycles := [];
      return;
    }
    var front, out := outs[..|outs| - 1], outs[|outs| - 1];
    var done := PhaseMeans(front, strict);
    cycles := AdvanceMeans(done, PhaseOf(front, strict), out.msg, strict);
  }

  lemma AdvanceMeans(done: seq<Cycle>, ph: Phase, m: Message, strict: bool) returns (cycles: seq<Cycle>)
    requires Advance(ph, m, strict) != Broken && (strict ==> OneRecipientEach(done))
    ensures |m.data| == 3
    ensures CyclesWords(done) + OpenWords(ph) + [Word(m.data[2], m.receiver)] ==
            CyclesWords(cycles) + OpenWords(Advance(ph, m, strict))
    ensures strict ==> OneRecipientEach(cycles)
  {
    if m.data[2] == 0x80 {
      var c := Cycle(ph.HeldDown?, ph.rec, m.receiver);
      cycles := done + [c];
      assert cycles[..|done|] == done;
      assert OpenWords(ph) + [Word(0x80, m.receiver)] == CycleWords(c);
    } else {
      cycles := done;
      assert OpenWords(ph) + [Word(m.data[2], m.receiver)] == OpenWords(Advance(ph, m, strict));
    }
  }

  // ---------- all controls ----------

  function Expected(s: State, rec: byte): Phase {
    match s
    case Released => Idle
    case Pressed => Down(rec)
    case Held => HeldDown(rec)
  }

  /** A forced release of nav-push goes to the current destination, so that nav-push alone is not strict. */
  predicate Strict(k: nat) {
    k != PINS + NAV_PUSH
  }

  /** Every control but eject stands where its messages say, nav-push included, and remembers whom it told of the press. */
  predicate Faithful(states: seq<State>, recs: seq<byte>, log: seq<Out>) {
    && |states| == |recs| == CONTROLS
    && forall k :: 0 < k < CONTROLS ==>
         PhaseOf(History(log, CODES[k]), Strict(k)) == Expected(states[k], recs[k])
  }

  /** The steps a control can take. */
  predicate Legal(s: State, rec: byte, s': State, rec': byte) {
    || (s == Released && s' == Pressed)
    || (s == Pressed && s' == Held && rec' == rec)
    || (s != Released && s' == Released && rec' == rec)
  }

  /** One message about a control keeps it in step and leaves the others alone. */
  lemma SendKeeps(states: seq<State>, recs: seq<byte>, log: seq<Out>, k: nat, s: State, rec: byte, to: byte, p: Parameters)
    requires Faithful(states, recs, log) && 0 < k < CONTROLS
    requires Legal(states[k], recs[k], s, rec) && (to == rec || (!Strict(k) && s == Released))
    ensures Faithful(states[k := s], recs[k := rec], log + [ButtonMessage(p, CODES[k], s, to)])
  {
    hide History, PhaseOf, Advance;
    var out := ButtonMessage(p, CODES[k], s, to);
    forall j | 0 < j < CONTROLS
      ensures PhaseOf(History(log + [out], CODES[j]), Strict(j)) ==
              Expected(states[k := s][j], recs[k := rec][j])
    {
      HistoryPush(log, out, CODES[j]);
      if j < k {
        CodesDistinct(j, k);
      } else if k < j {
        CodesDistinct(k, j);
      } else {
        PhasePush(History(log, CODES[k]), out, Strict(k));
        StepAdvances(k, states[k], recs[k], s, rec, to, p);
      }
    }
  }

  lemma StepAdvances(k: nat, s: State, rec: byte, s': State, rec': byte, to: byte, p: Parameters)
    requires 0 < k < CONTROLS && Legal(s, rec, s', rec') && (to == rec' || (!Strict(k) && s' == Released))
    ensures Advance(Expected(s, rec), ButtonMessage(p, CODES[k], s', to).msg, Strict(k)) == Expected(s', rec')
  {
  }

  /** What a scan says about a control: one message if its state changed, nothing otherwise. */
  function Said(k: nat, s: State, s': State, to: byte, p: Parameters): seq<Out>
    requires k < CONTROLS
  {
    if s == s' then [] else [ButtonMessage(p, CODES[k], s', to)]
  }

  /** Between two moments of a scan exactly the changes of state have been reported, once each. */
  predicate Reported(before: seq<Out>, after: seq<Out>, from: seq<State>, now: seq<State>, tos: seq<byte>, p: Parameters) {
    && |from| == |now| == |tos| == CONTROLS
    && forall k :: 0 < k < CONTROLS ==>
         History(after, CODES[k]) == History(before, CODES[k]) + Said(k, from[k], now[k], tos[k], p)
  }

  lemma NothingReported(log: seq<Out>, states: seq<State>, tos: seq<byte>, p: Parameters)
    requires |states| == |tos| == CONTROLS
    ensures Reported(log, log, states, states, tos, p)
  {
  }

  lemma ReportedSend(before: seq<Out>, log: seq<Out>, from: seq<State>, now: seq<State>, tos: seq<byte>, k: nat, s: State, to: byte, p: Parameters)
    requires Reported(before, log, from, now, tos, p) && 0 < k < CONTROLS
    requires now[k] == from[k] && s != from[k]
    ensures Reported(before, log + [ButtonMessage(p, CODES[k], s, to)], from, now[k := s], tos[k := to], p)
  {
    hide History;
    var out := ButtonMessage(p, CODES[k], s, to);
    forall j | 0 < j < CONTROLS
      ensures History(log + [out], CODES[j]) ==
              History(before, CODES[j]) + Said(j, from[j], now[k := s][j], tos[k := to][j], p)
    {
      HistoryPush(log, out, CODES[j]);
      if j < k {
        CodesDistinct(j, k);
      } else if k < j {
        CodesDistinct(k, j);
      }
    }
  }

  /** Nav-push is never down together with a direction. */
  predicate Exclusive(states: seq<State>)
    requires |states| == CONTROLS
  {
    states[PINS + NAV_PUSH] != Released ==>
      states[PINS + NAV_DN] == states[PINS + NAV_UP] == states[PINS + NAV_RIGHT] == states[PINS + NAV_LEFT] == Released
  }

  // ---------- the handler ----------

  /** Where a control stands after a scan that finds it down or up. */
  function Next(s: State, down: bool): State {
    if !down then Released else if s == Released then Pressed else s
  }

  predicate AnyDirection(low: seq<bool>)
    requires |low| == TOGGLES
  {
    low[NAV_DN] || low[NAV_UP] || low[NAV_RIGHT] || low[NAV_LEFT]
  }

  /** Whether a toggle counts as down: nav-push does not while a direction is. */
  predicate ToggleDown(b: nat, low: seq<bool>)
    requires |low| == TOGGLES && b < TOGGLES
  {
    low[b] && (b == NAV_PUSH ==> !AnyDirection(low))
  }

  /** Whether one of the first `n` toggles is a direction that is down. */
  predicate DirectionSeen(low: seq<bool>, n: nat)
    requires |low| == TOGGLES
  {
    (n > NAV_DN && low[NAV_DN]) || (n > NAV_UP && low[NAV_UP]) || (n > NAV_RIGHT && low[NAV_RIGHT]) || (n > NAV_LEFT && low[NAV_LEFT])
  }

  /** Where every control stands once the first `n` toggles have been scanned. */
  function TogglesAfter(from: seq<State>, low: seq<bool>, n: nat): (r: seq<State>)
    requires |from| == CONTROLS && |low| == TOGGLES
    ensures |r| == CONTROLS
  {
    seq(CONTROLS, k requires 0 <= k < CONTROLS =>
      if k < PINS then from[k]
      else if k < PINS + n then Next(from[k], ToggleDown(k - PINS, low))
      else if k == PINS + NAV_PUSH && DirectionSeen(low, n) then Released
      else from[k])
  }

  function ToggleRecs(from: seq<State>, recs: seq<byte>, low: seq<bool>, n: nat, p: Parameters): (r: seq<byte>)
    requires |from| == |recs| == CONTROLS && |low| == TOGGLES
    ensures |r| == CONTROLS
  {
    seq(CONTROLS, k requires 0 <= k < CONTROLS =>
      if PINS <= k < PINS + n then NextRec(from[k], ToggleDown(k - PINS, low), ToggleDest(p, k - PINS), recs[k])
      else recs[k])
  }

  /** Where the messages of a toggle scan go: to the remembered recipients, except that a forced release goes to the current one. */
  function ToggleTos(from: seq<State>, recs: seq<byte>, low: seq<bool>, n: nat, p: Parameters): (r: seq<byte>)
    requires |from| == |recs| == CONTROLS && |low| == TOGGLES
    ensures |r| == CONTROLS
  {
    if from[PINS + NAV_PUSH] != Released && DirectionSeen(low, n) then recs[PINS + NAV_PUSH := p.allDest] else recs
  }

  /** What scanning toggle `b` changes; a newly pressed direction also releases nav-push. */
  lemma ScanStep(from: seq<State>, recs: seq<byte>, low: seq<bool>, b: nat, p: Parameters)
    requires |from| == |recs| == CONTROLS && |low| == TOGGLES && b < TOGGLES && Exclusive(from)
    ensures var s0, r0, s' := TogglesAfter(from, low, b), ToggleRecs(from, recs, low, b, p), TogglesAfter(from, low, b + 1);
            var s1 := if Forces(s0, low, b) then s0[PINS + NAV_PUSH := Released] else s0;
            var r' := r0[PINS + b := NextRec(s0[PINS + b], ToggleDown(b, low), ToggleDest(p, b), r0[PINS + b])];
            var tos := ToggleTos(from, r0, low, b, p);
            && s' == s1[PINS + b := Next(s1[PINS + b], ToggleDown(b, low))] && Exclusive(s')
            && s0[PINS + b] == (if b == NAV_PUSH && AnyDirection(low) then Released else from[PINS + b])
            && (Forces(s0, low, b) ==> s0[PINS + NAV_PUSH] == from[PINS + NAV_PUSH])
            && ToggleRecs(from, recs, low, b + 1, p) == r'
            && ToggleTos(from, r', low, b + 1, p) ==
               (if Forces(s0, low, b) then tos[PINS + NAV_PUSH := p.allDest] else tos)
                 [PINS + b := if s1[PINS + b] == s'[PINS + b] then tos[PINS + b] else r'[PINS + b]]
  {
  }

  predicate Forces(states: seq<State>, low: seq<bool>, b: nat)
    requires |states| == CONTROLS && |low| == TOGGLES && b < TOGGLES
  {
    low[b] && b != NAV_PUSH && b != VOL_PUSH && states[PINS + b] == Released && states[PINS + NAV_PUSH] != Released
  }

  lemma NothingScanned(from: seq<State>, recs: seq<byte>, low: seq<bool>, p: Parameters)
    requires |from| == |recs| == CONTROLS && |low| == TOGGLES
    ensures TogglesAfter(from, low, 0) == from && ToggleRecs(from, recs, low, 0, p) == recs && ToggleTos(from, recs, low, 0, p) == recs
  {
  }

  function AfterPress(from: seq<State>, low: seq<bool>, debounced: bool): (r: seq<State>)
    requires |from| == |low| == CONTROLS
    ensures |r| == CONTROLS
  {
    seq(CONTROLS, k requires 0 <= k < CONTROLS =>
      if k < PINS then Next(from[k], low[k])
      else if debounced then Next(from[k], ToggleDown(k - PINS, low[PINS..]))
      else from[k])
  }

  function RecsAfterPress(from: seq<State>, recs: seq<byte>, low: seq<bool>, debounced: bool, p: Parameters): (r: seq<byte>)
    requires |from| == |recs| == |low| == CONTROLS
    ensures |r| == CONTROLS
  {
    seq(CONTROLS, k requires 0 <= k < CONTROLS =>
      if k < PINS then NextRec(from[k], low[k], Recipient(p, k), recs[k])
      else if debounced then NextRec(from[k], ToggleDown(k - PINS, low[PINS..]), ToggleDest(p, k - PINS), recs[k])
      else recs[k])
  }

  /** Where every control stands once the first `n` have been looked at for a hold. */
  function AfterHold(from: seq<State>, expired: seq<bool>, n: nat): (r: seq<State>)
    requires |from| == |expired| == CONTROLS
    ensures |r| == CONTROLS
  {
    seq(CONTROLS, k requires 0 <= k < CONTROLS =>
      if k < n && HoldsNow(from[k], k, expired[k]) then Held else from[k])
  }

  predicate HoldsNow(s: State, k: nat, expired: bool) {
    s == Pressed && expired && k != EJECT
  }

  lemma NothingHeld(from: seq<State>, expired: seq<bool>)
    requires |from| == |expired| == CONTROLS
    ensures AfterHold(from, expired, 0) == from
  {
  }

  lemma HoldStep(from: seq<State>, expired: seq<bool>, b: nat)
    requires |from| == |expired| == CONTROLS && b < CONTROLS
    ensures AfterHold(from, expired, b)[b] == from[b]
    ensures AfterHold(from, expired, b + 1) ==
            if HoldsNow(from[b], b, expired[b]) then AfterHold(from, expired, b)[b := Held] else AfterHold(from, expired, b)
  {
  }

  class ButtonHandler {
    const buttonStates: array<State>
    const lastButtonRec: array<byte>
    const toggleStates: array<State>
    const lastToggleRec: array<byte>
    var log: seq<Out>
    /** How often the screen was told to open. */
    var opens: nat

    ghost predicate Shape()
    {
      && buttonStates.Length == lastButtonRec.Length == PINS
      && toggleStates.Length == lastToggleRec.Length == TOGGLES
      && buttonStates != toggleStates && lastButtonRec != lastToggleRec
    }

    ghost function States(): (r: seq<State>)
      requires Shape()
      reads buttonStates, toggleStates
      ensures |r| == CONTROLS
    {
      buttonStates[..] + toggleStates[..]
    }

    ghost function Recs(): (r: seq<byte>)
      requires Shape()
      reads lastButtonRec, lastToggleRec
      ensures |r| == CONTROLS
    {
      lastButtonRec[..] + lastToggleRec[..]
    }

    ghost predicate Valid()
      reads this, buttonStates, toggleStates, lastButtonRec, lastToggleRec
    {
      Shape() && Faithful(States(), Recs(), log) && Exclusive(States())
    }

    constructor ()
      ensures Valid() && log == [] && opens == 0
      ensures fresh(buttonStates) && fresh(lastButtonRec) && fresh(toggleStates) && fresh(lastToggleRec)
    {
      buttonStates := new State[PINS](_ => Released);
      lastButtonRec := new byte[PINS](_ => 0);
      toggleStates := new State[TOGGLES](_ => Released);
      lastToggleRec := new byte[TOGGLES](_ => 0);
      log, opens := [], 0;
    }

    /** sendButtonMessage */
    method Send(code: byte, state: State, recipient: byte, p: Parameters)
      modifies this`log
      ensures log == old(log) + [ButtonMessage(p, code, state, recipient)]
      ensures var out := log[|old(log)|];
              && out.msg == Message(0x07, recipient,
                                    [0x30, code, match state case Pressed => 0x00 case Held => 0x40 case Released => 0x80])
              && (out.ack <==>
                    && recipient !in {0xFF, 0x07}
                    && (recipient == 0x01 ==> p.computerConnected) && (recipient == 0x10 ==> p.radioConnected))
    {
      var newState: byte := 0x80;
      if state == Pressed {
        newState := 0x00;
      } else if state == Held {
        newState := 0x40;
      }
      var msg := Message(SCREEN, recipient, [0x30, code, newState]);
      var ack := true;
      if recipient == COMPUTER && !p.computerConnected {
        ack := false;
      } else if recipient == RADIO && !p.radioConnected {
        ack := false;
      } else if recipient == BROADCAST || recipient == SCREEN {
        ack := false;
      }
      log := log + [Out(msg, ack)];
    }

    /** A pin changes state and its message goes out. */
    method SetPin(b: nat, s: State, rec: byte, p: Parameters)
      requires Valid() && 0 < b < PINS && Legal(buttonStates[b], lastButtonRec[b], s, rec)
      modifies this`log, buttonStates, lastButtonRec
      ensures Valid() && log == old(log) + [ButtonMessage(p, CODES[b], s, rec)]
      ensures States() == old(States())[b := s] && Recs() == old(Recs())[b := rec]
    {
      hide Faithful;
      SendKeeps(States(), Recs(), log, b, s, rec, rec, p);
      buttonStates[b] := s;
      lastButtonRec[b] := rec;
      Send(CODES[b], s, rec, p);
      assert States() == old(States())[b := s] && Recs() == old(Recs())[b := rec];
    }

    /** A toggle changes state; its message may go elsewhere only if it is nav-push. */
    method SetToggle(b: nat, s: State, rec: byte, to: byte, p: Parameters)
      requires Shape() && Faithful(States(), Recs(), log)
      requires b < TOGGLES && Legal(toggleStates[b], lastToggleRec[b], s, rec) && (to == rec || (b == NAV_PUSH && s == Released))
      modifies this`log, toggleStates, lastToggleRec
      ensures Faithful(States(), Recs(), log) && log == old(log) + [ButtonMessage(p, CODES[PINS + b], s, to)]
      ensures States() == old(States())[PINS + b := s] && Recs() == old(Recs())[PINS + b := rec]
    {
      hide Faithful;
      SendKeeps(States(), Recs(), log, PINS + b, s, rec, to, p);
      toggleStates[b] := s;
      lastToggleRec[b] := rec;
      Send(CODES[PINS + b], s, to, p);
      assert States() == old(States())[PINS + b := s] && Recs() == old(Recs())[PINS + b := rec];
    }

    /** The loop of checkButtonPress over the pins. */
    method ScanPins(down: seq<bool>, p: Parameters)
      requires Valid() && |down| == PINS
      modifies this`log, this`opens, buttonStates, lastButtonRec
      ensures Valid()
      ensures forall b :: 0 <= b < PINS ==> States()[b] == Next(old(States())[b], down[b])
      ensures forall b :: 0 <= b < PINS ==> Recs()[b] == NextRec(old(States())[b], down[b], Recipient(p, b), old(Recs())[b])
      ensures Reported(old(log), log, old(States()), States(), Recs(), p)
      ensures opens == old(opens) + if down[EJECT] && old(States())[EJECT] == Released && p.allowOpen then 1 else 0
    {
      hide Faithful, Reported, Exclusive, Recipient, Next, NextRec;
      NothingReported(log, States(), Recs(), p);
      ghost var from, recs := States(), Recs();
      for b := 0 to PINS
        invariant Valid() && Reported(old(log), log, from, States(), Recs(), p)
        invariant forall c :: 0 <= c < b ==> States()[c] == Next(from[c], down[c])
        invariant forall c :: b <= c < CONTROLS ==> States()[c] == from[c]
        invariant forall c :: 0 <= c < b ==> Recs()[c] == NextRec(from[c], down[c], Recipient(p, c), recs[c])
        invariant forall c :: b <= c < CONTROLS ==> Recs()[c] == recs[c]
        invariant opens == old(opens) + if b > 0 && down[EJECT] && from[EJECT] == Released && p.allowOpen then 1 else 0
      {
        ghost var l, now, tos := log, States(), Recs();
        ScanPin(b, down[b], p);
        ReportedStep(old(log), l, log, from, now, tos, b, States()[b], Recs()[b], p);
      }
    }

    /** One pin. Eject sends nothing: it opens the screen. */
    method ScanPin(b: nat, down: bool, p: Parameters)
      requires Valid() && b < PINS
      modifies this`log, this`opens, buttonStates, lastButtonRec
      ensures Valid()
      ensures States() == old(States())[b := Next(old(States())[b], down)]
      ensures Recs() == old(Recs())[b := NextRec(old(States())[b], down, Recipient(p, b), old(Recs())[b])]
      ensures log == old(log) + if b == EJECT then [] else Said(b, old(States())[b], States()[b], Recs()[b], p)
      ensures opens == old(opens) + if b == EJECT && down && old(States())[b] == Released && p.allowOpen then 1 else 0
    {
      hide Faithful, Exclusive, Recipient;
      assert log + [] == log;
      ghost var states, recs := States(), Recs();
      assert states[b := states[b]] == states && recs[b := recs[b]] == recs;
      assert states[b] == buttonStates[b] && recs[b] == lastButtonRec[b];
      PinKeepsExclusive(states, b, Next(states[b], down));
      var recipient := Recipient(p, b);
      if down && buttonStates[b] == Released {
        if b != EJECT {
          SetPin(b, Pressed, recipient, p);
        } else {
          SetEject(Pressed, recipient);
          if p.allowOpen {
            opens := opens + 1;
          }
        }
      } else if !down && buttonStates[b] != Released {
        if b != EJECT {
          SetPin(b, Released, lastButtonRec[b], p);
        } else {
          SetEject(Released, lastButtonRec[b]);
        }
      }
    }

    /** The debounced loop of checkButtonPress over the toggles. */
    method ScanToggles(low: seq<bool>, p: Parameters)
      requires Valid() && |low| == TOGGLES
      modifies this`log, toggleStates, lastToggleRec
      ensures Valid()
      ensures States() == TogglesAfter(old(States()), low, TOGGLES)
      ensures Recs() == ToggleRecs(old(States()), old(Recs()), low, TOGGLES, p)
      ensures Reported(old(log), log, old(States()), States(), ToggleTos(old(States()), Recs(), low, TOGGLES, p), p)
    {
      hide Faithful, Reported, Exclusive;
      ghost var from, recs := States(), Recs();
      NothingScanned(from, recs, low, p);
      NothingReported(log, from, recs, p);
      for b := 0 to TOGGLES
        invariant Valid() && States() == TogglesAfter(from, low, b) && Recs() == ToggleRecs(from, recs, low, b, p)
        invariant Reported(old(log), log, from, States(), ToggleTos(from, Recs(), low, b, p), p)
      {
        ScanToggle(b, low, p, old(log), from, recs);
      }
    }

    /** One toggle: a direction pressed while nav-push is down releases nav-push first. */
    method ScanToggle(b: nat, low: seq<bool>, p: Parameters, ghost before: seq<Out>, ghost from: seq<State>, ghost recs: seq<byte>)
      requires Valid() && |low| == TOGGLES && b < TOGGLES && |from| == |recs| == CONTROLS && Exclusive(from)
      requires States() == TogglesAfter(from, low, b) && Recs() == ToggleRecs(from, recs, low, b, p)
      requires Reported(before, log, from, States(), ToggleTos(from, Recs(), low, b, p), p)
      modifies this`log, toggleStates, lastToggleRec
      ensures Valid() && States() == TogglesAfter(from, low, b + 1) && Recs() == ToggleRecs(from, recs, low, b + 1, p)
      ensures Reported(before, log, from, States(), ToggleTos(from, Recs(), low, b + 1, p), p)
    {
      hide Faithful, Reported, Exclusive, TogglesAfter, ToggleRecs, ToggleTos, ToggleDest;
      var state := low[b];
      ghost var s0, r0 := States(), Recs();
      ghost var tos := ToggleTos(from, r0, low, b, p);
      ScanStep(from, recs, low, b, p);
      assert toggleStates[b] == s0[PINS + b] && lastToggleRec[b] == r0[PINS + b];
      assert s0[PINS + b := s0[PINS + b]] == s0 && r0[PINS + b := r0[PINS + b]] == r0 && tos[PINS + b := tos[PINS + b]] == tos;
      assert toggleStates[NAV_PUSH] == s0[PINS + NAV_PUSH];
      if state && toggleStates[b] == Released {
        var press := true;
        if b == NAV_PUSH {
          if AnyDirection(low) {
            press := false;
          }
        } else if b != VOL_PUSH {
          if toggleStates[NAV_PUSH] != Released {
            tos := ReleasePush(p, before, from, tos);
          }
        }
        var dest := ToggleDest(p, b);
        if press {
          ReportedSend(before, log, from, States(), tos, PINS + b, Pressed, dest, p);
          SetToggle(b, Pressed, dest, dest, p);
        }
      } else if !state && toggleStates[b] != Released {
        ReportedSend(before, log, from, s0, tos, PINS + b, Released, lastToggleRec[b], p);
        SetToggle(b, Released, lastToggleRec[b], lastToggleRec[b], p);
      }
    }

    method ReleasePush(p: Parameters, ghost before: seq<Out>, ghost from: seq<State>, ghost tos: seq<byte>) returns (ghost tos': seq<byte>)
      requires Shape() && Faithful(States(), Recs(), log) && toggleStates[NAV_PUSH] != Released
      requires Reported(before, log, from, States(), tos, p) && from[PINS + NAV_PUSH] == toggleStates[NAV_PUSH]
      modifies this`log, toggleStates, lastToggleRec
      ensures Faithful(States(), Recs(), log) && Recs() == old(Recs())
      ensures States() == old(States())[PINS + NAV_PUSH := Released]
      ensures tos' == tos[PINS + NAV_PUSH := p.allDest] && Reported(before, log, from, States(), tos', p)
    {
      hide Faithful, History;
      ghost var r0 := Recs();
      assert r0[PINS + NAV_PUSH := lastToggleRec[NAV_PUSH]] == r0;
      ReportedSend(before, log, from, States(), tos, PINS + NAV_PUSH, Released, p.allDest, p);
      SetToggle(NAV_PUSH, Released, lastToggleRec[NAV_PUSH], p.allDest, p);
      tos' := tos[PINS + NAV_PUSH := p.allDest];
    }

    /** `low` says of each control whether its line is down; `debounced` whether 50 ms have gone by since the last toggle scan. */
    method CheckButtonPress(low: seq<bool>, debounced: bool, p: Parameters)
      requires Valid() && |low| == CONTROLS
      modifies this`log, this`opens, buttonStates, lastButtonRec, toggleStates, lastToggleRec
      ensures Valid()
      ensures States() == AfterPress(old(States()), low, debounced)
      ensures Recs() == RecsAfterPress(old(States()), old(Recs()), low, debounced, p)
      ensures Reported(old(log), log, old(States()), States(),
                       if debounced then ToggleTos(old(States()), Recs(), low[PINS..], TOGGLES, p) else Recs(), p)
      ensures opens == old(opens) + if low[EJECT] && old(States())[EJECT] == Released && p.allowOpen then 1 else 0
    {
      hide Faithful, Reported, Exclusive, Recipient, ToggleDest;
      ghost var s0, r0 := States(), Recs();
      ScanPins(low[..PINS], p);
      ghost var l, s1, r1 := log, States(), Recs();
      assert forall b :: 0 <= b < PINS ==> low[..PINS][b] == low[b];
      if !debounced {
        assert s1 == AfterPress(s0, low, debounced);
        assert r1 == RecsAfterPress(s0, r0, low, debounced, p);
        return;
      }
      ScanToggles(low[PINS..], p);
      assert States() == AfterPress(s0, low, debounced);
      assert Recs() == RecsAfterPress(s0, r0, low, debounced, p);
      var tos := ToggleTos(s0, Recs(), low[PINS..], TOGGLES, p);
      ReportedTwice(old(log), l, log, s0, s1, States(), r1, ToggleTos(s1, Recs(), low[PINS..], TOGGLES, p), tos, p);
    }

    /** `expired` says of each control whether it has been down for more than a second. */
    method CheckButtonHold(expired: seq<bool>, p: Parameters)
      requires Valid() && |expired| == CONTROLS
      modifies this`log, buttonStates, lastButtonRec, toggleStates, lastToggleRec
      ensures Valid()
      ensures States() == AfterHold(old(States()), expired, CONTROLS) && Recs() == old(Recs())
      ensures Reported(old(log), log, old(States()), States(), Recs(), p)
    {
      hide Faithful, Reported, Exclusive, AfterHold;
      ghost var from, recs := States(), Recs();
      NothingReported(log, from, recs, p);
      NothingHeld(from, expired);
      for b := 0 to PINS
        invariant Valid() && States() == AfterHold(from, expired, b) && Recs() == recs
        invariant Reported(old(log), log, from, States(), recs, p)
      {
        HoldStep(from, expired, b);
        HoldPin(b, expired[b], p, old(log), from);
      }
      for b := 0 to TOGGLES
        invariant Valid() && States() == AfterHold(from, expired, PINS + b) && Recs() == recs
        invariant Reported(old(log), log, from, States(), recs, p)
      {
        HoldStep(from, expired, PINS + b);
        HoldToggle(b, expired[PINS + b], p, old(log), from);
      }
    }

    method HoldPin(b: nat, expired: bool, p: Parameters, ghost before: seq<Out>, ghost from: seq<State>)
      requires Valid() && b < PINS && |from| == CONTROLS && States()[b] == from[b]
      requires Reported(before, log, from, States(), Recs(), p)
      modifies this`log, buttonStates, lastButtonRec
      ensures Valid() && Recs() == old(Recs())
      ensures States() == if HoldsNow(from[b], b, expired) then old(States())[b := Held] else old(States())
      ensures Reported(before, log, from, States(), Recs(), p)
    {
      hide Faithful, Reported, Exclusive;
      ghost var recs := Recs();
      assert buttonStates[b] == States()[b] && lastButtonRec[b] == recs[b] && recs[b := recs[b]] == recs;
      if buttonStates[b] == Pressed && expired && b != EJECT {
        ReportedSend(before, log, from, States(), recs, b, Held, lastButtonRec[b], p);
        SetPin(b, Held, lastButtonRec[b], p);
      }
    }

    method HoldToggle(b: nat, expired: bool, p: Parameters, ghost before: seq<Out>, ghost from: seq<State>)
      requires Valid() && b < TOGGLES && |from| == CONTROLS && States()[PINS + b] == from[PINS + b]
      requires Reported(before, log, from, States(), Recs(), p)
      modifies this`log, toggleStates, lastToggleRec
      ensures Valid() && Recs() == old(Recs())
      ensures States() == if HoldsNow(from[PINS + b], PINS + b, expired) then old(States())[PINS + b := Held] else old(States())
      ensures Reported(before, log, from, States(), Recs(), p)
    {
      hide Faithful, Reported, Exclusive;
      ghost var recs := Recs();
      assert toggleStates[b] == States()[PINS + b] && lastToggleRec[b] == recs[PINS + b];
      assert recs[PINS + b := recs[PINS + b]] == recs;
      HeldKeepsExclusive(States(), PINS + b);
      if toggleStates[b] == Pressed && expired {
        ReportedSend(before, log, from, States(), recs, PINS + b, Held, lastToggleRec[b], p);
        SetToggle(b, Held, lastToggleRec[b], lastToggleRec[b], p);
      }
    }

    method Loop(low: seq<bool>, debounced: bool, expired: seq<bool>, p: Parameters)
      requires Valid() && |low| == |expired| == CONTROLS
      modifies this`log, this`opens, buttonStates, lastButtonRec, toggleStates, lastToggleRec
      ensures Valid()
      ensures States() == AfterHold(AfterPress(old(States()), low, debounced), expired, CONTROLS)
      ensures Recs() == RecsAfterPress(old(States()), old(Recs()), low, debounced, p)
    {
      CheckButtonPress(low, debounced, p);
      CheckButtonHold(expired, p);
    }

    method SetEject(s: State, rec: byte)
      requires Valid()
      modifies buttonStates, lastButtonRec
      ensures Valid()
      ensures States() == old(States())[EJECT := s] && Recs() == old(Recs())[EJECT := rec]
    {
      hide Faithful, Exclusive;
      EjectKeeps(States(), Recs(), log, s, rec);
      buttonStates[EJECT] := s;
      lastButtonRec[EJECT] := rec;
      assert States() == old(States())[EJECT := s] && Recs() == old(Recs())[EJECT := rec];
    }
  }

  function NextRec(s: State, down: bool, recipient: byte, rec: byte): byte {
    if down && s == Released then recipient else rec
  }

  lemma PinKeepsExclusive(states: seq<State>, b: nat, s: State)
    requires |states| == CONTROLS && Exclusive(states) && b < PINS
    ensures Exclusive(states[b := s])
  {
  }

  lemma HeldKeepsExclusive(states: seq<State>, k: nat)
    requires |states| == CONTROLS && k < CONTROLS && Exclusive(states)
    ensures states[k] == Pressed ==> Exclusive(states[k := Held])
  {
  }

  /** Two scans in a row, of which no control changes in both. */
  lemma ReportedTwice(before: seq<Out>, mid: seq<Out>, after: seq<Out>, from: seq<State>, between: seq<State>, now: seq<State>,
                      tos: seq<byte>, tos': seq<byte>, all: seq<byte>, p: Parameters)
    requires Reported(before, mid, from, between, tos, p) && Reported(mid, after, between, now, tos', p) && |all| == CONTROLS
    requires forall k :: 0 < k < CONTROLS ==>
               || (between[k] == now[k] && (from[k] == between[k] || all[k] == tos[k]))
               || (from[k] == between[k] && all[k] == tos'[k])
    ensures Reported(before, after, from, now, all, p)
  {
    hide History;
  }

  /**
   In every state the handler reaches, what a control has said, and to whom, is whole cycles and
   at most one unfinished one; and but for nav-push each cycle went to one recipient.
   */
  lemma Cycles(states: seq<State>, recs: seq<byte>, log: seq<Out>, k: nat) returns (cycles: seq<Cycle>)
    requires Faithful(states, recs, log) && 0 < k < CONTROLS
    ensures Words(History(log, CODES[k])) == CyclesWords(cycles) + OpenWords(Expected(states[k], recs[k]))
    ensures Strict(k) ==> OneRecipientEach(cycles)
  {
    cycles := PhaseMeans(History(log, CODES[k]), Strict(k));
  }

  /** Nav-push, going up in a scan, is released to this recipient by exactly one message. */
  lemma PushReleased(from: seq<State>, recs: seq<byte>, before: seq<Out>, after: seq<Out>, low: seq<bool>, p: Parameters)
    returns (out: Out)
    requires |from| == |recs| == CONTROLS && |low| == TOGGLES
    requires Reported(before, after, from, TogglesAfter(from, low, TOGGLES),
                      ToggleTos(from, ToggleRecs(from, recs, low, TOGGLES, p), low, TOGGLES, p), p)
    requires from[PINS + NAV_PUSH] != Released && !ToggleDown(NAV_PUSH, low)
    ensures History(after, CODES[PINS + NAV_PUSH]) == History(before, CODES[PINS + NAV_PUSH]) + [out]
    ensures out.msg.data == [0x30, CODES[PINS + NAV_PUSH], 0x80]
    ensures out.msg.receiver == if AnyDirection(low) then p.allDest else recs[PINS + NAV_PUSH]
  {
    hide History;
    var k := PINS + NAV_PUSH;
    var tos := ToggleTos(from, ToggleRecs(from, recs, low, TOGGLES, p), low, TOGGLES, p);
    assert DirectionSeen(low, TOGGLES) == AnyDirection(low);
    out := ButtonMessage(p, CODES[k], Released, tos[k]);
    assert History(after, CODES[k]) == History(before, CODES[k]) + Said(k, from[k], Released, tos[k], p);
  }

  /**
   In the messages sent: when a scan ends a cycle of nav-push, its release goes to whom the press
   went exactly if no direction is down or the destination is still that recipient.
   */
  lemma NavPushRecipient(from: seq<State>, recs: seq<byte>, before: seq<Out>, after: seq<Out>, low: seq<bool>, p: Parameters)
    returns (cycles: seq<Cycle>, last: Cycle)
    requires Faithful(from, recs, before) && |low| == TOGGLES
    requires Reported(before, after, from, TogglesAfter(from, low, TOGGLES),
                      ToggleTos(from, ToggleRecs(from, recs, low, TOGGLES, p), low, TOGGLES, p), p)
    requires from[PINS + NAV_PUSH] != Released && !ToggleDown(NAV_PUSH, low)
    ensures Words(History(before, CODES[PINS + NAV_PUSH])) ==
            CyclesWords(cycles) + OpenWords(if last.held then HeldDown(last.rec) else Down(last.rec))
    ensures Words(History(after, CODES[PINS + NAV_PUSH])) == CyclesWords(cycles + [last])
    ensures last.released == last.rec <==> (AnyDirection(low) ==> p.allDest == last.rec)
  {
    hide Reported, TogglesAfter, ToggleRecs, ToggleTos, History;
    var k := PINS + NAV_PUSH;
    cycles := Cycles(from, recs, before, k);
    var out := PushReleased(from, recs, before, after, low, p);
    last := Cycle(from[k] == Held, recs[k], out.msg.receiver);
    var told := History(before, CODES[k]);
    assert (told + [out])[..|told|] == told;
    assert (cycles + [last])[..|cycles|] == cycles;
    assert CyclesWords(cycles) + OpenWords(Expected(from[k], recs[k])) + [Word(0x80, out.msg.receiver)] ==
           CyclesWords(cycles) + CycleWords(last);
  }

  lemma EjectKeeps(states: seq<State>, recs: seq<byte>, log: seq<Out>, s: State, rec: byte)
    requires Faithful(states, recs, log) && Exclusive(states)
    ensures Faithful(states[EJECT := s], recs[EJECT := rec], log) && Exclusive(states[EJECT := s])
  {
  }

  /** A control that has not changed yet is scanned. */
  lemma ReportedStep(before: seq<Out>, log: seq<Out>, after: seq<Out>, from: seq<State>, now: seq<State>, tos: seq<byte>,
                     k: nat, s: State, to: byte, p: Parameters)
    requires Reported(before, log, from, now, tos, p) && k < CONTROLS && now[k] == from[k]
    requires after == log + if k == EJECT then [] else Said(k, now[k], s, to, p)
    ensures Reported(before, after, from, now[k := s], tos[k := to], p)
  {
    if k != EJECT && s != now[k] {
      ReportedSend(before, log, from, now, tos, k, s, to, p);
    } else {
      assert after == log;
    }
  }
}
