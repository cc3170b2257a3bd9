/**
 Which messages of a sending run go into the retry cache (ipc.rs `write_stream`): unanswered
 ordinary messages one by one, unanswered fragments, as intended, with their whole group.
 */
module Unanswered {
  import opened Bytes
  import opened AIBus
  import opened ClientProtocol
  import opened Envelope
  import opened Fragmentation
  import opened Seqs

  /** The wait for an answer to the message at some place of the run, and what was read meanwhile. */
  datatype Wait = Wait(at: nat, heard: seq<Read>)

  function ReadsOf(waits: seq<Wait>): seq<Read> {
    if waits == [] then [] else ReadsOf(waits[..|waits| - 1]) + waits[|waits| - 1].heard
  }

  /** Waits in the order of the run, at most one for each message. */
  predicate InTurn(waits: seq<Wait>, n: nat) {
    && (forall i, j :: 0 <= i < j < |waits| ==> waits[i].at < waits[j].at)
    && (forall i :: 0 <= i < |waits| ==> waits[i].at < n)
  }

  /** The places of the messages for which no answer was heard. */
  ghost function Missed(list: seq<Message>, waits: seq<Wait>): seq<nat>
    requires InTurn(waits, |list|)
  {
    if waits == [] then []
    else
      var front, w := waits[..|waits| - 1], waits[|waits| - 1];
      Missed(list, front) + if Answered(Heard(w.heard), list[w.at]) then [] else [w.at]
  }

  /** Where the run of fragments that ends at place m begins. */
  function GroupStart(list: seq<Message>, m: nat): (s: nat)
    requires m < |list|
    ensures s <= m
  {
    if m > 0 && list[m - 1].StartsWith(MULTI) then GroupStart(list, m - 1) else m
  }

  /** It is the one place from which on there are fragments only, with none right before. */
  lemma {:induction false} GroupIsRun(list: seq<Message>, m: nat, s: nat)
    requires m < |list| && s <= m
    ensures GroupStart(list, m) == s <==>
            && (forall i :: s <= i < m ==> |list[i].data| > 0 && list[i].data[0] == 0x91)
            && (s == 0 || |list[s - 1].data| == 0 || list[s - 1].data[0] != 0x91)
  {
    if m > 0 && list[m - 1].StartsWith(MULTI) {
      if s < m {
        GroupIsRun(list, m - 1, s);
      }
    } else if s < m {
      assert !list[m - 1].StartsWith(MULTI);
    }
  }

  /** The places from `first` on, before `end`, that hold fragments. */
  function FragmentPlaces(list: seq<Message>, first: nat, end: nat): (places: seq<nat>)
    requires first <= end <= |list|
    ensures forall i :: i in places <==> first <= i < end && list[i].StartsWith(MULTI)
  {
    if first == end then []
    else FragmentPlaces(list, first, end - 1) + if list[end - 1].StartsWith(MULTI) then [end - 1] else []
  }

  /** What has been noted down: messages, and the places of one group of fragments. */
  datatype Notes = Notes(messages: seq<Message>, group: seq<nat>)

  /** A second unanswered fragment strikes out the group noted for the first. */
  function Note(list: seq<Message>, notes: Notes, m: nat): Notes
    requires m < |list|
  {
    if list[m].StartsWith(MULTI) && notes.group == [] then
      notes.(group := FragmentPlaces(list, GroupStart(list, m), |list|))
    else
      Notes(notes.messages + [list[m]], [])
  }

  predicate Places(missed: seq<nat>, n: nat) {
    forall i :: 0 <= i < |missed| ==> missed[i] < n
  }

  predicate Increasing(missed: seq<nat>) {
    forall i, j :: 0 <= i < j < |missed| ==> missed[i] < missed[j]
  }

  function NoteAll(list: seq<Message>, missed: seq<nat>): Notes
    requires Places(missed, |list|)
  {
    if missed == [] then Notes([], []) else Note(list, NoteAll(list, missed[..|missed| - 1]), missed[|missed| - 1])
  }

  function At(list: seq<Message>, places: seq<nat>): (ms: seq<Message>)
    requires Places(places, |list|)
    ensures |ms| == |places| && forall i :: 0 <= i < |ms| ==> ms[i] == list[places[i]]
  {
    seq(|places|, i requires 0 <= i < |places| => list[places[i]])
  }

  lemma GroupPlaces(list: seq<Message>, missed: seq<nat>)
    requires Places(missed, |list|)
    ensures Places(NoteAll(list, missed).group, |list|)
  {
    var group := NoteAll(list, missed).group;
    forall i | 0 <= i < |group|
      ensures group[i] < |list|
    {
      assert group[i] in group;
    }
  }

  /** What is cached for retrying. */
  function ToRetry(list: seq<Message>, missed: seq<nat>): seq<Message>
    requires Places(missed, |list|)
  {
    GroupPlaces(list, missed);
    NoteAll(list, missed).messages + At(list, NoteAll(list, missed).group)
  }

  lemma RetryOfNotes(list: seq<Message>, missed: seq<nat>)
    requires Places(missed, |list|)
    ensures Places(NoteAll(list, missed).group, |list|)
    ensures ToRetry(list, missed) == NoteAll(list, missed).messages + At(list, NoteAll(list, missed).group)
  {
    GroupPlaces(list, missed);
  }

  // ---------- keeping the notes ----------

  lemma NothingMissed(list: seq<Message>)
    ensures ReadsOf([]) == [] && InTurn([], 0) && InTurn([], |list|)
    ensures Missed(list, []) == [] && NoteAll(list, []) == Notes([], [])
    ensures Places(Missed(list, []), |list|) && Filter(Heard(ReadsOf([])), TakenWhileWaiting) == []
  {
  }

  lemma NoPlaces(n: nat)
    ensures Places([], n)
  {
  }

  lemma NoPlaceYet(list: seq<Message>, first: nat)
    requires first <= |list|
    ensures FragmentPlaces(list, first, first) == []
  {
  }

  lemma NextPlace(list: seq<Message>, first: nat, i: nat)
    requires first <= i < |list|
    ensures FragmentPlaces(list, first, i + 1) ==
            if list[i].StartsWith(MULTI) then FragmentPlaces(list, first, i) + [i] else FragmentPlaces(list, first, i)
  {
  }

  lemma NoRun(list: seq<Message>)
    ensures RunKnown(list, 0, false, 0) && WaitsRight(list, [], 0)
  {
  }

  lemma KnownRun(list: seq<Message>, m: nat, longSet: bool, firstLong: nat)
    requires m < |list| && RunKnown(list, m + 1, longSet, firstLong)
    ensures list[m].StartsWith(MULTI) ==> firstLong == GroupStart(list, m)
  {
  }

  lemma InTurnUpTo(waits: seq<Wait>, m: nat, n: nat)
    requires InTurn(waits, m) && m <= n
    ensures InTurn(waits, n)
  {
  }

  /** The sender remembers where the current run of fragments began. */
  predicate RunKnown(list: seq<Message>, m: nat, longSet: bool, firstLong: nat)
    requires m <= |list|
  {
    && (longSet <==> m > 0 && list[m - 1].StartsWith(MULTI))
    && (longSet ==> firstLong == GroupStart(list, m - 1))
  }

  /** Devices that may be known to be absent; every other one is waited for. */
  predicate Optional(receiver: byte) {
    receiver in {0x10, 0x07, 0xC8, 0x11}
  }

  predicate WaitedFor(waits: seq<Wait>, i: nat) {
    exists k :: 0 <= k < |waits| && waits[k].at == i
  }

  /** Of the first m messages no broadcast has been waited for, and every one to a device that is always there. */
  predicate WaitsRight(list: seq<Message>, waits: seq<Wait>, m: nat)
    requires m <= |list|
  {
    && (forall k :: 0 <= k < |waits| ==> waits[k].at < |list| && list[waits[k].at].receiver != BROADCAST)
    && (forall i :: 0 <= i < m && list[i].receiver != BROADCAST && !Optional(list[i].receiver) ==> WaitedFor(waits, i))
  }

  /** The same written out: the radio, the screen, the phone and the IMID may be absent. */
  lemma WaitsExactly(list: seq<Message>, waits: seq<Wait>)
    requires WaitsRight(list, waits, |list|)
    ensures forall k :: 0 <= k < |waits| ==> waits[k].at < |list| && list[waits[k].at].receiver != 0xFF
    ensures forall i :: 0 <= i < |list| && list[i].receiver !in {0xFF, 0x10, 0x07, 0xC8, 0x11} ==>
              exists k :: 0 <= k < |waits| && waits[k].at == i
  {
    forall i | 0 <= i < |list| && list[i].receiver !in {0xFF, 0x10, 0x07, 0xC8, 0x11}
      ensures exists k :: 0 <= k < |waits| && waits[k].at == i
    {
      assert WaitedFor(waits, i);
    }
  }

  lemma WaitsRightNext(list: seq<Message>, waits: seq<Wait>, m: nat, w: Wait)
    requires m < |list| && WaitsRight(list, waits, m)
    ensures list[m].receiver == BROADCAST || Optional(list[m].receiver) ==> WaitsRight(list, waits, m + 1)
    ensures w.at == m && list[m].receiver != BROADCAST ==> WaitsRight(list, waits + [w], m + 1)
  {
    if w.at == m && list[m].receiver != BROADCAST {
      var all := waits + [w];
      assert all[|waits|].at == m;
      forall i | 0 <= i < m && list[i].receiver != BROADCAST && !Optional(list[i].receiver)
        ensures WaitedFor(all, i)
      {
        var k :| 0 <= k < |waits| && waits[k].at == i;
        assert all[k].at == i;
      }
    }
  }

  lemma {:induction false} MissedPlaces(list: seq<Message>, waits: seq<Wait>)
    requires InTurn(waits, |list|)
    ensures Places(Missed(list, waits), |list|) && Increasing(Missed(list, waits))
    ensures forall i :: i in Missed(list, waits) ==> waits != [] && i <= waits[|waits| - 1].at
  {
    hide Missed, Places, Increasing;
    MissedNext(list, waits);
    if waits == [] {
      NoPlaces(|list|);
      NoneIncreasing();
    } else {
      var front, w := waits[..|waits| - 1], waits[|waits| - 1];
      MissedPlaces(list, front);
      PlaceAdded(Missed(list, front), w.at, |list|);
    }
  }

  lemma MissedNext(list: seq<Message>, waits: seq<Wait>)
    requires InTurn(waits, |list|)
    ensures if waits == [] then Missed(list, waits) == []
            else
              var before, at := Missed(list, waits[..|waits| - 1]), waits[|waits| - 1].at;
              Missed(list, waits) == before || Missed(list, waits) == before + [at]
  {
    hide Heard, Answered;
  }

  lemma NoneIncreasing()
    ensures Increasing([])
  {
  }

  lemma PlaceAdded(before: seq<nat>, at: nat, n: nat)
    requires Places(before, n) && Increasing(before) && at < n && forall i :: i in before ==> i < at
    ensures Places(before + [at], n) && Increasing(before + [at])
  {
    assert forall i :: 0 <= i < |before| ==> before[i] in before;
  }

  /** What was heard holds no acknowledgement of this message from its receiver. */
  predicate NoAnswer(heard: seq<Message>, sent: Message) {
    forall x :: x in heard && x.receiver in {0x8E, 0xFF} && x.receiver == sent.sender && x.sender == sent.receiver ==>
      |x.data| == 0 || x.data[0] != 0x80
  }

  /** Missed is exactly what was waited for without an acknowledgement from its receiver being heard meanwhile. */
  lemma {:induction false} MissedExactly(list: seq<Message>, waits: seq<Wait>, p: nat)
    requires InTurn(waits, |list|)
    ensures p in Missed(list, waits) <==>
            exists k :: 0 <= k < |waits| && waits[k].at == p && NoAnswer(Heard(waits[k].heard), list[p])
  {
    hide Heard, Answered, NoAnswer;
    if waits != [] {
      var front, w := waits[..|waits| - 1], waits[|waits| - 1];
      MissedExactly(list, front, p);
      assert forall k :: 0 <= k < |front| ==> waits[k] == front[k];
      AnsweredWritten(Heard(w.heard), list[w.at]);
    }
  }

  lemma AnsweredWritten(heard: seq<Message>, sent: Message)
    ensures Answered(heard, sent) <==> !NoAnswer(heard, sent)
  {
  }

  lemma WaitPushed(list: seq<Message>, waits: seq<Wait>, w: Wait)
    requires InTurn(waits, w.at) && w.at < |list|
    ensures InTurn(waits, |list|) && InTurn(waits + [w], w.at + 1) && InTurn(waits + [w], |list|)
    ensures Missed(list, waits + [w]) ==
            if Answered(Heard(w.heard), list[w.at]) then Missed(list, waits) else Missed(list, waits) + [w.at]
    ensures ReadsOf(waits + [w]) == ReadsOf(waits) + w.heard
  {
    assert (waits + [w])[..|waits|] == waits;
  }

  lemma NotePushed(list: seq<Message>, missed: seq<nat>, m: nat)
    requires Places(missed, |list|) && m < |list|
    ensures NoteAll(list, missed + [m]) == Note(list, NoteAll(list, missed), m)
  {
    assert (missed + [m])[..|missed|] == missed;
  }

  lemma HeardPush(a: seq<Read>, r: Read)
    ensures Heard(a + [r]) == Heard(a) + Parse(r.bytes)
  {
    hide Parse;
    assert (a + [r])[..|a|] == a;
  }

  lemma {:induction false} HeardConcat(a: seq<Read>, b: seq<Read>)
    ensures Heard(a + b) == Heard(a) + Heard(b)
  {
    hide Heard, Parse;
    if b == [] {
      assert a + b == a;
      HeardNothing();
    } else {
      var front, r := b[..|b| - 1], b[|b| - 1];
      HeardConcat(a, front);
      assert b == front + [r] && a + b == a + front + [r];
      HeardPush(front, r);
      HeardPush(a + front, r);
    }
  }

  lemma HeardNothing()
    ensures Heard([]) == []
  {
  }

  lemma TakenConcat(a: seq<Read>, b: seq<Read>)
    ensures Filter(Heard(a + b), TakenWhileWaiting) ==
            Filter(Heard(a), TakenWhileWaiting) + Filter(Heard(b), TakenWhileWaiting)
  {
    hide Filter, Heard;
    HeardConcat(a, b);
    FilterConcat(Heard(a), Heard(b), TakenWhileWaiting);
  }

  // ---------- exactly what is tried again ----------

  /** A missed fragment that finds no group noted has its whole group noted instead of itself. */
  predicate OpensGroup(list: seq<Message>, before: seq<nat>, m: nat)
    requires Places(before, |list|) && m < |list|
  {
    list[m].StartsWith(MULTI) && NoteAll(list, before).group == []
  }

  /** The places noted on their own. */
  function Alone(list: seq<Message>, missed: seq<nat>): seq<nat>
    requires Places(missed, |list|)
  {
    if missed == [] then []
    else
      var front, m := missed[..|missed| - 1], missed[|missed| - 1];
      Alone(list, front) + if OpensGroup(list, front, m) then [] else [m]
  }

  /** The places of what is tried again. */
  function RetryPlaces(list: seq<Message>, missed: seq<nat>): seq<nat>
    requires Places(missed, |list|)
  {
    Alone(list, missed) + NoteAll(list, missed).group
  }

  lemma {:induction false} AlonePlaces(list: seq<Message>, missed: seq<nat>)
    requires Places(missed, |list|)
    ensures Places(Alone(list, missed), |list|)
    ensures NoteAll(list, missed).messages == At(list, Alone(list, missed))
    ensures forall p :: p in Alone(list, missed) ==> p in missed
  {
    hide FragmentPlaces, GroupStart;
    if missed != [] {
      var front, m := missed[..|missed| - 1], missed[|missed| - 1];
      AlonePlaces(list, front);
      assert missed == front + [m];
      AtPush(list, Alone(list, front), m);
    }
  }

  lemma AtPush(list: seq<Message>, places: seq<nat>, m: nat)
    requires Places(places, |list|) && m < |list|
    ensures Places(places + [m], |list|) && At(list, places + [m]) == At(list, places) + [list[m]]
  {
  }

  /** What is cached for retrying is what stands at those places. */
  lemma RetriedAt(list: seq<Message>, missed: seq<nat>)
    requires Places(missed, |list|)
    ensures Places(RetryPlaces(list, missed), |list|)
    ensures ToRetry(list, missed) == At(list, RetryPlaces(list, missed))
  {
    hide NoteAll, Alone;
    AlonePlaces(list, missed);
    GroupPlaces(list, missed);
    var alone, group := Alone(list, missed), NoteAll(list, missed).group;
    assert At(list, alone + group) == At(list, alone) + At(list, group);
  }

  /** How many messages missed last, one after the other, were fragments. */
  function Streak(list: seq<Message>, missed: seq<nat>): nat
    requires Places(missed, |list|)
  {
    if missed == [] || !list[missed[|missed| - 1]].StartsWith(MULTI) then 0
    else Streak(list, missed[..|missed| - 1]) + 1
  }

  /** A group is noted exactly after an odd streak, and it is that of the last fragment missed. */
  lemma {:induction false} GroupByStreak(list: seq<Message>, missed: seq<nat>)
    requires Places(missed, |list|)
    ensures NoteAll(list, missed).group ==
            if Streak(list, missed) % 2 == 1
            then FragmentPlaces(list, GroupStart(list, missed[|missed| - 1]), |list|) else []
    ensures NoteAll(list, missed).group != [] <==> Streak(list, missed) % 2 == 1
  {
    hide FragmentPlaces, GroupStart;
    if missed != [] {
      GroupByStreak(list, missed[..|missed| - 1]);
      GroupFound(list, missed[|missed| - 1]);
    }
  }

  lemma GroupFound(list: seq<Message>, m: nat)
    requires m < |list|
    ensures list[m].StartsWith(MULTI) ==> FragmentPlaces(list, GroupStart(list, m), |list|) != []
  {
    if list[m].StartsWith(MULTI) {
      assert m in FragmentPlaces(list, GroupStart(list, m), |list|);
    }
  }

  lemma {:induction false} AloneExactly(list: seq<Message>, missed: seq<nat>, k: nat)
    requires Places(missed, |list|) && Increasing(missed) && k < |missed|
    ensures missed[k] in Alone(list, missed) <==> !OpensGroup(list, missed[..k], missed[k])
  {
    hide NoteAll;
    var front, m := missed[..|missed| - 1], missed[|missed| - 1];
    if k < |missed| - 1 {
      AloneExactly(list, front, k);
      assert front[..k] == missed[..k];
    } else {
      AlonePlaces(list, front);
      assert m !in front;
    }
  }

  /**
   Of a run of any messages, those at a missed place are tried again exactly if they are no
   fragments, or an odd streak of missed fragments came right before, or the run's missed
   messages end in an odd streak of fragments whose last one belongs to a group that starts no
   later. Places that were not missed are tried again exactly if that last group holds them.
   */
  lemma RetriedExactly(list: seq<Message>, missed: seq<nat>, p: nat)
    requires Places(missed, |list|) && Increasing(missed) && p < |list|
    ensures p in RetryPlaces(list, missed) <==>
            || (exists k :: 0 <= k < |missed| && missed[k] == p
                            && (!list[p].StartsWith(MULTI) || Streak(list, missed[..k]) % 2 == 1))
            || (list[p].StartsWith(MULTI) && Streak(list, missed) % 2 == 1
                && GroupStart(list, missed[|missed| - 1]) <= p)
  {
    hide NoteAll, Alone, Streak, GroupStart;
    GroupByStreak(list, missed);
    AlonePlaces(list, missed);
    forall k | 0 <= k < |missed|
      ensures missed[k] in Alone(list, missed) <==> !list[missed[k]].StartsWith(MULTI) || Streak(list, missed[..k]) % 2 == 1
    {
      AloneExactly(list, missed, k);
      GroupByStreak(list, missed[..k]);
    }
  }

  predicate Distinct(list: seq<Message>) {
    forall i, j :: 0 <= i < j < |list| ==> list[i] != list[j]
  }

  /** Without duplicates in the run, places and messages are the same. */
  lemma RetriedMessage(list: seq<Message>, missed: seq<nat>, p: nat)
    requires Places(missed, |list|) && p < |list| && Distinct(list)
    ensures list[p] in ToRetry(list, missed) <==> p in RetryPlaces(list, missed)
  {
    hide RetryPlaces, ToRetry;
    RetriedAt(list, missed);
    var places := RetryPlaces(list, missed);
    if p in places {
      var i :| 0 <= i < |places| && places[i] == p;
      assert At(list, places)[i] == list[p];
    }
    if list[p] in ToRetry(list, missed) {
      var i :| 0 <= i < |places| && At(list, places)[i] == list[p];
      assert places[i] == p;
    }
  }

  lemma {:induction false} NotedStays(list: seq<Message>, missed: seq<nat>, k: nat)
    requires Places(missed, |list|) && k < |missed| && !list[missed[k]].StartsWith(MULTI)
    ensures list[missed[k]] in NoteAll(list, missed).messages
  {
    if k < |missed| - 1 {
      NotedStays(list, missed[..|missed| - 1], k);
    }
  }

  /** An unanswered message that is not a fragment is always tried again. */
  lemma OrdinaryRetried(list: seq<Message>, missed: seq<nat>, k: nat)
    requires Places(missed, |list|) && k < |missed| && !list[missed[k]].StartsWith(MULTI)
    ensures list[missed[k]] in ToRetry(list, missed)
  {
    NotedStays(list, missed, k);
  }

  /** Nothing is tried again but fragments and what went unanswered. */
  lemma OnlyMissed(list: seq<Message>, missed: seq<nat>, x: Message)
    requires Places(missed, |list|)
    ensures x in NoteAll(list, missed).messages ==> x in At(list, missed)
    ensures x in ToRetry(list, missed) ==> x in At(list, missed) || (x in list && x.StartsWith(MULTI))
  {
    hide NoteAll, Alone;
    AlonePlaces(list, missed);
    GroupPlaces(list, missed);
    var alone, notes := Alone(list, missed), NoteAll(list, missed);
    if x in notes.messages {
      var i :| 0 <= i < |alone| && At(list, alone)[i] == x;
      assert alone[i] in missed;
      var k :| 0 <= k < |missed| && missed[k] == alone[i];
      assert At(list, missed)[k] == x;
    } else if x in ToRetry(list, missed) {
      var i :| 0 <= i < |notes.group| && At(list, notes.group)[i] == x;
      InGroup(list, missed, notes.group[i]);
    }
  }

  lemma InGroup(list: seq<Message>, missed: seq<nat>, p: nat)
    requires Places(missed, |list|) && p in NoteAll(list, missed).group
    ensures p < |list| && list[p].StartsWith(MULTI)
  {
    GroupByStreak(list, missed);
  }

  // ---------- one long message, alone and followed by another ----------

  lemma {:induction false} OneGroup(list: seq<Message>, m: nat)
    requires m < |list| && forall i :: 0 <= i <= m ==> list[i].StartsWith(MULTI)
    ensures GroupStart(list, m) == 0
  {
    if m > 0 {
      OneGroup(list, m - 1);
    }
  }

  lemma {:induction false} AllStreak(list: seq<Message>, missed: seq<nat>)
    requires Places(missed, |list|) && forall i :: 0 <= i < |missed| ==> list[missed[i]].StartsWith(MULTI)
    ensures Streak(list, missed) == |missed|
  {
    if missed != [] {
      AllStreak(list, missed[..|missed| - 1]);
    }
  }

  lemma FragmentsDiffer(m: Message)
    requires IsLong(m) && |m.data| <= MAX_PAYLOAD
    ensures Distinct(Fragments(m)) && forall i :: 0 <= i < Total(m) ==> Fragments(m)[i].StartsWith(MULTI)
  {
    hide Fragment;
    forall i | 0 <= i < Total(m)
      ensures Fragments(m)[i].IsFragment() && Fragments(m)[i].data[2] == i
    {
      FragmentFields(m, i);
    }
  }

  /**
   When a single long message was sent and the number of its unanswered fragments is odd, the
   whole group is tried again; when it is even, exactly the second, fourth, and so on of them.
   */
  lemma LongRetried(m: Message, missed: seq<nat>)
    requires IsLong(m) && |m.data| <= MAX_PAYLOAD
    requires Places(missed, Total(m)) && Increasing(missed) && missed != []
    ensures var list := Fragments(m);
            var retried := ToRetry(list, missed);
            && (forall k :: 0 <= k < |missed| ==> (list[missed[k]] in retried <==> k % 2 == 1 || |missed| % 2 == 1))
            && (|missed| % 2 == 1 ==> forall p :: 0 <= p < |list| ==> list[p] in retried)
  {
    hide Fragment, ToRetry, RetryPlaces, Streak;
    var list := Fragments(m);
    FragmentsDiffer(m);
    OneGroup(list, missed[|missed| - 1]);
    AllStreak(list, missed);
    forall p | 0 <= p < |list|
      ensures |missed| % 2 == 1 ==> list[p] in ToRetry(list, missed)
    {
      RetriedExactly(list, missed, p);
      RetriedMessage(list, missed, p);
    }
    forall k | 0 <= k < |missed|
      ensures list[missed[k]] in ToRetry(list, missed) <==> k % 2 == 1 || |missed| % 2 == 1
    {
      AllStreak(list, missed[..k]);
      RetriedExactly(list, missed, missed[k]);
      RetriedMessage(list, missed, missed[k]);
    }
  }

  /**
   An unanswered ordinary message behind a long one makes the client forget the only fragment
   of it that went unanswered.
   */
  lemma ForgottenBehind(m: Message, o: Message, i: nat)
    requires IsLong(m) && i < Total(m) && !o.StartsWith(MULTI)
    ensures ToRetry(Fragments(m) + [o], [i, Total(m)]) == [o]
  {
    hide Fragment, FragmentPlaces, GroupStart;
    var list := Fragments(m) + [o];
    FragmentsAnnounce(m);
    assert list[i] == Fragments(m)[i] && Fragments(m)[i] in Fragments(m);
    assert [i, Total(m)][..1] == [i] && [i][..0] == [];
    var first := NoteAll(list, [i]);
    assert NoteAll(list, []) == Notes([], []) && first == Note(list, NoteAll(list, [i][..0]), i);
    assert first.messages == [];
    assert i in FragmentPlaces(list, GroupStart(list, i), |list|);
    assert NoteAll(list, [i, Total(m)]) == Notes([] + [o], []);
  }
}
