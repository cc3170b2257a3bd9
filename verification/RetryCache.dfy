/**
 The retry cache of the Rust client (ipc.rs `await_cached_acknowledgment`): messages that have
 gone unanswered, each with the number of rounds in which it was tried again in vain.
 */
module RetryCache {
  import opened Bytes
  import opened AIBus
  import opened ClientProtocol

  /** More than 25 failed rounds drop a message from the retry cache. */
  const MAX_COUNT := 25

  datatype Pending = Pending(msg: Message, count: nat)

  /** New entries of the retry cache. */
  function Fresh(ms: seq<Message>): (pending: seq<Pending>)
    ensures |pending| == |ms| && forall i :: 0 <= i < |pending| ==> pending[i] == Pending(ms[i], 0)
  {
    seq(|ms|, i requires 0 <= i < |ms| => Pending(ms[i], 0))
  }

  /** How many rounds the cached messages have left. */
  function Potential(cache: seq<Pending>): int {
    if cache == [] then 0 else Potential(cache[..|cache| - 1]) + MAX_COUNT + 1 - cache[|cache| - 1].count
  }

  lemma {:induction false} PotentialConcat(a: seq<Pending>, b: seq<Pending>)
    ensures Potential(a + b) == Potential(a) + Potential(b)
  {
    if b == [] {
      assert a + b == a;
    } else {
      assert (a + b)[..|a + b| - 1] == a + b[..|b| - 1];
      PotentialConcat(a, b[..|b| - 1]);
    }
  }

  lemma PotentialAt(cache: seq<Pending>, i: nat)
    requires i < |cache|
    ensures Potential(cache) == Potential(cache[..i]) + (MAX_COUNT + 1 - cache[i].count) + Potential(cache[i + 1..])
    ensures Potential(cache[..i] + cache[i + 1..]) == Potential(cache) - (MAX_COUNT + 1 - cache[i].count)
    ensures forall p: Pending ::
              Potential(cache[i := p]) == Potential(cache) + cache[i].count - p.count
  {
    PotentialConcat(cache[..i], cache[i + 1..]);
    PotentialSplit(cache, i);
    forall p: Pending
      ensures Potential(cache[i := p]) == Potential(cache) + cache[i].count - p.count
    {
      PotentialSplit(cache[i := p], i);
      assert cache[i := p][..i] == cache[..i] && cache[i := p][i + 1..] == cache[i + 1..];
    }
  }

  lemma PotentialSplit(cache: seq<Pending>, i: nat)
    requires i < |cache|
    ensures Potential(cache) == Potential(cache[..i]) + (MAX_COUNT + 1 - cache[i].count) + Potential(cache[i + 1..])
  {
    assert cache == cache[..i] + [cache[i]] + cache[i + 1..];
    PotentialConcat(cache[..i] + [cache[i]], cache[i + 1..]);
    assert (cache[..i] + [cache[i]])[..i] == cache[..i];
  }

  lemma {:induction false} PotentialNonNegative(cache: seq<Pending>)
    requires forall p :: p in cache ==> p.count <= MAX_COUNT
    ensures Potential(cache) >= |cache|
  {
    if cache != [] {
      PotentialNonNegative(cache[..|cache| - 1]);
    }
  }

  /**
   Entry i of the cache is number ids[i] in the book of all messages ever cached, which counts
   their failed rounds: at most 25 while a message stays in the cache, and never more than 26.
   */
  predicate RetryBound(cache: seq<Pending>, ids: seq<nat>, book: seq<Pending>) {
    && |ids| == |cache|
    && (forall i, j :: 0 <= i < j < |ids| ==> ids[i] != ids[j])
    && (forall i :: 0 <= i < |ids| ==> ids[i] < |book| && book[ids[i]] == cache[i] && cache[i].count <= MAX_COUNT)
    && (forall j :: 0 <= j < |book| ==> book[j].count <= MAX_COUNT + 1)
  }

  lemma BoundAt(cache: seq<Pending>, ids: seq<nat>, book: seq<Pending>, i: nat)
    requires RetryBound(cache, ids, book) && i < |cache|
    ensures |ids| == |cache| && ids[i] < |book| && book[ids[i]] == cache[i] && cache[i].count <= MAX_COUNT
  {
  }

  function Failed(p: Pending): Pending {
    Pending(p.msg, p.count + 1)
  }

  lemma BoundDrops(cache: seq<Pending>, ids: seq<nat>, book: seq<Pending>, i: nat)
    requires RetryBound(cache, ids, book) && i < |cache|
    ensures |ids| == |cache| && ids[i] < |book|
    ensures RetryBound(cache[..i] + cache[i + 1..], ids[..i] + ids[i + 1..], book)
    ensures RetryBound(cache[..i] + cache[i + 1..], ids[..i] + ids[i + 1..], book[ids[i] := Failed(book[ids[i]])])
  {
    BoundRest(cache, ids, book, i, book);
    BoundRest(cache, ids, book, i, book[ids[i] := Failed(book[ids[i]])]);
  }

  lemma BoundRest(cache: seq<Pending>, ids: seq<nat>, book: seq<Pending>, i: nat, book': seq<Pending>)
    requires RetryBound(cache, ids, book) && i < |cache| && |book'| == |book|
    requires forall j :: 0 <= j < |book| ==> book'[j].count <= MAX_COUNT + 1 && (j != ids[i] ==> book'[j] == book[j])
    ensures RetryBound(cache[..i] + cache[i + 1..], ids[..i] + ids[i + 1..], book')
  {
    var left, rest := ids[..i] + ids[i + 1..], cache[..i] + cache[i + 1..];
    forall k | 0 <= k < |left|
      ensures left[k] == ids[if k < i then k else k + 1] && left[k] != ids[i]
      ensures left[k] < |book'| && book'[left[k]] == rest[k] && rest[k].count <= MAX_COUNT
    {
      var j := if k < i then k else k + 1;
      assert left[k] == ids[j] && rest[k] == cache[j];
    }
  }

  lemma BoundFails(cache: seq<Pending>, ids: seq<nat>, book: seq<Pending>, i: nat)
    requires RetryBound(cache, ids, book) && i < |cache| && cache[i].count < MAX_COUNT
    ensures |ids| == |cache| && ids[i] < |book|
    ensures RetryBound(cache[i := Failed(cache[i])], ids, book[ids[i] := Failed(book[ids[i]])])
  {
  }

  lemma BoundAdds(cache: seq<Pending>, ids: seq<nat>, book: seq<Pending>, m: Message)
    requires RetryBound(cache, ids, book)
    ensures RetryBound(cache + [Pending(m, 0)], ids + [|book|], book + [Pending(m, 0)])
  {
  }

  lemma BoundPotential(cache: seq<Pending>, ids: seq<nat>, book: seq<Pending>)
    requires RetryBound(cache, ids, book)
    ensures Potential(cache) >= |cache|
  {
    forall p | p in cache
      ensures p.count <= MAX_COUNT
    {
      var i :| 0 <= i < |cache| && cache[i] == p;
      BoundAt(cache, ids, book, i);
    }
    PotentialNonNegative(cache);
  }

  // ---------- acknowledgements found later ----------

  predicate AckFor(x: Message, m: Message) {
    x.StartsWith(ACK) && x.sender == m.receiver && x.receiver == m.sender
  }

  /** The first message that x acknowledges is struck out. */
  function Struck(cache: seq<Pending>, x: Message): seq<Pending> {
    if cache == [] then []
    else if AckFor(x, cache[0].msg) then cache[1..]
    else [cache[0]] + Struck(cache[1..], x)
  }

  function StruckAll(cache: seq<Pending>, rx: seq<Message>): seq<Pending> {
    if rx == [] then cache
    else
      var mid, x := StruckAll(cache, rx[..|rx| - 1]), rx[|rx| - 1];
      if x.sender != ME && x.StartsWith(ACK) then Struck(mid, x) else mid
  }

  lemma StruckAllPush(cache: seq<Pending>, rx: seq<Message>, n: nat)
    requires n < |rx|
    ensures StruckAll(cache, rx[..n + 1]) ==
            if rx[n].sender != ME && rx[n].StartsWith(ACK) then Struck(StruckAll(cache, rx[..n]), rx[n])
            else StruckAll(cache, rx[..n])
  {
    assert rx[..n + 1][..n] == rx[..n];
  }

  lemma StruckAt(cache: seq<Pending>, x: Message, i: nat)
    requires i < |cache|
    ensures AckFor(x, cache[i].msg) ==> Struck(cache[i..], x) == cache[i + 1..]
    ensures !AckFor(x, cache[i].msg) ==> cache[..i] + Struck(cache[i..], x) == cache[..i + 1] + Struck(cache[i + 1..], x)
  {
    assert cache[i..][1..] == cache[i + 1..];
    assert cache[..i + 1] == cache[..i] + [cache[i]];
  }

  lemma StruckAtEnds(cache: seq<Pending>, x: Message)
    ensures cache[..0] + Struck(cache[0..], x) == Struck(cache, x)
    ensures cache[..|cache|] + Struck(cache[|cache|..], x) == cache
  {
    assert cache[0..] == cache && cache[|cache|..] == [] && cache[..|cache|] == cache;
  }

  /** The cached messages from s to r. */
  function OfPair(cache: seq<Pending>, s: byte, r: byte): seq<Pending> {
    if cache == [] then []
    else (if cache[0].msg.sender == s && cache[0].msg.receiver == r then [cache[0]] else []) + OfPair(cache[1..], s, r)
  }

  /** How many acknowledgements from r to s there are. */
  function AcksTo(rx: seq<Message>, s: byte, r: byte): nat {
    if rx == [] then 0
    else
      var x := rx[|rx| - 1];
      AcksTo(rx[..|rx| - 1], s, r) + if x.sender == r && x.receiver == s && |x.data| > 0 && x.data[0] == 0x80 then 1 else 0
  }

  /**
   Of the messages cached from s to r, as many are struck out, the oldest first, as there are
   acknowledgements from r to s, those of this device itself not counted.
   */
  lemma {:induction false} StruckExactly(cache: seq<Pending>, rx: seq<Message>, s: byte, r: byte)
    ensures var own, n := OfPair(cache, s, r), if r == 0x8E then 0 else AcksTo(rx, s, r);
            OfPair(StruckAll(cache, rx), s, r) == if n <= |own| then own[n..] else []
  {
    hide OfPair, Struck;
    if rx != [] {
      var front, x := rx[..|rx| - 1], rx[|rx| - 1];
      StruckExactly(cache, front, s, r);
      if x.sender != ME && x.StartsWith(ACK) {
        StruckPair(StruckAll(cache, front), x, s, r);
      }
    }
  }

  lemma {:induction false} StruckPair(cache: seq<Pending>, x: Message, s: byte, r: byte)
    requires |x.data| > 0 && x.data[0] == 0x80
    ensures OfPair(Struck(cache, x), s, r) ==
            var own := OfPair(cache, s, r);
            if x.sender == r && x.receiver == s && own != [] then own[1..] else own
  {
    if cache != [] {
      StruckPair(cache[1..], x, s, r);
      var rest := Struck(cache[1..], x);
      assert ([cache[0]] + rest)[1..] == rest;
    }
  }

  // ---------- no message disappears without a reason ----------

  ghost predicate Confirmed(m: Message, rx: seq<Message>, heard: seq<Read>) {
    exists x :: (x in rx || x in Heard(heard)) && AckFor(x, m)
  }

  ghost predicate Settled(id: nat, ids: seq<nat>, book: seq<Pending>, rx: seq<Message>, heard: seq<Read>) {
    id in ids || (id < |book| && (book[id].count == MAX_COUNT + 1 || Confirmed(book[id].msg, rx, heard)))
  }

  /** Every message that was cached is still cached, has had its 26 rounds, or has been acknowledged. */
  ghost predicate Accounted(before: seq<nat>, ids: seq<nat>, book: seq<Pending>, rx: seq<Message>, heard: seq<Read>) {
    forall k :: 0 <= k < |before| ==> Settled(before[k], ids, book, rx, heard)
  }

  lemma AccountedAtFirst(ids: seq<nat>, book: seq<Pending>, rx: seq<Message>, heard: seq<Read>)
    ensures Accounted(ids, ids, book, rx, heard)
  {
    hide Heard;
  }

  lemma AccountedGrows(before: seq<nat>, ids: seq<nat>, book: seq<Pending>, rx: seq<Message>, heard: seq<Read>,
                       rx': seq<Message>, heard': seq<Read>)
    requires Accounted(before, ids, book, rx, heard) && rx <= rx'
    requires forall x :: x in Heard(heard) ==> x in Heard(heard')
    ensures Accounted(before, ids, book, rx', heard')
  {
    hide Heard;
    assert forall x :: x in rx ==> x in rx';
  }

  lemma AccountedDrops(before: seq<nat>, cache: seq<Pending>, ids: seq<nat>, book: seq<Pending>, rx: seq<Message>,
                       heard: seq<Read>, i: nat, book': seq<Pending>)
    requires Accounted(before, ids, book, rx, heard) && RetryBound(cache, ids, book) && i < |ids|
    requires book' == book || book' == book[ids[i] := Failed(book[ids[i]])]
    requires (book' != book && book[ids[i]].count == MAX_COUNT) || Confirmed(book[ids[i]].msg, rx, heard)
    ensures Accounted(before, ids[..i] + ids[i + 1..], book', rx, heard)
  {
    hide Heard, Confirmed;
    var left := ids[..i] + ids[i + 1..];
    forall k | 0 <= k < |before|
      ensures Settled(before[k], left, book', rx, heard)
    {
      assert Settled(before[k], ids, book, rx, heard);
      if before[k] in ids && before[k] != ids[i] {
        var j :| 0 <= j < |ids| && ids[j] == before[k];
        assert left[if j < i then j else j - 1] == before[k];
      }
    }
  }

  lemma AccountedFails(before: seq<nat>, ids: seq<nat>, book: seq<Pending>, rx: seq<Message>, heard: seq<Read>, i: nat)
    requires Accounted(before, ids, book, rx, heard) && i < |ids| && ids[i] < |book|
    ensures Accounted(before, ids, book[ids[i] := Failed(book[ids[i]])], rx, heard)
  {
    hide Heard, Confirmed;
    forall k | 0 <= k < |before|
      ensures Settled(before[k], ids, book[ids[i] := Failed(book[ids[i]])], rx, heard)
    {
      assert Settled(before[k], ids, book, rx, heard);
    }
  }

  /** Written out: whatever was cached is still there, has had 26 rounds, or an acknowledgement of it has been heard. */
  lemma AccountedExactly(before: seq<nat>, ids: seq<nat>, book: seq<Pending>, rx: seq<Message>, heard: seq<Read>, k: nat)
    requires Accounted(before, ids, book, rx, heard) && k < |before| && before[k] !in ids
    ensures before[k] < |book|
    ensures book[before[k]].count != 26 ==>
              var m := book[before[k]].msg;
              exists x :: (x in rx || x in Heard(heard)) && x.sender == m.receiver && x.receiver == m.sender
                          && |x.data| > 0 && x.data[0] == 0x80
  {
    hide Heard;
    assert Settled(before[k], ids, book, rx, heard);
  }
}
