/**
 Splitting of a payload of more than 35 bytes into 0x91 fragments of 32 bytes, as the
 Rust client and the C++ handlers do it, and putting the fragments together again.
 */
module Fragmentation {
  import opened Bytes
  import opened AIBus
  import opened Seqs

  /** The longest payload whose fragments a one-byte index can number. */
  const MAX_PAYLOAD := 255 * AIDATA_LIMIT

  predicate IsLong(m: Message) {
    |m.data| > AIDATA_LIMIT + 3
  }

  function Total(m: Message): nat {
    (|m.data| + AIDATA_LIMIT - 1) / AIDATA_LIMIT
  }

  function ChunkEnd(m: Message, k: nat): nat {
    if AIDATA_LIMIT * k <= |m.data| then AIDATA_LIMIT * k else |m.data|
  }

  function Chunk(m: Message, k: nat): seq<byte>
    requires k < Total(m)
  {
    m.data[ChunkEnd(m, k)..ChunkEnd(m, k + 1)]
  }

  function Fragment(m: Message, k: nat): Message
    requires k < Total(m)
  {
    Message(m.sender, m.receiver, [MULTI, Low(Total(m)), Low(k)] + Chunk(m, k))
  }

  function Fragments(m: Message): (fs: seq<Message>)
    ensures |fs| == Total(m)
    ensures forall k :: 0 <= k < |fs| ==> fs[k] == Fragment(m, k)
  {
    seq(Total(m), k requires 0 <= k < Total(m) => Fragment(m, k))
  }

  /** What goes onto the wire for one queued message. */
  function Outgoing(m: Message): seq<Message> {
    if IsLong(m) then Fragments(m) else [m]
  }

  lemma ChunkAppends(m: Message, k: nat)
    requires k < Total(m)
    ensures m.data[..ChunkEnd(m, k)] + Chunk(m, k) == m.data[..ChunkEnd(m, k + 1)]
    ensures 0 < |Chunk(m, k)| <= AIDATA_LIMIT
  {
  }

  lemma FragmentShape(m: Message, k: nat)
    requires k < Total(m)
    ensures 3 < |Fragment(m, k).data| <= AIDATA_LIMIT + 3
    ensures Fragment(m, k).IsFragment() && Fragment(m, k).SamePair(m)
    ensures !EchoPayload(Fragment(m, k))
  {
    ChunkAppends(m, k);
  }

  /** No wire message is longer than the 35 bytes, nor its length byte more than the 37, that readers accept. */
  lemma OutgoingFits(m: Message, x: Message)
    requires x in Outgoing(m)
    ensures |x.data| <= AIDATA_LIMIT + 3
    ensures 2 <= Frame(x)[1] <= AIDATA_LIMIT + 5
  {
    hide Checksum, Fragment;
    if IsLong(m) {
      var k :| 0 <= k < |Fragments(m)| && x == Fragments(m)[k];
      FragmentShape(m, k);
    }
  }

  // ---------- putting fragments together ----------

  /** A fragment of a second pair, ignored while another pair's fragments are being collected. */
  predicate Foreign(cache: seq<Message>, x: Message) {
    x.IsFragment() && |cache| > 0 && !cache[0].SamePair(x)
  }

  predicate Matches(x: Message, total: int, k: int, pair: Message) {
    x.IsFragment() && x.data[1] == total && x.data[2] == k && x.SamePair(pair)
  }

  /** ipc.rs appends the payload of every cached fragment that carries index k. */
  function CollectEvery(cache: seq<Message>, total: int, k: int, pair: Message): seq<byte> {
    if cache == [] then []
    else
      var x := cache[|cache| - 1];
      CollectEvery(cache[..|cache| - 1], total, k, pair)
      + (if Matches(x, total, k, pair) then x.data[3..] else [])
  }

  /** Serial_AIBus_Handler.cpp keeps only the last cached fragment that carries index k. */
  function CollectLast(cache: seq<Message>, total: int, k: int, pair: Message): seq<byte> {
    if cache == [] then []
    else
      var x := cache[|cache| - 1];
      if Matches(x, total, k, pair) then x.data[3..]
      else CollectLast(cache[..|cache| - 1], total, k, pair)
  }

  function AssembleEvery(cache: seq<Message>, total: int, k: nat, pair: Message): seq<byte> {
    if k == 0 then [] else AssembleEvery(cache, total, k - 1, pair) + CollectEvery(cache, total, k - 1, pair)
  }

  function AssembleLast(cache: seq<Message>, total: int, k: nat, pair: Message): seq<byte> {
    if k == 0 then [] else AssembleLast(cache, total, k - 1, pair) + CollectLast(cache, total, k - 1, pair)
  }

  /** A fragment that occurs once is what both collectors find; one that is absent yields nothing. */
  lemma {:induction false} CollectUnique(cache: seq<Message>, total: int, k: int, pair: Message, f: Message)
    requires Matches(f, total, k, pair)
    requires forall x :: x in cache && Matches(x, total, k, pair) ==> x == f
    ensures multiset(cache)[f] == 0 ==> CollectEvery(cache, total, k, pair) == []
    ensures multiset(cache)[f] == 1 ==>
              CollectEvery(cache, total, k, pair) == f.data[3..] == CollectLast(cache, total, k, pair)
  {
    if cache != [] {
      var front, x := cache[..|cache| - 1], cache[|cache| - 1];
      assert cache == front + [x];
      CollectUnique(front, total, k, pair, f);
    }
  }

  /** The payloads of some fragments, one after the other. */
  function Payloads(fs: seq<Message>): seq<byte>
    requires forall f :: f in fs ==> |f.data| >= 3
  {
    if fs == [] then [] else Payloads(fs[..|fs| - 1]) + fs[|fs| - 1].data[3..]
  }

  /** A fragment of the pair that announces the total and carries the index. */
  function Carrying(total: int, k: int, pair: Message): Message -> bool {
    (x: Message) =>
      |x.data| >= 3 && x.data[0] == 0x91 && x.data[1] == total && x.data[2] == k && x.sender == pair.sender && x.receiver == pair.receiver
  }

  /**
   What the two collectors make of repeated fragments: of those that carry the index the one strings
   all together in order of arrival, the other takes the last.
   */
  lemma {:induction false} CollectExactly(cache: seq<Message>, total: int, k: int, pair: Message)
    ensures var own := Filter(cache, Carrying(total, k, pair));
            && CollectEvery(cache, total, k, pair) == Payloads(own)
            && CollectLast(cache, total, k, pair) == if own == [] then [] else own[|own| - 1].data[3..]
  {
    hide Payloads, Filter, CollectEvery, CollectLast;
    NoPayloads();
    CollectUnfold(cache, total, k, pair);
    if cache != [] {
      var front, x := cache[..|cache| - 1], cache[|cache| - 1];
      assert cache == front + [x];
      CollectExactly(front, total, k, pair);
      FilterPush(front, x, Carrying(total, k, pair));
      var own := Filter(front, Carrying(total, k, pair));
      assert own + [] == own && Payloads(own) + [] == Payloads(own);
      if Matches(x, total, k, pair) {
        PayloadsPush(own, x);
      }
    }
  }

  lemma CollectUnfold(cache: seq<Message>, total: int, k: int, pair: Message)
    ensures Filter([], Carrying(total, k, pair)) == []
    ensures cache == [] ==> CollectEvery(cache, total, k, pair) == [] && CollectLast(cache, total, k, pair) == []
    ensures cache != [] ==>
              var front, x := cache[..|cache| - 1], cache[|cache| - 1];
              var before := CollectEvery(front, total, k, pair);
              && CollectEvery(cache, total, k, pair) == before + (if Matches(x, total, k, pair) then x.data[3..] else [])
              && CollectLast(cache, total, k, pair) ==
                 if Matches(x, total, k, pair) then x.data[3..] else CollectLast(front, total, k, pair)
  {
  }

  lemma NoPayloads()
    ensures Payloads([]) == []
  {
  }

  lemma PayloadsPush(fs: seq<Message>, x: Message)
    requires |x.data| >= 3 && forall f :: f in fs ==> |f.data| >= 3
    ensures Payloads(fs + [x]) == Payloads(fs) + x.data[3..]
  {
    assert (fs + [x])[..|fs|] == fs;
  }

  /** Assembly looks only at the sender and receiver of the message that completes it. */
  lemma {:induction false} AssembledForPair(cache: seq<Message>, total: int, k: nat, a: Message, b: Message)
    requires a.SamePair(b)
    ensures AssembleEvery(cache, total, k, a) == AssembleEvery(cache, total, k, b)
    ensures AssembleLast(cache, total, k, a) == AssembleLast(cache, total, k, b)
  {
    if k != 0 {
      AssembledForPair(cache, total, k - 1, a, b);
      CollectedForPair(cache, total, k - 1, a, b);
    }
  }

  lemma {:induction false} CollectedForPair(cache: seq<Message>, total: int, k: int, a: Message, b: Message)
    requires a.SamePair(b)
    ensures CollectEvery(cache, total, k, a) == CollectEvery(cache, total, k, b)
    ensures CollectLast(cache, total, k, a) == CollectLast(cache, total, k, b)
  {
    if cache != [] {
      CollectedForPair(cache[..|cache| - 1], total, k, a, b);
    }
  }

  lemma FragmentsDistinct(m: Message, k: nat)
    requires k < Total(m) <= 255
    ensures multiset(Fragments(m))[Fragment(m, k)] == 1
  {
    forall i, j | 0 <= i < j < Total(m)
      ensures Fragments(m)[i] != Fragments(m)[j]
    {
      FragmentFields(m, i);
      FragmentFields(m, j);
    }
    DistinctOnce(Fragments(m), k);
  }

  /** Both assemblers rebuild the payload from any permutation of a message's fragments. */
  lemma AssembleAnyOrder(m: Message, cache: seq<Message>)
    requires Total(m) <= 255
    requires multiset(cache) == multiset(Fragments(m))
    ensures AssembleEvery(cache, Total(m), Total(m), m) == m.data == AssembleLast(cache, Total(m), Total(m), m)
  {
    AssembleUpTo(m, cache, Total(m));
  }

  lemma {:induction false} AssembleUpTo(m: Message, cache: seq<Message>, k: nat)
    requires k <= Total(m) <= 255
    requires multiset(cache) == multiset(Fragments(m))
    ensures AssembleEvery(cache, Total(m), k, m) == m.data[..ChunkEnd(m, k)]
    ensures AssembleLast(cache, Total(m), k, m) == m.data[..ChunkEnd(m, k)]
  {
    if k != 0 {
      AssembleUpTo(m, cache, k - 1);
      CollectPermuted(m, cache, k - 1);
      ChunkAppends(m, k - 1);
    }
  }

  lemma CollectPermuted(m: Message, cache: seq<Message>, k: nat)
    requires k < Total(m) <= 255
    requires multiset(cache) == multiset(Fragments(m))
    ensures CollectEvery(cache, Total(m), k, m) == Chunk(m, k) == CollectLast(cache, Total(m), k, m)
  {
    var f := Fragment(m, k);
    OnlyMatch(m, cache, k);
    FragmentFields(m, k);
    FragmentsDistinct(m, k);
    CollectUnique(cache, Total(m), k, m, f);
  }

  lemma FragmentFields(m: Message, k: nat)
    requires k < Total(m) <= 255
    ensures Matches(Fragment(m, k), Total(m), k, m)
    ensures Fragment(m, k).data[3..] == Chunk(m, k)
  {
    FragmentShape(m, k);
  }

  lemma OnlyMatch(m: Message, cache: seq<Message>, k: nat)
    requires k < Total(m) <= 255
    requires multiset(cache) == multiset(Fragments(m))
    ensures forall x :: x in cache && Matches(x, Total(m), k, m) ==> x == Fragment(m, k)
  {
    forall x | x in cache && Matches(x, Total(m), k, m)
      ensures x == Fragment(m, k)
    {
      assert x in multiset(Fragments(m));
      var j :| 0 <= j < Total(m) && x == Fragments(m)[j];
      FragmentFields(m, j);
    }
  }

  lemma FragmentsAnnounce(m: Message)
    requires IsLong(m)
    ensures forall x :: x in Fragments(m) ==> x.IsFragment() && x.SamePair(m) && x.data[1] == Low(Total(m))
  {
    forall x | x in Fragments(m)
      ensures x.IsFragment() && x.SamePair(m) && x.data[1] == Low(Total(m))
    {
      var k :| 0 <= k < Total(m) && x == Fragments(m)[k];
      FragmentShape(m, k);
    }
  }

  // ---------- the splitting loops ----------

  /** ipc.rs `write_stream`: whole chunks first, then the remainder. */
  method SplitQueued(m: Message) returns (fragments: seq<Message>)
    requires IsLong(m)
    ensures fragments == Fragments(m)
  {
    fragments := [];
    var count := |m.data| / AIDATA_LIMIT;
    var r := |m.data| % AIDATA_LIMIT;
    var totalCount := if r > 0 then count + 1 else count;
    assert totalCount == Total(m);
    for k := 0 to count
      invariant fragments == Fragments(m)[..k]
    {
      var data := PushChunk(m, totalCount, k, AIDATA_LIMIT);
      fragments := fragments + [Message(m.sender, m.receiver, data)];
      assert fragments[k] == Fragment(m, k);
    }
    if r > 0 {
      var data := PushChunk(m, totalCount, totalCount - 1, r);
      fragments := fragments + [Message(m.sender, m.receiver, data)];
      assert fragments[totalCount - 1] == Fragment(m, totalCount - 1);
    }
  }

  /** The fragment header, then n bytes of the payload pushed one by one. */
  method PushChunk(m: Message, total: nat, k: nat, n: nat) returns (data: seq<byte>)
    requires AIDATA_LIMIT * k + n <= |m.data|
    ensures data == [MULTI, Low(total), Low(k)] + m.data[AIDATA_LIMIT * k..AIDATA_LIMIT * k + n]
  {
    data := [MULTI, Low(total), Low(k)];
    for i := 0 to n
      invariant data == [MULTI, Low(total), Low(k)] + m.data[AIDATA_LIMIT * k..AIDATA_LIMIT * k + i]
    {
      data := data + [m.data[i + k * AIDATA_LIMIT]];
    }
  }

  /** Serial_AIBus_Handler.cpp `writeAIBusToSerial`: one loop, the last group may be shorter. */
  method SplitGroup(m: Message) returns (group: seq<Message>)
    requires IsLong(m)
    ensures group == Fragments(m)
  {
    var count, r := |m.data| / AIDATA_LIMIT, |m.data| % AIDATA_LIMIT;
    var size := count + (if r == 0 then 0 else 1);
    assert size == Total(m);
    group := [];
    for i := 0 to size
      invariant group == Fragments(m)[..i]
    {
      var l := if i < size - 1 || r == 0 then AIDATA_LIMIT + 3 else r + 3;
      var data := FillGroup(m, size, i, l);
      assert data == Fragment(m, i).data;
      group := group + [Message(m.sender, m.receiver, data)];
    }
  }

  method FillGroup(m: Message, size: nat, i: nat, l: nat) returns (bytes: seq<byte>)
    requires l >= 3 && AIDATA_LIMIT * i + l - 3 <= |m.data|
    ensures bytes == [MULTI, Low(size), Low(i)] + m.data[AIDATA_LIMIT * i..AIDATA_LIMIT * i + l - 3]
  {
    var data := new byte[l](_ => 0);
    data[0], data[1], data[2] := MULTI, Low(size), Low(i);
    for d := 0 to l - 3
      invariant data[..3] == [MULTI, Low(size), Low(i)]
      invariant data[3..d + 3] == m.data[AIDATA_LIMIT * i..AIDATA_LIMIT * i + d]
    {
      data[d + 3] := m.data[AIDATA_LIMIT * i + d];
      assert data[3..d + 4] == data[3..d + 3] + [m.data[AIDATA_LIMIT * i + d]];
    }
    bytes := data[..];
    assert bytes == data[..3] + data[3..l];
  }
}
