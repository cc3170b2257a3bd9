/**
 The list of recently transmitted messages that answers a 0x92 resend request: kept by
 removing the entry of the same sender and receiver and pushing the new message at the end.
 */
module ResendCache {
  import opened AIBus
  import opened Bytes

  datatype Option<+T> = None | Some(value: T)

  predicate For(m: Message, sender: byte, receiver: byte) {
    m.sender == sender && m.receiver == receiver
  }

  /** At most one entry per ordered pair of devices. */
  predicate OnePerPair(recent: seq<Message>) {
    forall i, j :: 0 <= i < j < |recent| ==> !recent[i].SamePair(recent[j])
  }

  /** The search of a resend request: the first entry for the pair. */
  function Lookup(recent: seq<Message>, sender: byte, receiver: byte): Option<Message> {
    if recent == [] then None
    else if For(recent[0], sender, receiver) then Some(recent[0])
    else Lookup(recent[1..], sender, receiver)
  }

  function Without(recent: seq<Message>, m: Message): seq<Message> {
    if recent == [] then []
    else if recent[0].SamePair(m) then recent[1..]
    else [recent[0]] + Without(recent[1..], m)
  }

  function Remember(recent: seq<Message>, m: Message): seq<Message> {
    Without(recent, m) + [m]
  }

  function RememberAll(recent: seq<Message>, sends: seq<Message>): seq<Message> {
    if sends == [] then recent else Remember(RememberAll(recent, sends[..|sends| - 1]), sends[|sends| - 1])
  }

  /** The reference: the last message sent for the pair. */
  function LastSent(sends: seq<Message>, sender: byte, receiver: byte): Option<Message> {
    if sends == [] then None
    else if For(sends[|sends| - 1], sender, receiver) then Some(sends[|sends| - 1])
    else LastSent(sends[..|sends| - 1], sender, receiver)
  }

  lemma {:induction false} LookupPush(recent: seq<Message>, m: Message, s: byte, r: byte)
    ensures Lookup(recent + [m], s, r) ==
            if Lookup(recent, s, r).Some? then Lookup(recent, s, r) else if For(m, s, r) then Some(m) else None
  {
    if recent != [] {
      assert (recent + [m])[1..] == recent[1..] + [m];
      LookupPush(recent[1..], m, s, r);
    } else {
      assert (recent + [m])[1..] == [];
    }
  }

  lemma {:induction false} LookupAbsent(recent: seq<Message>, s: byte, r: byte)
    ensures Lookup(recent, s, r) == None <==> forall x :: x in recent ==> !For(x, s, r)
  {
    if recent != [] {
      LookupAbsent(recent[1..], s, r);
      assert recent == [recent[0]] + recent[1..];
    }
  }

  lemma {:induction false} WithoutPair(recent: seq<Message>, m: Message, s: byte, r: byte)
    requires OnePerPair(recent)
    ensures OnePerPair(Without(recent, m))
    ensures forall x :: x in Without(recent, m) <==> x in recent && !x.SamePair(m)
    ensures Lookup(Without(recent, m), s, r) == if For(m, s, r) then None else Lookup(recent, s, r)
  {
    if recent != [] {
      var first, rest := recent[0], recent[1..];
      assert recent == [first] + rest;
      FirstOfPair(recent);
      if first.SamePair(m) {
        LookupAbsent(rest, s, r);
      } else {
        WithoutPair(rest, m, s, r);
        PairsPrepend(first, Without(rest, m));
        LookupFirst(first, Without(rest, m), s, r);
      }
    }
  }

  lemma FirstOfPair(recent: seq<Message>)
    requires OnePerPair(recent) && recent != []
    ensures OnePerPair(recent[1..]) && forall x :: x in recent[1..] ==> !recent[0].SamePair(x)
  {
    forall x | x in recent[1..]
      ensures !recent[0].SamePair(x)
    {
      var j :| 0 <= j < |recent[1..]| && recent[1..][j] == x;
      assert recent[j + 1] == x;
    }
  }

  lemma PairsPrepend(first: Message, rest: seq<Message>)
    requires OnePerPair(rest) && forall x :: x in rest ==> !first.SamePair(x)
    ensures OnePerPair([first] + rest)
  {
    forall j | 0 <= j < |rest|
      ensures !first.SamePair(rest[j])
    {
      assert rest[j] in rest;
    }
  }

  lemma LookupFirst(first: Message, rest: seq<Message>, s: byte, r: byte)
    ensures Lookup([first] + rest, s, r) == if For(first, s, r) then Some(first) else Lookup(rest, s, r)
  {
    assert ([first] + rest)[1..] == rest;
  }

  /** One transmission keeps one entry per pair and changes only the answer for its own pair. */
  lemma RememberRefines(recent: seq<Message>, m: Message, s: byte, r: byte)
    requires OnePerPair(recent)
    ensures OnePerPair(Remember(recent, m))
    ensures Lookup(Remember(recent, m), s, r) == if For(m, s, r) then Some(m) else Lookup(recent, s, r)
  {
    WithoutPair(recent, m, s, r);
    LookupPush(Without(recent, m), m, s, r);
    var w := Without(recent, m);
    forall i | 0 <= i < |w|
      ensures !w[i].SamePair(m)
    {
      assert w[i] in w;
    }
  }

  /** Over any run of transmissions the list is the map from each pair to the last message sent for it. */
  lemma {:induction false} CacheIsLastSent(sends: seq<Message>, s: byte, r: byte)
    ensures OnePerPair(RememberAll([], sends))
    ensures Lookup(RememberAll([], sends), s, r) == LastSent(sends, s, r)
  {
    if sends != [] {
      CacheIsLastSent(sends[..|sends| - 1], s, r);
      RememberRefines(RememberAll([], sends[..|sends| - 1]), sends[|sends| - 1], s, r);
    }
  }

  /** The same from any list: what has not been sent again is still answered as before. */
  lemma {:induction false} RememberAllLookup(recent: seq<Message>, sends: seq<Message>, s: byte, r: byte)
    requires OnePerPair(recent)
    ensures OnePerPair(RememberAll(recent, sends))
    ensures Lookup(RememberAll(recent, sends), s, r) ==
            if LastSent(sends, s, r).Some? then LastSent(sends, s, r) else Lookup(recent, s, r)
  {
    if sends != [] {
      RememberAllLookup(recent, sends[..|sends| - 1], s, r);
      RememberRefines(RememberAll(recent, sends[..|sends| - 1]), sends[|sends| - 1], s, r);
    }
  }

  /** `cache_tx` of ipc.rs and the index search of the C++ writers. */
  method CacheTx(recent: seq<Message>, m: Message) returns (updated: seq<Message>)
    ensures updated == Remember(recent, m)
  {
    updated := recent;
    hide Without;
    var i := 0;
    assert recent[0..] == recent;
    while i < |recent|
      invariant i <= |recent|
      invariant updated == recent
      invariant recent[..i] + Without(recent[i..], m) == Without(recent, m)
    {
      WithoutAt(recent, i, m);
      if recent[i].SamePair(m) {
        updated := recent[..i] + recent[i + 1..];
        break;
      }
      i := i + 1;
    }
    WithoutNone(m);
    assert recent[|recent|..] == [] && recent[..|recent|] == recent;
    updated := updated + [m];
  }

  lemma WithoutAt(recent: seq<Message>, i: nat, m: Message)
    requires i < |recent|
    ensures recent[i].SamePair(m) ==> Without(recent[i..], m) == recent[i + 1..]
    ensures !recent[i].SamePair(m) ==>
              recent[..i] + Without(recent[i..], m) == recent[..i + 1] + Without(recent[i + 1..], m)
  {
    assert recent[i..][1..] == recent[i + 1..];
    assert recent[..i + 1] == recent[..i] + [recent[i]];
  }

  lemma WithoutNone(m: Message)
    ensures Without([], m) == []
  {
  }

  method FindRecent(recent: seq<Message>, sender: byte, receiver: byte) returns (found: Option<Message>)
    ensures found == Lookup(recent, sender, receiver)
  {
    for i := 0 to |recent|
      invariant Lookup(recent, sender, receiver) == Lookup(recent[i..], sender, receiver)
    {
      if recent[i].sender == sender && recent[i].receiver == receiver {
        return Some(recent[i]);
      }
      assert recent[i..][1..] == recent[i + 1..];
    }
    found := None;
  }

  // ---------- a cache whose entries may have been padded ----------

  /** An unanswered two-byte message not starting with 0xA1 is written again, and then remembered, with a zero appended. */
  predicate PadOf(a: Message, b: Message) {
    a == b || (|a.data| == 2 && a.data[0] != 0xA1 && b == a.(data := a.data + [0]))
  }

  /** Every resend request that b answers, a answers with the same message up to that padding, and conversely. */
  ghost predicate KeepsAnswers(a: seq<Message>, b: seq<Message>) {
    forall s: byte, r: byte ::
      var x, y := Lookup(a, s, r), Lookup(b, s, r);
      (x == None && y == None) || (x.Some? && y.Some? && PadOf(x.value, y.value))
  }

  lemma KeepsSelf(a: seq<Message>)
    ensures KeepsAnswers(a, a)
  {
  }

  lemma KeepsOn(a: seq<Message>, b: seq<Message>, c: seq<Message>)
    requires KeepsAnswers(a, b) && KeepsAnswers(b, c)
    ensures KeepsAnswers(a, c)
  {
    forall s: byte, r: byte
      ensures var x, y := Lookup(a, s, r), Lookup(c, s, r);
              (x == None && y == None) || (x.Some? && y.Some? && PadOf(x.value, y.value))
    {
      var x, y, z := Lookup(a, s, r), Lookup(b, s, r), Lookup(c, s, r);
      assert (x == None && y == None) || (x.Some? && y.Some? && PadOf(x.value, y.value));
      assert (y == None && z == None) || (y.Some? && z.Some? && PadOf(y.value, z.value));
    }
  }

  /** Sending a remembered message again, padded or not, keeps the answers. */
  lemma KeepsResent(a: seq<Message>, m: Message, x: Message)
    requires OnePerPair(a) && Lookup(a, m.sender, m.receiver) == Some(x) && PadOf(x, m)
    ensures KeepsAnswers(a, Remember(a, m))
  {
    forall s: byte, r: byte
      ensures var y, z := Lookup(a, s, r), Lookup(Remember(a, m), s, r);
              (y == None && z == None) || (y.Some? && z.Some? && PadOf(y.value, z.value))
    {
      RememberRefines(a, m, s, r);
    }
  }

  /** What a cache still answers for the message last remembered. */
  lemma KeptAnswer(a: seq<Message>, m: Message, b: seq<Message>)
    requires OnePerPair(a) && KeepsAnswers(Remember(a, m), b)
    ensures Lookup(b, m.sender, m.receiver).Some? && PadOf(m, Lookup(b, m.sender, m.receiver).value)
  {
    RememberRefines(a, m, m.sender, m.receiver);
    var x, y := Lookup(Remember(a, m), m.sender, m.receiver), Lookup(b, m.sender, m.receiver);
    assert (x == None && y == None) || (x.Some? && y.Some? && PadOf(x.value, y.value));
  }

  lemma {:induction false} LookupFor(recent: seq<Message>, s: byte, r: byte)
    ensures Lookup(recent, s, r).Some? ==> For(Lookup(recent, s, r).value, s, r)
  {
    if recent != [] {
      LookupFor(recent[1..], s, r);
    }
  }
}
