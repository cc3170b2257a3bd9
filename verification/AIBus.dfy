/**
 The AIBus message and its frame
     sender, payload length + 2, receiver, payload..., checksum
 as built and read by the Rust client (aibus.rs) and the C++ devices (AIBus.cpp).
 */
module AIBus {
  import opened Bytes

  const ACK: byte := 0x80
  const MULTI: byte := 0x91
  const RESEND: byte := 0x92
  const BROADCAST: byte := 0xFF
  const AIDATA_LIMIT := 0x20

  datatype Message = Message(sender: byte, receiver: byte, data: seq<byte>)
  {
    predicate StartsWith(b: byte) {
      |data| >= 1 && data[0] == b
    }

    predicate IsFragment() {
      |data| >= 3 && data[0] == MULTI
    }

    predicate SamePair(other: Message) {
      sender == other.sender && receiver == other.receiver
    }
  }

  /** What the decoder returns for anything it rejects. */
  const NULL_MESSAGE := Message(0, 0, [])

  function Body(m: Message): seq<byte> {
    [m.sender, Low(|m.data| + 2), m.receiver] + m.data
  }

  function Frame(m: Message): (f: seq<byte>)
    ensures |f| == |m.data| + 4
    ensures f[0] == m.sender && f[1] == Low(|m.data| + 2) && f[2] == m.receiver
    ensures f[3..|f| - 1] == m.data
  {
    Body(m) + [Checksum(Body(m))]
  }

  /** A frame whose tail repeats its head: `s l r s l r`, what a reader sees of its own echo. */
  predicate EchoShaped(f: seq<byte>) {
    |f| == 6 && f[3] == f[0] && f[4] == f[1] && f[5] == f[2]
  }

  /** The only payload whose frame looks like an echo. */
  predicate EchoPayload(m: Message) {
    m.data == [m.sender, 4]
  }

  predicate WellFormed(f: seq<byte>) {
    |f| >= 4 && f[1] == Low(|f| - 2) && f[|f| - 1] == Checksum(f[..|f| - 1])
  }

  function Unframe(f: seq<byte>): Message
    requires |f| >= 4
  {
    Message(f[0], f[2], f[3..|f| - 1])
  }

  function Decode(f: seq<byte>): Message {
    if WellFormed(f) && !EchoShaped(f) then Unframe(f) else NULL_MESSAGE
  }

  lemma FrameWellFormed(m: Message)
    ensures WellFormed(Frame(m)) && Unframe(Frame(m)) == m
  {
    assert Frame(m)[..|Frame(m)| - 1] == Body(m);
  }

  /** Well-formed byte runs are exactly the frames of messages. */
  lemma WellFormedIsFrame(f: seq<byte>)
    requires WellFormed(f)
    ensures Frame(Unframe(f)) == f
  {
    assert Body(Unframe(f)) == f[..|f| - 1];
    assert f == f[..|f| - 1] + [f[|f| - 1]];
  }

  /** The echo filter fires on a frame exactly when the payload is `[sender, 4]`. */
  lemma EchoExactly(m: Message)
    ensures EchoShaped(Frame(m)) <==> EchoPayload(m)
  {
    if |m.data| == 2 {
      var s, r, a, b := m.sender, m.receiver, m.data[0], m.data[1];
      var f := Frame(m);
      assert Body(m) == [s, 4, r, a, b];
      assert f[..5] == Body(m) && f[5] == Checksum(Body(m));
      EchoChecksum(s, r, a, b);
      assert m.data == [a, b];
      assert f[3] == a && f[4] == b;
    }
  }

  /** For a payload `[s, b]` the checksum is `r` exactly when b is the length byte 4. */
  lemma EchoChecksum(s: byte, r: byte, a: byte, b: byte)
    ensures a == s ==> (Checksum([s, 4, r, a, b]) == r <==> b == 4)
  {
    if a == s {
      assert Checksum([s, 4, r, s, b]) == Xor(Xor(r, 4), b) by {
        ChecksumOfFive(s, 4, r, s, b);
        calc {
          Xor(Xor(Xor(Xor(s, 4), r), s), b);
          { XorSymmetric(Xor(Xor(s, 4), r), s); XorAssociative(s, 4, r); XorAssociative(s, s, Xor(4, r)); }
          Xor(Xor(Xor(s, s), Xor(4, r)), b);
          { XorSelf(s); XorZero(Xor(4, r)); XorSymmetric(4, r); }
          Xor(Xor(r, 4), b);
        }
      }
      XorAssociative(r, 4, b);
      XorSelf(4);
      XorZero(r);
      if Xor(r, Xor(4, b)) == r {
        XorCancel(r, Xor(4, b), 0);
        XorCancel(4, b, 4);
      }
    }
  }

  lemma ChecksumOfFive(a: byte, b: byte, c: byte, d: byte, e: byte)
    ensures Checksum([a, b, c, d, e]) == Xor(Xor(Xor(Xor(a, b), c), d), e)
  {
    ChecksumSingleton(a);
    ChecksumPush([a], b);
    ChecksumPush([a, b], c);
    ChecksumPush([a, b, c], d);
    ChecksumPush([a, b, c, d], e);
    assert [a] + [b] == [a, b] && [a, b] + [c] == [a, b, c];
    assert [a, b, c] + [d] == [a, b, c, d] && [a, b, c, d] + [e] == [a, b, c, d, e];
  }

  /** Decoding undoes encoding for every message of every length, the echo payload alone excepted. */
  lemma DecodeEncode(m: Message)
    ensures Decode(Frame(m)) == m <==> !EchoPayload(m)
  {
    FrameWellFormed(m);
    EchoExactly(m);
  }

  /** Whatever the decoder accepts is byte for byte the frame of the message it returns. */
  lemma EncodeDecode(f: seq<byte>)
    ensures Decode(f) != NULL_MESSAGE ==> Frame(Decode(f)) == f
    ensures Decode(f) == NULL_MESSAGE <==> !WellFormed(f) || EchoShaped(f) || f == Frame(NULL_MESSAGE)
  {
    if WellFormed(f) {
      WellFormedIsFrame(f);
      FrameWellFormed(NULL_MESSAGE);
    }
  }

  /** No single corrupted byte, the length byte included, gets a frame past the decoder. */
  lemma CorruptionRejected(m: Message, i: nat, b: byte)
    requires i < |Frame(m)| && Frame(m)[i] != b
    ensures !WellFormed(Frame(m)[i := b])
    ensures Decode(Frame(m)[i := b]) == NULL_MESSAGE
  {
    var f := Frame(m);
    var g := f[i := b];
    var n := |f| - 1;
    FrameWellFormed(m);
    ChecksumClosed(f[..n], f[n]);
    assert f == f[..n] + [f[n]];
    ChecksumDetectsChange(f, i, b);
    ChecksumClosed(g[..n], g[n]);
    assert g == g[..n] + [g[n]];
  }

  /** The writer's byte buffer (aibus.rs `get_bytes`, AIBus.cpp `getBytes`). */
  method GetBytes(m: Message) returns (bytes: seq<byte>)
    ensures bytes == Frame(m)
  {
    var data := new byte[|m.data| + 4](_ => 0);
    data[0] := m.sender;
    data[1] := Low(|m.data| + 2);
    data[2] := m.receiver;
    for i := 0 to |m.data|
      invariant data[..3] == Body(m)[..3]
      invariant data[3..i + 3] == m.data[..i]
    {
      data[i + 3] := m.data[i];
    }
    var n := data.Length - 1;
    assert data[..n] == data[..3] + data[3..n] == Body(m);
    var checksum := XorFirst(data[..], n);
    data[n] := checksum;
    bytes := data[..];
    assert bytes[..n] == Body(m);
  }

  /** The running `checksum ^= data[i]` over the first n bytes. */
  method XorFirst(data: seq<byte>, n: nat) returns (checksum: byte)
    requires n <= |data|
    ensures checksum == Checksum(data[..n])
  {
    checksum := 0;
    for i := 0 to n
      invariant checksum == Checksum(data[..i])
    {
      assert data[..i + 1][..i] == data[..i];
      checksum := XorByte(checksum, data[i]);
    }
  }

  /** The reader (aibus.rs `get_aibus_message`). */
  method GetAIBusMessage(data: seq<byte>) returns (m: Message)
    ensures m == Decode(data)
  {
    if |data| < 4 {
      return NULL_MESSAGE;
    }
    var n := |data| - 1;
    var checksum := XorFirst(data, n);
    if checksum != data[n] {
      return NULL_MESSAGE;
    }
    if data[1] != Low(|data| - 2) {
      return NULL_MESSAGE;
    }
    if |data| == 6 && data[3] == data[0] && data[4] == data[1] && data[5] == data[2] {
      return NULL_MESSAGE;
    }
    var payload := new byte[|data| - 4](_ => 0);
    for i := 0 to payload.Length
      invariant payload[..i] == data[3..i + 3]
    {
      payload[i] := data[i + 3];
    }
    assert payload[..] == payload[..payload.Length];
    m := Message(data[0], data[2], payload[..]);
  }

  /** The C++ validity test (AIBus.cpp `checkValidity`) agrees with the Rust reader's tests. */
  method CheckValidity(b: seq<byte>) returns (valid: bool)
    requires |b| < 256
    ensures valid <==> WellFormed(b)
  {
    if |b| < 4 {
      return false;
    }
    if b[1] != |b| - 2 {
      return false;
    }
    var checksum := XorFirst(b, |b| - 1);
    valid := checksum == b[|b| - 1];
  }
}
