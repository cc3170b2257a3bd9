/** Bytes and the XOR checksum that closes every AIBus frame and socket envelope. */
module Bytes {
  type byte = b: int | 0 <= b < 256

  /** Truncation of a length to one byte, the source's `as u8` and `uint8_t(...)`. */
  function Low(n: nat): byte {
    n % 256
  }

  function XorBit(a: nat, b: nat): nat {
    if a == b then 0 else 1
  }

  /** Exclusive or, bit by bit. */
  function Xor(a: nat, b: nat): nat {
    if a == 0 && b == 0 then 0 else XorBit(a % 2, b % 2) + 2 * Xor(a / 2, b / 2)
  }

  /** XOR works on the last bits and on the halves separately. */
  lemma XorBuild(p: nat, a: nat, q: nat, b: nat)
    requires p < 2 && q < 2
    ensures Xor(p + 2 * a, q + 2 * b) == XorBit(p, q) + 2 * Xor(a, b)
  {
  }

  lemma {:induction false} XorSymmetric(a: nat, b: nat)
    ensures Xor(a, b) == Xor(b, a)
  {
    if a != 0 || b != 0 {
      XorSymmetric(a / 2, b / 2);
    }
  }

  lemma {:induction false} XorAssociative(a: nat, b: nat, c: nat)
    ensures Xor(Xor(a, b), c) == Xor(a, Xor(b, c))
  {
    if a != 0 || b != 0 || c != 0 {
      var p, h := a % 2, a / 2;
      var q, i := b % 2, b / 2;
      var r, j := c % 2, c / 2;
      XorAssociative(h, i, j);
      AssociativeStep(p, h, q, i, r, j);
    }
  }

  lemma AssociativeStep(p: nat, h: nat, q: nat, i: nat, r: nat, j: nat)
    requires p < 2 && q < 2 && r < 2
    requires Xor(Xor(h, i), j) == Xor(h, Xor(i, j))
    ensures Xor(Xor(p + 2 * h, q + 2 * i), r + 2 * j) == Xor(p + 2 * h, Xor(q + 2 * i, r + 2 * j))
  {
    hide Xor;
    XorBuild(p, h, q, i);
    XorBuild(q, i, r, j);
    XorBuild(XorBit(p, q), Xor(h, i), r, j);
    XorBuild(p, h, XorBit(q, r), Xor(i, j));
  }

  lemma {:induction false} XorZero(a: nat)
    ensures Xor(a, 0) == a && Xor(0, a) == a
  {
    if a != 0 {
      XorZero(a / 2);
    }
  }

  lemma {:induction false} XorSelf(a: nat)
    ensures Xor(a, a) == 0
  {
    if a != 0 {
      XorSelf(a / 2);
    }
  }

  /** XOR is injective in each argument: what makes one changed byte visible. */
  lemma XorCancel(a: nat, b: nat, c: nat)
    requires Xor(a, b) == Xor(a, c)
    ensures b == c
  {
    XorAssociative(a, a, b);
    XorAssociative(a, a, c);
    XorSelf(a);
    XorZero(b);
    XorZero(c);
  }

  lemma {:induction false} XorBound(a: nat, b: nat, k: nat)
    requires a < Power2(k) && b < Power2(k)
    ensures Xor(a, b) < Power2(k)
  {
    if k != 0 && (a != 0 || b != 0) {
      XorBound(a / 2, b / 2, k - 1);
    }
  }

  function Power2(k: nat): nat {
    if k == 0 then 1 else 2 * Power2(k - 1)
  }

  function XorByte(a: byte, b: byte): (x: byte) {
    assert Power2(8) == 256;
    XorBound(a, b, 8);
    Xor(a, b)
  }

  /** The XOR of a run of bytes, as the running `checksum ^= data[i]` computes it. */
  function Checksum(s: seq<byte>): byte {
    if s == [] then 0 else XorByte(Checksum(s[..|s| - 1]), s[|s| - 1])
  }

  lemma {:induction false} ChecksumConcat(a: seq<byte>, b: seq<byte>)
    ensures Checksum(a + b) == Xor(Checksum(a), Checksum(b))
  {
    if b == [] {
      assert a + b == a;
      XorZero(Checksum(a));
    } else {
      var front, last := b[..|b| - 1], b[|b| - 1];
      assert (a + b)[..|a + b| - 1] == a + front;
      ChecksumConcat(a, front);
      XorAssociative(Checksum(a), Checksum(front), last);
    }
  }

  lemma ChecksumSingleton(b: byte)
    ensures Checksum([b]) == b
  {
    XorZero(b);
    assert [b][..0] == [];
  }

  lemma ChecksumPush(s: seq<byte>, b: byte)
    ensures Checksum(s + [b]) == Xor(Checksum(s), b)
  {
    assert (s + [b])[..|s|] == s;
  }

  /** Replacing one byte by a different one always changes the checksum. */
  lemma ChecksumDetectsChange(s: seq<byte>, i: nat, b: byte)
    requires i < |s| && b != s[i]
    ensures Checksum(s[i := b]) != Checksum(s)
  {
    if Checksum(s[i := b]) == Checksum(s) {
      var left, right := Checksum(s[..i]), Checksum(s[i + 1..]);
      ChecksumSplit(s, i);
      ChecksumSplit(s[i := b], i);
      assert s[i := b][..i] == s[..i] && s[i := b][i + 1..] == s[i + 1..];
      XorSymmetric(Xor(left, b), right);
      XorSymmetric(Xor(left, s[i]), right);
      XorCancel(right, Xor(left, b), Xor(left, s[i]));
      XorCancel(left, b, s[i]);
      assert false;
    }
  }

  lemma ChecksumSplit(s: seq<byte>, i: nat)
    requires i < |s|
    ensures Checksum(s) == Xor(Xor(Checksum(s[..i]), s[i]), Checksum(s[i + 1..]))
  {
    hide Checksum, Xor;
    assert s == s[..i] + [s[i]] + s[i + 1..];
    ChecksumConcat(s[..i] + [s[i]], s[i + 1..]);
    ChecksumPush(s[..i], s[i]);
  }

  /** A run of bytes that ends in its own checksum XORs to zero, and only such a run does. */
  lemma ChecksumClosed(body: seq<byte>, last: byte)
    ensures Checksum(body + [last]) == 0 <==> last == Checksum(body)
  {
    assert (body + [last])[..|body|] == body;
    XorSelf(Checksum(body));
    if Xor(Checksum(body), last) == 0 {
      XorCancel(Checksum(body), last, Checksum(body));
    }
  }
}
