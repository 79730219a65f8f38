/** Bytes, byte strings, and the fixed-width arithmetic of the source. */
module Bytes {
  type byte = x: int | 0 <= x < 0x100
  type bytes = seq<byte>

  // ---- Text --------------------------------------------------------------------------------

  predicate IsAscii(s: string) { forall i | 0 <= i < |s| :: s[i] as int < 0x80 }

  function Ascii(s: string): (b: bytes)
    requires IsAscii(s)
    ensures |b| == |s| && forall i | 0 <= i < |s| :: b[i] == s[i] as int
  {
    seq(|s|, i requires 0 <= i < |s| => s[i] as int)
  }

  // ---- Arithmetic --------------------------------------------------------------------------

  // uint64_t and size_t arithmetic wraps; std::string and std::vector never reach 2^63 elements.
  const TWO_64 := 0x1_0000_0000_0000_0000
  const TWO_63 := 0x8000_0000_0000_0000
  const TWO_32 := 0x1_0000_0000

  function Wrap64(n: nat): (r: nat)
    ensures n < TWO_64 ==> r == n
  {
    if n < TWO_64 then n else n % TWO_64
  }

  /** Exclusive or of the `k` low bits. */
  function XorBits(a: nat, b: nat, k: nat): (r: nat) {
    if k == 0 then 0 else (a + b) % 2 + 2 * XorBits(a / 2, b / 2, k - 1)
  }

  function Power2(k: nat): (p: nat)
    ensures p > 0
  {
    if k == 0 then 1 else 2 * Power2(k - 1)
  }

  lemma {:induction false} XorBitsBounded(a: nat, b: nat, k: nat)
    ensures XorBits(a, b, k) < Power2(k)
  {
    if k > 0 {
      XorBitsBounded(a / 2, b / 2, k - 1);
    }
  }

  lemma HalfAndParity(d: nat, x: nat)
    requires d < 2
    ensures (d + 2 * x) / 2 == x && (d + 2 * x) % 2 == d
  {
  }

  lemma {:induction false} XorBitsTwice(a: nat, b: nat, k: nat)
    requires a < Power2(k)
    ensures XorBits(XorBits(a, b, k), b, k) == a
  {
    if k > 0 {
      var x, d := XorBits(a / 2, b / 2, k - 1), (a + b) % 2;
      HalfAndParity(d, x);
      XorBitsTwice(a / 2, b / 2, k - 1);
      ParityTwice(a, b, x);
    }
  }

  lemma ParityTwice(a: nat, b: nat, x: nat)
    ensures ((a + b) % 2 + 2 * x + b) % 2 == a % 2
  {
  }

  function Xor(a: byte, b: byte): byte {
    XorBitsBounded(a, b, 8);
    assert Power2(4) == 16;
    XorBits(a, b, 8)
  }

  lemma XorTwice(a: byte, b: byte)
    ensures Xor(Xor(a, b), b) == a
  {
    assert Power2(4) == 16;
    XorBitsTwice(a, b, 8);
  }

  /** `n >> i`. */
  function Shifted(n: nat, i: nat): nat {
    if i == 0 then n else Shifted(n / 2, i - 1)
  }

  /** The `i`th bit, from the right. */
  predicate Bit(n: nat, i: nat) { Shifted(n, i) % 2 == 1 }

  lemma {:induction false} XorBitsAt(a: nat, b: nat, k: nat, i: nat)
    requires i < k
    ensures Bit(XorBits(a, b, k), i) <==> Bit(a, i) != Bit(b, i)
  {
    HalfAndParity((a + b) % 2, XorBits(a / 2, b / 2, k - 1));
    if i > 0 {
      XorBitsAt(a / 2, b / 2, k - 1, i - 1);
    } else {
      ParityOfSum(a, b);
    }
  }

  lemma ParityOfSum(a: nat, b: nat)
    ensures (a + b) % 2 == 1 <==> (a % 2 == 1) != (b % 2 == 1)
  {
  }

  /** `Xor` is exclusive or: each bit is set if it is set in exactly one of the two bytes. */
  lemma XorIsExclusiveOr(a: byte, b: byte)
    ensures forall i: nat | i < 8 :: Bit(Xor(a, b), i) <==> Bit(a, i) != Bit(b, i)
  {
    forall i: nat | i < 8 ensures Bit(Xor(a, b), i) <==> Bit(a, i) != Bit(b, i) {
      XorBitsAt(a, b, 8, i);
    }
  }

  /** A number below 2^k is known by its `k` lowest bits. */
  lemma {:induction false} BitsDetermine(a: nat, b: nat, k: nat)
    requires a < Power2(k) && b < Power2(k) && forall i: nat | i < k :: Bit(a, i) <==> Bit(b, i)
    ensures a == b
  {
    if k > 0 {
      assert Bit(a, 0) <==> Bit(b, 0);
      forall i: nat | i < k - 1 ensures Bit(a / 2, i) <==> Bit(b / 2, i) {
        assert Bit(a, i + 1) <==> Bit(b, i + 1);
      }
      BitsDetermine(a / 2, b / 2, k - 1);
    }
  }

  lemma ByteOfBits(a: byte, b: byte)
    requires forall i: nat | i < 8 :: Bit(a, i) <==> Bit(b, i)
    ensures a == b
  {
    assert Power2(4) == 16;
    BitsDetermine(a, b, 8);
  }

  lemma Associate<T>(a: seq<T>, b: seq<T>, c: seq<T>)
    ensures a + b + c == a + (b + c)
  {
  }

  lemma SliceOfPrefix<T>(a: seq<T>, b: seq<T>, i: nat, j: nat)
    requires i <= j <= |a|
    ensures (a + b)[i..j] == a[i..j]
  {
  }

  lemma FrontOfSum<T>(a: seq<T>, b: seq<T>)
    ensures (a + b)[..|a|] == a && (a + b)[|a|..] == b
  {
  }

  lemma SliceOfDrop<T>(s: seq<T>, k: nat, i: nat, j: nat)
    requires k + j <= |s| && i <= j
    ensures s[k..][i..j] == s[k + i..k + j]
  {
  }

  lemma DropOfDrop<T>(s: seq<T>, i: nat, j: nat)
    requires i + j <= |s|
    ensures s[i..][j..] == s[i + j..]
  {
  }

  /** The pieces, one after another. */
  function Concat(pieces: seq<bytes>): bytes
    decreases |pieces|
  {
    if pieces == [] then [] else pieces[0] + Concat(pieces[1..])
  }

  lemma {:induction false} ConcatMore(pieces: seq<bytes>, piece: bytes)
    ensures Concat(pieces + [piece]) == Concat(pieces) + piece
    decreases |pieces|
  {
    if pieces == [] {
      assert piece + [] == [] + piece;
    } else {
      assert (pieces + [piece])[1..] == pieces[1..] + [piece];
      ConcatMore(pieces[1..], piece);
      Associate(pieces[0], Concat(pieces[1..]), piece);
    }
  }

  // ---- Numbers as big-endian bytes ---------------------------------------------------------

  function Number(s: bytes): nat {
    if s == [] then 0 else Number(s[..|s| - 1]) * 0x100 + s[|s| - 1]
  }

  function Digits(n: nat, k: nat): (s: bytes)
    ensures |s| == k
  {
    if k == 0 then [] else Digits(n / 0x100, k - 1) + [(n % 0x100)]
  }

  function Capacity(k: nat): (c: nat)
    ensures c > 0
  {
    if k == 0 then 1 else 0x100 * Capacity(k - 1)
  }

  lemma {:induction false} NumberOfDigits(n: nat, k: nat)
    requires n < Capacity(k)
    ensures Number(Digits(n, k)) == n
  {
    if k > 0 {
      NumberOfDigits(n / 0x100, k - 1);
      var s := Digits(n, k);
      assert s[..k - 1] == Digits(n / 0x100, k - 1);
    }
  }

  lemma {:induction false} DigitsOfNumber(s: bytes)
    ensures Number(s) < Capacity(|s|) && Digits(Number(s), |s|) == s
  {
    if s != [] {
      var front, last := s[..|s| - 1], s[|s| - 1];
      DigitsOfNumber(front);
      assert Number(s) == Number(front) * 0x100 + last;
      assert Number(s) / 0x100 == Number(front) && Number(s) % 0x100 == last;
      assert s == front + [last];
    }
  }
}
