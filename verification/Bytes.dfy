/** Bytes, C strings and the bit operations of the C sources, written on unbounded integers. */
module Bytes {
  type byte = x: int | 0 <= x < 256
  type bytes = seq<byte>

  /** The characters of a C string, without its terminator. */
  type cstring = s: bytes | 0 !in s witness []

  datatype Option<+T> = None | Some(value: T)

  function Min(a: int, b: int): int {
    if a <= b then a else b
  }

  /** `0` to `9` and `a` to `f`, then `0` to `9` and `A` to `F`. */
  const LOWER_DIGITS: bytes :=
    [0x30, 0x31, 0x32, 0x33, 0x34, 0x35, 0x36, 0x37, 0x38, 0x39, 0x61, 0x62, 0x63, 0x64, 0x65, 0x66]
  const UPPER_DIGITS: bytes :=
    [0x30, 0x31, 0x32, 0x33, 0x34, 0x35, 0x36, 0x37, 0x38, 0x39, 0x41, 0x42, 0x43, 0x44, 0x45, 0x46]

  /** The character is the hexadecimal digit `d`, in either case. */
  predicate SpellsDigit(c: byte, d: nat) {
    d < 16 && (c == LOWER_DIGITS[d] || c == UPPER_DIGITS[d])
  }

  function Pow2(k: nat): (r: nat)
    ensures r > 0
  {
    if k == 0 then 1 else 2 * Pow2(k - 1)
  }

  /** Bitwise `a & b`. */
  function And(a: nat, b: nat): nat {
    if a == 0 || b == 0 then 0 else (a % 2) * (b % 2) + 2 * And(a / 2, b / 2)
  }

  /** Bitwise `a ^ b`. */
  function Xor(a: nat, b: nat): nat
    decreases a + b
  {
    if a == 0 && b == 0 then 0 else (if a % 2 == b % 2 then 0 else 1) + 2 * Xor(a / 2, b / 2)
  }

  /** Masking with `2^k - 1` keeps the remainder modulo `2^k`. */
  lemma {:induction false} MaskIsModulo(h: nat, k: nat)
    ensures And(h, Pow2(k) - 1) == h % Pow2(k)
  {
    if h != 0 && k != 0 {
      var p := Pow2(k - 1);
      OddMask(h, p);
      if p > 1 {
        MaskIsModulo(h / 2, k - 1);
      } else {
        MaskIsModulo(h / 2, 0);
      }
      HalveModulo(h, p);
      assert k - 1 == 0 || p > 1;
    }
  }

  lemma OddMask(h: nat, p: nat)
    requires h > 0 && p > 0
    ensures And(h, 2 * p - 1) == h % 2 + 2 * And(h / 2, p - 1)
  {
    assert (2 * p - 1) % 2 == 1 && (2 * p - 1) / 2 == p - 1;
  }

  lemma HalveModulo(h: nat, p: nat)
    requires p > 0
    ensures h % (2 * p) == h % 2 + 2 * ((h / 2) % p)
  {
    var q, r := (h / 2) / p, (h / 2) % p;
    calc {
      h;
      2 * (h / 2) + h % 2;
      2 * (q * p + r) + h % 2;
      q * (2 * p) + (2 * r + h % 2);
    }
    ModuloUnique(h, 2 * p, q, 2 * r + h % 2);
  }

  lemma ModuloUnique(x: int, m: int, q: int, r: int)
    requires m > 0 && 0 <= r < m && x == q * m + r
    ensures x % m == r && x / m == q
  {
    var q', r' := x / m, x % m;
    var d := q - q';
    assert d * m == r' - r by {
      assert d * m == q * m - q' * m;
    }
    if d != 0 {
      ScaleAtLeast(d, m);
    }
  }

  lemma ScaleAtLeast(d: int, m: int)
    requires m > 0 && d != 0
    ensures d * m >= m || d * m <= -m
  {
    if d > 0 {
      assert (d - 1) * m >= 0;
    } else {
      assert (-d - 1) * m >= 0;
    }
  }

  lemma {:induction false} XorBelow(a: nat, b: nat, k: nat)
    requires a < Pow2(k) && b < Pow2(k)
    ensures Xor(a, b) < Pow2(k)
    decreases k
  {
    if k > 0 && (a != 0 || b != 0) {
      XorBelow(a / 2, b / 2, k - 1);
    }
  }

  lemma {:induction false} XorUnfold(a: nat, b: nat)
    ensures Xor(a, b) == (if a % 2 == b % 2 then 0 else 1) + 2 * Xor(a / 2, b / 2)
  {
    if a == 0 && b == 0 {
      assert Xor(0, 0) == 0;
    }
  }

  /** Bit by bit, `a ^ b` is set where the two differ. */
  lemma {:induction false} XorBits(a: nat, b: nat, k: nat)
    ensures Xor(a, b) / Pow2(k) % 2 == if a / Pow2(k) % 2 == b / Pow2(k) % 2 then 0 else 1
    decreases k
  {
    XorUnfold(a, b);
    var bit, r := if a % 2 == b % 2 then 0 else 1, Xor(a / 2, b / 2);
    BitSplit(bit, r);
    if k > 0 {
      XorBits(a / 2, b / 2, k - 1);
      var p := Pow2(k - 1);
      hide Xor;
      HalveTwice(a, p);
      HalveTwice(b, p);
      HalveTwice(bit + 2 * r, p);
    }
  }

  lemma HalveTwice(a: nat, p: nat)
    requires p > 0
    ensures a / (2 * p) == a / 2 / p
  {
    var q := a / 2 / p;
    var low := a / 2 - q * p;
    assert 0 <= low < p;
    assert a == 2 * (q * p + low) + a % 2;
    assert a == q * (2 * p) + (2 * low + a % 2) by {
      assert 2 * (q * p) == q * (2 * p);
    }
    QuotientUnique(a, 2 * p, q, 2 * low + a % 2);
  }

  lemma QuotientUnique(a: int, m: int, q: int, r: int)
    requires m > 0 && 0 <= r < m && a == q * m + r
    ensures a / m == q
  {
    ModuloUnique(a, m, q, r);
    assert (a / m - q) * m == 0;
  }

  lemma BitSplit(bit: nat, r: nat)
    requires bit < 2
    ensures (bit + 2 * r) % 2 == bit && (bit + 2 * r) / 2 == r
  {
  }

  /** Masking twice with the same key gives the value back. */
  lemma {:induction false} XorCancels(a: nat, b: nat)
    ensures Xor(Xor(a, b), b) == a
    decreases a + b
  {
    if a != 0 || b != 0 {
      var bit, r := if a % 2 == b % 2 then 0 else 1, Xor(a / 2, b / 2);
      XorUnfold(a, b);
      XorUnfold(bit + 2 * r, b);
      BitSplit(bit, r);
      XorCancels(a / 2, b / 2);
      hide Xor;
      assert a == a % 2 + 2 * (a / 2);
    }
  }

  // Exclusive or works on the low bits and on the rest separately: one bit, two, four, a byte.

  lemma {:induction false} XorSplitBit(a: nat, b: nat, c: nat, d: nat)
    requires a < 2 && b < 2
    ensures Xor(a + 2 * c, b + 2 * d) == Xor(a, b) + 2 * Xor(c, d)
  {
    BitSplit(a, c);
    BitSplit(b, d);
    XorUnfold(a + 2 * c, b + 2 * d);
    XorUnfold(a, b);
    XorUnfold(0, 0);
  }

  lemma {:induction false} XorJoinTwo(a0: nat, a1: nat, b0: nat, b1: nat, c: nat, d: nat)
    requires a0 < 2 && a1 < 2 && b0 < 2 && b1 < 2
    ensures Xor(a0 + 2 * a1 + 4 * c, b0 + 2 * b1 + 4 * d) == Xor(a0 + 2 * a1, b0 + 2 * b1) + 4 * Xor(c, d)
  {
    hide Xor;
    assert a0 + 2 * (a1 + 2 * c) == a0 + 2 * a1 + 4 * c;
    assert b0 + 2 * (b1 + 2 * d) == b0 + 2 * b1 + 4 * d;
    XorSplitBit(a0, b0, a1 + 2 * c, b1 + 2 * d);
    XorSplitBit(a1, b1, c, d);
    XorSplitBit(a0, b0, a1, b1);
  }

  lemma {:induction false} XorSplitTwo(a: nat, b: nat, c: nat, d: nat)
    requires a < 4 && b < 4
    ensures Xor(a + 4 * c, b + 4 * d) == Xor(a, b) + 4 * Xor(c, d)
  {
    hide Xor;
    XorJoinTwo(a % 2, a / 2, b % 2, b / 2, c, d);
    assert a % 2 + 2 * (a / 2) == a && b % 2 + 2 * (b / 2) == b;
  }

  lemma {:induction false} XorJoinNibble(a0: nat, a1: nat, b0: nat, b1: nat, c: nat, d: nat)
    requires a0 < 4 && a1 < 4 && b0 < 4 && b1 < 4
    ensures Xor(a0 + 4 * a1 + 0x10 * c, b0 + 4 * b1 + 0x10 * d) == Xor(a0 + 4 * a1, b0 + 4 * b1) + 0x10 * Xor(c, d)
  {
    hide Xor;
    assert a0 + 4 * (a1 + 4 * c) == a0 + 4 * a1 + 0x10 * c;
    assert b0 + 4 * (b1 + 4 * d) == b0 + 4 * b1 + 0x10 * d;
    XorSplitTwo(a0, b0, a1 + 4 * c, b1 + 4 * d);
    XorSplitTwo(a1, b1, c, d);
    XorSplitTwo(a0, b0, a1, b1);
  }

  lemma {:induction false} XorSplitNibble(a: nat, b: nat, c: nat, d: nat)
    requires a < 0x10 && b < 0x10
    ensures Xor(a + 0x10 * c, b + 0x10 * d) == Xor(a, b) + 0x10 * Xor(c, d)
  {
    hide Xor;
    XorJoinNibble(a % 4, a / 4, b % 4, b / 4, c, d);
    assert a % 4 + 4 * (a / 4) == a && b % 4 + 4 * (b / 4) == b;
  }

  lemma {:induction false} XorJoinByte(a0: nat, a1: nat, b0: nat, b1: nat, c: nat, d: nat)
    requires a0 < 0x10 && a1 < 0x10 && b0 < 0x10 && b1 < 0x10
    ensures Xor(a0 + 0x10 * a1 + 0x100 * c, b0 + 0x10 * b1 + 0x100 * d)
        == Xor(a0 + 0x10 * a1, b0 + 0x10 * b1) + 0x100 * Xor(c, d)
  {
    hide Xor;
    assert a0 + 0x10 * (a1 + 0x10 * c) == a0 + 0x10 * a1 + 0x100 * c;
    assert b0 + 0x10 * (b1 + 0x10 * d) == b0 + 0x10 * b1 + 0x100 * d;
    XorSplitNibble(a0, b0, a1 + 0x10 * c, b1 + 0x10 * d);
    XorSplitNibble(a1, b1, c, d);
    XorSplitNibble(a0, b0, a1, b1);
  }

  lemma {:induction false} XorSplitByte(a: nat, b: nat, c: nat, d: nat)
    requires a < 0x100 && b < 0x100
    ensures Xor(a + 0x100 * c, b + 0x100 * d) == Xor(a, b) + 0x100 * Xor(c, d)
  {
    hide Xor;
    XorJoinByte(a % 0x10, a / 0x10, b % 0x10, b / 0x10, c, d);
    assert a % 0x10 + 0x10 * (a / 0x10) == a && b % 0x10 + 0x10 * (b / 0x10) == b;
  }

  function XorByte(a: byte, b: byte): byte {
    XorBelow(a, b, 8);
    assert Pow2(8) == 256;
    Xor(a, b)
  }

  lemma SliceOfSlice<T>(s: seq<T>, i: nat, j: nat, x: nat, y: nat)
    requires i <= j <= |s| && x <= y <= j - i
    ensures s[i..j][x..y] == s[i + x..i + y]
  {
    var t := s[i..j];
    assert forall k :: 0 <= k < y - x ==> t[x..y][k] == s[i + x + k];
  }

  lemma PartOfFirst<T>(a: seq<T>, b: seq<T>, i: nat, j: nat)
    requires i <= j <= |a|
    ensures (a + b)[i..j] == a[i..j] && (a + b)[j..] == a[j..] + b
  {
  }

  lemma TakeOneMore<T>(s: seq<T>, i: nat)
    requires i < |s|
    ensures s[..i + 1] == s[..i] + [s[i]]
  {
  }

  /** What moves from the front of one part to the end of the other stays in place. */
  lemma Handover<T>(a: seq<T>, b: seq<T>, k: nat)
    requires k <= |b|
    ensures (a + b[..k]) + b[k..] == a + b
  {
  }

  lemma Assoc<T>(a: seq<T>, b: seq<T>, c: seq<T>)
    ensures (a + b) + c == a + (b + c)
  {
  }
}
