/** Octets, machine words and the few C operators on them that the firmware uses. */
module Bytes {
  type byte = x: int | 0 <= x < 256

  datatype Option<+T> = None | Some(value: T)

  /** C's `a ^ b` on unsigned chars. */
  function Xor(a: byte, b: byte): byte {
    ((a as bv8) ^ (b as bv8)) as byte
  }

  lemma XorUndone(a: byte, b: byte)
    ensures Xor(Xor(a, b), b) == a
  {
    var x, y := a as bv8, b as bv8;
    XorIs(a, b, x, y);
    SameBits(x ^ y);
    XorIs(Xor(a, b), b, x ^ y, y);
    XorTwice(x, y);
    SameByte(a);
  }

  lemma XorIs(a: byte, b: byte, x: bv8, y: bv8)
    requires x == a as bv8 && y == b as bv8
    ensures Xor(a, b) == (x ^ y) as byte
  {}

  lemma XorTwice(x: bv8, y: bv8)
    ensures (x ^ y) ^ y == x
  {}

  lemma XorSwapped(a: byte, b: byte)
    ensures Xor(a, b) == Xor(b, a)
  {}

  lemma SameBits(x: bv8)
    ensures (x as byte) as bv8 == x
  {}

  lemma SameByte(a: byte)
    ensures (a as bv8) as byte == a
  {
    if a < 128 {
      SameLowByte(a);
    } else {
      SameHighByte(a);
    }
  }

  lemma SameLowByte(a: byte)
    requires a < 128
    ensures (a as bv8) as byte == a
  {
    if a < 32 {
    } else if a < 64 {
    } else if a < 96 {
    }
  }

  lemma SameHighByte(a: byte)
    requires a >= 128
    ensures (a as bv8) as byte == a
  {
    if a < 144 {
    } else if a < 160 {
    } else if a < 176 {
    } else if a < 192 {
    } else if a < 208 {
    } else if a < 224 {
    } else if a < 240 {
    }
  }

  /** C's `x | y`. */
  function Or(x: nat, y: nat): nat
    decreases y
  {
    if y == 0 then x else 2 * Or(x / 2, y / 2) + if x % 2 == 1 || y % 2 == 1 then 1 else 0
  }

  /** Bit by bit, `|` is set where either operand is. */
  lemma {:induction false} OrBits(x: nat, y: nat, k: nat)
    ensures BitSet(Or(x, y), k) <==> BitSet(x, k) || BitSet(y, k)
    decreases k
  {
    if k > 0 {
      assert Or(x, y) / 2 == Or(x / 2, y / 2);
      OrBits(x / 2, y / 2, k - 1);
    }
  }

  predicate IsPowerOfTwo(m: nat)
    decreases m
  {
    m == 1 || (m > 1 && m % 2 == 0 && IsPowerOfTwo(m / 2))
  }

  lemma {:induction false} OrNothing(x: nat, y: nat)
    requires x == 0
    ensures Or(x, y) == y
    decreases y
  {
    if y > 0 {
      OrNothing(x / 2, y / 2);
    }
  }

  lemma {:induction false} OrItself(x: nat)
    ensures Or(x, x) == x
    decreases x
  {
    if x > 0 {
      OrItself(x / 2);
    }
  }

  /** Or-ing in a bit above all the others adds it. */
  lemma {:induction false} OrAbove(x: nat, m: nat)
    requires IsPowerOfTwo(m) && x < m
    ensures Or(x, m) == x + m
    decreases m
  {
    if m == 1 {
      OrNothing(x, m);
    } else {
      OrAbove(x / 2, m / 2);
    }
  }

  function Min(a: int, b: int): int {
    if a <= b then a else b
  }

  lemma ConcatAssociates<T>(a: seq<T>, b: seq<T>, c: seq<T>)
    ensures a + (b + c) == a + b + c
  {}

  lemma TailOfConcat<T>(a: seq<T>, b: seq<T>)
    requires a != []
    ensures (a + b)[0] == a[0] && (a + b)[1..] == a[1..] + b
  {}

  /** s, n times over. */
  function Repeated<T>(s: seq<T>, n: nat): seq<T> {
    if n == 0 then [] else Repeated(s, n - 1) + s
  }

  lemma {:induction false} RepeatedLength<T>(s: seq<T>, n: nat)
    ensures |Repeated(s, n)| == Times(|s|, n)
  {
    if n > 0 {
      RepeatedLength(s, n - 1);
    }
  }

  function FlatMap<T, U>(f: T -> seq<U>, s: seq<T>): seq<U> {
    if s == [] then [] else f(s[0]) + FlatMap(f, s[1..])
  }

  lemma {:induction false} FlatMapAppend<T, U>(f: T -> seq<U>, a: seq<T>, b: seq<T>)
    ensures FlatMap(f, a + b) == FlatMap(f, a) + FlatMap(f, b)
  {
    if a == [] {
      assert a + b == b;
    } else {
      TailOfConcat(a, b);
      FlatMapAppend(f, a[1..], b);
      ConcatAssociates(f(a[0]), FlatMap(f, a[1..]), FlatMap(f, b));
    }
  }

  lemma FlatMapOne<T, U>(f: T -> seq<U>, x: T)
    ensures FlatMap(f, [x]) == f(x)
  {
    assert [x][1..] == [];
  }

  /** n steps of size `unit`. */
  function Times(unit: nat, n: nat): nat {
    if n == 0 then 0 else Times(unit, n - 1) + unit
  }

  lemma {:induction false} TimesIsProduct(unit: nat, n: nat)
    ensures Times(unit, n) == unit * n
  {
    if n > 0 {
      TimesIsProduct(unit, n - 1);
      assert unit * n == unit * (n - 1) + unit;
    }
  }

  lemma {:induction false} TimesGrow(unit: nat, m: nat, n: nat)
    requires unit > 0 && m < n
    ensures Times(unit, m) + unit <= Times(unit, n)
    decreases n
  {
    if m < n - 1 {
      TimesGrow(unit, m, n - 1);
    }
  }

  /** C's `x << n` on a 32-bit word. */
  function Shl(x: nat, n: nat): nat
    decreases n
  {
    if n == 0 then x else Shl(2 * x % 0x1_0000_0000, n - 1)
  }

  /** n doublings. */
  function Doubled(x: nat, n: nat): nat {
    if n == 0 then x else 2 * Doubled(x, n - 1)
  }

  /** Shifting doubles n times and keeps 32 bits. */
  lemma {:induction false} ShlDoubles(x: nat, n: nat)
    requires x < 0x1_0000_0000
    ensures Shl(x, n) == Doubled(x, n) % 0x1_0000_0000
    decreases n
  {
    if n > 0 {
      ShlDoubles(2 * x % 0x1_0000_0000, n - 1);
      DoubledWord(2 * x, n - 1);
      DoubledFirst(x, n - 1);
    }
  }

  lemma {:induction false} DoubledWord(x: nat, n: nat)
    ensures Doubled(x % 0x1_0000_0000, n) % 0x1_0000_0000 == Doubled(x, n) % 0x1_0000_0000
  {
    if n > 0 {
      DoubledWord(x, n - 1);
      TwiceWord(Doubled(x % 0x1_0000_0000, n - 1), Doubled(x, n - 1));
    }
  }

  lemma TwiceWord(d: nat, e: nat)
    requires d % 0x1_0000_0000 == e % 0x1_0000_0000
    ensures 2 * d % 0x1_0000_0000 == 2 * e % 0x1_0000_0000
  {
    var q := d / 0x1_0000_0000 - e / 0x1_0000_0000;
    assert d == e + 0x1_0000_0000 * q;
    WholeWords(2 * e, 2 * q);
  }

  lemma WholeWords(x: int, q: int)
    ensures (x + 0x1_0000_0000 * q) % 0x1_0000_0000 == x % 0x1_0000_0000
  {}

  lemma {:induction false} DoubledFirst(x: nat, n: nat)
    ensures Doubled(2 * x, n) == 2 * Doubled(x, n)
  {
    if n > 0 {
      DoubledFirst(x, n - 1);
    }
  }

  /** `x & 0x3FFFFFFF`, the range of timer 1. */
  function TimerRange(x: nat): nat {
    x % 0x4000_0000
  }

  /** Storing into a 32-bit word first does not change the value in timer range. */
  lemma TimerRangeOfWord(x: nat)
    ensures TimerRange(x % 0x1_0000_0000) == TimerRange(x)
  {}

  /** C's `x >> k`. */
  function Shr(x: nat, k: nat): nat
    decreases k
  {
    if k == 0 then x else Shr(x / 2, k - 1)
  }

  /** C's `(x & (1 << k)) != 0`. */
  predicate BitSet(x: nat, k: nat) {
    Shr(x, k) % 2 == 1
  }

  /** Quotient and remainder are what they are asked to be. */
  lemma DivModUnique(x: nat, d: nat, q: nat, r: nat)
    requires x == d * q + r && r < d
    ensures x / d == q && x % d == r
  {
    assert x == d * (x / d) + x % d;
    assert d * (x / d) - d * q == d * (x / d - q);
    Squeeze(d, x / d - q);
  }

  lemma Squeeze(d: int, e: int)
    requires -d < d * e < d
    ensures e == 0
  {}

  /** A 32-bit word in little-endian order, as memcpy stores it on the LPC18xx. */
  function Le32(x: nat): (s: seq<byte>)
    requires x < 0x1_0000_0000
    ensures |s| == 4
  {
    [x % 256, x / 256 % 256, x / 0x1_0000 % 256, x / 0x100_0000]
  }

  /** The word that memcpy reads back. */
  function FromLe32(s: seq<byte>): (x: nat)
    requires |s| == 4
    ensures x < 0x1_0000_0000
  {
    var a: int, b: int, c: int, d: int := s[0], s[1], s[2], s[3];
    a + 256 * b + 0x1_0000 * c + 0x100_0000 * d
  }

  lemma Le32RoundTrip(x: nat)
    requires x < 0x1_0000_0000
    ensures FromLe32(Le32(x)) == x
  {
    assert x / 256 % 256 == x / 256 - 256 * (x / 0x1_0000);
    assert x / 0x1_0000 % 256 == x / 0x1_0000 - 256 * (x / 0x100_0000);
  }
}
