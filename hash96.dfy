/**
 * Model of stl_reader/hash96.h: the 32-bit word helpers behind the vertex
 * hash table of the STL loader. A word the helpers compute with is a
 * `bv32`, so every `+`, `-`, shift and rotation below wraps exactly as
 * `uint32_t` arithmetic does; a word that is only stored, copied and
 * compared is the number it holds, a `U32`.
 */
module Hash96 {

  /** A `uint32_t` as bits. */
  type Word = bv32

  /** A `uint32_t` as the number it holds. */
  type U32 = n: int | 0 <= n < 0x1_0000_0000

  /** `x` has exactly one bit set. */
  predicate Pow2(x: Word)
  {
    x != 0 && x & (x - 1) == 0
  }

  // ---------------------------------------------------------------------
  // nextpow2
  // ---------------------------------------------------------------------

  /** Round up to a power of two: decrement, smear the highest set bit into
   *  every lower bit, increment. */
  function NextPow2(v: Word): Word
  {
    var v := v - 1;
    var v := v | (v >> 1);
    var v := v | (v >> 2);
    var v := v | (v >> 4);
    var v := v | (v >> 8);
    var v := v | (v >> 16);
    v + 1
  }

  /** For every input that has a power of two at or above it in 32 bits, the
   *  result is the least such power: a power of two, at least `v`, and with
   *  half of it below `v` (so below `2 * v`). */
  lemma NextPow2Rounds(v: Word)
    requires 1 <= v <= 0x8000_0000
    ensures Pow2(NextPow2(v))
    ensures v <= NextPow2(v)
    ensures NextPow2(v) >> 1 < v
  {
  }

  /** A power of two is its own round-up. */
  lemma NextPow2OfPow2(p: Word)
    requires Pow2(p)
    ensures NextPow2(p) == p
  {
  }

  /** Zero, and every input above 2^31, wraps around to zero. */
  lemma NextPow2Wraps(v: Word)
    requires v == 0 || v > 0x8000_0000
    ensures NextPow2(v) == 0
  {
  }

  /** The 32 powers of two a word can hold. */
  lemma Pow2Cases(c: Word)
    requires Pow2(c)
    ensures c == 1 || c == 2 || c == 4 || c == 8 || c == 0x10 || c == 0x20 || c == 0x40 || c == 0x80
         || c == 0x100 || c == 0x200 || c == 0x400 || c == 0x800
         || c == 0x1000 || c == 0x2000 || c == 0x4000 || c == 0x8000
         || c == 0x1_0000 || c == 0x2_0000 || c == 0x4_0000 || c == 0x8_0000
         || c == 0x10_0000 || c == 0x20_0000 || c == 0x40_0000 || c == 0x80_0000
         || c == 0x100_0000 || c == 0x200_0000 || c == 0x400_0000 || c == 0x800_0000
         || c == 0x1000_0000 || c == 0x2000_0000 || c == 0x4000_0000 || c == 0x8000_0000
  {
  }

  /** A power-of-two word, read as an integer, divides 2^32 and is at most 2^31. */
  lemma Pow2AsInt(c: Word)
    requires Pow2(c)
    ensures 0 < c as int <= 0x8000_0000 && 0x1_0000_0000 % (c as int) == 0
  {
    Pow2Cases(c);
  }

  lemma QuarterBelow(n: Word, c: Word)
    requires n <= 0x2000_0000 && 4 * n <= c
    ensures n <= c >> 2
  {
  }

  // `n <= c / 4` carried over to integers, one power of two at a time.
  lemma QuarterAsInt0(n: Word, c: Word)
    requires Pow2(c) && 0x1 <= c <= 0x80 && n <= c >> 2
    ensures 4 * (n as int) <= c as int
  {
    assert c == 0x1 || c == 0x2 || c == 0x4 || c == 0x8 || c == 0x10 || c == 0x20 || c == 0x40 || c == 0x80;
    if c == 0x1 { assert n <= 0x0; } else if c == 0x2 { assert n <= 0x0; } else if c == 0x4 { assert n <= 0x1; } else if c == 0x8 { assert n <= 0x2; } else if c == 0x10 { assert n <= 0x4; } else if c == 0x20 { assert n <= 0x8; } else if c == 0x40 { assert n <= 0x10; } else { assert n <= 0x20; }
  }

  lemma QuarterAsInt1(n: Word, c: Word)
    requires Pow2(c) && 0x100 <= c <= 0x8000 && n <= c >> 2
    ensures 4 * (n as int) <= c as int
  {
    assert c == 0x100 || c == 0x200 || c == 0x400 || c == 0x800 || c == 0x1000 || c == 0x2000 || c == 0x4000 || c == 0x8000;
    if c == 0x100 { assert n <= 0x40; } else if c == 0x200 { assert n <= 0x80; } else if c == 0x400 { assert n <= 0x100; } else if c == 0x800 { assert n <= 0x200; } else if c == 0x1000 { assert n <= 0x400; } else if c == 0x2000 { assert n <= 0x800; } else if c == 0x4000 { assert n <= 0x1000; } else { assert n <= 0x2000; }
  }

  lemma QuarterAsInt2(n: Word, c: Word)
    requires Pow2(c) && 0x10000 <= c <= 0x800000 && n <= c >> 2
    ensures 4 * (n as int) <= c as int
  {
    assert c == 0x10000 || c == 0x20000 || c == 0x40000 || c == 0x80000 || c == 0x100000 || c == 0x200000 || c == 0x400000 || c == 0x800000;
    if c == 0x10000 { assert n <= 0x4000; } else if c == 0x20000 { assert n <= 0x8000; } else if c == 0x40000 { assert n <= 0x10000; } else if c == 0x80000 { assert n <= 0x20000; } else if c == 0x100000 { assert n <= 0x40000; } else if c == 0x200000 { assert n <= 0x80000; } else if c == 0x400000 { assert n <= 0x100000; } else { assert n <= 0x200000; }
  }

  lemma QuarterAsInt3(n: Word, c: Word)
    requires Pow2(c) && 0x1000000 <= c <= 0x80000000 && n <= c >> 2
    ensures 4 * (n as int) <= c as int
  {
    assert c == 0x1000000 || c == 0x2000000 || c == 0x4000000 || c == 0x8000000 || c == 0x10000000 || c == 0x20000000 || c == 0x40000000 || c == 0x80000000;
    if c == 0x1000000 { assert n <= 0x400000; } else if c == 0x2000000 { assert n <= 0x800000; } else if c == 0x4000000 { assert n <= 0x1000000; } else if c == 0x8000000 { assert n <= 0x2000000; } else if c == 0x10000000 { assert n <= 0x4000000; } else if c == 0x20000000 { assert n <= 0x8000000; } else if c == 0x40000000 { assert n <= 0x10000000; } else { assert n <= 0x20000000; }
  }

  lemma QuarterAsInt(n: Word, c: Word)
    requires Pow2(c) && n <= c >> 2
    ensures 4 * (n as int) <= c as int
  {
    Pow2Cases(c);
    if c <= 0x80 {
      QuarterAsInt0(n, c);
    } else if c <= 0x8000 {
      QuarterAsInt1(n, c);
    } else if c <= 0x80_0000 {
      QuarterAsInt2(n, c);
    } else {
      QuarterAsInt3(n, c);
    }
  }

  /** Whatever the input, the round-up read as an integer is either 0 or a
   *  power of two: a divisor of 2^32 no larger than 2^31. */
  lemma NextPow2AsInt(v: Word)
    ensures var cap := NextPow2(v) as int;
      cap == 0 || (cap <= 0x8000_0000 && 0x1_0000_0000 % cap == 0)
  {
    if 1 <= v <= 0x8000_0000 {
      NextPow2Rounds(v);
      Pow2AsInt(NextPow2(v));
    } else {
      NextPow2Wraps(v);
    }
  }

  /** The table capacity `nextpow2(4 * n)` for `n` triangles: as long as
   *  `4 * n` does not wrap, it is a positive divisor of 2^32 with room for
   *  `4 * n` keys. */
  lemma TableCapacity(n: Word)
    requires 1 <= n <= 0x2000_0000
    ensures var cap := NextPow2(4 * n) as int;
      0 < cap <= 0x8000_0000 && 0x1_0000_0000 % cap == 0 && 4 * (n as int) <= cap
  {
    var cap := NextPow2(4 * n);
    NextPow2Rounds(4 * n);
    QuarterBelow(n, cap);
    Pow2AsInt(cap);
    QuarterAsInt(n, cap);
  }

  // The same rounding on integers, as a search, and the proof that the bit
  // trick computes it for every 32-bit input.

  /** Doubling from `p` reaches `c`: `c` is `p` times a power of two. */
  predicate Reaches(p: nat, c: nat)
    requires 0 < p
    decreases c - p
  {
    p == c || (p < c && Reaches(2 * p, c))
  }

  /** The first of `p`, `2p`, `4p`, ... that is at least `v`. */
  function LeastPow2From(v: int, p: nat): (r: nat)
    requires 0 < p
    ensures v <= r && Reaches(p, r)
    ensures r == p || r < 2 * v
    decreases v - p
  {
    if v <= p then p else LeastPow2From(v, 2 * p)
  }

  /** `nextpow2` on integers: the least power of two at or above `v` when it
   *  fits in 32 bits; 0 when `v` is 0 or above 2^31, where the bit trick
   *  wraps around. */
  function NextPow2Int(v: int): (r: int)
  {
    if v <= 0 || v > 0x8000_0000 then 0 else LeastPow2From(v, 1)
  }

  lemma {:induction false} ReachesBelow(p: nat, c: nat)
    requires 0 < p && Reaches(p, c)
    ensures p <= c
    decreases c - p
  {
  }

  lemma {:induction false} ReachesTrans(p: nat, q: nat, c: nat)
    requires 0 < p && 0 < q && Reaches(p, q) && Reaches(q, c)
    ensures Reaches(p, c)
    decreases q - p
  {
    if p != q {
      ReachesTrans(2 * p, q, c);
    }
  }

  /** The search from `p` stops at the power `c` of the doubling sequence
   *  with `c / 2 < v <= c`. */
  lemma {:induction false} LeastPow2Is(v: int, p: nat, c: nat)
    requires 0 < p && Reaches(p, c) && v <= c < 2 * v
    ensures LeastPow2From(v, p) == c
    decreases c - p
  {
    if p != c {
      ReachesBelow(2 * p, c);
      LeastPow2Is(v, 2 * p, c);
    }
  }

  // One lemma per power of two 2^k: an input in (2^(k-1), 2^k] rounds to
  // 2^k both ways. Each needs its bounds as constants (bv32-to-integer
  // conversions of symbolic bounds are beyond the solver).
  lemma NextPow2At0(v: Word)
    requires v as int == 1
    ensures NextPow2(v) as int == NextPow2Int(v as int)
  {
    assert v == 1;
    assert NextPow2(v) == 0x1;
    LeastPow2Is(v as int, 1, 0x1);
  }

  lemma NextPow2At1(v: Word)
    requires 0x1 < v as int <= 0x2
    ensures NextPow2(v) as int == NextPow2Int(v as int)
  {
    assert 0x1 < v <= 0x2;
    assert NextPow2(v) == 0x2;
    LeastPow2Is(v as int, 1, 0x2);
  }

  lemma NextPow2At2(v: Word)
    requires 0x2 < v as int <= 0x4
    ensures NextPow2(v) as int == NextPow2Int(v as int)
  {
    assert 0x2 < v <= 0x4;
    assert NextPow2(v) == 0x4;
    LeastPow2Is(v as int, 1, 0x4);
  }

  lemma NextPow2At3(v: Word)
    requires 0x4 < v as int <= 0x8
    ensures NextPow2(v) as int == NextPow2Int(v as int)
  {
    assert 0x4 < v <= 0x8;
    assert NextPow2(v) == 0x8;
    LeastPow2Is(v as int, 1, 0x8);
  }

  lemma NextPow2At4(v: Word)
    requires 0x8 < v as int <= 0x10
    ensures NextPow2(v) as int == NextPow2Int(v as int)
  {
    assert 0x8 < v <= 0x10;
    assert NextPow2(v) == 0x10;
    LeastPow2Is(v as int, 1, 0x10);
  }

  lemma NextPow2At5(v: Word)
    requires 0x10 < v as int <= 0x20
    ensures NextPow2(v) as int == NextPow2Int(v as int)
  {
    assert 0x10 < v <= 0x20;
    assert NextPow2(v) == 0x20;
    LeastPow2Is(v as int, 1, 0x20);
  }

  lemma NextPow2At6(v: Word)
    requires 0x20 < v as int <= 0x40
    ensures NextPow2(v) as int == NextPow2Int(v as int)
  {
    assert 0x20 < v <= 0x40;
    assert NextPow2(v) == 0x40;
    LeastPow2Is(v as int, 1, 0x40);
  }

  lemma NextPow2At7(v: Word)
    requires 0x40 < v as int <= 0x80
    ensures NextPow2(v) as int == NextPow2Int(v as int)
  {
    assert 0x40 < v <= 0x80;
    assert NextPow2(v) == 0x80;
    LeastPow2Is(v as int, 1, 0x80);
  }

  lemma NextPow2At8(v: Word)
    requires 0x80 < v as int <= 0x100
    ensures NextPow2(v) as int == NextPow2Int(v as int)
  {
    assert 0x80 < v <= 0x100;
    assert NextPow2(v) == 0x100;
    LeastPow2Is(v as int, 1, 0x100);
  }

  lemma NextPow2At9(v: Word)
    requires 0x100 < v as int <= 0x200
    ensures NextPow2(v) as int == NextPow2Int(v as int)
  {
    assert 0x100 < v <= 0x200;
    assert NextPow2(v) == 0x200;
    LeastPow2Is(v as int, 1, 0x200);
  }

  lemma NextPow2At10(v: Word)
    requires 0x200 < v as int <= 0x400
    ensures NextPow2(v) as int == NextPow2Int(v as int)
  {
    assert 0x200 < v <= 0x400;
    assert NextPow2(v) == 0x400;
    LeastPow2Is(v as int, 1, 0x400);
  }

  lemma NextPow2At11(v: Word)
    requires 0x400 < v as int <= 0x800
    ensures NextPow2(v) as int == NextPow2Int(v as int)
  {
    assert 0x400 < v <= 0x800;
    assert NextPow2(v) == 0x800;
    LeastPow2Is(v as int, 1, 0x800);
  }

  lemma NextPow2At12(v: Word)
    requires 0x800 < v as int <= 0x1000
    ensures NextPow2(v) as int == NextPow2Int(v as int)
  {
    assert 0x800 < v <= 0x1000;
    assert NextPow2(v) == 0x1000;
    LeastPow2Is(v as int, 1, 0x1000);
  }

  lemma NextPow2At13(v: Word)
    requires 0x1000 < v as int <= 0x2000
    ensures NextPow2(v) as int == NextPow2Int(v as int)
  {
    assert 0x1000 < v <= 0x2000;
    assert NextPow2(v) == 0x2000;
    LeastPow2Is(v as int, 1, 0x2000);
  }

  lemma NextPow2At14(v: Word)
    requires 0x2000 < v as int <= 0x4000
    ensures NextPow2(v) as int == NextPow2Int(v as int)
  {
    assert 0x2000 < v <= 0x4000;
    assert NextPow2(v) == 0x4000;
    LeastPow2Is(v as int, 1, 0x4000);
  }

  lemma NextPow2At15(v: Word)
    requires 0x4000 < v as int <= 0x8000
    ensures NextPow2(v) as int == NextPow2Int(v as int)
  {
    assert 0x4000 < v <= 0x8000;
    assert NextPow2(v) == 0x8000;
    LeastPow2Is(v as int, 1, 0x8000);
  }

  lemma NextPow2At16(v: Word)
    requires 0x8000 < v as int <= 0x10000
    ensures NextPow2(v) as int == NextPow2Int(v as int)
  {
    assert 0x8000 < v <= 0x10000;
    assert NextPow2(v) == 0x10000;
    LeastPow2Is(v as int, 1, 0x10000);
  }

  lemma NextPow2At17(v: Word)
    requires 0x10000 < v as int <= 0x20000
    ensures NextPow2(v) as int == NextPow2Int(v as int)
  {
    assert 0x10000 < v <= 0x20000;
    assert NextPow2(v) == 0x20000;
    ReachesTrans(1, 0x1_0000, 0x20000);
    LeastPow2Is(v as int, 1, 0x20000);
  }

  lemma NextPow2At18(v: Word)
    requires 0x20000 < v as int <= 0x40000
    ensures NextPow2(v) as int == NextPow2Int(v as int)
  {
    assert 0x20000 < v <= 0x40000;
    assert NextPow2(v) == 0x40000;
    ReachesTrans(1, 0x1_0000, 0x40000);
    LeastPow2Is(v as int, 1, 0x40000);
  }

  lemma NextPow2At19(v: Word)
    requires 0x40000 < v as int <= 0x80000
    ensures NextPow2(v) as int == NextPow2Int(v as int)
  {
    assert 0x40000 < v <= 0x80000;
    assert NextPow2(v) == 0x80000;
    ReachesTrans(1, 0x1_0000, 0x80000);
    LeastPow2Is(v as int, 1, 0x80000);
  }

  lemma NextPow2At20(v: Word)
    requires 0x80000 < v as int <= 0x100000
    ensures NextPow2(v) as int == NextPow2Int(v as int)
  {
    assert 0x80000 < v <= 0x100000;
    assert NextPow2(v) == 0x100000;
    ReachesTrans(1, 0x1_0000, 0x100000);
    LeastPow2Is(v as int, 1, 0x100000);
  }

  lemma NextPow2At21(v: Word)
    requires 0x100000 < v as int <= 0x200000
    ensures NextPow2(v) as int == NextPow2Int(v as int)
  {
    assert 0x100000 < v <= 0x200000;
    assert NextPow2(v) == 0x200000;
    ReachesTrans(1, 0x1_0000, 0x200000);
    LeastPow2Is(v as int, 1, 0x200000);
  }

  lemma NextPow2At22(v: Word)
    requires 0x200000 < v as int <= 0x400000
    ensures NextPow2(v) as int == NextPow2Int(v as int)
  {
    assert 0x200000 < v <= 0x400000;
    assert NextPow2(v) == 0x400000;
    ReachesTrans(1, 0x1_0000, 0x400000);
    LeastPow2Is(v as int, 1, 0x400000);
  }

  lemma NextPow2At23(v: Word)
    requires 0x400000 < v as int <= 0x800000
    ensures NextPow2(v) as int == NextPow2Int(v as int)
  {
    assert 0x400000 < v <= 0x800000;
    assert NextPow2(v) == 0x800000;
    ReachesTrans(1, 0x1_0000, 0x800000);
    LeastPow2Is(v as int, 1, 0x800000);
  }

  lemma NextPow2At24(v: Word)
    requires 0x800000 < v as int <= 0x1000000
    ensures NextPow2(v) as int == NextPow2Int(v as int)
  {
    assert 0x800000 < v <= 0x1000000;
    assert NextPow2(v) == 0x1000000;
    ReachesTrans(1, 0x1_0000, 0x1000000);
    LeastPow2Is(v as int, 1, 0x1000000);
  }

  lemma NextPow2At25(v: Word)
    requires 0x1000000 < v as int <= 0x2000000
    ensures NextPow2(v) as int == NextPow2Int(v as int)
  {
    assert 0x1000000 < v <= 0x2000000;
    assert NextPow2(v) == 0x2000000;
    ReachesTrans(1, 0x1_0000, 0x2000000);
    LeastPow2Is(v as int, 1, 0x2000000);
  }

  lemma NextPow2At26(v: Word)
    requires 0x2000000 < v as int <= 0x4000000
    ensures NextPow2(v) as int == NextPow2Int(v as int)
  {
    assert 0x2000000 < v <= 0x4000000;
    assert NextPow2(v) == 0x4000000;
    ReachesTrans(1, 0x1_0000, 0x4000000);
    LeastPow2Is(v as int, 1, 0x4000000);
  }

  lemma NextPow2At27(v: Word)
    requires 0x4000000 < v as int <= 0x8000000
    ensures NextPow2(v) as int == NextPow2Int(v as int)
  {
    assert 0x4000000 < v <= 0x8000000;
    assert NextPow2(v) == 0x8000000;
    ReachesTrans(1, 0x1_0000, 0x8000000);
    LeastPow2Is(v as int, 1, 0x8000000);
  }

  lemma NextPow2At28(v: Word)
    requires 0x8000000 < v as int <= 0x10000000
    ensures NextPow2(v) as int == NextPow2Int(v as int)
  {
    assert 0x8000000 < v <= 0x10000000;
    assert NextPow2(v) == 0x10000000;
    ReachesTrans(1, 0x1_0000, 0x10000000);
    LeastPow2Is(v as int, 1, 0x10000000);
  }

  lemma NextPow2At29(v: Word)
    requires 0x10000000 < v as int <= 0x20000000
    ensures NextPow2(v) as int == NextPow2Int(v as int)
  {
    assert 0x10000000 < v <= 0x20000000;
    assert NextPow2(v) == 0x20000000;
    ReachesTrans(1, 0x1_0000, 0x20000000);
    LeastPow2Is(v as int, 1, 0x20000000);
  }

  lemma NextPow2At30(v: Word)
    requires 0x20000000 < v as int <= 0x40000000
    ensures NextPow2(v) as int == NextPow2Int(v as int)
  {
    assert 0x20000000 < v <= 0x40000000;
    assert NextPow2(v) == 0x40000000;
    ReachesTrans(1, 0x1_0000, 0x40000000);
    LeastPow2Is(v as int, 1, 0x40000000);
  }

  lemma NextPow2At31(v: Word)
    requires 0x40000000 < v as int <= 0x80000000
    ensures NextPow2(v) as int == NextPow2Int(v as int)
  {
    assert 0x40000000 < v <= 0x80000000;
    assert NextPow2(v) == 0x80000000;
    ReachesTrans(1, 0x1_0000, 0x80000000);
    LeastPow2Is(v as int, 1, 0x80000000);
  }

  lemma NextPow2ValueLow(v: Word)
    requires 1 <= v as int <= 0x1_0000
    ensures NextPow2(v) as int == NextPow2Int(v as int)
  {
    var x := v as int;
    if x <= 0x1 {
      NextPow2At0(v);
    } else if x <= 0x2 {
      NextPow2At1(v);
    } else if x <= 0x4 {
      NextPow2At2(v);
    } else if x <= 0x8 {
      NextPow2At3(v);
    } else if x <= 0x10 {
      NextPow2At4(v);
    } else if x <= 0x20 {
      NextPow2At5(v);
    } else if x <= 0x40 {
      NextPow2At6(v);
    } else if x <= 0x80 {
      NextPow2At7(v);
    } else if x <= 0x100 {
      NextPow2At8(v);
    } else if x <= 0x200 {
      NextPow2At9(v);
    } else if x <= 0x400 {
      NextPow2At10(v);
    } else if x <= 0x800 {
      NextPow2At11(v);
    } else if x <= 0x1000 {
      NextPow2At12(v);
    } else if x <= 0x2000 {
      NextPow2At13(v);
    } else if x <= 0x4000 {
      NextPow2At14(v);
    } else if x <= 0x8000 {
      NextPow2At15(v);
    } else {
      NextPow2At16(v);
    }
  }

  lemma NextPow2ValueHigh(v: Word)
    requires 0x1_0000 < v as int <= 0x8000_0000
    ensures NextPow2(v) as int == NextPow2Int(v as int)
  {
    var x := v as int;
    if x <= 0x2_0000 {
      NextPow2At17(v);
    } else if x <= 0x40000 {
      NextPow2At18(v);
    } else if x <= 0x80000 {
      NextPow2At19(v);
    } else if x <= 0x100000 {
      NextPow2At20(v);
    } else if x <= 0x200000 {
      NextPow2At21(v);
    } else if x <= 0x400000 {
      NextPow2At22(v);
    } else if x <= 0x800000 {
      NextPow2At23(v);
    } else if x <= 0x1000000 {
      NextPow2At24(v);
    } else if x <= 0x2000000 {
      NextPow2At25(v);
    } else if x <= 0x4000000 {
      NextPow2At26(v);
    } else if x <= 0x8000000 {
      NextPow2At27(v);
    } else if x <= 0x10000000 {
      NextPow2At28(v);
    } else if x <= 0x20000000 {
      NextPow2At29(v);
    } else if x <= 0x40000000 {
      NextPow2At30(v);
    } else {
      NextPow2At31(v);
    }
  }

  /** `nextpow2` computes its integer reference on every 32-bit input. */
  lemma NextPow2Value(v: Word)
    ensures NextPow2(v) as int == NextPow2Int(v as int)
  {
    var x := v as int;
    if x == 0 || x > 0x8000_0000 {
      assert v == 0 || v > 0x8000_0000;
      NextPow2Wraps(v);
    } else if x <= 0x1_0000 {
      NextPow2ValueLow(v);
    } else {
      NextPow2ValueHigh(v);
    }
  }

  // ---------------------------------------------------------------------
  // rot32 and final96
  // ---------------------------------------------------------------------

  /** `rot32`: rotate left by `k` bits. */
  function Rot32(x: Word, k: Word): Word
    requires 0 < k < 32
  {
    (x << k) | (x >> (32 - k))
  }

  // Rotating back, one shift count at a time.
  lemma Rot32Inverse0(x: Word, k: Word)
    requires 1 <= k <= 7
    ensures Rot32(Rot32(x, k), 32 - k) == x
  {
    if k == 1 { } else if k == 2 { } else if k == 3 { } else if k == 4 { } else if k == 5 { } else if k == 6 { } else if k == 7 { }
  }

  lemma Rot32Inverse1(x: Word, k: Word)
    requires 8 <= k <= 15
    ensures Rot32(Rot32(x, k), 32 - k) == x
  {
    if k == 8 { } else if k == 9 { } else if k == 10 { } else if k == 11 { } else if k == 12 { } else if k == 13 { } else if k == 14 { } else if k == 15 { }
  }

  lemma Rot32Inverse2(x: Word, k: Word)
    requires 16 <= k <= 23
    ensures Rot32(Rot32(x, k), 32 - k) == x
  {
    if k == 16 { } else if k == 17 { } else if k == 18 { } else if k == 19 { } else if k == 20 { } else if k == 21 { } else if k == 22 { } else if k == 23 { }
  }

  lemma Rot32Inverse3(x: Word, k: Word)
    requires 24 <= k <= 31
    ensures Rot32(Rot32(x, k), 32 - k) == x
  {
    if k == 24 { } else if k == 25 { } else if k == 26 { } else if k == 27 { } else if k == 28 { } else if k == 29 { } else if k == 30 { } else if k == 31 { }
  }

  /** Rotating left by `k` and then by `32 - k` gives the word back, so
   *  `rot32` is a true rotation. */
  lemma Rot32Inverse(x: Word, k: Word)
    requires 0 < k < 32
    ensures Rot32(Rot32(x, k), 32 - k) == x
  {
    if k < 8 {
      Rot32Inverse0(x, k);
    } else if k < 16 {
      Rot32Inverse1(x, k);
    } else if k < 24 {
      Rot32Inverse2(x, k);
    } else {
      Rot32Inverse3(x, k);
    }
  }

  /** `final96`: the seven xor/subtract/rotate rounds of the `final` mix of
   *  lookup3 on the key words `(a, b, c)`; the hash is the final `c`. */
  function Final96(a: Word, b: Word, c: Word): Word
  {
    var c := (c ^ b) - Rot32(b, 14);
    var a := (a ^ c) - Rot32(c, 11);
    var b := (b ^ a) - Rot32(a, 25);
    var c := (c ^ b) - Rot32(b, 16);
    var a := (a ^ c) - Rot32(c, 4);
    var b := (b ^ a) - Rot32(a, 14);
    var c := (c ^ b) - Rot32(b, 24);
    c
  }

  /** The hash is the third word of a mixed state from which the key can be
   *  recovered: running the seven rounds backwards (add the rotation back,
   *  then xor) returns `(a0, b0, c0)`. The mix therefore loses no
   *  information about the key before the final word is taken. */
  lemma Final96Invertible(a0: Word, b0: Word, c0: Word)
    ensures
      var a, b, c := a0, b0, c0;
      var c := (c ^ b) - Rot32(b, 14);
      var a := (a ^ c) - Rot32(c, 11);
      var b := (b ^ a) - Rot32(a, 25);
      var c := (c ^ b) - Rot32(b, 16);
      var a := (a ^ c) - Rot32(c, 4);
      var b := (b ^ a) - Rot32(a, 14);
      var c := (c ^ b) - Rot32(b, 24);
      Final96(a0, b0, c0) == c &&
      var c := (c + Rot32(b, 24)) ^ b;
      var b := (b + Rot32(a, 14)) ^ a;
      var a := (a + Rot32(c, 4)) ^ c;
      var c := (c + Rot32(b, 16)) ^ b;
      var b := (b + Rot32(a, 25)) ^ a;
      var a := (a + Rot32(c, 11)) ^ c;
      var c := (c + Rot32(b, 14)) ^ b;
      a == a0 && b == b0 && c == c0
  {
  }

  // ---------------------------------------------------------------------
  // cmp96 and copy96
  // ---------------------------------------------------------------------

  /** `a - b` in `uint32_t` arithmetic: the difference modulo 2^32, zero
   *  exactly when the two words are equal. */
  function Diff32(a: U32, b: U32): (d: Word)
    ensures d == 0 <==> a == b
  {
    ((a - b) % 0x1_0000_0000) as Word
  }

  /** An OR of words is zero exactly when each of them is. */
  lemma OrZero(x: Word, y: Word, z: Word)
    ensures x | y | z == 0 <==> x == 0 && y == 0 && z == 0
  {
  }

  /** `cmp96`: the OR of the three wrapping differences between the key
   *  `a` and the three words of `b` from word `at`; zero exactly when they
   *  agree word for word. */
  method Cmp96(a: array<U32>, b: array<U32>, at: nat) returns (r: Word)
    requires a.Length >= 3 && at + 3 <= b.Length
    ensures r == 0 <==> a[0] == b[at] && a[1] == b[at + 1] && a[2] == b[at + 2]
  {
    var d0, d1, d2 := Diff32(a[0], b[at]), Diff32(a[1], b[at + 1]), Diff32(a[2], b[at + 2]);
    r := d0 | d1 | d2;
    OrZero(d0, d1, d2);
  }

  /** `copy96`: copy the three words of `src` into `dst` at word `at`;
   *  every other word of `dst` is left alone. */
  method Copy96(dst: array<U32>, at: nat, src: array<U32>)
    requires src.Length >= 3 && at + 3 <= dst.Length && dst != src
    modifies dst
    ensures dst[at] == src[0] && dst[at + 1] == src[1] && dst[at + 2] == src[2]
    ensures forall i :: 0 <= i < dst.Length && !(at <= i < at + 3) ==> dst[i] == old(dst[i])
  {
    dst[at] := src[0];
    dst[at + 1] := src[1];
    dst[at + 2] := src[2];
  }
}
