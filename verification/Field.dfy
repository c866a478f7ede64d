/** Field arithmetic modulo 2^255 - 19 on ten signed limbs of 26 and 25 bits
(common/monocypher.cpp:930-1152, 1230-1357). All arithmetic is on `i32` and `i64`
values, so each operation is checked not to overflow. */
module Field {
  import opened Words

  const P: int := 0x7fff_ffff_ffff_ffff_ffff_ffff_ffff_ffff_ffff_ffff_ffff_ffff_ffff_ffff_ffff_ffed

  /** Ten integer coefficients. */
  datatype Ten = Ten(x0: int, x1: int, x2: int, x3: int, x4: int, x5: int, x6: int, x7: int, x8: int, x9: int) {
    /** The number they stand for: the weights are 2^0, 2^26, 2^51, 2^77, ... */
    function Sum(): int {
      x0 + 0x400_0000 * x1 + 0x8_0000_0000_0000 * x2 + 0x2000_0000_0000_0000_0000 * x3
      + 0x40_0000_0000_0000_0000_0000_0000 * x4 + 0x1_0000_0000_0000_0000_0000_0000_0000_0000 * x5
      + 0x200_0000_0000_0000_0000_0000_0000_0000_0000_0000 * x6
      + 0x8_0000_0000_0000_0000_0000_0000_0000_0000_0000_0000_0000 * x7
      + 0x1000_0000_0000_0000_0000_0000_0000_0000_0000_0000_0000_0000_0000 * x8
      + 0x40_0000_0000_0000_0000_0000_0000_0000_0000_0000_0000_0000_0000_0000_0000 * x9
    }
  }

  /** The limbs of a field element. */
  function Limbs(f: seq<i32>): Ten
    requires |f| == 10
  {
    Ten(f[0] as int, f[1] as int, f[2] as int, f[3] as int, f[4] as int,
        f[5] as int, f[6] as int, f[7] as int, f[8] as int, f[9] as int)
  }

  /** The (possibly negative) number a field element holds. */
  function Value(f: seq<i32>): int
    requires |f| == 10
  {
    Limbs(f).Sum()
  }

  /** |x| < m/100 * 2^26 */
  predicate Even(x: i32, m: int) { -0x400_0000 * m < 100 * (x as int) < 0x400_0000 * m }

  /** |x| < m/100 * 2^25 */
  predicate Odd(x: i32, m: int) { -0x200_0000 * m < 100 * (x as int) < 0x200_0000 * m }

  predicate Within(f: seq<i32>, m: int) {
    |f| == 10
    && Even(f[0], m) && Odd(f[1], m) && Even(f[2], m) && Odd(f[3], m) && Even(f[4], m)
    && Odd(f[5], m) && Even(f[6], m) && Odd(f[7], m) && Even(f[8], m) && Odd(f[9], m)
  }

  /** The bounds that a multiplication accepts: 1.65 * 2^26 and 1.65 * 2^25. */
  predicate Loose(f: seq<i32>) { Within(f, 165) }

  /** The bounds that FE_CARRY establishes: 1.1 * 2^25 and 1.1 * 2^24. */
  predicate Carried(f: seq<i32>) { Within(f, 55) }

  /** Rounded division by 2^26: `c = (t + 2^25) >> 26; t -= c * 2^26`. */
  method Carry26(t: i64) returns (c: i64, u: i64)
    requires t < 0x7fff_ffff_fe00_0000
    ensures t as int == c as int * 0x400_0000 + u as int
    ensures -0x200_0000 <= u < 0x200_0000
  {
    c := (t + 0x200_0000) / 0x400_0000;
    u := t - c * 0x400_0000;
  }

  /** Rounded division by 2^25: `c = (t + 2^24) >> 25; t -= c * 2^25`. */
  method Carry25(t: i64) returns (c: i64, u: i64)
    requires t < 0x7fff_ffff_ff00_0000
    ensures t as int == c as int * 0x200_0000 + u as int
    ensures -0x100_0000 <= u < 0x100_0000
  {
    c := (t + 0x100_0000) / 0x200_0000;
    u := t - c * 0x200_0000;
  }

  predicate Below62(t: i64) { -0x4000_0000_0000_0000 < t < 0x4000_0000_0000_0000 }

  /** FE_CARRY: signed carry propagation. `wrapped` counts how often 2^255 was replaced
  by 19. */
  method FeCarry(h: array<i32>, s0: i64, s1: i64, s2: i64, s3: i64, s4: i64,
                 s5: i64, s6: i64, s7: i64, s8: i64, s9: i64) returns (ghost wrapped: int)
    requires h.Length == 10
    requires s0 < 0x7fff_ffff_fe00_0000
    requires Below62(s1) && Below62(s2) && Below62(s3) && Below62(s4) && Below62(s5)
    requires Below62(s6) && Below62(s7) && Below62(s8) && Below62(s9)
    modifies h
    ensures Carried(h[..])
    ensures Value(h[..]) == Ten(s0 as int, s1 as int, s2 as int, s3 as int, s4 as int,
                                s5 as int, s6 as int, s7 as int, s8 as int, s9 as int).Sum() - P * wrapped
  {
    hide Ten.Sum, P;
    var c0, t0 := Carry26(s0);
    var t1 := s1 + c0;
    var c4, t4 := Carry26(s4);
    var t5 := s5 + c4;
    var c1; c1, t1 := Carry25(t1);
    var t2 := s2 + c1;
    var c5; c5, t5 := Carry25(t5);
    var t6 := s6 + c5;
    var c2; c2, t2 := Carry26(t2);
    var t3 := s3 + c2;
    var c6; c6, t6 := Carry26(t6);
    var t7 := s7 + c6;
    var c3; c3, t3 := Carry25(t3);
    t4 := t4 + c3;
    var c7; c7, t7 := Carry25(t7);
    var t8 := s8 + c7;
    var d4; d4, t4 := Carry26(t4);
    t5 := t5 + d4;
    var c8; c8, t8 := Carry26(t8);
    var t9 := s9 + c8;
    var c9; c9, t9 := Carry25(t9);
    t0 := t0 + c9 * 19;
    var d0; d0, t0 := Carry26(t0);
    t1 := t1 + d0;
    wrapped := c9 as int;
    Store(h, t0 as i32, t1 as i32, t2 as i32, t3 as i32, t4 as i32,
          t5 as i32, t6 as i32, t7 as i32, t8 as i32, t9 as i32);
    CarryValue(Ten(s0 as int, s1 as int, s2 as int, s3 as int, s4 as int,
                   s5 as int, s6 as int, s7 as int, s8 as int, s9 as int),
               c0 as int, c1 as int, c2 as int, c3 as int, c4 as int,
               c5 as int, c6 as int, c7 as int, c8 as int, c9 as int, d0 as int, d4 as int);
  }

  /** Carries move value between limbs; only the one out of the top limb changes it. */
  lemma CarryValue(s: Ten, c0: int, c1: int, c2: int, c3: int, c4: int,
                   c5: int, c6: int, c7: int, c8: int, c9: int, d0: int, d4: int)
    ensures Ten(s.x0 - 0x400_0000 * c0 + 19 * c9 - 0x400_0000 * d0,
                s.x1 + c0 - 0x200_0000 * c1 + d0,
                s.x2 + c1 - 0x400_0000 * c2,
                s.x3 + c2 - 0x200_0000 * c3,
                s.x4 - 0x400_0000 * c4 + c3 - 0x400_0000 * d4,
                s.x5 + c4 - 0x200_0000 * c5 + d4,
                s.x6 + c5 - 0x400_0000 * c6,
                s.x7 + c6 - 0x200_0000 * c7,
                s.x8 + c7 - 0x400_0000 * c8,
                s.x9 + c8 - 0x200_0000 * c9).Sum() == s.Sum() - P * c9
  {
  }

  method Store(h: array<i32>, t0: i32, t1: i32, t2: i32, t3: i32, t4: i32,
               t5: i32, t6: i32, t7: i32, t8: i32, t9: i32)
    requires h.Length == 10
    modifies h
    ensures h[..] == [t0, t1, t2, t3, t4, t5, t6, t7, t8, t9]
  {
    h[0], h[1], h[2], h[3], h[4] := t0, t1, t2, t3, t4;
    h[5], h[6], h[7], h[8], h[9] := t5, t6, t7, t8, t9;
  }

  /** The products f_i * g_j of weight below 2^255, column by column. */
  function Low(f: Ten, g: Ten): Ten {
    var Ten(f0, f1, f2, f3, f4, f5, f6, f7, f8, f9) := f;
    var Ten(g0, g1, g2, g3, g4, g5, g6, g7, g8, g9) := g;
    Ten(
      Mu(f0, g0),
      Mu(f0, g1) + Mu(f1, g0),
      Mu(f0, g2) + 2 * Mu(f1, g1) + Mu(f2, g0),
      Mu(f0, g3) + Mu(f1, g2) + Mu(f2, g1) + Mu(f3, g0),
      Mu(f0, g4) + 2 * Mu(f1, g3) + Mu(f2, g2) + 2 * Mu(f3, g1) + Mu(f4, g0),
      Mu(f0, g5) + Mu(f1, g4) + Mu(f2, g3) + Mu(f3, g2) + Mu(f4, g1) + Mu(f5, g0),
      Mu(f0, g6) + 2 * Mu(f1, g5) + Mu(f2, g4) + 2 * Mu(f3, g3) + Mu(f4, g2) + 2 * Mu(f5, g1) + Mu(f6, g0),
      Mu(f0, g7) + Mu(f1, g6) + Mu(f2, g5) + Mu(f3, g4) + Mu(f4, g3) + Mu(f5, g2) + Mu(f6, g1) + Mu(f7, g0),
      Mu(f0, g8) + 2 * Mu(f1, g7) + Mu(f2, g6) + 2 * Mu(f3, g5) + Mu(f4, g4) + 2 * Mu(f5, g3) + Mu(f6, g2) + 2 * Mu(f7, g1) + Mu(f8, g0),
      Mu(f0, g9) + Mu(f1, g8) + Mu(f2, g7) + Mu(f3, g6) + Mu(f4, g5) + Mu(f5, g4) + Mu(f6, g3) + Mu(f7, g2) + Mu(f8, g1) + Mu(f9, g0)
    )
  }

  /** The products of weight 2^255 and more, column by column, divided by 2^255. */
  function High(f: Ten, g: Ten): Ten {
    var Ten(f0, f1, f2, f3, f4, f5, f6, f7, f8, f9) := f;
    var Ten(g0, g1, g2, g3, g4, g5, g6, g7, g8, g9) := g;
    Ten(
      2 * Mu(f1, g9) + Mu(f2, g8) + 2 * Mu(f3, g7) + Mu(f4, g6) + 2 * Mu(f5, g5) + Mu(f6, g4) + 2 * Mu(f7, g3) + Mu(f8, g2) + 2 * Mu(f9, g1),
      Mu(f2, g9) + Mu(f3, g8) + Mu(f4, g7) + Mu(f5, g6) + Mu(f6, g5) + Mu(f7, g4) + Mu(f8, g3) + Mu(f9, g2),
      2 * Mu(f3, g9) + Mu(f4, g8) + 2 * Mu(f5, g7) + Mu(f6, g6) + 2 * Mu(f7, g5) + Mu(f8, g4) + 2 * Mu(f9, g3),
      Mu(f4, g9) + Mu(f5, g8) + Mu(f6, g7) + Mu(f7, g6) + Mu(f8, g5) + Mu(f9, g4),
      2 * Mu(f5, g9) + Mu(f6, g8) + 2 * Mu(f7, g7) + Mu(f8, g6) + 2 * Mu(f9, g5),
      Mu(f6, g9) + Mu(f7, g8) + Mu(f8, g7) + Mu(f9, g6),
      2 * Mu(f7, g9) + Mu(f8, g8) + 2 * Mu(f9, g7),
      Mu(f8, g9) + Mu(f9, g8),
      2 * Mu(f9, g9),
      0
    )
  }

  /** A row of the schoolbook product. */
  lemma Row(a: int, g: Ten)
    ensures Mu(a, g.Sum())
            == Mu(a, g.x0) + 0x400_0000 * Mu(a, g.x1) + 0x8_0000_0000_0000 * Mu(a, g.x2)
               + 0x2000_0000_0000_0000_0000 * Mu(a, g.x3) + 0x40_0000_0000_0000_0000_0000_0000 * Mu(a, g.x4)
               + 0x1_0000_0000_0000_0000_0000_0000_0000_0000 * Mu(a, g.x5)
               + 0x200_0000_0000_0000_0000_0000_0000_0000_0000_0000 * Mu(a, g.x6)
               + 0x8_0000_0000_0000_0000_0000_0000_0000_0000_0000_0000_0000 * Mu(a, g.x7)
               + 0x1000_0000_0000_0000_0000_0000_0000_0000_0000_0000_0000_0000_0000 * Mu(a, g.x8)
               + 0x40_0000_0000_0000_0000_0000_0000_0000_0000_0000_0000_0000_0000_0000_0000 * Mu(a, g.x9)
  {
  }

  lemma MuCommutes(a: int, b: int)
    ensures Mu(a, b) == Mu(b, a)
  {
  }

  /** A column of it. */
  lemma Column(f: Ten, a: int)
    ensures Mu(f.Sum(), a)
            == Mu(f.x0, a) + 0x400_0000 * Mu(f.x1, a) + 0x8_0000_0000_0000 * Mu(f.x2, a)
               + 0x2000_0000_0000_0000_0000 * Mu(f.x3, a) + 0x40_0000_0000_0000_0000_0000_0000 * Mu(f.x4, a)
               + 0x1_0000_0000_0000_0000_0000_0000_0000_0000 * Mu(f.x5, a)
               + 0x200_0000_0000_0000_0000_0000_0000_0000_0000_0000 * Mu(f.x6, a)
               + 0x8_0000_0000_0000_0000_0000_0000_0000_0000_0000_0000_0000 * Mu(f.x7, a)
               + 0x1000_0000_0000_0000_0000_0000_0000_0000_0000_0000_0000_0000_0000 * Mu(f.x8, a)
               + 0x40_0000_0000_0000_0000_0000_0000_0000_0000_0000_0000_0000_0000_0000_0000 * Mu(f.x9, a)
  {
    Row(a, f);
    MuCommutes(f.Sum(), a);
    MuCommutes(f.x0, a);
    MuCommutes(f.x1, a);
    MuCommutes(f.x2, a);
    MuCommutes(f.x3, a);
    MuCommutes(f.x4, a);
    MuCommutes(f.x5, a);
    MuCommutes(f.x6, a);
    MuCommutes(f.x7, a);
    MuCommutes(f.x8, a);
    MuCommutes(f.x9, a);
    hide Mu;
  }

  // The same columns, from the lower five limbs of f and from the upper five.

  function LowOfLower(f: Ten, g: Ten): Ten {
    var Ten(f0, f1, f2, f3, f4, _, _, _, _, _) := f;
    var Ten(g0, g1, g2, g3, g4, g5, g6, g7, g8, g9) := g;
    Ten(
      Mu(f0, g0),
      Mu(f0, g1) + Mu(f1, g0),
      Mu(f0, g2) + 2 * Mu(f1, g1) + Mu(f2, g0),
      Mu(f0, g3) + Mu(f1, g2) + Mu(f2, g1) + Mu(f3, g0),
      Mu(f0, g4) + 2 * Mu(f1, g3) + Mu(f2, g2) + 2 * Mu(f3, g1) + Mu(f4, g0),
      Mu(f0, g5) + Mu(f1, g4) + Mu(f2, g3) + Mu(f3, g2) + Mu(f4, g1),
      Mu(f0, g6) + 2 * Mu(f1, g5) + Mu(f2, g4) + 2 * Mu(f3, g3) + Mu(f4, g2),
      Mu(f0, g7) + Mu(f1, g6) + Mu(f2, g5) + Mu(f3, g4) + Mu(f4, g3),
      Mu(f0, g8) + 2 * Mu(f1, g7) + Mu(f2, g6) + 2 * Mu(f3, g5) + Mu(f4, g4),
      Mu(f0, g9) + Mu(f1, g8) + Mu(f2, g7) + Mu(f3, g6) + Mu(f4, g5)
    )
  }

  function HighOfLower(f: Ten, g: Ten): Ten {
    var Ten(_, f1, f2, f3, f4, _, _, _, _, _) := f;
    var Ten(_, _, _, _, _, _, g6, g7, g8, g9) := g;
    Ten(
      2 * Mu(f1, g9) + Mu(f2, g8) + 2 * Mu(f3, g7) + Mu(f4, g6),
      Mu(f2, g9) + Mu(f3, g8) + Mu(f4, g7),
      2 * Mu(f3, g9) + Mu(f4, g8),
      Mu(f4, g9),
      0, 0, 0, 0, 0, 0
    )
  }

  function LowOfUpper(f: Ten, g: Ten): Ten {
    var Ten(_, _, _, _, _, f5, f6, f7, f8, f9) := f;
    var Ten(g0, g1, g2, g3, g4, _, _, _, _, _) := g;
    Ten(
      0, 0, 0, 0, 0,
      Mu(f5, g0),
      2 * Mu(f5, g1) + Mu(f6, g0),
      Mu(f5, g2) + Mu(f6, g1) + Mu(f7, g0),
      2 * Mu(f5, g3) + Mu(f6, g2) + 2 * Mu(f7, g1) + Mu(f8, g0),
      Mu(f5, g4) + Mu(f6, g3) + Mu(f7, g2) + Mu(f8, g1) + Mu(f9, g0)
    )
  }

  function HighOfUpper(f: Ten, g: Ten): Ten {
    var Ten(_, _, _, _, _, f5, f6, f7, f8, f9) := f;
    var Ten(_, g1, g2, g3, g4, g5, g6, g7, g8, g9) := g;
    Ten(
      2 * Mu(f5, g5) + Mu(f6, g4) + 2 * Mu(f7, g3) + Mu(f8, g2) + 2 * Mu(f9, g1),
      Mu(f5, g6) + Mu(f6, g5) + Mu(f7, g4) + Mu(f8, g3) + Mu(f9, g2),
      2 * Mu(f5, g7) + Mu(f6, g6) + 2 * Mu(f7, g5) + Mu(f8, g4) + 2 * Mu(f9, g3),
      Mu(f5, g8) + Mu(f6, g7) + Mu(f7, g6) + Mu(f8, g5) + Mu(f9, g4),
      2 * Mu(f5, g9) + Mu(f6, g8) + 2 * Mu(f7, g7) + Mu(f8, g6) + 2 * Mu(f9, g5),
      Mu(f6, g9) + Mu(f7, g8) + Mu(f8, g7) + Mu(f9, g6),
      2 * Mu(f7, g9) + Mu(f8, g8) + 2 * Mu(f9, g7),
      Mu(f8, g9) + Mu(f9, g8),
      2 * Mu(f9, g9),
      0
    )
  }

  lemma LowerRows(f: Ten, g: Ten)
    ensures Mu(f.x0, g.Sum()) + 0x400_0000 * Mu(f.x1, g.Sum()) + 0x8_0000_0000_0000 * Mu(f.x2, g.Sum())
            + 0x2000_0000_0000_0000_0000 * Mu(f.x3, g.Sum()) + 0x40_0000_0000_0000_0000_0000_0000 * Mu(f.x4, g.Sum())
            == LowOfLower(f, g).Sum() + (P + 19) * HighOfLower(f, g).Sum()
  {
    hide Mu;
    Row(f.x0, g);
    Row(f.x1, g);
    Row(f.x2, g);
    Row(f.x3, g);
    Row(f.x4, g);
  }

  lemma UpperRows(f: Ten, g: Ten)
    ensures 0x1_0000_0000_0000_0000_0000_0000_0000_0000 * Mu(f.x5, g.Sum())
            + 0x200_0000_0000_0000_0000_0000_0000_0000_0000_0000 * Mu(f.x6, g.Sum())
            + 0x8_0000_0000_0000_0000_0000_0000_0000_0000_0000_0000_0000 * Mu(f.x7, g.Sum())
            + 0x1000_0000_0000_0000_0000_0000_0000_0000_0000_0000_0000_0000_0000 * Mu(f.x8, g.Sum())
            + 0x40_0000_0000_0000_0000_0000_0000_0000_0000_0000_0000_0000_0000_0000_0000 * Mu(f.x9, g.Sum())
            == LowOfUpper(f, g).Sum() + (P + 19) * HighOfUpper(f, g).Sum()
  {
    hide Mu;
    Row(f.x5, g);
    Row(f.x6, g);
    Row(f.x7, g);
    Row(f.x8, g);
    Row(f.x9, g);
  }

  function Plus(a: Ten, b: Ten): Ten {
    Ten(a.x0 + b.x0, a.x1 + b.x1, a.x2 + b.x2, a.x3 + b.x3, a.x4 + b.x4,
        a.x5 + b.x5, a.x6 + b.x6, a.x7 + b.x7, a.x8 + b.x8, a.x9 + b.x9)
  }

  lemma PlusSum(a: Ten, b: Ten)
    ensures Plus(a, b).Sum() == a.Sum() + b.Sum()
  {
  }

  lemma ColumnsInHalves(f: Ten, g: Ten)
    ensures Low(f, g) == Plus(LowOfLower(f, g), LowOfUpper(f, g))
    ensures High(f, g) == Plus(HighOfLower(f, g), HighOfUpper(f, g))
  {
    hide Mu;
  }

  /** The columns hold the whole product. */
  lemma ProductSplit(f: Ten, g: Ten)
    ensures Mu(f.Sum(), g.Sum()) == Low(f, g).Sum() + (P + 19) * High(f, g).Sum()
  {
    hide *;
    Column(f, g.Sum());
    LowerRows(f, g);
    UpperRows(f, g);
    ColumnsInHalves(f, g);
    PlusSum(LowOfLower(f, g), LowOfUpper(f, g));
    PlusSum(HighOfLower(f, g), HighOfUpper(f, g));
    MulDistr(P + 19, HighOfLower(f, g).Sum(), HighOfUpper(f, g).Sum());
  }

  /** |a| < 1.65 * 2^26 */
  predicate Small(a: i32) { Even(a, 165) }

  /** |a| < 1.65 * 2^27, the bound on a doubled limb. */
  predicate Doubled(a: i32) { Even(a, 330) }

  /** `(a*f) * (i64)(b*g)`: one product of the unrolled sums. The two factors are `i32`
  values computed first (f1*2, g9*19, ...); their product always fits 64 bits. */
  function Term(f: i32, a: int, g: i32, b: int): (t: i64)
    requires 1 <= a <= 2 && 1 <= b <= 38
    requires -0x8000_0000 <= f as int * a < 0x8000_0000
    requires -0x8000_0000 <= g as int * b < 0x8000_0000
    ensures t as int == (a * b) * Mu(f as int, g as int)
    ensures Small((f as int * a) as i32) ==> -0x34c_cccc_cccc_cccd < t < 0x34c_cccc_cccc_cccd
    ensures Doubled((f as int * a) as i32) ==> -0x699_9999_9999_999a < t < 0x699_9999_9999_999a
  {
    var x: i32 := f * a as i32;
    var y: i32 := g * b as i32;
    Mul32Bound(x as int, y as int, if x < 0 then -(x as int) else x as int);
    MuScaled(f as int, a, g as int, b);
    (x as int * y as int) as i64
  }

  function MulT0(f: seq<i32>, g: seq<i32>): (t: i64)
    requires Loose(f) && Loose(g)
    ensures Below62(t) && t as int == Low(Limbs(f), Limbs(g)).x0 + 19 * High(Limbs(f), Limbs(g)).x0
  {
    Term(f[0], 1, g[0], 1) + Term(f[1], 2, g[9], 19) + Term(f[2], 1, g[8], 19) + Term(f[3], 2, g[7], 19)
    + Term(f[4], 1, g[6], 19) + Term(f[5], 2, g[5], 19) + Term(f[6], 1, g[4], 19) + Term(f[7], 2, g[3], 19)
    + Term(f[8], 1, g[2], 19) + Term(f[9], 2, g[1], 19)
  }

  function MulT1(f: seq<i32>, g: seq<i32>): (t: i64)
    requires Loose(f) && Loose(g)
    ensures Below62(t) && t as int == Low(Limbs(f), Limbs(g)).x1 + 19 * High(Limbs(f), Limbs(g)).x1
  {
    Term(f[0], 1, g[1], 1) + Term(f[1], 1, g[0], 1) + Term(f[2], 1, g[9], 19) + Term(f[3], 1, g[8], 19)
    + Term(f[4], 1, g[7], 19) + Term(f[5], 1, g[6], 19) + Term(f[6], 1, g[5], 19) + Term(f[7], 1, g[4], 19)
    + Term(f[8], 1, g[3], 19) + Term(f[9], 1, g[2], 19)
  }

  function MulT2(f: seq<i32>, g: seq<i32>): (t: i64)
    requires Loose(f) && Loose(g)
    ensures Below62(t) && t as int == Low(Limbs(f), Limbs(g)).x2 + 19 * High(Limbs(f), Limbs(g)).x2
  {
    Term(f[0], 1, g[2], 1) + Term(f[1], 2, g[1], 1) + Term(f[2], 1, g[0], 1) + Term(f[3], 2, g[9], 19)
    + Term(f[4], 1, g[8], 19) + Term(f[5], 2, g[7], 19) + Term(f[6], 1, g[6], 19) + Term(f[7], 2, g[5], 19)
    + Term(f[8], 1, g[4], 19) + Term(f[9], 2, g[3], 19)
  }

  function MulT3(f: seq<i32>, g: seq<i32>): (t: i64)
    requires Loose(f) && Loose(g)
    ensures Below62(t) && t as int == Low(Limbs(f), Limbs(g)).x3 + 19 * High(Limbs(f), Limbs(g)).x3
  {
    Term(f[0], 1, g[3], 1) + Term(f[1], 1, g[2], 1) + Term(f[2], 1, g[1], 1) + Term(f[3], 1, g[0], 1)
    + Term(f[4], 1, g[9], 19) + Term(f[5], 1, g[8], 19) + Term(f[6], 1, g[7], 19) + Term(f[7], 1, g[6], 19)
    + Term(f[8], 1, g[5], 19) + Term(f[9], 1, g[4], 19)
  }

  function MulT4(f: seq<i32>, g: seq<i32>): (t: i64)
    requires Loose(f) && Loose(g)
    ensures Below62(t) && t as int == Low(Limbs(f), Limbs(g)).x4 + 19 * High(Limbs(f), Limbs(g)).x4
  {
    Term(f[0], 1, g[4], 1) + Term(f[1], 2, g[3], 1) + Term(f[2], 1, g[2], 1) + Term(f[3], 2, g[1], 1)
    + Term(f[4], 1, g[0], 1) + Term(f[5], 2, g[9], 19) + Term(f[6], 1, g[8], 19) + Term(f[7], 2, g[7], 19)
    + Term(f[8], 1, g[6], 19) + Term(f[9], 2, g[5], 19)
  }

  function MulT5(f: seq<i32>, g: seq<i32>): (t: i64)
    requires Loose(f) && Loose(g)
    ensures Below62(t) && t as int == Low(Limbs(f), Limbs(g)).x5 + 19 * High(Limbs(f), Limbs(g)).x5
  {
    Term(f[0], 1, g[5], 1) + Term(f[1], 1, g[4], 1) + Term(f[2], 1, g[3], 1) + Term(f[3], 1, g[2], 1)
    + Term(f[4], 1, g[1], 1) + Term(f[5], 1, g[0], 1) + Term(f[6], 1, g[9], 19) + Term(f[7], 1, g[8], 19)
    + Term(f[8], 1, g[7], 19) + Term(f[9], 1, g[6], 19)
  }

  function MulT6(f: seq<i32>, g: seq<i32>): (t: i64)
    requires Loose(f) && Loose(g)
    ensures Below62(t) && t as int == Low(Limbs(f), Limbs(g)).x6 + 19 * High(Limbs(f), Limbs(g)).x6
  {
    Term(f[0], 1, g[6], 1) + Term(f[1], 2, g[5], 1) + Term(f[2], 1, g[4], 1) + Term(f[3], 2, g[3], 1)
    + Term(f[4], 1, g[2], 1) + Term(f[5], 2, g[1], 1) + Term(f[6], 1, g[0], 1) + Term(f[7], 2, g[9], 19)
    + Term(f[8], 1, g[8], 19) + Term(f[9], 2, g[7], 19)
  }

  function MulT7(f: seq<i32>, g: seq<i32>): (t: i64)
    requires Loose(f) && Loose(g)
    ensures Below62(t) && t as int == Low(Limbs(f), Limbs(g)).x7 + 19 * High(Limbs(f), Limbs(g)).x7
  {
    Term(f[0], 1, g[7], 1) + Term(f[1], 1, g[6], 1) + Term(f[2], 1, g[5], 1) + Term(f[3], 1, g[4], 1)
    + Term(f[4], 1, g[3], 1) + Term(f[5], 1, g[2], 1) + Term(f[6], 1, g[1], 1) + Term(f[7], 1, g[0], 1)
    + Term(f[8], 1, g[9], 19) + Term(f[9], 1, g[8], 19)
  }

  function MulT8(f: seq<i32>, g: seq<i32>): (t: i64)
    requires Loose(f) && Loose(g)
    ensures Below62(t) && t as int == Low(Limbs(f), Limbs(g)).x8 + 19 * High(Limbs(f), Limbs(g)).x8
  {
    Term(f[0], 1, g[8], 1) + Term(f[1], 2, g[7], 1) + Term(f[2], 1, g[6], 1) + Term(f[3], 2, g[5], 1)
    + Term(f[4], 1, g[4], 1) + Term(f[5], 2, g[3], 1) + Term(f[6], 1, g[2], 1) + Term(f[7], 2, g[1], 1)
    + Term(f[8], 1, g[0], 1) + Term(f[9], 2, g[9], 19)
  }

  function MulT9(f: seq<i32>, g: seq<i32>): (t: i64)
    requires Loose(f) && Loose(g)
    ensures Below62(t) && t as int == Low(Limbs(f), Limbs(g)).x9 + 19 * High(Limbs(f), Limbs(g)).x9
  {
    Term(f[0], 1, g[9], 1) + Term(f[1], 1, g[8], 1) + Term(f[2], 1, g[7], 1) + Term(f[3], 1, g[6], 1)
    + Term(f[4], 1, g[5], 1) + Term(f[5], 1, g[4], 1) + Term(f[6], 1, g[3], 1) + Term(f[7], 1, g[2], 1)
    + Term(f[8], 1, g[1], 1) + Term(f[9], 1, g[0], 1)
  }

  function SqT0(f: seq<i32>): (t: i64)
    requires Loose(f)
    ensures Below62(t) && t as int == Low(Limbs(f), Limbs(f)).x0 + 19 * High(Limbs(f), Limbs(f)).x0
  {
    Term(f[0], 1, f[0], 1) + Term(f[1], 2, f[9], 38) + Term(f[2], 2, f[8], 19) + Term(f[3], 2, f[7], 38)
    + Term(f[4], 2, f[6], 19) + Term(f[5], 1, f[5], 38)
  }

  function SqT1(f: seq<i32>): (t: i64)
    requires Loose(f)
    ensures Below62(t) && t as int == Low(Limbs(f), Limbs(f)).x1 + 19 * High(Limbs(f), Limbs(f)).x1
  {
    Term(f[0], 2, f[1], 1) + Term(f[2], 1, f[9], 38) + Term(f[3], 2, f[8], 19) + Term(f[4], 1, f[7], 38)
    + Term(f[5], 2, f[6], 19)
  }

  function SqT2(f: seq<i32>): (t: i64)
    requires Loose(f)
    ensures Below62(t) && t as int == Low(Limbs(f), Limbs(f)).x2 + 19 * High(Limbs(f), Limbs(f)).x2
  {
    Term(f[0], 2, f[2], 1) + Term(f[1], 2, f[1], 1) + Term(f[3], 2, f[9], 38) + Term(f[4], 2, f[8], 19)
    + Term(f[5], 2, f[7], 38) + Term(f[6], 1, f[6], 19)
  }

  function SqT3(f: seq<i32>): (t: i64)
    requires Loose(f)
    ensures Below62(t) && t as int == Low(Limbs(f), Limbs(f)).x3 + 19 * High(Limbs(f), Limbs(f)).x3
  {
    Term(f[0], 2, f[3], 1) + Term(f[1], 2, f[2], 1) + Term(f[4], 1, f[9], 38) + Term(f[5], 2, f[8], 19)
    + Term(f[6], 1, f[7], 38)
  }

  function SqT4(f: seq<i32>): (t: i64)
    requires Loose(f)
    ensures Below62(t) && t as int == Low(Limbs(f), Limbs(f)).x4 + 19 * High(Limbs(f), Limbs(f)).x4
  {
    Term(f[0], 2, f[4], 1) + Term(f[1], 2, f[3], 2) + Term(f[2], 1, f[2], 1) + Term(f[5], 2, f[9], 38)
    + Term(f[6], 2, f[8], 19) + Term(f[7], 1, f[7], 38)
  }

  function SqT5(f: seq<i32>): (t: i64)
    requires Loose(f)
    ensures Below62(t) && t as int == Low(Limbs(f), Limbs(f)).x5 + 19 * High(Limbs(f), Limbs(f)).x5
  {
    Term(f[0], 2, f[5], 1) + Term(f[1], 2, f[4], 1) + Term(f[2], 2, f[3], 1) + Term(f[6], 1, f[9], 38)
    + Term(f[7], 2, f[8], 19)
  }

  function SqT6(f: seq<i32>): (t: i64)
    requires Loose(f)
    ensures Below62(t) && t as int == Low(Limbs(f), Limbs(f)).x6 + 19 * High(Limbs(f), Limbs(f)).x6
  {
    Term(f[0], 2, f[6], 1) + Term(f[1], 2, f[5], 2) + Term(f[2], 2, f[4], 1) + Term(f[3], 2, f[3], 1)
    + Term(f[7], 2, f[9], 38) + Term(f[8], 1, f[8], 19)
  }

  function SqT7(f: seq<i32>): (t: i64)
    requires Loose(f)
    ensures Below62(t) && t as int == Low(Limbs(f), Limbs(f)).x7 + 19 * High(Limbs(f), Limbs(f)).x7
  {
    Term(f[0], 2, f[7], 1) + Term(f[1], 2, f[6], 1) + Term(f[2], 2, f[5], 1) + Term(f[3], 2, f[4], 1)
    + Term(f[8], 1, f[9], 38)
  }

  function SqT8(f: seq<i32>): (t: i64)
    requires Loose(f)
    ensures Below62(t) && t as int == Low(Limbs(f), Limbs(f)).x8 + 19 * High(Limbs(f), Limbs(f)).x8
  {
    Term(f[0], 2, f[8], 1) + Term(f[1], 2, f[7], 2) + Term(f[2], 2, f[6], 1) + Term(f[3], 2, f[5], 2)
    + Term(f[4], 1, f[4], 1) + Term(f[9], 1, f[9], 38)
  }

  function SqT9(f: seq<i32>): (t: i64)
    requires Loose(f)
    ensures Below62(t) && t as int == Low(Limbs(f), Limbs(f)).x9 + 19 * High(Limbs(f), Limbs(f)).x9
  {
    Term(f[0], 2, f[9], 1) + Term(f[1], 2, f[8], 1) + Term(f[2], 2, f[7], 1) + Term(f[3], 2, f[6], 1)
    + Term(f[4], 1, f[5], 2)
  }

  lemma MuScaled(f: int, a: int, g: int, b: int)
    ensures (f * a) * (g * b) == (a * b) * Mu(f, g)
  {
    MulAssoc(f * a, g, b);
    MulSwap(a, f, g);
    MulAssoc(a, b, f * g);
  }

  lemma Mul32Bound(a: int, b: int, m: nat)
    requires -(m as int) <= a <= m && -0x8000_0000 <= b <= 0x8000_0000
    ensures -0x8000_0000 * (m as int) <= a * b <= 0x8000_0000 * m
  {
    MulMono(if a < 0 then -a else a, b, 0x8000_0000);
    MulMono(if a < 0 then -a else a, -0x8000_0000, b);
  }

  /** `fe_mul`. h may be the same array as f or g. */
  method FeMul(h: array<i32>, f: array<i32>, g: array<i32>)
    requires h.Length == f.Length == g.Length == 10
    requires Loose(f[..]) && Loose(g[..])
    modifies h
    ensures Carried(h[..])
    ensures Value(h[..]) % P == (Value(old(f[..])) * Value(old(g[..]))) % P
  {
    var a, b := f[..], g[..];
    ghost var wrapped := FeCarry(h, MulT0(a, b), MulT1(a, b), MulT2(a, b), MulT3(a, b), MulT4(a, b),
                                 MulT5(a, b), MulT6(a, b), MulT7(a, b), MulT8(a, b), MulT9(a, b));
    ProductReduced(Limbs(a), Limbs(b), Value(h[..]), wrapped);
  }

  /** `fe_sq` */
  method FeSq(h: array<i32>, f: array<i32>)
    requires h.Length == f.Length == 10 && Loose(f[..])
    modifies h
    ensures Carried(h[..])
    ensures Value(h[..]) % P == (Value(old(f[..])) * Value(old(f[..]))) % P
  {
    var a := f[..];
    ghost var wrapped := FeCarry(h, SqT0(a), SqT1(a), SqT2(a), SqT3(a), SqT4(a),
                                 SqT5(a), SqT6(a), SqT7(a), SqT8(a), SqT9(a));
    ProductReduced(Limbs(a), Limbs(a), Value(h[..]), wrapped);
  }

  /** Replacing 2^255 by 19 keeps the number modulo P. */
  ghost function Folded(f: Ten, g: Ten): Ten {
    var l, h := Low(f, g), High(f, g);
    Ten(l.x0 + 19 * h.x0, l.x1 + 19 * h.x1, l.x2 + 19 * h.x2, l.x3 + 19 * h.x3, l.x4 + 19 * h.x4,
        l.x5 + 19 * h.x5, l.x6 + 19 * h.x6, l.x7 + 19 * h.x7, l.x8 + 19 * h.x8, l.x9 + 19 * h.x9)
  }

  lemma ProductReduced(f: Ten, g: Ten, value: int, wrapped: int)
    requires value == Folded(f, g).Sum() - P * wrapped
    ensures value % P == (f.Sum() * g.Sum()) % P
  {
    ProductSplit(f, g);
    hide Low, High;
    assert value == f.Sum() * g.Sum() + P * (-wrapped - High(f, g).Sum());
    ModShift(f.Sum() * g.Sum(), P, -wrapped - High(f, g).Sum());
  }

  /** The faster squaring has exactly the same ten sums as the multiplication. */
  lemma SqIsMul(f: seq<i32>)
    requires Loose(f)
    ensures SqT0(f) == MulT0(f, f) && SqT1(f) == MulT1(f, f) && SqT2(f) == MulT2(f, f)
    ensures SqT3(f) == MulT3(f, f) && SqT4(f) == MulT4(f, f) && SqT5(f) == MulT5(f, f)
    ensures SqT6(f) == MulT6(f, f) && SqT7(f) == MulT7(f, f) && SqT8(f) == MulT8(f, f)
    ensures SqT9(f) == MulT9(f, f)
  {
    hide Term, Low, High;
  }

  /** `fe_mul_small`: multiplication by any 32-bit integer. */
  method FeMulSmall(h: array<i32>, f: array<i32>, g: i32)
    requires h.Length == f.Length == 10 && Loose(f[..])
    modifies h
    ensures Carried(h[..])
    ensures Value(h[..]) % P == (Value(old(f[..])) * g as int) % P
  {
    var a := f[..];
    ghost var wrapped := FeCarry(h, Term(a[0], 1, g, 1), Term(a[1], 1, g, 1), Term(a[2], 1, g, 1), Term(a[3], 1, g, 1),
                                 Term(a[4], 1, g, 1), Term(a[5], 1, g, 1), Term(a[6], 1, g, 1), Term(a[7], 1, g, 1),
                                 Term(a[8], 1, g, 1), Term(a[9], 1, g, 1));
    hide Term;
    SmallRow(Limbs(a), g as int, Value(h[..]), wrapped);
  }

  lemma SmallRow(f: Ten, g: int, value: int, wrapped: int)
    requires value == Ten(Mu(f.x0, g), Mu(f.x1, g), Mu(f.x2, g), Mu(f.x3, g), Mu(f.x4, g),
                          Mu(f.x5, g), Mu(f.x6, g), Mu(f.x7, g), Mu(f.x8, g), Mu(f.x9, g)).Sum() - P * wrapped
    ensures value % P == (f.Sum() * g) % P
  {
    Column(f, g);
    assert Mu(f.Sum(), g) == f.Sum() * g;
    ModShift(f.Sum() * g, P, -wrapped);
  }

  /** The first addition of FE_CARRY, `t0 + ((i64)1<<25)`, fits in 64 bits. */
  predicate RoundingFits(t0: i64) { t0 as int + 0x200_0000 < 0x8000_0000_0000_0000 }

  /** The comment above FE_CARRY asks for |t0| < 2^63. That is not enough: the first
  addition overflows exactly when t0 is within 2^25 of the upper end, as it is for the
  largest value that the comment allows. */
  lemma DocumentedCarryBound(t0: i64)
    ensures RoundingFits(t0) <==> t0 < 0x7fff_ffff_fe00_0000
    ensures !RoundingFits(0x7fff_ffff_ffff_ffff)
  {
  }
}
