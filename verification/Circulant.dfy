/** The column mix of AES: matrices over GF(2^8) whose rows are one row turned, and
    their products (section 5.1.3 of FIPS 197). */
module Circulant {
  import opened Words
  import opened Bytes
  import opened Linear
  import opened Galois

  function Row(c: Four, v: Four): u8
  {
    Sum4(Sums(), Times(v[0], c[0]), Times(v[1], c[1]), Times(v[2], c[2]), Times(v[3], c[3]))
  }

  function Turn(v: Four): Four
  {
    [v[1], v[2], v[3], v[0]]
  }

  /** The matrix whose first row is c, times v. */
  function Column(c: Four, v: Four): Four
  {
    [Row(c, v), Row(c, Turn(v)), Row(c, Turn(Turn(v))), Row(c, Turn(Turn(Turn(v))))]
  }

  /** The first row of the product of two such matrices. */
  function Product(n: Four, m: Four): Four
  {
    [Entry(n, m), Entry(n, [m[1], m[2], m[3], m[0]]), Entry(n, [m[2], m[3], m[0], m[1]]), Entry(n, [m[3], m[0], m[1], m[2]])]
  }

  function Entry(n: Four, m: Four): u8
  {
    Sum4(Sums(), Times(m[0], n[0]), Times(m[3], n[1]), Times(m[2], n[2]), Times(m[1], n[3]))
  }

  lemma RowScaled(c: Four, v: Four, n: u8)
    ensures Times(Row(c, v), n) ==
      Sum4(Sums(), Times(v[0], Times(c[0], n)), Times(v[1], Times(c[1], n)), Times(v[2], Times(c[2], n)), Times(v[3], Times(c[3], n)))
  {
    TimesAddsLeft(n);
    AdditiveSum4(Sums(), TimesBy(n), Times(v[0], c[0]), Times(v[1], c[1]), Times(v[2], c[2]), Times(v[3], c[3]));
    Associative(v[0], c[0], n);
    Associative(v[1], c[1], n);
    Associative(v[2], c[2], n);
    Associative(v[3], c[3], n);
  }

  lemma Factor(v: u8, a: u8, b: u8, c: u8, d: u8)
    ensures Sum4(Sums(), Times(v, a), Times(v, b), Times(v, c), Times(v, d)) == Times(v, Sum4(Sums(), a, b, c, d))
  {
    TimesAddsRight(v);
    AdditiveSum4(Sums(), TimesOf(v), a, b, c, d);
  }

  lemma RowTurn(c: Four, v: Four)
    ensures Row(Turn(c), Turn(v)) == Row(c, v)
  {
    SumsLaws();
    Sum4Turn(Sums(), Times(v[0], c[0]), Times(v[1], c[1]), Times(v[2], c[2]), Times(v[3], c[3]));
  }

  /** The rows of the matrix, against v itself. */
  lemma ColumnRows(m: Four, v: Four)
    ensures Column(m, v) ==
      [Row(m, v), Row([m[3], m[0], m[1], m[2]], v), Row([m[2], m[3], m[0], m[1]], v), Row([m[1], m[2], m[3], m[0]], v)]
  {
    RowBack(m, v);
    RowBack(m, Turn(v));
    RowBack(Back(m), v);
    RowBack(m, Turn(Turn(v)));
    RowBack(Back(m), Turn(v));
    RowBack(Back(Back(m)), v);
  }

  function Back(v: Four): Four
  {
    [v[3], v[0], v[1], v[2]]
  }

  lemma RowBack(m: Four, v: Four)
    ensures Row(m, Turn(v)) == Row(Back(m), v)
  {
    RowTurn(Back(m), v);
    assert Turn(Back(m)) == m;
  }

  lemma RowOfColumn(n: Four, m: Four, v: Four)
    ensures Row(n, Column(m, v)) == Row(Product(n, m), v)
  {
    ColumnRows(m, v);
    SumsLaws();
    RowScaled(m, v, n[0]);
    RowScaled([m[3], m[0], m[1], m[2]], v, n[1]);
    RowScaled([m[2], m[3], m[0], m[1]], v, n[2]);
    RowScaled([m[1], m[2], m[3], m[0]], v, n[3]);
    Sum4Transpose(Sums(),
      [Times(v[0], Times(m[0], n[0])), Times(v[1], Times(m[1], n[0])), Times(v[2], Times(m[2], n[0])), Times(v[3], Times(m[3], n[0]))],
      [Times(v[0], Times(m[3], n[1])), Times(v[1], Times(m[0], n[1])), Times(v[2], Times(m[1], n[1])), Times(v[3], Times(m[2], n[1]))],
      [Times(v[0], Times(m[2], n[2])), Times(v[1], Times(m[3], n[2])), Times(v[2], Times(m[0], n[2])), Times(v[3], Times(m[1], n[2]))],
      [Times(v[0], Times(m[1], n[3])), Times(v[1], Times(m[2], n[3])), Times(v[2], Times(m[3], n[3])), Times(v[3], Times(m[0], n[3]))]);
    Factor(v[0], Times(m[0], n[0]), Times(m[3], n[1]), Times(m[2], n[2]), Times(m[1], n[3]));
    Factor(v[1], Times(m[1], n[0]), Times(m[0], n[1]), Times(m[3], n[2]), Times(m[2], n[3]));
    Factor(v[2], Times(m[2], n[0]), Times(m[1], n[1]), Times(m[0], n[2]), Times(m[3], n[3]));
    Factor(v[3], Times(m[3], n[0]), Times(m[2], n[1]), Times(m[1], n[2]), Times(m[0], n[3]));
  }

  lemma ColumnTurns(m: Four, v: Four)
    ensures Turn(Column(m, v)) == Column(m, Turn(v))
  {
    assert Turn(Turn(Turn(Turn(v)))) == v;
  }

  /** One matrix after another is their product. */
  lemma ColumnOfColumn(n: Four, m: Four, v: Four)
    ensures Column(n, Column(m, v)) == Column(Product(n, m), v)
  {
    RowOfColumn(n, m, v);
    RowOfColumn(n, m, Turn(v));
    RowOfColumn(n, m, Turn(Turn(v)));
    RowOfColumn(n, m, Turn(Turn(Turn(v))));
    ColumnTurns(m, v);
    ColumnTurns(m, Turn(v));
    ColumnTurns(m, Turn(Turn(v)));
  }

  // ---- the mix and its inverse ---------------------------------------------------------------

  const MIX: Four := [2, 3, 1, 1]
  const UNMIX: Four := [14, 11, 13, 9]
  const ONE: Four := [1, 0, 0, 0]

  lemma ByTwo(x: u8)
    requires x < 0x80
    ensures Times(x, 2) == 2 * x == Times(2, x)
  {
    DoubleIsTimesTwo(x);
    DoubleLow(x);
    Commutative(x, 2);
  }

  lemma ByThree(x: u8, r: u8)
    requires x < 0x80 && XorByte(x, 2 * x) == r && XorByte(1, 2) == 3
    ensures Times(x, 3) == r == Times(3, x)
  {
    ByTwo(x);
    TimesOne(x);
    Distributes(x, 1, 2);
    Commutative(x, 3);
  }

  lemma SmallXors()
    ensures XorByte(0x01, 0x02) == 0x03 && XorByte(0x09, 0x12) == 0x1b && XorByte(0x0b, 0x16) == 0x1d
    ensures XorByte(0x0d, 0x1a) == 0x17 && XorByte(0x0e, 0x1c) == 0x12
  {
    XorIs(0x01, 0x02, 0x03);
    XorIs(0x09, 0x12, 0x1b);
    XorIs(0x0b, 0x16, 0x1d);
    XorIs(0x0d, 0x1a, 0x17);
    XorIs(0x0e, 0x1c, 0x12);
  }

  lemma Ones()
    ensures forall x: u8 {:trigger Times(x, 1)} :: Times(x, 1) == x
    ensures forall x: u8 {:trigger Times(1, x)} :: Times(1, x) == x
  {
    forall x: u8 ensures Times(x, 1) == x && Times(1, x) == x { TimesOne(x); }
  }

  lemma Twos()
    ensures Times(9, 2) == 0x12 && Times(11, 2) == 0x16 && Times(13, 2) == 0x1a && Times(14, 2) == 0x1c
    ensures Times(2, 9) == 0x12 && Times(2, 11) == 0x16 && Times(2, 13) == 0x1a && Times(2, 14) == 0x1c
  {
    ByTwo(9);
    ByTwo(11);
    ByTwo(13);
    ByTwo(14);
  }

  lemma Threes()
    ensures Times(9, 3) == 0x1b && Times(11, 3) == 0x1d && Times(13, 3) == 0x17 && Times(14, 3) == 0x12
    ensures Times(3, 9) == 0x1b && Times(3, 11) == 0x1d && Times(3, 13) == 0x17 && Times(3, 14) == 0x12
  {
    SmallXors();
    ByThree(9, 0x1b);
    ByThree(11, 0x1d);
    ByThree(13, 0x17);
    ByThree(14, 0x12);
  }

  lemma UnmixEntry0Xors()
    ensures XorByte(0x1c, 0x0b) == 0x17
    ensures XorByte(0x0d, 0x1b) == 0x16
    ensures XorByte(0x17, 0x16) == 0x01
  {
    XorIs(0x1c, 0x0b, 0x17);
    XorIs(0x0d, 0x1b, 0x16);
    XorIs(0x17, 0x16, 0x01);
  }

  lemma UnmixEntry0()
    ensures Entry(UNMIX, [2, 3, 1, 1]) == 1
  {
    UnmixEntry0Xors();
    Ones();
    Twos();
    Threes();
  }

  lemma UnmixEntry1Xors()
    ensures XorByte(0x12, 0x16) == 0x04
    ensures XorByte(0x0d, 0x09) == 0x04
    ensures XorByte(0x04, 0x04) == 0x00
  {
    XorIs(0x12, 0x16, 0x04);
    XorIs(0x0d, 0x09, 0x04);
    XorIs(0x04, 0x04, 0x00);
  }

  lemma UnmixEntry1()
    ensures Entry(UNMIX, [3, 1, 1, 2]) == 0
  {
    UnmixEntry1Xors();
    Ones();
    Twos();
    Threes();
  }

  lemma UnmixEntry2Xors()
    ensures XorByte(0x0e, 0x1d) == 0x13
    ensures XorByte(0x1a, 0x09) == 0x13
    ensures XorByte(0x13, 0x13) == 0x00
  {
    XorIs(0x0e, 0x1d, 0x13);
    XorIs(0x1a, 0x09, 0x13);
    XorIs(0x13, 0x13, 0x00);
  }

  lemma UnmixEntry2()
    ensures Entry(UNMIX, [1, 1, 2, 3]) == 0
  {
    UnmixEntry2Xors();
    Ones();
    Twos();
    Threes();
  }

  lemma UnmixEntry3Xors()
    ensures XorByte(0x0e, 0x0b) == 0x05
    ensures XorByte(0x17, 0x12) == 0x05
    ensures XorByte(0x05, 0x05) == 0x00
  {
    XorIs(0x0e, 0x0b, 0x05);
    XorIs(0x17, 0x12, 0x05);
    XorIs(0x05, 0x05, 0x00);
  }

  lemma UnmixEntry3()
    ensures Entry(UNMIX, [1, 2, 3, 1]) == 0
  {
    UnmixEntry3Xors();
    Ones();
    Twos();
    Threes();
  }

  lemma MixEntry0Xors()
    ensures XorByte(0x1c, 0x1b) == 0x07
    ensures XorByte(0x0d, 0x0b) == 0x06
    ensures XorByte(0x07, 0x06) == 0x01
  {
    XorIs(0x1c, 0x1b, 0x07);
    XorIs(0x0d, 0x0b, 0x06);
    XorIs(0x07, 0x06, 0x01);
  }

  lemma MixEntry0()
    ensures Entry(MIX, [14, 11, 13, 9]) == 1
  {
    MixEntry0Xors();
    Ones();
    Twos();
    Threes();
  }

  lemma MixEntry1Xors()
    ensures XorByte(0x16, 0x12) == 0x04
    ensures XorByte(0x09, 0x0d) == 0x04
    ensures XorByte(0x04, 0x04) == 0x00
  {
    XorIs(0x16, 0x12, 0x04);
    XorIs(0x09, 0x0d, 0x04);
    XorIs(0x04, 0x04, 0x00);
  }

  lemma MixEntry1()
    ensures Entry(MIX, [11, 13, 9, 14]) == 0
  {
    MixEntry1Xors();
    Ones();
    Twos();
    Threes();
  }

  lemma MixEntry2Xors()
    ensures XorByte(0x1a, 0x1d) == 0x07
    ensures XorByte(0x0e, 0x09) == 0x07
    ensures XorByte(0x07, 0x07) == 0x00
  {
    XorIs(0x1a, 0x1d, 0x07);
    XorIs(0x0e, 0x09, 0x07);
    XorIs(0x07, 0x07, 0x00);
  }

  lemma MixEntry2()
    ensures Entry(MIX, [13, 9, 14, 11]) == 0
  {
    MixEntry2Xors();
    Ones();
    Twos();
    Threes();
  }

  lemma MixEntry3Xors()
    ensures XorByte(0x12, 0x17) == 0x05
    ensures XorByte(0x0b, 0x0e) == 0x05
    ensures XorByte(0x05, 0x05) == 0x00
  {
    XorIs(0x12, 0x17, 0x05);
    XorIs(0x0b, 0x0e, 0x05);
    XorIs(0x05, 0x05, 0x00);
  }

  lemma MixEntry3()
    ensures Entry(MIX, [9, 14, 11, 13]) == 0
  {
    MixEntry3Xors();
    Ones();
    Twos();
    Threes();
  }

  lemma IdentityColumn(v: Four)
    ensures Column(ONE, v) == v
  {
    IdentityRow(v);
    IdentityRow(Turn(v));
    IdentityRow(Turn(Turn(v)));
    IdentityRow(Turn(Turn(Turn(v))));
    FirstsInTurn(v);
  }

  lemma FirstsInTurn(v: Four)
    ensures v == [v[0], Turn(v)[0], Turn(Turn(v))[0], Turn(Turn(Turn(v)))[0]]
  {
  }

  lemma IdentityRow(v: Four)
    ensures Row(ONE, v) == v[0]
  {
    var g := Sums();
    SumsLaws();
    TimesOne(v[0]);
    TimesZero(v[1]);
    TimesZero(v[2]);
    TimesZero(v[3]);
    ZeroLaws(g, v[0]);
    ZeroLaws(g, g.zero);
  }

  lemma TimesZero(a: u8)
    ensures Times(a, 0) == 0
  {
    SumsLaws();
    TimesAddsRight(a);
    AdditiveZero(Sums(), TimesOf(a));
  }

  /** The two matrices are inverse. */
  lemma ProductsOne()
    ensures Product(UNMIX, MIX) == ONE && Product(MIX, UNMIX) == ONE
  {
    UnmixEntry0();
    UnmixEntry1();
    UnmixEntry2();
    UnmixEntry3();
    MixEntry0();
    MixEntry1();
    MixEntry2();
    MixEntry3();
  }

  lemma ColumnsInverse(v: Four)
    ensures Column(UNMIX, Column(MIX, v)) == v && Column(MIX, Column(UNMIX, v)) == v
  {
    ColumnOfColumn(UNMIX, MIX, v);
    ColumnOfColumn(MIX, UNMIX, v);
    ProductsOne();
    IdentityColumn(v);
  }
}
