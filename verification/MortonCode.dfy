/**
 The table-driven computation of a tile's 64-bit morton code: the bits of row and column are spread by eight
 look-ups in a table of 256 entries, shifted into place and combined by bitwise or.

 Words are natural numbers; a shift to the left drops what does not fit 64 bits.
 */
module MortonCode {
  import opened TileKeys

  const WORD: nat := 0x1_0000_0000_0000_0000

  /** The bits of `n` with a zero before each. */
  function Spread(n: nat): nat {
    if n == 0 then 0 else 4 * Spread(n / 2) + n % 2
  }

  // The table, in rows of 16 entries.

  function RowFrom(x: nat): seq<nat> {
    [x, x + 0x01, x + 0x04, x + 0x05, x + 0x10, x + 0x11, x + 0x14, x + 0x15,
     x + 0x40, x + 0x41, x + 0x44, x + 0x45, x + 0x50, x + 0x51, x + 0x54, x + 0x55]
  }

  function FirstRows(h: nat): (row: seq<nat>)
    requires 0 <= h < 4
    ensures row == RowFrom(256 * RowFrom(0)[h])
  {
    if h == 0 then
      [0x0000, 0x0001, 0x0004, 0x0005, 0x0010, 0x0011, 0x0014, 0x0015,
       0x0040, 0x0041, 0x0044, 0x0045, 0x0050, 0x0051, 0x0054, 0x0055]
    else if h == 1 then
      [0x0100, 0x0101, 0x0104, 0x0105, 0x0110, 0x0111, 0x0114, 0x0115,
       0x0140, 0x0141, 0x0144, 0x0145, 0x0150, 0x0151, 0x0154, 0x0155]
    else if h == 2 then
      [0x0400, 0x0401, 0x0404, 0x0405, 0x0410, 0x0411, 0x0414, 0x0415,
       0x0440, 0x0441, 0x0444, 0x0445, 0x0450, 0x0451, 0x0454, 0x0455]
    else
      [0x0500, 0x0501, 0x0504, 0x0505, 0x0510, 0x0511, 0x0514, 0x0515,
       0x0540, 0x0541, 0x0544, 0x0545, 0x0550, 0x0551, 0x0554, 0x0555]
  }

  function SecondRows(h: nat): (row: seq<nat>)
    requires 4 <= h < 8
    ensures row == RowFrom(256 * RowFrom(0)[h])
  {
    if h == 4 then
      [0x1000, 0x1001, 0x1004, 0x1005, 0x1010, 0x1011, 0x1014, 0x1015,
       0x1040, 0x1041, 0x1044, 0x1045, 0x1050, 0x1051, 0x1054, 0x1055]
    else if h == 5 then
      [0x1100, 0x1101, 0x1104, 0x1105, 0x1110, 0x1111, 0x1114, 0x1115,
       0x1140, 0x1141, 0x1144, 0x1145, 0x1150, 0x1151, 0x1154, 0x1155]
    else if h == 6 then
      [0x1400, 0x1401, 0x1404, 0x1405, 0x1410, 0x1411, 0x1414, 0x1415,
       0x1440, 0x1441, 0x1444, 0x1445, 0x1450, 0x1451, 0x1454, 0x1455]
    else
      [0x1500, 0x1501, 0x1504, 0x1505, 0x1510, 0x1511, 0x1514, 0x1515,
       0x1540, 0x1541, 0x1544, 0x1545, 0x1550, 0x1551, 0x1554, 0x1555]
  }

  function ThirdRows(h: nat): (row: seq<nat>)
    requires 8 <= h < 12
    ensures row == RowFrom(256 * RowFrom(0)[h])
  {
    if h == 8 then
      [0x4000, 0x4001, 0x4004, 0x4005, 0x4010, 0x4011, 0x4014, 0x4015,
       0x4040, 0x4041, 0x4044, 0x4045, 0x4050, 0x4051, 0x4054, 0x4055]
    else if h == 9 then
      [0x4100, 0x4101, 0x4104, 0x4105, 0x4110, 0x4111, 0x4114, 0x4115,
       0x4140, 0x4141, 0x4144, 0x4145, 0x4150, 0x4151, 0x4154, 0x4155]
    else if h == 10 then
      [0x4400, 0x4401, 0x4404, 0x4405, 0x4410, 0x4411, 0x4414, 0x4415,
       0x4440, 0x4441, 0x4444, 0x4445, 0x4450, 0x4451, 0x4454, 0x4455]
    else
      [0x4500, 0x4501, 0x4504, 0x4505, 0x4510, 0x4511, 0x4514, 0x4515,
       0x4540, 0x4541, 0x4544, 0x4545, 0x4550, 0x4551, 0x4554, 0x4555]
  }

  function LastRows(h: nat): (row: seq<nat>)
    requires 12 <= h < 16
    ensures row == RowFrom(256 * RowFrom(0)[h])
  {
    if h == 12 then
      [0x5000, 0x5001, 0x5004, 0x5005, 0x5010, 0x5011, 0x5014, 0x5015,
       0x5040, 0x5041, 0x5044, 0x5045, 0x5050, 0x5051, 0x5054, 0x5055]
    else if h == 13 then
      [0x5100, 0x5101, 0x5104, 0x5105, 0x5110, 0x5111, 0x5114, 0x5115,
       0x5140, 0x5141, 0x5144, 0x5145, 0x5150, 0x5151, 0x5154, 0x5155]
    else if h == 14 then
      [0x5400, 0x5401, 0x5404, 0x5405, 0x5410, 0x5411, 0x5414, 0x5415,
       0x5440, 0x5441, 0x5444, 0x5445, 0x5450, 0x5451, 0x5454, 0x5455]
    else
      [0x5500, 0x5501, 0x5504, 0x5505, 0x5510, 0x5511, 0x5514, 0x5515,
       0x5540, 0x5541, 0x5544, 0x5545, 0x5550, 0x5551, 0x5554, 0x5555]
  }

  function MortonTable(i: nat): nat
    requires i < 256
  {
    var h := i / 16;
    var row := if h < 4 then FirstRows(h) else if h < 8 then SecondRows(h)
               else if h < 12 then ThirdRows(h) else LastRows(h);
    row[i % 16]
  }

  lemma RowFromSpread(x: nat, l: nat)
    requires l < 16
    ensures |RowFrom(x)| == 16 && RowFrom(x)[l] == x + Spread(l)
  {
  }

  /** Every entry of the table is its index with the bits spread. */
  lemma TableSpreads(i: nat)
    requires i < 256
    ensures MortonTable(i) == Spread(i)
  {
    hide FirstRows, SecondRows, ThirdRows, LastRows, Spread, RowFrom, Pow;
    var h, l := i / 16, i % 16;
    NibbleSplit(h, l);
    RowFromSpread(0, h);
    RowFromSpread(256 * Spread(h), l);
  }

  lemma NibbleSplit(h: nat, l: nat)
    requires l < 16
    ensures Spread(h * 16 + l) == Spread(h) * 256 + Spread(l)
  {
    assert Pow(2, 4) == 16 && Pow(4, 4) == 256;
    SpreadSplit(h, l, 4);
  }

  // Spreading.

  lemma {:induction false} SpreadSplit(a: nat, b: nat, k: nat)
    requires b < Pow(2, k)
    ensures Spread(a * Pow(2, k) + b) == Spread(a) * Pow(4, k) + Spread(b)
    decreases k
  {
    hide Spread;
    if k == 0 {
      SpreadZero();
    } else {
      var p, q := Pow(2, k - 1), Pow(4, k - 1);
      assert Pow(2, k) == 2 * p && Pow(4, k) == 4 * q;
      SpreadSplit(a, b / 2, k - 1);
      hide *;
      DoubleShift(a, p, b);
      SpreadHalf(a * (2 * p) + b, a * p + b / 2, b % 2);
      SpreadHalf(b, b / 2, b % 2);
      QuadShift(Spread(a), q);
    }
  }

  lemma SpreadZero()
    ensures Spread(0) == 0
  {
  }

  lemma SpreadHalf(n: nat, half: nat, bit: nat)
    requires n == 2 * half + bit && bit < 2
    ensures Spread(n) == 4 * Spread(half) + bit
  {
    assert n / 2 == half && n % 2 == bit;
  }

  lemma DoubleShift(a: nat, p: nat, b: nat)
    ensures a * (2 * p) + b == 2 * (a * p + b / 2) + b % 2
  {
  }

  lemma QuadShift(a: nat, q: nat)
    ensures a * (4 * q) == 4 * (a * q)
  {
  }

  /** Spread bits fill at most a third of the range, so three of them do not meet the next power. */
  lemma {:induction false} SpreadBound(n: nat, k: nat)
    requires n < Pow(2, k)
    ensures 3 * Spread(n) < Pow(4, k)
    decreases k
  {
    if k > 0 && n > 0 {
      SpreadBound(n / 2, k - 1);
    } else {
      PowMonotone(4, 0, k);
    }
  }

  /** The morton code in closed form: the leading one, the row's bits on odd places, the column's on even ones. */
  lemma {:induction false} QuadKeyClosed(t: TileKey)
    requires InGrid(t)
    ensures QuadKey64(t) == Pow(4, t.level) + 2 * Spread(t.row) + Spread(t.column)
    decreases t.level
  {
    if t.level > 0 {
      ChildOfParent(t);
      QuadKeyClosed(Parent(t));
      SpreadHalf(t.row, t.row / 2, t.row % 2);
      SpreadHalf(t.column, t.column / 2, t.column % 2);
    }
  }

  // Bitwise or.

  function BitOr(a: nat, b: nat): nat {
    if a == 0 && b == 0 then 0
    else 2 * BitOr(a / 2, b / 2) + (if a % 2 == 1 || b % 2 == 1 then 1 else 0)
  }

  lemma OrHalves(a: nat, b: nat)
    ensures BitOr(a, b) / 2 == BitOr(a / 2, b / 2)
    ensures BitOr(a, b) % 2 == if a % 2 == 1 || b % 2 == 1 then 1 else 0
  {
  }

  lemma {:induction false} OrAssociative(a: nat, b: nat, c: nat)
    ensures BitOr(BitOr(a, b), c) == BitOr(a, BitOr(b, c))
    decreases a + b + c
  {
    OrHalves(a, b);
    OrHalves(b, c);
    if a + b + c > 0 {
      OrAssociative(a / 2, b / 2, c / 2);
    }
    OrHalves(BitOr(a, b), c);
    OrHalves(a, BitOr(b, c));
  }

  lemma {:induction false} OrZero(b: nat)
    ensures BitOr(0, b) == b
  {
    if b > 0 {
      OrZero(b / 2);
    }
  }

  /** Where the low places of one word are empty and the other fills only those, or is addition. */
  lemma {:induction false} OrHigh(a: nat, b: nat, k: nat)
    requires b < Pow(2, k)
    ensures BitOr(a * Pow(2, k), b) == a * Pow(2, k) + b
    decreases k
  {
    if k == 0 {
      OrZeroRight(a);
    } else {
      var p := Pow(2, k - 1);
      OrHigh(a, b / 2, k - 1);
      DoubleShift(a, p, 0);
      OrHalves(2 * (a * p), b);
    }
  }

  lemma {:induction false} OrZeroRight(a: nat)
    ensures BitOr(a, 0) == a
  {
    if a > 0 {
      OrZeroRight(a / 2);
    }
  }

  /** Spread bits and spread bits shifted by one place do not meet. */
  lemma {:induction false} OrInterleaves(r: nat, c: nat)
    ensures BitOr(2 * Spread(r), Spread(c)) == 2 * Spread(r) + Spread(c)
    decreases r + c
  {
    if r + c > 0 {
      hide Spread, BitOr;
      OrInterleaves(r / 2, c / 2);
      SpreadHalf(r, r / 2, r % 2);
      SpreadHalf(c, c / 2, c % 2);
      OrPair(Spread(r / 2), r % 2, Spread(c / 2), c % 2);
    }
  }

  lemma OrPair(s: nat, x: nat, u: nat, y: nat)
    requires x < 2 && y < 2
    ensures BitOr(2 * (4 * s + x), 4 * u + y) == 4 * BitOr(2 * s, u) + 2 * x + y
  {
    hide BitOr;
    OrStep(4 * s + x, 0, 2 * u, y);
    OrStep(2 * s, x, u, 0);
  }

  lemma OrStep(a: nat, i: nat, b: nat, j: nat)
    requires i < 2 && j < 2
    ensures BitOr(2 * a + i, 2 * b + j) == 2 * BitOr(a, b) + if i == 1 || j == 1 then 1 else 0
  {
    assert (2 * a + i) / 2 == a && (2 * a + i) % 2 == i && (2 * b + j) / 2 == b && (2 * b + j) % 2 == j;
  }

  // The computation.

  function ShiftLeft(x: nat, n: nat): nat {
    x * Pow(2, n) % WORD
  }

  /** The n-th byte: `(x >> 8n) & 0xFF`. */
  function ByteOf(x: nat, n: nat): (b: nat)
    ensures b < 256
  {
    var p := Pow(2, 8 * n);
    if p == 0 then 0 else x / p % 256
  }

  function ToQuadKey64(t: TileKey): nat {
    var top := ShiftLeft(1, 2 * t.level);
    var r3 := BitOr(top, ShiftLeft(MortonTable(ByteOf(t.row, 3)), 49));
    var r2 := BitOr(r3, ShiftLeft(MortonTable(ByteOf(t.row, 2)), 33));
    var r1 := BitOr(r2, ShiftLeft(MortonTable(ByteOf(t.row, 1)), 17));
    var r0 := BitOr(r1, ShiftLeft(MortonTable(ByteOf(t.row, 0)), 1));
    var c3 := BitOr(r0, ShiftLeft(MortonTable(ByteOf(t.column, 3)), 48));
    var c2 := BitOr(c3, ShiftLeft(MortonTable(ByteOf(t.column, 2)), 32));
    var c1 := BitOr(c2, ShiftLeft(MortonTable(ByteOf(t.column, 1)), 16));
    BitOr(c1, MortonTable(ByteOf(t.column, 0)))
  }

  lemma Powers()
    ensures Pow(2, 1) == 2 && Pow(2, 8) == 0x100 && Pow(4, 8) == 0x1_0000
    ensures Pow(2, 16) == 0x1_0000 && Pow(2, 17) == 0x2_0000 && Pow(2, 24) == 0x100_0000
    ensures Pow(2, 32) == 0x1_0000_0000 && Pow(2, 33) == 0x2_0000_0000
    ensures Pow(2, 48) == 0x1_0000_0000_0000 && Pow(2, 49) == 0x2_0000_0000_0000
  {
    PowSum(2, 8, 8);
    PowSum(2, 16, 8);
    PowSum(2, 16, 16);
    PowSum(2, 32, 16);
  }

  lemma ByteBound(b: nat)
    requires b < 256
    ensures Spread(b) < 0x1_0000
  {
    Powers();
    SpreadBound(b, 8);
  }

  /** Four spread bytes in their places, with a factor of one or two for columns or rows. */
  lemma OrBytes(a: nat, b: nat, c: nat, d: nat)
    requires a < 0x1_0000 && b < 0x1_0000 && c < 0x1_0000 && d < 0x1_0000
    ensures BitOr(BitOr(BitOr(a * 0x1_0000_0000_0000, b * 0x1_0000_0000), c * 0x1_0000), d) ==
            ((a * 0x1_0000 + b) * 0x1_0000 + c) * 0x1_0000 + d
    ensures BitOr(BitOr(BitOr(a * 0x2_0000_0000_0000, b * 0x2_0000_0000), c * 0x2_0000), d * 2) ==
            2 * (((a * 0x1_0000 + b) * 0x1_0000 + c) * 0x1_0000 + d)
  {
    Powers();
    hide BitOr, Pow;
    var h := a * 0x1_0000 + b;
    var i := h * 0x1_0000 + c;
    OrHigh(a, b * 0x1_0000_0000, 48);
    OrHigh(h, c * 0x1_0000, 32);
    OrHigh(i, d, 16);
    OrHigh(a, b * 0x2_0000_0000, 49);
    OrHigh(h, c * 0x2_0000, 33);
    OrHigh(i, d * 2, 17);
  }

  lemma BytesOf(x: nat)
    requires x < 0x1_0000_0000
    ensures ByteOf(x, 0) == x % 256 && ByteOf(x, 1) == x / 256 % 256
    ensures ByteOf(x, 2) == x / 256 / 256 % 256 && ByteOf(x, 3) == x / 256 / 256 / 256
  {
    Powers();
    assert Pow(2, 0) == 1;
    hide Pow;
    assert x / 0x1_0000 == x / 256 / 256 && x / 0x100_0000 == x / 256 / 256 / 256;
  }

  lemma WordSpreads(x: nat)
    requires x < 0x1_0000_0000
    ensures Spread(x) == ((Spread(ByteOf(x, 3)) * 0x1_0000 + Spread(ByteOf(x, 2))) * 0x1_0000
                          + Spread(ByteOf(x, 1))) * 0x1_0000 + Spread(ByteOf(x, 0))
  {
    hide *;
    LowByte(x);
    LowByte(x / 256);
    LowByte(x / 256 / 256);
    BytesOf(x);
  }

  lemma LowByte(x: nat)
    ensures Spread(x) == Spread(x / 256) * 0x1_0000 + Spread(x % 256)
  {
    Powers();
    hide Pow, Spread;
    SpreadSplit(x / 256, x % 256, 8);
    assert x / 256 * 256 + x % 256 == x;
  }

  /** Words combined one after the other, and grouped into the first, the next four and the last four. */
  lemma Regroup(l: nat, a: nat, b: nat, c: nat, d: nat, e: nat, f: nat, g: nat, h: nat)
    ensures BitOr(BitOr(BitOr(BitOr(BitOr(BitOr(BitOr(BitOr(l, a), b), c), d), e), f), g), h) ==
            BitOr(l, BitOr(BitOr(BitOr(BitOr(a, b), c), d), BitOr(BitOr(BitOr(e, f), g), h)))
  {
    hide BitOr;
    var r := BitOr(BitOr(BitOr(a, b), c), d);
    RegroupFour(l, a, b, c, d);
    RegroupFour(BitOr(l, r), e, f, g, h);
    OrAssociative(l, r, BitOr(BitOr(BitOr(e, f), g), h));
  }

  lemma RegroupFour(l: nat, a: nat, b: nat, c: nat, d: nat)
    ensures BitOr(BitOr(BitOr(BitOr(l, a), b), c), d) == BitOr(l, BitOr(BitOr(BitOr(a, b), c), d))
  {
    hide BitOr;
    OrAssociative(l, a, b);
    OrAssociative(l, BitOr(a, b), c);
    OrAssociative(l, BitOr(BitOr(a, b), c), d);
  }

  /** What a look-up shifts into place: on the levels 0 to 31 no bit is dropped. */
  lemma Shifted(x: nat)
    requires x < 0x8000_0000
    ensures ShiftLeft(MortonTable(ByteOf(x, 3)), 49) == Spread(ByteOf(x, 3)) * 0x2_0000_0000_0000
    ensures ShiftLeft(MortonTable(ByteOf(x, 2)), 33) == Spread(ByteOf(x, 2)) * 0x2_0000_0000
    ensures ShiftLeft(MortonTable(ByteOf(x, 1)), 17) == Spread(ByteOf(x, 1)) * 0x2_0000
    ensures ShiftLeft(MortonTable(ByteOf(x, 0)), 1) == Spread(ByteOf(x, 0)) * 2
    ensures ShiftLeft(MortonTable(ByteOf(x, 3)), 48) == Spread(ByteOf(x, 3)) * 0x1_0000_0000_0000
    ensures ShiftLeft(MortonTable(ByteOf(x, 2)), 32) == Spread(ByteOf(x, 2)) * 0x1_0000_0000
    ensures ShiftLeft(MortonTable(ByteOf(x, 1)), 16) == Spread(ByteOf(x, 1)) * 0x1_0000
    ensures MortonTable(ByteOf(x, 0)) == Spread(ByteOf(x, 0))
  {
    BytesOf(x);
    hide *;
    assert ByteOf(x, 3) < 128;
    HighByteBound(ByteOf(x, 3));
    ByteBound(ByteOf(x, 2));
    ByteBound(ByteOf(x, 1));
    ByteBound(ByteOf(x, 0));
    TableSpreads(ByteOf(x, 3));
    TableSpreads(ByteOf(x, 2));
    TableSpreads(ByteOf(x, 1));
    TableSpreads(ByteOf(x, 0));
    Powers();
    ShiftFits(Spread(ByteOf(x, 3)), 49, 0x2_0000_0000_0000);
    ShiftFits(Spread(ByteOf(x, 2)), 33, 0x2_0000_0000);
    ShiftFits(Spread(ByteOf(x, 1)), 17, 0x2_0000);
    ShiftFits(Spread(ByteOf(x, 0)), 1, 2);
    ShiftFits(Spread(ByteOf(x, 3)), 48, 0x1_0000_0000_0000);
    ShiftFits(Spread(ByteOf(x, 2)), 32, 0x1_0000_0000);
    ShiftFits(Spread(ByteOf(x, 1)), 16, 0x1_0000);
  }

  lemma ShiftFits(x: nat, n: nat, p: nat)
    requires Pow(2, n) == p && x * p < 0x1_0000_0000_0000_0000
    ensures ShiftLeft(x, n) == x * p
  {
  }

  lemma HighByteBound(b: nat)
    requires b < 128
    ensures Spread(b) < 0x2000
  {
    assert Pow(2, 7) == 128 && Pow(4, 7) == 0x4000;
    SpreadBound(b, 7);
  }

  lemma {:induction false} PowSquare(n: nat)
    ensures Pow(2, 2 * n) == Pow(4, n)
  {
    if n > 0 {
      PowSquare(n - 1);
      assert Pow(2, 2 * n) == 2 * Pow(2, 2 * n - 1) == 4 * Pow(2, 2 * (n - 1));
    }
  }

  lemma TopBit(t: TileKey)
    requires InGrid(t) && t.level <= 31
    ensures t.row < 0x8000_0000 && t.column < 0x8000_0000
    ensures var x := 2 * Spread(t.row) + Spread(t.column);
            BitOr(ShiftLeft(1, 2 * t.level), x) == Pow(4, t.level) + x
  {
    hide Spread, BitOr, Pow, ShiftLeft;
    PowMonotone(2, t.level, 31);
    PowMonotone(4, t.level, 31);
    PowersOfTwo();
    PowSquare(t.level);
    ShiftFits(1, 2 * t.level, Pow(4, t.level));
    SpreadBound(t.row, t.level);
    SpreadBound(t.column, t.level);
    OrHigh(1, 2 * Spread(t.row) + Spread(t.column), 2 * t.level);
  }

  lemma OrWord(x: nat)
    requires x < 0x8000_0000
    ensures BitOr(BitOr(BitOr(Spread(ByteOf(x, 3)) * 0x1_0000_0000_0000, Spread(ByteOf(x, 2)) * 0x1_0000_0000),
                        Spread(ByteOf(x, 1)) * 0x1_0000), Spread(ByteOf(x, 0))) == Spread(x)
    ensures BitOr(BitOr(BitOr(Spread(ByteOf(x, 3)) * 0x2_0000_0000_0000, Spread(ByteOf(x, 2)) * 0x2_0000_0000),
                        Spread(ByteOf(x, 1)) * 0x2_0000), Spread(ByteOf(x, 0)) * 2) == 2 * Spread(x)
  {
    hide *;
    WordSpreads(x);
    ByteBound(ByteOf(x, 3));
    ByteBound(ByteOf(x, 2));
    ByteBound(ByteOf(x, 1));
    ByteBound(ByteOf(x, 0));
    OrBytes(Spread(ByteOf(x, 3)), Spread(ByteOf(x, 2)), Spread(ByteOf(x, 1)), Spread(ByteOf(x, 0)));
  }

  /** The code that the eight look-ups compute is the morton code, for every tile of the levels 0 to 31. */
  lemma LookUpsAreQuadKey(t: TileKey)
    requires InGrid(t) && t.level <= 31
    ensures ToQuadKey64(t) == QuadKey64(t)
  {
    hide Spread, MortonTable, ByteOf, BitOr, ShiftLeft, QuadKey64, Pow, InGrid;
    var r, c := t.row, t.column;
    TopBit(t);
    QuadKeyClosed(t);
    OrInterleaves(r, c);
    OrWord(r);
    OrWord(c);
    Shifted(r);
    Shifted(c);
    Regroup(ShiftLeft(1, 2 * t.level),
            Spread(ByteOf(r, 3)) * 0x2_0000_0000_0000, Spread(ByteOf(r, 2)) * 0x2_0000_0000,
            Spread(ByteOf(r, 1)) * 0x2_0000, Spread(ByteOf(r, 0)) * 2,
            Spread(ByteOf(c, 3)) * 0x1_0000_0000_0000, Spread(ByteOf(c, 2)) * 0x1_0000_0000,
            Spread(ByteOf(c, 1)) * 0x1_0000, Spread(ByteOf(c, 0)));
  }
}
