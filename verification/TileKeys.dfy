/**
 Tiles of the quad tree, as addressed by row, column and level.

 Rows and columns are unbounded here. On the levels a `TileKey` may have (0 to 31) they fit the
 original's 32-bit fields, and the quad key fits its 64-bit field; `FitsMachineWords` proves both.
 */
module TileKeys {
  import opened Decimals

  datatype TileKey = TileKey(row: nat, column: nat, level: nat)

  const LEVEL_COUNT: nat := 32
  const ROOT := TileKey(0, 0, 0)
  const INVALID := TileKey(0, 0, LEVEL_COUNT)

  function Pow(b: nat, n: nat): nat {
    if n == 0 then 1 else b * Pow(b, n - 1)
  }

  /** The tile lies in the square of 2^level rows and columns. */
  predicate InGrid(t: TileKey) {
    t.row < Pow(2, t.level) && t.column < Pow(2, t.level)
  }

  function Parent(t: TileKey): TileKey {
    if t.level > 0 then TileKey(t.row / 2, t.column / 2, t.level - 1) else INVALID
  }

  function GetChild(t: TileKey, index: nat): TileKey
    requires index < 4
  {
    TileKey(2 * t.row + index / 2, 2 * t.column + index % 2, t.level + 1)
  }

  /** Which of its parent's four children the tile is. */
  function Quadrant(t: TileKey): nat {
    2 * (t.row % 2) + t.column % 2
  }

  /** The ancestor `n` levels up. */
  function Up(t: TileKey, n: nat): (a: TileKey)
    requires n <= t.level
    ensures a.level == t.level - n
    decreases n
  {
    if n == 0 then t else Up(Parent(t), n - 1)
  }

  /** `s` is `a` itself or one of its descendants. */
  predicate Under(s: TileKey, a: TileKey) {
    a.level <= s.level && Up(s, s.level - a.level) == a
  }

  /** The 64-bit morton code: a leading 1 followed by the quadrants from the root down. */
  function QuadKey64(t: TileKey): (k: nat)
    ensures k >= 1
    decreases t.level
  {
    if t.level == 0 then 1 else 4 * QuadKey64(Parent(t)) + Quadrant(t)
  }

  /** The tile a morton code stands for. */
  function TileOf(k: nat): (t: TileKey)
    ensures InGrid(t)
  {
    if k <= 1 then ROOT else GetChild(TileOf(k / 4), k % 4)
  }

  // Children and parents.

  lemma ChildOfParent(t: TileKey)
    requires t.level > 0
    ensures GetChild(Parent(t), Quadrant(t)) == t
    ensures InGrid(t) <==> InGrid(Parent(t))
  {
  }

  lemma ParentOfChild(t: TileKey, index: nat)
    requires index < 4
    ensures Parent(GetChild(t, index)) == t && Quadrant(GetChild(t, index)) == index
    ensures InGrid(t) <==> InGrid(GetChild(t, index))
  {
    ChildOfParent(GetChild(t, index));
  }

  lemma {:induction false} UpGrid(t: TileKey, n: nat)
    requires n <= t.level
    ensures InGrid(t) <==> InGrid(Up(t, n))
    decreases n
  {
    if n > 0 {
      ChildOfParent(t);
      UpGrid(Parent(t), n - 1);
    }
  }

  lemma {:induction false} UpUp(t: TileKey, m: nat, n: nat)
    requires m + n <= t.level
    ensures Up(Up(t, m), n) == Up(t, m + n)
    decreases m
  {
    if m > 0 {
      UpUp(Parent(t), m - 1, n);
    }
  }

  lemma UnderTransitive(s: TileKey, m: TileKey, a: TileKey)
    requires Under(s, m) && Under(m, a)
    ensures Under(s, a)
  {
    UpUp(s, s.level - m.level, m.level - a.level);
  }

  /** Two ancestors of one tile are on one branch. */
  lemma AncestorsNest(s: TileKey, a: TileKey, b: TileKey)
    requires Under(s, a) && Under(s, b) && a.level <= b.level
    ensures Under(b, a)
  {
    UpUp(s, s.level - b.level, b.level - a.level);
  }

  /** Below `t`, strictly: exactly what lies below one of its four children. */
  lemma UnderChildren(s: TileKey, t: TileKey)
    requires InGrid(t)
    ensures (Under(s, t) && s.level > t.level) <==> (exists i: nat :: i < 4 && Under(s, GetChild(t, i)))
  {
    if Under(s, t) && s.level > t.level {
      var c := Up(s, s.level - t.level - 1);
      UpUp(s, s.level - t.level - 1, 1);
      assert Up(c, 1) == Up(Parent(c), 0) == Parent(c);
      ChildOfParent(c);
      assert Under(s, GetChild(t, Quadrant(c)));
    }
    if i: nat :| i < 4 && Under(s, GetChild(t, i)) {
      ParentOfChild(t, i);
      assert Up(GetChild(t, i), 1) == Up(t, 0) == t;
      UnderTransitive(s, GetChild(t, i), t);
    }
  }

  // Names.

  /** Decoding a tile's morton code gives the tile back, so the code names the tile. */
  lemma {:induction false} QuadKeyRoundTrip(t: TileKey)
    requires InGrid(t)
    ensures TileOf(QuadKey64(t)) == t
    decreases t.level
  {
    if t.level > 0 {
      ChildOfParent(t);
      QuadKeyRoundTrip(Parent(t));
      assert QuadKey64(t) / 4 == QuadKey64(Parent(t)) && QuadKey64(t) % 4 == Quadrant(t);
    }
  }

  /** The original's loop: low bits first, each two bits one more level. */
  method FromQuadKey64(quadKey: nat) returns (t: TileKey)
    ensures t == TileOf(quadKey)
  {
    hide TileOf, Shifted;
    var key := quadKey;
    t := ROOT;
    var mask := 1;
    ShiftedEnds(TileOf(key), t, mask);
    while key > 1
      invariant mask == Pow(2, t.level)
      invariant TileOf(quadKey) == Shifted(TileOf(key), t, mask)
    {
      var row := t.row + if key / 2 % 2 == 1 then mask else 0;
      var column := t.column + if key % 2 == 1 then mask else 0;
      DecodeStep(key, t, mask);
      t := TileKey(row, column, t.level + 1);
      mask := 2 * mask;
      key := key / 4;
    }
    DecodeEnds(key);
    ShiftedEnds(TileOf(key), t, mask);
  }

  /** `high` extended by the levels of `low`, where `mask` is 2^low.level. */
  ghost function Shifted(high: TileKey, low: TileKey, mask: nat): TileKey {
    TileKey(high.row * mask + low.row, high.column * mask + low.column, high.level + low.level)
  }

  lemma ShiftedEnds(high: TileKey, low: TileKey, mask: nat)
    ensures high == ROOT ==> Shifted(high, low, mask) == low
    ensures low == ROOT && mask == 1 ==> Shifted(high, low, mask) == high
  {
  }

  lemma DecodeEnds(key: nat)
    requires key <= 1
    ensures TileOf(key) == ROOT
  {
  }

  /** The two lowest bits move from the code to the tile. */
  lemma DecodeStep(key: nat, t: TileKey, mask: nat)
    requires key > 1
    ensures Shifted(TileOf(key), t, mask) ==
            Shifted(TileOf(key / 4), TileKey(t.row + if key / 2 % 2 == 1 then mask else 0,
                                             t.column + if key % 2 == 1 then mask else 0, t.level + 1), 2 * mask)
  {
    assert TileOf(key) == GetChild(TileOf(key / 4), key % 4);
    hide *;
    TwoBits(key, key / 4, key % 4);
    MoveBits(TileOf(key / 4), key % 4, t, mask);
  }

  lemma TwoBits(key: nat, q: nat, r: nat)
    requires key == 4 * q + r && r < 4
    ensures key / 2 % 2 == r / 2 && key % 2 == r % 2
  {
    assert key / 2 == 2 * q + r / 2;
  }

  lemma MoveBits(q: TileKey, index: nat, t: TileKey, mask: nat)
    requires index < 4
    ensures Shifted(GetChild(q, index), t, mask) ==
            Shifted(q, TileKey(t.row + if index / 2 == 1 then mask else 0,
                               t.column + if index % 2 == 1 then mask else 0, t.level + 1), 2 * mask)
  {
    ShiftBit(q.row, index / 2, mask);
    ShiftBit(q.column, index % 2, mask);
  }

  lemma ShiftBit(high: nat, bit: nat, mask: nat)
    requires bit < 2
    ensures (2 * high + bit) * mask == high * (2 * mask) + if bit == 1 then mask else 0
  {
  }

  /** The map key of a tile: its morton code in decimal. */
  function ToHereTile(t: TileKey): string {
    Digits(QuadKey64(t))
  }

  /** No two tiles of the grid share a map key. */
  lemma HereTileInjective(s: TileKey, t: TileKey)
    requires InGrid(s) && InGrid(t) && ToHereTile(s) == ToHereTile(t)
    ensures s == t
  {
    DigitsRoundTrip(QuadKey64(s));
    DigitsRoundTrip(QuadKey64(t));
    QuadKeyRoundTrip(s);
    QuadKeyRoundTrip(t);
  }

  /** Reading a name as a decimal number and decoding that gives the tile back. */
  lemma HereTileRoundTrip(t: TileKey)
    requires InGrid(t)
    ensures Value(ToHereTile(t)) >= 1 && TileOf(Value(ToHereTile(t))) == t
  {
    DigitsRoundTrip(QuadKey64(t));
    QuadKeyRoundTrip(t);
  }

  lemma {:induction false} PowMonotone(b: nat, m: nat, n: nat)
    requires b >= 1 && m <= n
    ensures 1 <= Pow(b, m) <= Pow(b, n)
    decreases n
  {
    if m < n {
      PowMonotone(b, m, n - 1);
      assert Pow(b, n) == b * Pow(b, n - 1) >= Pow(b, n - 1);
    } else if n > 0 {
      PowMonotone(b, m - 1, n - 1);
    }
  }

  lemma {:induction false} QuadKeyBound(t: TileKey)
    ensures Pow(4, t.level) <= QuadKey64(t) < 2 * Pow(4, t.level)
    decreases t.level
  {
    if t.level > 0 {
      QuadKeyBound(Parent(t));
    }
  }

  /** On the levels 0 to 31 rows, columns and morton codes fit the original's fields. */
  lemma FitsMachineWords(t: TileKey)
    requires InGrid(t) && t.level <= 31
    ensures t.row < 0x1_0000_0000 && t.column < 0x1_0000_0000
    ensures QuadKey64(t) < 0x1_0000_0000_0000_0000
  {
    PowMonotone(2, t.level, 31);
    PowMonotone(4, t.level, 31);
    PowersOfTwo();
    QuadKeyBound(t);
  }

  lemma PowersOfTwo()
    ensures Pow(2, 31) == 0x8000_0000 && Pow(4, 31) == 0x4000_0000_0000_0000
  {
    assert Pow(2, 8) == 256 && Pow(4, 8) == 65536;
    PowSum(2, 8, 8);
    PowSum(2, 16, 8);
    PowSum(2, 24, 7);
    PowSum(4, 8, 8);
    PowSum(4, 16, 8);
    PowSum(4, 24, 7);
  }

  lemma {:induction false} PowSum(b: nat, m: nat, n: nat)
    ensures Pow(b, m + n) == Pow(b, m) * Pow(b, n)
  {
    if m > 0 {
      PowSum(b, m - 1, n);
      assert Pow(b, m + n) == b * Pow(b, m - 1 + n) == b * (Pow(b, m - 1) * Pow(b, n));
    }
  }

  /** The tile `n` steps of `tile = tile.Parent()` away; past the root the walk restarts at the invalid key. */
  ghost function ParentWalk(t: TileKey, n: nat): TileKey
    decreases n
  {
    if n == 0 then t else ParentWalk(Parent(t), n - 1)
  }

  lemma {:induction false} WalkIsUp(t: TileKey, n: nat)
    requires n <= t.level
    ensures ParentWalk(t, n) == Up(t, n)
    decreases n
  {
    if n > 0 {
      WalkIsUp(Parent(t), n - 1);
    }
  }

  /** The unguarded walk to the parents leaves the levels `minLevel` and above exactly when `minLevel` is not 0. */
  lemma ParentWalkEnds(t: TileKey, minLevel: nat)
    ensures (exists n: nat :: ParentWalk(t, n).level < minLevel) <==> minLevel >= 1
  {
    if minLevel >= 1 {
      WalkIsUp(t, t.level);
      assert ParentWalk(t, t.level).level < minLevel;
    }
  }

  lemma {:induction false} WalkOn(t: TileKey, m: nat, n: nat)
    ensures ParentWalk(t, m + n) == ParentWalk(ParentWalk(t, m), n)
    decreases m
  {
    if m > 0 {
      WalkOn(Parent(t), m - 1, n);
    }
  }

  lemma {:induction false} UpOfCorner(level: nat, n: nat)
    requires n <= level
    ensures Up(TileKey(0, 0, level), n) == TileKey(0, 0, level - n)
    decreases n
  {
    if n > 0 {
      UpOfCorner(level - 1, n - 1);
    }
  }

  /** Past the root the walk goes on at the invalid key of level 32, from there down to the root, and so on for ever. */
  lemma WalkRestarts(t: TileKey)
    requires InGrid(t)
    ensures ParentWalk(t, t.level) == TileKey(0, 0, 0) && ParentWalk(t, t.level + 1) == TileKey(0, 0, 32)
    ensures ParentWalk(t, t.level + 33) == TileKey(0, 0, 0)
  {
    hide ParentWalk, InGrid, Up;
    ReachesRoot(t);
    WalkOn(t, t.level, 1);
    WalkOn(t, t.level + 1, 32);
    PastRoot();
    WalkIsUp(TileKey(0, 0, 32), 32);
    UpOfCorner(32, 32);
  }

  lemma ReachesRoot(t: TileKey)
    requires InGrid(t)
    ensures ParentWalk(t, t.level) == TileKey(0, 0, 0)
  {
    WalkIsUp(t, t.level);
    UpGrid(t, t.level);
    hide ParentWalk, Up;
  }

  lemma PastRoot()
    ensures ParentWalk(TileKey(0, 0, 0), 1) == TileKey(0, 0, 32)
  {
  }
}
