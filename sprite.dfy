/** What a DXYN draw does to the frame buffer (src/opcodes.rs, `_DXYN`).
    A sprite is n bytes read from memory, one byte per row, the most
    significant bit leftmost. Row r, column c of the sprite lands on the
    buffer cell `(x0 + c) + 64 * (y0 + r)`: only the start coordinates are
    masked to the screen, so a sprite that crosses the right edge spills
    into the next row and is never wrapped. Each cell is OVERWRITTEN with
    its sprite bit; the collision flag records whether a 1-bit landed on a
    lit cell. */
module Sprite {
  import opened Types
  import Display

  /** `(sprite_data >> b) & 1`. */
  function BitOf(row: Byte, b: nat): (r: Byte)
    requires b < 8
    ensures r <= 1
  {
    ByteMasks(ShiftRight8(row, b));
    And8(ShiftRight8(row, b), 1)
  }

  /** Column c of the sprite shows bit 7 - c of its row (the inner loop
      runs b from 7 down to 0 while x runs right). */
  predicate SpriteBit(sprite: seq<Byte>, r: nat, c: nat)
    requires r < |sprite| && c < 8
  {
    BitOf(sprite[r], 7 - c) == 1
  }

  /** The buffer cell of the sprite's top-left pixel. */
  function Base(x0: nat, y0: nat): nat {
    x0 + Display.WIDTH * y0
  }

  /** The buffer cell that row r, column c of the sprite is written to:
      `Display::i(x0 + c, y0 + r)`. */
  function Cell(x0: nat, y0: nat, r: nat, c: nat): nat {
    Base(x0, y0) + Display.WIDTH * r + c
  }

  /** Whether buffer cell k is one of the 8 n cells the sprite writes. */
  predicate InFootprint(x0: nat, y0: nat, n: nat, k: nat) {
    && k >= Base(x0, y0)
    && (k - Base(x0, y0)) % Display.WIDTH < 8
    && (k - Base(x0, y0)) / Display.WIDTH < n
  }

  /** The sprite row and column that a footprint cell shows. */
  function Row(x0: nat, y0: nat, k: nat): nat
    requires k >= Base(x0, y0)
  {
    (k - Base(x0, y0)) / Display.WIDTH
  }

  function Col(x0: nat, y0: nat, k: nat): nat
    requires k >= Base(x0, y0)
  {
    (k - Base(x0, y0)) % Display.WIDTH
  }

  /** The position of a cell in drawing order: row by row, left to right. */
  function Order(x0: nat, y0: nat, k: nat): nat
    requires k >= Base(x0, y0)
  {
    8 * Row(x0, y0, k) + Col(x0, y0, k)
  }

  /** Whether the whole footprint lies inside the 2048-cell buffer; the
      last cell written is the rightmost of the last row. */
  predicate Fits(x0: nat, y0: nat, n: nat) {
    n == 0 || Cell(x0, y0, n - 1, 7) < Display.CELLS
  }

  /** The buffer after the first `done` pixels of the sprite, in drawing
      order, have been written over `d`. */
  function Painted(d: seq<bool>, sprite: seq<Byte>, x0: nat, y0: nat, done: nat): (p: seq<bool>)
    ensures |p| == |d|
  {
    seq(|d|, k requires 0 <= k < |d| =>
      if InFootprint(x0, y0, |sprite|, k) && Order(x0, y0, k) < done
      then SpriteBit(sprite, Row(x0, y0, k), Col(x0, y0, k))
      else d[k])
  }

  /** The buffer after the whole sprite has been written: every footprint
      cell holds its sprite bit, every other cell is untouched. */
  function Drawn(d: seq<bool>, sprite: seq<Byte>, x0: nat, y0: nat): (p: seq<bool>)
    ensures |p| == |d|
  {
    seq(|d|, k requires 0 <= k < |d| =>
      if InFootprint(x0, y0, |sprite|, k)
      then SpriteBit(sprite, Row(x0, y0, k), Col(x0, y0, k))
      else d[k])
  }

  /** Whether one of the first `done` pixels in drawing order is a 1-bit
      over a cell that was lit in `d`. */
  predicate CollidesBefore(d: seq<bool>, sprite: seq<Byte>, x0: nat, y0: nat, done: nat) {
    exists r: nat, c: nat ::
      && r < |sprite| && c < 8 && 8 * r + c < done
      && SpriteBit(sprite, r, c)
      && Cell(x0, y0, r, c) < |d| && d[Cell(x0, y0, r, c)]
  }

  /** The collision flag of a whole draw. */
  predicate Collides(d: seq<bool>, sprite: seq<Byte>, x0: nat, y0: nat) {
    CollidesBefore(d, sprite, x0, y0, 8 * |sprite|)
  }

  /** Sprite pixel (r, c) lands on a footprint cell that shows it back, and
      that cell is the `8 r + c`-th one drawn. */
  lemma CellInFootprint(x0: nat, y0: nat, n: nat, r: nat, c: nat)
    requires r < n && c < 8
    ensures var k := Cell(x0, y0, r, c);
            && InFootprint(x0, y0, n, k)
            && Row(x0, y0, k) == r && Col(x0, y0, k) == c
            && Order(x0, y0, k) == 8 * r + c
  {
    var k := Cell(x0, y0, r, c);
    assert k - Base(x0, y0) == Display.WIDTH * r + c;
  }

  /** Every footprint cell is the cell of the pixel it shows. */
  lemma FootprintCell(x0: nat, y0: nat, n: nat, k: nat)
    requires InFootprint(x0, y0, n, k)
    ensures k == Cell(x0, y0, Row(x0, y0, k), Col(x0, y0, k))
  {
  }

  /** A fitting footprint lies inside the buffer. */
  lemma CellsFit(x0: nat, y0: nat, n: nat, r: nat, c: nat)
    requires Fits(x0, y0, n) && r < n && c < 8
    ensures Cell(x0, y0, r, c) < Display.CELLS
  {
  }

  /** Before pixel `done` = 8 r + c is drawn its cell still holds its old
      value; drawing it yields the buffer with one more pixel painted. */
  lemma PaintedStep(d: seq<bool>, sprite: seq<Byte>, x0: nat, y0: nat, r: nat, c: nat)
    requires r < |sprite| && c < 8 && Cell(x0, y0, r, c) < |d|
    ensures Painted(d, sprite, x0, y0, 8 * r + c)[Cell(x0, y0, r, c)] == d[Cell(x0, y0, r, c)]
    ensures Painted(d, sprite, x0, y0, 8 * r + c)[Cell(x0, y0, r, c) := SpriteBit(sprite, r, c)]
            == Painted(d, sprite, x0, y0, 8 * r + c + 1)
  {
    var done := 8 * r + c;
    var cell := Cell(x0, y0, r, c);
    CellInFootprint(x0, y0, |sprite|, r, c);
    var p, q := Painted(d, sprite, x0, y0, done), Painted(d, sprite, x0, y0, done + 1);
    forall k | 0 <= k < |d|
      ensures p[cell := SpriteBit(sprite, r, c)][k] == q[k]
    {
      if k != cell && InFootprint(x0, y0, |sprite|, k) {
        FootprintCell(x0, y0, |sprite|, k);
        assert Order(x0, y0, k) != done;
      }
    }
  }

  /** Drawing pixel `done` = 8 r + c raises the flag exactly when that pixel
      collides, and a raised flag stays raised. */
  lemma CollisionStep(d: seq<bool>, sprite: seq<Byte>, x0: nat, y0: nat, r: nat, c: nat)
    requires r < |sprite| && c < 8 && Cell(x0, y0, r, c) < |d|
    ensures CollidesBefore(d, sprite, x0, y0, 8 * r + c + 1) <==>
              CollidesBefore(d, sprite, x0, y0, 8 * r + c) ||
              (SpriteBit(sprite, r, c) && d[Cell(x0, y0, r, c)])
  {
    var done := 8 * r + c;
    if CollidesBefore(d, sprite, x0, y0, done + 1) && !CollidesBefore(d, sprite, x0, y0, done) {
      var r': nat, c': nat :| && r' < |sprite| && c' < 8 && 8 * r' + c' < done + 1
                     && SpriteBit(sprite, r', c')
                     && Cell(x0, y0, r', c') < |d| && d[Cell(x0, y0, r', c')];
      assert 8 * r' + c' == done;
      assert r' == r && c' == c;
    }
    if SpriteBit(sprite, r, c) && d[Cell(x0, y0, r, c)] {
      assert 8 * r + c < done + 1;
    }
  }

  /** Nothing is painted before the first pixel, and after the last one the
      buffer is the drawn one. */
  lemma PaintedEnds(d: seq<bool>, sprite: seq<Byte>, x0: nat, y0: nat)
    ensures Painted(d, sprite, x0, y0, 0) == d
    ensures Painted(d, sprite, x0, y0, 8 * |sprite|) == Drawn(d, sprite, x0, y0)
  {
    forall k | 0 <= k < |d| && InFootprint(x0, y0, |sprite|, k)
      ensures Order(x0, y0, k) < 8 * |sprite|
    {
      assert Row(x0, y0, k) + 1 <= |sprite|;
    }
  }

  /** The draw seen cell by cell: each pixel of the sprite ends on its cell,
      every cell outside the footprint keeps its value, and the flag is
      raised exactly when some 1-bit of the sprite landed on a lit cell. */
  lemma DrawnCells(d: seq<bool>, sprite: seq<Byte>, x0: nat, y0: nat)
    requires |d| == Display.CELLS && Fits(x0, y0, |sprite|)
    ensures forall r: nat, c: nat :: r < |sprite| && c < 8 ==>
              Cell(x0, y0, r, c) < |d| && Drawn(d, sprite, x0, y0)[Cell(x0, y0, r, c)] == SpriteBit(sprite, r, c)
    ensures forall k :: 0 <= k < |d| && !InFootprint(x0, y0, |sprite|, k) ==> Drawn(d, sprite, x0, y0)[k] == d[k]
    ensures Collides(d, sprite, x0, y0) <==>
              exists r: nat, c: nat :: r < |sprite| && c < 8 && SpriteBit(sprite, r, c) && d[Cell(x0, y0, r, c)]
  {
    forall r: nat, c: nat | r < |sprite| && c < 8
      ensures Cell(x0, y0, r, c) < |d| && Drawn(d, sprite, x0, y0)[Cell(x0, y0, r, c)] == SpriteBit(sprite, r, c)
    {
      CellsFit(x0, y0, |sprite|, r, c);
      CellInFootprint(x0, y0, |sprite|, r, c);
    }
    if exists r: nat, c: nat :: r < |sprite| && c < 8 && SpriteBit(sprite, r, c) && d[Cell(x0, y0, r, c)] {
      var r: nat, c: nat :| r < |sprite| && c < 8 && SpriteBit(sprite, r, c) && d[Cell(x0, y0, r, c)];
      CellsFit(x0, y0, |sprite|, r, c);
      assert 8 * r + c < 8 * |sprite|;
    }
  }

  /** Since pixels are overwritten and not XORed, drawing a sprite twice in
      the same place changes nothing the second time, and the second flag is
      raised exactly when the sprite has a 1-bit at all. */
  lemma DrawTwice(d: seq<bool>, sprite: seq<Byte>, x0: nat, y0: nat)
    requires |d| == Display.CELLS && Fits(x0, y0, |sprite|)
    ensures Drawn(Drawn(d, sprite, x0, y0), sprite, x0, y0) == Drawn(d, sprite, x0, y0)
    ensures Collides(Drawn(d, sprite, x0, y0), sprite, x0, y0) <==>
              exists r: nat, c: nat :: r < |sprite| && c < 8 && SpriteBit(sprite, r, c)
  {
    var e := Drawn(d, sprite, x0, y0);
    forall k | 0 <= k < |d|
      ensures Drawn(e, sprite, x0, y0)[k] == e[k]
    {
    }
    DrawnCells(e, sprite, x0, y0);
    if exists r: nat, c: nat :: r < |sprite| && c < 8 && SpriteBit(sprite, r, c) {
      var r: nat, c: nat :| r < |sprite| && c < 8 && SpriteBit(sprite, r, c);
      CellsFit(x0, y0, |sprite|, r, c);
      CellInFootprint(x0, y0, |sprite|, r, c);
      assert e[Cell(x0, y0, r, c)];
    }
  }
}
