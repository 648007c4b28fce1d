/** The 64 x 32 monochrome frame buffer (src/display.rs). The buffer is a
    flat array indexed `x + 64 * y`; it does no wrapping of its own. */
module Display {
  import opened Types

  const WIDTH: nat := 64
  const HEIGHT: nat := 32
  const CELLS: nat := 2048

  /** `Display::CLEAR`: every pixel off. */
  function Blank(): (b: seq<bool>)
    ensures |b| == CELLS
  {
    seq(CELLS, _ => false)
  }

  class Display {
    const buffer: array<bool>

    ghost predicate Valid() {
      buffer.Length == CELLS
    }

    constructor ()
      ensures Valid() && fresh(buffer)
      ensures buffer[..] == Blank()
    {
      buffer := new bool[CELLS](_ => false);
    }

    /** `clear`: the buffer becomes `CLEAR`. */
    method Clear()
      requires Valid()
      modifies buffer
      ensures Valid()
      ensures forall k :: 0 <= k < CELLS ==> !buffer[k]
      ensures buffer[..] == Blank()
    {
      forall k | 0 <= k < buffer.Length {
        buffer[k] := false;
      }
    }

    /** `i`: the buffer index of pixel (x, y). */
    static function I(x: Byte, y: Byte): nat {
      x as nat + WIDTH * y as nat
    }

    /** `set`: pixel (x, y) takes the value b, every other index keeps its
        value. An index past the end makes Rust's array index panic. */
    method Set(x: Byte, y: Byte, b: bool)
      requires Valid() && I(x, y) < CELLS
      modifies buffer
      ensures Valid()
      ensures Get(x, y) == b
      ensures buffer[..] == old(buffer[..])[I(x, y) := b]
    {
      buffer[I(x, y)] := b;
    }

    /** `get`. */
    function Get(x: Byte, y: Byte): bool
      reads buffer
      requires Valid() && I(x, y) < CELLS
    {
      buffer[I(x, y)]
    }

    /** `get_u8`: the pixel as the number 1 (lit) or 0 (dark). */
    function GetU8(x: Byte, y: Byte): (r: Byte)
      reads buffer
      requires Valid() && I(x, y) < CELLS
      ensures r <= 1
      ensures r == 1 <==> Get(x, y)
    {
      if buffer[I(x, y)] then 1 else 0
    }
  }

  /** On the visible 64 x 32 screen the index is a bijection onto 0..2047:
      distinct pixels never share a cell and every pixel is in range. */
  lemma IndexIsInjective(x1: Byte, y1: Byte, x2: Byte, y2: Byte)
    requires x1 as nat < WIDTH && x2 as nat < WIDTH && y1 as nat < HEIGHT && y2 as nat < HEIGHT
    ensures Display.I(x1, y1) < CELLS && Display.I(x2, y2) < CELLS
    ensures Display.I(x1, y1) == Display.I(x2, y2) ==> x1 == x2 && y1 == y2
  {
  }

  /** Every index below 2048 is the index of exactly one visible pixel. */
  lemma IndexIsOnto(k: nat)
    requires k < CELLS
    ensures (k % WIDTH) < WIDTH && k / WIDTH < HEIGHT
    ensures Display.I((k % WIDTH) as Byte, (k / WIDTH) as Byte) == k
  {
  }

  /** Without wrapping, a column past the right edge lands on the next row:
      pixel (64 + x, y) is the same cell as (x, y + 1). */
  lemma RightEdgeSpillsIntoNextRow(x: Byte, y: Byte)
    requires x as nat + WIDTH < 0x100 && y as nat + 1 < 0x100
    ensures Display.I(x + WIDTH as Byte, y) == Display.I(x, y + 1)
  {
  }
}
