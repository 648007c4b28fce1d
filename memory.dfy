/** The 4 KiB byte-addressable memory of the machine (src/memory.rs). */
module Memory {
  import opened Types

  const SIZE: nat := 4096

  /** All-zero contents, as `Memory::new` creates them. */
  function Zeros(): (m: seq<Byte>)
    ensures |m| == SIZE
  {
    seq(SIZE, _ => 0)
  }

  class Memory {
    const mem: array<Byte>

    ghost predicate Valid() {
      mem.Length == SIZE
    }

    constructor ()
      ensures Valid() && fresh(mem)
      ensures mem[..] == Zeros()
    {
      mem := new Byte[SIZE](_ => 0);
    }

    /** `get` and `Index<u16>` of the native build: a plain read. An address
        past the end makes Rust's array index panic, hence the precondition. */
    function Get(i: Word): Byte
      reads mem
      requires Valid() && (i as int) < SIZE
    {
      mem[i]
    }

    /** `set` and `IndexMut<u16>` of the native build: one cell is written,
        every other cell keeps its value. */
    method Set(i: Word, v: Byte)
      requires Valid() && (i as int) < SIZE
      modifies mem
      ensures Valid()
      ensures mem[i] == v
      ensures forall j :: 0 <= j < SIZE && j != i as int ==> mem[j] == old(mem[j])
    {
      mem[i] := v;
    }
  }

  /** `saturating_add(20)` of the counter of a cell that is read. */
  function Warm(h: Byte): Byte {
    if h as int + 20 > 0xFF then 0xFF else h + 20
  }

  /** The access heat map that the browser build keeps beside the memory
      contents: a read warms a cell, a write lights it fully, and every
      `tick` lets each counter fade by one. Its `get` and `set` are the
      native `Get` and `Set` of `Memory` plus `Read` and `Write` here. */
  class Heatmap {
    const heat: array<Byte>

    constructor ()
      ensures fresh(heat) && heat[..] == Zeros()
    {
      heat := new Byte[SIZE](_ => 0);
    }

    /** `tick`: every counter fades by one, and none wraps below zero. */
    method Tick()
      modifies heat
      ensures forall k :: 0 <= k < heat.Length ==> heat[k] == SatDec(old(heat[k]))
      ensures forall k :: 0 <= k < heat.Length ==> heat[k] <= old(heat[k])
    {
      var k := 0;
      while k < heat.Length
        invariant 0 <= k <= heat.Length
        invariant forall j :: 0 <= j < k ==> heat[j] == SatDec(old(heat[j]))
        invariant forall j :: k <= j < heat.Length ==> heat[j] == old(heat[j])
      {
        heat[k] := SatDec(heat[k]);
        k := k + 1;
      }
    }

    /** The heat-map half of the browser build's `get`. */
    method Read(i: Word)
      requires (i as int) < heat.Length
      modifies heat
      ensures heat[..] == old(heat[..])[i := Warm(old(heat[i]))]
      ensures heat[i] >= old(heat[i])
    {
      heat[i] := Warm(heat[i]);
    }

    /** The heat-map half of the browser build's `set`. */
    method Write(i: Word)
      requires (i as int) < heat.Length
      modifies heat
      ensures heat[..] == old(heat[..])[i := 0xFF]
    {
      heat[i] := 0xFF;
    }
  }
}
