/** The `Chip8` struct of src/chip8.rs and the handlers of src/opcodes.rs as
    an object updated in place. Every method is proved against the value
    model: its effect on `Abs()` is the function of the same name in
    `Machine`, `Opcodes` or `Engine` applied to the old value. The
    components are owned by the machine, as the struct's fields are in
    Rust; `reset` reinitialises them in place. */
module Core {
  import opened Types
  import Memory
  import Stack
  import Display
  import Keypad
  import Sprite
  import opened Machine
  import opened Opcodes
  import Engine

  /** The handlers that only write registers. */
  predicate IsRegisterOp(ins: Instr) {
    || ins.LdByte? || ins.AddByte? || ins.LdReg? || ins.Or? || ins.And? || ins.Xor?
    || ins.AddReg? || ins.Sub? || ins.Shr? || ins.Subn? || ins.Shl?
  }

  class Chip8 {
    var hz: int
    var tick: int
    var i: Word
    var pc: Word
    var delayTimer: Byte
    var soundTimer: Byte
    const v: array<Byte>
    const keypad: Keypad.KeyPad
    const display: Display.Display
    const stack: Stack.Stack
    const memory: Memory.Memory

    ghost predicate Valid()
      reads this, stack
    {
      && v.Length == REGISTERS && v != memory.mem
      && display.Valid() && memory.Valid() && stack.Valid()
      && IsI32(hz) && 0 <= tick < I32_MAX
    }

    /** The value of the machine. */
    ghost function Abs(): (s: State)
      reads this, v, keypad, display.buffer, stack, stack.slots, memory.mem
      requires Valid()
      ensures WellFormed(s)
    {
      State(hz, tick, i, pc, delayTimer, soundTimer, v[..], keypad.Value(),
            display.buffer[..], stack.Value(), memory.mem[..])
    }

    /** `Chip8::init`. */
    constructor Init(hz: int)
      requires IsI32(hz)
      ensures Valid() && Abs() == Machine.Init(hz)
      ensures fresh(v) && fresh(keypad) && fresh(display.buffer) && fresh(stack)
      ensures fresh(stack.slots) && fresh(memory.mem)
    {
      this.hz := hz;
      tick := 0;
      i := 0;
      pc := PROGRAM_START;
      delayTimer := 0;
      soundTimer := 0;
      v := new Byte[REGISTERS](_ => 0);
      keypad := new Keypad.KeyPad();
      display := new Display.Display();
      stack := new Stack.Stack();
      memory := new Memory.Memory();
    }

    /** `set_hz`. */
    method SetHz(hz: int)
      requires Valid() && IsI32(hz)
      modifies this`hz
      ensures Valid() && Abs() == Machine.SetHz(old(Abs()), hz)
    {
      this.hz := Max(hz, 60);
    }

    /** `reset`: the registers, timers, keypad, frame buffer and memory are
        reinitialised in place; `hz` and the stack are kept. */
    method Reset()
      requires Valid()
      modifies this, v, keypad, display.buffer, memory.mem
      ensures Valid() && Abs() == Machine.Reset(old(Abs()))
    {
      tick := 0;
      i := 0;
      pc := PROGRAM_START;
      delayTimer := 0;
      soundTimer := 0;
      forall r | 0 <= r < v.Length {
        v[r] := 0;
      }
      keypad.waiting := false;
      keypad.destRegister := 0;
      display.Clear();
      forall a | 0 <= a < memory.mem.Length {
        memory.mem[a] := 0;
      }
      assert v[..] == seq(REGISTERS, _ => 0);
      assert memory.mem[..] == Memory.Zeros();
    }

    /** `fetch`: the opcode at pc, high byte first; nothing changes. */
    method Fetch(pc: Word) returns (op: Word)
      requires Valid() && pc as int + 1 < Memory.SIZE
      ensures op == Machine.Fetch(memory.mem[..], pc)
    {
      var hi := memory.Get(pc);
      var lo := memory.Get(pc + 1);
      op := (hi as int * 0x100 + lo as int) as Word;
    }

    /** `load`: byte k goes to address pos + k, one `set` at a time. */
    method Load(pos: Word, bytes: seq<Byte>)
      requires Valid() && (|bytes| == 0 || pos as int + |bytes| <= Memory.SIZE)
      modifies memory.mem
      ensures Valid() && Abs() == old(Abs()).(memory := Machine.Load(old(memory.mem[..]), pos, bytes))
    {
      var k := 0;
      while k < |bytes|
        invariant 0 <= k <= |bytes|
        invariant forall a :: 0 <= a < Memory.SIZE ==>
                    memory.mem[a] == if pos as int <= a < pos as int + k then bytes[a - pos as int] else old(memory.mem[a])
      {
        memory.Set(pos + k as Word, bytes[k]);
        k := k + 1;
      }
      LoadPlacesBytes(old(memory.mem[..]), pos, bytes);
      assert memory.mem[..] == Machine.Load(old(memory.mem[..]), pos, bytes);
    }

    /** `load_font`: the 80 glyph bytes from pos on. */
    method LoadFont(pos: Word)
      requires Valid() && pos as int + |FONT| <= Memory.SIZE
      modifies memory.mem
      ensures Valid() && Abs() == old(Abs()).(memory := Machine.Load(old(memory.mem[..]), pos, FONT))
    {
      Load(pos, FONT);
    }

    /** `tick_timers`. The divider is Rust's truncating `hz / 60`; the tick
        is positive after the increment, where Rust's `%` and Dafny's agree. */
    method TickTimers()
      requires Valid() && Machine.TickTimers(Abs()).Ok?
      modifies this`tick, this`delayTimer, this`soundTimer
      ensures Valid() && Abs() == Machine.TickTimers(old(Abs())).value
    {
      tick := tick + 1;
      var d := TruncDiv(hz, 60);
      if tick % d == 0 {
        delayTimer := SatDec(delayTimer);
        soundTimer := SatDec(soundTimer);
      }
      if tick >= hz {
        tick := 0;
      }
    }

    /** `cycle`, for the host keys `pressed`. */
    method Cycle(pressed: seq<bool>)
      requires Valid() && |pressed| == Keypad.KEYS && Engine.Cycle(Abs(), pressed).Ok?
      modifies this, v, keypad, display.buffer, stack, stack.slots
      ensures Valid() && Abs() == Engine.Cycle(old(Abs()), pressed).value
    {
      TickTimers();
      if keypad.waiting {
        var answer := keypad.GetKey(pressed);
        if answer.Some? {
          v[answer.value.1] := answer.value.0;
        }
      } else {
        var op := Fetch(pc);
        ExecOpcode(op);
      }
    }

    /** `exec_opcode`: decode, run the handler, apply its action to pc. */
    method ExecOpcode(op: Word)
      requires Valid() && Exec(Abs(), op).Ok?
      modifies this, v, display.buffer, stack, stack.slots
      ensures Valid() && Abs() == Exec(old(Abs()), op).value
    {
      var a := RunHandler(Dispatch(Decode(op)));
      match a
      case Next => pc := pc + 2;
      case Jump(target) => pc := target;
      case Skip(taken) =>
        if taken {
          pc := pc + 4;
        } else {
          pc := pc + 2;
        }
    }

    /** The `match (i, x, y, n)` of `exec_opcode`: the handler of `ins`. */
    method RunHandler(ins: Instr) returns (a: PC)
      requires Valid() && Handle(Abs(), ins).Ok?
      modifies this`i, v, display.buffer, stack, stack.slots
      ensures Valid() && Handle(old(Abs()), ins) == Ok(Handled(Abs(), a))
    {
      if IsRegisterOp(ins) {
        a := RunRegisterOp(ins);
        return;
      }
      match ins
      case Cls => a := Op00E0();
      case Ret => a := Op00EE();
      case Jp(nnn) => a := Op1NNN(nnn);
      case Call(nnn) => a := Op2NNN(nnn);
      case SeByte(x, nn) => a := Op3XNN(x, nn);
      case SneByte(x, nn) => a := Op4XNN(x, nn);
      case SeReg(x, y) => a := Op5XY0(x, y);
      case SneReg(x, y) => a := Op9XY0(x, y);
      case LdI(nnn) => a := OpANNN(nnn);
      case Drw(x, y, n) => a := OpDXYN(x, y, n);
      case Unknown => a := Next;
    }

    /** The handlers of the 6XNN, 7XNN and 8XYN groups, which only write
        registers. */
    method RunRegisterOp(ins: Instr) returns (a: PC)
      requires Valid() && IsRegisterOp(ins)
      modifies v
      ensures Valid() && Handle(old(Abs()), ins) == Ok(Handled(Abs(), a))
    {
      match ins
      case LdByte(x, nn) => a := Op6XNN(x, nn);
      case AddByte(x, nn) => a := Op7XNN(x, nn);
      case LdReg(x, y) => a := Op8XY0(x, y);
      case Or(x, y) => a := Op8XY1(x, y);
      case And(x, y) => a := Op8XY2(x, y);
      case Xor(x, y) => a := Op8XY3(x, y);
      case AddReg(x, y) => a := Op8XY4(x, y);
      case Sub(x, y) => a := Op8XY5(x, y);
      case Shr(x, y) => a := Op8XY6(x, y);
      case Subn(x, y) => a := Op8XY7(x, y);
      case Shl(x, y) => a := Op8XYE(x, y);
    }

    /** 00E0. */
    method Op00E0() returns (a: PC)
      requires Valid()
      modifies display.buffer
      ensures Valid() && Handle(old(Abs()), Cls) == Ok(Handled(Abs(), a))
    {
      display.Clear();
      a := Next;
    }

    /** 00EE. */
    method Op00EE() returns (a: PC)
      requires Valid() && stack.pointer > 0
      modifies stack
      ensures Valid() && Handle(old(Abs()), Ret) == Ok(Handled(Abs(), a))
    {
      var addr := stack.Pop();
      a := Jump(addr);
    }

    /** 1NNN. */
    method Op1NNN(nnn: Word) returns (a: PC)
      requires Valid()
      ensures Handle(Abs(), Jp(nnn)) == Ok(Handled(Abs(), a))
    {
      a := Jump(nnn);
    }

    /** 2NNN. */
    method Op2NNN(nnn: Word) returns (a: PC)
      requires Valid() && pc as int + 2 <= 0xFFFF && stack.pointer < Stack.DEPTH
      modifies stack, stack.slots
      ensures Valid() && Handle(old(Abs()), Call(nnn)) == Ok(Handled(Abs(), a))
    {
      stack.Push(pc + 2);
      a := Jump(nnn);
    }

    /** 3XNN. */
    method Op3XNN(x: Nibble, nn: Byte) returns (a: PC)
      requires Valid()
      ensures Handle(Abs(), SeByte(x, nn)) == Ok(Handled(Abs(), a))
    {
      a := Skip(v[x] == nn);
    }

    /** 4XNN. */
    method Op4XNN(x: Nibble, nn: Byte) returns (a: PC)
      requires Valid()
      ensures Handle(Abs(), SneByte(x, nn)) == Ok(Handled(Abs(), a))
    {
      a := Skip(v[x] != nn);
    }

    /** 5XY0. */
    method Op5XY0(x: Nibble, y: Nibble) returns (a: PC)
      requires Valid()
      ensures Handle(Abs(), SeReg(x, y)) == Ok(Handled(Abs(), a))
    {
      a := Skip(v[x] == v[y]);
    }

    /** 9XY0. */
    method Op9XY0(x: Nibble, y: Nibble) returns (a: PC)
      requires Valid()
      ensures Handle(Abs(), SneReg(x, y)) == Ok(Handled(Abs(), a))
    {
      a := Skip(v[x] != v[y]);
    }

    /** 6XNN. */
    method Op6XNN(x: Nibble, nn: Byte) returns (a: PC)
      requires Valid()
      modifies v
      ensures Valid() && Handle(old(Abs()), LdByte(x, nn)) == Ok(Handled(Abs(), a))
    {
      v[x] := nn;
      a := Next;
    }

    /** 7XNN: the sum is formed in 16 bits and truncated back to 8. */
    method Op7XNN(x: Nibble, nn: Byte) returns (a: PC)
      requires Valid()
      modifies v
      ensures Valid() && Handle(old(Abs()), AddByte(x, nn)) == Ok(Handled(Abs(), a))
    {
      v[x] := Wrap8(v[x] as int + nn as int);
      a := Next;
    }

    /** ANNN. */
    method OpANNN(nnn: Word) returns (a: PC)
      requires Valid()
      modifies this`i
      ensures Valid() && Handle(old(Abs()), LdI(nnn)) == Ok(Handled(Abs(), a))
    {
      i := nnn;
      a := Next;
    }

    /** 8XY0. */
    method Op8XY0(x: Nibble, y: Nibble) returns (a: PC)
      requires Valid()
      modifies v
      ensures Valid() && Handle(old(Abs()), LdReg(x, y)) == Ok(Handled(Abs(), a))
    {
      v[x] := v[y];
      a := Next;
    }

    /** 8XY1. */
    method Op8XY1(x: Nibble, y: Nibble) returns (a: PC)
      requires Valid()
      modifies v
      ensures Valid() && Handle(old(Abs()), Or(x, y)) == Ok(Handled(Abs(), a))
    {
      v[x] := Or8(v[x], v[y]);
      a := Next;
    }

    /** 8XY2. */
    method Op8XY2(x: Nibble, y: Nibble) returns (a: PC)
      requires Valid()
      modifies v
      ensures Valid() && Handle(old(Abs()), And(x, y)) == Ok(Handled(Abs(), a))
    {
      v[x] := And8(v[x], v[y]);
      a := Next;
    }

    /** 8XY3. */
    method Op8XY3(x: Nibble, y: Nibble) returns (a: PC)
      requires Valid()
      modifies v
      ensures Valid() && Handle(old(Abs()), Xor(x, y)) == Ok(Handled(Abs(), a))
    {
      v[x] := Xor8(v[x], v[y]);
      a := Next;
    }

    /** 8XY4: `overflowing_add`, the sum first and the carry after. */
    method Op8XY4(x: Nibble, y: Nibble) returns (a: PC)
      requires Valid()
      modifies v
      ensures Valid() && Handle(old(Abs()), AddReg(x, y)) == Ok(Handled(Abs(), a))
    {
      var sum := v[x] as int + v[y] as int;
      var overflow := sum > 0xFF;
      v[x] := Wrap8(sum);
      v[VF] := if overflow then 1 else 0;
      a := Next;
    }

    /** 8XY5: `overflowing_sub`, the difference first and the inverted
        borrow after. */
    method Op8XY5(x: Nibble, y: Nibble) returns (a: PC)
      requires Valid()
      modifies v
      ensures Valid() && Handle(old(Abs()), Sub(x, y)) == Ok(Handled(Abs(), a))
    {
      var overflow := v[x] < v[y];
      v[x] := Wrap8(v[x] as int - v[y] as int);
      v[VF] := if overflow then 0 else 1;
      a := Next;
    }

    /** 8XY7. */
    method Op8XY7(x: Nibble, y: Nibble) returns (a: PC)
      requires Valid()
      modifies v
      ensures Valid() && Handle(old(Abs()), Subn(x, y)) == Ok(Handled(Abs(), a))
    {
      var overflow := v[y] < v[x];
      v[x] := Wrap8(v[y] as int - v[x] as int);
      v[VF] := if overflow then 0 else 1;
      a := Next;
    }

    /** 8XY6: the low bit to VF, then Vx shifted right. */
    method Op8XY6(x: Nibble, y: Nibble) returns (a: PC)
      requires Valid()
      modifies v
      ensures Valid() && Handle(old(Abs()), Shr(x, y)) == Ok(Handled(Abs(), a))
    {
      v[VF] := And8(v[x], 1);
      v[x] := v[x] / 2;
      a := Next;
    }

    /** 8XYE: the low bit to VF, then Vx shifted left, dropping bit 7. */
    method Op8XYE(x: Nibble, y: Nibble) returns (a: PC)
      requires Valid()
      modifies v
      ensures Valid() && Handle(old(Abs()), Shl(x, y)) == Ok(Handled(Abs(), a))
    {
      v[VF] := And8(v[x], 1);
      v[x] := Wrap8(v[x] as int * 2);
      a := Next;
    }

    /** The loop invariant of a draw over the frame buffer `d0` and the
        registers `v0`: the first `done` pixels are painted and VF holds
        whether one of them collided. */
    ghost predicate DrawnSoFar(d0: seq<bool>, v0: seq<Byte>, sprite: seq<Byte>, x0: nat, y0: nat, done: nat)
      reads v, display.buffer
    {
      && |v0| == REGISTERS
      && display.buffer[..] == Sprite.Painted(d0, sprite, x0, y0, done)
      && v[..] == v0[VF := if Sprite.CollidesBefore(d0, sprite, x0, y0, done) then 1 else 0]
    }

    /** DXYN: row by row, each pixel is compared with the buffer (raising VF
        on a lit one under a 1-bit) and then overwritten with the sprite bit. */
    method OpDXYN(x: Nibble, y: Nibble, n: Nibble) returns (a: PC)
      requires Valid() && !DrawFaults(Abs(), x, y, n)
      modifies v, display.buffer
      ensures Valid() && Handle(old(Abs()), Drw(x, y, n)) == Ok(Handled(Abs(), a))
    {
      var x0 := And8(v[x], (Display.WIDTH - 1) as Byte);
      var y0 := And8(v[y], (Display.HEIGHT - 1) as Byte);
      ghost var s := old(Abs());
      ghost var sprite := SpriteAt(s, n);
      ghost var drawn := Sprite.Drawn(s.display, sprite, x0 as nat, y0 as nat);
      ghost var flag: Byte := if Sprite.Collides(s.display, sprite, x0 as nat, y0 as nat) then 1 else 0;
      assert Handle(s, Drw(x, y, n)) == Ok(Handled(s.(v := s.v[VF := flag], display := drawn), Next)) by {
      }
      ByteMasks(v[x]);
      ByteMasks(v[y]);
      v[VF] := 0;
      Sprite.PaintedEnds(s.display, sprite, x0 as nat, y0 as nat);
      DrawRows(x0, y0, n, s.display, s.v, sprite);
      assert Abs() == s.(v := s.v[VF := flag], display := drawn);
      a := Next;
    }

    /** The row loop of a draw: row r of the sprite is read from I + r and
        drawn on line y0 + r. */
    method DrawRows(x0: Byte, y0: Byte, n: Nibble, ghost d0: seq<bool>, ghost v0: seq<Byte>, ghost sprite: seq<Byte>)
      requires Valid() && |d0| == Display.CELLS && x0 < Display.WIDTH as Byte && y0 < Display.HEIGHT as Byte
      requires |sprite| == n && (n == 0 || i as int + n <= Memory.SIZE)
      requires forall r :: 0 <= r < n ==> sprite[r] == memory.mem[i as int + r]
      requires Sprite.Fits(x0 as nat, y0 as nat, n)
      requires DrawnSoFar(d0, v0, sprite, x0 as nat, y0 as nat, 0)
      modifies v, display.buffer
      ensures DrawnSoFar(d0, v0, sprite, x0 as nat, y0 as nat, 8 * n)
    {
      var row: Word := 0;
      var py := y0;
      while row < n as Word
        invariant row as int <= n && py as int == y0 as int + row as int
        invariant DrawnSoFar(d0, v0, sprite, x0 as nat, y0 as nat, 8 * row as nat)
      {
        var spriteData := memory.Get(i + row);
        DrawRow(x0, py, spriteData, y0, row as nat, d0, v0, sprite);
        py := py + 1;
        row := row + 1;
      }
    }

    /** One row of a draw: bit 7 down to bit 0 of `spriteData`, left to
        right from column x0 of line py. */
    method DrawRow(x0: Byte, py: Byte, spriteData: Byte, ghost y0: Byte, ghost row: nat,
                   ghost d0: seq<bool>, ghost v0: seq<Byte>, ghost sprite: seq<Byte>)
      requires Valid() && |d0| == Display.CELLS && x0 < Display.WIDTH as Byte
      requires row < |sprite| && sprite[row] == spriteData && py as int == y0 as int + row
      requires Sprite.Fits(x0 as nat, y0 as nat, |sprite|)
      requires DrawnSoFar(d0, v0, sprite, x0 as nat, y0 as nat, 8 * row)
      modifies v, display.buffer
      ensures DrawnSoFar(d0, v0, sprite, x0 as nat, y0 as nat, 8 * row + 8)
    {
      var px := x0;
      var c: nat := 0;
      while c < 8
        invariant c <= 8 && px as int == x0 as int + c
        invariant DrawnSoFar(d0, v0, sprite, x0 as nat, y0 as nat, 8 * row + c)
      {
        var bit := Sprite.BitOf(spriteData, 7 - c);
        DrawPixel(px, py, bit, x0, y0, row, c, d0, v0, sprite);
        px := px + 1;
        c := c + 1;
      }
    }

    /** The body of the inner draw loop, for sprite row `row`, column c. */
    method DrawPixel(px: Byte, py: Byte, bit: Byte, ghost x0: Byte, ghost y0: Byte, ghost row: nat,
                     ghost c: nat, ghost d0: seq<bool>, ghost v0: seq<Byte>, ghost sprite: seq<Byte>)
      requires Valid() && |d0| == Display.CELLS
      requires row < |sprite| && c < 8 && bit == Sprite.BitOf(sprite[row], 7 - c)
      requires px as int == x0 as int + c && py as int == y0 as int + row
      requires Sprite.Fits(x0 as nat, y0 as nat, |sprite|)
      requires DrawnSoFar(d0, v0, sprite, x0 as nat, y0 as nat, 8 * row + c)
      modifies v, display.buffer
      ensures DrawnSoFar(d0, v0, sprite, x0 as nat, y0 as nat, 8 * row + c + 1)
    {
      ghost var cell := Sprite.Cell(x0 as nat, y0 as nat, row, c);
      Sprite.CellsFit(x0 as nat, y0 as nat, |sprite|, row, c);
      assert Display.Display.I(px, py) == cell;
      var lit := display.GetU8(px, py);
      PixelStep(d0, v0, sprite, x0 as nat, y0 as nat, row, c, display.buffer[..], v[..], bit, lit);
      v[VF] := Or8(v[VF], And8(bit, lit));
      display.Set(px, py, bit != 0);
    }
  }

  /** One pixel of a draw on the values of the frame buffer and the
      registers: with `lit` the old value of the pixel's cell, writing
      `VF | (bit & lit)` and then the bit itself extends the painted prefix
      and the collision flag by that pixel. */
  lemma PixelStep(d0: seq<bool>, v0: seq<Byte>, sprite: seq<Byte>, x0: nat, y0: nat, row: nat, c: nat,
                  buffer: seq<bool>, regs: seq<Byte>, bit: Byte, lit: Byte)
    requires |d0| == Display.CELLS && |v0| == REGISTERS && row < |sprite| && c < 8
    requires Sprite.Cell(x0, y0, row, c) < Display.CELLS
    requires bit == Sprite.BitOf(sprite[row], 7 - c)
    requires buffer == Sprite.Painted(d0, sprite, x0, y0, 8 * row + c)
    requires regs == v0[VF := if Sprite.CollidesBefore(d0, sprite, x0, y0, 8 * row + c) then 1 else 0]
    requires lit == if buffer[Sprite.Cell(x0, y0, row, c)] then 1 else 0
    ensures regs[VF := Or8(regs[VF], And8(bit, lit))]
            == v0[VF := if Sprite.CollidesBefore(d0, sprite, x0, y0, 8 * row + c + 1) then 1 else 0]
    ensures buffer[Sprite.Cell(x0, y0, row, c) := bit != 0] == Sprite.Painted(d0, sprite, x0, y0, 8 * row + c + 1)
  {
    var cell := Sprite.Cell(x0, y0, row, c);
    Sprite.PaintedStep(d0, sprite, x0, y0, row, c);
    assert (bit != 0) == Sprite.SpriteBit(sprite, row, c);
    assert lit == 1 <==> d0[cell];
    FlagOfPixel(d0, sprite, x0, y0, row, c, regs[VF], bit, lit);
  }

  /** The collision flag after one more pixel, as `VF | (bit & lit)`. */
  lemma FlagOfPixel(d0: seq<bool>, sprite: seq<Byte>, x0: nat, y0: nat, row: nat, c: nat,
                    flag: Byte, bit: Byte, lit: Byte)
    requires row < |sprite| && c < 8 && Sprite.Cell(x0, y0, row, c) < |d0|
    requires bit == Sprite.BitOf(sprite[row], 7 - c)
    requires flag == if Sprite.CollidesBefore(d0, sprite, x0, y0, 8 * row + c) then 1 else 0
    requires lit == 1 <==> d0[Sprite.Cell(x0, y0, row, c)]
    requires lit <= 1
    ensures Or8(flag, And8(bit, lit)) == if Sprite.CollidesBefore(d0, sprite, x0, y0, 8 * row + c + 1) then 1 else 0
  {
    Sprite.CollisionStep(d0, sprite, x0, y0, row, c);
    FlagStep(flag, bit, lit);
  }
}
