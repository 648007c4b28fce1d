/** The opcode engine of src/opcodes.rs on the value of the machine: decoding
    an opcode into its nibble fields, dispatching on them, the effect of each
    handler together with the program-counter action it returns, and the
    application of that action. */
module Opcodes {
  import opened Types
  import Memory
  import Stack
  import Display
  import Sprite
  import opened Machine

  /** The fields `exec_opcode` extracts from an opcode. */
  datatype Fields = Fields(i: Nibble, x: Nibble, y: Nibble, n: Nibble, nn: Byte, nnn: Word)

  /** The masks and shifts of `exec_opcode` (`(op & 0x0F00) >> 8` is the
      second nibble, and so on). The fields are the four nibbles of the
      opcode, high to low, and nn and nnn are its low byte and low twelve
      bits. */
  function Decode(op: Word): (f: Fields)
    ensures op as int == f.i * 0x1000 + f.x * 0x100 + f.y * 0x10 + f.n
    ensures f.nn as int == f.y * 0x10 + f.n
    ensures f.nnn as int == f.x * 0x100 + f.nn as int
  {
    DecodeNibbles(op as nat);
    Fields(op as nat / 0x1000, op as nat / 0x100 % 0x10, op as nat / 0x10 % 0x10, op as nat % 0x10,
           (op as int % 0x100) as Byte, (op as int % 0x1000) as Word)
  }

  /** The nibbles of a 16-bit value, peeled off four bits at a time. */
  lemma DecodeNibbles(a: nat)
    requires a < 0x10000
    ensures a / 0x1000 < 0x10
    ensures a == a / 0x1000 * 0x1000 + a / 0x100 % 0x10 * 0x100 + a / 0x10 % 0x10 * 0x10 + a % 0x10
    ensures a % 0x100 == a / 0x10 % 0x10 * 0x10 + a % 0x10
    ensures a % 0x1000 == a / 0x100 % 0x10 * 0x100 + a % 0x100
  {
    var n, t := a % 0x10, a / 0x10;
    var y, t2 := t % 0x10, t / 0x10;
    var x, i := t2 % 0x10, t2 / 0x10;
    assert a == 0x10 * t + n && t == 0x10 * t2 + y && t2 == 0x10 * i + x;
    assert a == 0x1000 * i + 0x100 * x + 0x10 * y + n;
    ModUnique(a, 0x100, t2, 0x10 * y + n);
    ModUnique(a, 0x1000, i, 0x100 * x + 0x10 * y + n);
    ModUnique(a, 0x10 * 0x10, t2, 0x10 * y + n);
    ModUnique(t, 0x10, t2, y);
    assert t2 == a / 0x100;
    assert i == a / 0x1000;
  }

  /** The handlers, named by their mnemonics; the comment of each gives the
      opcode pattern the dispatch maps to it. */
  datatype Instr =
    | Cls                                  // 00E0
    | Ret                                  // 00EE
    | Jp(nnn: Word)                        // 1NNN
    | Call(nnn: Word)                      // 2NNN
    | SeByte(x: Nibble, nn: Byte)          // 3XNN
    | SneByte(x: Nibble, nn: Byte)         // 4XNN
    | SeReg(x: Nibble, y: Nibble)          // 5XY0
    | LdByte(x: Nibble, nn: Byte)          // 6XNN
    | AddByte(x: Nibble, nn: Byte)         // 7XNN
    | LdReg(x: Nibble, y: Nibble)          // 8XY0
    | Or(x: Nibble, y: Nibble)             // 8XY1
    | And(x: Nibble, y: Nibble)            // 8XY2
    | Xor(x: Nibble, y: Nibble)            // 8XY3
    | AddReg(x: Nibble, y: Nibble)         // 8XY4
    | Sub(x: Nibble, y: Nibble)            // 8XY5
    | Shr(x: Nibble, y: Nibble)            // 8XY6
    | Subn(x: Nibble, y: Nibble)           // 8XY7
    | Shl(x: Nibble, y: Nibble)            // 8XYE
    | SneReg(x: Nibble, y: Nibble)         // 9XY0
    | LdI(nnn: Word)                       // ANNN
    | Drw(x: Nibble, y: Nibble, n: Nibble) // DXYN
    | Unknown                              // every other opcode

  /** The `match (i, x, y, n)` of `exec_opcode`, arm by arm: the first
      nibble selects the group, and within groups 0, 5, 8 and 9 the
      remaining nibbles select the handler. */
  function Dispatch(f: Fields): (ins: Instr)
    ensures f.i in {0x1, 0x2, 0x3, 0x4, 0x6, 0x7, 0xA, 0xD} ==> ins != Unknown
    ensures f.i in {0xB, 0xC, 0xE, 0xF} ==> ins == Unknown
  {
    match f.i
    case 0x0 =>
      if f.x == 0x0 && f.y == 0xE && f.n == 0x0 then Cls
      else if f.x == 0x0 && f.y == 0xE && f.n == 0xE then Ret
      else Unknown
    case 0x1 => Jp(f.nnn)
    case 0x2 => Call(f.nnn)
    case 0x3 => SeByte(f.x, f.nn)
    case 0x4 => SneByte(f.x, f.nn)
    case 0x5 => if f.n == 0x0 then SeReg(f.x, f.y) else Unknown
    case 0x6 => LdByte(f.x, f.nn)
    case 0x7 => AddByte(f.x, f.nn)
    case 0x8 => Arithmetic(f.x, f.y, f.n)
    case 0x9 => if f.n == 0x0 then SneReg(f.x, f.y) else Unknown
    case 0xA => LdI(f.nnn)
    case 0xD => Drw(f.x, f.y, f.n)
    case _ => Unknown
  }

  /** The 8XYN arms, selected by the last nibble. */
  function Arithmetic(x: Nibble, y: Nibble, n: Nibble): (ins: Instr)
    ensures ins == Unknown <==> 0x8 <= n <= 0xD || n == 0xF
  {
    match n
    case 0x0 => LdReg(x, y)
    case 0x1 => Or(x, y)
    case 0x2 => And(x, y)
    case 0x3 => Xor(x, y)
    case 0x4 => AddReg(x, y)
    case 0x5 => Sub(x, y)
    case 0x6 => Shr(x, y)
    case 0x7 => Subn(x, y)
    case 0xE => Shl(x, y)
    case _ => Unknown
  }

  /** The `PC` enum: what a handler asks the program counter to do. */
  datatype PC = Next | Jump(target: Word) | Skip(taken: bool)

  /** The machine after a handler, and the action it returned. */
  datatype Handled = Handled(state: State, action: PC)

  /** The start coordinates of a draw: `Vx & (WIDTH - 1)` and
      `Vy & (HEIGHT - 1)`. They are taken before VF is cleared. */
  function DrawOrigin(s: State, x: Nibble, y: Nibble): (o: (Byte, Byte))
    requires WellFormed(s)
    ensures (o.0 as int) < Display.WIDTH && (o.1 as int) < Display.HEIGHT
  {
    ByteMasks(s.v[x]);
    ByteMasks(s.v[y]);
    (And8(s.v[x], (Display.WIDTH - 1) as Byte), And8(s.v[y], (Display.HEIGHT - 1) as Byte))
  }

  /** Whether a draw of n rows would make the Rust code panic: a sprite row
      past the end of memory (`self.i + i` is also a `u16` sum) or a pixel
      past the end of the frame buffer. */
  predicate DrawFaults(s: State, x: Nibble, y: Nibble, n: Nibble)
    requires WellFormed(s)
    ensures !DrawFaults(s, x, y, n) ==> n == 0 || s.i as int + n <= Memory.SIZE
  {
    var (x0, y0) := DrawOrigin(s, x, y);
    n > 0 && (s.i as int + n - 1 >= Memory.SIZE || !Sprite.Fits(x0 as nat, y0 as nat, n))
  }

  /** The n sprite rows a draw reads, starting at I. */
  function SpriteAt(s: State, n: Nibble): (sprite: seq<Byte>)
    requires WellFormed(s) && (n == 0 || s.i as int + n <= Memory.SIZE)
    ensures |sprite| == n
    ensures forall r :: 0 <= r < n ==> sprite[r] == s.memory[s.i as int + r]
  {
    if n == 0 then [] else s.memory[s.i .. s.i as int + n]
  }

  /** Each handler on the value of the machine. A handler never touches the
      program counter itself, memory, the timers or the keypad; only a
      return, a call or a draw can panic. */
  function Handle(s: State, ins: Instr): (r: Run<Handled>)
    requires WellFormed(s)
    ensures r.Ok? ==> WellFormed(r.value.state)
    ensures r.Ok? ==> r.value.state.(v := s.v, i := s.i, display := s.display, stack := s.stack) == s
    ensures r.Panic? ==> ins.Ret? || ins.Call? || ins.Drw?
  {
    var v := s.v;
    match ins
    case Cls => Ok(Handled(s.(display := Display.Blank()), Next))
    case Ret =>
      // `pointer -= 1` underflows on an empty stack
      if s.stack.pointer == 0 then Panic
      else
        var (f, a) := Stack.Popped(s.stack);
        Ok(Handled(s.(stack := f), Jump(a)))
    case Jp(nnn) => Ok(Handled(s, Jump(nnn)))
    case Call(nnn) =>
      // `self.pc + 0x02` overflows, or the push indexes past the array
      if s.pc as int + 2 > 0xFFFF || s.stack.pointer == Stack.DEPTH then Panic
      else Ok(Handled(s.(stack := Stack.Pushed(s.stack, s.pc + 2)), Jump(nnn)))
    case SeByte(x, nn) => Ok(Handled(s, Skip(v[x] == nn)))
    case SneByte(x, nn) => Ok(Handled(s, Skip(v[x] != nn)))
    case SeReg(x, y) => Ok(Handled(s, Skip(v[x] == v[y])))
    case SneReg(x, y) => Ok(Handled(s, Skip(v[x] != v[y])))
    case LdByte(x, nn) => Ok(Handled(s.(v := v[x := nn]), Next))
    case AddByte(x, nn) => Ok(Handled(s.(v := v[x := Wrap8(v[x] as int + nn as int)]), Next))
    case LdReg(x, y) => Ok(Handled(s.(v := v[x := v[y]]), Next))
    case Or(x, y) => Ok(Handled(s.(v := v[x := Or8(v[x], v[y])]), Next))
    case And(x, y) => Ok(Handled(s.(v := v[x := And8(v[x], v[y])]), Next))
    case Xor(x, y) => Ok(Handled(s.(v := v[x := Xor8(v[x], v[y])]), Next))
    case AddReg(x, y) =>
      // `overflowing_add`: the wrapped sum, then the carry into VF
      var sum := v[x] as int + v[y] as int;
      Ok(Handled(s.(v := v[x := Wrap8(sum)][VF := if sum > 0xFF then 1 else 0]), Next))
    case Sub(x, y) =>
      // `overflowing_sub`: the wrapped difference, then VF = not borrow
      Ok(Handled(s.(v := v[x := Wrap8(v[x] as int - v[y] as int)][VF := if v[x] < v[y] then 0 else 1]), Next))
    case Subn(x, y) =>
      Ok(Handled(s.(v := v[x := Wrap8(v[y] as int - v[x] as int)][VF := if v[y] < v[x] then 0 else 1]), Next))
    case Shr(x, _) =>
      // VF is written first; the shift reads Vx afterwards
      var w := v[VF := And8(v[x], 1)];
      Ok(Handled(s.(v := w[x := w[x] / 2]), Next))
    case Shl(x, _) =>
      var w := v[VF := And8(v[x], 1)];
      Ok(Handled(s.(v := w[x := Wrap8(w[x] as int * 2)]), Next))
    case LdI(nnn) => Ok(Handled(s.(i := nnn), Next))
    case Drw(x, y, n) =>
      if DrawFaults(s, x, y, n) then Panic
      else
        var (x0, y0) := DrawOrigin(s, x, y);
        var sprite := SpriteAt(s, n);
        var flag: Byte := if Sprite.Collides(s.display, sprite, x0 as nat, y0 as nat) then 1 else 0;
        Ok(Handled(s.(v := v[VF := flag], display := Sprite.Drawn(s.display, sprite, x0 as nat, y0 as nat)), Next))
    case Unknown => Ok(Handled(s, Next))
  }

  /** The final `match` of `exec_opcode`: `pc += 2` for Next and for a skip
      not taken, `pc += 4` for a skip taken, the target for a jump. The
      additions panic on `u16` overflow. */
  function ApplyPc(pc: Word, a: PC): (r: Run<Word>)
    ensures a.Jump? ==> r == Ok(a.target)
    ensures !a.Jump? ==>
              var step := if a == Skip(true) then 4 else 2;
              (r.Panic? <==> pc as int + step > 0xFFFF) && (r.Ok? ==> r.value as int == pc as int + step)
  {
    match a
    case Next => Advance(pc, 2)
    case Jump(target) => Ok(target)
    case Skip(taken) => Advance(pc, if taken then 4 else 2)
  }

  /** `pc += step`, which panics on `u16` overflow. */
  function Advance(pc: Word, step: nat): (r: Run<Word>)
    ensures r.Ok? <==> pc as int + step <= 0xFFFF
    ensures r.Ok? ==> r.value as int - pc as int == step
  {
    if pc as int + step > 0xFFFF then Panic else Ok((pc as int + step) as Word)
  }

  /** `exec_opcode`: decode, run the handler, apply its action. Executing an
      opcode never writes memory, the timers or the keypad. */
  function Exec(s: State, op: Word): (r: Run<State>)
    requires WellFormed(s)
    ensures r.Ok? ==> WellFormed(r.value)
    ensures r.Ok? ==> r.value.memory == s.memory && r.value.keypad == s.keypad
    ensures r.Ok? ==> r.value.delay == s.delay && r.value.sound == s.sound && r.value.tick == s.tick
  {
    match Handle(s, Dispatch(Decode(op)))
    case Panic => Panic
    case Ok(h) =>
      match ApplyPc(h.state.pc, h.action)
      case Panic => Panic
      case Ok(pc) => Ok(h.state.(pc := pc))
  }
}
