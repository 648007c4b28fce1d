/** What executing one opcode does, stated per opcode group over every
    machine state (src/opcodes.rs). */
module OpcodeProperties {
  import opened Types
  import Stack
  import Display
  import Sprite
  import opened Machine
  import opened Opcodes

  /** The opcodes the dispatch implements, read off the four nibbles. */
  predicate Implemented(op: Word) {
    var f := Decode(op);
    || op == 0x00E0 || op == 0x00EE
    || f.i in {0x1, 0x2, 0x3, 0x4, 0x6, 0x7, 0xA, 0xD}
    || (f.i in {0x5, 0x9} && f.n == 0)
    || (f.i == 0x8 && (f.n <= 0x7 || f.n == 0xE))
  }

  /** An opcode reaches the "unknown" arm exactly when it is none of the
      implemented ones: in particular every B, C, E and F opcode (jump with
      offset, random, the key skips, the timer, key-wait, font, BCD and
      register-dump instructions) is unknown. */
  lemma UnknownExactlyWhenNotImplemented(op: Word)
    ensures Dispatch(Decode(op)) == Unknown <==> !Implemented(op)
    ensures Decode(op).i in {0xB, 0xC, 0xE, 0xF} ==> Dispatch(Decode(op)) == Unknown
  {
    var f := Decode(op);
    if f.i == 0 {
      assert op == 0x00E0 <==> (f.x == 0 && f.y == 0xE && f.n == 0);
      assert op == 0x00EE <==> (f.x == 0 && f.y == 0xE && f.n == 0xE);
    }
  }

  /** An unknown opcode changes no register, no memory cell, no pixel and
      nothing on the stack: it only moves pc to the next instruction. */
  lemma UnknownOnlyAdvances(s: State, op: Word)
    requires WellFormed(s) && !Implemented(op)
    ensures Exec(s, op) == if s.pc as int + 2 > 0xFFFF then Panic else Ok(s.(pc := s.pc + 2))
  {
    UnknownExactlyWhenNotImplemented(op);
  }

  /** The condition a skip opcode tests, None for other opcodes. */
  function SkipCondition(s: State, op: Word): Option<bool>
    requires WellFormed(s)
  {
    var f := Decode(op);
    if f.i == 0x3 then Some(s.v[f.x] == f.nn)
    else if f.i == 0x4 then Some(s.v[f.x] != f.nn)
    else if f.i == 0x5 && f.n == 0 then Some(s.v[f.x] == s.v[f.y])
    else if f.i == 0x9 && f.n == 0 then Some(s.v[f.x] != s.v[f.y])
    else None
  }

  /** 3XNN, 4XNN, 5XY0 and 9XY0 move pc by 4 when their condition holds and
      by 2 otherwise, and change nothing else. */
  lemma SkipsMovePcOnly(s: State, op: Word)
    requires WellFormed(s) && SkipCondition(s, op).Some?
    requires s.pc as int + (if SkipCondition(s, op).value then 4 else 2) <= 0xFFFF
    ensures Exec(s, op) == Ok(s.(pc := s.pc + if SkipCondition(s, op).value then 4 else 2))
  {
  }

  /** 1NNN jumps to nnn and changes nothing else. */
  lemma JumpGoesToTarget(s: State, op: Word)
    requires WellFormed(s) && Decode(op).i == 0x1
    ensures Exec(s, op) == Ok(s.(pc := (op as int % 0x1000) as Word))
  {
  }

  /** 6XNN stores nn in Vx and changes no other register. */
  lemma LoadByteSetsRegister(s: State, op: Word)
    requires WellFormed(s) && Decode(op).i == 0x6 && s.pc as int + 2 <= 0xFFFF
    ensures var f, r := Decode(op), Exec(s, op);
            && r.Ok? && r.value.v[f.x] as int == op as int % 0x100
            && (forall k :: 0 <= k < REGISTERS && k != f.x ==> r.value.v[k] == s.v[k])
            && r.value == s.(v := r.value.v, pc := s.pc + 2)
  {
  }

  /** 7XNN adds nn to Vx modulo 256; VF is left alone unless it is Vx. */
  lemma AddByteWraps(s: State, op: Word)
    requires WellFormed(s) && Decode(op).i == 0x7 && s.pc as int + 2 <= 0xFFFF
    ensures var f, r := Decode(op), Exec(s, op);
            && r.Ok? && r.value.v[f.x] as int == (s.v[f.x] as int + op as int % 0x100) % 0x100
            && (forall k :: 0 <= k < REGISTERS && k != f.x ==> r.value.v[k] == s.v[k])
            && r.value == s.(v := r.value.v, pc := s.pc + 2)
  {
  }

  /** 6XNN followed by 7XNN on the same register leaves the sum of the two
      immediates modulo 256 in it, whatever the register held before; the
      other registers keep their values and pc moves past both. */
  lemma LoadThenAdd(s: State, op1: Word, op2: Word)
    requires WellFormed(s) && s.pc as int + 4 <= 0xFFFF
    requires Decode(op1).i == 0x6 && Decode(op2).i == 0x7 && Decode(op1).x == Decode(op2).x
    ensures var x, r1 := Decode(op1).x, Exec(s, op1);
            && r1.Ok?
            && var r2 := Exec(r1.value, op2);
            && r2.Ok? && r2.value.v[x] as int == (op1 as int % 0x100 + op2 as int % 0x100) % 0x100
            && (forall k :: 0 <= k < REGISTERS && k != x ==> r2.value.v[k] == s.v[k])
            && r2.value == s.(v := r2.value.v, pc := s.pc + 4)
  {
    LoadByteSetsRegister(s, op1);
    AddByteWraps(Exec(s, op1).value, op2);
  }

  /** The fields of an opcode assembled from a group, a register and a
      byte. */
  lemma DecodeOf(op: Word, i: Nibble, x: Nibble, nn: Byte)
    requires op as int == 0x1000 * i + 0x100 * x + nn as int
    ensures Decode(op).i == i && Decode(op).x == x && Decode(op).nn == nn
    ensures op as int % 0x100 == nn as int
  {
    var f := Decode(op);
    ModUnique(op as int, 0x100, 0x10 * i + x, nn as int);
    ModUnique(op as int, 0x100, 0x10 * f.i + f.x, f.nn as int);
    ModUnique(op as int / 0x100, 0x10, i, x);
    ModUnique(op as int / 0x100, 0x10, f.i, f.x);
  }

  /** An opcode whose handler returns Next executes as that handler
      followed by `pc += 2`. */
  lemma ExecNext(s: State, op: Word, ins: Instr, t: State)
    requires WellFormed(s) && Dispatch(Decode(op)) == ins && s.pc as int + 2 <= 0xFFFF
    requires Handle(s, ins) == Ok(Handled(t, Next)) && t.pc == s.pc
    ensures Exec(s, op) == Ok(t.(pc := s.pc + 2))
  {
  }

  /** The result of an 8XYN arithmetic opcode: the value written to Vx and
      the flag then written to VF. */
  lemma ArithmeticFlags(s: State, op: Word)
    requires WellFormed(s) && Decode(op).i == 0x8 && Decode(op).n in {0x4, 0x5, 0x7}
    requires s.pc as int + 2 <= 0xFFFF
    ensures var f, r := Decode(op), Exec(s, op);
            var vx, vy := s.v[f.x] as int, s.v[f.y] as int;
            && r.Ok?
            // 8XY4: VF is the carry out of the 8-bit sum
            && (f.n == 0x4 ==>
                  && (r.value.v[VF] == 1 <==> vx + vy > 0xFF) && r.value.v[VF] <= 1
                  && (f.x != VF ==> r.value.v[f.x] as int == (vx + vy) % 0x100))
            // 8XY5: VF = 1 exactly when no borrow, Vx >= Vy
            && (f.n == 0x5 ==>
                  && (r.value.v[VF] == 0 <==> vx < vy) && r.value.v[VF] <= 1
                  && (f.x != VF ==> r.value.v[f.x] as int == (vx - vy) % 0x100))
            // 8XY7: VF = 1 exactly when no borrow, Vy >= Vx
            && (f.n == 0x7 ==>
                  && (r.value.v[VF] == 0 <==> vy < vx) && r.value.v[VF] <= 1
                  && (f.x != VF ==> r.value.v[f.x] as int == (vy - vx) % 0x100))
            && (forall k :: 0 <= k < REGISTERS && k != f.x && k != VF ==> r.value.v[k] == s.v[k])
            && r.value == s.(v := r.value.v, pc := s.pc + 2)
  {
  }

  /** 8XY6 puts the LOW bit of Vx in VF and halves Vx. VF is written first,
      so with x = F the shifted flag, 0, is what remains in VF. Vy is not
      read. */
  lemma ShiftRightKeepsLowBit(s: State, x: Nibble, y: Nibble)
    requires WellFormed(s)
    ensures var r := Handle(s, Shr(x, y));
            var vx := s.v[x] as int;
            && r.Ok? && r.value.action == Next
            && (x != VF ==> r.value.state.v[VF] as int == vx % 2 && r.value.state.v[x] as int == vx / 2)
            && (x == VF ==> r.value.state.v[VF] == 0)
            && (forall k :: 0 <= k < REGISTERS && k != x && k != VF ==> r.value.state.v[k] == s.v[k])
            && r.value.state == s.(v := r.value.state.v)
  {
    ByteMasks(s.v[x]);
  }

  /** 8XYE also puts the LOW bit of Vx in VF (not the bit shifted out), and
      doubles Vx modulo 256; with x = F the doubled flag remains. */
  lemma ShiftLeftKeepsLowBit(s: State, x: Nibble, y: Nibble)
    requires WellFormed(s)
    ensures var r := Handle(s, Shl(x, y));
            var vx := s.v[x] as int;
            && r.Ok? && r.value.action == Next
            && (x != VF ==> r.value.state.v[VF] as int == vx % 2 && r.value.state.v[x] as int == vx * 2 % 0x100)
            && (x == VF ==> r.value.state.v[VF] as int == vx % 2 * 2)
            && (forall k :: 0 <= k < REGISTERS && k != x && k != VF ==> r.value.state.v[k] == s.v[k])
            && r.value.state == s.(v := r.value.state.v)
  {
    ByteMasks(s.v[x]);
  }

  /** 8XY6 through decode and dispatch: the low bit of Vx in VF, Vx halved,
      pc on the next instruction. */
  lemma ShiftRightOpcode(s: State, op: Word)
    requires WellFormed(s) && Decode(op).i == 0x8 && Decode(op).n == 0x6 && s.pc as int + 2 <= 0xFFFF
    ensures var f, r := Decode(op), Exec(s, op);
            var vx := s.v[f.x] as int;
            && r.Ok?
            && (f.x != VF ==> r.value.v[VF] as int == vx % 2 && r.value.v[f.x] as int == vx / 2)
            && (f.x == VF ==> r.value.v[VF] == 0)
            && (forall k :: 0 <= k < REGISTERS && k != f.x && k != VF ==> r.value.v[k] == s.v[k])
            && r.value == s.(v := r.value.v, pc := s.pc + 2)
  {
    var f := Decode(op);
    ShiftRightKeepsLowBit(s, f.x, f.y);
    assert Dispatch(f) == Shr(f.x, f.y);
    ExecNext(s, op, Shr(f.x, f.y), Handle(s, Shr(f.x, f.y)).value.state);
  }

  /** 8XYE through decode and dispatch: the LOW bit of Vx in VF, Vx doubled
      modulo 256, pc on the next instruction. */
  lemma ShiftLeftOpcode(s: State, op: Word)
    requires WellFormed(s) && Decode(op).i == 0x8 && Decode(op).n == 0xE && s.pc as int + 2 <= 0xFFFF
    ensures var f, r := Decode(op), Exec(s, op);
            var vx := s.v[f.x] as int;
            && r.Ok?
            && (f.x != VF ==> r.value.v[VF] as int == vx % 2 && r.value.v[f.x] as int == vx * 2 % 0x100)
            && (f.x == VF ==> r.value.v[VF] as int == vx % 2 * 2)
            && (forall k :: 0 <= k < REGISTERS && k != f.x && k != VF ==> r.value.v[k] == s.v[k])
            && r.value == s.(v := r.value.v, pc := s.pc + 2)
  {
    var f := Decode(op);
    ShiftLeftKeepsLowBit(s, f.x, f.y);
    assert Dispatch(f) == Shl(f.x, f.y);
    ExecNext(s, op, Shl(f.x, f.y), Handle(s, Shl(f.x, f.y)).value.state);
  }

  /** 8XY0, 8XY1 and 8XY2 write Vy, Vx OR Vy and Vx AND Vy into Vx, touch
      no flag, and move pc on. */
  lemma CopyOrAnd(s: State, op: Word)
    requires WellFormed(s) && Decode(op).i == 0x8 && Decode(op).n in {0x0, 0x1, 0x2}
    requires s.pc as int + 2 <= 0xFFFF
    ensures var f := Decode(op);
            var vx, vy := s.v[f.x], s.v[f.y];
            var w := if f.n == 0x0 then vy else if f.n == 0x1 then Or8(vx, vy) else And8(vx, vy);
            Exec(s, op) == Ok(s.(v := s.v[f.x := w], pc := s.pc + 2))
  {
    var f := Decode(op);
    var vx, vy := s.v[f.x], s.v[f.y];
    var w := if f.n == 0x0 then vy else if f.n == 0x1 then Or8(vx, vy) else And8(vx, vy);
    var ins := Arithmetic(f.x, f.y, f.n);
    assert Dispatch(f) == ins;
    assert Handle(s, ins) == Ok(Handled(s.(v := s.v[f.x := w]), Next));
    ExecNext(s, op, ins, s.(v := s.v[f.x := w]));
  }

  /** 8XX1 and 8XX2 leave Vx as it is: OR and AND of a value with itself
      give the value back. */
  lemma OrAndWithItselfKeeps(s: State, op: Word)
    requires WellFormed(s) && Decode(op).i == 0x8 && Decode(op).n in {0x1, 0x2} && Decode(op).x == Decode(op).y
    requires s.pc as int + 2 <= 0xFFFF
    ensures Exec(s, op) == Ok(s.(pc := s.pc + 2))
  {
    var f := Decode(op);
    var ins := Arithmetic(f.x, f.y, f.n);
    assert Dispatch(f) == ins;
    OrAndSelfKeeps(s, ins);
    ExecNext(s, op, ins, s);
  }

  /** The handlers of 8XX1 and 8XX2 change nothing. */
  lemma OrAndSelfKeeps(s: State, ins: Instr)
    requires WellFormed(s) && (ins.Or? || ins.And?) && ins.x == ins.y
    ensures Handle(s, ins) == Ok(Handled(s, Next))
  {
    var vx := s.v[ins.x];
    OrAndSelfByte(vx);
    assert s.v[ins.x := vx] == s.v;
  }

  /** A byte ORed or ANDed with itself is that byte. */
  lemma OrAndSelfByte(b: Byte)
    ensures Or8(b, b) == b && And8(b, b) == b
  {
    assert Pow2(8) == 0x100;
    OrAndSelfBelow(b as nat, 8);
  }

  lemma OrAndSelfBelow(a: nat, k: nat)
    requires a < Pow2(k)
    ensures Bitwise(OrBits, a, a, k) == a && Bitwise(AndBits, a, a, k) == a
  {
    OrAndSelf(a, k);
    ModUnique(a, Pow2(k), 0, a);
  }

  /** OR and AND of a value with itself keep its low k bits. */
  lemma {:induction false} OrAndSelf(a: nat, k: nat)
    ensures Bitwise(OrBits, a, a, k) == a % Pow2(k)
    ensures Bitwise(AndBits, a, a, k) == a % Pow2(k)
  {
    if k > 0 {
      OrAndSelf(a / 2, k - 1);
      HalveMod(a, Pow2(k - 1));
    }
  }

  /** ANNN loads the low twelve bits of the opcode into I and moves pc on. */
  lemma LoadIndexOpcode(s: State, op: Word)
    requires WellFormed(s) && Decode(op).i == 0xA && s.pc as int + 2 <= 0xFFFF
    ensures Exec(s, op) == Ok(s.(i := (op as int % 0x1000) as Word, pc := s.pc + 2))
  {
  }

  /** XOR is bitwise inequality, so a value XORed with itself is zero. */
  lemma {:induction false} XorSelf(a: nat, k: nat)
    ensures Bitwise(XorBits, a, a, k) == 0
  {
    if k > 0 {
      XorSelf(a / 2, k - 1);
    }
  }

  /** 8XX3 clears Vx (and leaves VF alone unless it is Vx). */
  lemma XorWithItselfClears(s: State, op: Word)
    requires WellFormed(s) && Decode(op).i == 0x8 && Decode(op).n == 0x3 && Decode(op).x == Decode(op).y
    requires s.pc as int + 2 <= 0xFFFF
    ensures Exec(s, op) == Ok(s.(v := s.v[Decode(op).x := 0], pc := s.pc + 2))
  {
    XorSelf(s.v[Decode(op).x] as nat, 8);
  }

  /** 2NNN pushes the address of the next instruction and jumps; a 00EE
      executed there comes back to that address with the stack pointer
      restored. */
  lemma CallThenReturn(s: State, op: Word)
    requires WellFormed(s) && Decode(op).i == 0x2
    requires s.pc as int + 2 <= 0xFFFF && s.stack.pointer < Stack.DEPTH
    ensures var c := Exec(s, op);
            && c.Ok? && c.value.pc as int == op as int % 0x1000
            && c.value.stack.pointer == s.stack.pointer + 1
            && c.value.stack.slots[s.stack.pointer] == s.pc + 2
            && var r := Exec(c.value, 0x00EE);
            && r.Ok? && r.value.pc == s.pc + 2
            && r.value.stack.pointer == s.stack.pointer
            && (forall k :: 0 <= k < Stack.DEPTH && k != s.stack.pointer ==> r.value.stack.slots[k] == s.stack.slots[k])
            && r.value.v == s.v && r.value.i == s.i && r.value.display == s.display
  {
    Stack.PushThenPop(s.stack, s.pc + 2);
  }

  /** 00EE on an empty stack and 2NNN on a full one panic. */
  lemma StackFaults(s: State, op: Word)
    requires WellFormed(s)
    ensures s.stack.pointer == 0 ==> Exec(s, 0x00EE) == Panic
    ensures Decode(op).i == 0x2 && s.stack.pointer == Stack.DEPTH ==> Exec(s, op) == Panic
  {
  }

  /** 00E0 blanks every pixel and changes nothing else. */
  lemma ClearBlanks(s: State)
    requires WellFormed(s) && s.pc as int + 2 <= 0xFFFF
    ensures Exec(s, 0x00E0).Ok?
    ensures forall k :: 0 <= k < Display.CELLS ==> !Exec(s, 0x00E0).value.display[k]
    ensures Exec(s, 0x00E0).value == s.(display := Exec(s, 0x00E0).value.display, pc := s.pc + 2)
  {
  }

  /** The start of a draw is (Vx mod 64, Vy mod 32): only the start is
      brought onto the screen. */
  lemma DrawOriginWraps(s: State, x: Nibble, y: Nibble)
    requires WellFormed(s)
    ensures DrawOrigin(s, x, y).0 as int == s.v[x] as int % Display.WIDTH
    ensures DrawOrigin(s, x, y).1 as int == s.v[y] as int % Display.HEIGHT
  {
    ByteMasks(s.v[x]);
    ByteMasks(s.v[y]);
  }

  /** DXYN, when it does not panic: VF receives the collision flag and the
      frame buffer the drawn sprite (every footprint cell overwritten with
      its sprite bit, see `Sprite.DrawnCells`), and pc moves on; no other
      register, memory or the stack changes. */
  lemma DrawResult(s: State, op: Word)
    requires WellFormed(s) && Decode(op).i == 0xD && s.pc as int + 2 <= 0xFFFF
    requires !DrawFaults(s, Decode(op).x, Decode(op).y, Decode(op).n)
    ensures var f := Decode(op);
            var (x0, y0) := DrawOrigin(s, f.x, f.y);
            var sprite := SpriteAt(s, f.n);
            var flag: Byte := if Sprite.Collides(s.display, sprite, x0 as nat, y0 as nat) then 1 else 0;
            Exec(s, op) == Ok(s.(v := s.v[VF := flag], display := Sprite.Drawn(s.display, sprite, x0 as nat, y0 as nat),
                                 pc := s.pc + 2))
  {
    var f := Decode(op);
    var ins := Drw(f.x, f.y, f.n);
    var (x0, y0) := DrawOrigin(s, f.x, f.y);
    var sprite := SpriteAt(s, f.n);
    var flag: Byte := if Sprite.Collides(s.display, sprite, x0 as nat, y0 as nat) then 1 else 0;
    var t := s.(v := s.v[VF := flag], display := Sprite.Drawn(s.display, sprite, x0 as nat, y0 as nat));
    assert Dispatch(f) == ins;
    assert Handle(s, ins) == Ok(Handled(t, Next));
    ExecNext(s, op, ins, t);
  }
}
