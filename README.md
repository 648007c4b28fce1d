# A verified model of the chirp CHIP-8 interpreter core

chirp is a CHIP-8 interpreter written in Rust. This project models its core
in Dafny:

- the `Chip8` machine (src/chip8.rs): registers V0–VF, the index register I,
  the program counter, the delay and sound timers, the tick counter and its
  clock frequency `hz`;
- its components: 4 KiB memory (src/memory.rs), a 16-entry return stack
  (src/stack.rs), a 64 x 32 frame buffer (src/display.rs) and a 16-key keypad
  with a wait-for-key mode (src/keypad.rs);
- the opcode engine (src/opcodes.rs): decoding, dispatch to the handlers,
  and the program-counter action (`PC::Next`, `PC::Jump`, `PC::Skip`) that
  each handler returns.

The model has two layers.

1. **The value of the machine.** `Machine.State` holds every field of
   `Chip8`. `Opcodes.Handle`, `Opcodes.Exec`, `Machine.TickTimers` and
   `Engine.Cycle` say what each operation does to that value. A Rust panic is
   the result `Panic` of the `Run` datatype. The panics modelled are:
   - an array index out of bounds;
   - a `u16` overflow of pc or of I plus an offset (debug build);
   - a stack overflow or underflow;
   - the remainder by a zero divider in `tick_timers`.

   The lemmas about this layer state what the source promises:
   - how each opcode group changes the machine, and which opcodes are
     unknown;
   - call/return and last-in-first-out;
   - what a sprite draw does to each cell and to VF;
   - the timers counting down 60 times a second when 60 divides the clock,
     and 62 times a second at the 500 Hz the front ends use;
   - the keypad reporting the smallest pressed key;
   - a small program booted and run end to end.
2. **The machine as an object updated in place.** `Core.Chip8` and the
   component classes (`Memory.Memory`, `Stack.Stack`, `Display.Display`,
   `Keypad.KeyPad`) have the fields of the Rust structs. The Rust arrays
   become Dafny arrays. Every method is proved against the first layer:
   - `Abs()` after the call is the specification function applied to
     `Abs()` before it;
   - or, for a handler, `Handle(old(Abs()), instr) == Ok(Handled(Abs(), action))`.

   The methods keep the loops of the source: `load`, `get_key`, the heat map
   `tick` and the two nested loops of the sprite draw.

Bitwise `&`, `|`, `^` and `>>` on `u8` are defined arithmetically, bit by bit
(`Types.Bitwise`). `Types.ByteMasks` proves that the masks the code uses are
remainders.

Where the behaviour of the code differs from the usual description of CHIP-8,
the model follows the code:

- **DXYN overwrites pixels; it does not XOR them.** Each pixel of the sprite
  is written with `display.set(x, y, bit != 0)`. VF is raised when a 1-bit
  lands on a lit pixel. So drawing a sprite twice does not erase it
  (`Sprite.DrawTwice`).
- **Only the start of a sprite is wrapped.** The start is `Vx & 63`,
  `Vy & 31`. Nothing wraps after that: a sprite that crosses the right edge
  continues on the next row. A sprite whose last cell lies past the buffer
  panics. The frame buffer's `set`/`get` do no wrapping either.
- **8XYE puts the LOW bit of Vx in VF**, not the bit shifted out, exactly
  like 8XY6. Both write VF first and Vx second, so with x = F the shifted
  value remains in VF. 8XY4, 8XY5 and 8XY7 write VF last.
- **These opcodes go to the "unknown" arm:** every Bnnn, Cxnn, Exxx and
  Fxxx opcode (including Fx0A), and the 0nnn other than 00E0/00EE. Each only
  advances pc by 2. So no opcode starts the keypad wait; `wait_for_key` is
  modelled on its own.
- **`init` does not clamp the frequency; `set_hz` raises it to at least 60.**
  A machine created with |hz| < 60 panics on its first tick (the divider
  `hz / 60` is 0).
- **`reset` keeps `hz` and the stack.** It reinitialises everything else.
- **The timers do not run at 60 Hz at every clock.** The divider `hz / 60`
  truncates, so a second of `hz` ticks lowers the timers `hz / (hz / 60)`
  times (rounded down). That is 60 when 60 divides the clock
  (`Machine.SecondOfTicks`), but not in general. At the 500 Hz that both front ends use
  (src/main.rs:27, `CHIP_HZ` in src/wasm.rs:9) it is 8, so a second of 500
  ticks lowers the timers 62 times (`Machine.SecondAt500Hz`).
- **Memory and display accesses are bounds-checked, not masked.** An address
  past 4095 or a pixel index past 2047 panics.

## Model

| member | source | states |
|---|---|---|
| Types.ByteMasks | src/opcodes.rs:93-94 | `v & 63`, `v & 31` and `v & 1` on a byte are `v mod 64`, `v mod 32` and `v mod 2` |
| Types.FlagStep | src/opcodes.rs:103 | on 0/1 values, `VF OR (bit AND lit)` is 1 exactly when the flag was 1 or both bit and lit are 1, so the flag stays 0 or 1 |
| Memory.Memory.constructor | src/memory.rs:11-17 | a new memory is 4096 zero bytes |
| Memory.Memory.Set | src/memory.rs:46-50 | `set(i, v)` stores v at i and keeps every other cell; an address of 4096 or more is outside its precondition (it panics in Rust) |
| Memory.Heatmap.constructor | src/memory.rs:14-15 | the heat map of the browser build starts all zero |
| Memory.Heatmap.Tick | src/memory.rs:19-24 | every heat counter drops by one, saturating at 0, and never rises |
| Memory.Heatmap.Read | src/memory.rs:26-31 | a read warms the cell read by 20, saturating at 255, and no other cell changes |
| Memory.Heatmap.Write | src/memory.rs:33-38 | a write sets the written cell's heat to 255, and no other cell changes |
| Stack.Empty | src/stack.rs:7-12 | a new stack has sixteen slots and pointer 0 |
| Stack.Pushed | src/stack.rs:22-25 | a push stores the address in the slot at the pointer, raises the pointer by one and keeps every other slot |
| Stack.Popped | src/stack.rs:16-19 | a pop lowers the pointer by one, keeps every slot and returns the slot at the new pointer |
| Stack.PushThenPop | src/stack.rs:16-25 | a pop after a push returns the pushed address and restores the pointer; only the slot above the top keeps the stale address |
| Stack.LastInFirstOut | src/stack.rs:16-25 | after pushing a and then b, the pops return b and then a |
| Stack.ReplayKeepsPointerInRange | src/stack.rs:16-25 | along any sequence of pushes and pops that does not panic, the pointer stays within [0, 16] and ends at its start plus the pushes minus the pops |
| Stack.TooManyPushes | src/stack.rs:22-25 | more pushes in a row than there are free slots always overflow |
| Stack.Stack.constructor | src/stack.rs:7-12 | `Stack::new` is the empty stack |
| Stack.Stack.Pop | src/stack.rs:16-19 | `pop` moves the pointer down and returns the slot under it; requires a non-empty stack (underflow panics) |
| Stack.Stack.Push | src/stack.rs:22-25 | `push` writes the slot under the pointer and moves it up; requires a non-full stack (the index panics) |
| Display.Display.constructor | src/display.rs:20-26 | a new frame buffer is 2048 dark pixels |
| Display.Display.Clear | src/display.rs:33-35 | `clear` darkens every pixel |
| Display.Display.Set | src/display.rs:43-45 | `set(x, y, b)` makes `get(x, y)` return b and leaves every other cell as it was |
| Display.Display.GetU8 | src/display.rs:52-58 | `get_u8` is 1 when the pixel is lit and 0 otherwise |
| Display.IndexIsInjective | src/display.rs:38-40 | on the 64 x 32 screen, `i(x, y)` is below 2048 and distinct pixels have distinct indices |
| Display.IndexIsOnto | src/display.rs:38-40 | every index below 2048 is `i` of exactly one visible pixel |
| Display.RightEdgeSpillsIntoNextRow | src/display.rs:38-40 | pixel (x + 64, y) is the same cell as (x, y + 1): `i` does not wrap |
| Keypad.MapIsInOrder | src/keypad.rs:16-33 | row k of `KEYPAD_MAP` holds the logical key k |
| Keypad.FirstPressed | src/keypad.rs:35-41 | the scan from row `from` answers only a pressed key at or after `from`; that it is the smallest is `Keypad.FirstPressedIsSmallest` |
| Keypad.Poll | src/keypad.rs:34-42 | `get_key` keeps the destination; with no answer it changes nothing, with one it leaves waiting mode and answers a pressed key and the recorded destination |
| Keypad.KeyPad.IsKeyDown | src/keypad.rs:49-51 | `is_key_down(x)` is the flag of row x; it agrees with `get_key` by `Keypad.PolledKeyIsDown` |
| Keypad.FirstPressedIsSmallest | src/keypad.rs:35-41 | the scan finds the smallest pressed key, and finds none exactly when no key is pressed |
| Keypad.PollAnswersSmallestKey | src/keypad.rs:34-42 | `get_key` answers the smallest pressed key with the recorded destination and leaves waiting mode; with no key down it answers None and changes nothing |
| Keypad.PolledKeyIsDown | src/keypad.rs:34-51 | the key that `get_key` reports is down for `is_key_down`, and no smaller key is |
| Keypad.KeyPad.constructor | src/keypad.rs:9-14 | a new keypad is not waiting and has destination register 0 |
| Keypad.KeyPad.WaitForKey | src/keypad.rs:44-47 | `wait_for_key(dest)` sets waiting mode with that destination |
| Keypad.KeyPad.GetKey | src/keypad.rs:34-42 | the scan loop answers as `Poll` does and leaves the keypad in the state `Poll` gives |
| Machine.Init | src/chip8.rs:23-37 | `init` gives sixteen registers, 2048 pixels, 4096 bytes of memory and an in-range stack |
| Machine.SetHz | src/chip8.rs:39-41 | `set_hz` keeps the machine well formed |
| Machine.Reset | src/chip8.rs:43-53 | `reset` keeps the machine well formed |
| Machine.ResetIsInitKeepingStack | src/chip8.rs:43-53 | `reset` gives the freshly initialised machine of the same frequency, except that the stack is kept; resetting twice is resetting once |
| Machine.Fetch | src/chip8.rs:55-57 | the fetched opcode's high byte is the byte at pc and its low byte the byte at pc + 1 |
| Machine.Load | src/chip8.rs:59-63 | the memory after `load` still has 4096 bytes; where the bytes go is `Machine.LoadPlacesBytes` |
| Machine.Divider | src/chip8.rs:67 | the truncating `hz / 60` is 0 exactly when -60 < hz < 60, and lies in [1, hz] for hz of 60 or more |
| Machine.LoadPlacesBytes | src/chip8.rs:59-63 | `load` puts byte k at pos + k and keeps every other address |
| Machine.TickTimers | src/chip8.rs:65-78 | a tick that does not panic keeps the machine well formed |
| Machine.TickTimersCountsDown | src/chip8.rs:65-78 | each timer stays or drops by exactly one, never below 0. It drops exactly when the incremented tick is a multiple of `hz / 60`. The tick stays in [0, hz) and nothing else changes |
| Machine.SetHzMakesTicksSafe | src/chip8.rs:39-67 | after `set_hz` the divider is at least 1 and ticking never panics; `init` with 0 < hz < 60 panics on the first tick |
| Machine.Ticks | src/chip8.rs:65-78 | any number of ticks that does not panic keeps the machine well formed |
| Machine.TicksWithinPeriod | src/chip8.rs:65-78 | strictly inside a divider period the timers do not move and the tick just counts up |
| Machine.OnePeriodOfTicks | src/chip8.rs:65-78 | one divider period from a boundary lowers each timer once, saturating, and leaves the tick on the next boundary (0 at `hz`) |
| Machine.WholePeriodsOfTicks | src/chip8.rs:65-78 | p whole periods of `hz / 60` ticks from tick 0 lower each timer by p, saturating at 0, and leave the tick at p times the divider (0 at `hz`) |
| Machine.SecondOfTicks | src/chip8.rs:65-78 | when 60 divides `hz`, a second of `hz` ticks from tick 0 lowers each timer by 60, saturating, and ends at tick 0 with nothing else changed |
| Machine.SecondAt500Hz | src/chip8.rs:65-78 | at 500 Hz the divider is 8, so a second of 500 ticks from tick 0 lowers each timer by 62, not 60, and ends at tick 0 with nothing else changed |
| Machine.SecondTail | src/chip8.rs:65-78 | when the divider does not divide `hz`, the ticks after the last whole period of a second leave the timers alone and bring the tick back to 0 |
| Machine.TicksSplit | src/chip8.rs:65-78 | a + b ticks are a ticks followed by b ticks |
| Opcodes.Decode | src/opcodes.rs:13-18 | i, x, y and n are the four nibbles of the opcode, high to low; nn is its low byte and nnn its low twelve bits |
| Opcodes.SpriteAt | src/opcodes.rs:97-99 | a draw reads n sprite rows; row r is the memory byte at I + r |
| Opcodes.Dispatch | src/opcodes.rs:20-48 | the 1, 2, 3, 4, 6, 7, A and D groups always reach a handler; every B, C, E and F opcode reaches the unknown arm |
| Opcodes.Arithmetic | src/opcodes.rs:32-40 | an 8XYN opcode reaches the unknown arm exactly when n is 8 to D or F |
| Opcodes.ApplyPc | src/opcodes.rs:49-58 | Jump sets pc to its target; Next adds 2 and a taken Skip adds 4, panicking exactly when the sum passes 0xFFFF |
| Opcodes.Advance | src/opcodes.rs:49-58 | `pc += step` succeeds exactly when it stays within 0xFFFF, and then adds exactly step |
| Opcodes.DrawOrigin | src/opcodes.rs:93-94 | the draw origin `(Vx & 63, Vy & 31)` is a visible pixel |
| Opcodes.DrawFaults | src/opcodes.rs:97-107 | a draw that does not fault reads no sprite byte past the end of memory |
| Opcodes.Handle | src/opcodes.rs:20-48 | a handler never changes pc, memory, the timers or the keypad. Only 00EE, 2NNN and DXYN can panic |
| Opcodes.Exec | src/opcodes.rs:12-60 | executing an opcode never writes memory, the timers, the tick or the keypad |
| OpcodeProperties.UnknownExactlyWhenNotImplemented | src/opcodes.rs:20-48 | an opcode reaches the unknown arm exactly when it is not one of the implemented patterns; every B, C, E and F opcode is unknown |
| OpcodeProperties.UnknownOnlyAdvances | src/opcodes.rs:45-50 | an unknown opcode only adds 2 to pc (and panics when that overflows) |
| OpcodeProperties.SkipsMovePcOnly | src/opcodes.rs:126-143 | 3XNN, 4XNN, 5XY0 and 9XY0 add 4 to pc when their condition holds, 2 otherwise, and change nothing else; only the step actually taken must fit in a `u16` |
| OpcodeProperties.JumpGoesToTarget | src/opcodes.rs:69-71 | 1NNN sets pc to the low twelve bits of the opcode and changes nothing else |
| OpcodeProperties.LoadByteSetsRegister | src/opcodes.rs:74-77 | 6XNN stores nn in Vx, keeps every other register and advances pc by 2 |
| OpcodeProperties.AddByteWraps | src/opcodes.rs:80-83 | 7XNN adds nn to Vx modulo 256, does not touch VF (unless x = F) and advances pc by 2 |
| OpcodeProperties.LoadThenAdd | src/opcodes.rs:74-83 | executing a 6XNN and then a 7XNN opcode on the same register leaves (nn1 + nn2) mod 256 in it, whatever it held before, keeps every other register and advances pc by 4 |
| OpcodeProperties.DecodeOf | src/opcodes.rs:13-18 | an opcode built from a group, a register and a byte decodes back to those three fields |
| OpcodeProperties.ExecNext | src/opcodes.rs:49-50 | an opcode whose handler returns Next executes as the handler followed by pc += 2 |
| OpcodeProperties.ArithmeticFlags | src/opcodes.rs:170-191 | 8XY4 writes the wrapped sum and then VF = carry. 8XY5 and 8XY7 write the wrapped difference and then VF = 1 exactly when there is no borrow. No other register changes |
| OpcodeProperties.ShiftRightKeepsLowBit | src/opcodes.rs:194-198 | 8XY6 puts the low bit of Vx in VF and halves Vx; with x = F, VF ends 0 |
| OpcodeProperties.ShiftLeftKeepsLowBit | src/opcodes.rs:201-205 | 8XYE puts the LOW bit of Vx in VF and doubles Vx modulo 256; with x = F, VF ends twice its low bit |
| OpcodeProperties.ShiftRightOpcode | src/opcodes.rs:194-198 | executing an 8XY6 opcode puts the low bit of Vx in VF and halves Vx (VF ends 0 when x = F), keeps the other registers and advances pc by 2 |
| OpcodeProperties.ShiftLeftOpcode | src/opcodes.rs:201-205 | executing an 8XYE opcode puts the low bit of Vx in VF and doubles Vx modulo 256 (VF ends twice its low bit when x = F), keeps the other registers and advances pc by 2 |
| OpcodeProperties.CopyOrAnd | src/opcodes.rs:146-161 | executing 8XY0, 8XY1 or 8XY2 sets Vx to Vy, Vx OR Vy or Vx AND Vy, changes no other register and advances pc by 2 |
| OpcodeProperties.OrAndWithItselfKeeps | src/opcodes.rs:152-161 | executing 8XX1 or 8XX2 changes nothing but pc, which advances by 2 |
| OpcodeProperties.OrAndSelfKeeps | src/opcodes.rs:152-161 | the handlers of 8XX1 and 8XX2 leave the machine as it was and return Next |
| OpcodeProperties.OrAndSelfByte | src/opcodes.rs:152-161 | a byte ORed or ANDed with itself is unchanged |
| OpcodeProperties.OrAndSelf | src/opcodes.rs:152-161 | on the low k bits, OR and AND of a number with itself give the number modulo 2^k |
| OpcodeProperties.OrAndSelfBelow | src/opcodes.rs:152-161 | a number below 2^k ORed or ANDed with itself on k bits is unchanged |
| OpcodeProperties.LoadIndexOpcode | src/opcodes.rs:86-89 | executing an ANNN opcode sets I to the low twelve bits of the opcode, advances pc by 2 and changes nothing else |
| OpcodeProperties.XorSelf | src/opcodes.rs:164-167 | a value XORed with itself is 0 in every bit |
| OpcodeProperties.XorWithItselfClears | src/opcodes.rs:164-167 | 8XX3 clears Vx and changes nothing else but pc |
| OpcodeProperties.CallThenReturn | src/opcodes.rs:114-123 | 2NNN pushes pc + 2 and jumps to nnn; a following 00EE returns to pc + 2 with the pointer, registers, I and display restored |
| OpcodeProperties.StackFaults | src/opcodes.rs:114-123 | 00EE on an empty stack and 2NNN on a full one panic |
| OpcodeProperties.ClearBlanks | src/opcodes.rs:63-66 | 00E0 darkens every pixel and changes nothing else but pc |
| OpcodeProperties.DrawOriginWraps | src/opcodes.rs:93-94 | a draw starts at (Vx mod 64, Vy mod 32) |
| OpcodeProperties.DrawResult | src/opcodes.rs:92-111 | DXYN that does not panic sets VF to the collision flag, the frame buffer to the drawn sprite and pc to pc + 2. No other register, memory or the stack changes |
| Sprite.Painted | src/opcodes.rs:97-108 | the frame buffer after the first `done` pixels of a draw has the size of the old one; what each cell holds is `Sprite.PaintedEnds` and `Sprite.PaintedStep` |
| Sprite.Drawn | src/opcodes.rs:97-108 | the frame buffer after a whole draw has the size of the old one; what each cell holds is `Sprite.DrawnCells` |
| Sprite.Collides | src/opcodes.rs:103 | the collision flag of a whole draw: some sprite 1-bit lands on a lit cell (`Sprite.DrawnCells`, `Sprite.CollisionStep`) |
| Sprite.BitOf | src/opcodes.rs:100 | `(row >> b) & 1` is 0 or 1 |
| Sprite.PaintedStep | src/opcodes.rs:101-104 | writing the next pixel's bit over its cell extends the painted prefix by that pixel; the cell still held its old value before |
| Sprite.CollisionStep | src/opcodes.rs:103 | the flag after one more pixel is the flag before or (bit and old cell lit) |
| Sprite.PaintedEnds | src/opcodes.rs:97-108 | nothing is painted before the first pixel, and after the last one the buffer is the drawn one |
| Sprite.DrawnCells | src/opcodes.rs:97-108 | each sprite pixel ends on cell `(x0 + c) + 64 (y0 + r)` with its sprite bit. Every other cell keeps its value. The flag is raised exactly when some 1-bit landed on a lit cell |
| Sprite.DrawTwice | src/opcodes.rs:92-111 | drawing the same sprite twice at the same place changes nothing the second time; the second flag is raised exactly when the sprite has a 1-bit |
| Engine.Cycle | src/chip8.rs:80-95 | a cycle that does not panic keeps the machine well formed and changes neither `hz` nor memory |
| Engine.CycleWhileWaiting | src/chip8.rs:83-86 | while waiting for a key a cycle executes nothing. With a key down, the smallest key goes to the destination register and waiting ends. With none down, only the timers move |
| Engine.CycleRunsFetchedOpcode | src/chip8.rs:87-90 | out of waiting mode a cycle ignores the keys: it is the timer tick followed by executing the opcode at pc |
| Engine.Boot | src/wasm.rs:35-37 | loading a ROM (`reset`, `load_font(0)`, `load(0x200, rom)`) keeps the machine well formed |
| Engine.BootedProgram | src/wasm.rs:35-37 | after loading, the ROM sits at 0x200 and the rest of the machine is the reset one |
| Engine.Run | src/chip8.rs:80-95 | n cycles that do not panic keep the machine well formed |
| Engine.StepLoad | src/opcodes.rs:74-77 | at any clock of 60 Hz or more, a cycle running a 6XNN on a tick whose successor neither ends a timer period (`(tick + 1) % (hz / 60) != 0`) nor reaches `hz` stores nn, advances pc by 2 and counts one tick |
| Engine.StepAdd | src/opcodes.rs:170-175 | on the same kind of tick at any clock of 60 Hz or more, a cycle running 8014 with V0 = 10, V1 = 5 leaves 15 in V0 and 0 in VF, advances pc by 2 and counts one tick |
| Engine.AddProgram | src/chip8.rs:80-95 | the ROM `60 0A 61 05 80 14` at 600 Hz, after three cycles: V0 = 15, V1 = 5, VF = 0, pc = 0x206, timers unchanged |
| Core.Chip8.Init | src/chip8.rs:23-37 | the object built by `init` has the value `Machine.Init(hz)`, with fresh arrays and components |
| Core.Chip8.SetHz | src/chip8.rs:39-41 | only `hz` changes, to max(hz, 60) |
| Core.Chip8.Reset | src/chip8.rs:43-53 | the machine is reinitialised in place to `Machine.Reset` of its old value |
| Core.Chip8.Fetch | src/chip8.rs:55-57 | returns the big-endian word at pc from the memory array |
| Core.Chip8.Load | src/chip8.rs:59-63 | the loop of `set`s leaves memory equal to `Machine.Load` of the old memory; nothing else changes |
| Core.Chip8.LoadFont | src/chip8.rs:121-125 | the 80 glyph bytes of `FONT` are stored from pos on; nothing else changes |
| Core.Chip8.TickTimers | src/chip8.rs:65-78 | the new value is `Machine.TickTimers` of the old one |
| Core.Chip8.Cycle | src/chip8.rs:80-95 | the new value is `Engine.Cycle` of the old value and the pressed keys |
| Core.Chip8.ExecOpcode | src/opcodes.rs:12-60 | the new value is `Exec` of the old value and the opcode |
| Core.Chip8.RunHandler | src/opcodes.rs:20-48 | dispatching to the handler of an instruction has the effect and action `Handle` gives |
| Core.Chip8.RunRegisterOp | src/opcodes.rs:26-39 | the 6XNN, 7XNN and 8XYN handlers have the effect and action `Handle` gives |
| Core.Chip8.Op00E0 | src/opcodes.rs:63-66 | clears the frame buffer and returns Next |
| Core.Chip8.Op00EE | src/opcodes.rs:114-116 | pops the stack and returns a jump to the popped address |
| Core.Chip8.Op1NNN | src/opcodes.rs:69-71 | returns a jump to nnn and changes nothing |
| Core.Chip8.Op2NNN | src/opcodes.rs:119-123 | pushes pc + 2 and returns a jump to nnn |
| Core.Chip8.Op3XNN | src/opcodes.rs:126-128 | returns a skip taken exactly when Vx == nn |
| Core.Chip8.Op4XNN | src/opcodes.rs:131-133 | returns a skip taken exactly when Vx != nn |
| Core.Chip8.Op5XY0 | src/opcodes.rs:136-138 | returns a skip taken exactly when Vx == Vy |
| Core.Chip8.Op9XY0 | src/opcodes.rs:141-143 | returns a skip taken exactly when Vx != Vy |
| Core.Chip8.Op6XNN | src/opcodes.rs:74-77 | Vx = nn |
| Core.Chip8.Op7XNN | src/opcodes.rs:80-83 | Vx = (Vx + nn) mod 256 |
| Core.Chip8.OpANNN | src/opcodes.rs:86-89 | I = nnn |
| Core.Chip8.Op8XY0 | src/opcodes.rs:146-149 | Vx = Vy |
| Core.Chip8.Op8XY1 | src/opcodes.rs:152-155 | Vx = Vx OR Vy |
| Core.Chip8.Op8XY2 | src/opcodes.rs:158-161 | Vx = Vx AND Vy |
| Core.Chip8.Op8XY3 | src/opcodes.rs:164-167 | Vx = Vx XOR Vy |
| Core.Chip8.Op8XY4 | src/opcodes.rs:170-175 | the wrapped sum in Vx, then the carry in VF |
| Core.Chip8.Op8XY5 | src/opcodes.rs:178-183 | the wrapped Vx - Vy in Vx, then VF = not borrow |
| Core.Chip8.Op8XY7 | src/opcodes.rs:186-191 | the wrapped Vy - Vx in Vx, then VF = not borrow |
| Core.Chip8.Op8XY6 | src/opcodes.rs:194-198 | VF = low bit of Vx, then Vx halved |
| Core.Chip8.Op8XYE | src/opcodes.rs:201-205 | VF = low bit of Vx, then Vx doubled modulo 256 |
| Core.Chip8.OpDXYN | src/opcodes.rs:92-111 | the nested draw loops leave VF = collision flag and the frame buffer = the drawn sprite, as `Handle` gives for DXYN |
| Core.Chip8.DrawRows | src/opcodes.rs:97-109 | after all n rows, all 8 n pixels are painted and VF holds their collision flag |
| Core.Chip8.DrawRow | src/opcodes.rs:98-108 | one row paints 8 more pixels, from bit 7 down to bit 0, left to right |
| Core.Chip8.DrawPixel | src/opcodes.rs:100-105 | the loop body paints one more pixel and updates VF with it |
| Core.PixelStep | src/opcodes.rs:101-104 | `VF OR= bit AND get_u8(x, y)` and then `set(x, y, bit != 0)` extend the painted prefix and the collision flag by one pixel |
| Core.FlagOfPixel | src/opcodes.rs:103 | `VF OR (bit AND lit)` is the collision flag after one more pixel |

## Left out

- `sync_cycle` (src/chip8.rs:97-101) is left out. It runs `cycle` a number of times computed from a floating-point ratio of `hz` to the frame rate. `Engine.Run` stands for n calls of `cycle` with no key down.
- Rendering is left out: `Display::draw`, `update_screen_size`, `width_ratio`/`height_ratio`, the shaders and post-processing. They use floating point and the graphics library.
- The host key codes of `KEYPAD_MAP` and macroquad's `is_key_down` are left out. The key state is the parameter `pressed` (one flag per table row).
- `send_state` and the JavaScript calls of the browser build are left out; they are foreign calls.
- The heat map (`Memory.Heatmap`) is modelled on its own and is not wired into the machine. In the browser build `Memory::get`/`set` warm it (so `fetch` and `load`, which call them, do too; the sprite reads of DXYN go through `Index` and do not), `reset` zeroes it with a new `Memory`, and `send_state` cools it with `memory.tick()`. `Memory.Memory.Get`/`Set` and `Core.Chip8` do not touch it, because every heat effect is confined to the browser display of memory.
- The `println!` of the unknown-opcode arm is left out: it is output only.
- `Memory.Memory.Get` and `Display.Display.Get` are plain reads. Their `Index` and `get` forms carry no contract beyond the bounds precondition.
- Panics: the value layer models each panic listed above as `Panic`, except an oversized `load` (next line). Each method of the object layer instead requires that its value-layer counterpart does not panic. So the object layer does not model a partly executed draw before a panic.
- `Core.Chip8.Reset` reinitialises the keypad, frame buffer and memory in place. Rust assigns new values to those fields; the two agree, since Rust structs are held by value.
- `Machine.Load` and `Engine.Boot` (and `Core.Chip8.Load`) require that the bytes fit below address 4096. Rust's `load` panics in `Memory::set` on a ROM that does not fit; the model states that bound as a precondition and has no `Panic` result for it.
- `u16` overflow of pc is modelled as a panic, as in a debug build. A release build would wrap instead.
- `Machine.SetHz`, `Machine.Reset`, `Machine.TickTimers`, `Machine.Ticks`, `Engine.Cycle`, `Engine.Run` and `Engine.Boot`: their own contracts state only well-formedness and framing. Their behaviour is stated by the lemmas and methods listed beside them.
