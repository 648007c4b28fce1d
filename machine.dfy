/** The state of the `Chip8` struct as a value, and the operations of
    src/chip8.rs other than `cycle` on that value. */
module Machine {
  import opened Types
  import Memory
  import Stack
  import Display
  import Keypad

  /** Every field of `Chip8`; the arrays become sequences. */
  datatype State = State(
    hz: int,              // assumed clock frequency (i32)
    tick: int,            // cycles since the last wrap of the divider (i32)
    i: Word,              // index register
    pc: Word,             // program counter
    delay: Byte,          // delay timer
    sound: Byte,          // sound timer
    v: seq<Byte>,         // registers V0..VF
    keypad: Keypad.Pad,
    display: seq<bool>,
    stack: Stack.Frames,
    memory: seq<Byte>)

  const REGISTERS: nat := 16
  const VF: nat := 0xF
  const PROGRAM_START: Word := 0x200

  /** The shapes the Rust types fix, and the ranges of the two `i32` fields. */
  predicate WellFormed(s: State) {
    && |s.v| == REGISTERS
    && |s.display| == Display.CELLS
    && |s.memory| == Memory.SIZE
    && Stack.InRange(s.stack)
    && IsI32(s.hz)
    && 0 <= s.tick < I32_MAX
  }

  /** `Chip8::init(hz)`: the frequency is taken as given, not clamped. */
  function Init(hz: int): (s: State)
    requires IsI32(hz)
    ensures WellFormed(s)
  {
    State(hz, 0, 0, PROGRAM_START, 0, 0, seq(REGISTERS, _ => 0), Keypad.Pad(false, 0),
          Display.Blank(), Stack.Empty(), Memory.Zeros())
  }

  /** `set_hz`: frequencies below 60 are raised to 60. */
  function SetHz(s: State, hz: int): (r: State)
    requires WellFormed(s) && IsI32(hz)
    ensures WellFormed(r)
  {
    s.(hz := Max(hz, 60))
  }

  /** `reset`: everything returns to its initial value except the clock
      frequency and the stack. */
  function Reset(s: State): (r: State)
    requires WellFormed(s)
    ensures WellFormed(r)
  {
    s.(tick := 0, i := 0, pc := PROGRAM_START, delay := 0, sound := 0,
       v := seq(REGISTERS, _ => 0), keypad := Keypad.Pad(false, 0),
       display := Display.Blank(), memory := Memory.Zeros())
  }

  /** Reset yields the freshly initialised machine of the same frequency,
      except that the stack survives; doing it twice is doing it once. */
  lemma ResetIsInitKeepingStack(s: State)
    requires WellFormed(s)
    ensures Reset(s) == Init(s.hz).(stack := s.stack)
    ensures Reset(Reset(s)) == Reset(s)
    ensures Reset(s).pc == 0x200 && Reset(s).i == 0 && Reset(s).tick == 0
    ensures Reset(s).delay == 0 && Reset(s).sound == 0
    ensures forall r :: 0 <= r < REGISTERS ==> Reset(s).v[r] == 0
    ensures Reset(s).hz == s.hz && Reset(s).stack == s.stack
  {
  }

  /** `fetch`: the big-endian word at pc, pc + 1. Its high byte is the byte
      at pc, its low byte the byte after it. */
  function Fetch(mem: seq<Byte>, pc: Word): (w: Word)
    requires |mem| == Memory.SIZE && pc as int + 1 < Memory.SIZE
    ensures w as int / 0x100 == mem[pc] as int
    ensures w as int % 0x100 == mem[pc + 1] as int
  {
    (mem[pc] as int * 0x100 + mem[pc + 1] as int) as Word
  }

  /** `load(pos, bytes)` on the memory contents. Writing past the end (or
      past 0xFFFF) panics in Rust, hence the precondition. */
  function Load(mem: seq<Byte>, pos: Word, bytes: seq<Byte>): (r: seq<Byte>)
    requires |mem| == Memory.SIZE
    requires |bytes| == 0 || pos as int + |bytes| <= Memory.SIZE
    ensures |r| == Memory.SIZE
  {
    if |bytes| == 0 then mem else mem[..pos] + bytes + mem[pos as int + |bytes|..]
  }

  /** Load puts byte k at pos + k and keeps every other address. */
  lemma LoadPlacesBytes(mem: seq<Byte>, pos: Word, bytes: seq<Byte>)
    requires |mem| == Memory.SIZE
    requires |bytes| == 0 || pos as int + |bytes| <= Memory.SIZE
    ensures |Load(mem, pos, bytes)| == Memory.SIZE
    ensures forall k :: 0 <= k < |bytes| ==> Load(mem, pos, bytes)[pos as int + k] == bytes[k]
    ensures forall a :: 0 <= a < Memory.SIZE && !(pos as int <= a < pos as int + |bytes|) ==>
              Load(mem, pos, bytes)[a] == mem[a]
  {
    if |bytes| > 0 {
      var r := Load(mem, pos, bytes);
      assert r == mem[..pos] + bytes + mem[pos as int + |bytes|..];
      forall k | 0 <= k < |bytes| ensures r[pos as int + k] == bytes[k] {
        assert (mem[..pos] + bytes)[pos as int + k] == bytes[k];
      }
    }
  }

  /** `FONT`: the sixteen 4 x 5 hexadecimal digit glyphs, five rows each. */
  const FONT: seq<Byte> := [
    0xF0, 0x90, 0x90, 0x90, 0xF0, // 0
    0x20, 0x60, 0x20, 0x20, 0x70, // 1
    0xF0, 0x10, 0xF0, 0x80, 0xF0, // 2
    0xF0, 0x10, 0xF0, 0x10, 0xF0, // 3
    0x90, 0x90, 0xF0, 0x10, 0x10, // 4
    0xF0, 0x80, 0xF0, 0x10, 0xF0, // 5
    0xF0, 0x80, 0xF0, 0x90, 0xF0, // 6
    0xF0, 0x10, 0x20, 0x40, 0x40, // 7
    0xF0, 0x90, 0xF0, 0x90, 0xF0, // 8
    0xF0, 0x90, 0xF0, 0x10, 0xF0, // 9
    0xF0, 0x90, 0xF0, 0x90, 0x90, // A
    0xE0, 0x90, 0xE0, 0x90, 0xE0, // B
    0xF0, 0x80, 0x80, 0x80, 0xF0, // C
    0xE0, 0x90, 0x90, 0x90, 0xE0, // D
    0xF0, 0x80, 0xF0, 0x80, 0xF0, // E
    0xF0, 0x80, 0xF0, 0x80, 0x80  // F
  ]

  /** The timer divider `hz / 60` in Rust's truncating `i32` division. */
  function Divider(hz: int): (d: int)
    ensures d == 0 <==> -60 < hz < 60
    ensures hz >= 60 ==> 1 <= d <= hz
  {
    TruncDiv(hz, 60)
  }

  /** `tick_timers`. The tick counter is incremented; when it is a multiple of
      the divider both timers count down, saturating at zero; once it reaches
      `hz` it wraps to 0. A divider of 0 (|hz| < 60, which `init` allows)
      makes Rust's `%` panic. The incremented tick is positive, and for a
      positive dividend Dafny's `%` and Rust's agree. */
  function TickTimers(s: State): (r: Run<State>)
    requires WellFormed(s)
    ensures r.Ok? ==> WellFormed(r.value)
  {
    var d := Divider(s.hz);
    if d == 0 then Panic
    else
      var t := s.tick + 1;
      var s1 := if t % d == 0 then s.(delay := SatDec(s.delay), sound := SatDec(s.sound)) else s;
      Ok(s1.(tick := if t >= s.hz then 0 else t))
  }

  /** The timers of one tick: each stays or drops by exactly one, never below
      zero; they drop exactly on the ticks whose incremented count is a
      multiple of `hz / 60`; the tick counter stays in [0, hz). Nothing else
      changes. */
  lemma TickTimersCountsDown(s: State)
    requires WellFormed(s) && s.hz >= 60
    ensures TickTimers(s).Ok?
    ensures var r := TickTimers(s).value;
            && (r.delay == s.delay || r.delay as int == s.delay as int - 1)
            && (r.sound == s.sound || r.sound as int == s.sound as int - 1)
            && (r.delay as int == s.delay as int - 1 <==> s.delay > 0 && (s.tick + 1) % (s.hz / 60) == 0)
            && (r.sound as int == s.sound as int - 1 <==> s.sound > 0 && (s.tick + 1) % (s.hz / 60) == 0)
            && 0 <= r.tick < s.hz
            && r.(tick := s.tick, delay := s.delay, sound := s.sound) == s
  {
  }

  /** `init` does not clamp: a machine created with a frequency below 60
      cannot tick, while after `set_hz` ticking never panics. */
  lemma SetHzMakesTicksSafe(s: State, hz: int)
    requires WellFormed(s) && IsI32(hz)
    ensures TickTimers(SetHz(s, hz)).Ok?
    ensures SetHz(s, hz).hz >= 60 && SetHz(s, hz).hz / 60 >= 1
    ensures 0 < hz < 60 ==> TickTimers(Init(hz)) == Panic
  {
  }

  /** `tick_timers` applied n times (a driver calling `cycle` n times). */
  function Ticks(s: State, n: nat): (r: Run<State>)
    requires WellFormed(s)
    ensures r.Ok? ==> WellFormed(r.value)
    decreases n
  {
    if n == 0 then Ok(s)
    else match TickTimers(s)
      case Panic => Panic
      case Ok(t) => Ticks(t, n - 1)
  }

  /** p * d, the tick count after p whole divider periods, written as a
      sum so that the proofs below stay in linear arithmetic. */
  function Periods(p: nat, d: nat): nat {
    if p == 0 then 0 else Periods(p - 1, d) + d
  }

  /** The sum is the product. */
  lemma {:induction false} PeriodsIsProduct(p: nat, d: nat)
    ensures Periods(p, d) == p * d
  {
    if p > 0 {
      PeriodsIsProduct(p - 1, d);
      assert p * d == (p - 1) * d + d;
    }
  }

  /** Running p whole divider periods from a counter on a period boundary
      lowers each timer once per period, saturating at zero, and leaves the
      counter on the boundary p periods later (0 once `hz` is reached). */
  lemma {:induction false} WholePeriodsOfTicks(s: State, d: nat, b: nat, p: nat)
    requires WellFormed(s) && s.hz >= 60 && d == s.hz / 60
    requires s.tick == Periods(b, d) && s.tick < s.hz && s.tick + Periods(p, d) <= s.hz
    ensures Ticks(s, Periods(p, d)).Ok?
    ensures var r := Ticks(s, Periods(p, d)).value;
            && r.tick == (if s.tick + Periods(p, d) == s.hz then 0 else s.tick + Periods(p, d))
            && r.delay as int == Max(s.delay as int - p, 0)
            && r.sound as int == Max(s.sound as int - p, 0)
            && r.(tick := s.tick, delay := s.delay, sound := s.sound) == s
    decreases p
  {
    if p > 0 {
      OnePeriodOfTicks(s, d, b);
      var t := Ticks(s, d).value;
      if p > 1 {
        PeriodsMonotone(2, p, d);
        assert s.tick + d < s.hz;
        assert t.tick == Periods(b + 1, d);
        WholePeriodsOfTicks(t, d, b + 1, p - 1);
        TicksSplit(s, d, Periods(p - 1, d));
      }
    }
  }

  /** When 60 divides the clock frequency, a whole second of `hz` ticks from
      tick 0 lowers each timer by 60 (saturating) and brings the counter back
      to 0: the timers run at 60 Hz. */
  lemma SecondOfTicks(s: State)
    requires WellFormed(s) && s.hz >= 60 && s.hz % 60 == 0 && s.tick == 0
    ensures Ticks(s, s.hz).Ok?
    ensures var r := Ticks(s, s.hz).value;
            && r.tick == 0
            && r.delay as int == Max(s.delay as int - 60, 0)
            && r.sound as int == Max(s.sound as int - 60, 0)
            && r.(delay := s.delay, sound := s.sound) == s
  {
    var d := s.hz / 60;
    PeriodsIsProduct(60, d);
    assert Periods(60, d) == s.hz;
    WholePeriodsOfTicks(s, d, 0, 60);
  }

  /** The truncating divider makes the timers run fast when 60 does not
      divide the clock. At the 500 Hz that both front ends configure
      (src/main.rs:27, `CHIP_HZ` in src/wasm.rs:9) the divider is 8, so a
      second of 500 ticks from tick 0 lowers each timer by 62, not 60. */
  lemma SecondAt500Hz(s: State)
    requires WellFormed(s) && s.hz == 500 && s.tick == 0
    ensures Ticks(s, s.hz).Ok?
    ensures var r := Ticks(s, s.hz).value;
            && r.tick == 0
            && r.delay as int == Max(s.delay as int - 62, 0)
            && r.sound as int == Max(s.sound as int - 62, 0)
            && r.(delay := s.delay, sound := s.sound) == s
  {
    var d, p := s.hz / 60, s.hz / 8;
    assert d == 8 && p == 62;
    PeriodsIsProduct(p, d);
    var a := s.hz - 4;
    assert Periods(p, d) == a;
    WholePeriodsOfTicks(s, d, 0, p);
    SecondTail(s, Ticks(s, a).value, a, d, p);
  }

  /** When the divider does not divide the clock, the ticks left after the
      last whole period only count up to `hz` and wrap to 0: the timers do
      not move. */
  lemma SecondTail(s: State, t: State, a: nat, d: nat, b: nat)
    requires WellFormed(s) && Ticks(s, a) == Ok(t) && t.hz >= 60 && d == t.hz / 60
    requires t.tick == Periods(b, d) && t.tick < t.hz && t.hz - t.tick < d && t.hz % d != 0
    ensures Ticks(s, a + (t.hz - t.tick)) == Ok(t.(tick := 0))
  {
    var k := t.hz - t.tick - 1;
    TicksWithinPeriod(t, d, b, k);
    TicksSplit(s, a, k);
    TicksSnoc(s, a + k);
    var m := t.(tick := t.hz - 1);
    assert Ticks(s, a + k) == Ok(m);
    assert Divider(m.hz) == d;
  }

  /** Periods grow with their count. */
  lemma PeriodsMonotone(p: nat, q: nat, d: nat)
    requires p <= q
    ensures Periods(p, d) <= Periods(q, d)
  {
    PeriodsIsProduct(p, d);
    PeriodsIsProduct(q, d);
    MulMono(d, p, q);
  }

  /** One divider period from a boundary: one count down, the counter on the
      next boundary. */
  lemma OnePeriodOfTicks(s: State, d: nat, b: nat)
    requires WellFormed(s) && s.hz >= 60 && d == s.hz / 60
    requires s.tick == Periods(b, d) && s.tick + d <= s.hz
    ensures Ticks(s, d) ==
              Ok(s.(tick := if s.tick + d == s.hz then 0 else s.tick + d,
                    delay := SatDec(s.delay), sound := SatDec(s.sound)))
  {
    TicksWithinPeriod(s, d, b, d - 1);
    var m := s.(tick := s.tick + d - 1);
    BoundaryStep(b, d, d);
    EndOfPeriod(m, d);
    TicksSnoc(s, d - 1);
  }

  /** The last tick of a period counts the timers down. */
  lemma EndOfPeriod(m: State, d: nat)
    requires WellFormed(m) && m.hz >= 60 && d == m.hz / 60 && (m.tick + 1) % d == 0
    ensures TickTimers(m) == Ok(m.(tick := if m.tick + 1 >= m.hz then 0 else m.tick + 1,
                                   delay := SatDec(m.delay), sound := SatDec(m.sound)))
  {
    assert Divider(m.hz) == d;
  }

  /** n + 1 ticks are n ticks and then one more. */
  lemma {:induction false} TicksSnoc(s: State, n: nat)
    requires WellFormed(s)
    ensures Ticks(s, n + 1) == match Ticks(s, n) case Panic => Panic case Ok(t) => TickTimers(t)
    decreases n
  {
    if n > 0 {
      match TickTimers(s)
      case Panic =>
      case Ok(t) => TicksSnoc(t, n - 1);
    }
  }

  /** Strictly inside a divider period the timers do not move and the counter
      just counts. */
  lemma {:induction false} TicksWithinPeriod(s: State, d: nat, b: nat, k: nat)
    requires WellFormed(s) && s.hz >= 60 && d == s.hz / 60
    requires s.tick == Periods(b, d) && k < d && s.tick + k < s.hz
    ensures Ticks(s, k) == Ok(s.(tick := s.tick + k))
    decreases k
  {
    if k > 0 {
      TicksWithinPeriod(s, d, b, k - 1);
      var m := s.(tick := s.tick + k - 1);
      BoundaryStep(b, d, k);
      assert TickTimers(m) == Ok(s.(tick := s.tick + k));
      TicksSplit(s, k - 1, 1);
    }
  }

  /** From a period boundary, the incremented counter is a multiple of d
      exactly at the end of the period. */
  lemma BoundaryStep(b: nat, d: nat, k: nat)
    requires d > 0 && 0 < k <= d
    ensures (Periods(b, d) + k) % d == 0 <==> k == d
  {
    PeriodsIsProduct(b, d);
    if k < d {
      ModUnique(Periods(b, d) + k, d, b, k);
    } else {
      assert Periods(b, d) + d == d * (b + 1);
      ModUnique(Periods(b, d) + k, d, b + 1, 0);
    }
  }

  /** Ticks compose. */
  lemma {:induction false} TicksSplit(s: State, a: nat, b: nat)
    requires WellFormed(s)
    ensures Ticks(s, a + b) == match Ticks(s, a) case Panic => Panic case Ok(t) => Ticks(t, b)
    decreases a
  {
    if a > 0 {
      match TickTimers(s)
      case Panic =>
      case Ok(t) => TicksSplit(t, a - 1, b);
    }
  }
}
