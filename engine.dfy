/** One machine cycle (`Chip8::cycle`, src/chip8.rs) on the value of the
    machine: tick the timers, then either poll the keypad while waiting for
    a key, or fetch the opcode at pc and execute it. */
module Engine {
  import opened Types
  import Memory
  import Keypad
  import opened Machine
  import Opcodes
  import OpcodeProperties

  /** `cycle`. `pressed` is the state of the host keys in `KEYPAD_MAP`
      order at the moment of the call. A destination register past V15
      makes the write `self.v[dest]` panic; a pc whose second opcode byte
      lies past the end of memory makes the fetch panic. */
  function Cycle(s: State, pressed: seq<bool>): (r: Run<State>)
    requires WellFormed(s) && |pressed| == Keypad.KEYS
    ensures r.Ok? ==> WellFormed(r.value)
    ensures r.Ok? ==> r.value.hz == s.hz && r.value.memory == s.memory
  {
    match TickTimers(s)
    case Panic => Panic
    case Ok(t) =>
      if t.keypad.waiting then
        var (pad, answer) := Keypad.Poll(t.keypad, pressed);
        match answer
        case None => Ok(t.(keypad := pad))
        case Some(kd) =>
          if kd.1 >= REGISTERS then Panic
          else Ok(t.(keypad := pad, v := t.v[kd.1 := kd.0]))
      else if t.pc as int + 1 >= Memory.SIZE then Panic
      else Opcodes.Exec(t, Fetch(t.memory, t.pc))
  }

  /** While the keypad waits, a cycle executes nothing: pc, I, the frame
      buffer, the stack and memory stay as they are. If a key is down, the
      smallest one lands in the destination register and waiting ends; if
      none is, only the timers move. */
  lemma CycleWhileWaiting(s: State, pressed: seq<bool>)
    requires WellFormed(s) && |pressed| == Keypad.KEYS
    requires s.keypad.waiting && s.keypad.dest < REGISTERS && TickTimers(s).Ok?
    ensures Cycle(s, pressed).Ok?
    ensures var r, t := Cycle(s, pressed).value, TickTimers(s).value;
            && r.pc == s.pc && r.i == s.i && r.display == s.display
            && r.stack == s.stack && r.memory == s.memory
            && r.delay == t.delay && r.sound == t.sound && r.tick == t.tick
            && r.keypad.dest == s.keypad.dest
    ensures (forall j :: 0 <= j < Keypad.KEYS ==> !pressed[j]) ==>
              Cycle(s, pressed).value == TickTimers(s).value
    ensures forall k :: 0 <= k < Keypad.KEYS && pressed[k] && (forall j :: 0 <= j < k ==> !pressed[j]) ==>
              var r := Cycle(s, pressed).value;
              !r.keypad.waiting && r.v == s.v[s.keypad.dest := k as Byte]
  {
    Keypad.PollAnswersSmallestKey(s.keypad, pressed);
    Keypad.FirstPressedIsSmallest(pressed, 0);
    forall k | 0 <= k < Keypad.KEYS && pressed[k] && (forall j :: 0 <= j < k ==> !pressed[j])
      ensures var r := Cycle(s, pressed).value;
              !r.keypad.waiting && r.v == s.v[s.keypad.dest := k as Byte]
    {
      var key := Keypad.FirstPressed(pressed, 0).value;
      assert key as int == k;
    }
  }

  /** Out of waiting mode the keys are not looked at: a cycle is the timer
      tick followed by executing the opcode fetched at pc. */
  lemma CycleRunsFetchedOpcode(s: State, pressed: seq<bool>, other: seq<bool>)
    requires WellFormed(s) && |pressed| == Keypad.KEYS && |other| == Keypad.KEYS
    requires !s.keypad.waiting && TickTimers(s).Ok? && s.pc as int + 1 < Memory.SIZE
    ensures Cycle(s, pressed) == Cycle(s, other)
    ensures var t := TickTimers(s).value;
            Cycle(s, pressed) == Opcodes.Exec(t, Fetch(s.memory, s.pc))
  {
  }

  /** The program-loading sequence of the browser front end: `reset`,
      `load_font(0)`, then the ROM at 0x200. */
  function Boot(s: State, rom: seq<Byte>): (r: State)
    requires WellFormed(s) && |rom| <= Memory.SIZE - PROGRAM_START as int
    ensures WellFormed(r)
  {
    var z := Reset(s);
    LoadPlacesBytes(z.memory, 0, FONT);
    var m := Load(z.memory, 0, FONT);
    LoadPlacesBytes(m, PROGRAM_START, rom);
    z.(memory := Load(m, PROGRAM_START, rom))
  }

  /** `cycle` applied n times with no key down. */
  function Run(s: State, n: nat): (r: Run<State>)
    requires WellFormed(s)
    ensures r.Ok? ==> WellFormed(r.value)
    decreases n
  {
    if n == 0 then Ok(s)
    else match Cycle(s, seq(Keypad.KEYS, _ => false))
      case Panic => Panic
      case Ok(t) => Run(t, n - 1)
  }

  /** The program `V0 = 10; V1 = 5; V0 += V1`, booted on a machine clocked
      at 600 Hz and run for three cycles, leaves 15 in V0, 5 in V1, no
      carry in VF and pc on the next instruction, with the timers untouched. */
  lemma AddProgram(s: State)
    requires WellFormed(s) && s.hz == 600
    ensures var b := Boot(s, [0x60, 0x0A, 0x61, 0x05, 0x80, 0x14]);
            && Run(b, 3).Ok?
            && Run(b, 3).value.v[0] == 15 && Run(b, 3).value.v[1] == 5 && Run(b, 3).value.v[VF] == 0
            && Run(b, 3).value.pc == 0x206 && Run(b, 3).value.tick == 3
            && Run(b, 3).value.delay == 0 && Run(b, 3).value.sound == 0
  {
    var rom: seq<Byte> := [0x60, 0x0A, 0x61, 0x05, 0x80, 0x14];
    var b := Boot(s, rom);
    BootedProgram(s, rom);
    assert Fetch(b.memory, 0x200) == 0x600A;
    var b1 := StepLoad(b, 0x600A, 0x0, 0x0A);
    assert Fetch(b1.memory, 0x202) == 0x6105;
    var b2 := StepLoad(b1, 0x6105, 0x1, 0x05);
    assert Fetch(b2.memory, 0x204) == 0x8014;
    var b3 := StepAdd(b2);
    assert Run(b2, 1) == Ok(b3);
    assert Run(b1, 2) == Ok(b3);
  }

  /** After booting, the ROM sits at 0x200 and the machine is reset. */
  lemma BootedProgram(s: State, rom: seq<Byte>)
    requires WellFormed(s) && |rom| <= Memory.SIZE - PROGRAM_START as int
    ensures var b := Boot(s, rom);
            && (forall k :: 0 <= k < |rom| ==> b.memory[PROGRAM_START as int + k] == rom[k])
            && b == Reset(s).(memory := b.memory)
  {
    var z := Reset(s);
    LoadPlacesBytes(z.memory, 0, FONT);
    LoadPlacesBytes(Load(z.memory, 0, FONT), PROGRAM_START, rom);
  }

  /** One cycle running a 6XNN opcode, at any clock, on a tick whose
      successor neither ends a timer period nor wraps: it stores nn, moves
      pc on by 2 and counts the tick. */
  lemma StepLoad(s: State, op: Word, x: Nibble, nn: Byte) returns (r: State)
    requires WellFormed(s) && !s.keypad.waiting && s.hz >= 60
    requires s.tick + 1 < s.hz && (s.tick + 1) % (s.hz / 60) != 0
    requires s.pc as int + 2 < Memory.SIZE && Fetch(s.memory, s.pc) == op
    requires op as int == 0x6000 + 0x100 * x + nn as int
    ensures Cycle(s, seq(Keypad.KEYS, _ => false)) == Ok(r)
    ensures r == s.(v := s.v[x := nn], pc := s.pc + 2, tick := s.tick + 1)
  {
    var t := s.(tick := s.tick + 1);
    assert Divider(s.hz) == s.hz / 60;
    assert TickTimers(s) == Ok(t);
    CycleRunsFetchedOpcode(s, seq(Keypad.KEYS, _ => false), seq(Keypad.KEYS, _ => false));
    OpcodeProperties.DecodeOf(op, 0x6, x, nn);
    OpcodeProperties.LoadByteSetsRegister(t, op);
    r := s.(v := s.v[x := nn], pc := s.pc + 2, tick := s.tick + 1);
    assert Opcodes.Exec(t, op).value.v == r.v;
  }

  /** One cycle running 8014 with V0 = 10 and V1 = 5, on the same kind of
      tick: V0 becomes 15 and VF 0 (no carry). */
  lemma StepAdd(s: State) returns (r: State)
    requires WellFormed(s) && !s.keypad.waiting && s.hz >= 60
    requires s.tick + 1 < s.hz && (s.tick + 1) % (s.hz / 60) != 0
    requires s.pc as int + 2 < Memory.SIZE && Fetch(s.memory, s.pc) == 0x8014
    requires s.v[0] == 10 && s.v[1] == 5
    ensures Cycle(s, seq(Keypad.KEYS, _ => false)) == Ok(r)
    ensures r == s.(v := s.v[0 := 15][VF := 0], pc := s.pc + 2, tick := s.tick + 1)
  {
    var t := s.(tick := s.tick + 1);
    assert Divider(s.hz) == s.hz / 60;
    assert TickTimers(s) == Ok(t);
    CycleRunsFetchedOpcode(s, seq(Keypad.KEYS, _ => false), seq(Keypad.KEYS, _ => false));
    var ins := Opcodes.AddReg(0, 1);
    assert Opcodes.Dispatch(Opcodes.Decode(0x8014)) == ins;
    var h := t.(v := s.v[0 := 15][VF := 0]);
    AddTenAndFive(t);
    OpcodeProperties.ExecNext(t, 0x8014, ins, h);
    r := s.(v := s.v[0 := 15][VF := 0], pc := s.pc + 2, tick := s.tick + 1);
  }

  /** The 8014 handler on V0 = 10, V1 = 5: the sum 15 fits, so VF is 0. */
  lemma AddTenAndFive(t: State)
    requires WellFormed(t) && t.v[0] == 10 && t.v[1] == 5
    ensures Opcodes.Handle(t, Opcodes.AddReg(0, 1))
              == Ok(Opcodes.Handled(t.(v := t.v[0 := 15][VF := 0]), Opcodes.Next))
  {
  }
}
