/** The 16-entry return-address stack (src/stack.rs). */
module Stack {
  import opened Types

  const DEPTH: nat := 16

  /** The value of a stack: its sixteen slots and the index of the first
      free slot. */
  datatype Frames = Frames(slots: seq<Word>, pointer: nat)

  predicate InRange(f: Frames) {
    |f.slots| == DEPTH && f.pointer <= DEPTH
  }

  /** `Stack::new`. */
  function Empty(): (f: Frames)
    ensures InRange(f) && f.pointer == 0
  {
    Frames(seq(DEPTH, _ => 0), 0)
  }

  /** `push`: write the slot under the pointer, then move the pointer up. */
  function Pushed(f: Frames, a: Word): (g: Frames)
    requires InRange(f) && f.pointer < DEPTH
    ensures InRange(g) && g.pointer == f.pointer + 1 && g.slots[f.pointer] == a
    ensures forall k :: 0 <= k < DEPTH && k != f.pointer ==> g.slots[k] == f.slots[k]
  {
    Frames(f.slots[f.pointer := a], f.pointer + 1)
  }

  /** `pop`: move the pointer down, then read the slot under it. The slot
      itself is left as it is. */
  function Popped(f: Frames): (r: (Frames, Word))
    requires InRange(f) && f.pointer > 0
    ensures InRange(r.0) && r.0.pointer == f.pointer - 1 && r.0.slots == f.slots
    ensures r.1 == r.0.slots[r.0.pointer]
  {
    (f.(pointer := f.pointer - 1), f.slots[f.pointer - 1])
  }

  /** A pop undoes a push: it returns the pushed address and restores the
      pointer; only the slot above the top keeps the stale address. */
  lemma PushThenPop(f: Frames, a: Word)
    requires InRange(f) && f.pointer < DEPTH
    ensures InRange(Pushed(f, a))
    ensures Popped(Pushed(f, a)).1 == a
    ensures Popped(Pushed(f, a)).0.pointer == f.pointer
    ensures forall k :: 0 <= k < DEPTH && k != f.pointer ==> Popped(Pushed(f, a)).0.slots[k] == f.slots[k]
  {
  }

  /** Last in, first out: after pushing a then b, the pops return b then a. */
  lemma LastInFirstOut(f: Frames, a: Word, b: Word)
    requires InRange(f) && f.pointer + 2 <= DEPTH
    ensures var g := Pushed(Pushed(f, a), b);
            InRange(g) && g.pointer == f.pointer + 2 &&
            Popped(g).1 == b &&
            Popped(Popped(g).0).1 == a &&
            Popped(Popped(g).0).0.pointer == f.pointer
  {
  }

  /** A stack operation as a program issues it. */
  datatype Op = Push(a: Word) | Pop

  /** Runs a sequence of operations; `None` when one of them would make the
      Rust code panic (a push onto a full stack indexes past the array, a pop
      from an empty one underflows the `usize` pointer). */
  function Replay(f: Frames, ops: seq<Op>): Option<Frames>
    requires InRange(f)
    decreases |ops|
  {
    if ops == [] then Some(f)
    else match ops[0]
      case Push(a) => if f.pointer < DEPTH then Replay(Pushed(f, a), ops[1..]) else None
      case Pop => if f.pointer > 0 then Replay(Popped(f).0, ops[1..]) else None
  }

  function Pushes(ops: seq<Op>): nat {
    if ops == [] then 0 else (if ops[0].Push? then 1 else 0) + Pushes(ops[1..])
  }

  /** Along any sequence of operations that does not panic the pointer stays
      within [0, 16] and ends at its start plus the pushes minus the pops. */
  lemma {:induction false} ReplayKeepsPointerInRange(f: Frames, ops: seq<Op>)
    requires InRange(f)
    ensures Replay(f, ops).Some? ==>
              InRange(Replay(f, ops).value) &&
              Replay(f, ops).value.pointer == f.pointer + Pushes(ops) - (|ops| - Pushes(ops))
    decreases |ops|
  {
    if ops != [] {
      match ops[0]
      case Push(a) =>
        if f.pointer < DEPTH {
          ReplayKeepsPointerInRange(Pushed(f, a), ops[1..]);
        }
      case Pop =>
        if f.pointer > 0 {
          ReplayKeepsPointerInRange(Popped(f).0, ops[1..]);
        }
    }
  }

  /** Seventeen pushes in a row always overflow the stack. */
  lemma {:induction false} TooManyPushes(f: Frames, ops: seq<Op>)
    requires InRange(f)
    requires |ops| > DEPTH - f.pointer
    requires forall k :: 0 <= k < |ops| ==> ops[k].Push?
    ensures Replay(f, ops) == None
    decreases |ops|
  {
    if f.pointer < DEPTH {
      TooManyPushes(Pushed(f, ops[0].a), ops[1..]);
    }
  }

  class Stack {
    const slots: array<Word>
    var pointer: nat

    ghost predicate Valid()
      reads this
    {
      slots.Length == DEPTH && pointer <= DEPTH
    }

    ghost function Value(): Frames
      reads this, slots
    {
      Frames(slots[..], pointer)
    }

    constructor ()
      ensures Valid() && fresh(slots)
      ensures Value() == Empty()
    {
      slots := new Word[DEPTH](_ => 0);
      pointer := 0;
    }

    /** `pop`; on an empty stack the Rust pointer underflows and panics. */
    method Pop() returns (a: Word)
      requires Valid() && pointer > 0
      modifies this
      ensures Valid()
      ensures (Value(), a) == Popped(old(Value()))
    {
      pointer := pointer - 1;
      a := slots[pointer];
    }

    /** `push`; on a full stack the Rust array index panics. */
    method Push(a: Word)
      requires Valid() && pointer < DEPTH
      modifies this, slots
      ensures Valid()
      ensures Value() == Pushed(old(Value()), a)
    {
      slots[pointer] := a;
      pointer := pointer + 1;
    }
  }
}
