/** The 16-key hexadecimal keypad and its wait-for-key mode (src/keypad.rs).
    The host's key query is abstracted: `pressed[k]` tells whether the host
    key in row k of `KEYPAD_MAP` is down. */
module Keypad {
  import opened Types

  /** The logical key values of `KEYPAD_MAP`, in table order. The host key
      codes of the table's first column are not modelled. */
  const KEYPAD_MAP: seq<Byte> := [0x0, 0x1, 0x2, 0x3, 0x4, 0x5, 0x6, 0x7,
                                  0x8, 0x9, 0xA, 0xB, 0xC, 0xD, 0xE, 0xF]

  const KEYS: nat := 16

  /** Row k of the table holds the logical key k. */
  lemma MapIsInOrder(k: nat)
    requires k < KEYS
    ensures |KEYPAD_MAP| == KEYS && KEYPAD_MAP[k] as nat == k
  {
  }

  /** The value of the keypad: whether it waits for a key and which
      register receives that key. */
  datatype Pad = Pad(waiting: bool, dest: nat)

  /** The scan of `get_key`: the value of the first table row, from row
      `from` on, whose host key is down. */
  function FirstPressed(pressed: seq<bool>, from: nat): (r: Option<Byte>)
    requires |pressed| == KEYS && from <= KEYS
    ensures r.Some? ==> from <= r.value as nat < KEYS && pressed[r.value]
    decreases KEYS - from
  {
    if from == KEYS then None
    else if pressed[from] then MapIsInOrder(from); Some(KEYPAD_MAP[from])
    else FirstPressed(pressed, from + 1)
  }

  /** The scan finds the smallest pressed logical key, and finds nothing
      exactly when no key from `from` on is pressed. */
  lemma {:induction false} FirstPressedIsSmallest(pressed: seq<bool>, from: nat)
    requires |pressed| == KEYS && from <= KEYS
    ensures FirstPressed(pressed, from).Some? ==>
              var k := FirstPressed(pressed, from).value as nat;
              from <= k < KEYS && pressed[k] && forall j :: from <= j < k ==> !pressed[j]
    ensures FirstPressed(pressed, from).None? <==> forall j :: from <= j < KEYS ==> !pressed[j]
    decreases KEYS - from
  {
    if from < KEYS {
      MapIsInOrder(from);
      if !pressed[from] {
        FirstPressedIsSmallest(pressed, from + 1);
      }
    }
  }

  /** `get_key` on the value of the keypad: the new value and the answer. */
  function Poll(p: Pad, pressed: seq<bool>): (r: (Pad, Option<(Byte, nat)>))
    requires |pressed| == KEYS
    ensures r.0.dest == p.dest
    ensures r.1.None? ==> r.0 == p
    ensures r.1.Some? ==> !r.0.waiting && r.1.value.1 == p.dest && (r.1.value.0 as nat) < KEYS && pressed[r.1.value.0]
  {
    match FirstPressed(pressed, 0)
    case None => (p, None)
    case Some(k) => (p.(waiting := false), Some((k, p.dest)))
  }

  /** If a key is down, polling answers the smallest pressed key with the
      recorded destination register and leaves waiting mode; otherwise it
      answers nothing and changes nothing. It never changes the destination. */
  lemma PollAnswersSmallestKey(p: Pad, pressed: seq<bool>)
    requires |pressed| == KEYS
    ensures Poll(p, pressed).0.dest == p.dest
    ensures (exists j :: 0 <= j < KEYS && pressed[j]) ==>
              var (q, r) := Poll(p, pressed);
              r.Some? && r.value.1 == p.dest && !q.waiting &&
              (r.value.0 as nat) < KEYS && pressed[r.value.0] &&
              forall j :: 0 <= j < r.value.0 as nat ==> !pressed[j]
    ensures (forall j :: 0 <= j < KEYS ==> !pressed[j]) ==> Poll(p, pressed) == (p, None)
  {
    FirstPressedIsSmallest(pressed, 0);
  }

  class KeyPad {
    var waiting: bool
    var destRegister: nat

    ghost function Value(): Pad
      reads this
    {
      Pad(waiting, destRegister)
    }

    /** `KeyPad::new`. */
    constructor ()
      ensures Value() == Pad(false, 0)
    {
      waiting := false;
      destRegister := 0;
    }

    /** `wait_for_key`. */
    method WaitForKey(dest: nat)
      modifies this
      ensures Value() == Pad(true, dest)
    {
      waiting := true;
      destRegister := dest;
    }

    /** `get_key`: scan the table in order and stop at the first pressed key. */
    method GetKey(pressed: seq<bool>) returns (r: Option<(Byte, nat)>)
      requires |pressed| == KEYS
      modifies this
      ensures (Value(), r) == Poll(old(Value()), pressed)
    {
      var row := 0;
      while row < KEYS
        invariant 0 <= row <= KEYS
        invariant FirstPressed(pressed, row) == FirstPressed(pressed, 0)
        invariant Value() == old(Value())
      {
        if pressed[row] {
          waiting := false;
          return Some((KEYPAD_MAP[row], destRegister));
        }
        row := row + 1;
      }
      return None;
    }

    /** `is_key_down`: whether the host key of logical key x is down. */
    static function IsKeyDown(x: Byte, pressed: seq<bool>): bool
      requires (x as nat) < KEYS && |pressed| == KEYS
    {
      pressed[x]
    }
  }

  /** The key that `get_key` reports is down in the sense of `is_key_down`,
      and no smaller key is. */
  lemma PolledKeyIsDown(p: Pad, pressed: seq<bool>)
    requires |pressed| == KEYS
    requires Poll(p, pressed).1.Some?
    ensures var k := Poll(p, pressed).1.value.0;
            (k as nat) < KEYS && KeyPad.IsKeyDown(k, pressed) &&
            forall j: Byte :: j < k ==> !KeyPad.IsKeyDown(j, pressed)
  {
    FirstPressedIsSmallest(pressed, 0);
  }
}
