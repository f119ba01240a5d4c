/**
 * The circular key buffer of keybuffer.c: the most recent keypresses, kept
 * in a fixed array that is written round and round. Index 0 is the latest
 * keypress, positive indices go back in time and negative indices count from
 * the oldest keypress still held.
 */
module KeyBuffers {
  import opened Wrappers

  /** Keycodes of the keyboard firmware the buffer is part of. */
  const KC_NO: int := 0x0000
  const KC_A: int := 0x0004
  const KC_Z: int := 0x001D
  const KC_SPC: int := 0x002C
  /** The left-shift modifier bit of a keycode. */
  const QK_LSFT: int := 0x0200
  /** The action_taken value of a fresh keypress: no action yet. */
  const NO_ACTION: int := 0xffff

  /** A keycode is a 16-bit value. */
  predicate IsKeycode(k: int) {
    0 <= k < 0x10000
  }

  /** keycode & QK_LSFT is set. */
  predicate IsShifted(keycode: int) {
    (keycode / QK_LSFT) % 2 == 1
  }

  /** The basic keycode in the low byte (the uint8_t `lowkey`). */
  function LowKey(keycode: int): (k: int)
    ensures 0 <= k < 256
  {
    keycode % 256
  }

  /** IS_ALPHA_KEYCODE: one of the letter keys. */
  predicate IsAlphaKeycode(k: int) {
    KC_A <= k <= KC_Z
  }

  /** The keycode push stores: a shifted letter is stored as the plain letter. */
  function StoredKeycode(keycode: int): (k: int)
    requires IsKeycode(keycode)
    ensures IsKeycode(k)
    ensures IsShifted(keycode) && IsAlphaKeycode(LowKey(keycode)) ==> k == LowKey(keycode) && !IsShifted(k)
    ensures !(IsShifted(keycode) && IsAlphaKeycode(LowKey(keycode))) ==> k == keycode
  {
    if IsShifted(keycode) && IsAlphaKeycode(LowKey(keycode)) then LowKey(keycode) else keycode
  }

  /** A position moved round an array of n slots by at most n: back into [0, n) by adding or subtracting n once. */
  function Wrap(x: int, n: int): int {
    if x < 0 then x + n else if x >= n then x - n else x
  }

  /** Wrapping a position that is at most n away from the slots is taking it modulo n. */
  lemma WrapMod(x: int, n: int)
    requires 0 < n && -n <= x < 2 * n
    ensures 0 <= Wrap(x, n) < n && Wrap(x, n) == x % n
  {
  }

  /** st_key_action_t: the key pressed and the action taken for it. */
  datatype KeyAction = KeyAction(keypressed: int, actionTaken: int)

  /** st_key_buffer_t. */
  class KeyBuffer {
    const data: array<KeyAction>
    const size: int
    var contextLen: int
    var curPos: int

    /** The slots in use lie in the array, and the latest one is a slot. */
    ghost predicate Valid()
      reads this
    {
      data.Length == size && 0 < size && 0 <= contextLen <= size && 0 <= curPos < size
    }

    /** An empty buffer of `n` slots. */
    constructor (n: int)
      requires 0 < n
      ensures Valid() && fresh(data) && size == n && contextLen == 0 && curPos == 0
    {
      data := new KeyAction[n](_ => KeyAction(KC_NO, NO_ACTION));
      size := n;
      contextLen := 0;
      curPos := 0;
    }

    /** `index` names a keypress in the buffer: -contextLen <= index < contextLen. */
    predicate InRange(index: int)
      reads this
    {
      -contextLen <= index < contextLen
    }

    /** A negative index counted from the oldest keypress, as the matching non-negative one. */
    function Normalised(index: int): (n: int)
      reads this
      requires InRange(index)
      ensures 0 <= n < contextLen
      ensures n == if index < 0 then index + contextLen else index
    {
      if index < 0 then index + contextLen else index
    }

    /**
     * get_real_index: the slot of the keypress at `index`, or -1 when the
     * index is out of range. The slot is the latest one moved back by the
     * (normalised) index, round the array.
     */
    function RealIndex(index: int): (r: int)
      reads this
      requires Valid()
      ensures r == -1 <==> !InRange(index)
      ensures r != -1 ==> 0 <= r < size && r == Wrap(curPos - Normalised(index), size)
    {
      var i := if index < 0 then index + contextLen else index;
      if i >= contextLen || i < 0 then -1
      else
        var j := curPos - i;
        if j < 0 then j + size else j
    }

    /** st_key_buffer_get: the keypress at `index`, or none (NULL) when the index is out of range. */
    function Get(index: int): (r: Option<KeyAction>)
      reads this, data
      requires Valid()
      ensures r.None? <==> !InRange(index)
      ensures r.Some? ==> r.value == data[RealIndex(index)]
    {
      var slot := RealIndex(index);
      if slot < 0 then None else Some(data[slot])
    }

    /** st_key_buffer_get_keycode: the key pressed at `index`, or KC_NO when the index is out of range. */
    function GetKeycode(index: int): (k: int)
      reads this, data
      requires Valid()
      ensures !InRange(index) ==> k == KC_NO
      ensures InRange(index) ==> k == data[RealIndex(index)].keypressed
    {
      var action := Get(index);
      if action.Some? then action.value.keypressed else KC_NO
    }

    /**
     * resize_context: grows (or, for a negative delta, shrinks) the context
     * by delta, clamped to [0, size], and moves the latest slot by delta
     * round the array. A delta of magnitude beyond the size changes nothing.
     */
    method Resize(delta: int)
      requires Valid()
      modifies this
      ensures Valid()
      ensures delta < -size || delta > size ==> contextLen == old(contextLen) && curPos == old(curPos)
      ensures -size <= delta <= size ==>
        && contextLen == (if old(contextLen) + delta < 0 then 0
                          else if old(contextLen) + delta > size then size
                          else old(contextLen) + delta)
        && curPos == Wrap(old(curPos) + delta, size)
    {
      if delta < -size || delta > size {
        return;
      }
      var newContextLen := contextLen + delta;
      if newContextLen < 0 {
        contextLen := 0;
      } else if newContextLen > size {
        contextLen := size;
      } else {
        contextLen := newContextLen;
      }
      var newPos := curPos + delta;
      if newPos < 0 {
        curPos := newPos + size;
      } else if newPos >= size {
        curPos := newPos - size;
      } else {
        curPos := newPos;
      }
    }

    /**
     * st_key_buffer_push: the keypress becomes index 0 (a shifted letter
     * stored as the plain letter, with no action taken yet), every earlier
     * keypress moves one index back and, once the buffer is full, the oldest
     * one is overwritten.
     */
    method Push(keycode: int)
      requires Valid() && IsKeycode(keycode)
      modifies this, data
      ensures Valid()
      ensures contextLen == if old(contextLen) < size then old(contextLen) + 1 else size
      ensures curPos == Wrap(old(curPos) + 1, size)
      ensures Get(0) == Some(KeyAction(StoredKeycode(keycode), NO_ACTION))
      ensures GetKeycode(0) == StoredKeycode(keycode)
      ensures forall i :: 0 <= i < contextLen - 1 ==> Get(i + 1) == old(Get(i))
      ensures forall j :: 0 <= j < size && j != curPos ==> data[j] == old(data[j])
    {
      var k := keycode;
      if IsShifted(keycode) && IsAlphaKeycode(LowKey(keycode)) {
        k := LowKey(keycode);
      }
      Resize(1);
      data[curPos] := KeyAction(k, NO_ACTION);
      forall i | 0 <= i < contextLen - 1 ensures Get(i + 1) == old(Get(i)) {
        assert RealIndex(i + 1) == old(RealIndex(i));
      }
    }

    /**
     * st_key_buffer_pop: forgets the `num` latest keypresses (all of them
     * when there are fewer), so that index i now holds what index i + num
     * held; when num exceeds the size the buffer is left as it is.
     */
    method Pop(num: int)
      requires Valid() && 0 <= num < 256
      modifies this
      ensures Valid()
      ensures num > size ==> contextLen == old(contextLen) && curPos == old(curPos)
      ensures num <= size ==> contextLen == if old(contextLen) < num then 0 else old(contextLen) - num
      ensures num <= size ==> forall i :: 0 <= i < contextLen ==> Get(i) == old(Get(i + num))
    {
      Resize(-num);
      if num <= size {
        forall i | 0 <= i < contextLen ensures Get(i) == old(Get(i + num)) {
          assert RealIndex(i) == old(RealIndex(i + num));
        }
      }
    }

    /** st_key_buffer_reset: empties the buffer and pushes a space. */
    method Reset()
      requires Valid()
      modifies this, data
      ensures Valid()
      ensures contextLen == 1
      ensures Get(0) == Some(KeyAction(KC_SPC, NO_ACTION)) && GetKeycode(0) == KC_SPC
      ensures !InRange(1) && !InRange(-2)
    {
      contextLen := 0;
      Push(KC_SPC);
    }
  }

  /**
   * For an index in range the slot is (cur_pos - index) mod size, the index
   * normalised; and the slots of distinct indices in [0, contextLen) differ.
   */
  lemma RealIndexIsMod(buf: KeyBuffer, index: int, other: int)
    requires buf.Valid() && buf.InRange(index) && buf.InRange(other)
    ensures buf.RealIndex(index) == (buf.curPos - buf.Normalised(index)) % buf.size
    ensures buf.Normalised(index) != buf.Normalised(other) ==> buf.RealIndex(index) != buf.RealIndex(other)
  {
    WrapMod(buf.curPos - buf.Normalised(index), buf.size);
  }

  /** Resizing moves the latest slot by delta modulo the size. */
  lemma ResizeIsMod(size: int, curPos: int, delta: int)
    requires 0 <= curPos < size && -size <= delta <= size
    ensures Wrap(curPos + delta, size) == (curPos + delta) % size
  {
    WrapMod(curPos + delta, size);
  }

  /**
   * Typing a, b, c into an empty buffer: indices 0, 1, 2 give c, b, a and
   * indices -1, -2, -3 give a, b, c.
   */
  method TypeThree(buf: KeyBuffer, a: int, b: int, c: int)
    requires buf.Valid() && buf.contextLen == 0 && buf.size >= 3
    requires IsKeycode(a) && IsKeycode(b) && IsKeycode(c)
    modifies buf, buf.data
    ensures buf.Valid() && buf.contextLen == 3
    ensures buf.GetKeycode(0) == StoredKeycode(c) && buf.GetKeycode(-3) == StoredKeycode(c)
    ensures buf.GetKeycode(1) == StoredKeycode(b) && buf.GetKeycode(-2) == StoredKeycode(b)
    ensures buf.GetKeycode(2) == StoredKeycode(a) && buf.GetKeycode(-1) == StoredKeycode(a)
    ensures buf.GetKeycode(3) == KC_NO && buf.GetKeycode(-4) == KC_NO
  {
    buf.Push(a);
    buf.Push(b);
    assert buf.Get(1) == Some(KeyAction(StoredKeycode(a), NO_ACTION));
    buf.Push(c);
    assert buf.Get(1) == Some(KeyAction(StoredKeycode(b), NO_ACTION));
    assert buf.Get(2) == Some(KeyAction(StoredKeycode(a), NO_ACTION));
    assert buf.RealIndex(-3) == buf.RealIndex(0);
    assert buf.RealIndex(-2) == buf.RealIndex(1);
    assert buf.RealIndex(-1) == buf.RealIndex(2);
  }
}
