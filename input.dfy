// Keyboard and mouse state with change events (engine/src/core/input.c).
//
// The input system keeps the current and the previous keyboard and mouse
// state. Processing a key, a button or a mouse move updates the current
// state and fires one event only when the state actually changes; update
// copies current into previous once per frame. event_fire is code outside
// the model: each processing method returns the event it would fire, if
// any.
module Input {
  import opened Wrappers

  /** The size of keyboard_state's keys array. */
  const KEY_COUNT: nat := 256
  /**
   * BUTTON_MAX_BUTTONS: left, right and middle (input.h, where the enum
   * lives, is not part of this model).
   */
  const BUTTON_COUNT: nat := 3

  predicate IsI16(x: int) { -0x8000 <= x < 0x8000 }
  predicate IsI8(x: int) { -0x80 <= x < 0x80 }

  /** The events input.c fires, with the payload it stores in the event context. */
  datatype Event =
    | KeyPressed(key: nat)
    | KeyReleased(key: nat)
    | ButtonPressed(button: nat)
    | ButtonReleased(button: nat)
      /** The coordinates as the u16 fields of the context receive them. */
    | MouseMoved(x: nat, y: nat)
      /** The wheel delta as the u8 field of the context receives it. */
    | MouseWheel(delta: nat)

  /** mouse_state: an i16 position and one flag per button. */
  datatype Mouse = Mouse(x: int, y: int, buttons: seq<bool>)

  predicate MouseValid(m: Mouse)
  {
    IsI16(m.x) && IsI16(m.y) && |m.buttons| == BUTTON_COUNT
  }

  /** A signed value as the unsigned field of the same width that receives it (two's complement). */
  function AsUnsigned(v: int, modulus: nat): (r: nat)
    requires modulus > 0 && -(modulus / 2) <= v < modulus / 2
    ensures r < modulus && (v >= 0 ==> r == v) && (v < 0 ==> r == v + modulus)
  {
    if v >= 0 then v else v + modulus
  }

  class InputSystem {
    var initialized: bool
    var keyboardCurrent: seq<bool>
    var keyboardPrevious: seq<bool>
    var mouseCurrent: Mouse
    var mousePrevious: Mouse

    ghost predicate Valid()
      reads this
    {
      |keyboardCurrent| == KEY_COUNT && |keyboardPrevious| == KEY_COUNT
      && MouseValid(mouseCurrent) && MouseValid(mousePrevious)
    }

    /**
     * input_initialize as intended: the whole state zeroed, then marked
     * initialized (see ZeroedAsWritten for what the code zeroes).
     */
    constructor ()
      ensures Valid() && initialized
      ensures keyboardCurrent == seq(KEY_COUNT, _ => false) && keyboardPrevious == keyboardCurrent
      ensures mouseCurrent == Mouse(0, 0, seq(BUTTON_COUNT, _ => false)) && mousePrevious == mouseCurrent
    {
      initialized := true;
      keyboardCurrent := seq(KEY_COUNT, _ => false);
      keyboardPrevious := seq(KEY_COUNT, _ => false);
      mouseCurrent := Mouse(0, 0, seq(BUTTON_COUNT, _ => false));
      mousePrevious := Mouse(0, 0, seq(BUTTON_COUNT, _ => false));
    }

    /** input_update: nothing before initialisation; then previous becomes current. */
    method Update()
      requires Valid()
      modifies this
      ensures Valid() && initialized == old(initialized)
      ensures keyboardCurrent == old(keyboardCurrent) && mouseCurrent == old(mouseCurrent)
      ensures !initialized ==> keyboardPrevious == old(keyboardPrevious) && mousePrevious == old(mousePrevious)
      ensures initialized ==> keyboardPrevious == keyboardCurrent && mousePrevious == mouseCurrent
    {
      if !initialized {
        return;
      }
      keyboardPrevious := keyboardCurrent;
      mousePrevious := mouseCurrent;
    }

    /**
     * input_process_key: when the key's state differs from `pressed` it
     * takes that state and one pressed or released event fires; otherwise
     * nothing changes and no event fires.
     */
    method ProcessKey(key: nat, pressed: bool) returns (event: Option<Event>)
      requires Valid() && key < KEY_COUNT
      modifies this
      ensures Valid() && initialized == old(initialized)
      ensures keyboardCurrent == old(keyboardCurrent)[key := pressed] && keyboardCurrent[key] == pressed
      ensures keyboardPrevious == old(keyboardPrevious)
      ensures mouseCurrent == old(mouseCurrent) && mousePrevious == old(mousePrevious)
      ensures event.Some? <==> old(keyboardCurrent)[key] != pressed
      ensures event.Some? ==> event.value == if pressed then KeyPressed(key) else KeyReleased(key)
    {
      event := None;
      if keyboardCurrent[key] != pressed {
        keyboardCurrent := keyboardCurrent[key := pressed];
        event := Some(if pressed then KeyPressed(key) else KeyReleased(key));
      }
    }

    /** input_process_button: the same for a mouse button. */
    method ProcessButton(button: nat, pressed: bool) returns (event: Option<Event>)
      requires Valid() && button < BUTTON_COUNT
      modifies this
      ensures Valid() && initialized == old(initialized)
      ensures mouseCurrent == old(mouseCurrent).(buttons := old(mouseCurrent).buttons[button := pressed])
      ensures mouseCurrent.buttons[button] == pressed
      ensures keyboardCurrent == old(keyboardCurrent) && keyboardPrevious == old(keyboardPrevious)
      ensures mousePrevious == old(mousePrevious)
      ensures event.Some? <==> old(mouseCurrent).buttons[button] != pressed
      ensures event.Some? ==> event.value == if pressed then ButtonPressed(button) else ButtonReleased(button)
    {
      event := None;
      if mouseCurrent.buttons[button] != pressed {
        mouseCurrent := mouseCurrent.(buttons := mouseCurrent.buttons[button := pressed]);
        event := Some(if pressed then ButtonPressed(button) else ButtonReleased(button));
      }
    }

    /**
     * input_process_mouse_move: when x or y differs the position becomes
     * (x, y) and one moved event fires with both coordinates as u16;
     * otherwise nothing changes and no event fires.
     */
    method ProcessMouseMove(x: int, y: int) returns (event: Option<Event>)
      requires Valid() && IsI16(x) && IsI16(y)
      modifies this
      ensures Valid() && initialized == old(initialized)
      ensures mouseCurrent == old(mouseCurrent).(x := x, y := y)
      ensures keyboardCurrent == old(keyboardCurrent) && keyboardPrevious == old(keyboardPrevious)
      ensures mousePrevious == old(mousePrevious)
      ensures event.Some? <==> (old(mouseCurrent).x, old(mouseCurrent).y) != (x, y)
      ensures event.Some? ==> event.value == MouseMoved(AsUnsigned(x, 0x1_0000), AsUnsigned(y, 0x1_0000))
    {
      event := None;
      if mouseCurrent.x != x || mouseCurrent.y != y {
        mouseCurrent := mouseCurrent.(x := x, y := y);
        event := Some(MouseMoved(AsUnsigned(x, 0x1_0000), AsUnsigned(y, 0x1_0000)));
      }
    }

    /** input_process_mouse_wheel: always one wheel event, with the delta as a u8; no state. */
    method ProcessMouseWheel(delta: int) returns (event: Event)
      requires IsI8(delta)
      ensures event == MouseWheel(AsUnsigned(delta, 0x100))
      ensures delta < 0 ==> event.delta >= 0x80
    {
      event := MouseWheel(AsUnsigned(delta, 0x100));
    }

    /** input_is_key_down: false before initialisation. */
    function IsKeyDown(key: nat): bool
      requires Valid() && key < KEY_COUNT
      reads this
    {
      initialized && keyboardCurrent[key]
    }

    /** input_is_key_up: true before initialisation. */
    function IsKeyUp(key: nat): bool
      requires Valid() && key < KEY_COUNT
      reads this
    {
      !initialized || !keyboardCurrent[key]
    }

    /** input_was_key_down: false before initialisation. */
    function WasKeyDown(key: nat): bool
      requires Valid() && key < KEY_COUNT
      reads this
    {
      initialized && keyboardPrevious[key]
    }

    /** input_was_key_up: true before initialisation. */
    function WasKeyUp(key: nat): bool
      requires Valid() && key < KEY_COUNT
      reads this
    {
      !initialized || !keyboardPrevious[key]
    }

    /** input_is_button_down: false before initialisation. */
    function IsButtonDown(button: nat): bool
      requires Valid() && button < BUTTON_COUNT
      reads this
    {
      initialized && mouseCurrent.buttons[button]
    }

    /** input_is_button_up: true before initialisation. */
    function IsButtonUp(button: nat): bool
      requires Valid() && button < BUTTON_COUNT
      reads this
    {
      !initialized || !mouseCurrent.buttons[button]
    }

    /** input_was_button_down: false before initialisation. */
    function WasButtonDown(button: nat): bool
      requires Valid() && button < BUTTON_COUNT
      reads this
    {
      initialized && mousePrevious.buttons[button]
    }

    /** input_was_button_up: true before initialisation. */
    function WasButtonUp(button: nat): bool
      requires Valid() && button < BUTTON_COUNT
      reads this
    {
      !initialized || !mousePrevious.buttons[button]
    }

    /** input_get_mouse_position: (0, 0) before initialisation. */
    function MousePosition(): (int, int)
      reads this
    {
      if initialized then (mouseCurrent.x, mouseCurrent.y) else (0, 0)
    }

    /** input_get_previous_mouse_position: (0, 0) before initialisation. */
    function PreviousMousePosition(): (int, int)
      reads this
    {
      if initialized then (mousePrevious.x, mousePrevious.y) else (0, 0)
    }

    /**
     * Once initialised, up and down are complements for every key and
     * button, now and in the previous frame; before, every query says up
     * and not down, and both positions read (0, 0).
     */
    lemma UpDownComplement(key: nat, button: nat)
      requires Valid() && key < KEY_COUNT && button < BUTTON_COUNT
      ensures initialized ==> IsKeyUp(key) == !IsKeyDown(key) && WasKeyUp(key) == !WasKeyDown(key)
      ensures initialized ==> IsButtonUp(button) == !IsButtonDown(button)
      ensures initialized ==> WasButtonUp(button) == !WasButtonDown(button)
      ensures !initialized ==> IsKeyUp(key) && !IsKeyDown(key) && WasKeyUp(key) && !WasKeyDown(key)
      ensures !initialized ==> IsButtonUp(button) && !IsButtonDown(button)
      ensures !initialized ==> WasButtonUp(button) && !WasButtonDown(button)
      ensures !initialized ==> MousePosition() == (0, 0) && PreviousMousePosition() == (0, 0)
    {
    }

    /**
     * Right after update, every "was" query answers as the matching "is"
     * query, and the previous position is the current one.
     */
    lemma AfterUpdate(key: nat, button: nat)
      requires Valid() && key < KEY_COUNT && button < BUTTON_COUNT
      requires keyboardPrevious == keyboardCurrent && mousePrevious == mouseCurrent
      ensures WasKeyDown(key) == IsKeyDown(key) && WasKeyUp(key) == IsKeyUp(key)
      ensures WasButtonDown(button) == IsButtonDown(button) && WasButtonUp(button) == IsButtonUp(button)
      ensures PreviousMousePosition() == MousePosition()
    {
    }
  }

  // ------------------------------------------------------------ as written

  /**
   * The current keys after input_initialize as written: it zeroes
   * sizeof(state), the size of a pointer (8 bytes), so only the
   * initialized flag and the first 7 keys are cleared; every other key
   * keeps whatever the memory held.
   */
  function ZeroedAsWritten(keys: seq<bool>): (r: seq<bool>)
    requires |keys| == KEY_COUNT
    ensures |r| == KEY_COUNT
    ensures forall k :: 0 <= k < 7 ==> !r[k]
    ensures forall k :: 7 <= k < KEY_COUNT ==> r[k] == keys[k]
  {
    seq(KEY_COUNT, k requires 0 <= k < KEY_COUNT => if k < 7 then false else keys[k])
  }

  /**
   * Memory that held key 100 as down still reports it down after the
   * initialisation as written, where the intended zeroing reports it up.
   */
  lemma StaleKeyAfterInitialize()
    ensures ZeroedAsWritten(seq(KEY_COUNT, k => k == 100))[100]
    ensures !seq(KEY_COUNT, _ => false)[100]
  {
  }
}
