/** The input events the scene handlers read. Keyboard keys and gamepad
    buttons are two separate alphabets: a key event never reads as a
    button press and a button event never reads as a key. */
module Events {

  /** The keyboard keys the handlers tell apart; every other key code is
      `OtherKey`. */
  datatype Key = Up | Down | Left | Right | Return | Backspace | LShift | KeyA | KeyB | KeyX | KeyY | OtherKey

  /** The handheld's buttons (`BrickButton`). */
  datatype Button = DPadDown | DPadUp | PadA | PadB | PadX | PadY | Start | LeftShoulder | RightShoulder | OtherButton

  /** A key press (with the auto-repeat flag), a key release, a button
      press or release, or any other event (including a key event that
      carries no key code). */
  datatype Event =
    | KeyDown(key: Key, repeat: bool)
    | KeyUp(key: Key)
    | ButtonDown(button: Button)
    | ButtonUp(button: Button)
    | OtherEvent

  /** A fresh press of `k`: the only kind of key event the handlers act on,
      apart from the release of LShift. */
  predicate Pressed(e: Event, k: Key) {
    e == KeyDown(k, false)
  }
}
