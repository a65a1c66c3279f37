/** include/input.h: key codes in the order of the C enumeration, and key events. */
module Input {
  import opened Bits

  type KeyCode = k: int | 0 <= k <= 61

  const KEY_NONE: KeyCode := 0
  const KEY_A: KeyCode := 1
  const KEY_Z: KeyCode := 26
  const KEY_0: KeyCode := 27
  const KEY_9: KeyCode := 36
  const KEY_ENTER: KeyCode := 37
  const KEY_BACKSPACE: KeyCode := 38
  const KEY_LEFT: KeyCode := 41
  const KEY_RIGHT: KeyCode := 42
  const KEY_UP: KeyCode := 43
  const KEY_DOWN: KeyCode := 44
  const KEY_MINUS: KeyCode := 50
  const KEY_EQUAL: KeyCode := 51
  const KEY_LBRACKET: KeyCode := 52
  const KEY_RBRACKET: KeyCode := 53
  const KEY_SEMICOLON: KeyCode := 54
  const KEY_APOSTROPHE: KeyCode := 55
  const KEY_GRAVE: KeyCode := 56
  const KEY_BACKSLASH: KeyCode := 57
  const KEY_COMMA: KeyCode := 58
  const KEY_DOT: KeyCode := 59
  const KEY_SLASH: KeyCode := 60
  const KEY_SPACE: KeyCode := 61

  datatype Action = Press | Release

  datatype KeyEvent = KeyEvent(key: KeyCode, action: Action, shift: bool, ascii: Byte)
}
