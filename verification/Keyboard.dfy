/** Keyboard codes: local keys to Win32 virtual keys, and virtual keys to the wire. */
module Keyboard {
  import opened Options

  datatype KeyCode =
    | Unknown | Escape | Enter | Tab | Backspace | Space
    | ArrowLeft | ArrowRight | ArrowUp | ArrowDown
    | Home | End | PageUp | PageDown | Insert | Delete
    | F(number: nat)
    | Char(character: char)

  /** No virtual key lies beyond VK_OEM_7. */
  function KeycodeToVk(keycode: KeyCode): (vk: Option<nat>)
    ensures vk.Some? ==> 0x08 <= vk.value <= 0xDE
  {
    match keycode
    case Unknown => None
    case Escape => Some(0x1B)
    case Enter => Some(0x0D)
    case Tab => Some(0x09)
    case Backspace => Some(0x08)
    case Space => Some(0x20)
    case ArrowLeft => Some(0x25)
    case ArrowUp => Some(0x26)
    case ArrowRight => Some(0x27)
    case ArrowDown => Some(0x28)
    case Home => Some(0x24)
    case End => Some(0x23)
    case PageUp => Some(0x21)
    case PageDown => Some(0x22)
    case Insert => Some(0x2D)
    case Delete => Some(0x2E)
    case F(number) => if 1 <= number <= 24 then Some(0x70 + (number - 1)) else None
    case Char(character) => CharToVk(character)
  }

  function CharToVk(c: char): (vk: Option<nat>)
    ensures vk.Some? ==> 0x30 <= vk.value <= 0x39 || 0x41 <= vk.value <= 0x5A || 0xBA <= vk.value <= 0xDE
  {
    if 'a' <= c <= 'z' then Some(c as int - 'a' as int + 'A' as int)
    else if 'A' <= c <= 'Z' || '0' <= c <= '9' then Some(c as int)
    else if 1 <= c as int <= 0x1A then Some(c as int - 1 + 'A' as int)
    else if c as int == 0x1B then Some(0xDB)
    else if c as int == 0x1C then Some(0xDC)
    else if c as int == 0x1D then Some(0xDD)
    else if c as int == 0x1F then Some(0xBD)
    else PunctuationToVk(c)
  }

  function PunctuationToVk(c: char): (vk: Option<nat>)
    ensures vk.Some? ==> 0x30 <= vk.value <= 0x39 || 0xBA <= vk.value <= 0xDE
  {
    match c
    case '!' => Some(0x31)
    case '@' => Some(0x32)
    case '#' => Some(0x33)
    case '$' => Some(0x34)
    case '%' => Some(0x35)
    case '^' => Some(0x36)
    case '&' => Some(0x37)
    case '*' => Some(0x38)
    case '(' => Some(0x39)
    case ')' => Some(0x30)
    case ';' => Some(0xBA)
    case ':' => Some(0xBA)
    case '=' => Some(0xBB)
    case '+' => Some(0xBB)
    case ',' => Some(0xBC)
    case '<' => Some(0xBC)
    case '-' => Some(0xBD)
    case '_' => Some(0xBD)
    case '.' => Some(0xBE)
    case '>' => Some(0xBE)
    case '/' => Some(0xBF)
    case '?' => Some(0xBF)
    case '`' => Some(0xC0)
    case '~' => Some(0xC0)
    case '[' => Some(0xDB)
    case '{' => Some(0xDB)
    case '\\' => Some(0xDC)
    case '|' => Some(0xDC)
    case ']' => Some(0xDD)
    case '}' => Some(0xDD)
    case '\'' => Some(0xDE)
    case '"' => Some(0xDE)
    case _ => None
  }

  /** The US layout seen from its keys: the two characters printed on each of the keys that
      are neither letters nor digits. */
  function OemKey(vk: nat): string {
    match vk
    case 0xBA => ";:"
    case 0xBB => "=+"
    case 0xBC => ",<"
    case 0xBD => "-_"
    case 0xBE => ".>"
    case 0xBF => "/?"
    case 0xC0 => "`~"
    case 0xDB => "[{"
    case 0xDC => "\\|"
    case 0xDD => "]}"
    case 0xDE => "'\""
    case _ => ""
  }

  /** The control character a key makes together with the control key, if any. */
  predicate IsControlOf(code: int, vk: nat) {
    || (0x41 <= vk <= 0x5A && code == vk - 0x40)
    || (0xDB <= vk <= 0xDD && code == vk - 0xC0)
    || (vk == 0xBD && code == 0x1F)
  }

  /** Pressing the letter, digit or OEM key, alone, shifted or with the control key, makes the
      character.  The space bar and the keys of the control functions are not in this layout. */
  predicate KeyMakes(vk: nat, c: char) {
    || (0x41 <= vk <= 0x5A && (c as int == vk || c as int == vk + 0x20))
    || (0x30 <= vk <= 0x39 && (c as int == vk || c == ")!@#$%^&*("[vk - 0x30]))
    || c in OemKey(vk)
    || IsControlOf(c as int, vk)
  }

  lemma {:induction false} PunctuationIsOnItsKey(c: char, vk: nat)
    ensures PunctuationToVk(c) == Some(vk) <==>
            (0x30 <= vk <= 0x39 && c == ")!@#$%^&*("[vk - 0x30]) || c in OemKey(vk)
  {
  }

  /** A character is sent as the one letter, digit or OEM key that makes it; a character that
      none of them makes is not sent. */
  lemma {:induction false} CharIsOnItsKey(c: char, vk: nat)
    ensures CharToVk(c) == Some(vk) <==> KeyMakes(vk, c)
  {
    PunctuationIsOnItsKey(c, vk);
  }

  /** The cursor block, in the order in which Windows numbers it from 0x21 on. */
  const CURSOR_BLOCK: seq<KeyCode> := [PageUp, PageDown, End, Home, ArrowLeft, ArrowUp, ArrowRight, ArrowDown]

  /** A key that makes a control character or a blank has that character's code; the cursor
      block and the function keys are numbered without a gap. */
  lemma {:induction false} NamedKeysAreNumbered(n: nat)
    ensures KeycodeToVk(Backspace) == Some('\U{08}' as int) && KeycodeToVk(Tab) == Some('\t' as int)
    ensures KeycodeToVk(Enter) == Some('\r' as int) && KeycodeToVk(Escape) == Some('\U{1B}' as int)
    ensures KeycodeToVk(Space) == Some(' ' as int)
    ensures n < |CURSOR_BLOCK| ==> KeycodeToVk(CURSOR_BLOCK[n]) == Some(0x21 + n)
    ensures KeycodeToVk(Insert) == Some(0x2D) && KeycodeToVk(Delete) == Some(0x2E)
    ensures KeycodeToVk(F(n)) == if 1 <= n <= 24 then Some(0x6F + n) else None
    ensures KeycodeToVk(Unknown) == None
  {
  }

  /** A named key shares its virtual key neither with another name nor with a character. */
  lemma {:induction false} NamedKeyIsAlone(named: KeyCode, other: KeyCode)
    requires KeycodeToVk(named).Some? && !named.Char?
    ensures KeycodeToVk(other) == KeycodeToVk(named) <==> other == named
  {
  }

  /** The virtual-key marker over the low byte of the code. */
  function WireKeyCode(vk: nat): nat { 0x8000 + vk % 0x100 }

  lemma {:induction false} CodeOnTheWire(vk: nat)
    requires vk < 0x100
    ensures WireKeyCode(vk) == 0x8000 + vk
  {
  }

  lemma {:induction false} SameCodeSameVk(a: nat, b: nat)
    requires a <= 0xDE && b <= 0xDE
    ensures WireKeyCode(a) == WireKeyCode(b) <==> a == b
  {
    CodeOnTheWire(a);
    CodeOnTheWire(b);
  }

  /** So two tracked keys are never one key to the host. */
  lemma {:induction false} WireKeepsKeysApart(a: KeyCode, b: KeyCode)
    requires KeycodeToVk(a).Some? && KeycodeToVk(b).Some?
    ensures WireKeyCode(KeycodeToVk(a).value) == WireKeyCode(KeycodeToVk(b).value) <==> KeycodeToVk(a) == KeycodeToVk(b)
  {
    SameCodeSameVk(KeycodeToVk(a).value, KeycodeToVk(b).value);
  }
}
