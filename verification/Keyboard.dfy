/** Scan codes of student-distrib/keyboard.c: modifier flags and what a key asks for. */
module Keyboard {
  import opened Bytes

  datatype Mods = Mods(leftShift: bool, rightShift: bool, ctrl: bool, capsLock: bool, alt: bool)

  const NO_MODS := Mods(false, false, false, false, false)

  /** What a scan code asks of the viewed terminal. */
  datatype Stroke = Nothing | Typed(c: byte) | EraseLast | ClearScreen | Switch(tid: nat)

  const SCAN_CODE_SET_SIZE := 59
  const LETTER_L: byte := 108

  /** Scan code set 1: the plain and the shifted character of each key. */
  const SCAN_CODES: seq<(byte, byte)> :=
    [(0, 0), (0, 0), (49, 33), (50, 64), (51, 35), (52, 36), (53, 37), (54, 94), (55, 38), (56, 42)] +
    [(57, 40), (48, 41), (45, 95), (61, 43), (8, 8), (9, 9), (113, 81), (119, 87), (101, 69), (114, 82)] +
    [(116, 84), (121, 89), (117, 85), (105, 73), (111, 79), (112, 80), (91, 123), (93, 125), (10, 10), (48, 48)] +
    [(97, 65), (115, 83), (100, 68), (102, 70), (103, 71), (104, 72), (106, 74), (107, 75), (108, 76), (59, 58)] +
    [(39, 34), (96, 126), (48, 48), (92, 124), (122, 90), (120, 88), (99, 67), (118, 86), (98, 66), (110, 78)] +
    [(109, 77), (44, 60), (46, 62), (47, 63), (48, 48), (42, 42), (48, 48), (32, 32), (48, 48)]

  predicate IsLetter(code: byte) {
    0x10 <= code <= 0x19 || 0x1E <= code <= 0x26 || 0x2C <= code <= 0x32
  }

  function Character(m: Mods, code: byte): byte
    requires code < SCAN_CODE_SET_SIZE
  {
    assert |SCAN_CODES| == SCAN_CODE_SET_SIZE;
    var shift := m.leftShift || m.rightShift;
    var shifted := if IsLetter(code) then shift != m.capsLock else shift;
    if shifted then SCAN_CODES[code].1 else SCAN_CODES[code].0
  }

  /** `check_and_handle_special_button`: the new flags and the request, or nothing for an ordinary key. */
  function Special(m: Mods, code: byte): Option<(Mods, Stroke)> {
    match code
    case 0x1D => Some((m.(ctrl := true), Nothing))
    case 0xED => Some((m.(ctrl := true), Nothing))
    case 0x9D => Some((m.(ctrl := false), Nothing))
    case 0x2A => Some((m.(leftShift := true), Nothing))
    case 0xAA => Some((m.(leftShift := false), Nothing))
    case 0x36 => Some((m.(rightShift := true), Nothing))
    case 0xB6 => Some((m.(rightShift := false), Nothing))
    case 0x3A => Some((m.(capsLock := !m.capsLock), Nothing))
    case 0xBA => Some((m, Nothing))
    case 0x0E => Some((m, EraseLast))
    case 0x8E => Some((m, Nothing))
    case 0x38 => Some((m.(alt := true), Nothing))
    case 0xB8 => Some((m.(alt := false), Nothing))
    case 0x0F => Some((m, Nothing))
    case 0x8F => Some((m, Nothing))
    case 0x3B => Some((m, if m.alt then Switch(0) else Nothing))
    case 0xBB => Some((m, Nothing))
    case 0x3C => Some((m, if m.alt then Switch(1) else Nothing))
    case 0xBC => Some((m, Nothing))
    case 0x3D => Some((m, if m.alt then Switch(2) else Nothing))
    case 0xBD => Some((m, Nothing))
    case _ => None
  }

  /** The decision part of `keyboard_int_handler`. */
  function Decode(m: Mods, code: byte): (r: (Mods, Stroke))
    ensures r.1.Switch? ==> r.1.tid < 3 && m.alt
    ensures Special(m, code).Some? ==> r == Special(m, code).value
    ensures Special(m, code).None? ==> r.0 == m || r.0 == m.(ctrl := false)
  {
    if Special(m, code).Some? then Special(m, code).value
    else if 0x02 <= code <= SCAN_CODE_SET_SIZE - 1 then
      assert |SCAN_CODES| == SCAN_CODE_SET_SIZE;
      if m.ctrl && SCAN_CODES[code].0 == LETTER_L then (m.(ctrl := false), ClearScreen)
      else (m, Typed(Character(m, code)))
    else (m, Nothing)
  }

  /** The modifier flags after a sequence of scan codes. */
  function Flags(m: Mods, codes: seq<byte>): Mods {
    if codes == [] then m else Decode(Flags(m, codes[..|codes| - 1]), codes[|codes| - 1]).0
  }

  /** A key is held when its last event was a press. */
  function Held(init: bool, codes: seq<byte>, presses: set<byte>, release: byte): bool {
    if codes == [] then init
    else
      var last := codes[|codes| - 1];
      last in presses || (last != release && Held(init, codes[..|codes| - 1], presses, release))
  }

  const CTRL_PRESSES: set<byte> := {0x1D, 0xED}
  const CTRL_RELEASE: byte := 0x9D

  const L_KEY: byte := 0x26

  /** An L was struck after the last press of Ctrl. */
  predicate StruckL(codes: seq<byte>) {
    && codes != []
    && var last := codes[|codes| - 1];
       last == L_KEY || (last !in CTRL_PRESSES && StruckL(codes[..|codes| - 1]))
  }

  lemma LeftShiftKey(m: Mods, code: byte)
    ensures Decode(m, code).0.leftShift == (code == 0x2A || (code != 0xAA && m.leftShift))
  {
    hide Decode;
  }

  lemma RightShiftKey(m: Mods, code: byte)
    ensures Decode(m, code).0.rightShift == (code == 0x36 || (code != 0xB6 && m.rightShift))
  {
    hide Decode;
  }

  lemma AltKey(m: Mods, code: byte)
    ensures Decode(m, code).0.alt == (code == 0x38 || (code != 0xB8 && m.alt))
  {
    hide Decode;
  }

  /** One scan code types the letter L. */
  lemma OneKeyIsL(code: byte)
    requires code < SCAN_CODE_SET_SIZE
    ensures |SCAN_CODES| == SCAN_CODE_SET_SIZE && (SCAN_CODES[code].0 == LETTER_L <==> code == L_KEY)
  {
  }

  lemma CtrlKey(m: Mods, code: byte)
    ensures Decode(m, code).0.ctrl == (code in CTRL_PRESSES || (code != CTRL_RELEASE && code != L_KEY && m.ctrl))
    ensures Decode(m, code).1.ClearScreen? <==> code == L_KEY && m.ctrl
  {
    if code < SCAN_CODE_SET_SIZE {
      OneKeyIsL(code);
    }
    hide SCAN_CODES, Character;
  }

  /** Shift and Alt flags say which keys are held down, after any sequence of scan codes. */
  lemma {:induction false} FlagsSayWhatIsHeld(m: Mods, codes: seq<byte>)
    ensures Flags(m, codes).leftShift == Held(m.leftShift, codes, {0x2A}, 0xAA)
    ensures Flags(m, codes).rightShift == Held(m.rightShift, codes, {0x36}, 0xB6)
    ensures Flags(m, codes).alt == Held(m.alt, codes, {0x38}, 0xB8)
  {
    if codes != [] {
      hide Decode, Special;
      var before, last := Flags(m, codes[..|codes| - 1]), codes[|codes| - 1];
      FlagsSayWhatIsHeld(m, codes[..|codes| - 1]);
      LeftShiftKey(before, last);
      RightShiftKey(before, last);
      AltKey(before, last);
    }
  }

  /** The Ctrl flag is set exactly when Ctrl is held and no L was struck since its last press. */
  lemma {:induction false} CtrlFlagIs(m: Mods, codes: seq<byte>)
    ensures Flags(m, codes).ctrl <==> Held(m.ctrl, codes, CTRL_PRESSES, CTRL_RELEASE) && !StruckL(codes)
  {
    if codes != [] {
      hide Decode;
      CtrlKey(Flags(m, codes[..|codes| - 1]), codes[|codes| - 1]);
      CtrlFlagIs(m, codes[..|codes| - 1]);
    }
  }

  /**
   The Ctrl flag says whether Ctrl is held, after any sequence of scan codes, exactly unless an L was struck
   since the last press of a Ctrl that is still down; and an L clears the screen exactly when it is the first.
   */
  lemma {:induction false} CtrlFlagExact(m: Mods, codes: seq<byte>, code: byte)
    ensures var held := Held(m.ctrl, codes, CTRL_PRESSES, CTRL_RELEASE);
            && (Flags(m, codes).ctrl == held <==> !(held && StruckL(codes)))
            && (Decode(Flags(m, codes), code).1.ClearScreen? <==> code == L_KEY && held && !StruckL(codes))
  {
    hide *;
    CtrlFlagIs(m, codes);
    CtrlKey(Flags(m, codes), code);
  }

  /** Ctrl, L, L: Ctrl is still down, and the second L types a letter. */
  lemma CtrlLForgetsCtrl(m: Mods)
    ensures var codes := [0x1D, L_KEY];
            Held(m.ctrl, codes, CTRL_PRESSES, CTRL_RELEASE) && Decode(Flags(m, codes), L_KEY).1.Typed?
  {
    var codes: seq<byte> := [0x1D, L_KEY];
    assert codes[..1] == [0x1D] && codes[..1][..0] == [];
    OneKeyIsL(L_KEY);
    hide SCAN_CODES;
    assert Flags(m, codes[..1]) == m.(ctrl := true);
  }

  // ---------------------------------------------------------------- what a key types

  /** What is printed on a key: its plain and its shifted character. */
  function Legend(code: byte): Option<(char, char)> {
    if 0x02 <= code <= 0x0D then Some(("1234567890-="[code - 0x02], "!@#$%^&*()_+"[code - 0x02]))
    else if 0x10 <= code <= 0x19 then Some(("qwertyuiop"[code - 0x10], "QWERTYUIOP"[code - 0x10]))
    else if 0x1A <= code <= 0x1B then Some(("[]"[code - 0x1A], "{}"[code - 0x1A]))
    else if code == 0x1C then Some(('\n', '\n'))
    else if 0x1E <= code <= 0x26 then Some(("asdfghjkl"[code - 0x1E], "ASDFGHJKL"[code - 0x1E]))
    else if 0x27 <= code <= 0x29 then Some((";'`"[code - 0x27], ":\"~"[code - 0x27]))
    else if code == 0x2B then Some(('\\', '|'))
    else if 0x2C <= code <= 0x32 then Some(("zxcvbnm"[code - 0x2C], "ZXCVBNM"[code - 0x2C]))
    else if 0x33 <= code <= 0x35 then Some((",./"[code - 0x33], "<>?"[code - 0x33]))
    else if code == 0x37 then Some(('*', '*'))
    else if code == 0x39 then Some((' ', ' '))
    else None
  }

  lemma TopRow(code: byte)
    requires 0x02 <= code <= 0x0D
    ensures Legend(code).Some? && |SCAN_CODES| == SCAN_CODE_SET_SIZE
    ensures SCAN_CODES[code] == (Legend(code).value.0 as int, Legend(code).value.1 as int)
  {
  }

  lemma UpperRow(code: byte)
    requires 0x10 <= code <= 0x1C
    ensures Legend(code).Some? && |SCAN_CODES| == SCAN_CODE_SET_SIZE
    ensures SCAN_CODES[code] == (Legend(code).value.0 as int, Legend(code).value.1 as int)
    ensures code <= 0x19 ==> 'a' <= Legend(code).value.0 <= 'z' && IsUpperOf(Legend(code).value)
    ensures code > 0x19 ==> !('a' <= Legend(code).value.0 <= 'z')
  {
  }

  lemma MiddleRow(code: byte)
    requires 0x1E <= code <= 0x29
    ensures Legend(code).Some? && |SCAN_CODES| == SCAN_CODE_SET_SIZE
    ensures SCAN_CODES[code] == (Legend(code).value.0 as int, Legend(code).value.1 as int)
    ensures code <= 0x26 ==> 'a' <= Legend(code).value.0 <= 'z' && IsUpperOf(Legend(code).value)
    ensures code > 0x26 ==> !('a' <= Legend(code).value.0 <= 'z')
  {
  }

  lemma LowerRow(code: byte)
    requires 0x2B <= code <= 0x39 && code != 0x36 && code != 0x38
    ensures Legend(code).Some? && |SCAN_CODES| == SCAN_CODE_SET_SIZE
    ensures SCAN_CODES[code] == (Legend(code).value.0 as int, Legend(code).value.1 as int)
    ensures 0x2C <= code <= 0x32 ==> 'a' <= Legend(code).value.0 <= 'z' && IsUpperOf(Legend(code).value)
    ensures code < 0x2C || code > 0x32 ==> !('a' <= Legend(code).value.0 <= 'z')
  {
  }

  predicate IsUpperOf(pair: (char, char)) {
    pair.0 as int == pair.1 as int + 32
  }

  predicate IsLowerCase(c: char) {
    'a' <= c <= 'z'
  }

  /** A key that is neither special nor beyond the table types what is printed on it. */
  lemma TableIsLegend(m: Mods, code: byte)
    ensures Legend(code).Some? <==> Special(m, code).None? && 0x02 <= code < SCAN_CODE_SET_SIZE
    ensures Legend(code).Some? ==>
              var (plain, shifted) := Legend(code).value;
              && |SCAN_CODES| == SCAN_CODE_SET_SIZE && SCAN_CODES[code] == (plain as int, shifted as int)
              && (IsLetter(code) <==> IsLowerCase(plain)) && (IsLowerCase(plain) ==> IsUpperOf((plain, shifted)))
  {
    if 0x02 <= code <= 0x0D {
      TopRow(code);
    } else if 0x10 <= code <= 0x1C {
      UpperRow(code);
    } else if 0x1E <= code <= 0x29 {
      MiddleRow(code);
    } else if 0x2B <= code <= 0x39 && code != 0x36 && code != 0x38 {
      LowerRow(code);
    }
    hide SCAN_CODES;
  }

  const CAPS_LOCK: byte := 0x3A

  /** How often Caps Lock was struck. */
  function CapsStrokes(codes: seq<byte>): nat {
    if codes == [] then 0
    else CapsStrokes(codes[..|codes| - 1]) + if codes[|codes| - 1] == CAPS_LOCK then 1 else 0
  }

  lemma CapsKey(m: Mods, code: byte)
    ensures Decode(m, code).0.capsLock == (m.capsLock != (code == CAPS_LOCK))
  {
    hide Decode;
  }

  lemma {:induction false} CapsFlagIs(m: Mods, codes: seq<byte>)
    ensures Flags(m, codes).capsLock == (m.capsLock != (CapsStrokes(codes) % 2 == 1))
  {
    if codes != [] {
      hide Decode, Special;
      CapsKey(Flags(m, codes[..|codes| - 1]), codes[|codes| - 1]);
      CapsFlagIs(m, codes[..|codes| - 1]);
    }
  }

  /** A Shift is down after the scan codes. */
  predicate ShiftHeld(m: Mods, codes: seq<byte>) {
    Held(m.leftShift, codes, {0x2A}, 0xAA) || Held(m.rightShift, codes, {0x36}, 0xB6)
  }

  /**
   After any scan codes, a key types exactly when something is printed on it, an L under Ctrl apart.  A letter is
   typed in upper case, 32 below the lower case, exactly when a held Shift differs from an odd number of Caps Lock
   strokes; any other key gives its shifted character exactly when a Shift is held.
   */
  lemma KeyTypesItsLegend(m: Mods, codes: seq<byte>, code: byte)
    ensures var stroke := Decode(Flags(m, codes), code).1;
            if Legend(code).None? || (code == L_KEY && Flags(m, codes).ctrl) then !stroke.Typed?
            else
              var (plain, shifted) := Legend(code).value;
              var shift, caps := ShiftHeld(m, codes), m.capsLock != (CapsStrokes(codes) % 2 == 1);
              && stroke.Typed?
              && (if IsLowerCase(plain) then stroke.c == plain as int - if shift != caps then 32 else 0
                  else stroke.c == if shift then shifted as int else plain as int)
  {
    var flags := Flags(m, codes);
    FlagsSayWhatIsHeld(m, codes);
    CapsFlagIs(m, codes);
    TableIsLegend(flags, code);
    if code < SCAN_CODE_SET_SIZE {
      OneKeyIsL(code);
    }
    hide SCAN_CODES, Flags, Held, Legend, CapsStrokes, IsLetter;
    SpecialTypesNothing(flags, code);
    hide Special;
  }

  lemma SpecialTypesNothing(m: Mods, code: byte)
    ensures Special(m, code).Some? ==> !Special(m, code).value.1.Typed?
  {
  }

  /** Backspace erases, Alt with F1, F2 or F3 asks for terminal 0, 1 or 2, and nothing else does either. */
  lemma ControlKeys(m: Mods, codes: seq<byte>, code: byte)
    ensures var stroke := Decode(Flags(m, codes), code).1;
            && (stroke.EraseLast? <==> code == 0x0E)
            && (stroke.Switch? <==> code in {0x3B, 0x3C, 0x3D} && Held(m.alt, codes, {0x38}, 0xB8))
            && (stroke.Switch? ==> stroke.tid == code - 0x3B)
  {
    FlagsSayWhatIsHeld(m, codes);
    hide SCAN_CODES, Flags, Held, Character;
  }
}
