/** Typing: the keyboard interrupt handler turns scan codes into characters on the console. */
module Keyboards {
  import opened Words
  import opened Terminal
  import opened Printf

  const ENTER_SHIFT_LEFT: Byte := 0x2A
  const ENTER_SHIFT_RIGHT: Byte := 0x36
  const LEAVE_SHIFT_LEFT: Byte := 0xAA
  const LEAVE_SHIFT_RIGHT: Byte := 0xB6
  const EXTENDED_PREFIX: Byte := 0xE0

  // `scancodes`, sixteen entries a row. The table ends at 0x5C, although the code looks it up to 0x5F.
  const CODES_00: seq<Byte> := [
    0x00, 0x1B, '1' as int, '2' as int, '3' as int, '4' as int, '5' as int, '6' as int,
    '7' as int, '8' as int, '9' as int, '0' as int, '-' as int, '=' as int, 0x08, 0x09]
  const CODES_10: seq<Byte> := [
    'q' as int, 'w' as int, 'e' as int, 'r' as int, 't' as int, 'y' as int, 'u' as int, 'i' as int,
    'o' as int, 'p' as int, '[' as int, ']' as int, 0x0A, 0xF2, 'a' as int, 's' as int]
  const CODES_20: seq<Byte> := [
    'd' as int, 'f' as int, 'g' as int, 'h' as int, 'j' as int, 'k' as int, 'l' as int, ';' as int,
    '\'' as int, '`' as int, 0xF0, '\\' as int, 'z' as int, 'x' as int, 'c' as int, 'v' as int]
  const CODES_30: seq<Byte> := [
    'b' as int, 'n' as int, 'm' as int, ',' as int, '.' as int, '/' as int, 0xF1, '*' as int,
    0xF4, ' ' as int, 0xD0, 0xC1, 0xC2, 0xC3, 0xC4, 0xC5]
  const CODES_40: seq<Byte> := [
    0xC6, 0xC7, 0xC8, 0xC9, 0xCA, 0xD1, 0xD2, '7' as int,
    '8' as int, '9' as int, '-' as int, '4' as int, '5' as int, '6' as int, '+' as int, '1' as int]
  const CODES_50: seq<Byte> := [
    '2' as int, '3' as int, '0' as int, '.' as int, 0x00, 0x00, 0x00, 0xCB,
    0xCC, 0x00, 0x00, 0x00]

  const SCANCODES: seq<Byte> := CODES_00 + CODES_10 + CODES_20 + CODES_30 + CODES_40 + CODES_50

  predicate InTable(code: Byte) {
    code < 0x5C || code >= 0x60
  }

  /** An entry, as an unsigned character. */
  function ScanChr(code: Byte): Byte
    requires InTable(code)
  {
    if code < 0x60 then SCANCODES[code] else SCANCODES[0]
  }

  predicate IsPrint(c: Byte) {
    0x20 <= c < 0x7F
  }

  predicate IsTyped(c: Byte) {
    IsPrint(c) || c == TAB || c == NEWLINE || c == BACKSPACE
  }

  function ShiftChr(c: Byte): (s: Byte)
    ensures IsPrint(c) ==> IsPrint(s)
    ensures !IsPrint(c) ==> s == c
  {
    if 'a' as int <= c <= 'z' as int then c - 32
    else if c == '`' as int then '~' as int
    else if c == '1' as int then '!' as int
    else if c == '2' as int then '@' as int
    else if c == '3' as int then '#' as int
    else if c == '4' as int then '$' as int
    else if c == '5' as int then '%' as int
    else if c == '6' as int then '^' as int
    else if c == '7' as int then '&' as int
    else if c == '8' as int then '*' as int
    else if c == '9' as int then '(' as int
    else if c == '0' as int then ')' as int
    else if c == '-' as int then '_' as int
    else if c == '=' as int then '+' as int
    else if c == '[' as int then '{' as int
    else if c == ']' as int then '}' as int
    else if c == '\\' as int then '|' as int
    else if c == ';' as int then ':' as int
    else if c == '\'' as int then '"' as int
    else if c == ',' as int then '<' as int
    else if c == '.' as int then '>' as int
    else if c == '/' as int then '?' as int
    else c
  }

  // ----- what a stream of scan codes types

  /** The codes that count: a prefix swallows the code behind it. */
  function Plain(codes: seq<Byte>): (plain: seq<Byte>)
    ensures forall code | code in plain :: code in codes && code != EXTENDED_PREFIX
  {
    if codes == [] then []
    else if codes[0] == EXTENDED_PREFIX then if |codes| == 1 then [] else Plain(codes[2..])
    else [codes[0]] + Plain(codes[1..])
  }

  /** The same, where a prefix may have been seen before. */
  function PlainAfter(extended: bool, codes: seq<Byte>): (plain: seq<Byte>)
    ensures forall code | code in plain :: code in codes && code != EXTENDED_PREFIX
  {
    if !extended then Plain(codes) else if codes == [] then [] else Plain(codes[1..])
  }

  predicate IsShift(code: Byte) {
    code in {ENTER_SHIFT_LEFT, ENTER_SHIFT_RIGHT, LEAVE_SHIFT_LEFT, LEAVE_SHIFT_RIGHT}
  }

  function ShiftAfter(code: Byte, shift: bool): bool {
    if code == ENTER_SHIFT_LEFT || code == ENTER_SHIFT_RIGHT then true
    else if code == LEAVE_SHIFT_LEFT || code == LEAVE_SHIFT_RIGHT then false
    else shift
  }

  function KeyText(code: Byte, shift: bool): (s: seq<Byte>)
    requires InTable(code)
    ensures forall c | c in s :: IsTyped(c)
  {
    hide ScanChr, ShiftChr;
    var c := ScanChr(code);
    if IsTyped(c) then [if shift then ShiftChr(c) else c] else []
  }

  /** A key types exactly if its entry is a printable character, a backspace, a tab or a newline. */
  lemma KeyTypes(code: Byte, shift: bool)
    requires code < 0x5C
    ensures var c := SCANCODES[code];
            if 0x20 <= c <= 0x7E || c in {0x08, 0x09, 0x0A}
            then KeyText(code, shift) == [if shift then ShiftChr(c) else c]
            else KeyText(code, shift) == []
  {
    hide ShiftChr;
  }

  // The rows of the keyboard, without shift and with it.

  lemma DigitRow(i: nat)
    requires i < 12
    ensures SCANCODES[0x02 + i] == Ascii("1234567890-=")[i]
  {
    hide ShiftChr, Ascii;
    AsciiAt("1234567890-=", i);
    assert i == 0 || i == 1 || i == 2 || i == 3 || i == 4 || i == 5
        || i == 6 || i == 7 || i == 8 || i == 9 || i == 10 || i == 11;
  }

  lemma ShiftedDigitRow(i: nat)
    requires i < 12
    ensures ShiftChr(Ascii("1234567890-=")[i]) == Ascii("!@#$%^&*()_+")[i] && IsPrint(Ascii("1234567890-=")[i])
  {
    hide Ascii;
    AsciiAt("1234567890-=", i);
    AsciiAt("!@#$%^&*()_+", i);
    assert i == 0 || i == 1 || i == 2 || i == 3 || i == 4 || i == 5
        || i == 6 || i == 7 || i == 8 || i == 9 || i == 10 || i == 11;
  }

  lemma UpperRow(i: nat)
    requires i < 12
    ensures SCANCODES[0x10 + i] == Ascii("qwertyuiop[]")[i]
  {
    hide ShiftChr, Ascii;
    AsciiAt("qwertyuiop[]", i);
    assert i == 0 || i == 1 || i == 2 || i == 3 || i == 4 || i == 5
        || i == 6 || i == 7 || i == 8 || i == 9 || i == 10 || i == 11;
  }

  lemma ShiftedUpperRow(i: nat)
    requires i < 12
    ensures ShiftChr(Ascii("qwertyuiop[]")[i]) == Ascii("QWERTYUIOP{}")[i] && IsPrint(Ascii("qwertyuiop[]")[i])
  {
    hide Ascii;
    AsciiAt("qwertyuiop[]", i);
    AsciiAt("QWERTYUIOP{}", i);
    assert i == 0 || i == 1 || i == 2 || i == 3 || i == 4 || i == 5
        || i == 6 || i == 7 || i == 8 || i == 9 || i == 10 || i == 11;
  }

  lemma MiddleRow(i: nat)
    requires i < 12
    ensures SCANCODES[0x1E + i] == Ascii("asdfghjkl;'`")[i]
  {
    hide ShiftChr, Ascii;
    AsciiAt("asdfghjkl;'`", i);
    assert i == 0 || i == 1 || i == 2 || i == 3 || i == 4 || i == 5
        || i == 6 || i == 7 || i == 8 || i == 9 || i == 10 || i == 11;
  }

  lemma ShiftedMiddleRow(i: nat)
    requires i < 12
    ensures ShiftChr(Ascii("asdfghjkl;'`")[i]) == Ascii("ASDFGHJKL:\"~")[i] && IsPrint(Ascii("asdfghjkl;'`")[i])
  {
    hide Ascii;
    AsciiAt("asdfghjkl;'`", i);
    AsciiAt("ASDFGHJKL:\"~", i);
    assert i == 0 || i == 1 || i == 2 || i == 3 || i == 4 || i == 5
        || i == 6 || i == 7 || i == 8 || i == 9 || i == 10 || i == 11;
  }

  lemma LowerRow(i: nat)
    requires i < 11
    ensures SCANCODES[0x2B + i] == Ascii("\\zxcvbnm,./")[i]
  {
    hide ShiftChr, Ascii;
    AsciiAt("\\zxcvbnm,./", i);
    assert i == 0 || i == 1 || i == 2 || i == 3 || i == 4 || i == 5
        || i == 6 || i == 7 || i == 8 || i == 9 || i == 10;
  }

  lemma ShiftedLowerRow(i: nat)
    requires i < 11
    ensures ShiftChr(Ascii("\\zxcvbnm,./")[i]) == Ascii("|ZXCVBNM<>?")[i] && IsPrint(Ascii("\\zxcvbnm,./")[i])
  {
    hide Ascii;
    AsciiAt("\\zxcvbnm,./", i);
    AsciiAt("|ZXCVBNM<>?", i);
    assert i == 0 || i == 1 || i == 2 || i == 3 || i == 4 || i == 5
        || i == 6 || i == 7 || i == 8 || i == 9 || i == 10;
  }

  /** Every key of the rows types its character, and the one above it under shift. */
  lemma KeyRows(i: nat)
    requires i < 12
    ensures KeyText(0x02 + i, false) == [Ascii("1234567890-=")[i]]
    ensures KeyText(0x02 + i, true) == [Ascii("!@#$%^&*()_+")[i]]
    ensures KeyText(0x10 + i, false) == [Ascii("qwertyuiop[]")[i]]
    ensures KeyText(0x10 + i, true) == [Ascii("QWERTYUIOP{}")[i]]
    ensures KeyText(0x1E + i, false) == [Ascii("asdfghjkl;'`")[i]]
    ensures KeyText(0x1E + i, true) == [Ascii("ASDFGHJKL:\"~")[i]]
    ensures i < 11 ==> KeyText(0x2B + i, false) == [Ascii("\\zxcvbnm,./")[i]]
    ensures i < 11 ==> KeyText(0x2B + i, true) == [Ascii("|ZXCVBNM<>?")[i]]
  {
    hide ShiftChr, Ascii, IsPrint;
    DigitRow(i);
    ShiftedDigitRow(i);
    UpperRow(i);
    ShiftedUpperRow(i);
    MiddleRow(i);
    ShiftedMiddleRow(i);
    if i < 11 {
      LowerRow(i);
      ShiftedLowerRow(i);
    }
  }

  /** Space bar, enter, tab and backspace, whatever the shift keys do. */
  lemma OtherKeys(shift: bool)
    ensures KeyText(0x39, shift) == [0x20] && KeyText(0x1C, shift) == [0x0A]
    ensures KeyText(0x0F, shift) == [0x09] && KeyText(0x0E, shift) == [0x08]
  {
  }

  ghost predicate AllInTable(codes: seq<Byte>) {
    forall code | code in codes :: InTable(code)
  }

  /** The text typed by codes without prefixes: the shift keys go up and down, the others print. Only
      printable characters, tabs, newlines and backspaces come out. */
  ghost function TypedText(plain: seq<Byte>, shift: bool): (s: seq<Byte>)
    requires AllInTable(plain)
    ensures forall c | c in s :: IsTyped(c)
  {
    if plain == [] then []
    else
      (if IsShift(plain[0]) then [] else KeyText(plain[0], shift))
      + TypedText(plain[1..], ShiftAfter(plain[0], shift))
  }

  ghost function Typed(extended: bool, shift: bool, enabled: bool, codes: seq<Byte>): (s: seq<Byte>)
    requires AllInTable(PlainAfter(extended, codes))
    ensures forall c | c in s :: IsTyped(c)
  {
    if enabled then TypedText(PlainAfter(extended, codes), shift) else []
  }

  /** What is typed has no NUL, so that a backspace behind it takes back whatever letter follows. */
  lemma TypedKeepsEdge(t: Tape, extended: bool, shift: bool, enabled: bool, codes: seq<Byte>, erases: bool)
    requires t.Valid() && EdgeUsed(t) && AllInTable(PlainAfter(extended, codes))
    ensures EdgeUsed(PutAll(t, Typed(extended, shift, enabled, codes), erases))
  {
    hide Typed, EdgeUsed, PutAll;
    TextKeepsEdge(t, Typed(extended, shift, enabled, codes), erases);
  }

  /** The prefix that may stand in front of the rest. */
  predicate ExtendedAfter(extended: bool, code: Byte) {
    !extended && code == EXTENDED_PREFIX
  }

  /** One code of the stream. A code that a prefix swallows need not be in the table. */
  lemma PlainStep(extended: bool, code: Byte, rest: seq<Byte>)
    ensures PlainAfter(extended, [code] + rest)
         == (if extended || code == EXTENDED_PREFIX then [] else [code])
            + PlainAfter(ExtendedAfter(extended, code), rest)
  {
    var codes := [code] + rest;
    assert codes[1..] == rest;
    if !extended && code == EXTENDED_PREFIX && rest != [] {
      assert codes[2..] == rest[1..];
    }
  }

  lemma TypedStep(extended: bool, shift: bool, enabled: bool, code: Byte, rest: seq<Byte>)
    ensures AllInTable(PlainAfter(extended, [code] + rest)) <==>
              && (extended || InTable(code))
              && AllInTable(PlainAfter(ExtendedAfter(extended, code), rest))
    ensures AllInTable(PlainAfter(extended, [code] + rest)) ==>
              Typed(extended, shift, enabled, [code] + rest) ==
              (if extended || IsShift(code) || code == EXTENDED_PREFIX || !enabled then [] else KeyText(code, shift))
              + Typed(ExtendedAfter(extended, code), if extended then shift else ShiftAfter(code, shift), enabled, rest)
  {
    hide KeyText, Plain, PlainAfter, IsShift;
    PlainStep(extended, code, rest);
    var plain, after := PlainAfter(extended, [code] + rest), PlainAfter(ExtendedAfter(extended, code), rest);
    InTableStep(code, after);
    if extended || code == EXTENDED_PREFIX {
      assert plain == after;
    } else {
      assert plain[1..] == after;
    }
    ShiftsOnly(code, shift);
  }

  lemma InTableStep(code: Byte, after: seq<Byte>)
    ensures AllInTable([code] + after) <==> InTable(code) && AllInTable(after)
    ensures code == EXTENDED_PREFIX ==> InTable(code)
  {
    hide InTable;
    var plain := [code] + after;
    if AllInTable(plain) {
      assert plain[0] == code;
      assert forall c | c in after :: c in plain;
    }
    EscapeInTable();
  }

  lemma EscapeInTable()
    ensures InTable(EXTENDED_PREFIX)
  {
  }

  /** The prefix is no shift key. */
  lemma ShiftsOnly(code: Byte, shift: bool)
    ensures code == EXTENDED_PREFIX ==> !IsShift(code) && ShiftAfter(code, shift) == shift
  {
  }

  /** A letter between the make and the break of a shift key comes out in upper case. */
  lemma ShiftedLetter(code: Byte, shiftKey: Byte)
    requires InTable(code) && 'a' as int <= ScanChr(code) <= 'z' as int && !IsShift(code) && code != EXTENDED_PREFIX
    requires shiftKey == ENTER_SHIFT_LEFT || shiftKey == ENTER_SHIFT_RIGHT
    ensures AllInTable(PlainAfter(false, [shiftKey, code, shiftKey + 0x80, code]))
    ensures Typed(false, false, true, [shiftKey, code, shiftKey + 0x80, code]) == [ScanChr(code) - 32, ScanChr(code)]
  {
    hide ScanChr, Plain, Typed, AllInTable;
    TypedNothing(false, false, true);
    TypedStep(false, false, true, shiftKey, [code, shiftKey + 0x80, code]);
    TypedStep(false, true, true, code, [shiftKey + 0x80, code]);
    TypedStep(false, true, true, shiftKey + 0x80, [code]);
    TypedStep(false, false, true, code, []);
    assert [code] == [code] + [] && [shiftKey + 0x80, code] == [shiftKey + 0x80] + [code];
    assert [code, shiftKey + 0x80, code] == [code] + [shiftKey + 0x80, code];
    assert [shiftKey, code, shiftKey + 0x80, code] == [shiftKey] + [code, shiftKey + 0x80, code];
  }

  /** Both shift keys raise the letter a between their make and break codes, a code behind the prefix 0xE0 does not
      count, and with typing disabled nothing is typed. */
  lemma TypedInstance()
    ensures AllInTable(PlainAfter(false, [0x2A, 0x1E, 0xAA, 0x1E]))
    ensures AllInTable(PlainAfter(false, [0x36, 0x1E, 0xB6, 0x1E]))
    ensures Typed(false, false, true, [0x2A, 0x1E, 0xAA, 0x1E]) == [0x41, 0x61]
    ensures Typed(false, false, true, [0x36, 0x1E, 0xB6, 0x1E]) == [0x41, 0x61]
    ensures AllInTable(PlainAfter(false, [0xE0, 0x1E])) && Typed(false, false, true, [0xE0, 0x1E]) == []
    ensures AllInTable(PlainAfter(false, [0x1E])) && Typed(false, false, false, [0x1E]) == []
  {
    hide Typed, AllInTable, Plain, ScanChr, InTable;
    LetterA();
    ShiftedLetter(0x1E, 0x2A);
    ShiftedLetter(0x1E, 0x36);
    TypedNothing(false, false, true);
    TypedNothing(false, false, false);
    TypedStep(true, false, true, 0x1E, []);
    TypedStep(false, false, true, 0xE0, [0x1E]);
    TypedStep(false, false, false, 0x1E, []);
    assert [0x1E] == [0x1E] + [] && [0xE0, 0x1E] == [0xE0] + [0x1E];
    EscapeInTable();
  }

  lemma LetterA()
    ensures InTable(0x1E) && ScanChr(0x1E) == 0x61
  {
    MiddleRow(0);
  }

  /** The keys that come as 0xE0 0x5C and 0xE0 0x5D type nothing, although the table has no such codes. */
  lemma SwallowedCodes(code: Byte, shift: bool, enabled: bool)
    requires code == 0x5C || code == 0x5D
    ensures !InTable(code) && AllInTable(PlainAfter(false, [EXTENDED_PREFIX, code]))
    ensures Typed(false, shift, enabled, [EXTENDED_PREFIX, code]) == []
  {
    hide Typed, AllInTable, Plain;
    TypedNothing(false, shift, enabled);
    TypedStep(true, shift, enabled, code, []);
    TypedStep(false, shift, enabled, EXTENDED_PREFIX, [code]);
    assert [code] == [code] + [] && [EXTENDED_PREFIX, code] == [EXTENDED_PREFIX] + [code];
    EscapeInTable();
  }

  class Keyboard {
    var shiftPressed: bool
    var extended: bool
    var typingEnabled: bool

    constructor ()
      ensures !shiftPressed && !extended && !typingEnabled
    {
      shiftPressed, extended, typingEnabled := false, false, false;
    }

    /** `keypress`, for one scan code. */
    method KeyPress(code: Byte, out: Stream)
      requires (extended || InTable(code)) && out.Valid()
      modifies this, out, out.console, out.console.memory
      ensures out.Valid() && typingEnabled == old(typingEnabled)
      ensures extended == ExtendedAfter(old(extended), code)
      ensures shiftPressed == if old(extended) then old(shiftPressed) else ShiftAfter(code, old(shiftPressed))
      ensures out.written == old(out.written)
              + if old(extended) || IsShift(code) || code == EXTENDED_PREFIX || !typingEnabled then []
                else KeyText(code, old(shiftPressed))
    {
      hide Stream.Valid;
      if extended {
        extended := false;
      } else if code == ENTER_SHIFT_LEFT || code == ENTER_SHIFT_RIGHT {
        shiftPressed := true;
      } else if code == LEAVE_SHIFT_LEFT || code == LEAVE_SHIFT_RIGHT {
        shiftPressed := false;
      } else if code == EXTENDED_PREFIX {
        extended := true;
      } else {
        var c := ScanChr(code);
        if typingEnabled && (IsPrint(c) || c == TAB || c == NEWLINE || c == BACKSPACE) {
          out.FPutC(if shiftPressed then ShiftChr(c) else c);
        }
      }
    }

    /** A stream of scan codes types what it means on the console, whose cursor stays on the screen. */
    method KeyPresses(codes: seq<Byte>, out: Stream)
      requires AllInTable(PlainAfter(extended, codes)) && out.Valid()
      modifies this, out, out.console, out.console.memory
      ensures out.Valid() && out.console.Valid()
      ensures out.written == old(out.written) + Typed(old(extended), old(shiftPressed), old(typingEnabled), codes)
    {
      hide Stream.Valid, Typed, KeyText, ShiftAfter, InTable, AllInTable, PlainAfter;
      ghost var start, goal := out.written, Typed(extended, shiftPressed, typingEnabled, codes);
      assert codes[0..] == codes;
      for i := 0 to |codes|
        invariant out.Valid() && AllInTable(PlainAfter(extended, codes[i..]))
        invariant start + goal == out.written + Typed(extended, shiftPressed, typingEnabled, codes[i..])
      {
        TypedNext(extended, shiftPressed, typingEnabled, codes, i, out.written);
        KeyPress(codes[i], out);
      }
      assert codes[|codes|..] == [];
      TypedNothing(extended, shiftPressed, typingEnabled);
      ScreenValid(out);
    }
  }

  lemma ScreenValid(out: Stream)
    requires out.Valid()
    ensures out.console.Valid()
  {
  }

  lemma TypedNothing(extended: bool, shift: bool, enabled: bool)
    ensures AllInTable(PlainAfter(extended, [])) && Typed(extended, shift, enabled, []) == []
  {
  }

  lemma TypedNext(extended: bool, shift: bool, enabled: bool, codes: seq<Byte>, i: nat, written: seq<Byte>)
    requires i < |codes| && AllInTable(PlainAfter(extended, codes[i..]))
    ensures extended || InTable(codes[i])
    ensures AllInTable(PlainAfter(ExtendedAfter(extended, codes[i]), codes[i + 1..]))
    ensures written + Typed(extended, shift, enabled, codes[i..])
         == written
            + (if extended || IsShift(codes[i]) || codes[i] == EXTENDED_PREFIX || !enabled then []
               else KeyText(codes[i], shift))
            + Typed(ExtendedAfter(extended, codes[i]), if extended then shift else ShiftAfter(codes[i], shift), enabled,
                    codes[i + 1..])
  {
    hide Typed, KeyText, AllInTable, InTable, PlainAfter, IsShift, ShiftAfter;
    assert codes[i..] == [codes[i]] + codes[i + 1..];
    TypedStep(extended, shift, enabled, codes[i], codes[i + 1..]);
  }
}
