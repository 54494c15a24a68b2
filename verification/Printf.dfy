/** The printing engine: the format state machine and the digit buffer, writing to a console. */
module Printf {
  import opened Words
  import opened Terminal
  import opened Consoles
  import opened Numerals
  import opened Format

  /** The digits of a number, the last one first, in a buffer of 32 bytes. */
  method FillDigits(buffer: array<Byte>, number: nat, base: nat) returns (pos: nat)
    requires buffer.Length == 32 && 2 <= base <= 16 && number < Pow(base, 32)
    modifies buffer
    ensures pos <= 32 && Reversed(buffer[..pos]) == Digits(number, base)
  {
    hide Digits, HexChar, Pow, Quot, Rem;
    DigitCount(number, base, 32);
    pos := 0;
    var n := number;
    var more := true;
    while more
      invariant 0 <= n && pos <= 32 && (more ==> |Digits(n, base)| + pos <= 32)
      invariant Digits(number, base) == (if more then Digits(n, base) else []) + Reversed(buffer[..pos])
      decreases more, n
    {
      var rem := Rem(n, base);
      DigitsStep(n, base);
      n := Quot(n, base);
      buffer[pos] := HexChar(rem);
      assert buffer[..pos + 1] == buffer[..pos] + [HexChar(rem)];
      pos := pos + 1;
      more := n > 0;
    }
  }

  // The output that the characters are sent to, one by one, and with it the console behind it.
  class Stream {
    const console: Console
    ghost const origin: Tape
    ghost var written: seq<Byte>

    constructor (console: Console)
      requires console.Valid()
      ensures this.console == console && Valid() && written == [] && origin == console.Screen()
    {
      this.console := console;
      origin := console.Screen();
      written := [];
      new;
      ViewOfView(origin);
    }

    /** The screen shows what has been written. */
    ghost predicate Valid()
      reads this, console, console.memory
    {
      console.Valid() && origin.Valid() && console.Screen() == PutAll(origin, written, console.erases).View()
    }

    method FPutC(ch: Byte)
      requires Valid()
      modifies this, console, console.memory
      ensures Valid() && written == old(written) + [ch]
    {
      ghost var tape := PutAll(origin, written, console.erases);
      console.PutC(ch);
      PutView(tape, ch, console.erases);
      written := written + [ch];
    }

    method FPutS(s: seq<Byte>)
      requires Valid()
      modifies this, console, console.memory
      ensures Valid() && written == old(written) + s
    {
      hide Valid;
      for i := 0 to |s|
        invariant Valid() && written == old(written) + s[..i]
      {
        FPutC(s[i]);
      }
    }

    /** The digits are produced from the last to the first, and sent in the opposite order. */
    method FPrintUInt(number: nat, base: nat)
      requires Valid() && 2 <= base <= 16 && number < Pow(base, 32)
      modifies this, console, console.memory
      ensures Valid() && written == old(written) + Digits(number, base)
    {
      hide Valid, Digits, Pow, Reversed;
      ghost var goal := written + Digits(number, base);
      var buffer := new Byte[32];
      var pos := FillDigits(buffer, number, base);
      while pos > 0
        invariant 0 <= pos <= 32 && Valid() && goal == written + Reversed(buffer[..pos])
      {
        pos := pos - 1;
        assert buffer[..pos + 1] == buffer[..pos] + [buffer[pos]];
        DigitSent(goal, written, buffer[..pos], buffer[pos]);
        FPutC(buffer[pos]);
      }
      NothingReversed(written);
    }

    method FPrintInt(number: int, base: nat)
      requires Valid() && 2 <= base <= 16
      requires (if number < 0 then -number else number) < Pow(base, 32)
      modifies this, console, console.memory
      ensures Valid() && written == old(written) + IntText(number, base)
    {
      hide Valid, Digits, IntText, Pow;
      SignedText(number, base, written);
      if number < 0 {
        FPutC(MINUS);
        FPrintUInt(-number, base);
      } else {
        FPrintUInt(number, base);
      }
    }

    /** The conversion character has been reached. */
    method Specifier(ch: Byte, length: Length, args: seq<Arg>, k: nat) returns (k': nat)
      requires Valid() && k <= |args|
      requires TakesArg(Conversion(length, ch)) ==> k < |args| && Format.Fits(Conversion(length, ch), args[k])
      modifies this, console, console.memory
      ensures Valid() && written == old(written) + Shown(Conversion(length, ch), args, k)
      ensures k' == if TakesArg(Conversion(length, ch)) then k + 1 else k
    {
      hide Valid, Digits, IntText, Pow;
      var base, sign, num := 10, false, false;
      k' := k;
      if ch == 'c' as int {
        FPutC(args[k].bits % 0x100);
        k' := k + 1;
      } else if ch == 's' as int {
        FPutS(args[k].s);
        k' := k + 1;
      } else if ch == PERCENT {
        FPutC(PERCENT);
      } else if ch == 'd' as int || ch == 'i' as int {
        base, sign, num := 10, true, true;
      } else if ch == 'u' as int {
        base, sign, num := 10, false, true;
      } else if ch == 'x' as int || ch == 'X' as int || ch == 'p' as int {
        base, sign, num := 16, false, true;
      } else if ch == 'o' as int {
        base, sign, num := 8, false, true;
      }

      if num {
        if sign {
          var number := if length == LL then SignedLong(args[k].wide) else Signed(args[k].bits);
          BufferSuffices(if number < 0 then -number else number, base);
          FPrintInt(number, base);
        } else {
          var number: nat := if length == LL then args[k].wide else args[k].bits;
          BufferSuffices(number, base);
          UnsignedText(number, base);
          FPrintUInt(number, base);
        }
        k' := k + 1;
      }
    }

    /** The machine prints what the grammar says the format means, and reads as many arguments as its
        directives take. */
    method VFPrintf(fmt: seq<Byte>, args: seq<Arg>) returns (read: nat)
      requires Valid() && Matching(Parse(fmt), args)
      modifies this, console, console.memory
      ensures Valid() && written == old(written) + Render(Parse(fmt), args)
      ensures read == ArgCount(Parse(fmt))
    {
      hide Valid, Parse, Render, Matching, ArgCount, Pending, Shown, TakesArg;
      var state, length := NORMAL, DEF;
      read := 0;
      ghost var start, goal, count := written, Render(Parse(fmt), args), ArgCount(Parse(fmt));
      var i := 0;
      PendingStart(fmt);
      assert fmt[0..] == fmt && args[0..] == args;
      while i < |fmt|
        invariant i <= |fmt| && read <= |args| && Valid() && StateOk(state, length)
        invariant Matching(Pending(state, length, fmt[i..]), args[read..])
        invariant start + goal == written + Render(Pending(state, length, fmt[i..]), args[read..])
        invariant count == read + ArgCount(Pending(state, length, fmt[i..]))
      {
        var ch := fmt[i];
        ghost var rest := fmt[i..];
        assert rest[0] == ch && rest[1..] == fmt[i + 1..];
        PendingMoves(length, rest);
        var spec := false;
        match state {
          case NORMAL =>
            if ch == PERCENT {
              state := LEN;
            } else {
              PendingEmits(state, length, rest);
              DirectiveStep(Literal(ch), Pending(NORMAL, DEF, rest[1..]), args, read, written);
              LiteralShown(ch, args, read);
              FPutC(ch);
            }
          case LEN =>
            if ch == 'h' as int {
              length, state := H, LEN_H;
            } else if ch == 'l' as int {
              length, state := L, LEN_L;
            } else {
              spec := true;
            }
          case LEN_H =>
            if ch == 'h' as int {
              length, state := HH, SPEC;
            } else {
              spec := true;
            }
          case LEN_L =>
            if ch == 'l' as int {
              length, state := LL, SPEC;
            } else {
              spec := true;
            }
          case SPEC =>
            spec := true;
        }
        if spec {
          PendingEmits(state, length, rest);
          DirectiveStep(Conversion(length, ch), Pending(NORMAL, DEF, rest[1..]), args, read, written);
          read := Specifier(ch, length, args, read);
          state, length := NORMAL, DEF;
        }
        i := i + 1;
      }
      assert fmt[i..] == [];
      PendingEnds(state, length);
      NoDirectives(args[read..]);
    }
  }

  /** Formatted printing on a console shows what the format means. */
  method PrintOn(console: Console, fmt: seq<Byte>, args: seq<Arg>)
    requires console.Valid() && Matching(Parse(fmt), args)
    modifies console, console.memory
    ensures console.Valid()
    ensures console.Screen() == PutAll(old(console.Screen()), Render(Parse(fmt), args), console.erases).View()
  {
    hide Parse, Render, Matching, PutAll, Tape.View;
    ghost var text := Render(Parse(fmt), args);
    var stream := new Stream(console);
    var read := stream.VFPrintf(fmt, args);
    assert [] + text == text;
    assert stream.written == text;
  }

  // ----- the state machine

  datatype State = NORMAL | LEN | LEN_H | LEN_L | SPEC

  /** The directives still to come, from a state of the machine and the rest of the format string. */
  ghost function Pending(state: State, length: Length, rest: seq<Byte>): seq<Directive> {
    match state
    case NORMAL => Parse(rest)
    case LEN => var (l, r) := Modifier(rest); AfterModifier(l, r)
    case LEN_H => if rest != [] && rest[0] == 'h' as int then AfterModifier(HH, rest[1..]) else AfterModifier(H, rest)
    case LEN_L => if rest != [] && rest[0] == 'l' as int then AfterModifier(LL, rest[1..]) else AfterModifier(L, rest)
    case SPEC => AfterModifier(length, rest)
  }

  ghost predicate StateOk(state: State, length: Length) {
    && (state == NORMAL || state == LEN ==> length == DEF)
    && (state == LEN_H ==> length == H)
    && (state == LEN_L ==> length == L)
  }

  /** The moves of the machine that print nothing. */
  lemma PendingMoves(length: Length, rest: seq<Byte>)
    requires rest != []
    ensures rest[0] == PERCENT ==> Pending(NORMAL, DEF, rest) == Pending(LEN, DEF, rest[1..])
    ensures rest[0] == 'h' as int ==> Pending(LEN, DEF, rest) == Pending(LEN_H, H, rest[1..])
    ensures rest[0] == 'l' as int ==> Pending(LEN, DEF, rest) == Pending(LEN_L, L, rest[1..])
    ensures rest[0] == 'h' as int ==> Pending(LEN_H, H, rest) == Pending(SPEC, HH, rest[1..])
    ensures rest[0] == 'l' as int ==> Pending(LEN_L, L, rest) == Pending(SPEC, LL, rest[1..])
  {
  }

  /** The moves that finish a directive; `goto SPEC` is the second. */
  lemma PendingEmits(state: State, length: Length, rest: seq<Byte>)
    requires rest != [] && StateOk(state, length)
    ensures state == NORMAL && rest[0] != PERCENT ==>
              Pending(state, length, rest) == [Literal(rest[0])] + Pending(NORMAL, DEF, rest[1..])
    ensures state == SPEC || (state == LEN && rest[0] != 'h' as int && rest[0] != 'l' as int)
            || (state == LEN_H && rest[0] != 'h' as int) || (state == LEN_L && rest[0] != 'l' as int) ==>
              Pending(state, length, rest) == [Conversion(length, rest[0])] + Pending(NORMAL, DEF, rest[1..])
  {
  }

  lemma PendingEnds(state: State, length: Length)
    ensures Pending(state, length, []) == []
  {
  }

  /** The output for a conversion. */
  function Shown(d: Directive, args: seq<Arg>, k: nat): seq<Byte>
    requires k <= |args| && (TakesArg(d) ==> k < |args| && Fits(d, args[k]))
  {
    if TakesArg(d) then ShowArg(d, args[k]) else ShowPlain(d)
  }

  lemma UnsignedText(number: nat, base: nat)
    requires 2 <= base <= 16
    ensures IntText(number, base) == Digits(number, base)
  {
  }

  lemma PendingStart(fmt: seq<Byte>)
    ensures Pending(NORMAL, DEF, fmt) == Parse(fmt)
  {
  }

  lemma NoDirectives(args: seq<Arg>)
    ensures Matching([], args) && Render([], args) == [] && ArgCount([]) == 0
  {
  }

  lemma LiteralShown(ch: Byte, args: seq<Arg>, k: nat)
    requires k <= |args|
    ensures !TakesArg(Literal(ch)) && Shown(Literal(ch), args, k) == [ch]
  {
  }

  /** One directive is done with. */
  lemma DirectiveStep(d: Directive, ds: seq<Directive>, args: seq<Arg>, k: nat, written: seq<Byte>)
    requires k <= |args| && Matching([d] + ds, args[k..])
    ensures TakesArg(d) ==> k < |args| && Format.Fits(d, args[k])
    ensures var k' := if TakesArg(d) then k + 1 else k;
            && Matching(ds, args[k'..])
            && written + Render([d] + ds, args[k..]) == (written + Shown(d, args, k)) + Render(ds, args[k'..])
            && k + ArgCount([d] + ds) == k' + ArgCount(ds)
  {
    if TakesArg(d) {
      ConsParseArg(d, ds, args[k..]);
      assert args[k..][1..] == args[k + 1..];
    } else {
      ConsParsePlain(d, ds, args[k..]);
    }
  }

  ghost function Reversed(s: seq<Byte>): seq<Byte> {
    if s == [] then [] else [s[|s| - 1]] + Reversed(s[..|s| - 1])
  }

  lemma DigitSent(goal: seq<Byte>, written: seq<Byte>, s: seq<Byte>, ch: Byte)
    requires goal == written + Reversed(s + [ch])
    ensures goal == written + [ch] + Reversed(s)
  {
    assert (s + [ch])[..|s|] == s;
  }

  lemma NothingReversed(written: seq<Byte>)
    ensures written + Reversed([]) == written
  {
  }

  lemma SignedText(number: int, base: nat, written: seq<Byte>)
    requires 2 <= base <= 16
    ensures written + IntText(number, base)
         == if number < 0 then written + [MINUS] + Digits(-number, base) else written + Digits(number, base)
  {
    hide Digits;
  }

  lemma DigitsStep(n: nat, base: nat)
    requires 2 <= base <= 16
    ensures Digits(n, base) == (if Quot(n, base) > 0 then Digits(Quot(n, base), base) else []) + [HexChar(Rem(n, base))]
  {
    hide Quot, Rem;
  }
}
