/** Formatted printing: the grammar of format strings and what its directives print. */
module Format {
  import opened Words
  import opened Numerals

  const PERCENT: Byte := 0x25

  // ----- arguments

  // What a variable argument holds on the i686: the 32 bits of an `int` or `long` or an unsigned one, the
  // 64 bits of a `long long`, or a C string.
  datatype Arg = Int(bits: Word) | LongLong(wide: nat) | Text(s: seq<Byte>)

  datatype Length = DEF | HH | H | L | LL

  // ----- the grammar

  // A format string is a sequence of literal characters and conversions. A conversion that the string ends in
  // is dropped.
  datatype Directive = Literal(ch: Byte) | Conversion(length: Length, spec: Byte)

  /** The length modifier in front of a conversion character. */
  function Modifier(s: seq<Byte>): (r: (Length, seq<Byte>))
    ensures |r.1| <= |s|
  {
    if |s| >= 2 && s[0] == 'h' as int && s[1] == 'h' as int then (HH, s[2..])
    else if |s| >= 1 && s[0] == 'h' as int then (H, s[1..])
    else if |s| >= 2 && s[0] == 'l' as int && s[1] == 'l' as int then (LL, s[2..])
    else if |s| >= 1 && s[0] == 'l' as int then (L, s[1..])
    else (DEF, s)
  }

  function Parse(fmt: seq<Byte>): seq<Directive>
    decreases |fmt|, 0
  {
    if fmt == [] then []
    else if fmt[0] != PERCENT then [Literal(fmt[0])] + Parse(fmt[1..])
    else
      var (length, rest) := Modifier(fmt[1..]);
      AfterModifier(length, rest)
  }

  function AfterModifier(length: Length, rest: seq<Byte>): seq<Directive>
    decreases |rest|, 1
  {
    if rest == [] then [] else [Conversion(length, rest[0])] + Parse(rest[1..])
  }

  /** The length modifiers as they are written. */
  function ModifierText(length: Length): seq<Byte> {
    match length
    case DEF => []
    case H => [0x68]
    case HH => [0x68, 0x68]
    case L => [0x6C]
    case LL => [0x6C, 0x6C]
  }

  /** A character other than a percent sign stands for itself. A percent sign, a modifier and a character are a
      conversion; only behind h and l a second one of them belongs to the modifier. A conversion that has no
      character is dropped. */
  lemma ParsedDirective(length: Length, ch: Byte, rest: seq<Byte>)
    requires length == DEF ==> ch != 0x68 && ch != 0x6C
    requires length == H ==> ch != 0x68
    requires length == L ==> ch != 0x6C
    ensures Parse([]) == []
    ensures ch != 0x25 ==> Parse([ch] + rest) == [Literal(ch)] + Parse(rest)
    ensures Parse([0x25] + ModifierText(length) + [ch] + rest) == [Conversion(length, ch)] + Parse(rest)
    ensures Parse([0x25] + ModifierText(length)) == []
  {
    var m := ModifierText(length);
    assert ([ch] + rest)[1..] == rest;
    var fmt := [0x25] + m + [ch] + rest;
    assert fmt[1..] == m + ([ch] + rest);
    ModifierRead(length, [ch] + rest);
    assert AfterModifier(length, [ch] + rest) == [Conversion(length, ch)] + Parse(rest);
    assert ([0x25] + m)[1..] == m == m + [];
    ModifierRead(length, []);
    assert AfterModifier(length, []) == [];
  }

  lemma ModifierRead(length: Length, rest: seq<Byte>)
    requires rest != [] ==>
               && (length == DEF ==> rest[0] != 0x68 && rest[0] != 0x6C)
               && (length == H ==> rest[0] != 0x68)
               && (length == L ==> rest[0] != 0x6C)
    ensures Modifier(ModifierText(length) + rest) == (length, rest)
  {
    var s := ModifierText(length) + rest;
    assert s[|ModifierText(length)|..] == rest;
  }

  // ----- the meaning

  datatype Notation = Notation(base: nat, signed: bool)

  predicate IsNumeric(spec: Byte) {
    spec in {'d' as int, 'i' as int, 'u' as int, 'x' as int, 'X' as int, 'p' as int, 'o' as int}
  }

  function NotationOf(spec: Byte): (n: Notation)
    requires IsNumeric(spec)
    ensures n.base in {8, 10, 16}
  {
    if spec == 'd' as int || spec == 'i' as int then Notation(10, true)
    else if spec == 'u' as int then Notation(10, false)
    else if spec == 'o' as int then Notation(8, false)
    else Notation(16, false)
  }

  predicate TakesArg(d: Directive) {
    d.Conversion? && (IsNumeric(d.spec) || d.spec == 'c' as int || d.spec == 's' as int)
  }

  /** The argument has the type that the conversion reads. The negation of the least `long long` is undefined
      in C, so it is none. */
  predicate Fits(d: Directive, arg: Arg)
    requires TakesArg(d)
  {
    if d.spec == 's' as int then arg.Text?
    else if d.spec == 'c' as int || d.length != LL then arg.Int?
    else arg.LongLong? && arg.wide < TWO64 && (NotationOf(d.spec).signed ==> arg.wide != TWO64 / 2)
  }

  /** Two's complement, where asked for. */
  function Value(arg: Arg, signed: bool): int
    requires !arg.Text?
  {
    if arg.Int? then if signed then Signed(arg.bits) else arg.bits
    else if signed then SignedLong(arg.wide) else arg.wide
  }

  /** The arguments that fit: 32 bits, or for a numeric conversion with the modifier ll 64, but for the least signed
      number. */
  lemma FittingArg(length: Length, spec: Byte, arg: Arg)
    requires TakesArg(Conversion(length, spec)) && spec != 0x73
    ensures Fits(Conversion(length, spec), arg) <==>
              if spec == 0x63 || length != LL then arg.Int?
              else arg.LongLong? && arg.wide < 0x1_0000_0000_0000_0000
                   && !(spec in {0x64, 0x69} && arg.wide == 0x8000_0000_0000_0000)
  {
  }

  /** The value of an argument: the number that its bits stand for, up to a multiple of 2^32 or 2^64, with a sign
      where one is asked for. */
  lemma ValueOfBits(arg: Arg, signed: bool)
    requires !arg.Text? && (arg.LongLong? ==> arg.wide < 0x1_0000_0000_0000_0000)
    ensures var v := Value(arg, signed);
            && (arg.Int? ==>
                  && (v - arg.bits) % 0x1_0000_0000 == 0
                  && if signed then -0x8000_0000 <= v < 0x8000_0000 else 0 <= v < 0x1_0000_0000)
            && (arg.LongLong? ==>
                  && (v - arg.wide) % 0x1_0000_0000_0000_0000 == 0
                  && if signed then -0x8000_0000_0000_0000 <= v < 0x8000_0000_0000_0000
                     else 0 <= v < 0x1_0000_0000_0000_0000)
  {
  }

  function ShowArg(d: Directive, arg: Arg): seq<Byte>
    requires TakesArg(d) && Fits(d, arg)
  {
    if d.spec == 's' as int then arg.s
    else if d.spec == 'c' as int then [arg.bits % 0x100]
    else var n := NotationOf(d.spec); IntText(Value(arg, n.signed), n.base)
  }

  /** `%%` prints a percent sign, an unknown conversion nothing. */
  function ShowPlain(d: Directive): seq<Byte>
    requires !TakesArg(d)
  {
    if d.Literal? then [d.ch] else if d.spec == PERCENT then [PERCENT] else []
  }

  /** The base that a conversion prints in: d, i and u in ten, x, X and p in sixteen, o in eight. */
  function BaseOf(spec: Byte): nat {
    if spec in {0x64, 0x69, 0x75} then 10 else if spec in {0x78, 0x58, 0x70} then 16 else 8
  }

  /** What a conversion shows, read in its base, is the number that the bits of its argument stand for, signed for d
      and i alone. */
  lemma ShownNumber(length: Length, spec: Byte, arg: Arg)
    requires spec in {0x64, 0x69, 0x75, 0x78, 0x58, 0x70, 0x6F} && Fits(Conversion(length, spec), arg)
    ensures var v := ParseInt(ShowArg(Conversion(length, spec), arg), BaseOf(spec));
            && (length != LL ==>
                  && arg.Int? && (v - arg.bits) % 0x1_0000_0000 == 0
                  && if spec in {0x64, 0x69} then -0x8000_0000 <= v < 0x8000_0000 else 0 <= v < 0x1_0000_0000)
            && (length == LL ==>
                  && arg.LongLong? && (v - arg.wide) % 0x1_0000_0000_0000_0000 == 0
                  && if spec in {0x64, 0x69} then -0x8000_0000_0000_0000 <= v < 0x8000_0000_0000_0000
                     else 0 <= v < 0x1_0000_0000_0000_0000)
  {
    hide IntText, ParseInt, Value;
    var n := NotationOf(spec);
    ValueOfBits(arg, n.signed);
    IntTextParses(Value(arg, n.signed), n.base);
  }

  /** The conversions c and s show a character and a string, %% a percent sign, and no other one shows anything or
      takes an argument. */
  lemma ShownText(length: Length, spec: Byte, arg: Arg)
    ensures TakesArg(Conversion(length, spec)) <==>
              spec in {0x64, 0x69, 0x75, 0x78, 0x58, 0x70, 0x6F, 0x63, 0x73}
    ensures spec == 0x63 && Fits(Conversion(length, spec), arg) ==>
              arg.Int? && ShowArg(Conversion(length, spec), arg) == [arg.bits % 0x100]
    ensures spec == 0x73 && Fits(Conversion(length, spec), arg) ==>
              arg.Text? && ShowArg(Conversion(length, spec), arg) == arg.s
    ensures !TakesArg(Conversion(length, spec)) ==>
              ShowPlain(Conversion(length, spec)) == if spec == 0x25 then [0x25] else []
    ensures !TakesArg(Literal(spec)) && ShowPlain(Literal(spec)) == [spec]
  {
  }

  predicate Matching(ds: seq<Directive>, args: seq<Arg>) {
    if ds == [] then true
    else if TakesArg(ds[0]) then args != [] && Fits(ds[0], args[0]) && Matching(ds[1..], args[1..])
    else Matching(ds[1..], args)
  }

  function Render(ds: seq<Directive>, args: seq<Arg>): seq<Byte>
    requires Matching(ds, args)
  {
    if ds == [] then []
    else if TakesArg(ds[0]) then ShowArg(ds[0], args[0]) + Render(ds[1..], args[1..])
    else ShowPlain(ds[0]) + Render(ds[1..], args)
  }

  /** The number of arguments that a format reads. */
  function ArgCount(ds: seq<Directive>): nat {
    if ds == [] then 0 else (if TakesArg(ds[0]) then 1 else 0) + ArgCount(ds[1..])
  }

  lemma {:induction false} EnoughArgs(ds: seq<Directive>, args: seq<Arg>)
    requires Matching(ds, args)
    ensures ArgCount(ds) <= |args|
    ensures Matching(ds, args[..ArgCount(ds)]) && Render(ds, args[..ArgCount(ds)]) == Render(ds, args)
  {
    if ds != [] {
      if TakesArg(ds[0]) {
        EnoughArgs(ds[1..], args[1..]);
        assert args[..ArgCount(ds)][1..] == args[1..][..ArgCount(ds[1..])];
      } else {
        EnoughArgs(ds[1..], args);
      }
    }
  }

  // ----- literal text

  /** The format that prints a text as it is. */
  function Escape(s: seq<Byte>): seq<Byte> {
    if s == [] then [] else (if s[0] == PERCENT then [PERCENT, PERCENT] else [s[0]]) + Escape(s[1..])
  }

  /** Every text can be printed: doubling its percent signs makes it a format for itself. */
  lemma {:induction false} EscapeRenders(s: seq<Byte>, args: seq<Arg>)
    ensures Matching(Parse(Escape(s)), args) && Render(Parse(Escape(s)), args) == s
  {
    if s != [] {
      EscapeRenders(s[1..], args);
      var rest := Escape(s[1..]);
      if s[0] == PERCENT {
        var tail := Escape(s)[1..];
        assert tail[0] == PERCENT && tail[1..] == rest && Modifier(tail) == (DEF, tail);
        assert Parse(Escape(s)) == AfterModifier(DEF, tail);
        ConsParse(Conversion(DEF, PERCENT), Parse(rest), args);
      } else {
        assert Escape(s)[1..] == rest;
        ConsParse(Literal(s[0]), Parse(rest), args);
      }
    }
  }

  lemma ConsParse(d: Directive, ds: seq<Directive>, args: seq<Arg>)
    requires !TakesArg(d) && Matching(ds, args)
    ensures Matching([d] + ds, args) && Render([d] + ds, args) == ShowPlain(d) + Render(ds, args)
  {
    assert ([d] + ds)[1..] == ds;
  }

  lemma ConsParseArg(d: Directive, ds: seq<Directive>, args: seq<Arg>)
    requires TakesArg(d) && Matching([d] + ds, args)
    ensures args != [] && Fits(d, args[0]) && Matching(ds, args[1..])
    ensures Render([d] + ds, args) == ShowArg(d, args[0]) + Render(ds, args[1..])
    ensures ArgCount([d] + ds) == 1 + ArgCount(ds)
  {
    assert ([d] + ds)[1..] == ds;
  }

  lemma ConsParsePlain(d: Directive, ds: seq<Directive>, args: seq<Arg>)
    requires !TakesArg(d) && Matching([d] + ds, args)
    ensures Matching(ds, args) && Render([d] + ds, args) == ShowPlain(d) + Render(ds, args)
    ensures ArgCount([d] + ds) == ArgCount(ds)
  {
    assert ([d] + ds)[1..] == ds;
  }
}
