/** Names: C strings, the 8.3 form of a file name, and the components of a path. A C string is the sequence
    of its bytes before the terminating NUL. */
module Fat32Names {
  import opened Words

  const SPACE: Byte := 0x20
  const DOT: Byte := 0x2E
  const SLASH: Byte := 0x2F

  // ----- strchr

  function IndexOf(s: seq<Byte>, c: Byte): (i: nat)
    ensures i <= |s| && (i < |s| ==> s[i] == c) && c !in s[..i]
  {
    if s == [] || s[0] == c then 0 else 1 + IndexOf(s[1..], c)
  }

  lemma {:induction false} IndexOfIsFirst(s: seq<Byte>, c: Byte, i: nat)
    requires i <= |s| && c !in s[..i] && (i < |s| ==> s[i] == c)
    ensures IndexOf(s, c) == i
  {
    if i > 0 {
      assert s[0] in s[..i];
      assert s[1..][..i - 1] == s[1..i];
      IndexOfIsFirst(s[1..], c, i - 1);
    }
  }

  /** The place of the first `c`, or the length of the string where the original returns NULL. */
  method StrChr(s: seq<Byte>, c: Byte) returns (i: nat)
    ensures i == IndexOf(s, c)
  {
    i := 0;
    while i < |s|
      invariant i <= |s| && c !in s[..i]
    {
      if s[i] == c {
        break;
      }
      i := i + 1;
    }
    IndexOfIsFirst(s, c, i);
  }

  // ----- 8.3 names

  /** The same byte, or the same letter in the other case. */
  predicate SameLetter(a: Byte, b: Byte) {
    || a == b
    || (0x41 <= a <= 0x5A && b == a + 0x20)
    || (0x61 <= a <= 0x7A && b == a - 0x20)
  }

  predicate IsLower(c: Byte) {
    0x61 <= c <= 0x7A
  }

  function ToUpper(c: Byte): (u: Byte)
    ensures SameLetter(u, c) && !IsLower(u) && (!IsLower(c) ==> u == c)
  {
    if 0x61 <= c <= 0x7A then c - 32 else c
  }

  function Upper(s: seq<Byte>): (u: seq<Byte>)
    ensures |u| == |s| && forall i | 0 <= i < |s| :: u[i] == ToUpper(s[i])
  {
    seq(|s|, i requires 0 <= i < |s| => ToUpper(s[i]))
  }

  /** The first `width` bytes of `s`, filled up with spaces. */
  function Field(s: seq<Byte>, width: nat): (f: seq<Byte>)
    ensures |f| == width
  {
    seq(width, i requires 0 <= i < width => if i < |s| then s[i] else SPACE)
  }

  /** The extension the code sees: none when the first dot is the byte number 11, whose address it uses as
      the mark for "no dot". */
  function Extension(name: seq<Byte>): seq<Byte> {
    var dot := IndexOf(name, DOT);
    if dot == |name| || dot == 11 then [] else name[dot + 1..]
  }

  /** The eleven bytes a name is looked up by. */
  function ShortName(name: seq<Byte>): (short: seq<Byte>)
    ensures |short| == 11
  {
    Field(Upper(name[..IndexOf(name, DOT)]), 8) + Field(Upper(Extension(name)), 3)
  }

  /** Upper-cases up to `width` bytes of `src` into the buffer, in front of the spaces that are there. */
  method FillField(dest: array<Byte>, at: nat, width: nat, src: seq<Byte>)
    requires at + width <= dest.Length && dest[at..at + width] == Field([], width)
    modifies dest
    ensures dest[at..at + width] == Field(Upper(src), width)
    ensures dest[..at] == old(dest[..at]) && dest[at + width..] == old(dest[at + width..])
  {
    var i := 0;
    while i < width && i < |src|
      invariant i <= width && i <= |src|
      invariant dest[at..at + width] == Field(Upper(src[..i]), width)
      invariant dest[..at] == old(dest[..at]) && dest[at + width..] == old(dest[at + width..])
    {
      ghost var before := dest[at..at + width];
      dest[at + i] := ToUpper(src[i]);
      assert dest[at..at + width] == before[i := ToUpper(src[i])];
      i := i + 1;
    }
  }

  /** The name buffer of `fat32_find_file`: spaces, then the two fields filled in place. */
  method EncodeName(name: seq<Byte>) returns (fatName: array<Byte>)
    ensures fresh(fatName) && fatName.Length == 12
    ensures fatName[..11] == ShortName(name) && fatName[11] == 0
  {
    hide Field, Upper, IndexOf;
    fatName := new Byte[12](_ => SPACE);
    fatName[11] := 0;
    BlankName(fatName[..]);

    var dot := StrChr(name, DOT);
    var ext: nat := if dot == |name| then 11 else dot;
    ghost var blank := fatName[..];
    FillField(fatName, 0, 8, name[..dot]);
    SameTailEnd(blank, fatName[..]);
    ghost var base := fatName[..];
    if ext != 11 {
      FillField(fatName, 8, 3, name[ext + 1..]);
    }
    FieldsJoin(fatName[..], base[..8], fatName[8..11]);
    NothingUpper();
  }

  lemma BlankName(s: seq<Byte>)
    requires |s| == 12 && (forall i | 0 <= i < 11 :: s[i] == SPACE) && s[11] == 0
    ensures s[0..8] == Field([], 8) && s[8..11] == Field([], 3) && s[11..] == [0]
  {
  }

  lemma NothingUpper()
    ensures Upper([]) == []
  {
  }

  lemma SameTailEnd(a: seq<Byte>, b: seq<Byte>)
    requires |a| == |b| == 12 && a[8..] == b[8..]
    ensures a[8..11] == b[8..11] && a[11..] == b[11..]
  {
    assert a[8..11] == a[8..][..3] && b[8..11] == b[8..][..3];
    assert a[11..] == a[8..][3..] && b[11..] == b[8..][3..];
  }

  lemma FieldsJoin(s: seq<Byte>, base: seq<Byte>, ext: seq<Byte>)
    requires |s| == 12 && s[..8] == base && s[8..11] == ext && s[11..] == [0]
    ensures s[..11] == base + ext && s[11] == 0
  {
    assert s[11] == s[11..][0];
  }

  // ----- reading an 8.3 name back

  function TrimSpaces(s: seq<Byte>): seq<Byte> {
    if s != [] && s[|s| - 1] == SPACE then TrimSpaces(s[..|s| - 1]) else s
  }

  function LongName(short: seq<Byte>): seq<Byte>
    requires |short| == 11
  {
    var base, ext := TrimSpaces(short[..8]), TrimSpaces(short[8..]);
    if ext == [] then base else base + [DOT] + ext
  }

  /** A base of one to eight bytes without dots, and either no dot or an extension of one to three bytes. */
  predicate Fits(name: seq<Byte>) {
    var dot := IndexOf(name, DOT);
    && SPACE !in name
    && 1 <= dot <= 8
    && (dot == |name| || 1 <= |name| - dot - 1 <= 3)
  }

  /** All lengths from the shortest to the longest are meant. */
  lemma FittingLengths(name: seq<Byte>, dot: nat)
    requires SPACE !in name && dot <= |name| && DOT !in name[..dot] && (dot < |name| ==> name[dot] == DOT)
    ensures Fits(name) <==> dot in {1, 2, 3, 4, 5, 6, 7, 8} && |name| - dot in {0, 2, 3, 4}
  {
    hide IndexOf;
    IndexOfIsFirst(name, DOT, dot);
  }

  lemma {:induction false} TrimField(s: seq<Byte>, width: nat)
    requires |s| <= width && SPACE !in s
    ensures TrimSpaces(Field(s, width)) == s
  {
    var f := Field(s, width);
    if |s| < width {
      assert f[..width - 1] == Field(s, width - 1);
      TrimField(s, width - 1);
    } else {
      assert f == s;
      assert s != [] ==> s[|s| - 1] in s;
    }
  }

  lemma UpperHasNoSpace(s: seq<Byte>)
    requires SPACE !in s
    ensures SPACE !in Upper(s)
  {
    forall i | 0 <= i < |s|
      ensures Upper(s)[i] != SPACE
    {
      assert s[i] in s;
    }
  }

  /** The encoding of a fitting name can be read back, up to case. */
  lemma EncodingInvertible(name: seq<Byte>)
    requires Fits(name)
    ensures LongName(ShortName(name)) == Upper(name)
    ensures DifferInCase(LongName(ShortName(name)), name) && forall c | c in LongName(ShortName(name)) :: !IsLower(c)
  {
    hide TrimSpaces, Field, DifferInCase;
    UpperIsCase(name, name);
    var dot := IndexOf(name, DOT);
    var base, ext, short := name[..dot], Extension(name), ShortName(name);
    assert short[..8] == Field(Upper(base), 8);
    assert short[8..] == Field(Upper(ext), 3);
    UpperHasNoSpace(base);
    UpperHasNoSpace(ext);
    TrimField(Upper(base), 8);
    TrimField(Upper(ext), 3);
    if dot == |name| {
      assert name == base;
    } else {
      assert name == base + ([DOT] + ext);
      UpperConcat(base, [DOT] + ext);
      UpperConcat([DOT], ext);
      assert Upper([DOT]) == [DOT] && ext != [];
    }
  }

  lemma UpperConcat(a: seq<Byte>, b: seq<Byte>)
    ensures Upper(a + b) == Upper(a) + Upper(b)
  {
  }

  /** The names agree but for the case of letters. */
  ghost predicate DifferInCase(a: seq<Byte>, b: seq<Byte>) {
    |a| == |b| && forall i | 0 <= i < |a| :: SameLetter(a[i], b[i])
  }

  /** Upper case forgets the case of letters, and nothing else. */
  lemma UpperIsCase(a: seq<Byte>, b: seq<Byte>)
    ensures Upper(a) == Upper(b) <==> DifferInCase(a, b)
    ensures DifferInCase(Upper(a), a) && forall c | c in Upper(a) :: !IsLower(c)
  {
    if Upper(a) == Upper(b) {
      assert |a| == |Upper(a)| == |b|;
      forall i | 0 <= i < |a|
        ensures SameLetter(a[i], b[i])
      {
        assert Upper(a)[i] == Upper(b)[i];
      }
    }
    if DifferInCase(a, b) {
      forall i | 0 <= i < |a|
        ensures Upper(a)[i] == Upper(b)[i]
      {
        assert SameLetter(a[i], b[i]);
      }
    }
  }

  /** The eight bytes of the base, one by one: without lower case, cut and filled up with spaces. */
  lemma ShortNameBase(name: seq<Byte>, i: nat)
    requires i < 8
    ensures !IsLower(ShortName(name)[i])
    ensures if i < IndexOf(name, DOT) then SameLetter(ShortName(name)[i], name[i]) else ShortName(name)[i] == 0x20
  {
    hide IndexOf, Upper, Field;
    FieldByte(name[..IndexOf(name, DOT)], 8, i);
  }

  /** And the three of the extension. */
  lemma ShortNameExtension(name: seq<Byte>, i: nat)
    requires i < 3
    ensures !IsLower(ShortName(name)[8 + i])
    ensures var at := IndexOf(name, DOT) + 1 + i;
            if IndexOf(name, DOT) != 11 && at < |name| then SameLetter(ShortName(name)[8 + i], name[at])
            else ShortName(name)[8 + i] == 0x20
  {
    hide IndexOf, Upper, Field, Extension, SameLetter, IsLower, ShortName;
    ShortNameTail(name, i);
    ExtensionByte(name, i);
    FieldByte(Extension(name), 3, i);
  }

  lemma ShortNameTail(name: seq<Byte>, i: nat)
    requires i < 3
    ensures ShortName(name)[8 + i] == Field(Upper(Extension(name)), 3)[i]
  {
    hide IndexOf, Upper, Field, Extension;
  }

  lemma ExtensionByte(name: seq<Byte>, i: nat)
    ensures var at := IndexOf(name, DOT) + 1 + i;
            if IndexOf(name, DOT) != 11 && at < |name| then i < |Extension(name)| && Extension(name)[i] == name[at]
            else |Extension(name)| <= i
  {
    hide IndexOf;
  }

  lemma FieldByte(s: seq<Byte>, width: nat, i: nat)
    requires i < width
    ensures if i < |s| then SameLetter(Field(Upper(s), width)[i], s[i]) else Field(Upper(s), width)[i] == 0x20
    ensures !IsLower(Field(Upper(s), width)[i])
  {
  }

  /** Names that differ at most in case are looked up by the same bytes. */
  lemma CaseIgnored(a: seq<Byte>, b: seq<Byte>)
    requires DifferInCase(a, b)
    ensures ShortName(a) == ShortName(b)
  {
    UpperIsCase(a, b);
    SameShortName(a, b);
  }

  /** And fitting names only then. */
  lemma NamesCollide(a: seq<Byte>, b: seq<Byte>)
    requires Fits(a) && Fits(b)
    ensures ShortName(a) == ShortName(b) <==> DifferInCase(a, b)
  {
    hide Fits, ShortName, Upper, LongName, DifferInCase;
    EncodingInvertible(a);
    EncodingInvertible(b);
    UpperIsCase(a, b);
    if DifferInCase(a, b) {
      CaseIgnored(a, b);
    }
  }

  lemma SameShortName(a: seq<Byte>, b: seq<Byte>)
    requires Upper(a) == Upper(b)
    ensures ShortName(a) == ShortName(b)
  {
    hide IndexOf, Upper, Field;
    var dot := IndexOf(a, DOT);
    SameDots(a, b);
    IndexOfIsFirst(b, DOT, dot);
    UpperSlices(a, dot);
    UpperSlices(b, dot);
  }

  lemma SameDots(a: seq<Byte>, b: seq<Byte>)
    requires Upper(a) == Upper(b)
    ensures |a| == |b| && forall i | 0 <= i < |a| :: a[i] == DOT <==> b[i] == DOT
  {
    assert |a| == |Upper(a)| == |b|;
    assert forall i | 0 <= i < |a| :: Upper(a)[i] == Upper(b)[i];
  }

  lemma UpperSlices(s: seq<Byte>, i: nat)
    requires i <= |s|
    ensures Upper(s[..i]) == Upper(s)[..i] && (i < |s| ==> Upper(s[i + 1..]) == Upper(s)[i + 1..])
  {
  }

  /** The eleven bytes with the extension that the name has. */
  function IntendedShortName(name: seq<Byte>): (short: seq<Byte>)
    ensures |short| == 11
  {
    var dot := IndexOf(name, DOT);
    Field(Upper(name[..dot]), 8) + Field(Upper(if dot == |name| then [] else name[dot + 1..]), 3)
  }

  /** A name whose first dot is byte 11 loses its extension, and no other name does: the code looks up the bytes
      it should exactly if the dot is elsewhere, or the extension it drops is blank. */
  lemma ExtensionLost(name: seq<Byte>)
    ensures ShortName(name) == IntendedShortName(name)
       <==> (IndexOf(name, DOT) == 11 < |name| ==> forall i | 12 <= i < 15 && i < |name| :: name[i] == SPACE)
  {
    hide IndexOf, Field, Upper;
    if IndexOf(name, DOT) == 11 < |name| {
      var base, ext := Field(Upper(name[..11]), 8), name[12..];
      assert (forall i | 12 <= i < 15 && i < |name| :: name[i] == SPACE)
        <==> (forall i | 0 <= i < 3 && i < |ext| :: ext[i] == SPACE) by {
        assert forall i | 0 <= i < |ext| :: ext[i] == name[12 + i];
        assert forall i | 12 <= i < |name| :: name[i] == ext[i - 12];
      }
      SameTail(base, Field(Upper([]), 3), Field(Upper(ext), 3));
      BlankField(ext, 3);
    }
  }

  lemma SameTail<T>(a: seq<T>, b: seq<T>, c: seq<T>)
    ensures a + b == a + c <==> b == c
  {
    assert (a + b)[|a|..] == b && (a + c)[|a|..] == c;
  }

  lemma BlankField(s: seq<Byte>, width: nat)
    ensures Field(Upper([]), width) == Field(Upper(s), width) <==> forall i | 0 <= i < width && i < |s| :: s[i] == SPACE
  {
    var a, b := Field(Upper([]), width), Field(Upper(s), width);
    assert forall i | 0 <= i < width && i < |s| :: b[i] == ToUpper(s[i]);
    assert forall i | 0 <= i < width :: a[i] == SPACE;
    if a == b {
      forall i | 0 <= i < width && i < |s|
        ensures s[i] == SPACE
      {
        assert b[i] == a[i];
      }
    }
  }

  /** Such a name is looked up as if it were the file without an extension. */
  lemma ExtensionLostInstance()
    ensures ShortName(Ascii("BOOTMANAGER.SYS")) == Ascii("BOOTMANA   ") == ShortName(Ascii("BOOTMANA"))
    ensures IntendedShortName(Ascii("BOOTMANAGER.SYS")) == Ascii("BOOTMANASYS")
  {
    hide IndexOf, Field, Upper, Ascii;
    FieldsOfInstance();
    assert IndexOf(Ascii("BOOTMANAGER.SYS"), DOT) == 11 && IndexOf(Ascii("BOOTMANA"), DOT) == 8 by {
      DotsOfInstance();
    }
    assert Ascii("BOOTMANA")[..8] == Ascii("BOOTMANA");
  }

  lemma DotsOfInstance()
    ensures IndexOf(Ascii("BOOTMANAGER.SYS"), DOT) == 11 && IndexOf(Ascii("BOOTMANA"), DOT) == 8
  {
    hide IndexOf;
    IndexOfIsFirst(Ascii("BOOTMANAGER.SYS"), DOT, 11);
    IndexOfIsFirst(Ascii("BOOTMANA"), DOT, 8);
  }

  lemma FieldsOfInstance()
    ensures Field(Upper(Ascii("BOOTMANAGER.SYS")[..11]), 8) + Field(Upper([]), 3) == Ascii("BOOTMANA   ")
    ensures Field(Upper(Ascii("BOOTMANA")), 8) + Field(Upper([]), 3) == Ascii("BOOTMANA   ")
    ensures Field(Upper(Ascii("BOOTMANAGER.SYS")[..11]), 8) + Field(Upper(Ascii("BOOTMANAGER.SYS")[12..]), 3)
         == Ascii("BOOTMANASYS")
  {
    hide Field, Upper, Ascii;
    BaseOfInstance();
    TailsOfInstance();
    AsciiConcat("BOOTMANA", "   ");
    AsciiConcat("BOOTMANA", "SYS");
    assert "BOOTMANA" + "   " == "BOOTMANA   " && "BOOTMANA" + "SYS" == "BOOTMANASYS";
  }

  lemma AsciiConcat(a: string, b: string)
    ensures Ascii(a + b) == Ascii(a) + Ascii(b)
  {
  }

  lemma BaseOfInstance()
    ensures Field(Upper(Ascii("BOOTMANAGER.SYS")[..11]), 8) == Ascii("BOOTMANA") == Field(Upper(Ascii("BOOTMANA")), 8)
  {
  }

  lemma TailsOfInstance()
    ensures Field(Upper([]), 3) == Ascii("   ") && Field(Upper(Ascii("BOOTMANAGER.SYS")[12..]), 3) == Ascii("SYS")
  {
  }

  /** The file name of the kernel. */
  lemma KernelName()
    ensures ShortName(Ascii("kernel.sys")) == Ascii("KERNEL  SYS")
  {
    hide IndexOf;
    var name := Ascii("kernel.sys");
    IndexOfIsFirst(name, DOT, 6);
    assert Upper(name[..6]) == Ascii("KERNEL") && Upper(name[7..]) == Ascii("SYS");
    assert Field(Ascii("KERNEL"), 8) == Ascii("KERNEL  ") && Field(Ascii("SYS"), 3) == Ascii("SYS");
  }

  // ----- paths

  function WithoutRoot(path: seq<Byte>): seq<Byte> {
    if path != [] && path[0] == SLASH then path[1..] else path
  }

  /** The names between the slashes; a slash at the end does not start another one. */
  function Components(path: seq<Byte>): seq<seq<Byte>> {
    if path == [] then []
    else
      var i := IndexOf(path, SLASH);
      [path[..i]] + if i == |path| then [] else Components(path[i + 1..])
  }

  lemma NoComponent()
    ensures Components([]) == []
  {
  }

  lemma NextComponent(path: seq<Byte>)
    requires path != []
    ensures var i := IndexOf(path, SLASH);
            && Components(path) != []
            && Components(path)[0] == path[..i]
            && Components(path)[1..] == Components(if i < |path| then path[i + 1..] else [])
  {
    hide IndexOf;
    var i := IndexOf(path, SLASH);
    var names := if i == |path| then [] else Components(path[i + 1..]);
    NoComponent();
    assert Components(path) == [path[..i]] + names;
  }

  /** Every name followed by a slash. */
  function Join(names: seq<seq<Byte>>): seq<Byte> {
    if names == [] then [] else names[0] + ([SLASH] + Join(names[1..]))
  }

  lemma JoinCons(name: seq<Byte>, names: seq<seq<Byte>>)
    ensures Join([name] + names) == name + ([SLASH] + Join(names))
  {
    assert ([name] + names)[1..] == names;
  }

  /** Splitting a path loses nothing but the information whether it ended with a slash. */
  lemma {:induction false} ComponentsRejoin(path: seq<Byte>)
    ensures Join(Components(path)) == path || Join(Components(path)) == path + [SLASH]
  {
    if path != [] {
      var i := IndexOf(path, SLASH);
      if i < |path| {
        ComponentsRejoin(path[i + 1..]);
        JoinCons(path[..i], Components(path[i + 1..]));
        Reglue(path, i, Join(Components(path[i + 1..])));
      } else {
        JoinCons(path, []);
      }
    }
  }

  lemma Reglue(path: seq<Byte>, i: nat, rest: seq<Byte>)
    requires i < |path| && path[i] == SLASH
    requires rest == path[i + 1..] || rest == path[i + 1..] + [SLASH]
    ensures var glued := path[..i] + ([SLASH] + rest); glued == path || glued == path + [SLASH]
  {
    if rest == path[i + 1..] {
      assert path[..i] + ([SLASH] + rest) == path;
    } else {
      assert path[..i] + ([SLASH] + rest) == path + [SLASH];
    }
  }

  lemma PathCons(name: seq<Byte>, rest: seq<Byte>)
    requires SLASH !in name
    ensures Components(name + ([SLASH] + rest)) == [name] + Components(rest)
    ensures name != [] ==> Components(name) == [name]
  {
    hide IndexOf;
    var path := name + ([SLASH] + rest);
    assert path[..|name|] == name && path[|name|] == SLASH && path[|name| + 1..] == rest;
    IndexOfIsFirst(path, SLASH, |name|);
    assert name[..|name|] == name;
    IndexOfIsFirst(name, SLASH, |name|);
  }

  /** Whatever the names, a path that puts a slash behind each of them is split into them. */
  lemma {:induction false} ComponentsOfJoin(names: seq<seq<Byte>>)
    requires forall name | name in names :: SLASH !in name
    ensures Components(Join(names)) == names
  {
    hide Components, Join;
    if names == [] {
      NoComponent();
      JoinNothing();
    } else {
      assert forall name | name in names[1..] :: name in names;
      ComponentsOfJoin(names[1..]);
      JoinStep(names);
      PathCons(names[0], Join(names[1..]));
    }
  }

  lemma JoinNothing()
    ensures Join([]) == []
  {
  }

  lemma JoinStep(names: seq<seq<Byte>>)
    requires names != []
    ensures Join(names) == names[0] + ([SLASH] + Join(names[1..])) && Join(names) != []
  {
  }

  lemma WithoutLast<T>(a: seq<T>, b: seq<T>)
    requires b != []
    ensures (a + b)[..|a + b| - 1] == a + b[..|b| - 1]
  {
  }

  /** Without the last of the slashes. */
  lemma {:induction false} ComponentsOfTrimmed(names: seq<seq<Byte>>)
    requires names != [] && forall name | name in names :: SLASH !in name && name != []
    ensures Join(names) != [] && Components(Join(names)[..|Join(names)| - 1]) == names
  {
    hide Components, Join;
    var name, rest := names[0], Join(names[1..]);
    JoinStep(names);
    WithoutLast(name, [SLASH] + rest);
    if |names| == 1 {
      JoinNothing();
      assert ([SLASH] + rest)[..0] == [];
      PathCons(name, []);
    } else {
      assert forall other | other in names[1..] :: other in names;
      JoinStep(names[1..]);
      ComponentsOfTrimmed(names[1..]);
      WithoutLast([SLASH], rest);
      PathCons(name, rest[..|rest| - 1]);
    }
  }

  /** The path is one of the ways to write the names: with slashes between them, and with or without one in front
      and one at the end. */
  ghost predicate Spells(path: seq<Byte>, names: seq<seq<Byte>>) {
    && (forall name | name in names :: 0x2F !in name && name != [])
    && var long := Join(names);
       || path == long
       || path == [0x2F] + long
       || (long != [] && path == long[..|long| - 1])
       || (long != [] && path == [0x2F] + long[..|long| - 1])
  }

  /** All of them are split into the same names: a slash in front changes nothing. */
  lemma SpelledComponents(path: seq<Byte>, names: seq<seq<Byte>>)
    requires Spells(path, names)
    ensures Components(WithoutRoot(path)) == names
  {
    hide Components;
    ComponentsOfJoin(names);
    var long := Join(names);
    if names != [] {
      ComponentsOfTrimmed(names);
      assert names[0] in names && long[0] == names[0][0];
      assert ([0x2F] + long)[1..] == long;
      assert ([0x2F] + long[..|long| - 1])[1..] == long[..|long| - 1];
    }
  }

  /** A slash in front of any path that has none makes no difference. */
  lemma LeadingSlash(path: seq<Byte>)
    requires path == [] || path[0] != 0x2F
    ensures WithoutRoot([0x2F] + path) == path == WithoutRoot(path)
  {
    assert ([0x2F] + path)[1..] == path;
  }

  /** The path of the kernel. */
  lemma KernelPath()
    ensures Components(WithoutRoot(Ascii("/system/kernel.sys"))) == [Ascii("system"), Ascii("kernel.sys")]
  {
    hide Components, WithoutRoot, Join;
    var names := [Ascii("system"), Ascii("kernel.sys")];
    KernelJoin();
    SpelledComponents(Ascii("/system/kernel.sys"), names);
  }

  lemma KernelJoin()
    ensures Join([Ascii("system"), Ascii("kernel.sys")]) == Ascii("system/kernel.sys/")
    ensures Ascii("/system/kernel.sys") == [0x2F] + Ascii("system/kernel.sys/")[..17]
    ensures 0x2F !in Ascii("system") && 0x2F !in Ascii("kernel.sys")
  {
    hide Join, Ascii;
    var names: seq<seq<Byte>> := [Ascii("system"), Ascii("kernel.sys")];
    JoinStep(names);
    JoinStep(names[1..]);
    JoinNothing();
    var rest := names[1..];
    assert rest == [Ascii("kernel.sys")] && rest[1..] == [];
    AsciiPath();
    AsciiSlashes();
  }

  lemma AsciiPath()
    ensures Ascii("system") + ([0x2F] + (Ascii("kernel.sys") + ([0x2F] + []))) == Ascii("system/kernel.sys/")
  {
    hide Ascii;
    assert Ascii("/") == [0x2F] by {
      AsciiSlash();
    }
    AsciiConcat("kernel.sys", "/");
    AsciiConcat("/", "kernel.sys/");
    AsciiConcat("system", "/kernel.sys/");
    assert "kernel.sys" + "/" == "kernel.sys/" && "/" + "kernel.sys/" == "/kernel.sys/";
    assert "system" + "/kernel.sys/" == "system/kernel.sys/";
    assert [0x2F] + [] == [0x2F];
  }

  lemma AsciiSlash()
    ensures Ascii("/") == [0x2F]
  {
  }

  lemma AsciiSlashes()
    ensures Ascii("/system/kernel.sys") == [0x2F] + Ascii("system/kernel.sys/")[..17]
    ensures 0x2F !in Ascii("system") && 0x2F !in Ascii("kernel.sys")
  {
  }

  /** The components are exactly the pieces that contain no slash. */
  lemma {:induction false} ComponentsHaveNoSlash(path: seq<Byte>)
    ensures forall name | name in Components(path) :: SLASH !in name
    ensures path != [] ==> Components(path) != []
  {
    if path != [] && IndexOf(path, SLASH) < |path| {
      ComponentsHaveNoSlash(path[IndexOf(path, SLASH) + 1..]);
    }
  }
}
