/**
 What printf formats print, said of the text alone: how a format falls into literals and fields,
 which number a field's digits stand for, and how flags and a width lay it out.
 */
module PrintfMeaning {
  import opened Bits
  import opened Numerals
  import opened Atoi
  import opened Printf

  // The text of n in a base: its digits, without a leading zero.
  predicate IsNumeral(s: string, base: nat, n: nat) {
    |s| > 0 && AreDigits(s, base) && Decode(s, base) == n && (s[0] == '0' ==> |s| == 1)
  }

  // s repeats one character.
  predicate AllAre(s: string, c: char) {
    forall i | 0 <= i < |s| :: s[i] == c
  }

  // The characters that do not end a field.
  const MODIFIERS := "#-lz0123456789"

  predicate AreModifiers(m: string) {
    forall i | 0 <= i < |m| :: m[i] in MODIFIERS
  }

  predicate AreFlags(f: string) {
    forall i | 0 <= i < |f| :: f[i] in "#-0"
  }

  predicate IsSize(sz: string) {
    sz == "" || sz == "l" || sz == "z" || sz == "ll"
  }

  // int, long and size_t are 32 bits wide, long long 64.
  function WordLimit(sz: string): nat {
    if sz == "ll" then 0x1_0000_0000_0000_0000 else 0x1_0000_0000
  }

  function Alt(alt: bool): string {
    if alt then "#" else ""
  }

  // ---------------------------------------------------------------- how a format falls apart

  // Text without a percent sign is printed as it stands.
  lemma {:induction false} Literal(lit: string, fmt: string, args: seq<Arg>)
    requires '%' !in lit
    ensures Render(lit + fmt, args) == lit + Render(fmt, args)
  {
    hide Converted, SpecOf, Modifiers;
    if |lit| == 0 {
      assert lit + fmt == fmt;
    } else {
      assert (lit + fmt)[1..] == lit[1..] + fmt;
      Literal(lit[1..], fmt, args);
      assert lit == [lit[0]] + lit[1..];
    }
  }

  // A format that ends inside a field prints nothing for it.
  lemma Unfinished(m: string, args: seq<Arg>)
    requires AreModifiers(m)
    ensures Render("%" + m, args) == ""
  {
    AllModifiers(m);
    hide Converted, SpecOf, Modifiers;
    assert ("%" + m)[1..] == m;
  }

  lemma {:induction false} AllModifiers(m: string)
    requires AreModifiers(m)
    ensures Modifiers(m) == m
  {
    if |m| > 0 {
      AllModifiers(m[1..]);
      assert m == [m[0]] + m[1..];
    }
  }

  /**
   A field prints the same whatever follows, and the rest of the format goes on with the next
   argument if the conversion is one of d, o, u, p, x, s and c, and else with the same.
   */
  lemma FieldThenRest(m: string, c: char, rest: string, args: seq<Arg>)
    requires AreModifiers(m) && c !in MODIFIERS
    ensures Render("%" + m + [c] + rest, args) ==
            Render("%" + m + [c], args) + Render(rest, if c in "doupxsc" && |args| > 0 then args[1..] else args)
  {
    OneField(m, c, args);
    FieldAnd(m, c, rest, args);
  }

  lemma {:induction false} ModifiersThen(m: string, c: char, rest: string)
    requires AreModifiers(m) && c !in MODIFIERS
    ensures Modifiers(m + [c] + rest) == m
  {
    var s := m + [c] + rest;
    if |m| > 0 {
      assert s[1..] == m[1..] + [c] + rest;
      ModifiersThen(m[1..], c, rest);
      assert m == [m[0]] + m[1..];
    }
  }

  lemma FieldAnd(m: string, c: char, rest: string, args: seq<Arg>)
    requires AreModifiers(m) && c !in MODIFIERS
    ensures Render("%" + m + [c] + rest, args) == Converted(SpecOf(m), c, args) + Render(rest, ArgsAfter(c, args))
  {
    hide Converted, SpecOf, Modifiers, ArgsAfter, Render;
    ModifiersThen(m, c, rest);
    var fmt := "%" + m + [c] + rest;
    FieldShape(m, c, rest);
    RenderField(fmt, m, args);
  }

  lemma FieldShape(m: string, c: char, rest: string)
    ensures var fmt := "%" + m + [c] + rest;
            && |fmt| > 1 + |m| && fmt[0] == '%' && fmt[1..] == m + [c] + rest
            && fmt[1 + |m|] == c && fmt[2 + |m|..] == rest
  {}

  lemma RenderField(fmt: string, m: string, args: seq<Arg>)
    requires |fmt| > 1 + |m| && fmt[0] == '%' && Modifiers(fmt[1..]) == m
    ensures var c := fmt[1 + |m|];
            Render(fmt, args) == Converted(SpecOf(m), c, args) + Render(fmt[2 + |m|..], ArgsAfter(c, args))
  {
    hide Converted, SpecOf, Modifiers, ArgsAfter;
  }

  lemma OneField(m: string, c: char, args: seq<Arg>)
    requires AreModifiers(m) && c !in MODIFIERS
    ensures Render("%" + m + [c], args) == Converted(SpecOf(m), c, args)
  {
    hide Converted, SpecOf, Modifiers, ArgsAfter;
    FieldAnd(m, c, "", args);
    assert "%" + m + [c] + "" == "%" + m + [c];
    assert Converted(SpecOf(m), c, args) + "" == Converted(SpecOf(m), c, args);
  }

  // ---------------------------------------------------------------- what modifiers ask for

  lemma {:induction false} FlagsSpec(f: string)
    requires AreFlags(f)
    ensures SpecOf(f) == Spec(INTSZ, 0, '-' in f, if '0' in f then '0' else ' ', '#' in f) && AreModifiers(f)
  {
    if |f| > 0 {
      var n := |f| - 1;
      FlagsSpec(f[..n]);
      OneFlag(f[..n], f[n]);
      assert f == f[..n] + [f[n]];
      hide Modified;
    }
  }

  lemma OneFlag(f: string, c: char)
    requires c in "#-0"
    ensures var g := f + [c];
            Modified(Spec(INTSZ, 0, '-' in f, if '0' in f then '0' else ' ', '#' in f), c) ==
              Spec(INTSZ, 0, '-' in g, if '0' in g then '0' else ' ', '#' in g)
  {}

  lemma SpecSnoc(m: string, c: char)
    ensures SpecOf(m + [c]) == Modified(SpecOf(m), c)
  {
    assert (m + [c])[..|m|] == m;
  }

  // The digits of a positive width are taken as that width.
  lemma {:induction false} WidthSpec(m: string, k: nat)
    requires SpecOf(m).width == 0 && k > 0
    ensures SpecOf(m + Numeral(k, 10)) == SpecOf(m).(width := k)
  {
    hide SpecOf, Modified;
    LastDigit(k, 10);
    DivMod(k, 10);
    var d := DIGITS[k % 10];
    if k / 10 == 0 {
      WidthDigit(SpecOf(m), k);
      SpecSnoc(m, d);
    } else {
      WidthSpec(m, k / 10);
      WidthDigit(SpecOf(m + Numeral(k / 10, 10)), k % 10);
      assert m + (Numeral(k / 10, 10) + [d]) == m + Numeral(k / 10, 10) + [d];
      SpecSnoc(m + Numeral(k / 10, 10), d);
    }
  }

  lemma WidthDigit(sp: Spec, d: nat)
    requires d < 10 && (sp.width > 0 || d > 0)
    ensures Modified(sp, DIGITS[d]) == sp.(width := sp.width * 10 + d)
  {}

  function SizeOf(sz: string): Size {
    if sz == "l" then LONGSZ else if sz == "ll" then LLONGSZ else if sz == "z" then SIZETSZ else INTSZ
  }

  lemma SizeSpec(m: string, sz: string)
    requires IsSize(sz) && SpecOf(m).size == INTSZ
    ensures SpecOf(m + sz) == SpecOf(m).(size := SizeOf(sz))
  {
    hide SpecOf;
    assert m + "" == m && m + "ll" == m + "l" + "l";
    SpecSnoc(m, 'l');
    SpecSnoc(m, 'z');
    SpecSnoc(m + "l", 'l');
  }

  lemma SizeLimit(sz: string)
    requires IsSize(sz)
    ensures Limit(SizeOf(sz)) == WordLimit(sz) && AreModifiers(sz)
  {}

  // The modifiers of a field: flags, a width unless it is zero, a size.
  function Mods(f: string, k: nat, sz: string): string {
    f + (if k == 0 then "" else Numeral(k, 10)) + sz
  }

  function FlagSpec(f: string, k: nat, sz: string): Spec {
    Spec(SizeOf(sz), k, '-' in f, if '0' in f then '0' else ' ', '#' in f)
  }

  lemma ModsSpec(f: string, k: nat, sz: string)
    requires AreFlags(f) && IsSize(sz)
    ensures AreModifiers(Mods(f, k, sz)) && SpecOf(Mods(f, k, sz)) == FlagSpec(f, k, sz)
  {
    FlagsSpec(f);
    SizeLimit(sz);
    hide SpecOf, Numeral, SizeOf, AreFlags, AreModifiers, IsSize;
    if k == 0 {
      assert f + "" == f;
      SizeSpec(f, sz);
      BothModify(f, sz);
    } else {
      WidthSpec(f, k);
      WidthModifies(k);
      SizeSpec(f + Numeral(k, 10), sz);
      BothModify(f, Numeral(k, 10));
      BothModify(f + Numeral(k, 10), sz);
    }
  }

  lemma BothModify(a: string, b: string)
    requires AreModifiers(a) && AreModifiers(b)
    ensures AreModifiers(a + b)
  {}

  lemma WidthModifies(k: nat)
    ensures AreModifiers(Numeral(k, 10))
  {
    NumeralIsDigits(k);
    hide Numeral;
    DigitsModify(Numeral(k, 10));
  }

  lemma DigitsModify(s: string)
    requires forall i | 0 <= i < |s| :: IsDigit(s[i])
    ensures AreModifiers(s)
  {
    forall i | 0 <= i < |s|
      ensures s[i] in MODIFIERS
    {
      assert IsDigit(s[i]);
      DigitModifies(s[i]);
    }
  }

  lemma DigitModifies(c: char)
    requires IsDigit(c)
    ensures c in MODIFIERS
  {}

  // ---------------------------------------------------------------- numbers

  lemma IsTheNumeral(n: nat, base: nat)
    requires 2 <= base <= 16
    ensures IsNumeral(Numeral(n, base), base, n)
  {
    NumeralDecodes(n, base);
    NumeralDigits(n, base);
    if n == 0 {
      assert |Numeral(n, base)| == 1;
    }
  }

  // A field without flags or width is its pieces one after the other.
  lemma BareField(prefix: string, prefix2: string, stuff: string)
    ensures Field(prefix, prefix2, stuff, 0, false, ' ') == prefix + prefix2 + stuff
  {
    assert Repeat(' ', 0) + prefix + prefix2 + stuff == prefix + prefix2 + stuff;
  }

  // The pieces of a numeric field.
  lemma BareNumber(alt: bool, sz: string, c: char, args: seq<Arg>)
    requires IsSize(sz) && c in "doupx" && |args| > 0 && args[0].Word?
    ensures var limit := if c == 'p' then WordLimit("") else WordLimit(sz);
            var u := args[0].w % limit;
            var v := if c == 'd' && u >= limit / 2 then u - limit else u;
            var base := if c == 'x' || c == 'p' then 16 else if c == 'o' then 8 else 10;
            var prefix := if c == 'p' || (alt && c == 'x') then "0x" else if alt && c == 'o' then "0" else "";
            Render("%" + Alt(alt) + sz + [c], args) == SignOf(v) + prefix + Numeral(Magnitude(v), base)
  {
    hide Render, SpecOf, Numeral, Converted, Mods, AreModifiers;
    var m := Mods(Alt(alt), 0, sz);
    BareShape(alt, sz, c);
    ModsSpec(Alt(alt), 0, sz);
    SizeLimit(sz);
    hide SizeOf;
    assert c !in MODIFIERS && '-' !in Alt(alt) && '0' !in Alt(alt) && ('#' in Alt(alt) <==> alt);
    OneField(m, c, args);
    ConvertsNumber(SpecOf(m), c, args);
  }

  lemma BareShape(alt: bool, sz: string, c: char)
    ensures "%" + Mods(Alt(alt), 0, sz) + [c] == "%" + Alt(alt) + sz + [c] && AreFlags(Alt(alt))
  {}

  lemma ConvertsNumber(sp: Spec, c: char, args: seq<Arg>)
    requires sp == Spec(sp.size, 0, false, ' ', sp.alt) && c in "doupx" && |args| > 0 && args[0].Word?
    ensures var limit := if c == 'p' then UINT_LIMIT else Limit(sp.size);
            var u := args[0].w % limit;
            var v := if c == 'd' && u >= limit / 2 then u - limit else u;
            var base := if c == 'x' || c == 'p' then 16 else if c == 'o' then 8 else 10;
            var prefix := if c == 'p' || (sp.alt && c == 'x') then "0x" else if sp.alt && c == 'o' then "0" else "";
            Converted(sp, c, args) == SignOf(v) + prefix + Numeral(Magnitude(v), base)
  {
    hide Numeral, Field, SignOf, Magnitude, Limit;
    var v := Value(sp, c, args[0].w);
    BareField(SignOf(v), BasePrefix(sp, c), Numeral(Magnitude(v), BaseOf(c)));
  }

  /**
   %x, %o and %u print the argument modulo 2^32, or 2^64 with ll, in base 16, 8 and 10, digits
   only and without leading zeros; the # flag puts 0x or 0 in front.
   */
  lemma PrintsUnsigned(alt: bool, sz: string, c: char, args: seq<Arg>)
    requires IsSize(sz) && c in "xou" && |args| > 0 && args[0].Word?
    ensures var text := Render("%" + Alt(alt) + sz + [c], args);
            var prefix := if alt && c == 'x' then "0x" else if alt && c == 'o' then "0" else "";
            var base := if c == 'x' then 16 else if c == 'o' then 8 else 10;
            && prefix <= text
            && IsNumeral(text[|prefix|..], base, args[0].w % WordLimit(sz))
  {
    hide Render, Numeral, IsNumeral;
    BareNumber(alt, sz, c, args);
    IsTheNumeral(args[0].w % WordLimit(sz), if c == 'x' then 16 else if c == 'o' then 8 else 10);
    Pieces("", if alt && c == 'x' then "0x" else if alt && c == 'o' then "0" else "",
           Numeral(args[0].w % WordLimit(sz), if c == 'x' then 16 else if c == 'o' then 8 else 10));
  }

  lemma Pieces(prefix: string, prefix2: string, stuff: string)
    ensures var s := prefix + prefix2 + stuff;
            prefix <= s && s[|prefix|..] == prefix2 + stuff && s[|prefix| + |prefix2|..] == stuff
  {}

  // %p prints 0x and the 32-bit pointer in base 16, whatever the size.
  lemma PrintsPointer(alt: bool, sz: string, args: seq<Arg>)
    requires IsSize(sz) && |args| > 0 && args[0].Word?
    ensures var text := Render("%" + Alt(alt) + sz + "p", args);
            "0x" <= text && IsNumeral(text[2..], 16, args[0].w % 0x1_0000_0000)
  {
    hide Render, Numeral, IsNumeral;
    BareNumber(alt, sz, 'p', args);
    IsTheNumeral(args[0].w % 0x1_0000_0000, 16);
    Pieces("", "0x", Numeral(args[0].w % 0x1_0000_0000, 16));
  }

  /**
   %d prints the signed number v of 32 bits, or 64 with ll, that the argument is modulo that
   width: its decimal numeral if it is not negative, else a minus sign and the numeral of -v.
   */
  lemma PrintsSigned(alt: bool, sz: string, args: seq<Arg>, v: int)
    requires IsSize(sz) && |args| > 0 && args[0].Word?
    requires -(WordLimit(sz) / 2) <= v < WordLimit(sz) / 2 && (v - args[0].w) % WordLimit(sz) == 0
    ensures var text := Render("%" + Alt(alt) + sz + "d", args);
            if v >= 0 then IsNumeral(text, 10, v) else "-" <= text && IsNumeral(text[1..], 10, -v)
  {
    hide Render, Numeral, IsNumeral;
    SignedValue(args[0].w, v, WordLimit(sz));
    BareNumber(alt, sz, 'd', args);
    IsTheNumeral(Magnitude(v), 10);
    Pieces(SignOf(v), "", Numeral(Magnitude(v), 10));
  }

  lemma SignedValue(w: int, v: int, limit: nat)
    requires limit == 0x1_0000_0000 || limit == 0x1_0000_0000_0000_0000
    requires -(limit / 2) <= v < limit / 2 && (v - w) % limit == 0
    ensures v == if w % limit >= limit / 2 then w % limit - limit else w % limit
  {
    var q := (v - w) / limit;
    DivMod(v - w, limit);
    MulDist(-q, -1, limit);
    MulDist(q, -q, limit);
    if v >= 0 {
      DivModUnique(w, limit, -q, v);
    } else {
      DivModUnique(w, limit, -q - 1, v + limit);
    }
  }

  // ---------------------------------------------------------------- text

  // %s prints its string, %c its character (nothing for NUL), and any other character, as %%, stands for itself.
  lemma PrintsText(c: char, args: seq<Arg>)
    requires c !in MODIFIERS && c !in "doupx"
    ensures var text := Render("%" + [c], args);
            && (c == 's' && |args| > 0 && args[0].Text? ==> text == args[0].s)
            && (c == 's' && |args| > 0 && args[0].NullText? ==> text == "(null)")
            && (c == 'c' && |args| > 0 && args[0].Word? ==>
                  var b := args[0].w % 256; text == if b == 0 then "" else [b as char])
            && (c != 's' && c != 'c' ==> text == [c])
  {
    hide Render, Converted;
    NoModifiers();
    OneField("", c, args);
    assert "%" + "" + [c] == "%" + [c];
    ConvertsText(c, args);
  }

  lemma NoModifiers()
    ensures SpecOf("") == PLAIN && AreModifiers("")
  {}

  // What %s, %c and the rest convert to.
  function TextOf(c: char, args: seq<Arg>): string {
    if c == 's' then NextText(args) else if c == 'c' then OneChar(NextWord(args)) else [c]
  }

  lemma ConvertsText(c: char, args: seq<Arg>)
    requires c !in "doupx"
    ensures Converted(PLAIN, c, args) == TextOf(c, args)
  {
    hide Field, NextText, OneChar, NextWord;
    BareField("", "", TextOf(c, args));
    assert "" + "" + TextOf(c, args) == TextOf(c, args);
  }

  // ---------------------------------------------------------------- layout

  // How much of a field's text comes before zeros that fill it: its sign and its base prefix.
  function HeadLength(alt: bool, c: char, text: string): nat {
    if c == 'd' then if "-" <= text then 1 else 0
    else if c == 'p' || (alt && c == 'x') then 2
    else if alt && c == 'o' then 1
    else 0
  }

  // r is t filled up to k characters with fill, put in after the first h of t.
  predicate FilledAt(r: string, t: string, k: nat, h: nat, fill: char) {
    && h <= |t| <= |r| && |r| == (if k > |t| then k else |t|)
    && r[..h] == t[..h] && r[h + |r| - |t|..] == t[h..] && AllAre(r[h..h + |r| - |t|], fill)
  }

  /**
   With any flags and width, a field is its bare text filled up to the width: with spaces on the
   left, or behind the sign and base prefix with zeros when there is a 0 flag, or on the right
   with either when there is a - flag.
   */
  lemma LaysOut(f: string, k: nat, sz: string, c: char, args: seq<Arg>)
    requires AreFlags(f) && IsSize(sz) && c !in MODIFIERS
    ensures var width := if k == 0 then "" else Numeral(k, 10);
            var bare := Render("%" + Alt('#' in f) + sz + [c], args);
            var head := if '-' in f then |bare| else if '0' in f then HeadLength('#' in f, c, bare) else 0;
            FilledAt(Render("%" + f + width + sz + [c], args), bare, k, head, if '0' in f then '0' else ' ')
  {
    var m, m0 := Mods(f, k, sz), Mods(Alt('#' in f), 0, sz);
    LayoutShape(f, k, sz, c);
    ModsSpec(f, k, sz);
    ModsSpec(Alt('#' in f), 0, sz);
    assert '-' !in Alt('#' in f) && '0' !in Alt('#' in f) && ('#' in Alt('#' in f) <==> '#' in f);
    hide Render, SpecOf, Mods, AreFlags, AreModifiers, Numeral, FilledAt, Converted, Alt, Field, SizeOf;
    OneField(m, c, args);
    OneField(m0, c, args);
    var prefix, prefix2, stuff := PiecesOf(SpecOf(m), SpecOf(m0), c, args);
    BareField(prefix, prefix2, stuff);
    hide HeadLength;
    FieldFills(prefix, prefix2, stuff, k, '-' in f, if '0' in f then '0' else ' ');
  }

  lemma LayoutShape(f: string, k: nat, sz: string, c: char)
    requires AreFlags(f)
    ensures "%" + Mods(f, k, sz) + [c] == "%" + f + (if k == 0 then "" else Numeral(k, 10)) + sz + [c]
    ensures "%" + Mods(Alt('#' in f), 0, sz) + [c] == "%" + Alt('#' in f) + sz + [c] && AreFlags(Alt('#' in f))
  {
    hide Numeral;
  }

  // The pieces do not depend on the layout.
  lemma PiecesOf(sp: Spec, sp0: Spec, c: char, args: seq<Arg>) returns (prefix: string, prefix2: string, stuff: string)
    requires sp0 == sp.(width := 0, right := false, fill := ' ')
    ensures Converted(sp, c, args) == Field(prefix, prefix2, stuff, sp.width, sp.right, sp.fill)
    ensures Converted(sp0, c, args) == Field(prefix, prefix2, stuff, 0, false, ' ')
    ensures |prefix| + |prefix2| == HeadLength(sp.alt, c, prefix + prefix2 + stuff)
  {
    hide Field, Numeral;
    if IsNumber(c) {
      var v := Value(sp, c, NextWord(args));
      prefix, prefix2, stuff := SignOf(v), BasePrefix(sp, c), Numeral(Magnitude(v), BaseOf(c));
      NumeralDigits(Magnitude(v), BaseOf(c));
      assert DigitValue(stuff[0]) < 16;
      assert (prefix + prefix2 + stuff)[0] == if v < 0 then '-' else if prefix2 == "" then stuff[0] else '0';
    } else {
      prefix, prefix2 := "", "";
      stuff := TextOf(c, args);
    }
  }

  lemma FieldFills(prefix: string, prefix2: string, stuff: string, k: nat, right: bool, fill: char)
    ensures var t := prefix + prefix2 + stuff;
            var h := if right then |t| else if fill == '0' then |prefix| + |prefix2| else 0;
            FilledAt(Field(prefix, prefix2, stuff, k, right, fill), t, k, h, fill)
  {
    var t := prefix + prefix2 + stuff;
    var pad := Repeat(fill, if k > |t| then k - |t| else 0);
    var h := if right then |t| else if fill == '0' then |prefix| + |prefix2| else 0;
    PutIn(t, h, pad, k, fill);
    hide FilledAt, Repeat, Field, AllAre;
    FieldParts(prefix, prefix2, stuff, k, right, fill, pad);
    Parts(prefix + prefix2, stuff, pad);
  }

  lemma FieldParts(prefix: string, prefix2: string, stuff: string, k: nat, right: bool, fill: char, pad: string)
    requires var len := |prefix| + |prefix2| + |stuff|; pad == Repeat(fill, if k > len then k - len else 0)
    ensures var a := prefix + prefix2;
            Field(prefix, prefix2, stuff, k, right, fill) ==
              if right then a + stuff + pad else if fill == '0' then a + pad + stuff else pad + (a + stuff)
  {
    hide Repeat;
    assert pad + prefix + prefix2 + stuff == pad + (prefix + prefix2 + stuff);
  }

  lemma Parts(a: string, b: string, pad: string)
    ensures var t := a + b;
            && t[..|a|] + pad + t[|a|..] == a + pad + b && t[..|t|] + pad + t[|t|..] == t + pad
            && t[..0] + pad + t[0..] == pad + t
  {
    var t := a + b;
    assert t[..|a|] == a && t[|a|..] == b;
    assert t[..|t|] == t && t[|t|..] == [] && t[..0] == [] && t[0..] == t;
  }

  lemma PutIn(t: string, h: nat, pad: string, k: nat, fill: char)
    requires h <= |t| && |pad| == (if k > |t| then k - |t| else 0) && AllAre(pad, fill)
    ensures FilledAt(t[..h] + pad + t[h..], t, k, h, fill)
  {
    var r := t[..h] + pad + t[h..];
    assert r[h..h + |r| - |t|] == pad;
  }
}
