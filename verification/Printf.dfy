/**
 The printf engine, one format character at a time, against what a format means
 taken field by field; and snprintf's bounded buffer on top of it.
 */
module Printf {
  import opened Numerals
  import opened Atoi

  datatype Size = INTSZ | LONGSZ | LLONGSZ | SIZETSZ

  // One variable argument: an integer as it was passed, or a string pointer.
  datatype Arg = Word(w: int) | Text(s: string) | NullText

  // The modifiers of a field.
  datatype Spec = Spec(size: Size, width: nat, right: bool, fill: char, alt: bool)

  const PLAIN := Spec(INTSZ, 0, false, ' ', false)

  // ---------------------------------------------------------------- what a format means

  predicate IsModifier(c: char) {
    c in "#-lz0123456789"
  }

  predicate IsNumber(c: char) {
    c in "doupx"
  }

  // The modifiers at the front of s.
  function Modifiers(s: string): (m: string)
    ensures |m| <= |s|
  {
    if |s| > 0 && IsModifier(s[0]) then [s[0]] + Modifiers(s[1..]) else []
  }

  function Modified(sp: Spec, c: char): Spec {
    if c == '#' then sp.(alt := true)
    else if c == '-' then sp.(right := true)
    else if c == 'l' then sp.(size := if sp.size == LONGSZ then LLONGSZ else LONGSZ)
    else if c == 'z' then sp.(size := SIZETSZ)
    else if c == '0' then if sp.width > 0 then sp.(width := sp.width * 10) else sp.(fill := '0')
    else if '1' <= c <= '9' then sp.(width := sp.width * 10 + (c - '0') as int)
    else sp
  }

  // The specification that a string of modifiers builds up.
  function SpecOf(m: string): Spec {
    if |m| == 0 then PLAIN else Modified(SpecOf(m[..|m| - 1]), m[|m| - 1])
  }

  // int, long and size_t have 32 bits here, long long 64.
  function Limit(size: Size): nat {
    if size == LLONGSZ then ULLONG_LIMIT else UINT_LIMIT
  }

  function NextWord(args: seq<Arg>): int {
    if |args| > 0 && args[0].Word? then args[0].w else 0
  }

  function NextText(args: seq<Arg>): string {
    if |args| > 0 && args[0].Text? then args[0].s else "(null)"
  }

  function Rest(args: seq<Arg>): seq<Arg> {
    if |args| > 0 then args[1..] else args
  }

  // The integer a conversion prints: signed for %d, pointer-sized for %p, else unsigned.
  function Value(sp: Spec, c: char, w: int): (v: int)
    ensures -(ULLONG_LIMIT / 2) <= v < ULLONG_LIMIT
  {
    var limit := if c == 'p' then UINT_LIMIT else Limit(sp.size);
    var u := w % limit;
    if c == 'd' && u >= limit / 2 then u - limit else u
  }

  function BaseOf(c: char): (b: nat)
    ensures GoodBase(b)
  {
    if c == 'x' || c == 'p' then 16 else if c == 'o' then 8 else 10
  }

  function BasePrefix(sp: Spec, c: char): string {
    if !(sp.alt || c == 'p') then "" else if BaseOf(c) == 16 then "0x" else if BaseOf(c) == 8 then "0" else ""
  }

  // The text of one conversion.
  function Converted(sp: Spec, c: char, args: seq<Arg>): string {
    if IsNumber(c) then
      var v := Value(sp, c, NextWord(args));
      Field(SignOf(v), BasePrefix(sp, c), Numeral(Magnitude(v), BaseOf(c)), sp.width, sp.right, sp.fill)
    else if c == 's' then Field("", "", NextText(args), sp.width, sp.right, sp.fill)
    else Field("", "", if c == 'c' then OneChar(NextWord(args)) else [c], sp.width, sp.right, sp.fill)
  }

  // A character argument; the NUL character is an empty string.
  function OneChar(w: int): string {
    if w % 256 == 0 then "" else [(w % 256) as char]
  }

  function ArgsAfter(c: char, args: seq<Arg>): seq<Arg> {
    if IsNumber(c) || c == 's' || c == 'c' then Rest(args) else args
  }

  /**
   What a whole format prints: characters stand for themselves; a percent sign, its modifiers
   and a conversion character make a field. A format that ends inside a field prints nothing
   for it.
   */
  function Render(fmt: string, args: seq<Arg>): string
    decreases |fmt|
  {
    if |fmt| == 0 then []
    else if fmt[0] != '%' then [fmt[0]] + Render(fmt[1..], args)
    else
      var m := Modifiers(fmt[1..]);
      var k := 1 + |m|;
      if k == |fmt| then []
      else Converted(SpecOf(m), fmt[k], args) + Render(fmt[k + 1..], ArgsAfter(fmt[k], args))
  }

  // ---------------------------------------------------------------- character by character

  // What is still to come when inside a field with sp so far.
  function Within(sp: Spec, s: string, args: seq<Arg>): string
    decreases |s|
  {
    if |s| == 0 then []
    else if IsModifier(s[0]) then Within(Modified(sp, s[0]), s[1..], args)
    else Converted(sp, s[0], args) + Render(s[1..], ArgsAfter(s[0], args))
  }

  // Taking modifiers one at a time comes to the same as taking them together.
  lemma {:induction false} WithinIs(done: string, s: string, args: seq<Arg>)
    ensures var m := Modifiers(s);
            Within(SpecOf(done), s, args) ==
              if |m| == |s| then []
                else Converted(SpecOf(done + m), s[|m|], args) + Render(s[|m| + 1..], ArgsAfter(s[|m|], args))
    decreases |s|
  {
    hide Converted, Render, Modified;
    if |s| > 0 && IsModifier(s[0]) {
      var more := done + [s[0]];
      assert more[..|done|] == done;
      WithinIs(more, s[1..], args);
      var m := Modifiers(s[1..]);
      assert more + m == done + ([s[0]] + m);
      if |m| < |s| - 1 {
        assert s[1..][|m| + 1..] == s[|m| + 2..];
      }
    } else {
      assert done + [] == done;
    }
  }

  // A percent sign starts a plain field.
  lemma Percent(fmt: string, args: seq<Arg>)
    requires |fmt| > 0 && fmt[0] == '%'
    ensures Render(fmt, args) == Within(PLAIN, fmt[1..], args)
  {
    hide Converted, Modified, Modifiers;
    var s := fmt[1..];
    WithinIs([], s, args);
    var m := Modifiers(s);
    assert [] + m == m;
    if |m| < |s| {
      assert s[|m| + 1..] == fmt[|m| + 2..];
    }
  }

  // ---------------------------------------------------------------- the bounded buffer

  // SNP, snprintf's context; sent is everything it was ever given.
  class Snp {
    const buf: array<char>
    const buflen: nat
    var bufpos: nat
    ghost var sent: string

    // The first characters sent are stored, as many as there is room for.
    ghost predicate Valid()
      reads this, buf
    {
      && buflen <= buf.Length && bufpos == (if |sent| < buflen then |sent| else buflen)
      && buf[..bufpos] == sent[..bufpos]
    }

    constructor (buf: array<char>, buflen: nat)
      requires buflen <= buf.Length
      ensures Valid() && sent == [] && this.buf == buf && this.buflen == buflen
    {
      this.buf := buf;
      this.buflen := buflen;
      bufpos := 0;
      sent := [];
    }

    // __snprintf_send.
    method Send(data: string)
      requires Valid()
      modifies this, buf
      ensures Valid() && sent == old(sent) + data && old(bufpos) <= bufpos
      ensures forall i | bufpos <= i < buf.Length :: buf[i] == old(buf[i])
    {
      var i := 0;
      while i < |data|
        invariant 0 <= i <= |data| && Valid() && sent == old(sent) + data[..i] && old(bufpos) <= bufpos
        invariant forall k | bufpos <= k < buf.Length :: buf[k] == old(buf[k])
      {
        ghost var before := buf[..bufpos];
        ghost var more := sent + [data[i]];
        if bufpos < buflen {
          buf[bufpos] := data[i];
          bufpos := bufpos + 1;
          assert buf[..bufpos] == before + [data[i]];
        } else {
          assert more[..bufpos] == sent[..bufpos];
        }
        assert data[..i + 1] == data[..i] + [data[i]];
        sent := more;
        i := i + 1;
      }
      assert data[..|data|] == data;
    }
  }

  // ---------------------------------------------------------------- the engine

  class Pf {
    const snp: Snp
    var charcount: nat
    var args: seq<Arg>
    var inPct: bool
    var spec: Spec

    ghost predicate Valid()
      reads this, snp, snp.buf
    {
      snp.Valid() && charcount == |snp.sent|
    }

    constructor (snp: Snp, args: seq<Arg>)
      requires snp.Valid() && snp.sent == []
      ensures Valid() && this.snp == snp && this.args == args && !inPct && spec == PLAIN
    {
      this.snp := snp;
      charcount := 0;
      this.args := args;
      inPct := false;
      spec := PLAIN;
    }

    // __pf_print.
    method Print(txt: string)
      requires Valid()
      modifies this`charcount, snp, snp.buf
      ensures Valid() && snp.sent == old(snp.sent) + txt && old(snp.bufpos) <= snp.bufpos
      ensures forall i | snp.bufpos <= i < snp.buf.Length :: snp.buf[i] == old(snp.buf[i])
    {
      snp.Send(txt);
      charcount := charcount + |txt|;
    }

    // __pf_fill.
    method Fill(n: nat)
      requires Valid()
      modifies this`charcount, snp, snp.buf
      ensures Valid() && snp.sent == old(snp.sent) + Repeat(spec.fill, n)
      ensures forall i | snp.bufpos <= i < snp.buf.Length :: snp.buf[i] == old(snp.buf[i])
      ensures old(snp.bufpos) <= snp.bufpos
    {
      var i := 0;
      while i < n
        invariant 0 <= i <= n && Valid() && |snp.sent| == |old(snp.sent)| + i
        invariant snp.sent == old(snp.sent) + Repeat(spec.fill, i) && old(snp.bufpos) <= snp.bufpos
        invariant forall k | snp.bufpos <= k < snp.buf.Length :: snp.buf[k] == old(snp.buf[k])
      {
        RepeatSnoc(spec.fill, i);
        assert old(snp.sent) + (Repeat(spec.fill, i) + [spec.fill]) == old(snp.sent) + Repeat(spec.fill,
               i) + [spec.fill];
        Print([spec.fill]);
        i := i + 1;
      }
    }

    // __pf_printstuff.
    method PrintStuff(prefix: string, prefix2: string, stuff: string)
      requires Valid()
      modifies this`charcount, snp, snp.buf
      ensures Valid() && snp.sent == old(snp.sent) + Field(prefix, prefix2, stuff, spec.width, spec.right, spec.fill)
      ensures forall i | snp.bufpos <= i < snp.buf.Length :: snp.buf[i] == old(snp.buf[i])
      ensures old(snp.bufpos) <= snp.bufpos
    {
      hide Repeat;
      var len := |prefix| + |prefix2| + |stuff|;
      var spc := if spec.width > len then spec.width - len else 0;
      ghost var start := snp.sent;
      var none := Repeat(spec.fill, 0);
      NoRepeat(spec.fill);
      if spc > 0 && !spec.right && spec.fill != '0' {
        Fill(spc);
      }
      Print(prefix);
      Print(prefix2);
      if spc > 0 && !spec.right && spec.fill == '0' {
        Fill(spc);
      }
      Print(stuff);
      if spc > 0 && spec.right {
        Fill(spc);
      }
      FieldPieces(start, prefix, prefix2, stuff, spec.width, spec.right, spec.fill, snp.sent);
    }

    // __pf_send, for one character of the format.
    method SendChar(ch: char, ghost rest: string)
      requires Valid() && ch != '\0'
      modifies this, snp, snp.buf
      ensures Valid() && old(snp.bufpos) <= snp.bufpos
      ensures old(snp.sent) + Ahead(old(inPct), old(spec), [ch] + rest, old(args)) == snp.sent + Ahead(inPct, spec,
              rest, args)
      ensures forall i | snp.bufpos <= i < snp.buf.Length :: snp.buf[i] == old(snp.buf[i])
    {
      hide Converted, Within, Render, Modified;
      ghost var whole := [ch] + rest;
      assert whole[1..] == rest && whole[0] == ch;
      if !inPct && ch != '%' {
        StepPlain(whole, args);
        Print([ch]);
        assert old(snp.sent) + ([ch] + Render(rest, args)) == snp.sent + Render(rest, args);
      } else if !inPct {
        Percent(whole, args);
        inPct := true;
        spec := PLAIN;
      } else if IsModifier(ch) {
        StepModifier(spec, whole, args);
        spec := Modified(spec, ch);
      } else {
        StepConversion(spec, whole, args);
        ghost var text := Converted(spec, ch, args);
        Convert(ch);
        assert old(snp.sent) + (text + Render(rest, args)) == snp.sent + Render(rest, args);
      }
    }

    // Fetching an argument, printing the field and resetting the state.
    method Convert(ch: char)
      requires Valid() && inPct
      modifies this, snp, snp.buf
      ensures Valid() && !inPct && spec == PLAIN && args == ArgsAfter(ch, old(args)) && old(snp.bufpos) <= snp.bufpos
      ensures snp.sent == old(snp.sent) + Converted(old(spec), ch, old(args))
      ensures forall i | snp.bufpos <= i < snp.buf.Length :: snp.buf[i] == old(snp.buf[i])
    {
      hide Field, Value, BaseOf, BasePrefix, OneChar, NextWord, NextText, Numeral, Magnitude, SignOf;
      if IsNumber(ch) {
        var v := Value(spec, ch, NextWord(args));
        var base := BaseOf(ch);
        MagnitudeFits(v);
        var buf, x := PrintDigits(Magnitude(v), base);
        PrintStuff(SignOf(v), BasePrefix(spec, ch), buf[x..NUMBER_BUF_SIZE - 1]);
      } else if ch == 's' {
        PrintStuff("", "", NextText(args));
      } else {
        PrintStuff("", "", if ch == 'c' then OneChar(NextWord(args)) else [ch]);
      }
      args := ArgsAfter(ch, args);
      inPct := false;
      spec := PLAIN;
    }
  }

  // What the rest of the format will print, from either state.
  function Ahead(inPct: bool, spec: Spec, s: string, args: seq<Arg>): string {
    if inPct then Within(spec, s, args) else Render(s, args)
  }

  lemma StepPlain(s: string, args: seq<Arg>)
    requires |s| > 0 && s[0] != '%'
    ensures Render(s, args) == [s[0]] + Render(s[1..], args)
  {}

  lemma StepModifier(sp: Spec, s: string, args: seq<Arg>)
    requires |s| > 0 && IsModifier(s[0])
    ensures Within(sp, s, args) == Within(Modified(sp, s[0]), s[1..], args)
  {}

  lemma StepConversion(sp: Spec, s: string, args: seq<Arg>)
    requires |s| > 0 && !IsModifier(s[0])
    ensures Within(sp, s, args) == Converted(sp, s[0], args) + Render(s[1..], ArgsAfter(s[0], args))
  {}

  lemma MagnitudeFits(v: int)
    requires -(ULLONG_LIMIT / 2) <= v < ULLONG_LIMIT
    ensures Magnitude(v) < ULLONG_LIMIT
  {}

  lemma {:induction false} RepeatSnoc(c: char, n: nat)
    ensures Repeat(c, n + 1) == Repeat(c, n) + [c]
  {
    if n > 0 {
      RepeatSnoc(c, n - 1);
    }
  }

  lemma NoRepeat(c: char)
    ensures Repeat(c, 0) == []
  {}

  // The pieces __pf_printstuff sends, in order, make up the field.
  lemma FieldPieces(start: string, prefix: string, prefix2: string, stuff: string, width: nat, right: bool,
        fill: char, sent: string)
    requires var len := |prefix| + |prefix2| + |stuff|;
             var n := if width > len then width - len else 0;
             sent == if n == 0 then start + prefix + prefix2 + stuff
                     else if right then start + prefix + prefix2 + stuff + Repeat(fill, n)
                     else if fill == '0' then start + prefix + prefix2 + Repeat(fill, n) + stuff
                     else start + Repeat(fill, n) + prefix + prefix2 + stuff
    ensures sent == start + Field(prefix, prefix2, stuff, width, right, fill)
  {
    NoRepeat(fill);
    hide Repeat;
    var len := |prefix| + |prefix2| + |stuff|;
    var pad := Repeat(fill, if width > len then width - len else 0);
    if right {
      assert start + prefix + prefix2 + stuff + pad == start + (prefix + prefix2 + stuff + pad);
    } else if fill == '0' {
      assert start + prefix + prefix2 + pad + stuff == start + (prefix + prefix2 + pad + stuff);
    } else {
      assert start + pad + prefix + prefix2 + stuff == start + (pad + prefix + prefix2 + stuff);
    }
  }

  // ---------------------------------------------------------------- vsnprintf

  // __vprintf: the characters sent are those the format means, and their number is returned.
  method Vprintf(snp: Snp, fmt: string, args: seq<Arg>) returns (chars: nat)
    requires snp.Valid() && snp.sent == [] && forall i | 0 <= i < |fmt| :: fmt[i] != '\0'
    modifies snp, snp.buf
    ensures snp.Valid() && snp.sent == Render(fmt, args) && chars == |Render(fmt, args)|
    ensures forall i | snp.bufpos <= i < snp.buf.Length :: snp.buf[i] == old(snp.buf[i])
  {
    hide Render, Within;
    var pf := new Pf(snp, args);
    var i := 0;
    assert fmt[0..] == fmt && [] + Render(fmt, args) == Render(fmt, args);
    while i < |fmt|
      invariant 0 <= i <= |fmt| && pf.Valid() && pf.snp == snp
      invariant snp.sent + Ahead(pf.inPct, pf.spec, fmt[i..], pf.args) == Render(fmt, args)
      invariant forall k | snp.bufpos <= k < snp.buf.Length :: snp.buf[k] == old(snp.buf[k])
    {
      assert fmt[i..] == [fmt[i]] + fmt[i + 1..];
      pf.SendChar(fmt[i], fmt[i + 1..]);
      i := i + 1;
    }
    NothingAhead(pf.inPct, pf.spec, pf.args);
    assert fmt[i..] == [];
    chars := pf.charcount;
  }

  lemma NothingAhead(inPct: bool, spec: Spec, args: seq<Arg>)
    ensures Ahead(inPct, spec, [], args) == []
  {}

  /**
   vsnprintf, as section 7.19.6.5 of ISO C99 asks: the result is the length of the whole output;
   when len is positive, as much of it as fits is stored and terminated, and nothing after the
   terminator is touched; when len is zero nothing is.
   */
  method Vsnprintf(buf: array<char>, len: nat, fmt: string, args: seq<Arg>) returns (chars: nat)
    requires len <= buf.Length && forall i | 0 <= i < |fmt| :: fmt[i] != '\0'
    modifies buf
    ensures chars == |Render(fmt, args)|
    ensures len == 0 ==> buf[..] == old(buf[..])
    ensures len > 0 ==> var n := if chars < len - 1 then chars else len - 1;
                        && buf[..n] == Render(fmt, args)[..n] && buf[n] == '\0'
                        && forall i | n < i < buf.Length :: buf[i] == old(buf[i])
  {
    hide Render;
    var snp := new Snp(buf, if len == 0 then 0 else len - 1);
    chars := Vprintf(snp, fmt, args);
    if len > 0 {
      buf[snp.bufpos] := '\0';
    }
  }

  // ---------------------------------------------------------------- printf and atoi

  lemma {:induction false} ModifiersOf(m: string, c: char)
    requires (forall i | 0 <= i < |m| :: IsModifier(m[i])) && !IsModifier(c)
    ensures Modifiers(m + [c]) == m
  {
    if |m| == 0 {
      assert m + [c] == [c];
    } else {
      assert (m + [c])[1..] == m[1..] + [c];
      ModifiersOf(m[1..], c);
      assert m == [m[0]] + m[1..];
    }
  }

  lemma {:induction false} FillIs(m: string)
    ensures SpecOf(m).fill == ' ' || SpecOf(m).fill == '0'
  {
    if |m| > 0 {
      FillIs(m[..|m| - 1]);
    }
  }

  lemma IntValue(sp: Spec, v: int)
    requires -0x8000_0000 <= v < 0x8000_0000
    ensures Value(sp, 'd', v) == v
  {}

  // A format that is one %d conversion prints one decimal field.
  lemma OneConversion(m: string, v: int)
    requires (forall i | 0 <= i < |m| :: IsModifier(m[i])) && -0x8000_0000 <= v < 0x8000_0000
    ensures Render("%" + m + "d", [Word(v)]) == DecimalField(v, SpecOf(m).width, SpecOf(m).right, SpecOf(m).fill)
  {
    hide Render, Converted, SpecOf, Modifiers, DecimalField;
    var fmt := "%" + m + "d";
    FormatShape(m);
    ModifiersOf(m, 'd');
    RenderOne(fmt, m, [Word(v)]);
    ConvertedInt(SpecOf(m), v);
  }

  lemma FormatShape(m: string)
    ensures var fmt := "%" + m + "d"; |fmt| == |m| + 2 && fmt[0] == '%' && fmt[1..] == m + ['d'] && fmt[1 + |m|] == 'd'
  {}

  lemma RenderOne(fmt: string, m: string, args: seq<Arg>)
    requires |fmt| == |m| + 2 && fmt[0] == '%' && Modifiers(fmt[1..]) == m
    ensures Render(fmt, args) == Converted(SpecOf(m), fmt[1 + |m|], args)
  {
    hide Converted, SpecOf, Modifiers;
    var k := 1 + |m|;
    assert fmt[k + 1..] == [];
    NothingAhead(false, PLAIN, ArgsAfter(fmt[k], args));
    assert Converted(SpecOf(m), fmt[k], args) + [] == Converted(SpecOf(m), fmt[k], args);
  }

  lemma ConvertedInt(sp: Spec, v: int)
    requires -0x8000_0000 <= v < 0x8000_0000
    ensures Converted(sp, 'd', [Word(v)]) == DecimalField(v, sp.width, sp.right, sp.fill)
  {
    IntValue(sp, v);
    hide Field, Numeral, Value;
  }

  /**
   atoi of anything %d prints for an int, with any modifiers, is that int, except exactly where
   '-' and '0' are combined with a width that leaves room for fill and the int is not zero.
   */
  lemma AtoiOfPrintf(m: string, v: int)
    requires (forall i | 0 <= i < |m| :: IsModifier(m[i])) && -0x8000_0000 <= v < 0x8000_0000
    ensures var sp := SpecOf(m);
            AtoiValue(Render("%" + m + "d", [Word(v)])) == v <==>
                !(sp.right && sp.fill == '0' && Pad(v, sp.width) > 0 && v != 0)
  {
    hide SpecOf, Render, AtoiValue, DecimalField, Pad;
    OneConversion(m, v);
    FillIs(m);
    var sp := SpecOf(m);
    ReadsBackIff(v, sp.width, sp.right, sp.fill);
  }
}
