/** vsnprintf of printf.c: the interpreter as a loop over the format, writing to a clipped
    buffer, and what the buffer holds afterwards. */
module Vsnprintf {
  import opened BitOps
  import opened Numerals
  import opened Printf
  import opened FormatString

  method EvaluateWidth(f: string, args: seq<Arg>, d: Directive) returns (e: Directive)
    requires d.pos <= |f| && RefWidth(f, args, d).Some?
    ensures RefWidth(f, args, d) == Some(e)
  {
    e := d;
    if IsDigit(At(f, d.pos)) {
      var width, q := Atoi(f, d.pos);
      e := e.(width := width, pos := q);
    } else if At(f, d.pos) == '*' {
      var w := Signed(args[d.arg].w, UINT);
      if w < 0 {
        e := e.(flags := e.flags.(left := true), width := -w);
      } else {
        e := e.(width := w);
      }
      e := e.(pos := e.pos + 1, arg := e.arg + 1);
    }
  }

  method EvaluatePrecision(f: string, args: seq<Arg>, d: Directive) returns (e: Directive)
    requires d.pos <= |f| && RefPrecision(f, args, d).Some?
    ensures RefPrecision(f, args, d) == Some(e)
  {
    e := d;
    if At(f, d.pos) == '.' {
      e := e.(flags := e.flags.(precision := true), pos := e.pos + 1);
      if IsDigit(At(f, e.pos)) {
        var prec, q := Atoi(f, e.pos);
        e := e.(prec := prec, pos := q);
      } else if At(f, e.pos) == '*' {
        var prec := Signed(args[e.arg].w, UINT);
        e := e.(prec := if prec > 0 then prec else 0, pos := e.pos + 1, arg := e.arg + 1);
      }
    }
  }

  method EvaluateLength(f: string, d: Directive) returns (e: Directive)
    requires d.pos <= |f|
    ensures e == RefLength(f, d)
  {
    e := d;
    var c := At(f, e.pos);
    if c == 'l' {
      e := e.(flags := e.flags.(longSize := true), pos := e.pos + 1);
      if At(f, e.pos) == 'l' {
        e := e.(flags := e.flags.(longLong := true), pos := e.pos + 1);
      }
    } else if c == 'h' {
      e := e.(flags := e.flags.(shortSize := true), pos := e.pos + 1);
      if At(f, e.pos) == 'h' {
        e := e.(flags := e.flags.(charSize := true), pos := e.pos + 1);
      }
    } else if c == 't' || c == 'j' || c == 'z' {
      e := e.(flags := e.flags.(longSize := true), pos := e.pos + 1);
    }
  }

  method EvaluateFields(f: string, p: nat, args: seq<Arg>, a: nat) returns (d: Directive)
    requires p <= |f| && RefFields(f, p, args, a).Some?
    ensures RefFields(f, p, args, a) == Some(d)
  {
    FieldsSteps(f, p, args, a, p + 2);
    var flags, q := ParseFlags(f, p);
    d := EvaluateWidth(f, args, Directive(flags, 0, 0, q, a));
    d := EvaluatePrecision(f, args, d);
    d := EvaluateLength(f, d);
  }

  /** The base, and the flags as the conversion leaves them. */
  method IntegerSettings(c: char, d: Directive) returns (base: nat, flags: Flags)
    requires IsInteger(c)
    ensures base == Base(c) && flags == IntegerFlags(c, d.flags)
  {
    base := 10;
    if c == 'x' || c == 'X' {
      base := 16;
    } else if c == 'o' {
      base := 8;
    } else if c == 'b' {
      base := 2;
    }
    flags := d.flags;
    if base == 10 {
      flags := flags.(hash := false);
    }
    if c == 'X' {
      flags := flags.(uppercase := true);
    }
    if c != 'i' && c != 'd' {
      flags := flags.(plus := false, space := false);
    }
    if flags.precision {
      flags := flags.(zeropad := false);
    }
  }

  /** Sign and magnitude of the argument, as the conversion reads it. */
  method IntegerArgument(c: char, d: Directive, w: nat) returns (negative: bool, value: nat)
    requires IsInteger(c) && RefIntegerText(c, d, w).Some?
    ensures IntegerValue(c, d.flags, w) == Some((negative, value))
  {
    IntegerSteps(c, d, w, d.width + 2);
    if c == 'i' || c == 'd' {
      var v := Signed(w, Modulus(d.flags));
      negative, value := v < 0, if v > 0 then v else 0 - v;
    } else {
      negative, value := false, w % Modulus(d.flags);
    }
  }

  method ConvertInteger(buffer: array<char>, idx: nat, maxlen: nat, c: char, d: Directive, w: nat) returns (next: nat)
    requires maxlen <= buffer.Length && IsInteger(c) && RefIntegerText(c, d, w).Some?
    modifies buffer
    ensures var text := RefIntegerText(c, d, w).value;
            buffer[..] == Put(old(buffer[..]), idx, maxlen, text) && next == idx + |text|
  {
    var base, flags := IntegerSettings(c, d);
    var negative, value := IntegerArgument(c, d, w);
    IntegerMeans(c, d, w, negative, value);
    next := NtoaLong(buffer, idx, maxlen, value, negative, base, d.prec, d.width, flags);
  }

  method OutString(buffer: array<char>, idx: nat, maxlen: nat, s: string, prec: nat, flags: Flags) returns (next: nat)
    requires maxlen <= buffer.Length
    modifies buffer
    ensures var shown := Shown(Contents(s), prec, flags);
            buffer[..] == Put(old(buffer[..]), idx, maxlen, shown) && next == idx + |shown|
  {
    ghost var shown := Shown(Contents(s), prec, flags);
    next := idx;
    var p: nat, left := 0, prec;
    while At(s, p) != '\0' && (!flags.precision || left > 0)
      invariant p <= |shown| <= |s| && StringEnd(s, p) == StringEnd(s, 0)
      invariant next == idx + p && (flags.precision ==> left == prec - p)
      invariant buffer[..] == Put(old(buffer[..]), idx, maxlen, shown[..p])
      decreases |s| - p
    {
      left := if flags.precision then left - 1 else left;
      PutPut(old(buffer[..]), idx, maxlen, shown[..p], [s[p]]);
      assert shown[..p + 1] == shown[..p] + [s[p]];
      OutBuffer(s[p], buffer, next, maxlen);
      p, next := p + 1, next + 1;
    }
    assert shown[..p] == shown;
  }

  /** The length of a string, but at most maxsize. */
  method StrnlenS(s: string, maxsize: nat) returns (n: nat)
    ensures n == Min(StringEnd(s, 0), maxsize)
  {
    n := 0;
    while At(s, n) != '\0' && n < maxsize
      invariant n <= |s| && n <= maxsize && StringEnd(s, n) == StringEnd(s, 0)
      decreases |s| - n
    {
      n := n + 1;
    }
  }

  /** The length _strnlen_s and the precision leave, as an unsigned int. */
  method StringLength(s: string, prec: nat, flags: Flags) returns (l: nat)
    requires |s| < WORD && prec < UINT && (prec > 0 ==> flags.precision)
    ensures l == |Shown(Contents(s), prec, flags)| % UINT
  {
    l := StrnlenS(s, if prec > 0 then prec else WORD - 1);
    l := l % UINT;
    if flags.precision {
      l := if l < prec then l else prec;
    }
  }

  method PutString(buffer: array<char>, idx: nat, maxlen: nat, s: string, d: Directive) returns (next: nat)
    requires |s| < WORD && maxlen <= buffer.Length && d.prec < UINT && (d.prec > 0 ==> d.flags.precision)
    modifies buffer
    ensures var shown := Shown(Contents(s), d.prec, d.flags);
            var text := Padded(shown, |shown| % UINT, d.width, d.flags.left);
            buffer[..] == Put(old(buffer[..]), idx, maxlen, text) && next == idx + |text|
  {
    ghost var shown := Shown(Contents(s), d.prec, d.flags);
    var l := StringLength(s, d.prec, d.flags);
    PadAround(buffer[..], idx, maxlen, shown, l, d.width, d.flags.left);
    next := OutPad(!d.flags.left, l, d.width, buffer, idx, maxlen);
    next := OutString(buffer, next, maxlen, s, d.prec, d.flags);
    next := OutPad(d.flags.left, l, d.width, buffer, next, maxlen);
  }

  lemma PadAround(b: seq<char>, idx: nat, maxlen: nat, s: string, have: nat, width: nat, left: bool)
    requires maxlen <= |b|
    ensures var lead, trail := if left then [] else Pad(have, width), if left then Pad(have, width) else [];
            Put(Put(Put(b, idx, maxlen, lead), idx + |lead|, maxlen, s), idx + |lead| + |s|, maxlen, trail)
            == Put(b, idx, maxlen, Padded(s, have, width, left))
  {
    var lead, trail := if left then [] else Pad(have, width), if left then Pad(have, width) else [];
    PutPut(b, idx, maxlen, lead, s);
    PutPut(b, idx, maxlen, lead + s, trail);
  }

  method PutChar(buffer: array<char>, idx: nat, maxlen: nat, c: char, d: Directive) returns (next: nat)
    requires maxlen <= buffer.Length
    modifies buffer
    ensures var text := Padded([c], 1, d.width, d.flags.left);
            buffer[..] == Put(old(buffer[..]), idx, maxlen, text) && next == idx + |text|
  {
    PadAround(buffer[..], idx, maxlen, [c], 1, d.width, d.flags.left);
    next := OutPad(!d.flags.left, 1, d.width, buffer, idx, maxlen);
    OutBuffer(c, buffer, next, maxlen);
    next := next + 1;
    next := OutPad(d.flags.left, 1, d.width, buffer, next, maxlen);
  }

  method Convert(buffer: array<char>, idx: nat, maxlen: nat, c: char, d: Directive, args: seq<Arg>)
      returns (next: nat, taken: nat)
    requires maxlen <= buffer.Length && d.prec < UINT && (d.prec > 0 ==> d.flags.precision)
    requires RefConversion(c, d, args).Some?
    modifies buffer
    ensures var r := RefConversion(c, d, args).value;
            buffer[..] == Put(old(buffer[..]), idx, maxlen, r.0) && next == idx + |r.0| && taken == r.1
  {
    taken := 1;
    if IsInteger(c) {
      next := ConvertInteger(buffer, idx, maxlen, c, d, args[d.arg].w);
    } else if c == 'c' {
      next := PutChar(buffer, idx, maxlen, CharOf(args[d.arg].w), d);
    } else if c == 's' {
      next := PutString(buffer, idx, maxlen, args[d.arg].s, d);
    } else if c == 'p' {
      next := NtoaLong(buffer, idx, maxlen, args[d.arg].w, false, 16, d.prec, 16,
                       d.flags.(zeropad := true, uppercase := true));
    } else {
      OutBuffer(c, buffer, idx, maxlen);
      next, taken := idx + 1, 0;
    }
  }

  lemma WidthKeeps(f: string, args: seq<Arg>, d: Directive)
    requires d.pos <= |f| && RefWidth(f, args, d).Some?
    ensures RefWidth(f, args, d).value.prec == d.prec
  {
  }

  lemma PrecisionFlag(f: string, args: seq<Arg>, d: Directive)
    requires d.pos <= |f| && d.prec == 0 && RefPrecision(f, args, d).Some?
    ensures var e := RefPrecision(f, args, d).value;
            e.prec < UINT && (e.prec > 0 ==> e.flags.precision)
  {
  }

  lemma LengthKeeps(f: string, d: Directive)
    requires d.pos <= |f|
    ensures RefLength(f, d).prec == d.prec && RefLength(f, d).flags.precision == d.flags.precision
  {
  }

  lemma PrecisionSet(f: string, p: nat, args: seq<Arg>, a: nat)
    requires p <= |f| && RefFields(f, p, args, a).Some?
    ensures var d := RefFields(f, p, args, a).value;
            d.prec < UINT && (d.prec > 0 ==> d.flags.precision)
  {
    FieldsSteps(f, p, args, a, p + 2);
    var q := FlagEnd(f, p);
    var d := Directive(FlagsTo(f, p, q), 0, 0, q, a);
    var e := RefWidth(f, args, d).value;
    WidthKeeps(f, args, d);
    PrecisionFlag(f, args, e);
    LengthKeeps(f, RefPrecision(f, args, e).value);
  }

  /** One directive, from behind its '%'. */
  method PutDirective(buffer: array<char>, idx: nat, maxlen: nat, f: string, p: nat, args: seq<Arg>, a: nat)
      returns (next: nat, p': nat, a': nat)
    requires maxlen <= buffer.Length && p <= |f| && RefDirective(f, p, args, a).Some?
    modifies buffer
    ensures var r := RefDirective(f, p, args, a).value;
            buffer[..] == Put(old(buffer[..]), idx, maxlen, r.0) && next == idx + |r.0| && p' == r.1 && a' == r.2
  {
    DirectiveSteps(f, p, args, a, p + 2);
    PrecisionSet(f, p, args, a);
    var d := EvaluateFields(f, p, args, a);
    var taken;
    next, taken := Convert(buffer, idx, maxlen, At(f, d.pos), d, args);
    p', a' := d.pos + 1, d.arg + taken;
  }

  /** Whatever the count, the text is the same; the buffer gets as much of it as fits. */
  method VsnprintfLoop(buffer: array<char>, maxlen: nat, f: string, args: seq<Arg>) returns (idx: nat)
    requires maxlen <= buffer.Length && RefFormat(f, 0, args, 0).Some?
    modifies buffer
    ensures buffer[..] == Put(old(buffer[..]), 0, maxlen, RefFormat(f, 0, args, 0).value)
    ensures idx == |RefFormat(f, 0, args, 0).value|
  {
    ghost var whole, done: string := RefFormat(f, 0, args, 0).value, [];
    idx := 0;
    var p: nat, a: nat := 0, 0;
    while At(f, p) != '\0'
      invariant idx == |done| && buffer[..] == Put(old(buffer[..]), 0, maxlen, done)
      invariant RefFormat(f, p, args, a).Some? && done + RefFormat(f, p, args, a).value == whole
      decreases |f| - p
    {
      if f[p] != '%' {
        FormatPlain(f, p, args, a, done);
        PutPut(old(buffer[..]), 0, maxlen, done, [f[p]]);
        OutBuffer(f[p], buffer, idx, maxlen);
        done := done + [f[p]];
        idx, p := idx + 1, p + 1;
      } else {
        FormatDirective(f, p, args, a, done);
        ghost var r := RefDirective(f, p + 1, args, a).value;
        PutPut(old(buffer[..]), 0, maxlen, done, r.0);
        idx, p, a := PutDirective(buffer, idx, maxlen, f, p + 1, args, a);
        done := done + r.0;
      }
    }
  }

  lemma FormatPlain(f: string, p: nat, args: seq<Arg>, a: nat, done: string)
    requires At(f, p) != '\0' && f[p] != '%' && RefFormat(f, p, args, a).Some?
    ensures RefFormat(f, p + 1, args, a).Some?
    ensures done + RefFormat(f, p, args, a).value == done + [f[p]] + RefFormat(f, p + 1, args, a).value
  {
  }

  lemma FormatDirective(f: string, p: nat, args: seq<Arg>, a: nat, done: string)
    requires At(f, p) == '%' && RefFormat(f, p, args, a).Some?
    ensures var d := RefDirective(f, p + 1, args, a);
            && d.Some?
            && (var rest := RefFormat(f, d.value.1, args, d.value.2);
                rest.Some? && done + RefFormat(f, p, args, a).value == done + d.value.0 + rest.value)
  {
  }

  /** The first min(length, count - 1) characters of the text and a terminator, with every
      other cell left alone; nothing at all when count is 0 or there is no buffer, for then the
      output goes nowhere. The result is the length of the whole text, as an int. */
  method Snprintf(buffer: array?<char>, count: nat, f: string, args: seq<Arg>) returns (ret: int)
    requires (buffer != null ==> count <= buffer.Length) && count < WORD && RefFormat(f, 0, args, 0).Some?
    modifies if buffer == null then {} else {buffer}
    ensures ret == Signed(|RefFormat(f, 0, args, 0).value|, UINT)
    ensures buffer != null && count == 0 ==> buffer[..] == old(buffer[..])
    ensures buffer != null && count > 0 ==>
              var text := RefFormat(f, 0, args, 0).value;
              var m := Min(|text|, count - 1);
              && buffer[..m] == text[..m] && buffer[m] == '\0'
              && forall k {:trigger buffer[k]} :: m < k < buffer.Length ==> buffer[k] == old(buffer[k])
  {
    var idx;
    if buffer == null {
      var nowhere := new char[0];
      idx := VsnprintfLoop(nowhere, 0, f, args);
    } else {
      idx := VsnprintfLoop(buffer, count, f, args);
      OutBuffer('\0', buffer, if idx < count then idx else (count - 1) % WORD, count);
    }
    ret := Signed(idx, UINT);
  }
}
