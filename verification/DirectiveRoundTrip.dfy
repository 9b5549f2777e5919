/** Integer directives from the format to the number a reader sees. */
module DirectiveRoundTrip {
  import opened BitOps
  import opened FormatString
  import opened Substrings
  import D = DirectiveText
  import N = Numerals
  import P = PrintedIntegers

  /** What can be written between '%' and the conversion. */
  datatype Fields = Fields(run: string, width: nat, prec: D.Precision, length: D.Length)
  {
    predicate Valid() {
      && (forall k :: 0 <= k < |run| ==> IsFlag(run[k]))
      && width < UINT && (prec.Given? ==> prec.value < UINT)
    }

    function Text(): string {
      D.FieldsText(run, width, prec, length)
    }

    /** The directive that the fields describe, up to pos and with the arguments from arg on. */
    function Described(pos: nat, arg: nat): Directive {
      Directive(D.Meant(D.RunFlags(run), prec, length), width, D.Value(prec), pos, arg)
    }
  }

  lemma FieldsAt(f: string, p: nat, fields: Fields, c: char, args: seq<Arg>, a: nat) returns (d: Directive)
    requires fields.Valid() && D.IsConversion(c)
    requires Holds(f, p, fields.Text()) && At(f, p + |fields.Text()|) == c
    ensures p <= |f| && d.pos == p + |fields.Text()| && d.arg == a
            && d == fields.Described(0, 0).(pos := d.pos, arg := a)
    ensures RefFields(f, p, args, a) == Some(d) && At(f, d.pos) == c
  {
    HoldsSlice(f, p, fields.Text());
    D.FieldsRead(f, p, fields.run, fields.width, fields.prec, fields.length, args, a);
    d := fields.Described(p + |fields.Text()|, a);
  }

  /** The text of an integer does not depend on where its directive stands. */
  lemma ConversionText(c: char, d: Directive, pos: nat, args: seq<Arg>, a: nat, x: nat, text: string)
    requires IsInteger(c) && x < WORD && RefIntegerText(c, d, x) == Some(text)
    requires a < |args| && args[a] == Word(x)
    ensures RefConversion(c, d.(pos := pos, arg := a), args) == Some((text, 1))
  {
    IntegerSteps(c, d, x, d.width + 2);
    IntegerSteps(c, d.(pos := pos, arg := a), x, d.width + 2);
  }

  /** Wherever a written integer directive stands in a format, its text is that of its fields,
      and it takes one argument. */
  lemma DirectiveAnywhere(f: string, p: nat, fields: Fields, c: char, args: seq<Arg>, a: nat, x: nat, text: string)
    requires fields.Valid() && IsInteger(c) && x < WORD && a < |args| && args[a] == Word(x)
    requires Holds(f, p, fields.Text()) && At(f, p + |fields.Text()|) == c
    requires RefIntegerText(c, fields.Described(0, 0), x) == Some(text)
    ensures p <= |f| && RefDirective(f, p, args, a) == Some((text, p + |fields.Text()| + 1, a + 1))
  {
    var d := FieldsAt(f, p, fields, c, args, a);
    ConversionText(c, fields.Described(0, 0), d.pos, args, a, x, text);
    AfterFields(f, p, args, a, d, text, 1);
  }

  /** The argument can be read back from its text: its digits fit, and it is not negative or
      there is room for its sign. */
  predicate ReadsBack(c: char, d: Directive, x: nat)
    requires IsInteger(c) && IntegerValue(c, d.flags, x).Some? && x < WORD
  {
    var v := IntegerValue(c, d.flags, x).value.1;
    && P.Printable(v, Base(c)) && (c == 'b' ==> v < 0x1_0000_0000)
    && (P.Given(c, d.flags, x) >= 0 || P.SignFits(v, Base(c), d.prec, d.width, IntegerFlags(c, d.flags)))
  }

  lemma TextReads(c: char, d: Directive, x: nat) returns (text: string)
    requires IsInteger(c) && IntegerValue(c, d.flags, x).Some? && !IntegerFlags(c, d.flags).hash && x < WORD
    ensures RefIntegerText(c, d, x) == Some(text)
    ensures P.ReadNumber(text, Base(c)) == P.Given(c, d.flags, x) <==> ReadsBack(c, d, x)
  {
    P.DirectiveReads(c, d, x);
    text := RefIntegerText(c, d, x).value;
  }

  function Joined(text: string, rest: Option<string>): Option<string>
  {
    if rest.Some? then Some(text + rest.value) else Undefined
  }

  lemma DirectiveHeld(f: string, p: nat, fields: string, c: char)
    requires Holds(f, p, "%" + (fields + [c]))
    ensures p + |fields| + 2 <= |f| && f[p] == '%' && Holds(f, p + 1, fields) && At(f, p + 1 + |fields|) == c
  {
    HoldsConcat(f, p, "%", fields + [c]);
    HoldsConcat(f, p + 1, fields, [c]);
    HoldsAt(f, p, "%", 0);
    HoldsAt(f, p + 1 + |fields|, [c], 0);
  }

  lemma FormatStep(f: string, p: nat, args: seq<Arg>, a: nat, text: string, q: nat)
    requires p < |f| && f[p] == '%' && RefDirective(f, p + 1, args, a) == Some((text, q, a + 1))
    ensures RefFormat(f, p, args, a) == Joined(text, RefFormat(f, q, args, a + 1))
  {
  }

  lemma FormatGoesOn(f: string, p: nat, fields: Fields, c: char, args: seq<Arg>, a: nat, x: nat, text: string)
    requires fields.Valid() && IsInteger(c) && RefIntegerText(c, fields.Described(0, 0), x) == Some(text)
    requires Holds(f, p, "%" + (fields.Text() + [c])) && a < |args| && args[a] == Word(x) && x < WORD
    ensures var q := p + |fields.Text()| + 2;
            q <= |f| && RefFormat(f, p, args, a) == Joined(text, RefFormat(f, q, args, a + 1))
  {
    DirectiveHeld(f, p, fields.Text(), c);
    DirectiveAnywhere(f, p + 1, fields, c, args, a, x, text);
    FormatStep(f, p, args, a, text, p + |fields.Text()| + 2);
  }

  /** From format to number: wherever an integer directive without '#' stands in a format, it
      prints its argument and goes on behind itself, and reading the text gives the argument
      back exactly when its digits fit and it is not negative or there is room for its sign. */
  lemma FormatReads(f: string, p: nat, fields: Fields, c: char, args: seq<Arg>, a: nat, x: nat) returns (text: string)
    requires fields.Valid() && IsInteger(c) && ('#' in fields.run ==> Base(c) == 10)
    requires Holds(f, p, "%" + (fields.Text() + [c])) && a < |args| && args[a] == Word(x) && x < WORD
    requires IntegerValue(c, fields.Described(0, 0).flags, x).Some?
    ensures var d, q := fields.Described(0, 0), p + |fields.Text()| + 2;
            && (P.ReadNumber(text, Base(c)) == P.Given(c, d.flags, x) <==> ReadsBack(c, d, x))
            && q <= |f| && RefFormat(f, p, args, a) == Joined(text, RefFormat(f, q, args, a + 1))
  {
    text := TextReads(c, fields.Described(0, 0), x);
    FormatGoesOn(f, p, fields, c, args, a, x, text);
  }

  /** A format that is nothing but the directive. */
  lemma AloneText(fields: Fields, c: char, x: nat, text: string)
    requires fields.Valid() && IsInteger(c) && x < WORD && RefIntegerText(c, fields.Described(0, 0), x) == Some(text)
    ensures RefFormat("%" + (fields.Text() + [c]), 0, [Word(x)], 0) == Some(text)
  {
    var f := "%" + (fields.Text() + [c]);
    HoldsSlice(f, 0, f);
    FormatGoesOn(f, 0, fields, c, [Word(x)], 0, x, text);
    assert RefFormat(f, |f|, [Word(x)], 1) == Some([]);
    assert text + [] == text;
  }

  /** For example, "%.32d" of -5: thirty-two digits fill the scratch buffer, and what can be
      read is 5. */
  lemma LostSign()
    ensures RefFormat("%.32d", 0, [Word(0xFFFF_FFFB)], 0) == Some(N.Times('0', 31) + "5")
    ensures P.ReadNumber(N.Times('0', 31) + "5", 10) == 5
  {
    var fields := Fields("", 0, D.Given(32), D.Default);
    var d := fields.Described(0, 0);
    DecimalThirtyTwo();
    assert fields.Text() == ".32" && "%" + (".32" + "d") == "%.32d";
    MinusFive(d);
    AloneText(fields, 'd', 0xFFFF_FFFB, N.Times('0', 31) + "5");
  }

  lemma MinusFive(d: Directive)
    requires d.prec >= 32 && d.width == 0 && !d.flags.left && !d.flags.zeropad && Modulus(d.flags) == UINT
    ensures RefIntegerText('d', d, 0xFFFF_FFFB) == Some(N.Times('0', 31) + "5")
    ensures P.ReadNumber(N.Times('0', 31) + "5", 10) == 5
  {
    IntegerMeans('d', d, 0xFFFF_FFFB, true, 5);
    P.LostSign(d.prec, IntegerFlags('d', d.flags));
  }

  lemma DecimalThirtyTwo()
    ensures D.DecimalText(32) == "32"
  {
    D.DecimalSteps(32, 34);
    assert N.Quot(32, 10) == 3 && N.Rem(32, 10) == 2 && N.Quot(3, 10) == 0 && N.Rem(3, 10) == 3;
    assert N.Digits(3, 10, false) == "3" && N.Digits(32, 10, false) == "23";
    N.ReversedLast("3", '2');
    N.ReversedLast([], '3');
  }
}
