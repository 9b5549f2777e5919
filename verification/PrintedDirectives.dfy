/** What each directive prints, wherever it stands in a format. */
module PrintedDirectives {
  import opened BitOps
  import opened DirectiveRoundTrip
  import opened FormatString
  import opened IntegerLaws
  import opened Substrings
  import D = DirectiveText
  import N = Numerals
  import P = PrintedIntegers

  /** Where a written directive stands, its fields are read and its conversion comes next. */
  lemma FieldsStand(f: string, p: nat, fields: Fields, c: char, args: seq<Arg>, a: nat, d: Directive)
    requires fields.Valid() && D.IsConversion(c) && Holds(f, p, "%" + (fields.Text() + [c]))
    requires d == fields.Described(p + 1 + |fields.Text()|, a)
    ensures p < |f| && f[p] == '%' && d.pos == p + 1 + |fields.Text()| < |f| && d.arg == a
    ensures RefFields(f, p + 1, args, a) == Some(d) && At(f, d.pos) == c
  {
    DirectiveHeld(f, p, fields.Text(), c);
    var e := FieldsAt(f, p + 1, fields, c, args, a);
  }

  /** A directive that takes one argument: its text goes there, and the format goes on. */
  lemma GoesOn(f: string, p: nat, c: char, args: seq<Arg>, a: nat, d: Directive, text: string)
    requires p < |f| && f[p] == '%' && RefFields(f, p + 1, args, a) == Some(d) && At(f, d.pos) == c && d.arg == a
    requires RefConversion(c, d, args) == Some((text, 1))
    ensures RefFormat(f, p, args, a) == Joined(text, RefFormat(f, d.pos + 1, args, a + 1))
  {
    AfterFields(f, p + 1, args, a, d, text, 1);
    FormatStep(f, p, args, a, text, d.pos + 1);
  }

  // How a directive is written.

  /** s is a decimal numeral of v. */
  predicate IsNumeralOf(s: string, v: nat)
  {
    s != "" && N.Decimal(s) && N.Eval(s, 10) == v
  }

  lemma DecimalWritten(v: nat)
    ensures IsNumeralOf(D.DecimalText(v), v) && (v > 0 ==> D.DecimalText(v)[0] != '0')
  {
    D.FirstDigit(v);
    D.DecimalSteps(v, v + 2);
    N.EvalDigits(v, 10, false);
    N.DigitsAreNumeral(v, 10, false);
    N.ReversedNumeral(N.Digits(v, 10, false));
  }

  /** The characters of the fields: flags; the width as a numeral; a point and the precision as
      a numeral; the letters of the length. */
  lemma FieldsWritten(fields: Fields) returns (w: string, p: string)
    ensures fields.Text()
            == fields.run
               + (w + (p + match fields.length
                           case Default => ""
                           case Short => "h"
                           case Char => "hh"
                           case Long => "l"
                           case LongLong => "ll"
                           case PtrDiff => "t"
                           case IntMax => "j"
                           case Size => "z"))
    ensures if fields.width == 0 then w == "" else IsNumeralOf(w, fields.width) && w[0] != '0'
    ensures match fields.prec
            case Absent => p == ""
            case Given(n) => p != "" && p[0] == '.' && IsNumeralOf(p[1..], n)
    ensures forall c :: (IsFlag(c) <==> c in "-+ 0#") && (IsInteger(c) <==> c in "diuxXob")
  {
    w, p := D.WidthText(fields.width), D.PrecisionText(fields.prec);
    DecimalWritten(fields.width);
    if fields.prec.Given? {
      DecimalWritten(fields.prec.value);
      assert p[1..] == D.DecimalText(fields.prec.value);
    }
  }

  // Strings and characters.

  lemma {:induction false} NoTerminator(s: string, p: nat)
    requires p <= |s| && forall k :: 0 <= k < |s| ==> s[k] != '\0'
    ensures StringEnd(s, p) == |s|
    decreases |s| - p
  {
    if p == |s| {
    } else {
      NoTerminator(s, p + 1);
    }
  }

  /** What a string or character directive is made of. */
  ghost predicate Spaced(text: string, lead: nat, t: string, trail: nat, width: nat, left: bool)
  {
    && text == N.Times(' ', lead) + t + N.Times(' ', trail) && (if left then lead == 0 else trail == 0)
    && (|t| < 0x1_0000_0000 ==> |text| == if |t| < width then width else |t|)
  }

  lemma PaddedSpaces(t: string, width: nat, left: bool) returns (lead: nat, trail: nat)
    ensures Spaced(Padded(t, |t| % UINT, width, left), lead, t, trail, width, left)
  {
    var missing := if |t| % UINT < width then width - |t| % UINT else 0;
    lead, trail := if left then 0 else missing, if left then missing else 0;
    assert N.Times(' ', 0) == "";
  }

  lemma DescribedFields(fields: Fields, pos: nat, arg: nat)
    ensures var d := fields.Described(pos, arg);
            && d.flags.left == ('-' in fields.run) && d.flags.precision == fields.prec.Given?
            && d.width == fields.width && d.pos == pos && d.arg == arg
            && d.prec == (if fields.prec.Given? then fields.prec.value else 0)
  {
  }

  lemma StringText(d: Directive, args: seq<Arg>, s: string) returns (text: string, lead: nat, t: string, trail: nat)
    requires d.arg < |args| && args[d.arg] == Chars(s) && |s| < WORD && forall k :: 0 <= k < |s| ==> s[k] != '\0'
    ensures RefConversion('s', d, args) == Some((text, 1)) && Spaced(text, lead, t, trail, d.width, d.flags.left)
    ensures t == if d.flags.precision && d.prec < |s| then s[..d.prec] else s
  {
    NoTerminator(s, 0);
    assert s[..|s|] == s;
    t := Shown(s, d.prec, d.flags);
    text := Padded(t, |t| % UINT, d.width, d.flags.left);
    lead, trail := PaddedSpaces(t, d.width, d.flags.left);
  }

  /** "%s" prints the string, or as much of it as the precision lets through, padded with
      spaces up to the width: in front, or behind with a '-'. */
  lemma StringPrints(f: string, p: nat, fields: Fields, args: seq<Arg>, a: nat, s: string)
      returns (text: string, lead: nat, t: string, trail: nat)
    requires fields.Valid() && Holds(f, p, "%" + (fields.Text() + "s"))
    requires a < |args| && args[a] == Chars(s) && |s| < WORD && forall k :: 0 <= k < |s| ==> s[k] != '\0'
    ensures var q := p + |fields.Text()| + 2;
            q <= |f| && RefFormat(f, p, args, a) == Joined(text, RefFormat(f, q, args, a + 1))
    ensures text == N.Times(' ', lead) + t + N.Times(' ', trail)
    ensures t == match fields.prec case Absent => s case Given(n) => if |s| < n then s else s[..n]
    ensures if '-' in fields.run then lead == 0 else trail == 0
    ensures |s| < 0x1_0000_0000 ==> |text| == if |t| < fields.width then fields.width else |t|
  {
    var d := fields.Described(p + 1 + |fields.Text()|, a);
    DescribedFields(fields, d.pos, a);
    text, lead, t, trail := StringText(d, args, s);
    FieldsStand(f, p, fields, 's', args, a, d);
    GoesOn(f, p, 's', args, a, d, text);
  }

  /** "%c" prints the low byte of its argument, padded in the same way. */
  lemma CharacterPrints(f: string, p: nat, fields: Fields, args: seq<Arg>, a: nat, x: nat)
      returns (text: string, lead: nat, trail: nat)
    requires fields.Valid() && Holds(f, p, "%" + (fields.Text() + "c"))
    requires a < |args| && args[a] == Word(x) && x < WORD
    ensures var q := p + |fields.Text()| + 2;
            q <= |f| && RefFormat(f, p, args, a) == Joined(text, RefFormat(f, q, args, a + 1))
    ensures text == N.Times(' ', lead) + [(x % 0x100) as char] + N.Times(' ', trail)
    ensures if '-' in fields.run then lead == 0 else trail == 0
    ensures |text| == if 1 < fields.width then fields.width else 1
  {
    var d := fields.Described(p + 1 + |fields.Text()|, a);
    DescribedFields(fields, d.pos, a);
    text := Padded([CharOf(x)], 1, d.width, d.flags.left);
    lead, trail := PaddedSpaces([CharOf(x)], d.width, d.flags.left);
    FieldsStand(f, p, fields, 'c', args, a, d);
    GoesOn(f, p, 'c', args, a, d, text);
  }

  // Integers.

  /** How many values the argument's type has. */
  function Range(l: D.Length): nat
  {
    match l
    case Char => 0x100
    case Short => 0x1_0000
    case Default => 0x1_0000_0000
    case _ => 0x1_0000_0000_0000_0000
  }

  /** The number that conversion c sees in the 64-bit word x. */
  function NumberOf(c: char, l: D.Length, x: nat): int
  {
    var low := x % Range(l);
    if (c == 'd' || c == 'i') && low >= Range(l) / 2 then low - Range(l) else low
  }

  /** The least value of a type of 32 bits or more: negating it overflows. */
  predicate Overflows(c: char, l: D.Length, x: nat)
  {
    Range(l) >= 0x1_0000_0000 && NumberOf(c, l, x) == -(Range(l) / 2)
  }

  function Radix(c: char): nat
  {
    if c == 'x' || c == 'X' then 16 else if c == 'o' then 8 else if c == 'b' then 2 else 10
  }

  /** What flags and precision ask for, under conversion c. */
  function Asked(run: string, precision: bool, c: char): Style
  {
    var signed := c == 'd' || c == 'i';
    Style('-' in run, '0' in run && !precision, signed && '+' in run, signed && ' ' in run,
          '#' in run && Radix(c) != 10, c == 'X', precision)
  }

  lemma ModulusRange(fields: Fields, pos: nat, a: nat)
    ensures Modulus(fields.Described(pos, a).flags) == Range(fields.length)
  {
  }

  lemma ValueNumber(c: char, l: D.Length, x: nat, d: Directive)
    requires IsInteger(c) && Modulus(d.flags) == Range(l) && !Overflows(c, l, x)
    ensures var v := NumberOf(c, l, x); IntegerValue(c, d.flags, x) == Some((v < 0, if v < 0 then -v else v))
  {
  }

  lemma StyleAsked(fields: Fields, c: char, pos: nat, a: nat)
    requires IsInteger(c)
    ensures StyleOf(IntegerFlags(c, fields.Described(pos, a).flags)) == Asked(fields.run, fields.prec.Given?, c)
    ensures Base(c) == Radix(c)
  {
  }

  lemma IntegerText(c: char, d: Directive, x: nat, negative: bool, value: nat) returns (t: Parts)
    requires IsInteger(c) && IntegerValue(c, d.flags, x) == Some((negative, value)) && value < WORD
    requires d.prec > 0 ==> d.flags.precision
    ensures RefIntegerText(c, d, x) == Some(t.Text())
    ensures Lawful(t, value, negative, Base(c), d.prec, d.width, StyleOf(IntegerFlags(c, d.flags)))
  {
    IntegerMeans(c, d, x, negative, value);
    t := IntegerLaw(value, negative, Base(c), d.prec, d.width, IntegerFlags(c, d.flags));
  }

  lemma IntegerConversion(c: char, d: Directive, args: seq<Arg>, x: nat, text: string)
    requires IsInteger(c) && d.arg < |args| && args[d.arg] == Word(x) && x < WORD
    requires RefIntegerText(c, d, x) == Some(text)
    ensures RefConversion(c, d, args) == Some((text, 1))
  {
  }

  lemma IntegerHere(f: string, p: nat, c: char, args: seq<Arg>, a: nat, d: Directive, x: nat,
                    negative: bool, value: nat) returns (t: Parts)
    requires p < |f| && f[p] == '%' && RefFields(f, p + 1, args, a) == Some(d) && At(f, d.pos) == c && d.arg == a
    requires IsInteger(c) && IntegerValue(c, d.flags, x) == Some((negative, value)) && value < WORD
    requires x < WORD && a < |args| && args[a] == Word(x) && (d.prec > 0 ==> d.flags.precision)
    ensures RefFormat(f, p, args, a) == Joined(t.Text(), RefFormat(f, d.pos + 1, args, a + 1))
    ensures Lawful(t, value, negative, Base(c), d.prec, d.width, StyleOf(IntegerFlags(c, d.flags)))
  {
    t := IntegerText(c, d, x, negative, value);
    IntegerConversion(c, d, args, x, t.Text());
    GoesOn(f, p, c, args, a, d, t.Text());
  }

  /** What the seven integer conversions print, whatever flags, width, precision and length:
      the number of the argument's type, in the base and the style of the directive. Every part
      of the text is determined, including where the 32 characters of the scratch buffer end. */
  lemma IntegerPrints(f: string, p: nat, fields: Fields, c: char, args: seq<Arg>, a: nat, x: nat) returns (t: Parts)
    requires fields.Valid() && IsInteger(c) && Holds(f, p, "%" + (fields.Text() + [c]))
    requires a < |args| && args[a] == Word(x) && x < WORD && !Overflows(c, fields.length, x)
    ensures var q := p + |fields.Text()| + 2;
            q <= |f| && RefFormat(f, p, args, a) == Joined(t.Text(), RefFormat(f, q, args, a + 1))
    ensures var v, given := NumberOf(c, fields.length, x), fields.prec.Given?;
            Lawful(t, if v < 0 then -v else v, v < 0, Radix(c), if given then fields.prec.value else 0, fields.width,
                   Asked(fields.run, given, c))
  {
    var d := fields.Described(p + 1 + |fields.Text()|, a);
    DescribedFields(fields, d.pos, a);
    ModulusRange(fields, d.pos, a);
    var v := NumberOf(c, fields.length, x);
    ValueNumber(c, fields.length, x, d);
    StyleAsked(fields, c, d.pos, a);
    FieldsStand(f, p, fields, c, args, a, d);
    t := IntegerHere(f, p, c, args, a, d, x, v < 0, if v < 0 then -v else v);
  }

  /** "%p" always fills with zeros and prints in upper case. */
  function PointerAsked(run: string, precision: bool): Style
  {
    Style('-' in run, true, '+' in run, ' ' in run, '#' in run, true, precision)
  }

  lemma PointerStyle(fields: Fields, pos: nat, a: nat)
    ensures StyleOf(fields.Described(pos, a).flags.(zeropad := true, uppercase := true))
            == PointerAsked(fields.run, fields.prec.Given?)
  {
  }

  lemma PointerText(d: Directive, args: seq<Arg>, x: nat, style: Style) returns (t: Parts)
    requires x < WORD && d.arg < |args| && args[d.arg] == Word(x) && (d.prec > 0 ==> d.flags.precision)
    requires style == StyleOf(d.flags.(zeropad := true, uppercase := true))
    ensures RefConversion('p', d, args) == Some((t.Text(), 1)) && Lawful(t, x, false, 16, d.prec, 16, style)
  {
    t := IntegerLaw(x, false, 16, d.prec, 16, d.flags.(zeropad := true, uppercase := true));
  }

  lemma PointerHere(f: string, p: nat, args: seq<Arg>, a: nat, d: Directive, x: nat, style: Style) returns (t: Parts)
    requires p < |f| && f[p] == '%' && RefFields(f, p + 1, args, a) == Some(d) && At(f, d.pos) == 'p' && d.arg == a
    requires x < WORD && a < |args| && args[a] == Word(x) && (d.prec > 0 ==> d.flags.precision)
    requires style == StyleOf(d.flags.(zeropad := true, uppercase := true))
    ensures RefFormat(f, p, args, a) == Joined(t.Text(), RefFormat(f, d.pos + 1, args, a + 1))
    ensures Lawful(t, x, false, 16, d.prec, 16, style)
  {
    t := PointerText(d, args, x, style);
    GoesOn(f, p, 'p', args, a, d, t.Text());
  }

  /** "%p" prints 16 digits in upper case, with leading zeros, as far as its flags let it. */
  lemma PointerPrints(f: string, p: nat, fields: Fields, args: seq<Arg>, a: nat, x: nat) returns (t: Parts)
    requires fields.Valid() && Holds(f, p, "%" + (fields.Text() + "p"))
    requires a < |args| && args[a] == Word(x) && x < WORD
    ensures var q := p + |fields.Text()| + 2;
            q <= |f| && RefFormat(f, p, args, a) == Joined(t.Text(), RefFormat(f, q, args, a + 1))
    ensures var given := fields.prec.Given?;
            Lawful(t, x, false, 16, if given then fields.prec.value else 0, 16, PointerAsked(fields.run, given))
  {
    var d := fields.Described(p + 1 + |fields.Text()|, a);
    DescribedFields(fields, d.pos, a);
    PointerStyle(fields, d.pos, a);
    FieldsStand(f, p, fields, 'p', args, a, d);
    t := PointerHere(f, p, args, a, d, x, PointerAsked(fields.run, fields.prec.Given?));
  }

  // Text without arguments.

  /** A format without '%' prints itself. */
  lemma {:induction false} TextPrints(f: string, p: nat, args: seq<Arg>, a: nat)
    requires p <= |f| && forall k :: p <= k < |f| ==> f[k] != '%' && f[k] != '\0'
    ensures RefFormat(f, p, args, a) == Some(f[p..])
    decreases |f| - p
  {
    if p == |f| {
    } else {
      TextPrints(f, p + 1, args, a);
      assert f[p..] == [f[p]] + f[p + 1..];
    }
  }

  /** The characters behind a '%' that neither are part of a directive nor end the format. */
  predicate Ordinary(c: char)
  {
    && !IsFlag(c) && !N.IsDigit(c) && !D.IsConversion(c) && !IsFloat(c)
    && c !in ['*', '.', 'l', 'h', 't', 'j', 'z', '\0']
  }

  /** "%%" prints one '%', and so does any ordinary character print itself. */
  lemma OrdinaryPrints(f: string, p: nat, c: char, args: seq<Arg>, a: nat)
    requires Holds(f, p, "%" + [c]) && Ordinary(c)
    ensures p + 2 <= |f| && RefFormat(f, p, args, a) == Joined([c], RefFormat(f, p + 2, args, a))
    ensures Ordinary('%')
  {
    HoldsConcat(f, p, "%", [c]);
    HoldsAt(f, p, "%", 0);
    HoldsAt(f, p + 1, [c], 0);
    NoFields(f, p + 1, args, a);
    DirectiveSteps(f, p + 1, args, a, p + 3);
  }

  lemma NoFields(f: string, p: nat, args: seq<Arg>, a: nat)
    requires p < |f| && Ordinary(f[p])
    ensures RefFields(f, p, args, a) == Some(Directive(FlagsTo(f, p, p), 0, 0, p, a))
  {
    FieldsSteps(f, p, args, a, p + 2);
  }
}
