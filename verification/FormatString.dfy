/** The format interpreter of printf.c: its directives, their arguments, and the text they
    stand for, with no regard to where the text goes. */
module FormatString {
  import opened BitOps
  import opened Numerals
  import opened Printf

  const UINT := 0x1_0000_0000

  /** A variadic argument: a 64-bit word, or the characters a char pointer points to. As
      everywhere in C, a string ends at its first NUL. */
  datatype Arg = Word(w: nat) | Chars(s: string)

  datatype Option<+T> = Undefined | Some(value: T) {
    predicate IsFailure() {
      Undefined?
    }
    function PropagateFailure<U>(): Option<U>
      requires IsFailure()
    {
      Undefined
    }
    function Extract(): T
      requires Some?
    {
      value
    }
  }

  /** The state of the interpreter within a directive. */
  datatype Directive = Directive(flags: Flags, width: nat, prec: nat, pos: nat, arg: nat)

  // C integers.

  function Signed(w: nat, modulus: nat): int
    requires modulus > 0
  {
    var low := w % modulus;
    if low >= modulus / 2 then low - modulus else low
  }

  function WordArg(args: seq<Arg>, i: nat): Option<nat>
  {
    if i < |args| && args[i].Word? && args[i].w < WORD then Some(args[i].w) else Undefined
  }

  /** The character at p; the terminator stands behind the last one. */
  function At(f: string, p: nat): char
  {
    if p < |f| then f[p] else '\0'
  }

  /** The first terminator from p on. */
  function StringEnd(s: string, p: nat): (q: nat)
    requires p <= |s|
    ensures p <= q <= |s| && At(s, q) == '\0'
    decreases |s| - p
  {
    if At(s, p) == '\0' then p else StringEnd(s, p + 1)
  }

  function Contents(s: string): string
  {
    s[..StringEnd(s, 0)]
  }

  // Flags: the characters of one run, in any order and number.

  predicate IsFlag(c: char)
  {
    c == '0' || c == '-' || c == '+' || c == ' ' || c == '#'
  }

  function FlagEnd(f: string, p: nat): (q: nat)
    requires p <= |f|
    ensures p <= q <= |f|
    decreases |f| - p
  {
    if IsFlag(At(f, p)) then FlagEnd(f, p + 1) else p
  }

  /** Character c occurs between p and q. */
  predicate Occurs(f: string, p: nat, q: nat, c: char)
    requires p <= q <= |f|
  {
    p < q && (f[q - 1] == c || Occurs(f, p, q - 1, c))
  }

  lemma {:induction false} OccursMeaning(f: string, p: nat, q: nat, c: char)
    requires p <= q <= |f|
    ensures Occurs(f, p, q, c) <==> exists k {:trigger f[k]} :: p <= k < q && f[k] == c
  {
    if p == q {
    } else {
      OccursMeaning(f, p, q - 1, c);
    }
  }

  /** A flag is set exactly when its character occurs in the run. Like RefDirective, the
      definition sits behind some steps of recursion. */
  function FlagsTo(f: string, p: nat, q: nat): Flags
    requires p <= q <= |f|
  {
    FlagsToAfter(f, p, q, p + 2)
  }

  function FlagsToAfter(f: string, p: nat, q: nat, steps: nat): Flags
    requires p <= q <= |f|
  {
    if steps > 0 then FlagsToAfter(f, p, q, steps - 1)
    else NO_FLAGS.(zeropad := Occurs(f, p, q, '0'), left := Occurs(f, p, q, '-'), plus := Occurs(f, p, q, '+'),
              space := Occurs(f, p, q, ' '), hash := Occurs(f, p, q, '#'))
  }

  lemma {:induction false} FlagsToSteps(f: string, p: nat, q: nat, steps: nat)
    requires p <= q <= |f|
    ensures FlagsToAfter(f, p, q, steps)
            == NO_FLAGS.(zeropad := Occurs(f, p, q, '0'), left := Occurs(f, p, q, '-'), plus := Occurs(f, p, q, '+'),
                         space := Occurs(f, p, q, ' '), hash := Occurs(f, p, q, '#'))
  {
    if steps == 0 {
    } else {
      FlagsToSteps(f, p, q, steps - 1);
    }
  }

  function SetFlag(flags: Flags, c: char): Flags
  {
    flags.(zeropad := flags.zeropad || c == '0', left := flags.left || c == '-', plus := flags.plus || c == '+',
           space := flags.space || c == ' ', hash := flags.hash || c == '#')
  }

  method EvaluateFlag(flags: Flags, c: char) returns (more: bool, flags': Flags)
    ensures more == IsFlag(c) && (more ==> flags' == SetFlag(flags, c))
  {
    more, flags' := true, flags;
    if c == '0' {
      flags' := flags.(zeropad := true);
      assert flags' == SetFlag(flags, c);
    } else if c == '-' {
      flags' := flags.(left := true);
      assert flags' == SetFlag(flags, c);
    } else if c == '+' {
      flags' := flags.(plus := true);
      assert flags' == SetFlag(flags, c);
    } else if c == ' ' {
      flags' := flags.(space := true);
      assert flags' == SetFlag(flags, c);
    } else if c == '#' {
      flags' := flags.(hash := true);
      assert flags' == SetFlag(flags, c);
    } else {
      more := false;
    }
  }

  lemma FlagsNext(f: string, p: nat, q: nat)
    requires p <= q < |f| && IsFlag(f[q])
    ensures FlagsTo(f, p, q + 1) == SetFlag(FlagsTo(f, p, q), f[q])
    ensures FlagEnd(f, q) == FlagEnd(f, q + 1)
  {
    FlagsToSteps(f, p, q + 1, p + 2);
    FlagsToSteps(f, p, q, p + 2);
  }

  method ParseFlags(f: string, p: nat) returns (flags: Flags, q: nat)
    requires p <= |f|
    ensures q == FlagEnd(f, p) && flags == FlagsTo(f, p, q)
  {
    flags, q := NO_FLAGS, p;
    FlagsToSteps(f, p, p, p + 2);
    var more, next := EvaluateFlag(flags, At(f, q));
    while more
      invariant p <= q <= |f| && FlagEnd(f, q) == FlagEnd(f, p) && flags == FlagsTo(f, p, q)
      invariant more == IsFlag(At(f, q)) && (more ==> q < |f| && next == SetFlag(flags, f[q]))
      decreases |f| - q
    {
      FlagsNext(f, p, q);
      flags, q := next, q + 1;
      more, next := EvaluateFlag(flags, At(f, q));
    }
  }

  // Numbers: the decimal value of one run of digits, in 32 bits.

  function DigitEnd(f: string, p: nat): (q: nat)
    requires p <= |f|
    ensures p <= q <= |f|
    decreases |f| - p
  {
    if IsDigit(At(f, p)) then DigitEnd(f, p + 1) else p
  }

  function Number(run: string): (v: nat)
    ensures v < UINT
  {
    Eval(run, 10) % UINT
  }

  lemma NumberStep(run: string, c: char)
    requires IsDigit(c)
    ensures Number(run + [c]) == (Number(run) * 10 + (c - '0') as nat) % UINT
  {
    EvalAppend(run, c, 10);
    MulIsProduct(Eval(run, 10), 10);
    ModStep(Eval(run, 10), (c - '0') as nat);
  }

  lemma ModStep(e: nat, d: nat)
    ensures (e * 10 + d) % UINT == (e % UINT * 10 + d) % UINT
  {
  }

  lemma SliceStep(f: string, p: nat, q: nat)
    requires p <= q < |f|
    ensures f[p..q + 1] == f[p..q] + [f[q]]
  {
  }

  method Atoi(f: string, p: nat) returns (v: nat, q: nat)
    requires p <= |f|
    ensures q == DigitEnd(f, p) && v == Number(f[p..q])
  {
    v, q := 0, p;
    while IsDigit(At(f, q))
      invariant p <= q <= |f| && DigitEnd(f, q) == DigitEnd(f, p) && v == Number(f[p..q])
      decreases |f| - q
    {
      NumberStep(f[p..q], f[q]);
      SliceStep(f, p, q);
      v := (v * 10 + (f[q] - '0') as nat) % UINT;
      q := q + 1;
    }
  }

  /** _atoi undoes decimal output of a 32-bit value: the run of digits it takes is that
      output, up to the first non-digit, and its number is the value. */
  lemma AtoiUndoesPrint(pre: string, s: string, v: nat, post: string)
    requires v < UINT && (post == "" || !IsDigit(post[0])) && s == Reversed(Digits(v, 10, false))
    ensures Number(s) == v && DigitEnd(pre + s + post, |pre|) == |pre| + |s|
            && (pre + s + post)[|pre|..|pre| + |s|] == s
  {
    PrintedNumber(s, v);
    DigitRun(pre, s, post);
  }

  lemma PrintedNumber(s: string, v: nat)
    requires v < UINT && s == Reversed(Digits(v, 10, false))
    ensures Decimal(s) && Number(s) == v
  {
    EvalDigits(v, 10, false);
    DigitsAreNumeral(v, 10, false);
    ReversedNumeral(Digits(v, 10, false));
    SmallNumber(s, v);
  }

  lemma SmallNumber(s: string, v: nat)
    requires v < UINT && Eval(s, 10) == v
    ensures Number(s) == v
  {
  }

  lemma {:induction false} DigitRun(pre: string, s: string, post: string)
    requires Decimal(s) && (post == "" || !IsDigit(post[0]))
    ensures DigitEnd(pre + s + post, |pre|) == |pre| + |s|
    decreases |s|
  {
    if s == [] {
      assert pre + s + post == pre + post;
      assert post != "" ==> (pre + post)[|pre|] == post[0];
    } else {
      DigitRun(pre + [s[0]], s[1..], post);
      assert pre + [s[0]] + s[1..] + post == pre + s + post;
      assert (pre + s + post)[|pre|] == s[0];
    }
  }

  // The fields of a directive.

  function RefWidth(f: string, args: seq<Arg>, d: Directive): (r: Option<Directive>)
    requires d.pos <= |f|
    ensures r.Some? ==> d.pos <= r.value.pos <= |f|
  {
    if IsDigit(At(f, d.pos)) then
      var q := DigitEnd(f, d.pos);
      Some(d.(width := Number(f[d.pos..q]), pos := q))
    else if At(f, d.pos) == '*' then
      var a :- WordArg(args, d.arg);
      var w := Signed(a, UINT);
      if w == -0x8000_0000 then Undefined
      else if w < 0 then Some(d.(flags := d.flags.(left := true), width := -w, pos := d.pos + 1, arg := d.arg + 1))
      else Some(d.(width := w, pos := d.pos + 1, arg := d.arg + 1))
    else Some(d)
  }

  function RefPrecision(f: string, args: seq<Arg>, d: Directive): (r: Option<Directive>)
    requires d.pos <= |f|
    ensures r.Some? ==> d.pos <= r.value.pos <= |f|
  {
    if At(f, d.pos) != '.' then Some(d)
    else
      var e := d.(flags := d.flags.(precision := true), pos := d.pos + 1);
      if IsDigit(At(f, e.pos)) then
        var q := DigitEnd(f, e.pos);
        Some(e.(prec := Number(f[e.pos..q]), pos := q))
      else if At(f, e.pos) == '*' then
        var a :- WordArg(args, e.arg);
        Some(e.(prec := if Signed(a, UINT) > 0 then Signed(a, UINT) else 0, pos := e.pos + 1, arg := e.arg + 1))
      else Some(e)
  }

  function LengthFlags(c: char, c2: char, flags: Flags): Flags
  {
    if c == 'l' then flags.(longSize := true, longLong := flags.longLong || c2 == 'l')
    else if c == 'h' then flags.(shortSize := true, charSize := flags.charSize || c2 == 'h')
    else if c == 't' || c == 'j' || c == 'z' then flags.(longSize := true)
    else flags
  }

  function LengthSize(c: char, c2: char): (n: nat)
    ensures n <= 2 && (c == '\0' ==> n == 0) && (c2 == '\0' ==> n <= 1)
  {
    if c == 'l' || c == 'h' then (if c2 == c then 2 else 1)
    else if c == 't' || c == 'j' || c == 'z' then 1
    else 0
  }

  function RefLength(f: string, d: Directive): (e: Directive)
    requires d.pos <= |f|
    ensures d.pos <= e.pos <= |f|
  {
    var c, c2 := At(f, d.pos), At(f, d.pos + 1);
    d.(flags := LengthFlags(c, c2, d.flags), pos := d.pos + LengthSize(c, c2))
  }

  // Conversions.

  predicate IsInteger(c: char)
  {
    c == 'd' || c == 'i' || c == 'u' || c == 'x' || c == 'X' || c == 'o' || c == 'b'
  }

  predicate IsFloat(c: char)
  {
    c == 'f' || c == 'F' || c == 'e' || c == 'E' || c == 'g' || c == 'G'
  }

  function Base(c: char): (b: nat)
    ensures b == 2 || b == 8 || b == 10 || b == 16
  {
    if c == 'x' || c == 'X' then 16 else if c == 'o' then 8 else if c == 'b' then 2 else 10
  }

  /** The flags as conversion c leaves them. */
  function IntegerFlags(c: char, flags: Flags): Flags
  {
    var signed := c == 'i' || c == 'd';
    flags.(hash := flags.hash && Base(c) != 10,
           uppercase := flags.uppercase || c == 'X',
           plus := flags.plus && signed,
           space := flags.space && signed,
           zeropad := flags.zeropad && !flags.precision)
  }

  /** The range of the argument's type. */
  function Modulus(flags: Flags): (m: nat)
    ensures m > 0
  {
    if flags.longLong || flags.longSize then WORD
    else if flags.charSize then 0x100
    else if flags.shortSize then 0x10000
    else UINT
  }

  /** Sign and magnitude. Negating the least value of its type overflows, which C leaves undefined. */
  function IntegerValue(c: char, flags: Flags, w: nat): Option<(bool, nat)>
  {
    if c == 'i' || c == 'd' then
      var v := Signed(w, Modulus(flags));
      if Modulus(flags) >= UINT && v == -(Modulus(flags) / 2) then Undefined
      else Some((v < 0, if v < 0 then -v else v))
    else Some((false, w % Modulus(flags)))
  }

  /** How much of the string a precision lets through. */
  function Shown(s: string, prec: nat, flags: Flags): string
  {
    if flags.precision then s[..Min(|s|, prec)] else s
  }

  function Padded(s: string, have: nat, width: nat, left: bool): string
  {
    (if left then [] else Pad(have, width)) + s + (if left then Pad(have, width) else [])
  }

  function CharOf(w: nat): char
  {
    (w % 0x100) as char
  }

  /** The text of an integer. It sits behind some steps of recursion, so that proofs do not
      unfold it. */
  function RefIntegerText(c: char, d: Directive, w: nat): Option<string>
  {
    RefIntegerAfter(c, d, w, d.width + 2)
  }

  function RefIntegerAfter(c: char, d: Directive, w: nat, steps: nat): Option<string>
  {
    if steps > 0 then RefIntegerAfter(c, d, w, steps - 1)
    else
      var v :- IntegerValue(c, d.flags, w);
      Some(NtoaText(v.1, v.0, Base(c), d.prec, d.width, IntegerFlags(c, d.flags)))
  }

  lemma {:induction false} IntegerSteps(c: char, d: Directive, w: nat, steps: nat)
    ensures RefIntegerAfter(c, d, w, steps) == RefIntegerAfter(c, d, w, 0)
  {
    if steps == 0 {
    } else {
      IntegerSteps(c, d, w, steps - 1);
    }
  }

  lemma IntegerMeans(c: char, d: Directive, w: nat, negative: bool, value: nat)
    requires IntegerValue(c, d.flags, w) == Some((negative, value))
    ensures RefIntegerText(c, d, w)
            == Some(NtoaText(value, negative, Base(c), d.prec, d.width, IntegerFlags(c, d.flags)))
  {
    IntegerSteps(c, d, w, d.width + 2);
  }

  /** The text of conversion c, and how many arguments it takes. */
  function RefConversion(c: char, d: Directive, args: seq<Arg>): Option<(string, nat)>
  {
    if IsInteger(c) then
      var w :- WordArg(args, d.arg);
      var s :- RefIntegerText(c, d, w);
      Some((s, 1))
    else if c == 'c' then
      var w :- WordArg(args, d.arg);
      Some((Padded([CharOf(w)], 1, d.width, d.flags.left), 1))
    else if c == 's' then
      if d.arg < |args| && args[d.arg].Chars? && |args[d.arg].s| < WORD then
        var s := Shown(Contents(args[d.arg].s), d.prec, d.flags);
        Some((Padded(s, |s| % UINT, d.width, d.flags.left), 1))
      else Undefined
    else if c == 'p' then
      var w :- WordArg(args, d.arg);
      Some((NtoaText(w, false, 16, d.prec, 16, d.flags.(zeropad := true, uppercase := true)), 1))
    else if IsFloat(c) || c == '\0' then Undefined
    else Some(([c], 0))
  }

  /** Flags, width, precision and length from p on. It sits behind some steps of recursion, so
      that proofs do not unfold it. */
  function RefFields(f: string, p: nat, args: seq<Arg>, a: nat): (r: Option<Directive>)
    requires p <= |f|
    ensures r.Some? ==> p <= r.value.pos <= |f|
  {
    RefFieldsAfter(f, p, args, a, p + 2)
  }

  function RefFieldsAfter(f: string, p: nat, args: seq<Arg>, a: nat, steps: nat): (r: Option<Directive>)
    requires p <= |f|
    ensures r.Some? ==> p <= r.value.pos <= |f|
  {
    if steps > 0 then RefFieldsAfter(f, p, args, a, steps - 1)
    else
      var q := FlagEnd(f, p);
      var d :- RefWidth(f, args, Directive(FlagsTo(f, p, q), 0, 0, q, a));
      var e :- RefPrecision(f, args, d);
      Some(RefLength(f, e))
  }

  lemma {:induction false} FieldsSteps(f: string, p: nat, args: seq<Arg>, a: nat, steps: nat)
    requires p <= |f|
    ensures RefFieldsAfter(f, p, args, a, steps) == RefFieldsAfter(f, p, args, a, 0)
  {
    if steps == 0 {
    } else {
      FieldsSteps(f, p, args, a, steps - 1);
    }
  }

  /** One directive, from behind its '%': its text, and where format and arguments go on.
      Like RefFields it sits behind some steps of recursion. */
  function RefDirective(f: string, p: nat, args: seq<Arg>, a: nat): (r: Option<(string, nat, nat)>)
    requires p <= |f|
    ensures r.Some? ==> p < r.value.1
  {
    RefDirectiveAfter(f, p, args, a, p + 2)
  }

  function RefDirectiveAfter(f: string, p: nat, args: seq<Arg>, a: nat, steps: nat): (r: Option<(string, nat, nat)>)
    requires p <= |f|
    ensures r.Some? ==> p < r.value.1
  {
    if steps > 0 then RefDirectiveAfter(f, p, args, a, steps - 1)
    else
      var d :- RefFields(f, p, args, a);
      var text :- RefConversion(At(f, d.pos), d, args);
      Some((text.0, d.pos + 1, d.arg + text.1))
  }

  lemma {:induction false} DirectiveSteps(f: string, p: nat, args: seq<Arg>, a: nat, steps: nat)
    requires p <= |f|
    ensures RefDirectiveAfter(f, p, args, a, steps) == RefDirectiveAfter(f, p, args, a, 0)
  {
    if steps == 0 {
    } else {
      DirectiveSteps(f, p, args, a, steps - 1);
    }
  }

  lemma AfterFields(f: string, p: nat, args: seq<Arg>, a: nat, d: Directive, text: string, taken: nat)
    requires p <= |f| && RefFields(f, p, args, a) == Some(d)
             && RefConversion(At(f, d.pos), d, args) == Some((text, taken))
    ensures RefDirective(f, p, args, a) == Some((text, d.pos + 1, d.arg + taken))
  {
    DirectiveSteps(f, p, args, a, p + 2);
  }

  /** The whole text of format f from p on, with the arguments from a on. */
  function RefFormat(f: string, p: nat, args: seq<Arg>, a: nat): Option<string>
    decreases |f| - p
  {
    if At(f, p) == '\0' then Some([])
    else if f[p] != '%' then
      var rest :- RefFormat(f, p + 1, args, a);
      Some([f[p]] + rest)
    else
      var d :- RefDirective(f, p + 1, args, a);
      var rest :- RefFormat(f, d.1, args, d.2);
      Some(d.0 + rest)
  }
}
