/** Writing a directive's fields and reading them back. */
module DirectiveText {
  import opened Numerals
  import opened Printf
  import opened FormatString
  import opened Substrings

  datatype Length = Default | Short | Char | Long | LongLong | PtrDiff | IntMax | Size

  datatype Precision = Absent | Given(value: nat)

  function LengthText(l: Length): string
  {
    match l
    case Default => ""
    case Short => "h"
    case Char => "hh"
    case Long => "l"
    case LongLong => "ll"
    case PtrDiff => "t"
    case IntMax => "j"
    case Size => "z"
  }

  /** The decimal numeral of v, behind some steps of recursion like RefDirective. */
  function DecimalText(v: nat): string
  {
    DecimalAfter(v, v + 2)
  }

  function DecimalAfter(v: nat, steps: nat): string
  {
    if steps > 0 then DecimalAfter(v, steps - 1) else Reversed(Digits(v, 10, false))
  }

  lemma {:induction false} DecimalSteps(v: nat, steps: nat)
    ensures DecimalAfter(v, steps) == Reversed(Digits(v, 10, false))
  {
    if steps == 0 {
    } else {
      DecimalSteps(v, steps - 1);
    }
  }

  function WidthText(w: nat): string
  {
    if w == 0 then "" else DecimalText(w)
  }

  function PrecisionText(p: Precision): string
  {
    if p.Absent? then "" else "." + DecimalText(p.value)
  }

  function Value(p: Precision): nat
  {
    if p.Given? then p.value else 0
  }

  function FieldsText(run: string, w: nat, p: Precision, l: Length): string
  {
    run + (WidthText(w) + (PrecisionText(p) + LengthText(l)))
  }

  /** The flags that the characters of a run stand for. */
  function RunFlags(run: string): Flags
  {
    NO_FLAGS.(zeropad := '0' in run, left := '-' in run, plus := '+' in run, space := ' ' in run, hash := '#' in run)
  }

  /** What a precision and a length field add. */
  function Meant(flags: Flags, p: Precision, l: Length): Flags
  {
    flags.(precision := p.Given?,
           shortSize := flags.shortSize || l.Short? || l.Char?, charSize := flags.charSize || l.Char?,
           longSize := flags.longSize || l.Long? || l.LongLong? || l.PtrDiff? || l.IntMax? || l.Size?,
           longLong := flags.longLong || l.LongLong?)
  }

  predicate IsConversion(c: char)
  {
    IsInteger(c) || c == 'c' || c == 's' || c == 'p'
  }

  /** The characters of a word that stands in the format. */
  lemma HeldAt(f: string, p: nat, s: string, k: nat)
    requires Holds(f, p, s) && k < |s|
    ensures At(f, p + k) == s[k]
  {
    HoldsAt(f, p, s, k);
  }

  // The run of flags.

  lemma {:induction false} FlagRun(f: string, p: nat, q: nat)
    requires p <= q <= |f| && (forall k {:trigger f[k]} :: p <= k < q ==> IsFlag(f[k])) && !IsFlag(At(f, q))
    ensures FlagEnd(f, p) == q
    decreases q - p
  {
    if p == q {
    } else {
      assert At(f, p) == f[p];
      FlagRun(f, p + 1, q);
    }
  }

  lemma RunOccurs(f: string, p: nat, run: string, c: char)
    requires Holds(f, p, run)
    ensures Occurs(f, p, p + |run|, c) <==> c in run
  {
    OccursMeaning(f, p, p + |run|, c);
    forall k | p <= k < p + |run| ensures f[k] == run[k - p] {
      HeldAt(f, p, run, k - p);
    }
    if c in run {
      var k :| 0 <= k < |run| && run[k] == c;
      assert f[p + k] == c;
    }
  }

  lemma FlagsRead(f: string, p: nat, run: string)
    requires Holds(f, p, run) && (forall k :: 0 <= k < |run| ==> IsFlag(run[k])) && !IsFlag(At(f, p + |run|))
    ensures FlagEnd(f, p) == p + |run|
    ensures FlagsTo(f, p, p + |run|) == RunFlags(run)
  {
    forall k | p <= k < p + |run| ensures IsFlag(f[k]) {
      HeldAt(f, p, run, k - p);
    }
    FlagRun(f, p, p + |run|);
    RunOccurs(f, p, run, '0');
    RunOccurs(f, p, run, '-');
    RunOccurs(f, p, run, '+');
    RunOccurs(f, p, run, ' ');
    RunOccurs(f, p, run, '#');
    FlagsToSteps(f, p, p + |run|, p + 2);
  }

  // Numbers.

  /** A positive number starts with a digit other than 0, and any number with a digit. */
  lemma {:induction false} FirstDigit(v: nat)
    ensures DecimalText(v) != "" && IsDigit(DecimalText(v)[0]) && (v > 0 ==> DecimalText(v)[0] != '0')
    decreases v
  {
    var q, c := Quot(v, 10), DigitChar(Rem(v, 10), false);
    DigitCharValue(Rem(v, 10), false);
    DecimalSteps(v, v + 2);
    if q > 0 {
      DecimalSteps(q, q + 2);
      FirstDigit(q);
      ReversedLast(Digits(q, 10, false), c);
    } else {
      ReversedLast([], c);
    }
  }

  lemma NumberRead(f: string, p: nat, v: nat)
    requires Holds(f, p, DecimalText(v)) && v < UINT && !IsDigit(At(f, p + |DecimalText(v)|))
    ensures DigitEnd(f, p) == p + |DecimalText(v)| && Number(f[p..p + |DecimalText(v)|]) == v
  {
    var s := DecimalText(v);
    DecimalSteps(v, v + 2);
    HoldsSlice(f, p, s);
    var pre, post := f[..p], f[p + |s|..];
    assert f == pre + s + post;
    AtoiUndoesPrint(pre, s, v, post);
  }

  lemma WidthRead(f: string, args: seq<Arg>, d: Directive, w: nat)
    requires d.pos <= |f| && Holds(f, d.pos, WidthText(w)) && w < UINT && d.width == 0
    requires var c := At(f, d.pos + |WidthText(w)|); !IsDigit(c) && c != '*'
    ensures RefWidth(f, args, d) == Some(d.(width := w, pos := d.pos + |WidthText(w)|))
  {
    if w > 0 {
      FirstDigit(w);
      HeldAt(f, d.pos, WidthText(w), 0);
      NumberRead(f, d.pos, w);
    }
  }

  lemma PrecisionRead(f: string, args: seq<Arg>, d: Directive, p: Precision)
    requires d.pos <= |f| && Holds(f, d.pos, PrecisionText(p)) && (p.Given? ==> p.value < UINT) && d.prec == 0
    requires var c := At(f, d.pos + |PrecisionText(p)|); !IsDigit(c) && c != '.'
    requires !d.flags.precision
    ensures RefPrecision(f, args, d)
            == Some(d.(flags := d.flags.(precision := p.Given?), prec := Value(p), pos := d.pos + |PrecisionText(p)|))
  {
    if p.Given? {
      var s := DecimalText(p.value);
      HoldsConcat(f, d.pos, ".", s);
      HeldAt(f, d.pos, ".", 0);
      FirstDigit(p.value);
      HeldAt(f, d.pos + 1, s, 0);
      NumberRead(f, d.pos + 1, p.value);
    }
  }

  lemma LengthRead(f: string, d: Directive, l: Length)
    requires d.pos <= |f| && Holds(f, d.pos, LengthText(l)) && IsConversion(At(f, d.pos + |LengthText(l)|))
    ensures RefLength(f, d)
            == d.(flags := LengthFlags(At(f, d.pos), At(f, d.pos + 1), d.flags), pos := d.pos + |LengthText(l)|)
    ensures LengthFlags(At(f, d.pos), At(f, d.pos + 1), d.flags)
            == match l
               case Default => d.flags
               case Short => d.flags.(shortSize := true)
               case Char => d.flags.(shortSize := true, charSize := true)
               case LongLong => d.flags.(longSize := true, longLong := true)
               case _ => d.flags.(longSize := true)
  {
    var s := LengthText(l);
    if |s| > 0 {
      HeldAt(f, d.pos, s, 0);
    }
    if |s| > 1 {
      HeldAt(f, d.pos, s, 1);
    }
  }

  // What stands behind each field tells the fields apart.

  predicate Plain(c: char)
  {
    !IsFlag(c) && !IsDigit(c) && c != '*'
  }

  lemma AtLength(f: string, p: nat, l: Length)
    requires Holds(f, p, LengthText(l)) && IsConversion(At(f, p + |LengthText(l)|))
    ensures Plain(At(f, p)) && At(f, p) != '.'
  {
    if !l.Default? {
      HeldAt(f, p, LengthText(l), 0);
    }
  }

  lemma AtPrecision(f: string, p: nat, prec: Precision)
    requires Holds(f, p, PrecisionText(prec)) && Plain(At(f, p + |PrecisionText(prec)|))
    ensures Plain(At(f, p))
  {
    if prec.Given? {
      HeldAt(f, p, PrecisionText(prec), 0);
    }
  }

  lemma AtWidth(f: string, p: nat, w: nat)
    requires Holds(f, p, WidthText(w)) && Plain(At(f, p + |WidthText(w)|))
    ensures !IsFlag(At(f, p))
  {
    if w > 0 {
      FirstDigit(w);
      HeldAt(f, p, WidthText(w), 0);
    }
  }

  /** The fields behind the flags. */
  lemma FieldsBehind(f: string, args: seq<Arg>, d: Directive, w: nat, prec: Precision, l: Length)
      returns (e: Directive, g: Directive)
    requires d.pos <= |f| && d.width == 0 && d.prec == 0 && !d.flags.precision
    requires w < UINT && (prec.Given? ==> prec.value < UINT)
    requires Holds(f, d.pos, WidthText(w)) && Holds(f, d.pos + |WidthText(w)|, PrecisionText(prec))
    requires Holds(f, d.pos + |WidthText(w)| + |PrecisionText(prec)|, LengthText(l))
    requires IsConversion(At(f, d.pos + |WidthText(w)| + |PrecisionText(prec)| + |LengthText(l)|))
    ensures RefWidth(f, args, d) == Some(e) && RefPrecision(f, args, e) == Some(g)
    ensures g.flags == d.flags.(precision := prec.Given?) && g.width == w && g.prec == Value(prec) && g.arg == d.arg
    ensures g.pos == d.pos + |WidthText(w)| + |PrecisionText(prec)|
  {
    AtLength(f, d.pos + |WidthText(w)| + |PrecisionText(prec)|, l);
    AtPrecision(f, d.pos + |WidthText(w)|, prec);
    WidthRead(f, args, d, w);
    e := d.(width := w, pos := d.pos + |WidthText(w)|);
    PrecisionRead(f, args, e, prec);
    g := e.(flags := e.flags.(precision := prec.Given?), prec := Value(prec), pos := e.pos + |PrecisionText(prec)|);
  }

  lemma FieldsInOrder(f: string, p: nat, args: seq<Arg>, a: nat, d: Directive, e: Directive, g: Directive)
    requires p <= |f| && d == Directive(FlagsTo(f, p, FlagEnd(f, p)), 0, 0, FlagEnd(f, p), a)
    requires RefWidth(f, args, d) == Some(e) && RefPrecision(f, args, e) == Some(g)
    ensures RefFields(f, p, args, a) == Some(RefLength(f, g))
  {
    FieldsSteps(f, p, args, a, p + 2);
  }

  lemma LengthMeant(f: string, g: Directive, flags: Flags, prec: Precision, l: Length)
    requires g.pos <= |f| && Holds(f, g.pos, LengthText(l)) && IsConversion(At(f, g.pos + |LengthText(l)|))
    requires g.flags == flags.(precision := prec.Given?)
    ensures RefLength(f, g) == Directive(Meant(flags, prec, l), g.width, g.prec, g.pos + |LengthText(l)|, g.arg)
  {
    LengthRead(f, g, l);
    FlagsJoined(flags, prec, l, LengthFlags(At(f, g.pos), At(f, g.pos + 1), g.flags));
  }

  lemma FlagsJoined(flags: Flags, prec: Precision, l: Length, joined: Flags)
    requires var g := flags.(precision := prec.Given?);
             joined == match l
                       case Default => g
                       case Short => g.(shortSize := true)
                       case Char => g.(shortSize := true, charSize := true)
                       case LongLong => g.(longSize := true, longLong := true)
                       case _ => g.(longSize := true)
    ensures joined == Meant(flags, prec, l)
  {
  }

  lemma FieldsApart(f: string, p: nat, run: string, wt: string, pt: string, lt: string)
    requires Holds(f, p, run + (wt + (pt + lt)))
    ensures Holds(f, p, run) && Holds(f, p + |run|, wt) && Holds(f, p + |run| + |wt|, pt)
    ensures Holds(f, p + |run| + |wt| + |pt|, lt)
  {
    HoldsConcat(f, p, run, wt + (pt + lt));
    HoldsConcat(f, p + |run|, wt, pt + lt);
    HoldsConcat(f, p + |run| + |wt|, pt, lt);
  }

  /** The fields other than the flags, in front of a conversion. */
  ghost predicate Behind(f: string, q: nat, w: nat, prec: Precision, l: Length)
  {
    && w < UINT && (prec.Given? ==> prec.value < UINT)
    && Holds(f, q, WidthText(w)) && Holds(f, q + |WidthText(w)|, PrecisionText(prec))
    && Holds(f, q + |WidthText(w)| + |PrecisionText(prec)|, LengthText(l))
    && IsConversion(At(f, q + |WidthText(w)| + |PrecisionText(prec)| + |LengthText(l)|))
  }

  lemma FieldsUpToLength(f: string, p: nat, q: nat, w: nat, prec: Precision, l: Length, args: seq<Arg>, a: nat)
      returns (g: Directive)
    requires p <= q <= |f| && FlagEnd(f, p) == q && !FlagsTo(f, p, q).precision && Behind(f, q, w, prec, l)
    ensures g.pos == q + |WidthText(w)| + |PrecisionText(prec)| <= |f|
            && RefFields(f, p, args, a) == Some(RefLength(f, g))
    ensures g.flags == FlagsTo(f, p, q).(precision := prec.Given?) && g.width == w && g.prec == Value(prec)
            && g.arg == a
  {
    var d := Directive(FlagsTo(f, p, q), 0, 0, q, a);
    var e;
    e, g := FieldsBehind(f, args, d, w, prec, l);
    FieldsInOrder(f, p, args, a, d, e, g);
  }

  lemma FieldsFound(f: string, p: nat, run: string, w: nat, prec: Precision, l: Length)
    requires (forall k :: 0 <= k < |run| ==> IsFlag(run[k])) && w < UINT && (prec.Given? ==> prec.value < UINT)
    requires Holds(f, p, FieldsText(run, w, prec, l)) && IsConversion(At(f, p + |FieldsText(run, w, prec, l)|))
    ensures p + |run| <= |f| && Behind(f, p + |run|, w, prec, l)
    ensures FlagEnd(f, p) == p + |run| && FlagsTo(f, p, p + |run|) == RunFlags(run)
  {
    var q := p + |run|;
    FieldsApart(f, p, run, WidthText(w), PrecisionText(prec), LengthText(l));
    AtLength(f, q + |WidthText(w)| + |PrecisionText(prec)|, l);
    AtPrecision(f, q + |WidthText(w)|, prec);
    AtWidth(f, q, w);
    FlagsRead(f, p, run);
  }

  /** The fields in front of the length, with flags that are those of the run. */
  lemma FieldsBegin(f: string, p: nat, run: string, w: nat, prec: Precision, l: Length, args: seq<Arg>, a: nat)
      returns (flags: Flags, g: Directive)
    requires (forall k :: 0 <= k < |run| ==> IsFlag(run[k])) && w < UINT && (prec.Given? ==> prec.value < UINT)
    requires Holds(f, p, FieldsText(run, w, prec, l)) && IsConversion(At(f, p + |FieldsText(run, w, prec, l)|))
    ensures flags == RunFlags(run) && g == Directive(flags.(precision := prec.Given?), w, Value(prec), g.pos, a)
    ensures g.pos + |LengthText(l)| == p + |FieldsText(run, w, prec, l)| && g.pos <= |f|
            && Holds(f, g.pos, LengthText(l))
    ensures RefFields(f, p, args, a) == Some(RefLength(f, g))
  {
    FieldsFound(f, p, run, w, prec, l);
    flags := FlagsTo(f, p, p + |run|);
    g := FieldsUpToLength(f, p, p + |run|, w, prec, l, args, a);
  }

  /** Reading undoes writing: from any place in any format where these fields stand in front
      of a conversion, the interpreter reads these flags, this width and this precision. */
  lemma FieldsRead(f: string, p: nat, run: string, w: nat, prec: Precision, l: Length, args: seq<Arg>, a: nat)
    requires (forall k :: 0 <= k < |run| ==> IsFlag(run[k])) && w < UINT && (prec.Given? ==> prec.value < UINT)
    requires Holds(f, p, FieldsText(run, w, prec, l)) && IsConversion(At(f, p + |FieldsText(run, w, prec, l)|))
    ensures RefFields(f, p, args, a)
            == Some(Directive(Meant(RunFlags(run), prec, l), w, Value(prec), p + |FieldsText(run, w, prec, l)|, a))
  {
    var flags, g := FieldsBegin(f, p, run, w, prec, l, args, a);
    LengthMeant(f, g, flags, prec, l);
  }
}
