/** Width and precision taken from an argument: a star stands for the number it is given. */
module StarFields {
  import opened BitOps
  import opened DirectiveRoundTrip
  import opened DirectiveText
  import opened FormatString
  import opened Printf
  import opened Substrings

  /** A C int given as a 64-bit word. */
  function Int(x: nat): int
  {
    if x % 0x1_0000_0000 < 0x8000_0000 then x % 0x1_0000_0000 else x % 0x1_0000_0000 - 0x1_0000_0000
  }

  lemma RunMinus(run: string, flags: Flags)
    requires flags == RunFlags(run)
    ensures flags.(left := true) == RunFlags(run + "-")
  {
    var more := run + "-";
    assert '-' in more by { assert more[|run|] == '-'; }
    assert forall c :: c != '-' ==> (c in more <==> c in run);
  }

  /** The directive up to the width. */
  lemma WidthStar(f: string, args: seq<Arg>, d: Directive, x: nat)
    requires d.pos <= |f| && At(f, d.pos) == '*' && d.arg < |args| && args[d.arg] == Word(x) && x < WORD
    ensures Int(x) == -0x8000_0000 <==> RefWidth(f, args, d).Undefined?
    ensures 0 <= Int(x) ==> RefWidth(f, args, d) == Some(d.(width := Int(x), pos := d.pos + 1, arg := d.arg + 1))
    ensures -0x8000_0000 < Int(x) < 0 ==>
              RefWidth(f, args, d)
              == Some(d.(flags := d.flags.(left := true), width := -Int(x), pos := d.pos + 1, arg := d.arg + 1))
  {
  }

  lemma PrecisionStar(f: string, args: seq<Arg>, d: Directive, x: nat)
    requires d.pos + 1 < |f| && At(f, d.pos) == '.' && At(f, d.pos + 1) == '*'
    requires d.arg < |args| && args[d.arg] == Word(x) && x < WORD
    ensures RefPrecision(f, args, d)
            == Some(d.(flags := d.flags.(precision := true), prec := if Int(x) > 0 then Int(x) else 0,
                       pos := d.pos + 2, arg := d.arg + 1))
  {
  }

  /** From the width on, with the flags as the width leaves them. */
  lemma BehindWidth(f: string, p: nat, args: seq<Arg>, a: nat, d: Directive, e: Directive, prec: Precision,
                    length: Length)
    requires p <= |f| && d == Directive(FlagsTo(f, p, FlagEnd(f, p)), 0, 0, FlagEnd(f, p), a)
    requires RefWidth(f, args, d) == Some(e) && e.prec == 0 && !e.flags.precision && (prec.Given? ==> prec.value < UINT)
    requires Holds(f, e.pos, PrecisionText(prec)) && Holds(f, e.pos + |PrecisionText(prec)|, LengthText(length))
    requires IsConversion(At(f, e.pos + |PrecisionText(prec)| + |LengthText(length)|))
    ensures RefFields(f, p, args, a)
            == Some(Directive(Meant(e.flags, prec, length), e.width, Value(prec),
                              e.pos + |PrecisionText(prec)| + |LengthText(length)|, e.arg))
  {
    AtLength(f, e.pos + |PrecisionText(prec)|, length);
    PrecisionRead(f, args, e, prec);
    var g := e.(flags := e.flags.(precision := prec.Given?), prec := Value(prec), pos := e.pos + |PrecisionText(prec)|);
    FieldsInOrder(f, p, args, a, d, e, g);
    LengthMeant(f, g, e.flags, prec, length);
  }

  /** A '*' for the width reads like its argument's absolute value written there, with a '-'
      flag more when the argument is negative; only the least int has no absolute value. */
  lemma StarWidth(f: string, p: nat, run: string, prec: Precision, length: Length, args: seq<Arg>, a: nat, x: nat)
      returns (fields: Fields)
    requires (forall k :: 0 <= k < |run| ==> IsFlag(run[k])) && (prec.Given? ==> prec.value < UINT)
    requires Holds(f, p, run + ("*" + (PrecisionText(prec) + LengthText(length))))
    requires IsConversion(At(f, p + |run + ("*" + (PrecisionText(prec) + LengthText(length)))|))
    requires a < |args| && args[a] == Word(x) && x < WORD && Int(x) != -0x8000_0000
    ensures fields
            == Fields(if Int(x) < 0 then run + "-" else run, if Int(x) < 0 then -Int(x) else Int(x), prec, length)
    ensures p <= |f| && RefFields(f, p, args, a)
            == Some(fields.Described(p + |run| + 1 + |PrecisionText(prec)| + |LengthText(length)|, a + 1))
  {
    var q := p + |run|;
    FieldsApart(f, p, run, "*", PrecisionText(prec), LengthText(length));
    HeldAt(f, q, "*", 0);
    FlagsRead(f, p, run);
    var d := Directive(FlagsTo(f, p, q), 0, 0, q, a);
    WidthStar(f, args, d, x);
    RunMinus(run, d.flags);
    fields := Fields(if Int(x) < 0 then run + "-" else run, if Int(x) < 0 then -Int(x) else Int(x), prec, length);
    BehindWidth(f, p, args, a, d, Directive(RunFlags(fields.run), fields.width, 0, q + 1, a + 1), prec, length);
  }

  /** A '*' for the precision reads like its argument written there, or like 0 when that is
      negative. */
  lemma StarPrecision(f: string, p: nat, run: string, w: nat, length: Length, args: seq<Arg>, a: nat, x: nat)
      returns (fields: Fields)
    requires (forall k :: 0 <= k < |run| ==> IsFlag(run[k])) && w < UINT
    requires Holds(f, p, run + (WidthText(w) + (".*" + LengthText(length))))
    requires IsConversion(At(f, p + |run + (WidthText(w) + (".*" + LengthText(length)))|))
    requires a < |args| && args[a] == Word(x) && x < WORD
    ensures fields == Fields(run, w, Given(if Int(x) > 0 then Int(x) else 0), length)
    ensures p <= |f| && RefFields(f, p, args, a)
            == Some(fields.Described(p + |run| + |WidthText(w)| + 2 + |LengthText(length)|, a + 1))
  {
    var q := p + |run|;
    FieldsApart(f, p, run, WidthText(w), ".*", LengthText(length));
    HeldAt(f, q + |WidthText(w)|, ".*", 0);
    HeldAt(f, q + |WidthText(w)|, ".*", 1);
    AtWidth(f, q, w);
    FlagsRead(f, p, run);
    var d := Directive(FlagsTo(f, p, q), 0, 0, q, a);
    WidthRead(f, args, d, w);
    var e := d.(width := w, pos := q + |WidthText(w)|);
    PrecisionStar(f, args, e, x);
    var n := if Int(x) > 0 then Int(x) else 0;
    var g := e.(flags := e.flags.(precision := true), prec := n, pos := e.pos + 2, arg := a + 1);
    FieldsInOrder(f, p, args, a, d, e, g);
    LengthMeant(f, g, d.flags, Given(n), length);
    fields := Fields(run, w, Given(n), length);
  }
}
