/** What printf.c prints for an integer, part by part and character by character. */
module IntegerLaws {
  import opened BitOps
  import opened Numerals
  import opened PrintedIntegers
  import opened Printf

  // Digits.

  lemma DigitLetters(d: nat, upper: bool)
    requires d < 36
    ensures DigitChar(d, upper)
            == (if upper then "0123456789ABCDEFGHIJKLMNOPQRSTUVWXYZ" else "0123456789abcdefghijklmnopqrstuvwxyz")[d]
    ensures DigitValue(DigitChar(d, upper)) == d
  {
    DigitCharValue(d, upper);
  }

  /** The digits of bases up to 16, in one case. */
  predicate DigitsOfCase(s: string, upper: bool)
  {
    forall k :: 0 <= k < |s| ==> '0' <= s[k] <= '9' || (if upper then 'A' <= s[k] <= 'F' else 'a' <= s[k] <= 'f')
  }

  lemma {:induction false} DigitsInCase(v: nat, base: nat, upper: bool, room: nat)
    requires 2 <= base <= 16
    ensures DigitsOfCase(DigitsIn(v, base, upper, room), upper)
    decreases room
  {
    if room == 0 {
    } else if Quot(v, base) > 0 {
      DigitsInCase(Quot(v, base), base, upper, room - 1);
    }
  }

  lemma ReversedCase(s: string, upper: bool)
    requires DigitsOfCase(s, upper)
    ensures DigitsOfCase(Reversed(s), upper)
  {
    forall k | 0 <= k < |s| ensures Reversed(s)[k] == s[|s| - 1 - k] {
      ReversedAt(s, k);
    }
  }

  function HigherDigits(v: nat, upper: bool, n: nat): string
    requires n > 0
  {
    if v / 2 == 0 then [] else DigitsIn(v / 2, 2, upper, n - 1)
  }

  lemma BinaryDigits(v: nat, upper: bool, n: nat)
    requires n > 0
    ensures DigitsIn(v, 2, upper, n) == [DigitChar(v % 2, upper)] + HigherDigits(v, upper, n)
  {
    DivMod(v, 2);
  }

  /** In base 2 the digits that fit are those of the low bits. */
  lemma {:induction false} LowBits(v: nat, upper: bool, n: nat)
    ensures Eval(Reversed(DigitsIn(v, 2, upper, n)), 2) == Low(v, n)
    decreases n
  {
    if n == 0 {
    } else {
      BinaryDigits(v, upper, n);
      LowBits(v / 2, upper, n - 1);
      if v / 2 == 0 {
        LowOfZero(n - 1);
      }
      LowStep(v, upper, n, HigherDigits(v, upper, n));
    }
  }

  lemma LowStep(v: nat, upper: bool, n: nat, rest: string)
    requires n > 0 && Eval(Reversed(rest), 2) == Low(v / 2, n - 1)
    ensures Eval(Reversed([DigitChar(v % 2, upper)] + rest), 2) == Low(v, n)
  {
    OneMoreBit(rest, v % 2, upper);
  }

  lemma LowOfZero(n: nat)
    ensures Low(0, n) == 0
  {
    LowIdentity(0, n);
  }

  lemma Low32(v: nat)
    ensures Low(v, 32) == v % 0x1_0000_0000
  {
    FewBits();
    LowSplit(v, 32);
    ShlThirtyTwo(Shr(v, 32));
    Remainder(Low(v, 32), Shr(v, 32));
  }

  lemma Remainder(low: nat, h: nat)
    requires low < 0x1_0000_0000
    ensures (low + 0x1_0000_0000 * h) % 0x1_0000_0000 == low
  {
  }

  lemma ShlThirtyTwo(h: nat)
    ensures Shl(h, 32) == 0x1_0000_0000 * h
  {
    ShlSum(h, 8, 8);
    ShlSum(h, 8, 16);
    ShlSum(h, 8, 24);
    ShlEight(h);
    ShlEight(Shl(h, 8));
    ShlEight(Shl(h, 16));
    ShlEight(Shl(h, 24));
  }

  lemma {:induction false} ShlSum(a: nat, m: nat, n: nat)
    ensures Shl(Shl(a, n), m) == Shl(a, m + n)
  {
    if m == 0 {
    } else {
      ShlSum(a, m - 1, n);
    }
  }

  /** The digits of value: its numeral without leading zeros, in base 2 that of its low 32
      bits; nothing at all for 0 with a precision. */
  ghost predicate AreDigits(digits: string, value: nat, base: nat, precision: bool, upper: bool)
  {
    && |digits| <= 32 && DigitsOfCase(digits, upper)
    && Eval(digits, base) == (if base == 2 then value % 0x1_0000_0000 else value)
    && (value == 0 ==> digits == if precision then "" else "0")
    && (value > 0 && (base == 2 ==> value < 0x1_0000_0000) ==> digits != "" && digits[0] != '0')
  }

  lemma DigitsLaw(value: nat, base: nat, flags: Flags)
    requires Printable(value, base)
    ensures AreDigits(Plain(value, base, flags), value, base, flags.precision, flags.uppercase)
  {
    var upper, digits := flags.uppercase, NtoaDigits(value, base, flags);
    DigitsInCase(value, base, upper, NTOA_BUFFER_SIZE);
    ReversedCase(digits, upper);
    DigitsRoom(value, base, upper, NTOA_BUFFER_SIZE);
    if value == 0 {
      ZeroDigit(base, flags);
    } else {
      ValueLaw(value, base, upper);
    }
  }

  lemma ZeroDigit(base: nat, flags: Flags)
    requires 2 <= base <= 16
    ensures Plain(0, base, flags) == if flags.precision then "" else "0"
    ensures Eval(Plain(0, base, flags), base) == 0
  {
    if !flags.precision {
      ReversedLast([], '0');
      EvalAppend([], '0', base);
      assert NtoaDigits(0, base, flags) == ['0'] + [];
      assert [] + ['0'] == "0";
    }
  }

  lemma ValueLaw(value: nat, base: nat, upper: bool)
    requires Printable(value, base) && value > 0
    ensures var s := Reversed(DigitsIn(value, base, upper, NTOA_BUFFER_SIZE));
            && Eval(s, base) == (if base == 2 then value % 0x1_0000_0000 else value)
            && ((base == 2 ==> value < 0x1_0000_0000) ==> s != "" && s[0] != '0')
  {
    if base == 2 {
      LowBits(value, upper, NTOA_BUFFER_SIZE);
      Low32(value);
    }
    if base >= 8 || value < 0x1_0000_0000 {
      DigitsFit(value, base, upper);
      AllDigitsIn(value, base, upper, NTOA_BUFFER_SIZE);
      EvalDigits(value, base, upper);
      LeadingDigit(value, base, upper);
    }
  }

  // Around the digits.

  /** How many zeros stand in front of the digits: as many as precision or width ask for and
      the 32 characters of the scratch buffer leave room for. */
  ghost predicate ZerosLaw(zeros: nat, digits: nat, prec: nat, width: nat, left: bool, zeropad: bool)
  {
    var asked := if left then 0 else if zeropad && width > prec then width else prec;
    digits + zeros == if asked <= digits then digits else if asked <= 32 then asked else 32
  }

  /** What '#' takes off the front again: one character, or two in base 16, when there is no
      precision and the width is the number of characters. */
  function CutLaw(len: nat, base: nat, hash: bool, precision: bool, width: nat): nat
  {
    if hash && !precision && len > 0 && len == width then if base == 16 && len > 1 then 2 else 1 else 0
  }

  /** What '#' puts there, as far as there is room in front of used characters. */
  function PrefixLaw(used: nat, base: nat, hash: bool, upper: bool): string
  {
    if !hash then ""
    else if base == 2 || base == 16 then
      var letter := if base == 2 then "b" else if upper then "X" else "x";
      if used < 31 then "0" + letter else if used == 31 then letter else ""
    else if used < 32 then "0" else ""
  }

  function SignLaw(used: nat, negative: bool, plus: bool, space: bool): string
  {
    if used >= 32 then "" else if negative then "-" else if plus then "+" else if space then " " else ""
  }

  /** Spaces fill up to the width, in front or behind; not at all when zeros are to do so. */
  ghost predicate SpacesLaw(lead: nat, trail: nat, body: nat, width: nat, left: bool, zeropad: bool)
  {
    var missing := if body < width then width - body else 0;
    lead == (if left || zeropad then 0 else missing) && trail == if left then missing else 0
  }

  /** What a text is made of: spaces, sign, prefix, zeros and digits but for cut characters in
      front, spaces. */
  datatype Parts = Parts(lead: nat, sign: string, prefix: string, zeros: nat, cut: nat, digits: string, trail: nat)
  {
    function Text(): string {
      var body := Times('0', zeros) + digits;
      Times(' ', lead) + (sign + (prefix + if cut <= |body| then body[cut..] else "")) + Times(' ', trail)
    }

    /** How many characters stand between the spaces. */
    function Length(): nat {
      |sign| + |prefix| + if cut <= zeros + |digits| then zeros + |digits| - cut else 0
    }
  }

  /** The parts as the model computes them, with w the width after the sign has been allowed
      for. The definition sits behind some steps of recursion, so that proofs do not unfold it. */
  ghost predicate Computed(t: Parts, value: nat, negative: bool, base: nat, prec: nat, w: nat, flags: Flags)
    requires Printable(value, base)
  {
    ComputedAfter(t, value, negative, base, prec, w, flags, w + 2)
  }

  ghost predicate ComputedAfter(t: Parts, value: nat, negative: bool, base: nat, prec: nat, w: nat, flags: Flags,
                                steps: nat)
    requires Printable(value, base)
  {
    if steps > 0 then ComputedAfter(t, value, negative, base, prec, w, flags, steps - 1)
    else
      && t.digits == Plain(value, base, flags)
      && t.zeros == ZeroCount(|t.digits|, prec, w, Unhashed(value, flags))
      && t.cut == Cut(t.zeros + |t.digits|, base, prec, w, Unhashed(value, flags))
      && t.prefix == Reversed(Mark(t.zeros + |t.digits| - t.cut, base, Unhashed(value, flags)))
      && t.sign == Sign(t.zeros + |t.digits| - t.cut + |t.prefix|, negative, Unhashed(value, flags))
      && t.lead == |LeadPad(t.Length(), w, flags)| && t.trail == |TrailPad(t.Length(), w, flags)|
  }

  lemma {:induction false} ComputedSteps(t: Parts, value: nat, negative: bool, base: nat, prec: nat, w: nat,
                                         flags: Flags, steps: nat)
    requires Printable(value, base)
    ensures ComputedAfter(t, value, negative, base, prec, w, flags, steps)
            <==> ComputedAfter(t, value, negative, base, prec, w, flags, 0)
  {
    if steps == 0 {
    } else {
      ComputedSteps(t, value, negative, base, prec, w, flags, steps - 1);
    }
  }

  /** How a text is to look: what the flags, the conversion and the precision ask for. */
  datatype Style = Style(left: bool, zeropad: bool, plus: bool, space: bool, hash: bool, upper: bool, precision: bool)

  function StyleOf(flags: Flags): Style
  {
    Style(flags.left, flags.zeropad, flags.plus, flags.space, flags.hash, flags.uppercase, flags.precision)
  }

  /** The width, less the sign's place when zeros are to fill it. */
  function Room(width: nat, negative: bool, style: Style): nat
  {
    if (negative || style.plus || style.space) && style.zeropad && !style.left && width > 0 then width - 1 else width
  }

  /** The parts as they ought to be. */
  ghost predicate Lawful(t: Parts, value: nat, negative: bool, base: nat, prec: nat, width: nat, style: Style)
  {
    && AreDigits(t.digits, value, base, style.precision, style.upper)
    && Surrounded(t, style.hash && value > 0, negative, base, prec, Room(width, negative, style), style)
  }

  /** What stands around the digits; hash when there is a prefix. */
  ghost predicate Surrounded(t: Parts, hash: bool, negative: bool, base: nat, prec: nat, w: nat, style: Style)
  {
    var len := t.zeros + |t.digits|;
    && ZerosLaw(t.zeros, |t.digits|, prec, w, style.left, style.zeropad)
    && t.cut == CutLaw(len, base, hash, style.precision, w) && t.cut <= len
    && t.prefix == PrefixLaw(len - t.cut, base, hash, style.upper)
    && t.sign == SignLaw(len - t.cut + |t.prefix|, negative, style.plus, style.space)
    && SpacesLaw(t.lead, t.trail, t.Length(), w, style.left, style.zeropad)
  }

  lemma ShapeParts(s: Shape, digits: string, lead: nat, trail: nat) returns (t: Parts)
    requires s.cut <= |digits| + s.zeros
    ensures t == Parts(lead, s.sign, Reversed(s.mark), s.zeros, s.cut, digits, trail)
    ensures t.Text() == Times(' ', lead) + ShapeText(s, digits) + Times(' ', trail)
    ensures t.Length() == |ShapeText(s, digits)|
  {
    t := Parts(lead, s.sign, Reversed(s.mark), s.zeros, s.cut, digits, trail);
  }

  lemma ShapeComputed(t: Parts, value: nat, negative: bool, base: nat, prec: nat, w: nat, flags: Flags, fl: Flags)
    requires Printable(value, base) && t.digits == Plain(value, base, flags) && fl == Unhashed(value, flags)
    requires var s := ShapeOf(|t.digits|, negative, base, prec, w, fl);
             t.zeros == s.zeros && t.cut == s.cut && t.prefix == Reversed(s.mark) && t.sign == s.sign
    requires t.lead == |LeadPad(t.Length(), w, flags)| && t.trail == |TrailPad(t.Length(), w, flags)|
    ensures Computed(t, value, negative, base, prec, w, flags)
  {
    ComputedSteps(t, value, negative, base, prec, w, flags, w + 2);
  }

  lemma ComputedParts(value: nat, negative: bool, base: nat, prec: nat, width: nat, flags: Flags) returns (t: Parts)
    requires Printable(value, base)
    ensures NtoaText(value, negative, base, prec, width, flags) == t.Text()
    ensures Computed(t, value, negative, base, prec, SignedWidth(width, negative, flags), flags)
  {
    var digits, w, fl := Plain(value, base, flags), SignedWidth(width, negative, flags), Unhashed(value, flags);
    var lead, trail := IntegerParts(value, negative, base, prec, width, flags);
    t := ShapeParts(ShapeOf(|digits|, negative, base, prec, w, fl), digits, lead, trail);
    ShapeComputed(t, value, negative, base, prec, w, flags, fl);
  }

  lemma RoomLeft(width: nat, negative: bool, flags: Flags)
    ensures SignedWidth(width, negative, flags) == Room(width, negative, StyleOf(flags))
  {
  }

  lemma ZerosCounted(zeros: nat, digits: nat, value: nat, prec: nat, w: nat, flags: Flags, style: Style)
    requires digits <= 32 && zeros == ZeroCount(digits, prec, w, Unhashed(value, flags)) && style == StyleOf(flags)
    ensures ZerosLaw(zeros, digits, prec, w, style.left, style.zeropad)
  {
  }

  lemma SpacesCounted(lead: nat, trail: nat, body: nat, w: nat, flags: Flags, style: Style)
    requires lead == |LeadPad(body, w, flags)| && trail == |TrailPad(body, w, flags)| && style == StyleOf(flags)
    ensures SpacesLaw(lead, trail, body, w, style.left, style.zeropad)
  {
  }

  lemma CutCounted(cut: nat, len: nat, base: nat, value: nat, prec: nat, w: nat, flags: Flags, style: Style)
    requires (prec > 0 ==> flags.precision) && style == StyleOf(flags)
    requires cut == Cut(len, base, prec, w, Unhashed(value, flags))
    ensures cut == CutLaw(len, base, style.hash && value > 0, style.precision, w) && cut <= len
  {
  }

  lemma MarkShown(prefix: string, used: nat, base: nat, value: nat, flags: Flags, style: Style)
    requires (base == 2 || base == 8 || base == 10 || base == 16) && style == StyleOf(flags)
    requires prefix == Reversed(Mark(used, base, Unhashed(value, flags)))
    ensures prefix == PrefixLaw(used, base, style.hash && value > 0, style.upper)
  {
    ReversedShort('x', '0');
    ReversedShort('X', '0');
    ReversedShort('b', '0');
  }

  lemma ReversedShort(a: char, b: char)
    ensures Reversed("") == "" && Reversed([a]) == [a] && Reversed([b]) == [b] && Reversed([a] + [b]) == [b] + [a]
  {
    ReversedLast("", a);
    ReversedLast("", b);
    ReversedLast([b], a);
  }

  lemma SignLawful(sign: string, used: nat, negative: bool, value: nat, flags: Flags, style: Style)
    requires sign == Sign(used, negative, Unhashed(value, flags)) && style == StyleOf(flags)
    ensures sign == SignLaw(used, negative, style.plus, style.space)
  {
  }

  // The parts, one by one.

  lemma ComputedZeros(t: Parts, value: nat, negative: bool, base: nat, prec: nat, w: nat, flags: Flags, style: Style)
    requires Printable(value, base) && Computed(t, value, negative, base, prec, w, flags)
    requires |t.digits| <= 32 && style == StyleOf(flags)
    ensures ZerosLaw(t.zeros, |t.digits|, prec, w, style.left, style.zeropad)
  {
    ComputedSteps(t, value, negative, base, prec, w, flags, w + 2);
    ZerosCounted(t.zeros, |t.digits|, value, prec, w, flags, style);
  }

  lemma ComputedCut(t: Parts, value: nat, negative: bool, base: nat, prec: nat, w: nat, flags: Flags, style: Style)
    requires Printable(value, base) && Computed(t, value, negative, base, prec, w, flags)
    requires (prec > 0 ==> flags.precision) && style == StyleOf(flags)
    ensures t.cut == CutLaw(t.zeros + |t.digits|, base, style.hash && value > 0, style.precision, w)
  {
    ComputedSteps(t, value, negative, base, prec, w, flags, w + 2);
    CutCounted(t.cut, t.zeros + |t.digits|, base, value, prec, w, flags, style);
  }

  lemma ComputedEnds(t: Parts, value: nat, negative: bool, base: nat, prec: nat, w: nat, flags: Flags, style: Style)
    requires Printable(value, base) && Computed(t, value, negative, base, prec, w, flags) && style == StyleOf(flags)
    ensures t.cut <= t.zeros + |t.digits|
    ensures t.prefix == PrefixLaw(t.zeros + |t.digits| - t.cut, base, style.hash && value > 0, style.upper)
    ensures t.sign == SignLaw(t.zeros + |t.digits| - t.cut + |t.prefix|, negative, style.plus, style.space)
  {
    ComputedSteps(t, value, negative, base, prec, w, flags, w + 2);
    var n := t.zeros + |t.digits| - t.cut;
    MarkShown(t.prefix, n, base, value, flags, style);
    SignLawful(t.sign, n + |t.prefix|, negative, value, flags, style);
  }

  lemma ComputedSpaces(t: Parts, value: nat, negative: bool, base: nat, prec: nat, w: nat, flags: Flags, style: Style)
    requires Printable(value, base) && Computed(t, value, negative, base, prec, w, flags) && style == StyleOf(flags)
    ensures SpacesLaw(t.lead, t.trail, t.Length(), w, style.left, style.zeropad)
  {
    ComputedSteps(t, value, negative, base, prec, w, flags, w + 2);
    SpacesCounted(t.lead, t.trail, t.Length(), w, flags, style);
  }

  lemma PartsLawful(t: Parts, value: nat, negative: bool, base: nat, prec: nat, w: nat, flags: Flags, style: Style)
    requires Printable(value, base) && Computed(t, value, negative, base, prec, w, flags)
    requires (prec > 0 ==> flags.precision) && |t.digits| <= 32 && style == StyleOf(flags)
    ensures Surrounded(t, style.hash && value > 0, negative, base, prec, w, style)
  {
    ComputedZeros(t, value, negative, base, prec, w, flags, style);
    ComputedCut(t, value, negative, base, prec, w, flags, style);
    ComputedEnds(t, value, negative, base, prec, w, flags, style);
    ComputedSpaces(t, value, negative, base, prec, w, flags, style);
  }

  /** Every text has the parts that it ought to have. */
  lemma IntegerLaw(value: nat, negative: bool, base: nat, prec: nat, width: nat, flags: Flags) returns (t: Parts)
    requires Printable(value, base) && (prec > 0 ==> flags.precision)
    ensures NtoaText(value, negative, base, prec, width, flags) == t.Text()
    ensures Lawful(t, value, negative, base, prec, width, StyleOf(flags))
  {
    t := ComputedParts(value, negative, base, prec, width, flags);
    var w, style := SignedWidth(width, negative, flags), StyleOf(flags);
    RoomLeft(width, negative, flags);
    DigitsLaw(value, base, flags);
    ComputedSteps(t, value, negative, base, prec, w, flags, w + 2);
    PartsLawful(t, value, negative, base, prec, w, flags, style);
  }
}
