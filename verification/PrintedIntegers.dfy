/** What printf.c's integer conversions mean: the shape and length of the text, and when
    reading it gives back the number. */
module PrintedIntegers {
  import opened BitOps
  import opened Numerals
  import opened Printf
  import opened FormatString

  function SignText(negative: bool, flags: Flags): string
  {
    if negative then "-" else if flags.plus then "+" else if flags.space then " " else ""
  }

  function Max(a: nat, b: nat): nat
  {
    if a < b then b else a
  }

  predicate Printable(value: nat, base: nat)
  {
    value < WORD && (base == 2 || base == 8 || base == 10 || base == 16)
  }

  /** The digits with no padding, as many as the scratch buffer holds. */
  function Plain(value: nat, base: nat, flags: Flags): string
    requires 2 <= base <= 36
  {
    Reversed(NtoaDigits(value, base, flags))
  }

  // What goes around the digits. Each part is there only as far as the scratch buffer has
  // room for it.

  /** How many zeros stand in front of digits digits. */
  function ZeroCount(digits: nat, prec: nat, width: nat, flags: Flags): nat
  {
    if flags.left then 0
    else Max(digits, Min(NTOA_BUFFER_SIZE, Max(prec, if flags.zeropad then width else 0))) - digits
  }

  /** How many characters '#' takes off the front again. */
  function Cut(len: nat, base: nat, prec: nat, width: nat, flags: Flags): (n: nat)
    ensures n <= len
  {
    if flags.hash then HashCut(len, base, prec, width, flags) else 0
  }

  /** What '#' puts in front of len characters, in scratch order. */
  function Mark(len: nat, base: nat, flags: Flags): (s: string)
    ensures |s| <= 2
  {
    if !flags.hash then ""
    else
      var x := if len >= NTOA_BUFFER_SIZE then ""
               else if base == 16 then (if flags.uppercase then "X" else "x")
               else if base == 2 then "b" else "";
      x + (if len + |x| < NTOA_BUFFER_SIZE then "0" else "")
  }

  function Sign(len: nat, negative: bool, flags: Flags): (s: string)
    ensures |s| <= 1
  {
    if len < NTOA_BUFFER_SIZE then SignText(negative, flags) else ""
  }

  datatype Shape = Shape(zeros: nat, cut: nat, mark: string, sign: string)

  /** The parts around digits digits, with w the width after the sign has been allowed for. */
  function ShapeOf(digits: nat, negative: bool, base: nat, prec: nat, w: nat, flags: Flags): (s: Shape)
    ensures s.cut <= digits + s.zeros
  {
    var zeros := ZeroCount(digits, prec, w, flags);
    var cut := Cut(digits + zeros, base, prec, w, flags);
    var len := digits + zeros - cut;
    var mark := Mark(len, base, flags);
    Shape(zeros, cut, mark, Sign(len + |mark|, negative, flags))
  }

  function ShapeText(s: Shape, plain: string): string
    requires s.cut <= |plain| + s.zeros
  {
    s.sign + (Reversed(s.mark) + (Times('0', s.zeros) + plain)[s.cut..])
  }

  lemma FillOnce(buf: string, n: nat)
    requires |buf| <= NTOA_BUFFER_SIZE
    ensures ZeroFill(buf, n) == buf + Times('0', Max(|buf|, Min(NTOA_BUFFER_SIZE, n)) - |buf|)
  {
  }

  lemma {:induction false} TimesJoin(c: char, m: nat, n: nat)
    ensures Times(c, m) + Times(c, n) == Times(c, m + n)
  {
  }

  lemma FillTwice(buf: string, m: nat, n: nat)
    requires |buf| <= NTOA_BUFFER_SIZE
    ensures ZeroFill(ZeroFill(buf, m), n) == ZeroFill(buf, Max(m, n))
  {
    FillOnce(buf, m);
    FillOnce(buf, Max(m, n));
    var a := Max(|buf|, Min(NTOA_BUFFER_SIZE, m)) - |buf|;
    FillOnce(ZeroFill(buf, m), n);
    var b := Max(|buf| + a, Min(NTOA_BUFFER_SIZE, n)) - (|buf| + a);
    TimesJoin('0', a, b);
    assert buf + Times('0', a) + Times('0', b) == buf + (Times('0', a) + Times('0', b));
  }

  lemma ZerosText(buf: string, prec: nat, width: nat, flags: Flags)
    requires |buf| <= NTOA_BUFFER_SIZE
    ensures WithZeros(buf, prec, width, flags) == buf + Times('0', ZeroCount(|buf|, prec, width, flags))
  {
    FillTwice(buf, prec, width);
    FillOnce(buf, if flags.zeropad then Max(prec, width) else prec);
  }

  lemma HashText(buf: string, base: nat, prec: nat, width: nat, flags: Flags)
    ensures var n := |buf| - Cut(|buf|, base, prec, width, flags);
            WithHash(buf, base, prec, width, flags) == buf[..n] + Mark(n, base, flags)
  {
    assert buf[..|buf|] == buf;
  }

  lemma SignAppended(buf: string, negative: bool, flags: Flags)
    ensures WithSign(buf, negative, flags) == buf + Sign(|buf|, negative, flags)
  {
  }

  lemma ReversedTake(s: string, n: nat)
    requires n <= |s|
    ensures Reversed(s[..n]) == Reversed(s)[|s| - n..]
  {
    var front, back := s[..n], s[n..];
    assert s == front + back;
    ReversedConcat(front, back);
    assert (Reversed(back) + Reversed(front))[|back|..] == Reversed(front);
  }

  lemma ReversedParts(body: string, mark: string, sign: string)
    requires |sign| <= 1
    ensures Reversed(body + mark + sign) == sign + (Reversed(mark) + Reversed(body))
  {
    ReversedConcat(body + mark, sign);
    ReversedConcat(body, mark);
    assert Reversed(sign) == sign;
  }

  lemma ReversedBody(buf: string, zeros: nat)
    ensures Reversed(buf + Times('0', zeros)) == Times('0', zeros) + Reversed(buf)
  {
    ReversedConcat(buf, Times('0', zeros));
    ReversedTimes('0', zeros);
  }

  /** The flags as the conversion leaves them: '#' means nothing for 0. */
  function Unhashed(value: nat, flags: Flags): Flags
  {
    if value == 0 then flags.(hash := false) else flags
  }

  lemma {:induction false} DigitsRoom(v: nat, base: nat, upper: bool, room: nat)
    requires 2 <= base <= 36
    ensures |DigitsIn(v, base, upper, room)| <= room
    decreases room
  {
    if room == 0 {
    } else if Quot(v, base) > 0 {
      DigitsRoom(Quot(v, base), base, upper, room - 1);
    }
  }

  function ScratchText(buf: string, negative: bool, base: nat, prec: nat, w: nat, flags: Flags): string
  {
    WithSign(WithHash(WithZeros(buf, prec, w, flags), base, prec, w, flags), negative, flags)
  }

  /** What '#' and sign make of body, the zeros and digits. */
  function Finished(body: string, negative: bool, base: nat, prec: nat, w: nat, flags: Flags): string
  {
    var cut := Cut(|body|, base, prec, w, flags);
    var mark := Mark(|body| - cut, base, flags);
    Sign(|body| - cut + |mark|, negative, flags) + (Reversed(mark) + body[cut..])
  }

  lemma ScratchEnd(body: string, negative: bool, base: nat, prec: nat, w: nat, flags: Flags)
    ensures Reversed(WithSign(WithHash(body, base, prec, w, flags), negative, flags))
            == Finished(Reversed(body), negative, base, prec, w, flags)
  {
    var n := |body| - Cut(|body|, base, prec, w, flags);
    var mark := Mark(n, base, flags);
    HashText(body, base, prec, w, flags);
    SignAppended(body[..n] + mark, negative, flags);
    ReversedParts(body[..n], mark, Sign(n + |mark|, negative, flags));
    ReversedTake(body, n);
  }

  lemma FinishedShape(plain: string, negative: bool, base: nat, prec: nat, w: nat, flags: Flags)
    ensures Finished(Times('0', ZeroCount(|plain|, prec, w, flags)) + plain, negative, base, prec, w, flags)
            == ShapeText(ShapeOf(|plain|, negative, base, prec, w, flags), plain)
  {
  }

  /** What the scratch buffer holds in the end, read from its end. */
  lemma ScratchShape(buf: string, negative: bool, base: nat, prec: nat, w: nat, flags: Flags)
    requires |buf| <= NTOA_BUFFER_SIZE
    ensures Reversed(ScratchText(buf, negative, base, prec, w, flags))
            == ShapeText(ShapeOf(|buf|, negative, base, prec, w, flags), Reversed(buf))
  {
    ZerosText(buf, prec, w, flags);
    ReversedBody(buf, ZeroCount(|buf|, prec, w, flags));
    ScratchEnd(WithZeros(buf, prec, w, flags), negative, base, prec, w, flags);
    FinishedShape(Reversed(buf), negative, base, prec, w, flags);
  }

  lemma DigitsShape(value: nat, base: nat, digitFlags: Flags, negative: bool, prec: nat, w: nat, flags: Flags)
    requires Printable(value, base)
    ensures var plain := Plain(value, base, digitFlags);
            Reversed(ScratchText(NtoaDigits(value, base, digitFlags), negative, base, prec, w, flags))
            == ShapeText(ShapeOf(|plain|, negative, base, prec, w, flags), plain)
  {
    DigitsRoom(value, base, digitFlags.uppercase, NTOA_BUFFER_SIZE);
    ScratchShape(NtoaDigits(value, base, digitFlags), negative, base, prec, w, flags);
  }

  lemma PadsAlike(all: string, value: nat, w: nat, flags: Flags)
    ensures OutRevText(all, w, Unhashed(value, flags)) == OutRevText(all, w, flags)
  {
  }

  lemma Printing(value: nat, negative: bool, base: nat, prec: nat, width: nat, flags: Flags) returns (all: string)
    requires Printable(value, base)
    ensures var plain, w := Plain(value, base, flags), SignedWidth(width, negative, flags);
            && Reversed(all) == ShapeText(ShapeOf(|plain|, negative, base, prec, w, Unhashed(value, flags)), plain)
            && NtoaText(value, negative, base, prec, width, flags) == OutRevText(all, w, flags)
  {
    var fl, w := Unhashed(value, flags), SignedWidth(width, negative, flags);
    all := ScratchText(NtoaDigits(value, base, flags), negative, base, prec, w, fl);
    DigitsShape(value, base, flags, negative, prec, w, fl);
    PadsAlike(all, value, w, flags);
  }

  /** Spaces, the shape around the digits, spaces. */
  lemma IntegerParts(value: nat, negative: bool, base: nat, prec: nat, width: nat, flags: Flags)
      returns (lead: nat, trail: nat)
    requires Printable(value, base)
    ensures var plain, w := Plain(value, base, flags), SignedWidth(width, negative, flags);
            var text := ShapeText(ShapeOf(|plain|, negative, base, prec, w, Unhashed(value, flags)), plain);
            && NtoaText(value, negative, base, prec, width, flags) == Times(' ', lead) + text + Times(' ', trail)
            && lead == |LeadPad(|text|, w, flags)| && trail == |TrailPad(|text|, w, flags)|
  {
    var all := Printing(value, negative, base, prec, width, flags);
    lead, trail := PadSpan(all, SignedWidth(width, negative, flags), flags);
  }

  lemma PadSpan(buf: string, w: nat, flags: Flags) returns (lead: nat, trail: nat)
    ensures lead == |LeadPad(|buf|, w, flags)| && trail == |TrailPad(|buf|, w, flags)|
    ensures OutRevText(buf, w, flags) == Times(' ', lead) + Reversed(buf) + Times(' ', trail)
  {
    lead, trail := |LeadPad(|buf|, w, flags)|, |TrailPad(|buf|, w, flags)|;
  }

  /** The scratch buffer has room for the sign behind the digits and their zeros. */
  predicate SignFits(value: nat, base: nat, prec: nat, width: nat, flags: Flags)
    requires Printable(value, base)
  {
    |Plain(value, base, flags)| < 32 && (flags.left || (prec <= 31 && (flags.zeropad ==> width <= 32)))
  }

  /** How many characters stand around and in the digits. */
  function ShapeLength(s: Shape, digits: nat): int
  {
    |s.sign| + |s.mark| + s.zeros + digits - s.cut
  }

  lemma UnmarkedLength(value: nat, negative: bool, base: nat, prec: nat, width: nat, flags: Flags)
    requires Printable(value, base) && !flags.hash && SignFits(value, base, prec, width, flags)
    ensures var digits := |Plain(value, base, flags)|;
            var w := SignedWidth(width, negative, flags);
            var needed := |SignText(negative, flags)| + Max(digits, if flags.left then 0 else prec);
            ShapeLength(ShapeOf(digits, negative, base, prec, w, Unhashed(value, flags)), digits)
            == if flags.zeropad && !flags.left then Max(width, needed) else needed
  {
  }

  /** The width law: spaces fill the text up to the width, and zeros do so as far as the
      scratch buffer goes. With room for everything and no '#', the length is the larger of
      the width and what sign and digits need. */
  lemma IntegerWidth(value: nat, negative: bool, base: nat, prec: nat, width: nat, flags: Flags)
    requires Printable(value, base)
    ensures var digits, w := |Plain(value, base, flags)|, SignedWidth(width, negative, flags);
            var len := ShapeLength(ShapeOf(digits, negative, base, prec, w, Unhashed(value, flags)), digits);
            |NtoaText(value, negative, base, prec, width, flags)|
            == if flags.zeropad && !flags.left then len else Max(width, len)
    ensures !flags.hash && SignFits(value, base, prec, width, flags) ==>
              |NtoaText(value, negative, base, prec, width, flags)|
              == Max(width, |SignText(negative, flags)|
                            + Max(|Plain(value, base, flags)|, if flags.left then 0 else prec))
  {
    var lead, trail := IntegerParts(value, negative, base, prec, width, flags);
    if !flags.hash && SignFits(value, base, prec, width, flags) {
      UnmarkedLength(value, negative, base, prec, width, flags);
    }
  }

  // Reading a number back.

  function SkipSpaces(s: string): string
  {
    if s != [] && s[0] == ' ' then SkipSpaces(s[1..]) else s
  }

  function NumeralPrefix(s: string): (t: string)
  {
    if s != [] && IsNumeral(s[0]) then [s[0]] + NumeralPrefix(s[1..]) else []
  }

  /** Spaces, an optional sign, digits; anything after them is ignored. */
  function Read(s: string, base: nat): (bool, nat)
  {
    var t := SkipSpaces(s);
    var signed := t != [] && (t[0] == '-' || t[0] == '+');
    (signed && t[0] == '-', Eval(NumeralPrefix(if signed then t[1..] else t), base))
  }

  lemma {:induction false} SkipLead(n: nat, s: string)
    ensures SkipSpaces(Times(' ', n) + s) == SkipSpaces(s)
  {
    if n == 0 {
      assert [] + s == s;
    } else {
      assert (Times(' ', n) + s)[1..] == Times(' ', n - 1) + s;
      SkipLead(n - 1, s);
    }
  }

  lemma {:induction false} PrefixIsAll(s: string, trail: nat)
    requires Numeral(s)
    ensures NumeralPrefix(s + Times(' ', trail)) == s
  {
    if s == [] {
    } else {
      assert (s + Times(' ', trail))[1..] == s[1..] + Times(' ', trail);
      PrefixIsAll(s[1..], trail);
      assert s == [s[0]] + s[1..];
    }
  }

  lemma SkipNumber(num: string, trail: nat)
    requires Numeral(num)
    ensures var t := SkipSpaces(num + Times(' ', trail));
            NumeralPrefix(t) == num && (t == [] || (t[0] != '-' && t[0] != '+'))
  {
    PrefixIsAll(num, trail);
    if num == [] {
      SkipLead(trail, []);
      assert num + Times(' ', trail) == Times(' ', trail) + [];
    } else {
      assert (num + Times(' ', trail))[0] == num[0];
    }
  }

  /** Reading a number behind its sign. */
  lemma ReadSigned(sign: string, num: string, trail: nat, base: nat)
    requires Numeral(num) && (sign == "+" || sign == "-")
    ensures Read(sign + (num + Times(' ', trail)), base) == (sign == "-", Eval(num, base))
  {
    assert (sign + (num + Times(' ', trail)))[1..] == num + Times(' ', trail);
    PrefixIsAll(num, trail);
  }

  lemma ReadUnsigned(sign: string, num: string, trail: nat, base: nat)
    requires Numeral(num) && (sign == "" || sign == " ")
    ensures Read(sign + (num + Times(' ', trail)), base) == (false, Eval(num, base))
  {
    SkipNumber(num, trail);
    assert Times(' ', |sign|) == sign;
    SkipLead(|sign|, num + Times(' ', trail));
  }

  lemma ReadParts(lead: nat, sign: string, num: string, trail: nat, base: nat)
    requires Numeral(num) && IsSign(sign)
    ensures Read(Times(' ', lead) + (sign + num) + Times(' ', trail), base) == (sign == "-", Eval(num, base))
  {
    var tail := num + Times(' ', trail);
    assert Times(' ', lead) + (sign + num) + Times(' ', trail) == Times(' ', lead) + (sign + tail);
    SkipLead(lead, sign + tail);
    if sign == "+" || sign == "-" {
      ReadSigned(sign, num, trail, base);
    } else {
      ReadUnsigned(sign, num, trail, base);
    }
  }

  predicate IsSign(sign: string)
  {
    sign == "" || sign == " " || sign == "+" || sign == "-"
  }

  // The value of the digits.

  lemma {:induction false} LowBitsBound(v: nat, upper: bool, n: nat)
    ensures Eval(Reversed(DigitsIn(v, 2, upper, n)), 2) < Pow2(n)
    decreases n
  {
    if n == 0 {
    } else {
      var rest := if Quot(v, 2) == 0 then [] else DigitsIn(Quot(v, 2), 2, upper, n - 1);
      if Quot(v, 2) > 0 {
        LowBitsBound(Quot(v, 2), upper, n - 1);
      }
      OneMoreBit(rest, Rem(v, 2), upper);
      assert DigitsIn(v, 2, upper, n) == [DigitChar(Rem(v, 2), upper)] + rest;
      assert Eval(Reversed(rest), 2) < Pow2(n - 1);
    }
  }

  lemma OneMoreBit(rest: string, d: nat, upper: bool)
    requires d < 2
    ensures Eval(Reversed([DigitChar(d, upper)] + rest), 2) == 2 * Eval(Reversed(rest), 2) + d
  {
    DigitCharValue(d, upper);
    ReversedLast(rest, DigitChar(d, upper));
    EvalAppend(Reversed(rest), DigitChar(d, upper), 2);
    MulIsProduct(Eval(Reversed(rest), 2), 2);
  }

  lemma {:induction false} DigitsInNumeral(v: nat, base: nat, upper: bool, room: nat)
    requires 2 <= base <= 36
    ensures Numeral(DigitsIn(v, base, upper, room))
    decreases room
  {
    if room == 0 {
    } else {
      DigitCharValue(Rem(v, base), upper);
      if Quot(v, base) > 0 {
        DigitsInNumeral(Quot(v, base), base, upper, room - 1);
      }
    }
  }

  lemma FewBits()
    ensures Pow2(32) == 0x1_0000_0000
  {
    assert Pow2(8) == 0x100;
    assert Pow2(16) == 0x10000;
    assert Pow2(24) == 0x100_0000;
  }

  /** The digits are those of the value, except in base 2, where only 32 fit. */
  lemma PlainValue(value: nat, base: nat, flags: Flags)
    requires Printable(value, base)
    ensures Numeral(Plain(value, base, flags))
    ensures Eval(Plain(value, base, flags), base) == value <==> (base == 2 ==> value < 0x1_0000_0000)
    ensures base >= 8 ==> |Plain(value, base, flags)| <= 22
  {
    var upper := flags.uppercase;
    DigitsInNumeral(value, base, upper, NTOA_BUFFER_SIZE);
    ReversedNumeral(NtoaDigits(value, base, flags));
    if base >= 8 || value < 0x1_0000_0000 {
      DigitsFit(value, base, upper);
      AllDigitsIn(value, base, upper, NTOA_BUFFER_SIZE);
      EvalDigits(value, base, upper);
      if base >= 8 {
        DigitsFew(value, base, upper);
      }
    } else {
      FewBits();
      LowBitsBound(value, upper, NTOA_BUFFER_SIZE);
    }
  }

  lemma DigitsFew(value: nat, base: nat, upper: bool)
    requires 8 <= base <= 36 && value < WORD
    ensures |Digits(value, base, upper)| <= 22
  {
    assert Pow8(8) == 0x100_0000;
    assert Pow8(16) == 0x1_0000_0000_0000;
    assert Pow8(22) == 0x4_0000_0000_0000_0000;
    DigitsShort(value, base, upper, 22);
  }

  lemma UnmarkedText(s: Shape, plain: string)
    requires s.cut == 0 && s.mark == ""
    ensures ShapeText(s, plain) == s.sign + (Times('0', s.zeros) + plain)
  {
    assert Reversed("") == "";
  }

  /** Without '#' the shape of a negative number has its sign exactly when the sign fits. */
  lemma SignShown(value: nat, negative: bool, base: nat, prec: nat, width: nat, flags: Flags)
    requires Printable(value, base) && !flags.hash
    ensures var w, fl := SignedWidth(width, negative, flags), Unhashed(value, flags);
            var s := ShapeOf(|Plain(value, base, flags)|, negative, base, prec, w, fl);
            && s.cut == 0 && s.mark == "" && IsSign(s.sign)
            && (s.sign == "-" <==> negative && SignFits(value, base, prec, width, flags))
  {
  }

  lemma PaddedValue(zeros: nat, plain: string, base: nat)
    requires Numeral(plain)
    ensures Numeral(Times('0', zeros) + plain) && Eval(Times('0', zeros) + plain, base) == Eval(plain, base)
  {
    EvalZeros(zeros, plain, base);
  }

  /** Without '#' a text is spaces, sign, numeral, spaces. */
  lemma UnmarkedParts(value: nat, negative: bool, base: nat, prec: nat, width: nat, flags: Flags)
      returns (lead: nat, sign: string, num: string, trail: nat)
    requires Printable(value, base) && !flags.hash
    ensures NtoaText(value, negative, base, prec, width, flags) == Times(' ', lead) + (sign + num) + Times(' ', trail)
    ensures IsSign(sign) && (sign == "-" <==> negative && SignFits(value, base, prec, width, flags))
    ensures Numeral(num) && Eval(num, base) == Eval(Plain(value, base, flags), base)
  {
    var plain, w := Plain(value, base, flags), SignedWidth(width, negative, flags);
    var s := ShapeOf(|plain|, negative, base, prec, w, Unhashed(value, flags));
    SignShown(value, negative, base, prec, width, flags);
    UnmarkedText(s, plain);
    PlainValue(value, base, flags);
    PaddedValue(s.zeros, plain, base);
    lead, trail := IntegerParts(value, negative, base, prec, width, flags);
    sign, num := s.sign, Times('0', s.zeros) + plain;
  }

  /** Reading undoes printing: without '#', sign and value come back exactly when the digits
      fit and the number is not negative or there is room for its sign. From base 8 on that is
      a matter of precision and width alone. */
  lemma ReadPrinted(value: nat, negative: bool, base: nat, prec: nat, width: nat, flags: Flags)
    requires Printable(value, base) && !flags.hash
    ensures Read(NtoaText(value, negative, base, prec, width, flags), base) == (negative, value)
            <==> (base == 2 ==> value < 0x1_0000_0000) && (!negative || SignFits(value, base, prec, width, flags))
    ensures base >= 8 ==>
              (SignFits(value, base, prec, width, flags)
               <==> flags.left || (prec <= 31 && (flags.zeropad ==> width <= 32)))
  {
    var lead, sign, num, trail := UnmarkedParts(value, negative, base, prec, width, flags);
    ReadParts(lead, sign, num, trail, base);
    PlainValue(value, base, flags);
  }

  /** For example, -5 with a precision of 32 or more: zeros and digit fill the scratch buffer. */
  lemma LostSign(prec: nat, flags: Flags)
    requires prec >= NTOA_BUFFER_SIZE && !flags.hash && !flags.left && !flags.zeropad
    ensures NtoaText(5, true, 10, prec, 0, flags) == Times('0', 31) + "5"
    ensures Read(Times('0', 31) + "5", 10) == (false, 5)
  {
    var lead, trail := IntegerParts(5, true, 10, prec, 0, flags);
    PlainFive(flags);
    Unspaced(31, "5");
    ReadFive();
  }

  lemma Unspaced(zeros: nat, plain: string)
    ensures Times(' ', 0) + ShapeText(Shape(zeros, 0, "", ""), plain) + Times(' ', 0) == Times('0', zeros) + plain
  {
    UnmarkedText(Shape(zeros, 0, "", ""), plain);
    var num := Times('0', zeros) + plain;
    assert Times(' ', 0) + ("" + num) + Times(' ', 0) == num;
  }

  lemma ReadFive()
    ensures Read(Times('0', 31) + "5", 10) == (false, 5)
  {
    var num := Times('0', 31) + "5";
    EvalAppend([], '5', 10);
    assert [] + ['5'] == "5" && Numeral("5") && Eval("5", 10) == 5;
    PaddedValue(31, "5", 10);
    ReadUnsigned("", num, 0, 10);
    assert "" + (num + Times(' ', 0)) == num;
  }

  lemma PlainFive(flags: Flags)
    ensures Plain(5, 10, flags) == "5"
  {
    var c := DigitChar(5, flags.uppercase);
    assert Quot(5, 10) == 0 && Rem(5, 10) == 5;
    assert NtoaDigits(5, 10, flags) == [c];
    ReversedLast([], c);
  }

  // What '#' does to the value.

  lemma {:induction false} EvalTail(s: string, base: nat)
    requires s != [] && base > 0
    ensures Eval(s[1..], base) <= Eval(s, base)
    ensures DigitValue(s[0]) > 0 ==> Eval(s[1..], base) < Eval(s, base)
    decreases |s|
  {
    var t, c := s[..|s| - 1], s[|s| - 1];
    if t == [] {
      assert s[1..] == [];
    } else {
      EvalTail(t, base);
      assert s[1..] == t[1..] + [c];
      EvalAppend(t[1..], c, base);
      MulMonotone(Eval(t[1..], base), Eval(t, base), base);
    }
  }

  lemma {:induction false} MulMonotone(a: nat, b: nat, base: nat)
    requires a <= b && base > 0
    ensures Mul(a, base) <= Mul(b, base) && (a < b ==> Mul(a, base) < Mul(b, base))
  {
    if a == b {
    } else {
      MulMonotone(a, b - 1, base);
    }
  }

  lemma {:induction false} LeadingDigit(v: nat, base: nat, upper: bool)
    requires 2 <= base <= 36 && v > 0
    ensures DigitValue(Reversed(Digits(v, base, upper))[0]) > 0
    decreases v
  {
    var q, c := Quot(v, base), DigitChar(Rem(v, base), upper);
    DigitCharValue(Rem(v, base), upper);
    Division(v, base);
    if q == 0 {
      ReversedLast([], c);
    } else {
      LeadingDigit(q, base, upper);
      ReversedLast(Digits(q, base, upper), c);
    }
  }

  /** Dropping characters in front keeps the value exactly when they are all padding zeros. */
  lemma {:induction false} CutValue(zeros: nat, plain: string, cut: nat, base: nat)
    requires cut <= zeros + |plain| && plain != [] && DigitValue(plain[0]) > 0 && base > 0
    ensures Eval((Times('0', zeros) + plain)[cut..], base) == Eval(plain, base) <==> cut <= zeros
    decreases cut
  {
    var body := Times('0', zeros) + plain;
    EvalZeros(zeros, plain, base);
    if cut == 0 {
      assert body[0..] == body;
    } else if cut <= zeros {
      assert body[cut..] == Times('0', zeros - cut) + plain;
      EvalZeros(zeros - cut, plain, base);
    } else {
      assert body[cut..] == plain[cut - zeros..];
      EvalSuffix(plain, cut - zeros, base);
    }
  }

  lemma {:induction false} EvalSuffix(s: string, n: nat, base: nat)
    requires 0 < n <= |s| && DigitValue(s[0]) > 0 && base > 0
    ensures Eval(s[n..], base) < Eval(s, base)
    decreases n
  {
    EvalTail(s, base);
    if n > 1 {
      EvalAllSuffixes(s[1..], n - 1, base);
      assert s[1..][n - 1..] == s[n..];
    }
  }

  lemma {:induction false} EvalAllSuffixes(s: string, n: nat, base: nat)
    requires n <= |s| && base > 0
    ensures Eval(s[n..], base) <= Eval(s, base)
    decreases n
  {
    if n == 0 {
      assert s[0..] == s;
    } else {
      EvalTail(s, base);
      EvalAllSuffixes(s[1..], n - 1, base);
      assert s[1..][n - 1..] == s[n..];
    }
  }

  /** When '#' takes off padding zeros only. */
  predicate HashSpares(digits: nat, base: nat, w: nat, flags: Flags)
  {
    flags.precision || (w != digits && !(base == 16 && flags.zeropad && !flags.left && w == digits + 1))
  }

  lemma HashCuts(digits: nat, base: nat, prec: nat, w: nat, flags: Flags)
    requires 0 < digits <= NTOA_BUFFER_SIZE && (base == 16 ==> digits < NTOA_BUFFER_SIZE)
    requires flags.hash && (prec > 0 ==> flags.precision)
    ensures var zeros := ZeroCount(digits, prec, w, flags);
            Cut(digits + zeros, base, prec, w, flags) <= zeros <==> HashSpares(digits, base, w, flags)
  {
  }

  /** '#' keeps the value of the digits exactly when it takes off padding zeros only. With the
      precision flag it takes off nothing. Otherwise it loses digits exactly when the width is
      their number, or one more in base 16 with zero padding. */
  lemma HashKeepsValue(value: nat, negative: bool, base: nat, prec: nat, width: nat, flags: Flags)
    requires Printable(value, base) && (base == 2 ==> value < 0x1_0000_0000)
    requires value > 0 && flags.hash && (prec > 0 ==> flags.precision)
    ensures var plain, w := Plain(value, base, flags), SignedWidth(width, negative, flags);
            var s := ShapeOf(|plain|, negative, base, prec, w, flags);
            && (Eval((Times('0', s.zeros) + plain)[s.cut..], base) == value <==> s.cut <= s.zeros)
            && (s.cut <= s.zeros <==> HashSpares(|plain|, base, w, flags))
  {
    var plain, w := Plain(value, base, flags), SignedWidth(width, negative, flags);
    var s := ShapeOf(|plain|, negative, base, prec, w, flags);
    PlainValue(value, base, flags);
    DigitsRoom(value, base, flags.uppercase, NTOA_BUFFER_SIZE);
    DigitsFit(value, base, flags.uppercase);
    AllDigitsIn(value, base, flags.uppercase, NTOA_BUFFER_SIZE);
    LeadingDigit(value, base, flags.uppercase);
    CutValue(s.zeros, plain, s.cut, base);
    HashCuts(|plain|, base, prec, w, flags);
  }

  // From directives to numbers.

  /** The number an integer directive is given. */
  function Given(c: char, flags: Flags, w: nat): int
  {
    if c == 'i' || c == 'd' then Signed(w, Modulus(flags)) else w % Modulus(flags)
  }

  /** Sign and magnitude as a number. */
  function SignedNumber(negative: bool, value: nat): int
  {
    if negative then 0 - value else value
  }

  /** What a reader makes of a text. */
  function ReadNumber(s: string, base: nat): int
  {
    var (negative, value) := Read(s, base);
    SignedNumber(negative, value)
  }

  lemma NumberPrinted(value: nat, negative: bool, base: nat, prec: nat, width: nat, flags: Flags)
    requires Printable(value, base) && !flags.hash && (negative ==> value > 0)
    ensures ReadNumber(NtoaText(value, negative, base, prec, width, flags), base) == SignedNumber(negative, value)
            <==> (base == 2 ==> value < 0x1_0000_0000)
                 && (SignedNumber(negative, value) >= 0 || SignFits(value, base, prec, width, flags))
  {
    ReadPrinted(value, negative, base, prec, width, flags);
  }

  lemma GivenParts(c: char, flags: Flags, w: nat)
    requires IsInteger(c) && IntegerValue(c, flags, w).Some? && w < WORD
    ensures var v := IntegerValue(c, flags, w).value;
            v.1 < WORD && Given(c, flags, w) == SignedNumber(v.0, v.1) && (v.0 ==> v.1 > 0)
  {
  }

  /** Reading the text of an integer directive without '#' gives back its argument exactly
      when its digits fit and it is not negative or there is room for its sign. */
  lemma DirectiveReads(c: char, d: Directive, w: nat)
    requires IsInteger(c) && IntegerValue(c, d.flags, w).Some? && !IntegerFlags(c, d.flags).hash && w < WORD
    ensures var v := IntegerValue(c, d.flags, w).value.1;
            && RefIntegerText(c, d, w).Some? && Printable(v, Base(c))
            && (ReadNumber(RefIntegerText(c, d, w).value, Base(c)) == Given(c, d.flags, w)
                <==> (c == 'b' ==> v < 0x1_0000_0000)
                     && (Given(c, d.flags, w) >= 0 || SignFits(v, Base(c), d.prec, d.width, IntegerFlags(c, d.flags))))
  {
    var v := IntegerValue(c, d.flags, w).value;
    IntegerMeans(c, d, w, v.0, v.1);
    GivenParts(c, d.flags, w);
    NumberPrinted(v.1, v.0, Base(c), d.prec, d.width, IntegerFlags(c, d.flags));
  }

  const LONG_LONG := NO_FLAGS.(longSize := true, longLong := true)

  /** The directives %lld, %llo and %llx, alone in a format. */
  lemma LongLongFormat(c: char, w: nat)
    requires (c == 'd' || c == 'o' || c == 'x') && w < WORD
    ensures RefFormat("%ll" + [c], 0, [Word(w)], 0) == RefIntegerText(c, Directive(LONG_LONG, 0, 0, 3, 0), w)
  {
    var f := "%ll" + [c];
    assert f[0] == '%' && f[1] == 'l' && f[2] == 'l' && f[3] == c && |f| == 4;
    LongLongFields(f, c, w);
    DirectiveSteps(f, 1, [Word(w)], 0, 3);
    var text := RefIntegerText(c, Directive(LONG_LONG, 0, 0, 3, 0), w);
    if text.Some? {
      assert RefFormat(f, 4, [Word(w)], 1) == Some([]);
      assert text.value + [] == text.value;
    }
  }

  lemma LongLongFields(f: string, c: char, w: nat)
    requires |f| == 4 && f[0] == '%' && f[1] == 'l' && f[2] == 'l' && f[3] == c && (c == 'd' || c == 'o' || c == 'x')
    ensures RefFields(f, 1, [Word(w)], 0) == Some(Directive(LONG_LONG, 0, 0, 3, 0))
  {
    FieldsSteps(f, 1, [Word(w)], 0, 3);
    FlagsToSteps(f, 1, 1, 3);
    assert FlagEnd(f, 1) == 1 && FlagsTo(f, 1, 1) == NO_FLAGS;
    var d := Directive(NO_FLAGS, 0, 0, 1, 0);
    assert RefWidth(f, [Word(w)], d) == Some(d);
    assert RefPrecision(f, [Word(w)], d) == Some(d);
    assert RefLength(f, d) == Directive(LONG_LONG, 0, 0, 3, 0);
  }
}
