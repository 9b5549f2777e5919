/** itoa.c: an independent integer printer, and when it agrees with printf. */
module Itoa {
  import opened BitOps
  import opened Numerals
  import opened Printf
  import opened FormatString
  import opened PrintedIntegers

  const LEAST := -0x8000_0000_0000_0000

  method Reverse(str: array<char>, length: nat)
    requires length <= str.Length
    modifies str
    ensures str[..length] == Reversed(old(str[..length]))
    ensures forall k {:trigger str[k]} :: length <= k < str.Length ==> str[k] == old(str[k])
  {
    ghost var was := str[..];
    var start, end := 0, length - 1;
    while start < end
      invariant 0 <= start && start + end == length - 1 && start <= end + 1
      invariant forall k :: 0 <= k < start || end < k < length ==> str[k] == was[length - 1 - k]
      invariant forall k :: start <= k <= end ==> str[k] == was[k]
      invariant forall k :: length <= k < str.Length ==> str[k] == was[k]
    {
      var temp := str[start];
      str[start] := str[end];
      str[end] := temp;
      end := end - 1;
      start := start + 1;
    }
    forall k | 0 <= k < length ensures str[k] == Reversed(was[..length])[k] {
      ReversedAt(was[..length], k);
    }
    assert str[..length] == Reversed(was[..length]);
    assert was[..length] == old(str[..length]);
  }

  // C division truncates toward zero.

  function CQuot(v: int, base: nat): int
    requires base >= 2
  {
    if v >= 0 then v / base else -((-v) / base)
  }

  function CRem(v: int, base: nat): int
    requires base >= 2
  {
    if v >= 0 then v % base else -((-v) % base)
  }

  /** The character for the remainder of a value: below '0' when the value is negative. */
  function RemChar(d: nat, negative: bool): char
    requires d < 36
  {
    if negative then (48 - d) as char else DigitChar(d, false)
  }

  /** The characters for magnitude a, least significant first. */
  function RemChars(a: nat, base: nat, negative: bool): string
    requires 2 <= base <= 36
    decreases a
  {
    if a == 0 then [] else [RemChar(Rem(a, base), negative)] + RemChars(Quot(a, base), base, negative)
  }

  lemma {:induction false} RemCharsAreDigits(a: nat, base: nat)
    requires 2 <= base <= 36 && a > 0
    ensures RemChars(a, base, false) == Digits(a, base, false)
    decreases a
  {
    if Quot(a, base) == 0 {
    } else {
      RemCharsAreDigits(Quot(a, base), base);
    }
  }

  function ItoaText(value: int, base: nat): string
    requires 2 <= base <= 36
  {
    if value == 0 then "0"
    else if value > 0 then Reversed(RemChars(value, base, false))
    else if base == 10 then "-" + Reversed(RemChars(Magnitude(value), base, false))
    else Reversed(RemChars(Magnitude(value), base, true))
  }

  function Magnitude(v: int): nat
  {
    if v < 0 then -v else v
  }

  method CDivRem(v: int, base: nat) returns (q: int, r: int)
    requires base >= 2
    ensures q == if v >= 0 then Quot(v, base) else 0 - Quot(-v, base)
    ensures r == if v >= 0 then Rem(v, base) else 0 - Rem(-v, base)
  {
    DivMod(Magnitude(v), base);
    q, r := CQuot(v, base), CRem(v, base);
  }

  /** Emits the characters of a value from str[i] on. */
  method EmitDigits(value: int, str: array<char>, base: nat, i: nat) returns (j: nat)
    requires 2 <= base <= 36 && i + |RemChars(Magnitude(value), base, value < 0)| <= str.Length
    modifies str
    ensures var s := RemChars(Magnitude(value), base, value < 0);
            j == i + |s| && str[..j] == old(str[..i]) + s
            && forall k {:trigger str[k]} :: j <= k < str.Length ==> str[k] == old(str[k])
  {
    ghost var a, negative := Magnitude(value), value < 0;
    ghost var whole := str[..i] + RemChars(a, base, negative);
    var v := value;
    j := i;
    while v != 0
      invariant (if negative then v + a == 0 else v == a) && j + |RemChars(a, base, negative)| == |whole| <= str.Length
      invariant str[..j] + RemChars(a, base, negative) == whole
      invariant forall k {:trigger str[k]} :: |whole| <= k < str.Length ==> str[k] == old(str[k])
      decreases a
    {
      var q, rem := CDivRem(v, base);
      EmitStep(str[..j], a, base, negative);
      ghost var done := str[..j];
      str[j] := if rem > 9 then 'a' + (rem - 10) as char else (rem + 48) as char;
      assert str[..j + 1] == done + [RemChar(Rem(a, base), negative)];
      v, j, a := q, j + 1, Quot(a, base);
    }
  }

  lemma EmitStep(done: string, a: nat, base: nat, negative: bool)
    requires 2 <= base <= 36 && a > 0
    ensures done + RemChars(a, base, negative)
            == done + [RemChar(Rem(a, base), negative)] + RemChars(Quot(a, base), base, negative)
  {
  }

  /** The characters of the text, last one first. */
  method EmitText(value: int, str: array<char>, base: nat) returns (i: nat)
    requires LEAST <= value <= 0x7FFF_FFFF_FFFF_FFFF && !(value == LEAST && base == 10)
    requires 2 <= base <= 36 && |ItoaText(value, base)| < str.Length
    modifies str
    ensures i == |ItoaText(value, base)| && Reversed(str[..i]) == ItoaText(value, base)
    ensures forall k {:trigger str[k]} :: i < k < str.Length ==> str[k] == old(str[k])
  {
    var isNegative, v := false, value;
    i := 0;
    if value == 0 {
      str[0] := '0';
      i := 1;
      str[i] := '\0';
      assert str[..1] == "0";
    }
    if value < 0 && base == 10 {
      isNegative := true;
      v := -value;
    }
    ghost var start := str[..i];
    i := EmitDigits(v, str, base, i);
    if isNegative {
      str[i] := '-';
      i := i + 1;
    }
    EmittedText(value, base, start, str[..i]);
  }

  /** The text, terminated. The least value has no negation, which C leaves undefined. */
  method Itoa(value: int, str: array<char>, base: nat)
    requires LEAST <= value <= 0x7FFF_FFFF_FFFF_FFFF && !(value == LEAST && base == 10)
    requires 2 <= base <= 36 && |ItoaText(value, base)| < str.Length
    modifies str
    ensures var s := ItoaText(value, base);
            && str[..|s|] == s && str[|s|] == '\0'
            && forall k {:trigger str[k]} :: |s| < k < str.Length ==> str[k] == old(str[k])
  {
    var i := EmitText(value, str, base);
    str[i] := '\0';
    Reverse(str, i);
  }

  /** The text, in the order it is emitted. */
  lemma EmittedText(value: int, base: nat, start: string, s: string)
    requires 2 <= base <= 36 && start == if value == 0 then "0" else []
    requires s == start + RemChars(Magnitude(value), base, value < 0 && base != 10)
                  + if value < 0 && base == 10 then "-" else []
    ensures Reversed(s) == ItoaText(value, base)
  {
    var chars := RemChars(Magnitude(value), base, value < 0 && base != 10);
    if value == 0 {
      assert s == "0" && Reversed("0") == "0";
    } else if value < 0 && base == 10 {
      assert s == chars + "-";
      ReversedConcat(chars, "-");
      assert Reversed("-") == "-";
    } else {
      assert s == chars;
    }
  }

  // Agreement with printf.

  function Conversion(base: nat): char
  {
    if base == 10 then 'd' else if base == 8 then 'o' else 'x'
  }

  /** The 64-bit word of a value. */
  function WordOf(value: int): nat
  {
    value % WORD
  }

  /** Without flags, width and precision nothing is added to sign and digits. */
  lemma BareText(value: nat, negative: bool, base: nat)
    requires (base == 8 || base == 10 || base == 16) && value < WORD
    ensures NtoaText(value, negative, base, 0, 0, LONG_LONG)
            == (if negative then "-" else "") + Reversed(Digits(value, base, false))
  {
    var lead, trail := IntegerParts(value, negative, base, 0, 0, LONG_LONG);
    var plain := Plain(value, base, LONG_LONG);
    BareDigits(value, base);
    BareShape(if negative then "-" else "", plain);
  }

  lemma BareDigits(value: nat, base: nat)
    requires (base == 8 || base == 10 || base == 16) && value < WORD
    ensures Plain(value, base, LONG_LONG) == Reversed(Digits(value, base, false))
            && |Plain(value, base, LONG_LONG)| < 32
  {
    DigitsFew(value, base, false);
    AllDigitsIn(value, base, false, NTOA_BUFFER_SIZE);
  }

  lemma BareShape(sign: string, plain: string)
    ensures Times(' ', 0) + ShapeText(Shape(0, 0, "", sign), plain) + Times(' ', 0) == sign + plain
  {
    UnmarkedText(Shape(0, 0, "", sign), plain);
    assert Times(' ', 0) == [] && Times('0', 0) == [];
  }

  /** printf's text for a 64-bit value. */
  function LongLongText(value: int, base: nat): string
    requires 2 <= base <= 36
  {
    if base == 10 then (if value < 0 then "-" else "") + Reversed(Digits(Magnitude(value), 10, false))
    else Reversed(Digits(WordOf(value), base, false))
  }

  lemma LongLongPrinted(value: int, base: nat)
    requires base == 8 || base == 10 || base == 16
    requires LEAST <= value <= 0x7FFF_FFFF_FFFF_FFFF && !(value == LEAST && base == 10)
    ensures RefFormat("%ll" + [Conversion(base)], 0, [Word(WordOf(value))], 0) == Some(LongLongText(value, base))
  {
    var c, w := Conversion(base), WordOf(value);
    LongLongFormat(c, w);
    LongLongInteger(value, base, c, w);
  }

  lemma LongLongInteger(value: int, base: nat, c: char, w: nat)
    requires (base == 8 || base == 10 || base == 16) && c == Conversion(base) && w == WordOf(value)
    requires LEAST <= value <= 0x7FFF_FFFF_FFFF_FFFF && !(value == LEAST && base == 10)
    ensures RefIntegerText(c, Directive(LONG_LONG, 0, 0, 3, 0), w) == Some(LongLongText(value, base))
  {
    if base == 10 {
      SignedText(value, w);
    } else {
      UnsignedText(c, base, w);
    }
  }

  lemma SignedText(value: int, w: nat)
    requires LEAST < value <= 0x7FFF_FFFF_FFFF_FFFF && w == WordOf(value)
    ensures RefIntegerText('d', Directive(LONG_LONG, 0, 0, 3, 0), w) == Some(LongLongText(value, 10))
  {
    assert IntegerValue('d', LONG_LONG, w) == Some((value < 0, Magnitude(value)));
    BareInteger('d', w, value < 0, Magnitude(value));
  }

  lemma UnsignedText(c: char, base: nat, w: nat)
    requires ((c == 'o' && base == 8) || (c == 'x' && base == 16)) && w < WORD
    ensures RefIntegerText(c, Directive(LONG_LONG, 0, 0, 3, 0), w) == Some(Reversed(Digits(w, base, false)))
  {
    assert IntegerValue(c, LONG_LONG, w) == Some((false, w));
    BareInteger(c, w, false, w);
    assert "" + Reversed(Digits(w, base, false)) == Reversed(Digits(w, base, false));
  }

  lemma BareInteger(c: char, w: nat, negative: bool, value: nat)
    requires (c == 'd' || c == 'o' || c == 'x') && value < WORD
             && IntegerValue(c, LONG_LONG, w) == Some((negative, value))
    ensures RefIntegerText(c, Directive(LONG_LONG, 0, 0, 3, 0), w)
            == Some((if negative then "-" else "") + Reversed(Digits(value, Base(c), false)))
  {
    assert IntegerFlags(c, LONG_LONG) == LONG_LONG;
    IntegerMeans(c, Directive(LONG_LONG, 0, 0, 3, 0), w, negative, value);
    BareText(value, negative, Base(c));
  }

  lemma {:induction false} LastBelowZero(a: nat, base: nat)
    requires 2 <= base <= 36 && a > 0
    ensures RemChars(a, base, true) != [] && RemChars(a, base, true)[|RemChars(a, base, true)| - 1] < '0'
    decreases a
  {
    if Quot(a, base) == 0 {
    } else {
      LastBelowZero(Quot(a, base), base);
    }
  }

  /** The two printers agree exactly on non-negative values and in base 10: a negative value
      in another base is no digit string here, and its two's complement there. */
  lemma PrintersAgree(value: int, base: nat)
    requires base == 8 || base == 10 || base == 16
    requires LEAST <= value <= 0x7FFF_FFFF_FFFF_FFFF && !(value == LEAST && base == 10)
    ensures RefFormat("%ll" + [Conversion(base)], 0, [Word(WordOf(value))], 0) == Some(ItoaText(value, base))
            <==> value >= 0 || base == 10
  {
    LongLongPrinted(value, base);
    if value >= 0 {
      NonNegativeText(value, base);
      assert WordOf(value) == value && "" + ItoaText(value, base) == ItoaText(value, base);
    } else if base == 10 {
      RemCharsAreDigits(Magnitude(value), 10);
    } else {
      NegativeDiffers(value, base);
    }
  }

  lemma NonNegativeText(value: nat, base: nat)
    requires 2 <= base <= 36
    ensures ItoaText(value, base) == Reversed(Digits(value, base, false))
  {
    if value > 0 {
      RemCharsAreDigits(value, base);
    } else {
      assert Digits(0, base, false) == "0" && Reversed("0") == "0";
    }
  }

  lemma NegativeDiffers(value: int, base: nat)
    requires value < 0 && 2 <= base <= 36 && base != 10
    ensures ItoaText(value, base) != Reversed(Digits(WordOf(value), base, false))
  {
    var s := RemChars(Magnitude(value), base, true);
    LastBelowZero(Magnitude(value), base);
    ReversedAt(s, 0);
    DigitsAreNumeral(WordOf(value), base, false);
    ReversedNumeral(Digits(WordOf(value), base, false));
    var t := Reversed(Digits(WordOf(value), base, false));
    assert IsNumeral(t[0]);
  }

  /** For example, -1 in base 16: the character before '0' against sixteen times f. */
  lemma MinusOne()
    ensures ItoaText(-1, 16) == "/"
    ensures Read("/", 16) == (false, 0)
  {
    assert RemChars(1, 16, true) == ['/'];
    assert Reversed(['/']) == ['/'];
  }
}
