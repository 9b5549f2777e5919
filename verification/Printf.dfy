/** Numbers and output of printf.c: the clipped output buffer, the reversed scratch buffer,
    and the padding and sign rules for integers. */
module Printf {
  import opened Numerals

  const NTOA_BUFFER_SIZE := 32

  datatype Flags = Flags(
    zeropad: bool, left: bool, plus: bool, space: bool, hash: bool, uppercase: bool,
    charSize: bool, shortSize: bool, longSize: bool, longLong: bool, precision: bool)

  const NO_FLAGS := Flags(false, false, false, false, false, false, false, false, false, false, false)

  // Output clipped at maxlen.

  function Min(a: nat, b: nat): nat
  {
    if a < b then a else b
  }

  /** b with s written from idx on, except where that lies at or behind maxlen. */
  function Put(b: seq<char>, idx: nat, maxlen: nat, s: string): (r: seq<char>)
    requires maxlen <= |b|
    ensures |r| == |b|
    ensures forall k {:trigger r[k]} :: 0 <= k < |b| ==>
              r[k] == if idx <= k < idx + |s| && k < maxlen then s[k - idx] else b[k]
  {
    if s == [] then b
    else
      var r := Put(b, idx, maxlen, s[..|s| - 1]);
      if idx + |s| - 1 < maxlen then r[idx + |s| - 1 := s[|s| - 1]] else r
  }

  /** Two writes in a row are one. */
  lemma PutPut(b: seq<char>, idx: nat, maxlen: nat, s: string, t: string)
    requires maxlen <= |b|
    ensures Put(Put(b, idx, maxlen, s), idx + |s|, maxlen, t) == Put(b, idx, maxlen, s + t)
  {
  }

  method OutBuffer(character: char, buffer: array<char>, idx: nat, maxlen: nat)
    requires maxlen <= buffer.Length
    modifies buffer
    ensures buffer[..] == Put(old(buffer[..]), idx, maxlen, [character])
  {
    if idx < maxlen {
      buffer[idx] := character;
    }
  }

  // The reversed scratch buffer.

  /** The spaces missing from have up to width characters. */
  function Pad(have: nat, width: nat): string
  {
    Times(' ', if have < width then width - have else 0)
  }

  function LeadPad(have: nat, width: nat, flags: Flags): string
  {
    if flags.left || flags.zeropad then [] else Pad(have, width)
  }

  function TrailPad(have: nat, width: nat, flags: Flags): string
  {
    if flags.left then Pad(have, width) else []
  }

  function OutRevText(buf: string, width: nat, flags: Flags): string
  {
    LeadPad(|buf|, width, flags) + Reversed(buf) + TrailPad(|buf|, width, flags)
  }

  method OutPad(on: bool, have: nat, width: nat, buffer: array<char>, idx: nat, maxlen: nat) returns (next: nat)
    requires maxlen <= buffer.Length
    modifies buffer
    ensures buffer[..] == Put(old(buffer[..]), idx, maxlen, if on then Pad(have, width) else [])
    ensures next == idx + if on then |Pad(have, width)| else 0
  {
    next := idx;
    var l := have;
    if on {
      while l < width
        invariant have <= l && (l <= width || l == have)
        invariant next == idx + l - have && buffer[..] == Put(old(buffer[..]), idx, maxlen, Times(' ', l - have))
      {
        PutPut(old(buffer[..]), idx, maxlen, Times(' ', l - have), [' ']);
        OutBuffer(' ', buffer, next, maxlen);
        l, next := l + 1, next + 1;
      }
    }
  }

  method OutReversed(buffer: array<char>, idx: nat, maxlen: nat, buf: string) returns (next: nat)
    requires maxlen <= buffer.Length
    modifies buffer
    ensures buffer[..] == Put(old(buffer[..]), idx, maxlen, Reversed(buf)) && next == idx + |buf|
  {
    next := idx;
    var len := |buf|;
    assert buf[len..] == [];
    while len > 0
      invariant 0 <= len <= |buf| && next == idx + |buf| - len
      invariant buffer[..] == Put(old(buffer[..]), idx, maxlen, Reversed(buf[len..]))
    {
      len := len - 1;
      PutPut(old(buffer[..]), idx, maxlen, Reversed(buf[len + 1..]), [buf[len]]);
      assert buf[len..][1..] == buf[len + 1..];
      OutBuffer(buf[len], buffer, next, maxlen);
      next := next + 1;
    }
    assert buf[0..] == buf;
  }

  lemma OutRevParts(b: seq<char>, idx: nat, maxlen: nat, buf: string, width: nat, flags: Flags)
    requires maxlen <= |b|
    ensures var lead := LeadPad(|buf|, width, flags);
            Put(Put(Put(b, idx, maxlen, lead), idx + |lead|, maxlen, Reversed(buf)), idx + |lead| + |buf|, maxlen,
                TrailPad(|buf|, width, flags))
            == Put(b, idx, maxlen, OutRevText(buf, width, flags))
  {
    var lead, rev, trail := LeadPad(|buf|, width, flags), Reversed(buf), TrailPad(|buf|, width, flags);
    PutPut(b, idx, maxlen, lead, rev);
    PutPut(b, idx, maxlen, lead + rev, trail);
  }

  method OutRev(buffer: array<char>, idx: nat, maxlen: nat, buf: string, width: nat, flags: Flags) returns (next: nat)
    requires maxlen <= buffer.Length
    modifies buffer
    ensures buffer[..] == Put(old(buffer[..]), idx, maxlen, OutRevText(buf, width, flags))
    ensures next == idx + |OutRevText(buf, width, flags)|
  {
    OutRevParts(buffer[..], idx, maxlen, buf, width, flags);
    next := OutPad(!flags.left && !flags.zeropad, |buf|, width, buffer, idx, maxlen);
    next := OutReversed(buffer, next, maxlen, buf);
    next := OutPad(flags.left, next - idx, width, buffer, next, maxlen);
  }

  // Zeros, prefix and sign, appended to the digits in reverse order.

  function SignedWidth(width: nat, negative: bool, flags: Flags): nat
  {
    if !flags.left && width > 0 && flags.zeropad && (negative || flags.plus || flags.space) then width - 1 else width
  }

  function ZeroFill(buf: string, n: nat): string
  {
    buf + Times('0', if |buf| < Min(n, NTOA_BUFFER_SIZE) then Min(n, NTOA_BUFFER_SIZE) - |buf| else 0)
  }

  function WithZeros(buf: string, prec: nat, width: nat, flags: Flags): string
  {
    if flags.left then buf
    else if flags.zeropad then ZeroFill(ZeroFill(buf, prec), width)
    else ZeroFill(buf, prec)
  }

  function AppendRoom(buf: string, c: char): string
  {
    if |buf| < NTOA_BUFFER_SIZE then buf + [c] else buf
  }

  /** How many digits the '#' flag takes off again. */
  function HashCut(len: nat, base: nat, prec: nat, width: nat, flags: Flags): (n: nat)
    ensures n <= len
  {
    if !flags.precision && len > 0 && (len == prec || len == width) then
      if len > 1 && base == 16 then 2 else 1
    else 0
  }

  function WithHash(buf: string, base: nat, prec: nat, width: nat, flags: Flags): string
  {
    if !flags.hash then buf
    else
      var b := buf[..|buf| - HashCut(|buf|, base, prec, width, flags)];
      var c := if base == 16 then AppendRoom(b, if flags.uppercase then 'X' else 'x')
               else if base == 2 then AppendRoom(b, 'b') else b;
      AppendRoom(c, '0')
  }

  function WithSign(buf: string, negative: bool, flags: Flags): string
  {
    if negative then AppendRoom(buf, '-')
    else if flags.plus then AppendRoom(buf, '+')
    else if flags.space then AppendRoom(buf, ' ')
    else buf
  }

  function NtoaFormatText(buf: string, negative: bool, base: nat, prec: nat, width: nat, flags: Flags): string
  {
    var w := SignedWidth(width, negative, flags);
    OutRevText(WithSign(WithHash(WithZeros(buf, prec, w, flags), base, prec, w, flags), negative, flags), w, flags)
  }

  method FillZeros(buf: array<char>, len: nat, n: nat) returns (len': nat)
    requires len <= buf.Length == NTOA_BUFFER_SIZE
    modifies buf
    ensures len' <= NTOA_BUFFER_SIZE && buf[..len'] == ZeroFill(old(buf[..len]), n)
  {
    len' := len;
    while len' < n && len' < NTOA_BUFFER_SIZE
      invariant len <= len' <= NTOA_BUFFER_SIZE && (len' <= n || len' == len)
      invariant buf[..len'] == old(buf[..len]) + Times('0', len' - len)
    {
      buf[len'] := '0';
      len' := len' + 1;
    }
  }

  method Append(buf: array<char>, len: nat, c: char) returns (len': nat)
    requires len <= buf.Length == NTOA_BUFFER_SIZE
    modifies buf
    ensures len' <= NTOA_BUFFER_SIZE && buf[..len'] == AppendRoom(old(buf[..len]), c)
  {
    len' := len;
    if len < NTOA_BUFFER_SIZE {
      buf[len] := c;
      len' := len + 1;
    }
  }

  method AppendHash(buf: array<char>, len: nat, base: nat, prec: nat, width: nat, flags: Flags) returns (len': nat)
    requires len <= buf.Length == NTOA_BUFFER_SIZE
    modifies buf
    ensures len' <= NTOA_BUFFER_SIZE && buf[..len'] == WithHash(old(buf[..len]), base, prec, width, flags)
  {
    len' := len;
    if flags.hash {
      if !flags.precision && len' > 0 && (len' == prec || len' == width) {
        len' := len' - 1;
        if len' > 0 && base == 16 {
          len' := len' - 1;
        }
      }
      assert buf[..len'] == buf[..len][..len'];
      if base == 16 && !flags.uppercase {
        len' := Append(buf, len', 'x');
      } else if base == 16 && flags.uppercase {
        len' := Append(buf, len', 'X');
      } else if base == 2 {
        len' := Append(buf, len', 'b');
      }
      len' := Append(buf, len', '0');
    }
  }

  method AppendSign(buf: array<char>, len: nat, negative: bool, flags: Flags) returns (len': nat)
    requires len <= buf.Length == NTOA_BUFFER_SIZE
    modifies buf
    ensures len' <= NTOA_BUFFER_SIZE && buf[..len'] == WithSign(old(buf[..len]), negative, flags)
  {
    len' := len;
    if negative {
      len' := Append(buf, len, '-');
    } else if flags.plus {
      len' := Append(buf, len, '+');
    } else if flags.space {
      len' := Append(buf, len, ' ');
    }
  }

  method NtoaFormat(buffer: array<char>, idx: nat, maxlen: nat, buf: array<char>, len: nat, negative: bool,
                    base: nat, prec: nat, width: nat, flags: Flags) returns (next: nat)
    requires maxlen <= buffer.Length && len <= buf.Length == NTOA_BUFFER_SIZE && buf != buffer
    modifies buffer, buf
    ensures var text := NtoaFormatText(old(buf[..len]), negative, base, prec, width, flags);
            buffer[..] == Put(old(buffer[..]), idx, maxlen, text) && next == idx + |text|
  {
    var len', w := len, width;
    if !flags.left {
      if w > 0 && flags.zeropad && (negative || flags.plus || flags.space) {
        w := w - 1;
      }
      len' := FillZeros(buf, len', prec);
      if flags.zeropad {
        len' := FillZeros(buf, len', w);
      }
    }
    len' := AppendHash(buf, len', base, prec, w, flags);
    len' := AppendSign(buf, len', negative, flags);
    next := OutRev(buffer, idx, maxlen, buf[..len'], w, flags);
  }

  // Conversion of an integer.

  /** The digits that fit into room characters. */
  function DigitsIn(v: nat, base: nat, upper: bool, room: nat): string
    requires 2 <= base <= 36
  {
    if room == 0 then []
    else [DigitChar(Rem(v, base), upper)]
         + (if Quot(v, base) == 0 then [] else DigitsIn(Quot(v, base), base, upper, room - 1))
  }

  lemma {:induction false} AllDigitsIn(v: nat, base: nat, upper: bool, room: nat)
    requires 2 <= base <= 36 && |Digits(v, base, upper)| <= room
    ensures DigitsIn(v, base, upper, room) == Digits(v, base, upper)
    decreases room
  {
    if Quot(v, base) == 0 {
    } else {
      AllDigitsIn(Quot(v, base), base, upper, room - 1);
    }
  }

  function NtoaDigits(value: nat, base: nat, flags: Flags): string
    requires 2 <= base <= 36
  {
    if !flags.precision || value > 0 then DigitsIn(value, base, flags.uppercase, NTOA_BUFFER_SIZE) else []
  }

  function NtoaText(value: nat, negative: bool, base: nat, prec: nat, width: nat, flags: Flags): string
    requires 2 <= base <= 36
  {
    NtoaFormatText(NtoaDigits(value, base, flags), negative, base, prec, width,
                   if value == 0 then flags.(hash := false) else flags)
  }

  method DivRem(v: nat, base: nat) returns (q: nat, r: nat)
    requires base >= 2
    ensures q == Quot(v, base) && r == Rem(v, base)
  {
    DivMod(v, base);
    q, r := v / base, v % base;
  }

  lemma DigitsInStep(done: string, v: nat, base: nat, upper: bool, room: nat)
    requires 2 <= base <= 36 && room > 0
    ensures done + DigitsIn(v, base, upper, room)
            == done + [DigitChar(Rem(v, base), upper)]
               + if Quot(v, base) == 0 || room == 1 then [] else DigitsIn(Quot(v, base), base, upper, room - 1)
  {
    var c := [DigitChar(Rem(v, base), upper)];
    var rest := if Quot(v, base) == 0 || room == 1 then [] else DigitsIn(Quot(v, base), base, upper, room - 1);
    assert DigitsIn(v, base, upper, room) == c + rest;
    assert done + (c + rest) == done + c + rest;
  }

  method PutDigit(buf: array<char>, len: nat, d: nat, upper: bool)
    requires len < buf.Length && d < 36
    modifies buf
    ensures buf[..len + 1] == old(buf[..len]) + [DigitChar(d, upper)]
  {
    buf[len] := if d < 10 then '0' + d as char else (if upper then 'A' else 'a') + (d - 10) as char;
  }

  method DigitLoop(buf: array<char>, value: nat, base: nat, upper: bool) returns (len: nat)
    requires buf.Length == NTOA_BUFFER_SIZE && 2 <= base <= 36
    modifies buf
    ensures len <= NTOA_BUFFER_SIZE && buf[..len] == DigitsIn(value, base, upper, NTOA_BUFFER_SIZE)
  {
    ghost var all, room: nat := DigitsIn(value, base, upper, NTOA_BUFFER_SIZE), NTOA_BUFFER_SIZE;
    len := 0;
    var v: nat := value;
    assert buf[..0] + all == all;
    while true
      invariant 0 <= len && len + room == NTOA_BUFFER_SIZE && room > 0
      invariant buf[..len] + DigitsIn(v, base, upper, room) == all
      decreases room
    {
      DigitsInStep(buf[..len], v, base, upper, room);
      var rest, digit := DivRem(v, base);
      PutDigit(buf, len, digit, upper);
      len, v, room := len + 1, rest, room - 1;
      if v == 0 || len >= NTOA_BUFFER_SIZE {
        break;
      }
    }
  }

  /** _ntoa_long and _ntoa_long_long, which are the same on 64-bit values. */
  method NtoaLong(buffer: array<char>, idx: nat, maxlen: nat, value: nat, negative: bool,
                  base: nat, prec: nat, width: nat, flags: Flags) returns (next: nat)
    requires maxlen <= buffer.Length && 2 <= base <= 36
    modifies buffer
    ensures var text := NtoaText(value, negative, base, prec, width, flags);
            buffer[..] == Put(old(buffer[..]), idx, maxlen, text) && next == idx + |text|
  {
    var buf := new char[NTOA_BUFFER_SIZE];
    var len := 0;
    if !flags.precision || value > 0 {
      len := DigitLoop(buf, value, base, flags.uppercase);
    }
    assert buf[..len] == NtoaDigits(value, base, flags);
    next := NtoaFormat(buffer, idx, maxlen, buf, len, negative, base, prec, width,
                       if value == 0 then flags.(hash := false) else flags);
  }
}
