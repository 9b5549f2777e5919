/** Compressed blocks as strings of tokens: what the reference decoder accepts is exactly
    what the encoder below writes, and it returns the expansion of the tokens. */
module TokenCoding {
  import opened BitOps
  import opened BitStream
  import opened Substrings
  import opened CanonicalCode
  import opened Tables
  import opened Deflate

  /** A literal byte, or a match given by its two symbols and their extra bits. */
  datatype Token = Literal(b: Byte) | Match(lsym: nat, lext: nat, dsym: nat, dext: nat)

  /** The token can be written with the given codes. */
  predicate Ok(ll: seq<nat>, dl: seq<nat>, t: Token)
  {
    match t
    case Literal(b) => b as nat < |ll| && ll[b as nat] > 0
    case Match(lsym, lext, dsym, dext) => MatchOk(ll, dl, lsym, lext, dsym, dext)
  }

  function Word(ll: seq<nat>, dl: seq<nat>, t: Token): seq<bool>
  {
    match t
    case Literal(b) => Codeword(ll, b as nat)
    case Match(lsym, lext, dsym, dext) => Codeword(ll, lsym) + MatchWord(dl, lsym, lext, dsym, dext)
  }

  /** Length symbols 286 and 287 stand for length 0 here, as in the source's table; section
      3.2.6 of RFC 1951 rules them out. */
  predicate MatchOk(ll: seq<nat>, dl: seq<nat>, lsym: nat, lext: nat, dsym: nat, dext: nat)
  {
    && 257 <= lsym < |ll| && ll[lsym] > 0 && lext < Pow2(LengthExtra(lsym - 257))
    && dsym < |dl| && dsym < 30 && dl[dsym] > 0 && dext < Pow2(DistExtra(dsym))
  }

  /** What the token contributes to the output. */
  function ItemOf(t: Token): Item
  {
    match t
    case Literal(b) => Single(b)
    case Match(lsym, lext, dsym, dext) => MatchItem(lsym, lext, dsym, dext)
  }

  // As in BitStream, definitions that only matter to a few lemmas sit behind some steps
  // of recursion.

  function Codeword(lens: seq<nat>, i: nat): (w: seq<bool>)
    ensures i < |lens| ==> |w| == lens[i]
  {
    CodewordAfter(lens, i, i + 2)
  }

  function CodewordAfter(lens: seq<nat>, i: nat, steps: nat): (w: seq<bool>)
    ensures i < |lens| ==> |w| == lens[i]
  {
    if steps > 0 then CodewordAfter(lens, i, steps - 1)
    else if i < |lens| then MsbWord(Code(lens, i), lens[i])
    else []
  }

  lemma {:induction false} CodewordSteps(lens: seq<nat>, i: nat, steps: nat)
    ensures CodewordAfter(lens, i, steps) == if i < |lens| then MsbWord(Code(lens, i), lens[i]) else []
  {
    if steps == 0 {
    } else {
      CodewordSteps(lens, i, steps - 1);
    }
  }

  function MatchWord(dl: seq<nat>, lsym: nat, lext: nat, dsym: nat, dext: nat): seq<bool>
  {
    MatchWordAfter(dl, lsym, lext, dsym, dext, lsym + 2)
  }

  function MatchWordAfter(dl: seq<nat>, lsym: nat, lext: nat, dsym: nat, dext: nat, steps: nat): seq<bool>
  {
    if steps > 0 then MatchWordAfter(dl, lsym, lext, dsym, dext, steps - 1)
    else if lsym < 257 then []
    else LsbWord(lext, LengthExtra(lsym - 257)) + (Codeword(dl, dsym) + LsbWord(dext, DistExtra(dsym)))
  }

  lemma {:induction false} MatchWordSteps(dl: seq<nat>, lsym: nat, lext: nat, dsym: nat, dext: nat, steps: nat)
    requires lsym >= 257
    ensures MatchWordAfter(dl, lsym, lext, dsym, dext, steps)
            == LsbWord(lext, LengthExtra(lsym - 257)) + (Codeword(dl, dsym) + LsbWord(dext, DistExtra(dsym)))
  {
    if steps == 0 {
    } else {
      MatchWordSteps(dl, lsym, lext, dsym, dext, steps - 1);
    }
  }

  function MatchItem(lsym: nat, lext: nat, dsym: nat, dext: nat): Item
  {
    if lsym < 257 then Finish else Copy(LengthBase(lsym - 257) + lext, DistBase(dsym) + dext)
  }

  predicate AllOk(ll: seq<nat>, dl: seq<nat>, ts: seq<Token>)
  {
    ts == [] || (Ok(ll, dl, ts[0]) && AllOk(ll, dl, ts[1..]))
  }

  /** Codes that can end a block. */
  ghost predicate BlockCodes(ll: seq<nat>, dl: seq<nat>)
  {
    Codes(ll, dl) && Kraft(ll) && Kraft(dl) && END_OF_BLOCK < |ll| && ll[END_OF_BLOCK] > 0
  }

  function BlockWord(ll: seq<nat>, dl: seq<nat>, ts: seq<Token>): seq<bool>
  {
    if ts == [] then Codeword(ll, END_OF_BLOCK) else Word(ll, dl, ts[0]) + BlockWord(ll, dl, ts[1..])
  }

  predicate AllFit(out: seq<Byte>, items: seq<Item>, cap: nat)
    decreases |items|
  {
    items == [] || (Fits(out, items[0], cap) && AllFit(Append(out, items[0], cap), items[1..], cap))
  }

  /** The LZ77 expansion of the items, after out. */
  function Expand(out: seq<Byte>, items: seq<Item>, cap: nat): seq<Byte>
    requires AllFit(out, items, cap)
    decreases |items|
  {
    if items == [] then out else Expand(Append(out, items[0], cap), items[1..], cap)
  }

  function Items(ts: seq<Token>): (items: seq<Item>)
    ensures |items| == |ts|
  {
    if ts == [] then [] else [ItemOf(ts[0])] + Items(ts[1..])
  }

  /** Every copy of 3 to 258 bytes from 1 to 32768 bytes back is the meaning of a token. */
  lemma EveryCopy(len: nat, dist: nat) returns (t: Token)
    requires 3 <= len <= 258 && 1 <= dist <= 32768
    ensures t.Match? && ItemOf(t) == Copy(len, dist) && 257 <= t.lsym < 286 && t.dsym < 30
    ensures t.lext < Pow2(LengthExtra(t.lsym - 257)) && t.dext < Pow2(DistExtra(t.dsym))
  {
    var k, e := EveryLength(len);
    var l, f := EveryDistance(dist);
    t := Match(257 + k, e, l, f);
  }

  // Single reads.

  lemma CodewordRead(lens: seq<nat>, bits: seq<bool>, p: nat, i: nat)
    requires Kraft(lens) && i < |lens| && lens[i] > 0 && p + LOOKAHEAD <= |bits|
    ensures Holds(bits, p, Codeword(lens, i)) <==> RefSymbol(lens, bits, p) == Done(i, p + lens[i])
  {
    CodewordSteps(lens, i, i + 2);
    CodeRange(lens, i);
    MsbHolds(bits, p, lens[i], Code(lens, i));
    if Matches(lens, i, bits, p) {
      SymbolRead(lens, bits, p, i);
    } else {
      SymbolMeaning(lens, bits, p);
    }
  }

  /** Whatever symbol is read, its codeword stands there. */
  lemma SymbolSpelled(lens: seq<nat>, bits: seq<bool>, p: nat)
    requires Kraft(lens) && RefSymbol(lens, bits, p).Done?
    ensures var i := RefSymbol(lens, bits, p).value;
            lens[i] > 0 && Holds(bits, p, Codeword(lens, i)) && RefSymbol(lens, bits, p).next == p + |Codeword(lens, i)|
  {
    SymbolMeaning(lens, bits, p);
    CodewordRead(lens, bits, p, RefSymbol(lens, bits, p).value);
  }

  lemma ReceiveRead(bits: seq<bool>, p: nat, n: nat, v: nat)
    requires n <= 16 && v < Pow2(n) && p + LOOKAHEAD <= |bits|
    ensures Holds(bits, p, LsbWord(v, n)) <==> RefReceive(bits, p, n) == Done(v, p + n)
  {
    LsbHolds(bits, p, n, v);
  }

  lemma ReceiveSpelled(bits: seq<bool>, p: nat, n: nat)
    requires n <= 16 && RefReceive(bits, p, n).Done?
    ensures var r := RefReceive(bits, p, n);
            r.value < Pow2(n) && Holds(bits, p, LsbWord(r.value, n)) && r.next == p + n
  {
    WindowBound(bits, p, n);
    ReceiveRead(bits, p, n, RefReceive(bits, p, n).value);
  }

  lemma ExtraRead(bits: seq<bool>, p: nat, n: nat, v: nat)
    requires n <= 16 && v < Pow2(n) && p + LOOKAHEAD <= |bits|
    ensures Holds(bits, p, LsbWord(v, n)) <==> RefExtra(bits, p, n) == Done(v, p + n)
  {
    ReceiveRead(bits, p, n, v);
  }

  lemma ExtraSpelled(bits: seq<bool>, p: nat, n: nat)
    requires n <= 16 && p <= |bits| && RefExtra(bits, p, n).Done?
    ensures var r := RefExtra(bits, p, n);
            r.value < Pow2(n) && Holds(bits, p, LsbWord(r.value, n)) && r.next == p + n
  {
    if n > 0 {
      ReceiveSpelled(bits, p, n);
    } else {
      LsbWordUnfold(0, 0);
      HoldsSlice(bits, p, []);
    }
  }

  // Matches.

  /** The parts of a match stand one behind the other. */
  ghost predicate Parts(dl: seq<nat>, bits: seq<bool>, p: nat, e1: nat, lext: nat, dsym: nat, e2: nat, dext: nat)
  {
    && dsym < |dl|
    && Holds(bits, p, LsbWord(lext, e1))
    && Holds(bits, p + e1, Codeword(dl, dsym))
    && Holds(bits, p + e1 + dl[dsym], LsbWord(dext, e2))
  }

  lemma MatchParts(ll: seq<nat>, dl: seq<nat>, bits: seq<bool>, p: nat, lsym: nat, lext: nat, dsym: nat, dext: nat,
                   e1: nat, e2: nat)
    requires 257 <= lsym < |ll| && dsym < |dl| && e1 == LengthExtra(lsym - 257) && e2 == DistExtra(dsym)
    ensures var w := Codeword(ll, lsym) + MatchWord(dl, lsym, lext, dsym, dext);
            && |w| == ll[lsym] + e1 + dl[dsym] + e2
            && (Holds(bits, p, w) <==> Holds(bits, p, Codeword(ll, lsym))
                                       && Parts(dl, bits, p + ll[lsym], e1, lext, dsym, e2, dext))
  {
    var w0, w1, w2, w3 := Codeword(ll, lsym), LsbWord(lext, e1), Codeword(dl, dsym), LsbWord(dext, e2);
    MatchWordSteps(dl, lsym, lext, dsym, dext, lsym + 2);
    HoldsConcat(bits, p, w0, w1 + (w2 + w3));
    HoldsConcat(bits, p + |w0|, w1, w2 + w3);
    HoldsConcat(bits, p + |w0| + |w1|, w2, w3);
  }

  lemma MatchComplete(dl: seq<nat>, bits: seq<bool>, p: nat, lsym: nat, e1: nat, lext: nat, dsym: nat, e2: nat,
                      dext: nat)
    requires Kraft(dl) && |dl| <= 32 && 257 <= lsym < 288 && dsym < |dl| && dsym < 30 && dl[dsym] > 0
    requires e1 == LengthExtra(lsym - 257) && lext < Pow2(e1) && e2 == DistExtra(dsym) && dext < Pow2(e2)
    requires Parts(dl, bits, p, e1, lext, dsym, e2, dext) && p + e1 + dl[dsym] + e2 + LOOKAHEAD <= |bits|
    ensures RefMatch(dl, bits, p, lsym)
            == Done((LengthBase(lsym - 257) + lext, DistBase(dsym) + dext), p + e1 + dl[dsym] + e2)
  {
    var p1 := p + e1;
    var p2 := p1 + dl[dsym];
    ExtraRead(bits, p, e1, lext);
    CodewordRead(dl, bits, p1, dsym);
    ExtraRead(bits, p2, e2, dext);
    MatchRead(dl, bits, p, lsym, lext, p1, dsym, p2, dext, p2 + e2);
  }

  lemma MatchSpelled(dl: seq<nat>, bits: seq<bool>, p: nat, lsym: nat)
      returns (e1: nat, lext: nat, dsym: nat, e2: nat, dext: nat)
    requires Kraft(dl) && |dl| <= 32 && 257 <= lsym < 288 && p <= |bits| && RefMatch(dl, bits, p, lsym).Done?
    ensures dsym < |dl| && dsym < 30 && dl[dsym] > 0
    ensures e1 == LengthExtra(lsym - 257) && lext < Pow2(e1) && e2 == DistExtra(dsym) && dext < Pow2(e2)
    ensures Parts(dl, bits, p, e1, lext, dsym, e2, dext)
    ensures RefMatch(dl, bits, p, lsym)
            == Done((LengthBase(lsym - 257) + lext, DistBase(dsym) + dext), p + e1 + dl[dsym] + e2)
  {
    e1 := LengthExtra(lsym - 257);
    var e := RefExtra(bits, p, e1);
    ExtraSpelled(bits, p, e1);
    var s := RefSymbol(dl, bits, e.next);
    SymbolSpelled(dl, bits, e.next);
    e2 := DistExtra(s.value);
    var f := RefExtra(bits, s.next, e2);
    ExtraSpelled(bits, s.next, e2);
    lext, dsym, dext := e.value, s.value, f.value;
  }

  // Tokens.

  lemma TokenComplete(ll: seq<nat>, dl: seq<nat>, bits: seq<bool>, p: nat, t: Token)
    requires BlockCodes(ll, dl) && Ok(ll, dl, t)
    requires Holds(bits, p, Word(ll, dl, t)) && p + |Word(ll, dl, t)| + LOOKAHEAD <= |bits|
    ensures RefItem(ll, dl, bits, p) == Done(ItemOf(t), p + |Word(ll, dl, t)|) && !ItemOf(t).Finish?
  {
    match t
    case Literal(b) =>
      CodewordRead(ll, bits, p, b as nat);
      SingleRead(ll, dl, bits, p, b as nat, p + ll[b as nat]);
    case Match(lsym, lext, dsym, dext) =>
      BackReferenceComplete(ll, dl, bits, p, lsym, lext, dsym, dext);
  }

  lemma BackReferenceComplete(ll: seq<nat>, dl: seq<nat>, bits: seq<bool>, p: nat, lsym: nat, lext: nat, dsym: nat,
                              dext: nat)
    requires Codes(ll, dl) && Kraft(ll) && Kraft(dl) && MatchOk(ll, dl, lsym, lext, dsym, dext)
    requires var w := Codeword(ll, lsym) + MatchWord(dl, lsym, lext, dsym, dext);
             Holds(bits, p, w) && p + |w| + LOOKAHEAD <= |bits|
    ensures RefItem(ll, dl, bits, p)
            == Done(MatchItem(lsym, lext, dsym, dext), p + |Codeword(ll, lsym) + MatchWord(dl, lsym, lext, dsym, dext)|)
  {
    var e1, e2 := LengthExtra(lsym - 257), DistExtra(dsym);
    MatchParts(ll, dl, bits, p, lsym, lext, dsym, dext, e1, e2);
    CodewordRead(ll, bits, p, lsym);
    var p1 := p + ll[lsym];
    MatchComplete(dl, bits, p1, lsym, e1, lext, dsym, e2, dext);
    CopyRead(ll, dl, bits, p, lsym, p1, LengthBase(lsym - 257) + lext, DistBase(dsym) + dext, p1 + e1 + dl[dsym] + e2);
  }

  lemma TokenSound(ll: seq<nat>, dl: seq<nat>, bits: seq<bool>, p: nat) returns (t: Token)
    requires Codes(ll, dl) && Kraft(ll) && Kraft(dl) && RefItem(ll, dl, bits, p).Done?
    requires !RefItem(ll, dl, bits, p).value.Finish?
    ensures Ok(ll, dl, t) && Holds(bits, p, Word(ll, dl, t))
    ensures RefItem(ll, dl, bits, p) == Done(ItemOf(t), p + |Word(ll, dl, t)|)
  {
    ItemRead(ll, dl, bits, p);
    SymbolSpelled(ll, bits, p);
    var z := RefSymbol(ll, bits, p).value;
    if z < 256 {
      t := Literal(z as Byte);
    } else {
      var lext, dsym, dext := BackReferenceSound(ll, dl, bits, p, z);
      t := Match(z, lext, dsym, dext);
    }
  }

  lemma BackReferenceSound(ll: seq<nat>, dl: seq<nat>, bits: seq<bool>, p: nat, lsym: nat)
      returns (lext: nat, dsym: nat, dext: nat)
    requires Codes(ll, dl) && Kraft(ll) && Kraft(dl) && 257 <= lsym < |ll| && ll[lsym] > 0
    requires RefSymbol(ll, bits, p) == Done(lsym, p + ll[lsym]) && Holds(bits, p, Codeword(ll, lsym))
    requires RefItem(ll, dl, bits, p).Done?
    ensures MatchOk(ll, dl, lsym, lext, dsym, dext)
    ensures Holds(bits, p, Codeword(ll, lsym) + MatchWord(dl, lsym, lext, dsym, dext))
    ensures RefItem(ll, dl, bits, p)
            == Done(MatchItem(lsym, lext, dsym, dext), p + |Codeword(ll, lsym) + MatchWord(dl, lsym, lext, dsym, dext)|)
  {
    var p1 := p + ll[lsym];
    CopyReadInverse(ll, dl, bits, p, lsym, p1);
    var e1, e2;
    e1, lext, dsym, e2, dext := MatchSpelled(dl, bits, p1, lsym);
    MatchParts(ll, dl, bits, p, lsym, lext, dsym, dext, e1, e2);
  }

  lemma EndRead(ll: seq<nat>, dl: seq<nat>, bits: seq<bool>, p: nat)
    requires Codes(ll, dl) && Kraft(ll) && p + LOOKAHEAD <= |bits|
    ensures (exists q: nat :: RefItem(ll, dl, bits, p) == Done(Finish, q))
            <==> END_OF_BLOCK < |ll| && ll[END_OF_BLOCK] > 0 && Holds(bits, p, Codeword(ll, END_OF_BLOCK))
    ensures forall q: nat :: RefItem(ll, dl, bits, p) == Done(Finish, q) ==> q == p + |Codeword(ll, END_OF_BLOCK)|
  {
    ItemRead(ll, dl, bits, p);
    if END_OF_BLOCK < |ll| && ll[END_OF_BLOCK] > 0 {
      CodewordRead(ll, bits, p, END_OF_BLOCK);
    }
    if RefSymbol(ll, bits, p).Done? {
      SymbolSpelled(ll, bits, p);
    }
  }

  // Blocks.

  /** The stream spells these items from p on and ends the block at q. */
  ghost predicate Spells(ll: seq<nat>, dl: seq<nat>, bits: seq<bool>, p: nat, q: nat, items: seq<Item>)
    requires Codes(ll, dl)
    decreases |items|
  {
    var r := RefItem(ll, dl, bits, p);
    if items == [] then r == Done(Finish, q)
    else r.Done? && r.value == items[0] && !items[0].Finish? && Spells(ll, dl, bits, r.next, q, items[1..])
  }

  lemma {:induction false} SpelledBlock(ll: seq<nat>, dl: seq<nat>, bits: seq<bool>, p: nat, q: nat, items: seq<Item>,
                                        out: seq<Byte>, cap: nat)
    requires Codes(ll, dl) && Spells(ll, dl, bits, p, q, items) && AllFit(out, items, cap)
    ensures RefBlock(ll, dl, bits, p, out, cap) == Done(Expand(out, items, cap), q)
    decreases |items|
  {
    if items == [] {
    } else {
      SpelledBlock(ll, dl, bits, RefItem(ll, dl, bits, p).next, q, items[1..], Append(out, items[0], cap), cap);
    }
  }

  lemma {:induction false} BlockSpelled(ll: seq<nat>, dl: seq<nat>, bits: seq<bool>, p: nat, out: seq<Byte>, cap: nat)
      returns (items: seq<Item>)
    requires Codes(ll, dl) && RefBlock(ll, dl, bits, p, out, cap).Done?
    ensures AllFit(out, items, cap)
    ensures Spells(ll, dl, bits, p, RefBlock(ll, dl, bits, p, out, cap).next, items)
    ensures RefBlock(ll, dl, bits, p, out, cap).value == Expand(out, items, cap)
    decreases |bits| - p
  {
    var item := RefItem(ll, dl, bits, p).value;
    if item.Finish? {
      items := [];
    } else {
      var rest := BlockSpelled(ll, dl, bits, RefItem(ll, dl, bits, p).next, Append(out, item, cap), cap);
      items := [item] + rest;
      assert items[1..] == rest;
    }
  }

  lemma SpellsCons(ll: seq<nat>, dl: seq<nat>, bits: seq<bool>, p: nat, p1: nat, q: nat, item: Item, rest: seq<Item>)
    requires Codes(ll, dl) && RefItem(ll, dl, bits, p) == Done(item, p1) && !item.Finish?
    requires Spells(ll, dl, bits, p1, q, rest)
    ensures Spells(ll, dl, bits, p, q, [item] + rest)
  {
    assert ([item] + rest)[1..] == rest;
  }

  /** The token in front of a string of words is read first. */
  lemma FirstToken(ll: seq<nat>, dl: seq<nat>, bits: seq<bool>, p: nat, t: Token, rest: seq<bool>)
    requires BlockCodes(ll, dl) && Ok(ll, dl, t)
    requires Holds(bits, p, Word(ll, dl, t) + rest) && p + |Word(ll, dl, t)| + |rest| + LOOKAHEAD <= |bits|
    ensures RefItem(ll, dl, bits, p) == Done(ItemOf(t), p + |Word(ll, dl, t)|) && !ItemOf(t).Finish?
    ensures Holds(bits, p + |Word(ll, dl, t)|, rest)
  {
    HoldsConcat(bits, p, Word(ll, dl, t), rest);
    TokenComplete(ll, dl, bits, p, t);
  }

  lemma {:induction false} WordsSpell(ll: seq<nat>, dl: seq<nat>, bits: seq<bool>, p: nat, q: nat, ts: seq<Token>)
    requires BlockCodes(ll, dl) && AllOk(ll, dl, ts) && q == p + |BlockWord(ll, dl, ts)|
    requires Holds(bits, p, BlockWord(ll, dl, ts)) && q + LOOKAHEAD <= |bits|
    ensures Spells(ll, dl, bits, p, q, Items(ts))
    decreases |ts|
  {
    if ts == [] {
      EndRead(ll, dl, bits, p);
    } else {
      var p1 := p + |Word(ll, dl, ts[0])|;
      FirstToken(ll, dl, bits, p, ts[0], BlockWord(ll, dl, ts[1..]));
      WordsSpell(ll, dl, bits, p1, q, ts[1..]);
      SpellsCons(ll, dl, bits, p, p1, q, ItemOf(ts[0]), Items(ts[1..]));
    }
  }

  lemma {:induction false} SpelledWords(ll: seq<nat>, dl: seq<nat>, bits: seq<bool>, p: nat, q: nat, items: seq<Item>)
      returns (ts: seq<Token>)
    requires Codes(ll, dl) && Kraft(ll) && Kraft(dl) && Spells(ll, dl, bits, p, q, items)
    ensures BlockCodes(ll, dl) && AllOk(ll, dl, ts) && Items(ts) == items
    ensures Holds(bits, p, BlockWord(ll, dl, ts)) && q == p + |BlockWord(ll, dl, ts)|
    decreases |items|
  {
    if items == [] {
      EndRead(ll, dl, bits, p);
      ts := [];
    } else {
      var t := TokenSound(ll, dl, bits, p);
      var w := Word(ll, dl, t);
      var rest := SpelledWords(ll, dl, bits, p + |w|, q, items[1..]);
      ts := [t] + rest;
      assert ts[1..] == rest;
      HoldsConcat(bits, p, w, BlockWord(ll, dl, rest));
    }
  }

  /** Decoding undoes encoding: from any position that holds the encoded tokens and the end
      symbol, the block decoder returns their expansion and stops right behind. */
  lemma BlockRoundTrip(ll: seq<nat>, dl: seq<nat>, bits: seq<bool>, p: nat, out: seq<Byte>, cap: nat, ts: seq<Token>)
    requires BlockCodes(ll, dl) && AllOk(ll, dl, ts) && AllFit(out, Items(ts), cap)
    requires Holds(bits, p, BlockWord(ll, dl, ts)) && p + |BlockWord(ll, dl, ts)| + LOOKAHEAD <= |bits|
    ensures RefBlock(ll, dl, bits, p, out, cap) == Done(Expand(out, Items(ts), cap), p + |BlockWord(ll, dl, ts)|)
  {
    var q := p + |BlockWord(ll, dl, ts)|;
    WordsSpell(ll, dl, bits, p, q, ts);
    SpelledBlock(ll, dl, bits, p, q, Items(ts), out, cap);
  }

  /** Conversely, whatever the block decoder accepts is the encoding of some tokens. */
  lemma BlockSound(ll: seq<nat>, dl: seq<nat>, bits: seq<bool>, p: nat, out: seq<Byte>, cap: nat)
      returns (ts: seq<Token>)
    requires Codes(ll, dl) && Kraft(ll) && Kraft(dl) && RefBlock(ll, dl, bits, p, out, cap).Done?
    ensures BlockCodes(ll, dl) && AllOk(ll, dl, ts) && AllFit(out, Items(ts), cap)
    ensures Holds(bits, p, BlockWord(ll, dl, ts))
    ensures RefBlock(ll, dl, bits, p, out, cap) == Done(Expand(out, Items(ts), cap), p + |BlockWord(ll, dl, ts)|)
  {
    var items := BlockSpelled(ll, dl, bits, p, out, cap);
    ts := SpelledWords(ll, dl, bits, p, RefBlock(ll, dl, bits, p, out, cap).next, items);
  }
}
