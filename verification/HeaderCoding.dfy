/** The header of a dynamic block as data: what the reference decoder accepts is exactly what
    the encoder below writes, and it returns the codes the header describes. */
module HeaderCoding {
  import opened BitOps
  import opened BitStream
  import opened Substrings
  import opened CanonicalCode
  import opened Deflate
  import opened TokenCoding

  // Run-length coded lengths.

  /** A length of its own, or a run of the previous length or of zeros, with its extra bits. */
  datatype Run = One(len: nat) | Again(n: nat) | Zeros(n: nat) | ManyZeros(n: nat)

  function Symbol(run: Run): nat
  {
    match run
    case One(len) => len
    case Again(_) => 16
    case Zeros(_) => 17
    case ManyZeros(_) => 18
  }

  predicate RunOk(cl: seq<nat>, run: Run)
  {
    Symbol(run) < |cl| && cl[Symbol(run)] > 0
    && if run.One? then run.len < 16 else run.n < Pow2(RunExtra(Symbol(run)))
  }

  function RunWord(cl: seq<nat>, run: Run): seq<bool>
  {
    Codeword(cl, Symbol(run)) + (if run.One? then [] else LsbWord(run.n, RunExtra(Symbol(run))))
  }

  /** How many lengths the run stands for, and which. */
  function RunLength(run: Run): (n: nat)
    ensures n > 0
  {
    if run.One? then 1 else run.n + RunBase(Symbol(run))
  }

  predicate RunFits(acc: seq<nat>, run: Run, total: nat)
  {
    |acc| + RunLength(run) <= total && (run.Again? ==> acc != [])
  }

  function Unrolled(acc: seq<nat>, run: Run): seq<nat>
    requires run.Again? ==> acc != []
  {
    match run
    case One(len) => acc + [len]
    case Again(_) => acc + Copies(acc[|acc| - 1], RunLength(run))
    case _ => acc + Copies(0, RunLength(run))
  }

  /** The runs give exactly total lengths. */
  predicate RunsFit(acc: seq<nat>, runs: seq<Run>, total: nat)
    decreases |runs|
  {
    if runs == [] then |acc| == total
    else RunFits(acc, runs[0], total) && RunsFit(Unrolled(acc, runs[0]), runs[1..], total)
  }

  function ExpandRuns(acc: seq<nat>, runs: seq<Run>, total: nat): seq<nat>
    requires RunsFit(acc, runs, total)
    decreases |runs|
  {
    if runs == [] then acc else ExpandRuns(Unrolled(acc, runs[0]), runs[1..], total)
  }

  predicate RunsOk(cl: seq<nat>, runs: seq<Run>)
  {
    runs == [] || (RunOk(cl, runs[0]) && RunsOk(cl, runs[1..]))
  }

  function RunsWord(cl: seq<nat>, runs: seq<Run>): seq<bool>
  {
    if runs == [] then [] else RunWord(cl, runs[0]) + RunsWord(cl, runs[1..])
  }

  // One step of the decoder.

  ghost predicate Coder(cl: seq<nat>)
  {
    Kraft(cl) && |cl| == 19
  }

  lemma OneStep(cl: seq<nat>, bits: seq<bool>, p: nat, total: nat, acc: seq<nat>, c: nat, p1: nat)
    requires Coder(cl) && |acc| < total && Lengths(acc) && c < 16 && RefSymbol(cl, bits, p) == Done(c, p1)
    ensures RefLengths(cl, bits, p, total, acc) == RefLengths(cl, bits, p1, total, Unrolled(acc, One(c)))
  {
  }

  lemma RunStep(cl: seq<nat>, bits: seq<bool>, p: nat, total: nat, acc: seq<nat>, c: nat, p1: nat, n: nat, p2: nat)
    requires Coder(cl) && |acc| < total && Lengths(acc) && 16 <= c < 19
    requires RefSymbol(cl, bits, p) == Done(c, p1) && RefReceive(bits, p1, RunExtra(c)) == Done(n, p2)
    ensures var count := n + RunBase(c);
            RefLengths(cl, bits, p, total, acc)
            == if (c == 16 && acc == []) || total - |acc| < count then Corrupt
               else RefLengths(cl, bits, p2, total, acc + Copies(if c == 16 then acc[|acc| - 1] else 0, count))
  {
  }

  function RunOf(c: nat, n: nat): Run
  {
    if c < 16 then One(c) else if c == 16 then Again(n) else if c == 17 then Zeros(n) else ManyZeros(n)
  }

  /** A run that stands at p is what the decoder takes next. */
  lemma RunComplete(cl: seq<nat>, bits: seq<bool>, p: nat, total: nat, acc: seq<nat>, run: Run)
    requires Coder(cl) && Lengths(acc) && RunOk(cl, run) && RunFits(acc, run, total)
    requires Holds(bits, p, RunWord(cl, run)) && p + |RunWord(cl, run)| + LOOKAHEAD <= |bits|
    ensures Lengths(Unrolled(acc, run))
    ensures RefLengths(cl, bits, p, total, acc)
            == RefLengths(cl, bits, p + |RunWord(cl, run)|, total, Unrolled(acc, run))
  {
    var c := Symbol(run);
    var w, x := Codeword(cl, c), if run.One? then [] else LsbWord(run.n, RunExtra(c));
    HoldsConcat(bits, p, w, x);
    CodewordRead(cl, bits, p, c);
    if run.One? {
      OneStep(cl, bits, p, total, acc, c, p + |w|);
    } else {
      ReceiveRead(bits, p + |w|, RunExtra(c), run.n);
      RunStep(cl, bits, p, total, acc, c, p + |w|, run.n, p + |w| + |x|);
    }
  }

  lemma LongRunSound(cl: seq<nat>, bits: seq<bool>, p: nat, total: nat, acc: seq<nat>, c: nat, p1: nat)
      returns (run: Run)
    requires Coder(cl) && Lengths(acc) && |acc| < total && RefLengths(cl, bits, p, total, acc).Done?
    requires RefSymbol(cl, bits, p) == Done(c, p1) && 16 <= c && p1 <= |bits|
    ensures Symbol(run) == c && !run.One? && run.n < Pow2(RunExtra(c)) && RunFits(acc, run, total)
    ensures Lengths(Unrolled(acc, run)) && Holds(bits, p1, LsbWord(run.n, RunExtra(c)))
    ensures RefLengths(cl, bits, p, total, acc) == RefLengths(cl, bits, p1 + RunExtra(c), total, Unrolled(acc, run))
  {
    var r := RefReceive(bits, p1, RunExtra(c));
    assert r.Done?;
    ReceiveSpelled(bits, p1, RunExtra(c));
    run := RunOf(c, r.value);
    RunStep(cl, bits, p, total, acc, c, p1, r.value, r.next);
  }

  /** Whatever the decoder takes next is the word of a fitting run. */
  lemma RunSound(cl: seq<nat>, bits: seq<bool>, p: nat, total: nat, acc: seq<nat>) returns (run: Run)
    requires Coder(cl) && Lengths(acc) && |acc| < total && RefLengths(cl, bits, p, total, acc).Done?
    ensures RunOk(cl, run) && RunFits(acc, run, total) && Lengths(Unrolled(acc, run))
    ensures Holds(bits, p, RunWord(cl, run)) && p + |RunWord(cl, run)| <= |bits|
    ensures RefLengths(cl, bits, p, total, acc)
            == RefLengths(cl, bits, p + |RunWord(cl, run)|, total, Unrolled(acc, run))
  {
    var s := RefSymbol(cl, bits, p);
    assert s.Done?;
    var c := s.value;
    SymbolSpelled(cl, bits, p);
    var w := Codeword(cl, c);
    if c < 16 {
      run := One(c);
      HoldsConcat(bits, p, w, []);
      HoldsSlice(bits, p + |w|, []);
      OneStep(cl, bits, p, total, acc, c, p + |w|);
    } else {
      run := LongRunSound(cl, bits, p, total, acc, c, p + |w|);
      HoldsConcat(bits, p, w, LsbWord(run.n, RunExtra(c)));
    }
  }

  lemma NextRun(cl: seq<nat>, bits: seq<bool>, p: nat, total: nat, acc: seq<nat>, run: Run, rest: seq<bool>)
    requires Coder(cl) && Lengths(acc) && RunOk(cl, run) && RunFits(acc, run, total)
    requires Holds(bits, p, RunWord(cl, run) + rest) && p + |RunWord(cl, run)| + |rest| + LOOKAHEAD <= |bits|
    ensures Lengths(Unrolled(acc, run)) && Holds(bits, p + |RunWord(cl, run)|, rest)
    ensures RefLengths(cl, bits, p, total, acc)
            == RefLengths(cl, bits, p + |RunWord(cl, run)|, total, Unrolled(acc, run))
  {
    HoldsConcat(bits, p, RunWord(cl, run), rest);
    RunComplete(cl, bits, p, total, acc, run);
  }

  /** Decoding the lengths undoes their run-length coding. */
  lemma {:induction false} LengthsComplete(cl: seq<nat>, bits: seq<bool>, p: nat, total: nat, acc: seq<nat>,
                                           runs: seq<Run>)
    requires Coder(cl) && Lengths(acc) && RunsOk(cl, runs) && RunsFit(acc, runs, total)
    requires Holds(bits, p, RunsWord(cl, runs)) && p + |RunsWord(cl, runs)| + LOOKAHEAD <= |bits|
    ensures RefLengths(cl, bits, p, total, acc) == Done(ExpandRuns(acc, runs, total), p + |RunsWord(cl, runs)|)
    decreases |runs|
  {
    if runs == [] {
    } else {
      NextRun(cl, bits, p, total, acc, runs[0], RunsWord(cl, runs[1..]));
      LengthsComplete(cl, bits, p + |RunWord(cl, runs[0])|, total, Unrolled(acc, runs[0]), runs[1..]);
    }
  }

  /** Conversely, accepted lengths are the expansion of runs whose words stand in the stream. */
  lemma {:induction false} LengthsSound(cl: seq<nat>, bits: seq<bool>, p: nat, total: nat, acc: seq<nat>)
      returns (runs: seq<Run>)
    requires Coder(cl) && Lengths(acc) && |acc| <= total && p <= |bits| && RefLengths(cl, bits, p, total, acc).Done?
    ensures RunsOk(cl, runs) && RunsFit(acc, runs, total) && Holds(bits, p, RunsWord(cl, runs))
    ensures RefLengths(cl, bits, p, total, acc) == Done(ExpandRuns(acc, runs, total), p + |RunsWord(cl, runs)|)
    decreases |bits| - p
  {
    if |acc| == total {
      runs := [];
      HoldsSlice(bits, p, []);
    } else {
      var run := RunSound(cl, bits, p, total, acc);
      var w := RunWord(cl, run);
      var rest := LengthsSound(cl, bits, p + |w|, total, Unrolled(acc, run));
      runs := [run] + rest;
      assert runs[1..] == rest;
      HoldsConcat(bits, p, w, RunsWord(cl, rest));
    }
  }

  // The lengths of the code length code.

  predicate SizesOk(order: seq<nat>)
  {
    order == [] || (order[0] < 8 && SizesOk(order[1..]))
  }

  function SizesWord(order: seq<nat>): (w: seq<bool>)
    ensures |w| == 3 * |order|
  {
    if order == [] then [] else LsbWord(order[0], 3) + SizesWord(order[1..])
  }

  /** The k-th and following sizes, put to the symbols they belong to. */
  function Placed(sizes: seq<nat>, k: nat, order: seq<nat>): (r: seq<nat>)
    requires |sizes| == 19 && k + |order| <= 19
    ensures |r| == 19
    decreases |order|
  {
    if order == [] then sizes else Placed(sizes[DEZIGZAG[k] := order[0]], k + 1, order[1..])
  }

  ghost predicate SmallSizes(sizes: seq<nat>)
  {
    |sizes| == 19 && forall i :: 0 <= i < 19 ==> sizes[i] <= 7
  }

  lemma SizeStep(bits: seq<bool>, p: nat, k: nat, hclen: nat, sizes: seq<nat>, s: nat)
    requires k < hclen <= 19 && SmallSizes(sizes) && s < 8 && p + LOOKAHEAD <= |bits|
    requires RefReceive(bits, p, 3) == Done(s, p + 3)
    ensures RefSizes(bits, p, k, hclen, sizes) == RefSizes(bits, p + 3, k + 1, hclen, sizes[DEZIGZAG[k] := s])
  {
  }

  lemma {:induction false} SizesComplete(bits: seq<bool>, p: nat, k: nat, hclen: nat, sizes: seq<nat>, order: seq<nat>)
    requires k + |order| == hclen <= 19 && SmallSizes(sizes) && SizesOk(order)
    requires Holds(bits, p, SizesWord(order)) && p + |SizesWord(order)| + LOOKAHEAD <= |bits|
    ensures RefSizes(bits, p, k, hclen, sizes) == Done(Placed(sizes, k, order), p + |SizesWord(order)|)
    decreases |order|
  {
    if order == [] {
    } else {
      HoldsConcat(bits, p, LsbWord(order[0], 3), SizesWord(order[1..]));
      Pow2Three();
      ReceiveRead(bits, p, 3, order[0]);
      SizeStep(bits, p, k, hclen, sizes, order[0]);
      SizesComplete(bits, p + 3, k + 1, hclen, sizes[DEZIGZAG[k] := order[0]], order[1..]);
    }
  }

  lemma Pow2Three()
    ensures Pow2(3) == 8
  {
  }

  lemma {:induction false} SizesSound(bits: seq<bool>, p: nat, k: nat, hclen: nat, sizes: seq<nat>)
      returns (order: seq<nat>)
    requires k <= hclen <= 19 && SmallSizes(sizes) && p <= |bits| && RefSizes(bits, p, k, hclen, sizes).Done?
    ensures k + |order| == hclen && SizesOk(order) && Holds(bits, p, SizesWord(order))
    ensures RefSizes(bits, p, k, hclen, sizes) == Done(Placed(sizes, k, order), p + |SizesWord(order)|)
    decreases hclen - k
  {
    if k == hclen {
      order := [];
      HoldsSlice(bits, p, []);
    } else {
      var r := RefReceive(bits, p, 3);
      assert r.Done?;
      ReceiveSpelled(bits, p, 3);
      Pow2Three();
      SizeStep(bits, p, k, hclen, sizes, r.value);
      var rest := SizesSound(bits, p + 3, k + 1, hclen, sizes[DEZIGZAG[k] := r.value]);
      order := [r.value] + rest;
      assert order[1..] == rest;
      HoldsConcat(bits, p, LsbWord(r.value, 3), SizesWord(rest));
    }
  }

  // Whole headers.

  /** The runs give exactly total lengths, and which; also behind some steps of recursion. */
  predicate RunsGive(runs: seq<Run>, total: nat)
  {
    RunsGiveAfter(runs, total, |runs| + 2)
  }

  predicate RunsGiveAfter(runs: seq<Run>, total: nat, steps: nat)
  {
    if steps > 0 then RunsGiveAfter(runs, total, steps - 1) else RunsFit([], runs, total)
  }

  function LengthsOf(runs: seq<Run>, total: nat): seq<nat>
  {
    LengthsAfter(runs, total, |runs| + 2)
  }

  function LengthsAfter(runs: seq<Run>, total: nat, steps: nat): seq<nat>
  {
    if steps > 0 then LengthsAfter(runs, total, steps - 1)
    else if RunsFit([], runs, total) then ExpandRuns([], runs, total)
    else []
  }

  lemma {:induction false} RunsGiveSteps(runs: seq<Run>, total: nat, steps: nat)
    ensures RunsGiveAfter(runs, total, steps) <==> RunsFit([], runs, total)
    ensures LengthsAfter(runs, total, steps) == if RunsFit([], runs, total) then ExpandRuns([], runs, total) else []
  {
    if steps == 0 {
    } else {
      RunsGiveSteps(runs, total, steps - 1);
    }
  }

  datatype Header = Header(hlit: nat, hdist: nat, order: seq<nat>, runs: seq<Run>)

  /** The code length code, behind some steps of recursion like the definitions in BitStream. */
  function LengthCode(order: seq<nat>): (cl: seq<nat>)
    requires |order| <= 19
    ensures |cl| == 19
  {
    LengthCodeAfter(order, |order| + 2)
  }

  function LengthCodeAfter(order: seq<nat>, steps: nat): (cl: seq<nat>)
    requires |order| <= 19
    ensures |cl| == 19
  {
    if steps > 0 then LengthCodeAfter(order, steps - 1) else Placed(Copies(0, 19), 0, order)
  }

  lemma {:induction false} LengthCodeSteps(order: seq<nat>, steps: nat)
    requires |order| <= 19
    ensures LengthCodeAfter(order, steps) == Placed(Copies(0, 19), 0, order)
  {
    if steps == 0 {
    } else {
      LengthCodeSteps(order, steps - 1);
    }
  }

  ghost predicate HeaderOk(h: Header)
  {
    && 257 <= h.hlit <= 288 && 1 <= h.hdist <= 32 && 4 <= |h.order| <= 19 && SizesOk(h.order)
    && Kraft(LengthCode(h.order)) && RunsOk(LengthCode(h.order), h.runs) && RunsGive(h.runs, h.hlit + h.hdist)
    && (var lens := LengthsOf(h.runs, h.hlit + h.hdist);
        |lens| >= h.hlit && Kraft(lens[..h.hlit]) && Kraft(lens[h.hlit..]))
  }

  /** The literal/length and distance code lengths the header describes. */
  ghost function HeaderCodes(h: Header): (seq<nat>, seq<nat>)
    requires HeaderOk(h)
  {
    var lens := LengthsOf(h.runs, h.hlit + h.hdist);
    (lens[..h.hlit], lens[h.hlit..])
  }

  function CountsWord(hlit: nat, hdist: nat, hclen: nat): (w: seq<bool>)
    requires hlit >= 257 && hdist >= 1 && hclen >= 4
    ensures |w| == 14
  {
    LsbWord(hlit - 257, 5) + (LsbWord(hdist - 1, 5) + LsbWord(hclen - 4, 4))
  }

  function HeaderWord(h: Header): seq<bool>
    requires 257 <= h.hlit && 1 <= h.hdist && 4 <= |h.order| <= 19
  {
    CountsWord(h.hlit, h.hdist, |h.order|) + (SizesWord(h.order) + RunsWord(LengthCode(h.order), h.runs))
  }

  lemma CountsComplete(bits: seq<bool>, p: nat, hlit: nat, hdist: nat, hclen: nat)
    requires 257 <= hlit <= 288 && 1 <= hdist <= 32 && 4 <= hclen <= 19 && p + 14 + LOOKAHEAD <= |bits|
    ensures Holds(bits, p, CountsWord(hlit, hdist, hclen)) <==> RefCounts(bits, p) == Done((hlit, hdist, hclen), p + 14)
  {
    var a, b, c := LsbWord(hlit - 257, 5), LsbWord(hdist - 1, 5), LsbWord(hclen - 4, 4);
    HoldsConcat(bits, p, a, b + c);
    HoldsConcat(bits, p + 5, b, c);
    assert Pow2(5) == 32 && Pow2(4) == 16;
    ReceiveRead(bits, p, 5, hlit - 257);
    ReceiveRead(bits, p + 5, 5, hdist - 1);
    ReceiveRead(bits, p + 10, 4, hclen - 4);
  }

  lemma CodeLengthsStep(bits: seq<bool>, p: nat, hclen: nat, total: nat, order: seq<nat>, p1: nat)
    requires |order| <= hclen <= 19 && Kraft(LengthCode(order))
    requires RefSizes(bits, p, 0, hclen, Copies(0, 19)) == Done(LengthCode(order), p1)
    ensures RefCodeLengths(bits, p, hclen, total) == RefLengths(LengthCode(order), bits, p1, total, [])
  {
  }

  lemma SizesRead(bits: seq<bool>, p: nat, order: seq<nat>)
    requires |order| <= 19 && SizesOk(order)
    requires Holds(bits, p, SizesWord(order)) && p + |SizesWord(order)| + LOOKAHEAD <= |bits|
    ensures RefSizes(bits, p, 0, |order|, Copies(0, 19)) == Done(LengthCode(order), p + |SizesWord(order)|)
  {
    LengthCodeSteps(order, |order| + 2);
    SizesComplete(bits, p, 0, |order|, Copies(0, 19), order);
  }

  lemma SizesSpelled(bits: seq<bool>, p: nat, hclen: nat) returns (order: seq<nat>)
    requires hclen <= 19 && p <= |bits| && RefSizes(bits, p, 0, hclen, Copies(0, 19)).Done?
    ensures |order| == hclen && SizesOk(order) && Holds(bits, p, SizesWord(order)) && p + |SizesWord(order)| <= |bits|
    ensures RefSizes(bits, p, 0, hclen, Copies(0, 19)) == Done(LengthCode(order), p + |SizesWord(order)|)
  {
    order := SizesSound(bits, p, 0, hclen, Copies(0, 19));
    HoldsSlice(bits, p, SizesWord(order));
    LengthCodeSteps(order, |order| + 2);
  }

  lemma LengthsRead(cl: seq<nat>, bits: seq<bool>, p: nat, total: nat, runs: seq<Run>)
    requires Coder(cl) && RunsOk(cl, runs) && RunsGive(runs, total)
    requires Holds(bits, p, RunsWord(cl, runs)) && p + |RunsWord(cl, runs)| + LOOKAHEAD <= |bits|
    ensures RefLengths(cl, bits, p, total, []) == Done(LengthsOf(runs, total), p + |RunsWord(cl, runs)|)
  {
    RunsGiveSteps(runs, total, |runs| + 2);
    LengthsComplete(cl, bits, p, total, [], runs);
  }

  lemma LengthsSpelled(cl: seq<nat>, bits: seq<bool>, p: nat, total: nat) returns (runs: seq<Run>)
    requires Coder(cl) && p <= |bits| && RefLengths(cl, bits, p, total, []).Done?
    ensures RunsOk(cl, runs) && RunsGive(runs, total) && Holds(bits, p, RunsWord(cl, runs))
    ensures RefLengths(cl, bits, p, total, []) == Done(LengthsOf(runs, total), p + |RunsWord(cl, runs)|)
  {
    runs := LengthsSound(cl, bits, p, total, []);
    RunsGiveSteps(runs, total, |runs| + 2);
  }

  /** The part of a header behind the counts: it gives total code lengths. */
  lemma CodeLengthsComplete(bits: seq<bool>, p: nat, order: seq<nat>, runs: seq<Run>, total: nat)
    requires |order| <= 19 && SizesOk(order) && Kraft(LengthCode(order))
    requires RunsOk(LengthCode(order), runs) && RunsGive(runs, total)
    requires Holds(bits, p, SizesWord(order) + RunsWord(LengthCode(order), runs))
    requires p + |SizesWord(order)| + |RunsWord(LengthCode(order), runs)| + LOOKAHEAD <= |bits|
    ensures RefCodeLengths(bits, p, |order|, total)
            == Done(LengthsOf(runs, total), p + |SizesWord(order)| + |RunsWord(LengthCode(order), runs)|)
  {
    HoldsConcat(bits, p, SizesWord(order), RunsWord(LengthCode(order), runs));
    SizesRead(bits, p, order);
    LengthsBehind(bits, p, order, LengthCode(order), p + |SizesWord(order)|, runs, total);
  }

  lemma LengthsBehind(bits: seq<bool>, p: nat, order: seq<nat>, cl: seq<nat>, p1: nat, runs: seq<Run>, total: nat)
    requires |order| <= 19 && cl == LengthCode(order) && Kraft(cl) && RunsOk(cl, runs) && RunsGive(runs, total)
    requires RefSizes(bits, p, 0, |order|, Copies(0, 19)) == Done(cl, p1)
    requires Holds(bits, p1, RunsWord(cl, runs)) && p1 + |RunsWord(cl, runs)| + LOOKAHEAD <= |bits|
    ensures RefCodeLengths(bits, p, |order|, total) == Done(LengthsOf(runs, total), p1 + |RunsWord(cl, runs)|)
  {
    CodeLengthsStep(bits, p, |order|, total, order, p1);
    LengthsRead(cl, bits, p1, total, runs);
  }

  lemma CodeLengthsSound(bits: seq<bool>, p: nat, hclen: nat, total: nat) returns (order: seq<nat>, runs: seq<Run>)
    requires hclen <= 19 && p <= |bits| && RefCodeLengths(bits, p, hclen, total).Done?
    ensures |order| == hclen && SizesOk(order) && Kraft(LengthCode(order))
    ensures RunsOk(LengthCode(order), runs) && RunsGive(runs, total)
    ensures Holds(bits, p, SizesWord(order) + RunsWord(LengthCode(order), runs))
    ensures RefCodeLengths(bits, p, hclen, total)
            == Done(LengthsOf(runs, total), p + |SizesWord(order)| + |RunsWord(LengthCode(order), runs)|)
  {
    var r := RefSizes(bits, p, 0, hclen, Copies(0, 19));
    assert r.Done?;
    order := SizesSpelled(bits, p, hclen);
    CodeLengthsStep(bits, p, hclen, total, order, p + |SizesWord(order)|);
    runs := LengthsSpelled(LengthCode(order), bits, p + |SizesWord(order)|, total);
    HoldsConcat(bits, p, SizesWord(order), RunsWord(LengthCode(order), runs));
  }

  lemma HeaderHeld(bits: seq<bool>, p: nat, h: Header)
    requires 257 <= h.hlit <= 288 && 1 <= h.hdist <= 32 && 4 <= |h.order| <= 19
    requires Holds(bits, p, HeaderWord(h)) && p + |HeaderWord(h)| + LOOKAHEAD <= |bits|
    ensures RefCounts(bits, p) == Done((h.hlit, h.hdist, |h.order|), p + 14)
    ensures Holds(bits, p + 14, SizesWord(h.order) + RunsWord(LengthCode(h.order), h.runs))
    ensures |HeaderWord(h)| == 14 + |SizesWord(h.order)| + |RunsWord(LengthCode(h.order), h.runs)|
  {
    HoldsConcat(bits, p, CountsWord(h.hlit, h.hdist, |h.order|),
                SizesWord(h.order) + RunsWord(LengthCode(h.order), h.runs));
    CountsComplete(bits, p, h.hlit, h.hdist, |h.order|);
  }

  lemma HeaderValue(bits: seq<bool>, p: nat, hlit: nat, hdist: nat, hclen: nat, lens: seq<nat>, p2: nat)
    requires RefCounts(bits, p) == Done((hlit, hdist, hclen), p + 14)
    requires RefCodeLengths(bits, p + 14, hclen, hlit + hdist) == Done(lens, p2)
    requires Kraft(lens[..hlit]) && Kraft(lens[hlit..])
    ensures RefHeader(bits, p) == Done((lens[..hlit], lens[hlit..]), p2)
  {
    HeaderSteps(bits, p, p + 2);
  }

  /** Decoding a header undoes encoding it. */
  lemma HeaderComplete(bits: seq<bool>, p: nat, h: Header)
    requires HeaderOk(h) && Holds(bits, p, HeaderWord(h)) && p + |HeaderWord(h)| + LOOKAHEAD <= |bits|
    ensures RefHeader(bits, p) == Done(HeaderCodes(h), p + |HeaderWord(h)|)
  {
    HeaderHeld(bits, p, h);
    CodeLengthsComplete(bits, p + 14, h.order, h.runs, h.hlit + h.hdist);
    HeaderValue(bits, p, h.hlit, h.hdist, |h.order|, LengthsOf(h.runs, h.hlit + h.hdist), p + |HeaderWord(h)|);
  }

  /** The parts of an accepted header. */
  lemma HeaderData(bits: seq<bool>, p: nat) returns (h: Header)
    requires p <= |bits| && RefHeader(bits, p).Done?
    ensures 257 <= h.hlit <= 288 && 1 <= h.hdist <= 32 && 4 <= |h.order| <= 19 && SizesOk(h.order)
    ensures Kraft(LengthCode(h.order)) && RunsOk(LengthCode(h.order), h.runs) && RunsGive(h.runs, h.hlit + h.hdist)
    ensures RefCounts(bits, p) == Done((h.hlit, h.hdist, |h.order|), p + 14)
    ensures RefCodeLengths(bits, p + 14, |h.order|, h.hlit + h.hdist)
            == Done(LengthsOf(h.runs, h.hlit + h.hdist),
                    p + 14 + |SizesWord(h.order)| + |RunsWord(LengthCode(h.order), h.runs)|)
    ensures |LengthsOf(h.runs, h.hlit + h.hdist)| == h.hlit + h.hdist
    ensures Holds(bits, p + 14, SizesWord(h.order) + RunsWord(LengthCode(h.order), h.runs))
  {
    HeaderSteps(bits, p, p + 2);
    var c := RefCounts(bits, p);
    assert c.Done?;
    CountsRange(bits, p);
    var (hlit, hdist, hclen) := c.value;
    var order, runs := CodeLengthsSound(bits, p + 14, hclen, hlit + hdist);
    h := Header(hlit, hdist, order, runs);
  }

  /** Conversely, an accepted header is the encoding of one, and the codes are those it describes. */
  lemma HeaderSound(bits: seq<bool>, p: nat) returns (h: Header)
    requires p <= |bits| && RefHeader(bits, p).Done?
    ensures HeaderOk(h) && Holds(bits, p, HeaderWord(h))
    ensures RefHeader(bits, p) == Done(HeaderCodes(h), p + |HeaderWord(h)|)
  {
    h := HeaderData(bits, p);
    var lens := LengthsOf(h.runs, h.hlit + h.hdist);
    HeaderTail(bits, p, h.hlit, h.hdist, |h.order|, lens,
               p + 14 + |SizesWord(h.order)| + |RunsWord(LengthCode(h.order), h.runs)|);
    HeaderAssembled(h, lens);
    HeaderSpelled(bits, p, h);
  }

  lemma HeaderAssembled(h: Header, lens: seq<nat>)
    requires 257 <= h.hlit <= 288 && 1 <= h.hdist <= 32 && 4 <= |h.order| <= 19 && SizesOk(h.order)
    requires Kraft(LengthCode(h.order)) && RunsOk(LengthCode(h.order), h.runs) && RunsGive(h.runs, h.hlit + h.hdist)
    requires lens == LengthsOf(h.runs, h.hlit + h.hdist) && |lens| >= h.hlit
    requires Kraft(lens[..h.hlit]) && Kraft(lens[h.hlit..])
    ensures HeaderOk(h) && HeaderCodes(h) == (lens[..h.hlit], lens[h.hlit..])
  {
  }

  lemma HeaderTail(bits: seq<bool>, p: nat, hlit: nat, hdist: nat, hclen: nat, lens: seq<nat>, p2: nat)
    requires RefHeader(bits, p).Done? && RefCounts(bits, p) == Done((hlit, hdist, hclen), p + 14)
    requires RefCodeLengths(bits, p + 14, hclen, hlit + hdist) == Done(lens, p2)
    ensures Kraft(lens[..hlit]) && Kraft(lens[hlit..]) && RefHeader(bits, p) == Done((lens[..hlit], lens[hlit..]), p2)
  {
    HeaderSteps(bits, p, p + 2);
  }

  lemma HeaderSpelled(bits: seq<bool>, p: nat, h: Header)
    requires 257 <= h.hlit <= 288 && 1 <= h.hdist <= 32 && 4 <= |h.order| <= 19 && p + 14 + LOOKAHEAD <= |bits|
    requires RefCounts(bits, p) == Done((h.hlit, h.hdist, |h.order|), p + 14)
    requires Holds(bits, p + 14, SizesWord(h.order) + RunsWord(LengthCode(h.order), h.runs))
    ensures Holds(bits, p, HeaderWord(h))
    ensures |HeaderWord(h)| == 14 + |SizesWord(h.order)| + |RunsWord(LengthCode(h.order), h.runs)|
  {
    CountsComplete(bits, p, h.hlit, h.hdist, |h.order|);
    HoldsConcat(bits, p, CountsWord(h.hlit, h.hdist, |h.order|),
                SizesWord(h.order) + RunsWord(LengthCode(h.order), h.runs));
  }

  lemma CountsRange(bits: seq<bool>, p: nat)
    requires RefCounts(bits, p).Done?
    ensures var c := RefCounts(bits, p).value;
            257 <= c.0 <= 288 && 1 <= c.1 <= 32 && 4 <= c.2 <= 19
  {
  }
}
