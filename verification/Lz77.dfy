/** Back references: len bytes that repeat what stands dist bytes earlier. */
module Lz77 {
  import opened BitStream

  function CopyBack(out: seq<Byte>, dist: nat, len: nat): seq<Byte>
    requires 1 <= dist <= |out|
    decreases len
  {
    if len == 0 then out else CopyBack(out + [out[|out| - dist]], dist, len - 1)
  }

  /** r extends out by len bytes, each equal to the byte dist places before it, even
      when that byte is itself part of the copy. */
  predicate IsCopy(out: seq<Byte>, dist: nat, len: nat, r: seq<Byte>)
    requires 1 <= dist <= |out|
  {
    |r| == |out| + len && r[..|out|] == out && forall k :: |out| <= k < |r| ==> r[k] == r[k - dist]
  }

  lemma {:induction false} CopyBackIsCopy(out: seq<Byte>, dist: nat, len: nat)
    requires 1 <= dist <= |out|
    ensures IsCopy(out, dist, len, CopyBack(out, dist, len))
    decreases len
  {
    if len == 0 {
    } else {
      var more := out + [out[|out| - dist]];
      CopyBackIsCopy(more, dist, len - 1);
      var r := CopyBack(more, dist, len - 1);
      assert r[..|out|] == r[..|more|][..|out|] == out;
      assert r[|out|] == r[..|more|][|out|] == out[|out| - dist] == r[..|out|][|out| - dist];
    }
  }

  /** The copy is the only string of that kind. */
  lemma {:induction false} CopyUnique(out: seq<Byte>, dist: nat, len: nat, r: seq<Byte>)
    requires 1 <= dist <= |out| && IsCopy(out, dist, len, r)
    ensures r == CopyBack(out, dist, len)
    decreases len
  {
    if len == 0 {
      assert r == r[..|out|];
    } else {
      assert r[|out|] == r[|out| - dist] == r[..|out|][|out| - dist];
      var more := out + [out[|out| - dist]];
      assert r[..|more|] == more by { assert r[..|more|] == r[..|out|] + [r[|out|]]; }
      CopyUnique(more, dist, len - 1, r);
    }
  }
}
