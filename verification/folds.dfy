/**
 Left folds and sequence reversal: the iterator plumbing (folding and
 reversed iteration) the renderer is built from.
 */
module Folds {

  /** Folds `f` over the elements from first to last, starting from `init`. */
  function FoldLeft<A, B>(f: (B, A) -> B, init: B, s: seq<A>): B
    decreases |s|
  {
    if |s| == 0 then init else FoldLeft(f, f(init, s[0]), s[1..])
  }

  /** Folding one more element on the right is one more step after the fold. */
  lemma {:induction false} FoldLeftSnoc<A, B>(f: (B, A) -> B, init: B, s: seq<A>, a: A)
    ensures FoldLeft(f, init, s + [a]) == f(FoldLeft(f, init, s), a)
    decreases |s|
  {
    if |s| == 0 {
      assert s + [a] == [a];
      assert [a][1..] == [];
    } else {
      assert (s + [a])[0] == s[0];
      assert (s + [a])[1..] == s[1..] + [a];
      FoldLeftSnoc(f, f(init, s[0]), s[1..], a);
    }
  }

  /** The same elements, last first. */
  function Reverse<A>(s: seq<A>): (r: seq<A>)
    ensures |r| == |s|
    ensures forall i :: 0 <= i < |s| ==> r[i] == s[|s| - 1 - i]
  {
    if |s| == 0 then [] else Reverse(s[1..]) + [s[0]]
  }

  /** Reversal turns appending on the right into prepending on the left. */
  lemma ReverseSnoc<A>(s: seq<A>, a: A)
    ensures Reverse(s + [a]) == [a] + Reverse(s)
  {
    var l, r := Reverse(s + [a]), [a] + Reverse(s);
    assert |l| == |r|;
    forall i | 0 <= i < |l|
      ensures l[i] == r[i]
    {
      if i > 0 {
        assert (s + [a])[|s| - i] == s[|s| - i];
      }
    }
  }
}
