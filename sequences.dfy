/** Sequence helpers shared by the meme generator and the pipeline. */
module Sequences {

  function Min(a: int, b: int): int
  {
    if a <= b then a else b
  }

  /** The elements of `s` in the opposite order. */
  function Reverse<T>(s: seq<T>): (r: seq<T>)
    ensures |r| == |s|
    ensures forall i :: 0 <= i < |s| ==> r[i] == s[|s| - 1 - i]
  {
    if s == [] then [] else [s[|s| - 1]] + Reverse(s[..|s| - 1])
  }

  /**
   * The indices of the elements of `s` that `keep` accepts, in increasing order:
   * the index sequence a filtering loop over `s` visits when it keeps an element.
   */
  function Positions<T>(s: seq<T>, keep: T -> bool): seq<nat>
  {
    if s == [] then []
    else Positions(s[..|s| - 1], keep) + (if keep(s[|s| - 1]) then [|s| - 1] else [])
  }

  /**
   * Positions lists, in strictly increasing order, exactly the indices whose elements `keep`
   * accepts, so there are at most as many of them as elements.
   */
  lemma {:induction false} PositionsExact<T>(s: seq<T>, keep: T -> bool)
    ensures |Positions(s, keep)| <= |s|
    ensures forall j :: 0 <= j < |Positions(s, keep)| ==> Positions(s, keep)[j] < |s| && keep(s[Positions(s, keep)[j]])
    ensures forall j, k :: 0 <= j < k < |Positions(s, keep)| ==> Positions(s, keep)[j] < Positions(s, keep)[k]
    ensures forall i :: 0 <= i < |s| && keep(s[i]) ==> i in Positions(s, keep)
  {
    if s != [] {
      var init := s[..|s| - 1];
      PositionsExact(init, keep);
      var p0, p := Positions(init, keep), Positions(s, keep);
      assert forall j :: 0 <= j < |p0| ==> p[j] == p0[j] && init[p0[j]] == s[p0[j]];
    }
  }

  /** When `keep` accepts no element there are no positions. */
  lemma {:induction false} PositionsNone<T>(s: seq<T>, keep: T -> bool)
    requires forall i :: 0 <= i < |s| ==> !keep(s[i])
    ensures Positions(s, keep) == []
  {
    if s != [] {
      var init := s[..|s| - 1];
      assert forall i :: 0 <= i < |init| ==> init[i] == s[i];
      PositionsNone(init, keep);
    }
  }
}
