/**
 * Order-preserving selection from a sequence: the shape shared by the
 * script's author and tag loops, which walk a list and append an image of
 * each element that passes a test.
 */
module Seqs {

  /** The images under `f`, in order, of the elements of `s` that satisfy `keep`. */
  function Select<A, B>(s: seq<A>, keep: A -> bool, f: A -> B): seq<B>
  {
    if s == [] then []
    else Select(s[..|s| - 1], keep, f) + (if keep(s[|s| - 1]) then [f(s[|s| - 1])] else [])
  }

  /** The positions of `s` whose elements satisfy `keep`, in the order they occur. */
  function Kept<A>(s: seq<A>, keep: A -> bool): seq<nat>
  {
    if s == [] then []
    else Kept(s[..|s| - 1], keep) + (if keep(s[|s| - 1]) then [|s| - 1] else [])
  }

  predicate Increasing(ix: seq<nat>)
  {
    forall j, k :: 0 <= j < k < |ix| ==> ix[j] < ix[k]
  }

  /** `Kept` lists, in increasing order, exactly the positions whose elements pass `keep`. */
  lemma {:induction false} KeptExactly<A>(s: seq<A>, keep: A -> bool)
    ensures Increasing(Kept(s, keep))
    ensures forall k :: 0 <= k < |Kept(s, keep)| ==> Kept(s, keep)[k] < |s| && keep(s[Kept(s, keep)[k]])
    ensures forall i :: 0 <= i < |s| && keep(s[i]) ==> i in Kept(s, keep)
  {
    if s != [] {
      var t := s[..|s| - 1];
      KeptExactly(t, keep);
      assert forall i :: 0 <= i < |t| ==> t[i] == s[i];
      assert forall i :: 0 <= i < |s| - 1 && keep(s[i]) ==> i in Kept(t, keep);
    }
  }

  /** Entry `k` of the selection is the image of the element at the `k`-th kept position. */
  lemma {:induction false} SelectAt<A, B>(s: seq<A>, keep: A -> bool, f: A -> B)
    ensures |Select(s, keep, f)| == |Kept(s, keep)|
    ensures forall k :: 0 <= k < |Kept(s, keep)| ==>
      Kept(s, keep)[k] < |s| && Select(s, keep, f)[k] == f(s[Kept(s, keep)[k]])
  {
    KeptExactly(s, keep);
    if s != [] {
      var t := s[..|s| - 1];
      SelectAt(t, keep, f);
      KeptExactly(t, keep);
      assert forall i :: 0 <= i < |t| ==> t[i] == s[i];
    }
  }

  /** A value occurs in the selection iff it is the image of some element that passes `keep`. */
  lemma {:induction false} SelectMember<A, B>(s: seq<A>, keep: A -> bool, f: A -> B, y: B)
    ensures y in Select(s, keep, f) <==> exists i :: 0 <= i < |s| && keep(s[i]) && f(s[i]) == y
  {
    if s != [] {
      var t := s[..|s| - 1];
      SelectMember(t, keep, f, y);
      assert forall i :: 0 <= i < |t| ==> t[i] == s[i];
      if y in Select(s, keep, f) && y !in Select(t, keep, f) {
        assert keep(s[|s| - 1]) && f(s[|s| - 1]) == y;
      }
    }
  }

  /** Selecting from a concatenation concatenates the selections. */
  lemma {:induction false} SelectConcat<A, B>(s: seq<A>, t: seq<A>, keep: A -> bool, f: A -> B)
    ensures Select(s + t, keep, f) == Select(s, keep, f) + Select(t, keep, f)
  {
    if t == [] {
      assert s + t == s;
    } else {
      var u := t[..|t| - 1];
      SelectConcat(s, u, keep, f);
      assert (s + t)[..|s + t| - 1] == s + u;
      assert (s + t)[|s + t| - 1] == t[|t| - 1];
    }
  }
}
