/** The list operations the curve types use: LINQ's Select, Reverse and Last. */
module Sequences {
  /** `Select`: `f` applied to every element, in order. */
  function Map<A, B>(f: A -> B, s: seq<A>): (r: seq<B>)
    ensures |r| == |s|
    ensures forall i :: 0 <= i < |s| ==> r[i] == f(s[i])
  {
    if s == [] then [] else [f(s[0])] + Map(f, s[1..])
  }

  /** `Reverse`: the elements from last to first. */
  function Reverse<T>(s: seq<T>): (r: seq<T>)
    ensures |r| == |s|
    ensures forall i :: 0 <= i < |s| ==> r[i] == s[|s| - 1 - i]
  {
    if s == [] then [] else Reverse(s[1..]) + [s[0]]
  }

  /** `Last`: the final element of a non-empty list. */
  function Last<T>(s: seq<T>): T
    requires |s| > 0
  {
    s[|s| - 1]
  }

  /** Reversing twice gives the list back. */
  lemma ReverseInvolution<T>(s: seq<T>)
    ensures Reverse(Reverse(s)) == s
  {
    var r := Reverse(Reverse(s));
    assert forall i :: 0 <= i < |s| ==> r[i] == s[i];
  }

  /** Reversing commutes with mapping. */
  lemma MapReverse<A, B>(f: A -> B, s: seq<A>)
    ensures Map(f, Reverse(s)) == Reverse(Map(f, s))
  {
    var l, r := Map(f, Reverse(s)), Reverse(Map(f, s));
    assert forall i :: 0 <= i < |s| ==> l[i] == r[i];
  }

  /** Mapping a prefix one element longer appends that element's image. */
  lemma MapSnoc<A, B>(f: A -> B, s: seq<A>, i: nat)
    requires i < |s|
    ensures Map(f, s[..i + 1]) == Map(f, s[..i]) + [f(s[i])]
  {
    var l, r := Map(f, s[..i + 1]), Map(f, s[..i]) + [f(s[i])];
    assert forall k :: 0 <= k < |l| ==> l[k] == r[k];
  }
}
