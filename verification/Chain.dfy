/** Lists whose elements are acceptable and pairwise related in order. */
module Chains {

  ghost predicate Chain<T>(s: seq<T>, ok: T -> bool, before: (T, T) -> bool)
  {
    && (forall i :: 0 <= i < |s| ==> ok(s[i]))
    && (forall i, j :: 0 <= i < j < |s| ==> before(s[i], s[j]))
  }

  lemma ChainSlice<T>(s: seq<T>, ok: T -> bool, before: (T, T) -> bool, p: nat, q: nat)
    requires Chain(s, ok, before) && p <= q <= |s|
    ensures Chain(s[..p] + s[q..], ok, before)
  {
    var t := s[..p] + s[q..];
    assert forall i :: 0 <= i < |t| ==> t[i] == s[if i < p then i else i + q - p];
  }

  lemma ChainInsert<T>(s: seq<T>, ok: T -> bool, before: (T, T) -> bool, k: nat, x: T)
    requires Chain(s, ok, before) && k <= |s| && ok(x)
    requires forall i :: 0 <= i < k ==> before(s[i], x)
    requires forall i :: k <= i < |s| ==> before(x, s[i])
    ensures Chain(s[..k] + [x] + s[k..], ok, before)
  {
    var t := s[..k] + [x] + s[k..];
    assert forall i :: 0 <= i < |t| && i != k ==> t[i] == s[if i < k then i else i - 1];
    assert t[k] == x;
  }
}
