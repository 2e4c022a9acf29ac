/** Ascending sort of an array of bit positions, as std::sort leaves it. */
module Sorting {

  ghost predicate StrictlyIncreasing(s: seq<nat>)
  {
    forall i, j :: 0 <= i < j < |s| ==> s[i] < s[j]
  }

  function Insert(s: seq<nat>, x: nat): (r: seq<nat>)
    ensures |r| == |s| + 1
  {
    if |s| == 0 then [x]
    else if x <= s[0] then [x] + s
    else [s[0]] + Insert(s[1..], x)
  }

  function Sorted(s: seq<nat>): (r: seq<nat>)
    ensures |r| == |s|
  {
    if |s| == 0 then [] else Insert(Sorted(s[1..]), s[0])
  }

  lemma {:induction false} InsertElements(s: seq<nat>, x: nat, y: nat)
    ensures y in Insert(s, x) <==> y == x || y in s
  {
    if |s| > 0 && x > s[0] { InsertElements(s[1..], x, y); }
  }

  /** Every element of the sorted sequence comes from the sequence. */
  lemma {:induction false} SortedElement(s: seq<nat>, i: nat)
    requires i < |s|
    ensures Sorted(s)[i] in s
  {
    InsertElements(Sorted(s[1..]), s[0], Sorted(s)[i]);
    if Sorted(s)[i] in Sorted(s[1..]) {
      var j :| 0 <= j < |s| - 1 && Sorted(s[1..])[j] == Sorted(s)[i];
      SortedElement(s[1..], j);
    }
  }

  ghost predicate Ascending(s: seq<nat>)
  {
    forall i, j :: 0 <= i < j < |s| ==> s[i] <= s[j]
  }

  lemma {:induction false} InsertAscending(s: seq<nat>, x: nat)
    requires Ascending(s)
    ensures Ascending(Insert(s, x))
  {
    if |s| > 0 && x > s[0] {
      InsertAscending(s[1..], x);
      var t := Insert(s[1..], x);
      forall i | 0 <= i < |t| ensures s[0] <= t[i] { InsertElements(s[1..], x, t[i]); }
    }
  }

  lemma {:induction false} InsertPermutes(s: seq<nat>, x: nat)
    ensures multiset(Insert(s, x)) == multiset(s) + multiset{x}
  {
    if |s| > 0 && x > s[0] {
      assert s == [s[0]] + s[1..];
      InsertPermutes(s[1..], x);
    }
  }

  /** Sorting puts the same numbers in ascending order, repetitions included. */
  lemma {:induction false} SortedAscending(s: seq<nat>)
    ensures Ascending(Sorted(s)) && multiset(Sorted(s)) == multiset(s)
  {
    if |s| > 0 {
      assert s == [s[0]] + s[1..];
      SortedAscending(s[1..]);
      InsertAscending(Sorted(s[1..]), s[0]);
      InsertPermutes(Sorted(s[1..]), s[0]);
    }
  }

  lemma {:induction false} InsertKeepsOrder(s: seq<nat>, x: nat)
    requires StrictlyIncreasing(s) && x !in s
    ensures StrictlyIncreasing(Insert(s, x))
  {
    if |s| > 0 && x > s[0] {
      InsertKeepsOrder(s[1..], x);
      var t := Insert(s[1..], x);
      forall i | 0 <= i < |t| ensures s[0] < t[i] { InsertElements(s[1..], x, t[i]); }
    }
  }

  /** Sorting distinct numbers gives the same numbers, each smaller than the next. */
  lemma {:induction false} SortedDistinct(s: seq<nat>)
    requires forall i, j :: 0 <= i < j < |s| ==> s[i] != s[j]
    ensures StrictlyIncreasing(Sorted(s))
    ensures forall y :: y in Sorted(s) <==> y in s
  {
    if |s| > 0 {
      SortedDistinct(s[1..]);
      forall y ensures y in Sorted(s) <==> y in s { InsertElements(Sorted(s[1..]), s[0], y); }
      assert s[0] !in s[1..];
      InsertKeepsOrder(Sorted(s[1..]), s[0]);
    }
  }

  ghost function Elements(s: seq<nat>): set<nat>
  {
    set x | x in s
  }

  lemma {:induction false} IncreasingSize(s: seq<nat>)
    requires StrictlyIncreasing(s)
    ensures |Elements(s)| == |s|
  {
    if |s| > 0 {
      var last, rest := s[|s| - 1], s[..|s| - 1];
      IncreasingSize(rest);
      assert s == rest + [last];
      assert Elements(s) == Elements(rest) + {last};
      assert last !in rest;
    }
  }

  method Sort(a: array<nat>)
    modifies a
    ensures a[..] == Sorted(old(a[..]))
  {
    var s := Sorted(a[..]);
    for i := 0 to a.Length
      invariant a[..i] == s[..i]
    {
      a[i] := s[i];
    }
  }
}
