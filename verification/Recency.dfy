/**
 * Lists of recently used entries.  The cache of base/addr_range_map.hh holds a
 * prefix of the list of all returned entries, most recent first.
 */
module Recency {

  /** std::list::remove. */
  function Without<T(==)>(s: seq<T>, x: T): (r: seq<T>)
    ensures |r| <= |s| && x !in r
    ensures forall y :: y in r ==> y in s
    ensures forall y :: y in s && y != x ==> y in r
  {
    if |s| == 0 then []
    else if s[0] == x then Without(s[1..], x)
    else [s[0]] + Without(s[1..], x)
  }

  ghost predicate Distinct<T>(s: seq<T>)
  {
    forall i, j :: 0 <= i < j < |s| ==> s[i] != s[j]
  }

  /** The distinct elements of h, the one that occurs last in h first. */
  ghost function ByRecency<T>(h: seq<T>): seq<T>
  {
    if |h| == 0 then []
    else
      var last := h[|h| - 1];
      [last] + Without(ByRecency(h[..|h| - 1]), last)
  }

  function Min(a: nat, b: nat): nat
  {
    if a < b then a else b
  }

  /** The cache after it has been used: moved to the front, or put there in place of the oldest entry. */
  function Touch<T(==)>(cache: seq<T>, x: T, max: nat): seq<T>
  {
    if x in cache then [x] + Without(cache, x)
    else if max == 0 then cache
    else [x] + cache[..Min(|cache|, max - 1)]
  }

  // ----- removing elements -----

  lemma {:induction false} WithoutAbsent<T>(s: seq<T>, x: T)
    requires x !in s
    ensures Without(s, x) == s
  {
    if |s| > 0 { WithoutAbsent(s[1..], x); }
  }

  lemma {:induction false} WithoutAppend<T>(s: seq<T>, t: seq<T>, x: T)
    ensures Without(s + t, x) == Without(s, x) + Without(t, x)
  {
    if |s| == 0 {
      assert s + t == t;
    } else {
      assert (s + t)[1..] == s[1..] + t;
      WithoutAppend(s[1..], t, x);
    }
  }

  lemma WithoutPrefix<T>(s: seq<T>, t: seq<T>, x: T)
    requires s <= t
    ensures Without(s, x) <= Without(t, x)
  {
    assert t == s + t[|s|..];
    WithoutAppend(s, t[|s|..], x);
  }

  lemma {:induction false} WithoutDistinct<T>(s: seq<T>, i: nat)
    requires Distinct(s) && i < |s|
    ensures Without(s, s[i]) == s[..i] + s[i + 1..]
  {
    if i == 0 {
      WithoutAbsent(s[1..], s[0]);
    } else {
      WithoutDistinct(s[1..], i - 1);
      assert s[..i] + s[i + 1..] == [s[0]] + (s[1..][..i - 1] + s[1..][i..]);
    }
  }

  lemma {:induction false} WithoutKeepsDistinct<T>(s: seq<T>, x: T)
    requires Distinct(s)
    ensures Distinct(Without(s, x))
  {
    if |s| > 0 {
      WithoutKeepsDistinct(s[1..], x);
      assert s[0] !in s[1..];
    }
  }

  lemma {:induction false} WithoutSize<T>(s: seq<T>, x: T)
    requires Distinct(s)
    ensures |Without(s, x)| == if x in s then |s| - 1 else |s|
  {
    if |s| > 0 {
      WithoutSize(s[1..], x);
      if s[0] == x { WithoutAbsent(s[1..], x); }
    }
  }

  lemma {:induction false} WithoutCommutes<T>(s: seq<T>, x: T, y: T)
    ensures Without(Without(s, x), y) == Without(Without(s, y), x)
  {
    if |s| > 0 { WithoutCommutes(s[1..], x, y); }
  }

  // ----- the recency list -----

  lemma {:induction false} RecencyElements<T>(h: seq<T>, x: T)
    ensures x in ByRecency(h) <==> x in h
  {
    if |h| > 0 { RecencyElements(h[..|h| - 1], x); }
  }

  lemma {:induction false} RecencyDistinct<T>(h: seq<T>)
    ensures Distinct(ByRecency(h))
  {
    if |h| > 0 {
      RecencyDistinct(h[..|h| - 1]);
      WithoutKeepsDistinct(ByRecency(h[..|h| - 1]), h[|h| - 1]);
    }
  }

  lemma RecencyAppend<T>(h: seq<T>, x: T)
    ensures ByRecency(h + [x]) == [x] + Without(ByRecency(h), x)
  {
    assert (h + [x])[..|h|] == h;
  }

  /** Forgetting an entry's uses takes the entry out of the list. */
  lemma {:induction false} RecencyWithout<T>(h: seq<T>, x: T)
    ensures ByRecency(Without(h, x)) == Without(ByRecency(h), x)
  {
    if |h| > 0 {
      var rest, last := h[..|h| - 1], h[|h| - 1];
      assert h == rest + [last];
      WithoutAppend(rest, [last], x);
      RecencyWithout(rest, x);
      WithoutCommutes(ByRecency(rest), last, x);
      WithoutAppend([last], Without(ByRecency(rest), last), x);
      if last == x {
        WithoutAbsent(Without(ByRecency(rest), x), x);
        assert Without(h, x) == Without(rest, x);
      } else {
        RecencyAppend(Without(rest, x), last);
      }
    }
  }

  /** A cache that is a prefix of the recency list stays one when it is used. */
  lemma TouchKeepsPrefix<T>(cache: seq<T>, h: seq<T>, x: T, max: nat)
    requires cache <= ByRecency(h) && |cache| <= max
    ensures Touch(cache, x, max) <= ByRecency(h + [x]) && |Touch(cache, x, max)| <= max
    ensures max > 0 ==> |Touch(cache, x, max)| > 0
  {
    RecencyAppend(h, x);
    WithoutPrefix(cache, ByRecency(h), x);
    RecencyDistinct(h);
    WithoutSize(cache, x);
    if x !in cache { WithoutAbsent(cache, x); }
  }

  /** A cache that holds as much of the recency list as it has room for still does when it is used. */
  lemma TouchKeepsFull<T>(cache: seq<T>, h: seq<T>, x: T, max: nat)
    requires cache <= ByRecency(h) && |cache| == Min(max, |ByRecency(h)|)
    ensures |Touch(cache, x, max)| == Min(max, |ByRecency(h + [x])|)
  {
    RecencyAppend(h, x);
    RecencyDistinct(h);
    WithoutSize(cache, x);
    WithoutSize(ByRecency(h), x);
    if |ByRecency(h)| <= max { assert cache == ByRecency(h); }
  }

  // ----- removing several elements -----

  ghost function WithoutAll<T>(s: seq<T>, xs: seq<T>): seq<T>
    decreases xs
  {
    if |xs| == 0 then s else WithoutAll(Without(s, xs[0]), xs[1..])
  }

  lemma {:induction false} WithoutAllElements<T>(s: seq<T>, xs: seq<T>, y: T)
    ensures y in WithoutAll(s, xs) <==> y in s && y !in xs
    decreases xs
  {
    if |xs| > 0 { WithoutAllElements(Without(s, xs[0]), xs[1..], y); }
  }

  lemma {:induction false} WithoutAllAbsent<T>(s: seq<T>, xs: seq<T>)
    requires forall x :: x in xs ==> x !in s
    ensures WithoutAll(s, xs) == s
    decreases xs
  {
    if |xs| > 0 {
      WithoutAbsent(s, xs[0]);
      WithoutAllAbsent(s, xs[1..]);
    }
  }

  lemma {:induction false} WithoutAllPrefix<T>(cache: seq<T>, h: seq<T>, xs: seq<T>)
    requires cache <= ByRecency(h)
    ensures WithoutAll(cache, xs) <= ByRecency(WithoutAll(h, xs))
    decreases xs
  {
    if |xs| > 0 {
      WithoutPrefix(cache, ByRecency(h), xs[0]);
      RecencyWithout(h, xs[0]);
      WithoutAllPrefix(Without(cache, xs[0]), Without(h, xs[0]), xs[1..]);
    }
  }
}
