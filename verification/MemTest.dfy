/**
 * The tree of caches and testers of example/memtest.py: the closed formula for
 * the number of testers against the recursion that builds them.
 */
module MemTest {

  const BLOCK_SIZE: nat := 64

  // ----- the formula -----

  /** The number of subsystems at depth i of the tree, the depth of the memory being 0. */
  function Multiplier(cachespec: seq<int>, i: nat): int
    requires i <= |cachespec|
  {
    if i == 0 then 1 else Multiplier(cachespec, i - 1) * cachespec[i - 1]
  }

  /** The testers at the depths below i. */
  function Total(cachespec: seq<int>, testerspec: seq<int>, i: nat): int
    requires i <= |testerspec| && i <= |cachespec| + 1
  {
    if i == 0 then 0 else Total(cachespec, testerspec, i - 1) + testerspec[i - 1] * Multiplier(cachespec, i - 1)
  }

  method NumTesters(cachespec: seq<int>, testerspec: seq<int>) returns (total: int)
    ensures total == Total(cachespec, testerspec, if |testerspec| <= |cachespec| then |testerspec| else |cachespec| + 1)
  {
    var multiplier := [1];
    for i := 0 to |cachespec|
      invariant |multiplier| == i + 1
      invariant forall k :: 0 <= k <= i ==> multiplier[k] == Multiplier(cachespec, k)
    {
      multiplier := multiplier + [multiplier[|multiplier| - 1] * cachespec[i]];
    }
    total := 0;
    for i := 0 to if |testerspec| < |multiplier| then |testerspec| else |multiplier|
      invariant total == Total(cachespec, testerspec, i)
    {
      total := total + testerspec[i] * multiplier[i];
    }
  }

  /** What the script demands of the two lists. */
  predicate ValidSpec(cachespec: seq<int>, testerspec: seq<int>)
  {
    && |cachespec| >= 1 && |testerspec| == |cachespec| + 1
    && testerspec[|cachespec|] != 0
    && (forall i :: 0 <= i < |testerspec| ==> testerspec[i] >= 0)
    && (forall i :: 0 <= i < |cachespec| ==> cachespec[i] >= 1)
  }

  /** The sanity checks of the command line. */
  method Check(cachespec: seq<int>, testerspec: seq<int>) returns (ok: bool)
    ensures ok <==> ValidSpec(cachespec, testerspec) && Total(cachespec, testerspec, |testerspec|) <= BLOCK_SIZE
  {
    if |cachespec| < 1 || |cachespec| != |testerspec| - 1 || testerspec[|testerspec| - 1] == 0 {
      return false;
    }
    for i := 0 to |testerspec|
      invariant forall k :: 0 <= k < i ==> testerspec[k] >= 0
    {
      if testerspec[i] < 0 {
        return false;
      }
    }
    for i := 0 to |cachespec|
      invariant forall k :: 0 <= k < i ==> cachespec[k] >= 1
    {
      if cachespec[i] < 1 {
        return false;
      }
    }
    var total := NumTesters(cachespec, testerspec);
    return total <= BLOCK_SIZE;
  }

  /** The smallest tree that is accepted, and the ways to miss it. */
  lemma SmallestTree()
    ensures ValidSpec([1], [0, 1])
    ensures !ValidSpec([], [1]) && !ValidSpec([1], [1]) && !ValidSpec([1], [0, 1, 1])
    ensures !ValidSpec([1], [1, 0]) && !ValidSpec([1], [-1, 1]) && !ValidSpec([0], [0, 1])
  {
    assert [-1, 1][0] == -1 && [0][0] == 0;
  }

  /** One tester for every byte of a block is accepted, and one more is not. */
  method FullBlock() returns (full: bool, over: bool)
    ensures full && !over
  {
    var c, t, u := [1], [0, 64], [0, 65];
    assert Total(c, t, 2) == Total(c, t, 1) + 64 * Multiplier(c, 1) && Total(c, u, 2) == Total(c, u, 1) + 65 * Multiplier(c, 1);
    full := Check(c, t);
    over := Check(c, u);
  }

  // ----- the recursion -----

  /** The attribute l<level>subsys<index> of the system, and its testers. */
  datatype SubSystem = SubSystem(level: nat, index: nat, testers: nat)

  function SumTesters(s: seq<SubSystem>): nat
  {
    if |s| == 0 then 0 else SumTesters(s[..|s| - 1]) + s[|s| - 1].testers
  }

  /** The testers in a subtree whose lowest crossbar is at the given level. */
  function SubtreeTesters(cachespec: seq<int>, testerspec: seq<int>, level: nat): nat
    requires ValidSpec(cachespec, testerspec) && level <= |cachespec|
  {
    var i := |cachespec| - level;
    testerspec[i] + if level == 0 then 0 else cachespec[i] * SubtreeTesters(cachespec, testerspec, level - 1)
  }

  /** The number of subsystems at level l in such a subtree. */
  function SubtreeSystems(cachespec: seq<int>, testerspec: seq<int>, level: nat, l: nat): nat
    requires ValidSpec(cachespec, testerspec) && level <= |cachespec|
  {
    if l > level then 0
    else if l == level then 1
    else cachespec[|cachespec| - level] * SubtreeSystems(cachespec, testerspec, level - 1, l)
  }

  class System {
    const cachespec: seq<int>
    const testerspec: seq<int>
    var nextSubsysIndex: seq<nat>
    var subsystems: seq<SubSystem>

    /**
     * The names taken so far are l<level>subsys<index> for every index below the next, each taken once, and
     * every subsystem has the testers of its level.
     */
    ghost predicate Valid()
      reads this
    {
      && ValidSpec(cachespec, testerspec)
      && |nextSubsysIndex| == |cachespec| + 1
      && (forall k :: 0 <= k < |subsystems| ==> subsystems[k].level < |nextSubsysIndex| && subsystems[k].index < nextSubsysIndex[subsystems[k].level])
      && (forall k :: 0 <= k < |subsystems| ==> subsystems[k].testers == testerspec[|cachespec| - subsystems[k].level])
      && (forall l, i :: 0 <= l < |nextSubsysIndex| && 0 <= i < nextSubsysIndex[l] ==> Named(subsystems, l, i))
      && (forall j, k :: 0 <= j < k < |subsystems| ==> subsystems[j].level != subsystems[k].level || subsystems[j].index != subsystems[k].index)
    }

    constructor (c: seq<int>, t: seq<int>)
      requires ValidSpec(c, t)
      ensures Valid() && cachespec == c && testerspec == t && subsystems == []
      ensures nextSubsysIndex == seq(|c| + 1, _ => 0)
    {
      cachespec, testerspec := c, t;
      nextSubsysIndex := seq(|c| + 1, _ => 0);
      subsystems := [];
    }

    /** Takes the next index of the level and makes the subsystem of that name. */
    method AddSubsystem(level: nat, ntesters: nat)
      requires Valid() && level <= |cachespec| && ntesters == testerspec[|cachespec| - level]
      modifies this
      ensures Valid() && nextSubsysIndex == old(nextSubsysIndex)[level := old(nextSubsysIndex)[level] + 1]
      ensures SumTesters(subsystems) == old(SumTesters(subsystems)) + ntesters
    {
      var index := nextSubsysIndex[level];
      nextSubsysIndex := nextSubsysIndex[level := index + 1];
      NamedAfter(subsystems, SubSystem(level, index, ntesters));
      subsystems := subsystems + [SubSystem(level, index, ntesters)];
    }

    method MakeCacheLevel(ncaches: seq<int>, level: nat)
      requires Valid() && level <= |cachespec| && ncaches == cachespec[|cachespec| - level..]
      modifies this
      ensures Valid()
      ensures SumTesters(subsystems) == old(SumTesters(subsystems)) + SubtreeTesters(cachespec, testerspec, level)
      ensures forall l :: 0 <= l <= |cachespec| ==>
                            nextSubsysIndex[l] == old(nextSubsysIndex)[l] + SubtreeSystems(cachespec, testerspec, level, l)
      decreases level, 1
    {
      AddSubsystem(level, testerspec[|cachespec| - level]);
      if level != 0 {
        MakeTreeCaches(ncaches, level);
      }
    }

    /** The loop over the caches that fan out from the crossbar of a level. */
    method MakeTreeCaches(ncaches: seq<int>, level: nat)
      requires Valid() && 0 < level <= |cachespec| && ncaches == cachespec[|cachespec| - level..]
      modifies this
      ensures Valid()
      ensures SumTesters(subsystems) == old(SumTesters(subsystems)) + ncaches[0] * SubtreeTesters(cachespec, testerspec, level - 1)
      ensures forall l :: 0 <= l <= |cachespec| ==>
                            nextSubsysIndex[l] == old(nextSubsysIndex)[l] + ncaches[0] * SubtreeSystems(cachespec, testerspec, level - 1, l)
      decreases level, 0
    {
      for k := 0 to ncaches[0]
        invariant Valid()
        invariant SumTesters(subsystems) == old(SumTesters(subsystems)) + k * SubtreeTesters(cachespec, testerspec, level - 1)
        invariant forall l :: 0 <= l <= |cachespec| ==>
                                nextSubsysIndex[l] == old(nextSubsysIndex)[l] + k * SubtreeSystems(cachespec, testerspec, level - 1, l)
      {
        MakeCacheLevel(ncaches[1..], level - 1);
        OneMore(k, SubtreeTesters(cachespec, testerspec, level - 1));
        forall l: nat | l <= |cachespec|
          ensures nextSubsysIndex[l] == old(nextSubsysIndex)[l] + (k + 1) * SubtreeSystems(cachespec, testerspec, level - 1, l)
        {
          OneMore(k, SubtreeSystems(cachespec, testerspec, level - 1, l));
        }
      }
    }
  }

  lemma OneMore(k: int, x: int)
    ensures (k + 1) * x == k * x + x
  {
  }

  ghost predicate Named(s: seq<SubSystem>, level: int, index: int)
  {
    exists k :: 0 <= k < |s| && s[k].level == level && s[k].index == index
  }

  lemma NamedAfter(s: seq<SubSystem>, x: SubSystem)
    ensures Named(s + [x], x.level, x.index)
    ensures forall l, i :: Named(s, l, i) ==> Named(s + [x], l, i)
  {
    var t := s + [x];
    assert t[|s|] == x;
    forall l, i | Named(s, l, i) ensures Named(t, l, i) {
      var k :| 0 <= k < |s| && s[k].level == l && s[k].index == i;
      assert t[k] == s[k];
    }
  }

  // ----- the formula counts what the recursion builds -----

  lemma {:induction false} MultiplierSystems(cachespec: seq<int>, testerspec: seq<int>, level: nat, l: nat)
    requires ValidSpec(cachespec, testerspec) && l <= level <= |cachespec|
    ensures Multiplier(cachespec, |cachespec| - level) * SubtreeSystems(cachespec, testerspec, level, l)
         == Multiplier(cachespec, |cachespec| - l)
  {
    if l < level {
      MultiplierSystems(cachespec, testerspec, level - 1, l);
      Regroup(Multiplier(cachespec, |cachespec| - level), cachespec[|cachespec| - level], SubtreeSystems(cachespec, testerspec, level - 1, l));
    }
  }

  lemma Regroup(a: int, b: int, c: int)
    ensures (a * b) * c == a * (b * c)
  {
  }

  lemma {:induction false} TotalTesters(cachespec: seq<int>, testerspec: seq<int>, level: nat)
    requires ValidSpec(cachespec, testerspec) && level <= |cachespec|
    ensures Total(cachespec, testerspec, |cachespec| - level) +
            Multiplier(cachespec, |cachespec| - level) * SubtreeTesters(cachespec, testerspec, level)
         == Total(cachespec, testerspec, |cachespec| + 1)
  {
    var i := |cachespec| - level;
    var m := Multiplier(cachespec, i);
    if level == 0 {
      assert m * testerspec[i] == testerspec[i] * m;
    } else {
      TotalTesters(cachespec, testerspec, level - 1);
      var rest := SubtreeTesters(cachespec, testerspec, level - 1);
      Regroup(m, cachespec[i], rest);
      assert m * (testerspec[i] + cachespec[i] * rest) == testerspec[i] * m + m * (cachespec[i] * rest);
    }
  }

  /** The whole system: as many testers as the formula says, and every subsystem name used exactly once. */
  method Build(cachespec: seq<int>, testerspec: seq<int>) returns (system: System)
    requires ValidSpec(cachespec, testerspec)
    ensures fresh(system) && system.Valid() && system.cachespec == cachespec && system.testerspec == testerspec
    ensures SumTesters(system.subsystems) == Total(cachespec, testerspec, |testerspec|)
    ensures forall l :: 0 <= l <= |cachespec| ==> system.nextSubsysIndex[l] == Multiplier(cachespec, |cachespec| - l)
  {
    system := new System(cachespec, testerspec);
    system.MakeCacheLevel(cachespec, |cachespec|);
    TotalTesters(cachespec, testerspec, |cachespec|);
    forall l: nat | l <= |cachespec| ensures SubtreeSystems(cachespec, testerspec, |cachespec|, l) == Multiplier(cachespec, |cachespec| - l) {
      MultiplierSystems(cachespec, testerspec, |cachespec|, l);
    }
  }
}
