/**
 * The generation barrier of base/barrier.hh as a step system.  Every statement
 * of wait() is one step; threads interleave freely, a thread inside the
 * condition variable may wake up for no reason, and the counters are those of
 * 32-bit unsigned integers.
 */
module Barriers {
  const WRAP: nat := 0x1_0000_0000

  /** Where a thread is; gen is its local copy of the generation. */
  datatype Pc =
    | Outside              // not in wait()
    | Called               // wait() called, mutex not yet held
    | Entered              // mutex held
    | Loaded(gen: nat)     // generation copied
    | Last(gen: nat)       // numLeft counted down to 0
    | Bumped(gen: nat)     // generation incremented
    | Rearmed(gen: nat)    // numLeft reset
    | Notified(gen: nat)   // sleepers notified, about to return true
    | Testing(gen: nat)    // mutex held, at the loop test
    | Asleep(gen: nat)     // blocked in the condition variable, mutex released
    | Awake(gen: nat)      // woken up, mutex not yet held again
    | Leaving              // loop left, about to return false
  {
    predicate Holds()
    {
      Entered? || Loaded? || Last? || Bumped? || Rearmed? || Notified? || Testing? || Leaving?
    }

    /** Inside the loop of wait(). */
    predicate Waits()
    {
      Testing? || Asleep? || Awake?
    }

    /** Between completing a generation and returning true. */
    predicate Completes()
    {
      Bumped? || Rearmed? || Notified?
    }
  }

  datatype Option<T> = None | Some(value: T)

  /**
   * The three fields of the barrier, the holder of the mutex and the threads.  The calls
   * and results of the threads and the threads that completed a generation are kept as history.
   */
  datatype State = State(
    numWaiting: nat, generation: nat, numLeft: nat, owner: Option<nat>,
    pcs: seq<Pc>, calls: seq<nat>, results: seq<seq<bool>>, winners: seq<nat>)

  predicate Shaped(s: State)
  {
    |s.pcs| == |s.calls| == |s.results| == s.numWaiting
  }

  function Init(n: nat): State
  {
    State(n, 0, n, None, seq(n, _ => Outside), seq(n, _ => 0), seq(n, _ => []), [])
  }

  /** A thread that needs the mutex can only go on when it is free. */
  predicate Enabled(s: State, t: nat)
    requires Shaped(s)
  {
    t < |s.pcs| && (s.pcs[t].Called? || s.pcs[t].Awake? ==> s.owner == None)
  }

  function WakeAll(pcs: seq<Pc>): (r: seq<Pc>)
    ensures |r| == |pcs|
    ensures forall i :: 0 <= i < |pcs| ==> r[i] == if pcs[i].Asleep? then Awake(pcs[i].gen) else pcs[i]
  {
    seq(|pcs|, i requires 0 <= i < |pcs| => if pcs[i].Asleep? then Awake(pcs[i].gen) else pcs[i])
  }

  /** The next statement of thread t. */
  function Step(s: State, t: nat): (s': State)
    requires Shaped(s) && Enabled(s, t)
    ensures Shaped(s') && s'.numWaiting == s.numWaiting
  {
    match s.pcs[t]
    case Outside => s.(pcs := s.pcs[t := Called], calls := s.calls[t := s.calls[t] + 1])
    case Called => s.(pcs := s.pcs[t := Entered], owner := Some(t))
    case Entered => s.(pcs := s.pcs[t := Loaded(s.generation)])
    case Loaded(gen) =>
      var left := (s.numLeft + WRAP - 1) % WRAP;
      s.(pcs := s.pcs[t := if left == 0 then Last(gen) else Testing(gen)], numLeft := left)
    case Last(gen) =>
      s.(pcs := s.pcs[t := Bumped(gen)], generation := (s.generation + 1) % WRAP, winners := s.winners + [t])
    case Bumped(gen) => s.(pcs := s.pcs[t := Rearmed(gen)], numLeft := s.numWaiting)
    case Rearmed(gen) => s.(pcs := WakeAll(s.pcs)[t := Notified(gen)])
    case Notified(_) =>
      s.(pcs := s.pcs[t := Outside], owner := None, results := s.results[t := s.results[t] + [true]])
    case Testing(gen) =>
      if gen == s.generation
      then s.(pcs := s.pcs[t := Asleep(gen)], owner := None)
      else s.(pcs := s.pcs[t := Leaving])
    case Asleep(gen) => s.(pcs := s.pcs[t := Awake(gen)])
    case Awake(gen) => s.(pcs := s.pcs[t := Testing(gen)], owner := Some(t))
    case Leaving =>
      s.(pcs := s.pcs[t := Outside], owner := None, results := s.results[t := s.results[t] + [false]])
  }

  // ----- the invariant -----

  /** The number of generations completed so far, not wrapped. */
  function Rounds(s: State): nat
  {
    |s.winners|
  }

  /** The number of calls that thread t has returned from. */
  function Returned(s: State, t: nat): nat
    requires Shaped(s) && t < s.numWaiting
  {
    |s.results[t]|
  }

  /** Thread t has been counted for the generation that is open. */
  predicate Arrived(s: State, t: nat)
    requires Shaped(s) && t < s.numWaiting
  {
    s.pcs[t].Last? || (s.pcs[t].Waits() && Returned(s, t) == Rounds(s))
  }

  function Arrivals(s: State): set<nat>
    requires Shaped(s)
  {
    set t: nat | t < s.numWaiting && Arrived(s, t)
  }

  /** Some thread is between completing a generation and notifying the sleepers. */
  predicate Pending(s: State)
    requires Shaped(s)
  {
    s.owner.Some? && s.owner.value < s.numWaiting && (s.pcs[s.owner.value].Bumped? || s.pcs[s.owner.value].Rearmed?)
  }

  ghost predicate ThreadInv(s: State, t: nat)
    requires Shaped(s) && t < s.numWaiting
  {
    var pc, done, rounds := s.pcs[t], Returned(s, t), Rounds(s);
    && (pc.Holds() <==> s.owner == Some(t))
    && s.calls[t] == (if pc.Outside? then done else done + 1)
    && (pc.Outside? || pc.Called? || pc.Entered? || pc.Loaded? || pc.Last? ==> done == rounds)
    && (pc.Completes() || pc.Leaving? ==> done + 1 == rounds)
    && (pc.Waits() ==> done <= rounds <= done + 1)
    && (pc.Loaded? || pc.Last? || pc.Waits() ==> pc.gen == done % WRAP)
    && (pc.Asleep? && done < rounds ==> Pending(s))
    && (forall k :: 0 <= k < done && k < rounds ==> s.results[t][k] == (s.winners[k] == t))
    && (done < rounds ==> (s.winners[done] == t <==> pc.Completes()))
  }

  ghost predicate Inv(s: State)
  {
    && Shaped(s)
    && 0 < s.numWaiting < WRAP
    && s.generation == Rounds(s) % WRAP
    && (s.owner.Some? ==> s.owner.value < s.numWaiting)
    && (forall t: nat :: t < s.numWaiting ==> ThreadInv(s, t))
    && (forall k :: 0 <= k < |s.winners| ==> s.winners[k] < s.numWaiting)
    && var holder := if s.owner.Some? then s.pcs[s.owner.value] else Outside;
       && (holder.Completes() ==> Arrivals(s) == {})
       && (if holder.Bumped? then s.numLeft == 0 else s.numLeft + |Arrivals(s)| == s.numWaiting)
       && (s.numLeft == 0 <==> holder.Last? || holder.Bumped?)
  }

  lemma InvInit(n: nat)
    requires 0 < n < WRAP
    ensures Inv(Init(n))
  {
    assert Arrivals(Init(n)) == {};
  }

  // ----- every step keeps the invariant -----

  /** Steps that leave the fields and the arrivals as they are. */
  lemma InvQuiet(s: State, t: nat)
    requires Inv(s) && Enabled(s, t)
    requires s.pcs[t].Outside? || s.pcs[t].Called? || s.pcs[t].Entered?
    ensures Inv(Step(s, t))
  {
    var s' := Step(s, t);
    assert ThreadInv(s, t);
    forall u: nat | u < s.numWaiting ensures ThreadInv(s', u) { assert ThreadInv(s, u); }
    assert Arrivals(s') == Arrivals(s);
  }

  lemma InvWake(s: State, t: nat)
    requires Inv(s) && Enabled(s, t) && (s.pcs[t].Asleep? || s.pcs[t].Awake?)
    ensures Inv(Step(s, t))
  {
    var s' := Step(s, t);
    assert ThreadInv(s, t);
    forall u: nat | u < s.numWaiting ensures ThreadInv(s', u) { assert ThreadInv(s, u); }
    assert Arrivals(s') == Arrivals(s);
  }

  lemma InvTest(s: State, t: nat)
    requires Inv(s) && Enabled(s, t) && s.pcs[t].Testing?
    ensures Inv(Step(s, t))
  {
    var s' := Step(s, t);
    assert ThreadInv(s, t);
    forall u: nat | u < s.numWaiting ensures ThreadInv(s', u) { assert ThreadInv(s, u); }
    assert Arrivals(s') == Arrivals(s);
  }

  /** Steps that give the mutex back, or leave the loop. */
  lemma InvRelease(s: State, t: nat)
    requires Inv(s) && Enabled(s, t)
    requires s.pcs[t].Notified? || s.pcs[t].Leaving?
    ensures Inv(Step(s, t))
  {
    var s' := Step(s, t);
    assert ThreadInv(s, t);
    forall u: nat | u < s.numWaiting ensures ThreadInv(s', u) { assert ThreadInv(s, u); }
    assert Arrivals(s') == Arrivals(s);
  }

  lemma InvCount(s: State, t: nat)
    requires Inv(s) && Enabled(s, t) && s.pcs[t].Loaded?
    ensures Inv(Step(s, t))
  {
    var s' := Step(s, t);
    assert ThreadInv(s, t);
    forall u: nat | u < s.numWaiting ensures ThreadInv(s', u) { assert ThreadInv(s, u); }
    assert Arrivals(s') == Arrivals(s) + {t};
  }

  lemma InvBump(s: State, t: nat)
    requires Inv(s) && Enabled(s, t) && s.pcs[t].Last?
    ensures Inv(Step(s, t))
  {
    var s' := Step(s, t);
    assert ThreadInv(s, t);
    forall u: nat | u < s.numWaiting ensures ThreadInv(s', u) && !Arrived(s', u) { BumpThread(s, t, u); }
    assert Arrivals(s') == {};
  }

  lemma BumpThread(s: State, t: nat, u: nat)
    requires Inv(s) && Enabled(s, t) && s.pcs[t].Last? && u < s.numWaiting
    ensures ThreadInv(Step(s, t), u) && !Arrived(Step(s, t), u)
  {
    assert ThreadInv(s, t) && ThreadInv(s, u);
    AllArrived(s, u);
  }

  lemma InvRearm(s: State, t: nat)
    requires Inv(s) && Enabled(s, t) && s.pcs[t].Bumped?
    ensures Inv(Step(s, t))
  {
    var s' := Step(s, t);
    assert ThreadInv(s, t);
    forall u: nat | u < s.numWaiting ensures ThreadInv(s', u) { assert ThreadInv(s, u); }
    assert Arrivals(s') == Arrivals(s);
  }

  lemma InvNotify(s: State, t: nat)
    requires Inv(s) && Enabled(s, t) && s.pcs[t].Rearmed?
    ensures Inv(Step(s, t))
  {
    var s' := Step(s, t);
    assert ThreadInv(s, t);
    forall u: nat | u < s.numWaiting ensures ThreadInv(s', u) { assert ThreadInv(s, u); }
    assert Arrivals(s') == Arrivals(s);
  }

  /** When the count has reached 0, every thread has been counted. */
  lemma AllArrived(s: State, u: nat)
    requires Inv(s) && s.numLeft == 0 && s.owner.Some? && s.pcs[s.owner.value].Last? && u < s.numWaiting
    ensures Arrived(s, u)
  {
    if u !in Arrivals(s) { SubsetSize(Arrivals(s), Threads(s.numWaiting) - {u}); }
  }

  function Threads(n: nat): (r: set<nat>)
    ensures |r| == n && forall t: nat :: t in r <==> t < n
  {
    if n == 0 then {} else Threads(n - 1) + {n - 1}
  }

  lemma {:induction false} SubsetSize(a: set<nat>, b: set<nat>)
    requires a <= b
    ensures |a| <= |b|
  {
    if a != {} {
      var x :| x in a;
      SubsetSize(a - {x}, b - {x});
    }
  }

  lemma InvStep(s: State, t: nat)
    requires Inv(s) && Enabled(s, t)
    ensures Inv(Step(s, t))
  {
    match s.pcs[t]
    case Loaded(_) => InvCount(s, t);
    case Last(_) => InvBump(s, t);
    case Bumped(_) => InvRearm(s, t);
    case Rearmed(_) => InvNotify(s, t);
    case Outside => InvQuiet(s, t);
    case Called => InvQuiet(s, t);
    case Entered => InvQuiet(s, t);
    case Asleep(_) => InvWake(s, t);
    case Awake(_) => InvWake(s, t);
    case Notified(_) => InvRelease(s, t);
    case Leaving => InvRelease(s, t);
    case Testing(_) => InvTest(s, t);
  }

  // ----- runs -----

  /** A run from the new barrier: thread who[i] makes the step from states[i] to states[i + 1]. */
  ghost predicate IsRun(n: nat, states: seq<State>, who: seq<nat>)
  {
    && |states| == |who| + 1 && states[0] == Init(n)
    && forall i :: 0 <= i < |who| ==> Shaped(states[i]) && Enabled(states[i], who[i]) && states[i + 1] == Step(states[i], who[i])
  }

  /** The new barrier is a run, and every run goes on with every step that is enabled at its end. */
  lemma RunGoesOn(n: nat, states: seq<State>, who: seq<nat>, t: nat)
    requires IsRun(n, states, who) && Shaped(states[|who|]) && Enabled(states[|who|], t)
    ensures IsRun(n, [Init(n)], [])
    ensures IsRun(n, states + [Step(states[|who|], t)], who + [t])
  {
    var more := states + [Step(states[|who|], t)];
    assert forall i :: 0 <= i < |states| ==> more[i] == states[i];
  }

  lemma {:induction false} RunInv(n: nat, states: seq<State>, who: seq<nat>, i: nat)
    requires 0 < n < WRAP && IsRun(n, states, who) && i <= |who|
    ensures Inv(states[i]) && states[i].numWaiting == n
    decreases i
  {
    if i == 0 {
      InvInit(n);
    } else {
      RunInv(n, states, who, i - 1);
      InvStep(states[i - 1], who[i - 1]);
    }
  }

  /** No thread returns from its k-th wait() before every thread has made its k-th call. */
  lemma NoEarlyReturn(n: nat, states: seq<State>, who: seq<nat>, i: nat, t: nat, u: nat, k: nat)
    requires 0 < n < WRAP && IsRun(n, states, who) && i <= |who| && t < n && u < n
    requires Shaped(states[i]) && states[i].numWaiting == n && k <= Returned(states[i], t)
    ensures k <= states[i].calls[u]
  {
    RunInv(n, states, who, i);
    assert ThreadInv(states[i], t) && ThreadInv(states[i], u);
  }

  /** Exactly one thread gets true from its k-th wait(), once all have returned from it. */
  lemma OneTrue(n: nat, states: seq<State>, who: seq<nat>, i: nat, k: nat) returns (t: nat)
    requires 0 < n < WRAP && IsRun(n, states, who) && i <= |who|
    requires Shaped(states[i]) && states[i].numWaiting == n && forall t: nat :: t < n ==> k < |states[i].results[t]|
    ensures t < n && forall u: nat :: u < n ==> (states[i].results[u][k] <==> u == t)
  {
    RunInv(n, states, who, i);
    var s := states[i];
    assert ThreadInv(s, 0);
    t := s.winners[k];
    forall u: nat | u < n ensures s.results[u][k] == (u == t) { assert ThreadInv(s, u); }
  }

  /** The thread that completes a generation, and so gets true, is the last to arrive: all others wait in it. */
  lemma WinnerIsLast(n: nat, states: seq<State>, who: seq<nat>, i: nat, t: nat, u: nat)
    requires 0 < n < WRAP && IsRun(n, states, who) && i <= |who| && t < n && u < n && u != t
    requires Shaped(states[i]) && states[i].numWaiting == n && states[i].pcs[t].Last?
    ensures states[i].pcs[u].Waits() && Returned(states[i], u) == Rounds(states[i])
  {
    RunInv(n, states, who, i);
    assert ThreadInv(states[i], t) && ThreadInv(states[i], u);
    AllArrived(states[i], u);
  }

  /** At any time, no two threads have got true from their k-th wait(). */
  lemma AtMostOneTrue(n: nat, states: seq<State>, who: seq<nat>, i: nat, k: nat, t: nat, u: nat)
    requires 0 < n < WRAP && IsRun(n, states, who) && i <= |who| && t < n && u < n
    requires Shaped(states[i]) && states[i].numWaiting == n && k < Returned(states[i], t) && k < Returned(states[i], u)
    requires states[i].results[t][k] && states[i].results[u][k]
    ensures t == u
  {
    RunInv(n, states, who, i);
    assert ThreadInv(states[i], t) && ThreadInv(states[i], u);
  }

  /**
   * When the mutex is free: numLeft and the waiters of the open generation make up all threads,
   * and nobody sleeps on a generation that is over.
   */
  lemma FreeMutex(n: nat, states: seq<State>, who: seq<nat>, i: nat)
    requires 0 < n < WRAP && IsRun(n, states, who) && i <= |who| && Shaped(states[i]) && states[i].owner == None
    ensures var s := states[i];
            && s.numLeft + |set t: nat | t < s.numWaiting && s.pcs[t].Waits() && s.pcs[t].gen == s.generation| == n
            && 0 < s.numLeft <= n
            && forall t: nat :: t < s.numWaiting && s.pcs[t].Asleep? ==> s.pcs[t].gen == s.generation
  {
    RunInv(n, states, who, i);
    var s := states[i];
    forall t: nat | t < n ensures Arrived(s, t) <==> s.pcs[t].Waits() && s.pcs[t].gen == s.generation {
      assert ThreadInv(s, t);
      if s.pcs[t].Waits() { WrapTells(s, t); }
    }
    assert Arrivals(s) == set t: nat | t < s.numWaiting && s.pcs[t].Waits() && s.pcs[t].gen == s.generation;
    forall t: nat | t < n && s.pcs[t].Asleep? ensures s.pcs[t].gen == s.generation { assert ThreadInv(s, t); }
  }

  /** A waiter is at most one generation behind, so comparing wrapped generations is exact. */
  lemma WrapTells(s: State, t: nat)
    requires Inv(s) && t < s.numWaiting && s.pcs[t].Waits()
    ensures Returned(s, t) <= Rounds(s) <= Returned(s, t) + 1
    ensures s.pcs[t].gen == s.generation <==> Returned(s, t) == Rounds(s)
  {
    assert ThreadInv(s, t);
  }

  // ----- progress -----

  /** A step that is neither a new call nor a spurious wakeup. */
  predicate Internal(s: State, t: nat)
    requires Shaped(s)
  {
    Enabled(s, t) && !s.pcs[t].Outside? && !s.pcs[t].Asleep?
  }

  /**
   * When only new calls or spurious wakeups can happen, every thread has returned from
   * as many calls as all threads have made, and some thread is outside.
   */
  lemma NothingHangs(s: State, k: nat)
    requires Inv(s) && (forall t: nat :: t < s.numWaiting ==> !Internal(s, t))
    requires forall t: nat :: t < s.numWaiting ==> k <= s.calls[t]
    ensures forall t: nat :: t < s.numWaiting ==> k <= Returned(s, t)
    ensures exists t: nat :: t < s.numWaiting && s.pcs[t].Outside?
  {
    if s.owner.Some? { HolderGoesOn(s); }
    forall t: nat | t < s.numWaiting ensures s.pcs[t].Outside? || s.pcs[t].Asleep? { assert !Internal(s, t); }
    var out := SomeoneOutside(s);
    assert ThreadInv(s, out);
    forall t: nat | t < s.numWaiting ensures k <= Returned(s, t) { assert ThreadInv(s, t); }
  }

  lemma HolderGoesOn(s: State)
    requires Inv(s) && s.owner.Some?
    ensures Internal(s, s.owner.value)
  {
    assert ThreadInv(s, s.owner.value);
  }

  lemma SomeoneOutside(s: State) returns (out: nat)
    requires Inv(s) && s.owner == None && (forall t: nat :: t < s.numWaiting ==> s.pcs[t].Outside? || s.pcs[t].Asleep?)
    ensures out < s.numWaiting && s.pcs[out].Outside?
  {
    if forall t: nat :: t < s.numWaiting ==> s.pcs[t].Asleep? {
      forall t: nat | t < s.numWaiting ensures t in Arrivals(s) { assert ThreadInv(s, t); }
      SubsetSize(Threads(s.numWaiting), Arrivals(s));
      assert false;
    }
    out :| out < s.numWaiting && !s.pcs[out].Asleep?;
  }

  /** A bound on the internal steps that thread t has before it. */
  function Rank(s: State, t: nat): nat
    requires Shaped(s) && t < s.numWaiting
  {
    var open := Returned(s, t) == Rounds(s);
    match s.pcs[t]
    case Outside => 0
    case Called => 10
    case Entered => 9
    case Loaded(_) => 8
    case Last(_) => 7
    case Bumped(_) => 3
    case Rearmed(_) => 2
    case Notified(_) => 1
    case Testing(_) => if open then 5 else 2
    case Asleep(_) => 4
    case Awake(_) => if open then 6 else 3
    case Leaving => 1
  }

  function TotalRank(s: State, n: nat): nat
    requires Shaped(s) && n <= s.numWaiting
  {
    if n == 0 then 0 else TotalRank(s, n - 1) + Rank(s, n - 1)
  }

  lemma {:induction false} TotalBelow(s: State, s': State, n: nat, t: nat)
    requires Shaped(s) && Shaped(s') && s.numWaiting == s'.numWaiting && n <= s.numWaiting
    requires forall u: nat :: u < n ==> Rank(s', u) <= Rank(s, u) && (u == t ==> Rank(s', u) < Rank(s, u))
    ensures TotalRank(s', n) <= TotalRank(s, n)
    ensures t < n ==> TotalRank(s', n) < TotalRank(s, n)
  {
    if n > 0 { TotalBelow(s, s', n - 1, t); }
  }

  lemma RankOwn(s: State, t: nat)
    requires Inv(s) && Internal(s, t)
    ensures Rank(Step(s, t), t) < Rank(s, t)
  {
    assert ThreadInv(s, t);
    if s.pcs[t].Waits() { WrapTells(s, t); }
  }

  lemma RankOther(s: State, t: nat, u: nat)
    requires Inv(s) && Internal(s, t) && u < s.numWaiting && u != t
    ensures Rank(Step(s, t), u) <= Rank(s, u)
  {
    assert ThreadInv(s, u) && ThreadInv(s, t);
    assert s.pcs[t].Rearmed? ==> u !in Arrivals(s);
  }

  /** Every internal step uses up some of the total rank. */
  lemma InternalStepCosts(s: State, t: nat)
    requires Inv(s) && Internal(s, t)
    ensures TotalRank(Step(s, t), s.numWaiting) < TotalRank(s, s.numWaiting)
  {
    forall u: nat | u < s.numWaiting
      ensures Rank(Step(s, t), u) <= Rank(s, u) && (u == t ==> Rank(Step(s, t), u) < Rank(s, u))
    {
      if u == t { RankOwn(s, t); } else { RankOther(s, t, u); }
    }
    TotalBelow(s, Step(s, t), s.numWaiting, t);
  }

  lemma {:induction false} TotalBound(s: State, n: nat)
    requires Shaped(s) && n <= s.numWaiting
    ensures TotalRank(s, n) <= 10 * n
  {
    if n > 0 { TotalBound(s, n - 1); }
  }

  /** In every run, at most 10 steps per thread pass without a new call or a spurious wakeup. */
  lemma RunsSettle(n: nat, states: seq<State>, who: seq<nat>, i: nat, j: nat)
    requires 0 < n < WRAP && IsRun(n, states, who) && i <= j <= |who|
    requires forall k :: i <= k < j ==> Shaped(states[k]) && Internal(states[k], who[k])
    ensures j - i <= 10 * n
  {
    RankFalls(n, states, who, i, j);
    TotalBound(states[i], n);
  }

  lemma {:induction false} RankFalls(n: nat, states: seq<State>, who: seq<nat>, i: nat, j: nat)
    requires 0 < n < WRAP && IsRun(n, states, who) && i <= j <= |who|
    requires forall k :: i <= k < j ==> Shaped(states[k]) && Internal(states[k], who[k])
    ensures Inv(states[i]) && Inv(states[j]) && states[i].numWaiting == n == states[j].numWaiting
    ensures TotalRank(states[j], n) + (j - i) <= TotalRank(states[i], n)
    decreases j
  {
    RunInv(n, states, who, i);
    RunInv(n, states, who, j);
    if i < j {
      RankFalls(n, states, who, i, j - 1);
      InternalStepCosts(states[j - 1], who[j - 1]);
    }
  }
}
