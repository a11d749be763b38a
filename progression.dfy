/** The mission progression rules shared by the two visualizers.
    A curriculum has `n` missions, indexed 0 .. n-1. The learner's standing is the
    mission currently shown and the set of missions already completed. Both
    visualizer classes keep these two values in fields and update them with the
    methods that these functions specify. */
module Progression {

  /** The standing of a learner: the mission currently shown and the completed missions. */
  datatype Progress = Progress(current: int, completed: set<int>)

  /** Every completed index is a mission, and the pointer never runs past the last mission. */
  predicate Consistent(p: Progress, n: int)
  {
    p.current < n && forall i :: i in p.completed ==> 0 <= i < n
  }

  function Min(a: int, b: int): int { if a <= b then a else b }

  /** One more than the highest completed index below `k`, or 0 when no index below `k`
      is completed: the value of the running maximum after scanning indices 0 .. k-1. */
  function Reach(done: set<int>, k: int): int
    decreases k
  {
    if k <= 0 then 0
    else if k - 1 in done then k
    else Reach(done, k - 1)
  }

  /** The highest mission that may be selected without having completed it. */
  function MaxUnlocked(done: set<int>, n: int): int
  {
    Min(Reach(done, n), n - 1)
  }

  /** Reach is "highest completed index + 1" over 0 .. k-1, and 0 when none is completed. */
  lemma {:induction false} ReachIsHighest(done: set<int>, k: int)
    ensures 0 <= Reach(done, k) <= (if k < 0 then 0 else k)
    ensures Reach(done, k) == 0 <==> (forall i :: 0 <= i < k ==> i !in done)
    ensures Reach(done, k) > 0 ==> Reach(done, k) - 1 in done
    ensures forall i :: Reach(done, k) <= i < k ==> i !in done
    decreases k
  {
    if k > 0 && k - 1 !in done {
      ReachIsHighest(done, k - 1);
    }
  }

  /** The unlock bound lies in 0 .. n-1, and it is 0 when no mission is completed. */
  lemma MaxUnlockedIsBounded(done: set<int>, n: int)
    requires n >= 1
    ensures 0 <= MaxUnlocked(done, n) <= n - 1
    ensures (forall i :: 0 <= i < n ==> i !in done) ==> MaxUnlocked(done, n) == 0
  {
    ReachIsHighest(done, n);
  }

  /** With `top` the highest completed mission, the unlock bound is min(top + 1, n - 1). */
  lemma MaxUnlockedFollowsHighest(done: set<int>, n: int, top: int)
    requires 0 <= top < n && top in done
    requires forall j :: top < j < n ==> j !in done
    ensures MaxUnlocked(done, n) == Min(top + 1, n - 1)
  {
    ReachIsHighest(done, n);
    assert top < Reach(done, n);
    assert Reach(done, n) - 1 in done;
  }

  /** The selection guard: mission 0, any completed mission, or anything up to the unlock
      bound. There is no lower bound, so negative indices pass. */
  predicate Unlocked(p: Progress, i: int, n: int)
  {
    i == 0 || i in p.completed || i <= MaxUnlocked(p.completed, n)
  }

  /** A request to show mission `i`: granted exactly when the guard holds, otherwise nothing changes. */
  function Select(p: Progress, i: int, n: int): Progress
  {
    if Unlocked(p, i, n) then p.(current := i) else p
  }

  /** Once every mission is completed, checking does nothing. */
  predicate Terminal(p: Progress, n: int)
  {
    |p.completed| >= n
  }

  /** Checking the current mission against its goal: `holds` is the goal's verdict for
      the present state of the world. Only the current mission can be added, and only once. */
  function Check(p: Progress, holds: bool, n: int): Progress
  {
    if Terminal(p, n) then p
    else if 0 <= p.current < n && holds && p.current !in p.completed
    then p.(completed := p.completed + {p.current})
    else p
  }

  /** The lowest index in from .. n-1 that is not completed, or `stay` when there is none. */
  function NextOpen(done: set<int>, from: int, n: int, stay: int): int
    decreases n - from
  {
    if from >= n then stay
    else if from !in done then from
    else NextOpen(done, from + 1, n, stay)
  }

  /** Dismissing a completion notice: go to the next mission not yet completed, or stay. */
  function Advance(p: Progress, n: int): Progress
  {
    p.(current := NextOpen(p.completed, p.current + 1, n, p.current))
  }

  /** NextOpen finds the first open index at or after `from`, skipping only completed ones. */
  lemma {:induction false} NextOpenIsLowestOpen(done: set<int>, from: int, n: int, stay: int)
    ensures var r := NextOpen(done, from, n, stay);
      || (r == stay && forall i :: from <= i < n ==> i in done)
      || (from <= r < n && r !in done && forall i :: from <= i < r ==> i in done)
    decreases n - from
  {
    if from < n && from in done {
      NextOpenIsLowestOpen(done, from + 1, n, stay);
    }
  }

  /** Advance moves to the smallest uncompleted index after the current one, or leaves
      the pointer where it is when every later mission is completed; it never moves back. */
  lemma AdvanceSkipsCompleted(p: Progress, n: int)
    ensures Advance(p, n).completed == p.completed
    ensures var c := Advance(p, n).current;
      || (c == p.current && forall i :: p.current < i < n ==> i in p.completed)
      || (p.current < c < n && c !in p.completed && forall i :: p.current < i < c ==> i in p.completed)
  {
    NextOpenIsLowestOpen(p.completed, p.current + 1, n, p.current);
  }

  /** After missions 0 .. j are completed (and nothing beyond j), dismissing the notice
      from any of them lands on j + 1, or stays put when j is the last mission. */
  lemma AdvanceAfterPrefix(p: Progress, n: int, j: int)
    requires 0 <= p.current <= j < n
    requires forall i :: i in p.completed <==> 0 <= i <= j
    ensures Advance(p, n).current == if j + 1 < n then j + 1 else p.current
  {
    AdvanceSkipsCompleted(p, n);
    var c := Advance(p, n).current;
    assert j + 1 !in p.completed;
    assert c in p.completed <==> 0 <= c <= j;
  }

  /** The variant-specific rule of the binary visualizer: a check that leaves the learner on
      the second-to-last mission, completed, with the last one open, schedules a deferred
      completion of the last mission. */
  predicate AutoCompleteDue(p: Progress, n: int)
  {
    p.current == n - 2 && n - 2 in p.completed && n - 1 !in p.completed
  }

  /** The deferred callback: re-checks at fire time that the last mission is still open. */
  function AutoComplete(p: Progress, n: int): Progress
  {
    if n - 1 !in p.completed then Progress(n - 1, p.completed + {n - 1}) else p
  }

  // ---------------------------------------------------------------------------
  // Properties of single steps

  /** Every step keeps the standing consistent (the select argument may be any integer). */
  lemma StepsKeepConsistent(p: Progress, n: int, i: int, holds: bool)
    requires n >= 1 && Consistent(p, n)
    ensures Consistent(Select(p, i, n), n)
    ensures Consistent(Check(p, holds, n), n)
    ensures Consistent(Advance(p, n), n)
    ensures Consistent(AutoComplete(p, n), n)
  {
    MaxUnlockedIsBounded(p.completed, n);
    AdvanceSkipsCompleted(p, n);
  }

  /** Selection never touches the completed set, always grants mission 0, and refuses an
      uncompleted mission beyond the unlock bound without changing anything. */
  lemma SelectGuard(p: Progress, i: int, n: int)
    ensures Select(p, i, n).completed == p.completed
    ensures Select(p, 0, n).current == 0
    ensures i > MaxUnlocked(p.completed, n) && i !in p.completed && i != 0 ==> Select(p, i, n) == p
    ensures Unlocked(p, i, n) ==> Select(p, i, n).current == i
  {
  }

  /** A granted selection of a mission that does not exist is impossible: for a consistent
      standing with n >= 1, a selected index beyond the list is always refused. */
  lemma SelectStaysBelowCount(p: Progress, i: int, n: int)
    requires n >= 1 && Consistent(p, n)
    requires i >= n
    ensures Select(p, i, n) == p
  {
    MaxUnlockedIsBounded(p.completed, n);
  }

  /** A non-negative pointer stays in 0 .. n-1 under every step when selections are non-negative. */
  lemma PointerStaysInRange(p: Progress, n: int, i: int, holds: bool)
    requires n >= 1 && Consistent(p, n) && 0 <= p.current && 0 <= i
    ensures 0 <= Select(p, i, n).current < n
    ensures 0 <= Check(p, holds, n).current < n
    ensures 0 <= Advance(p, n).current < n
    ensures 0 <= AutoComplete(p, n).current < n
  {
    StepsKeepConsistent(p, n, i, holds);
    AdvanceSkipsCompleted(p, n);
  }

  /** A check grows the completed set by at most the current mission, does nothing once
      terminal, and never moves the pointer. */
  lemma CheckAddsOnlyCurrent(p: Progress, holds: bool, n: int)
    ensures var q := Check(p, holds, n);
      && q.current == p.current
      && p.completed <= q.completed <= p.completed + {p.current}
      && (Terminal(p, n) ==> q == p)
      && (!holds ==> q == p)
      && (q.completed != p.completed <==>
            !Terminal(p, n) && 0 <= p.current < n && holds && p.current !in p.completed)
  {
  }

  /** Checking k times against an unchanged world is the same as checking once. */
  function CheckRepeatedly(p: Progress, holds: bool, n: int, k: nat): Progress
    decreases k
  {
    if k == 0 then p else CheckRepeatedly(Check(p, holds, n), holds, n, k - 1)
  }

  lemma {:induction false} CheckIsIdempotent(p: Progress, holds: bool, n: int, k: nat)
    requires k >= 1
    ensures CheckRepeatedly(p, holds, n, k) == Check(p, holds, n)
    decreases k
  {
    if k > 1 {
      CheckIsIdempotent(p, holds, n, k - 1);
      assert Check(Check(p, holds, n), holds, n) == Check(p, holds, n);
      calc {
        CheckRepeatedly(p, holds, n, k);
        CheckRepeatedly(Check(p, holds, n), holds, n, k - 1);
        { CheckIsIdempotent(Check(p, holds, n), holds, n, k - 1); }
        Check(Check(p, holds, n), holds, n);
      }
    }
  }

  /** The deferred completion fires safely any number of times: a second firing, or a firing
      after the last mission was completed some other way, changes nothing. */
  lemma AutoCompleteAtMostOnce(p: Progress, n: int)
    ensures AutoComplete(AutoComplete(p, n), n) == AutoComplete(p, n)
    ensures n - 1 in p.completed ==> AutoComplete(p, n) == p
    ensures AutoComplete(p, n).completed == p.completed + {n - 1}
    ensures n - 1 !in p.completed ==> AutoComplete(p, n).current == n - 1
  {
  }

  // ---------------------------------------------------------------------------
  // Runs of many steps

  /** One event the presentation layer may deliver to the engine. */
  datatype Event = Choose(index: int) | Evaluate(holds: bool) | Dismiss | FireAutoComplete

  function Apply(p: Progress, e: Event, n: int): Progress
  {
    match e
    case Choose(i) => Select(p, i, n)
    case Evaluate(h) => Check(p, h, n)
    case Dismiss => Advance(p, n)
    case FireAutoComplete => AutoComplete(p, n)
  }

  function Run(p: Progress, es: seq<Event>, n: int): Progress
    decreases |es|
  {
    if es == [] then p else Run(Apply(p, es[0], n), es[1..], n)
  }

  /** Along any run, completed missions stay completed and the standing stays consistent. */
  lemma {:induction false} RunIsMonotone(p: Progress, es: seq<Event>, n: int)
    requires n >= 1 && Consistent(p, n)
    ensures p.completed <= Run(p, es, n).completed
    ensures Consistent(Run(p, es, n), n)
    decreases |es|
  {
    if es != [] {
      var q := Apply(p, es[0], n);
      StepsKeepConsistent(p, n, if es[0].Choose? then es[0].index else 0,
                          if es[0].Evaluate? then es[0].holds else false);
      assert p.completed <= q.completed;
      RunIsMonotone(q, es[1..], n);
    }
  }

  /** Along any run, a mission index is added to the completed set by at most one step:
      once completed, every later step leaves it there, and a step that adds an index
      adds only the current mission or the last one. */
  lemma StepAddsAtMostOne(p: Progress, e: Event, n: int)
    ensures Apply(p, e, n).completed - p.completed <= {p.current, n - 1}
    ensures |Apply(p, e, n).completed - p.completed| <= 1
  {
    var q := Apply(p, e, n);
    assert q.completed - p.completed <= {p.current} || q.completed - p.completed <= {n - 1};
  }
}
