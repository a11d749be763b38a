/** The binary/ASCII visualizer: eight bit switches, the value they stand for, and a
    curriculum of 28 missions (read a hint, or show a given value) that the learner works
    through.  The class keeps the fields the visualizer updates in place; each of its
    methods is specified by a pure step on `Screen`, a snapshot of those fields, and the
    properties of the steps are proved as lemmas. */
module BinaryAscii {
  import opened Wrappers
  import opened Progression
  import Bits

  // ---------------------------------------------------------------------------
  // The curriculum

  /** What a mission asks for: a hint topic to have been read, or a value to be shown. */
  datatype Goal = HintViewed(topic: string) | ValueIs(target: Bits.Byte)

  /** A mission's goal and the seconds its completion notice is shown for (0 for none). */
  datatype Mission = Mission(goal: Goal, timer: nat)

  const Missions: seq<Mission> := [
    Mission(HintViewed("switches"), 8),
    Mission(ValueIs(0), 5), Mission(ValueIs(1), 5), Mission(ValueIs(2), 4),
    Mission(ValueIs(3), 4), Mission(ValueIs(4), 5), Mission(ValueIs(5), 4),
    Mission(ValueIs(7), 4), Mission(ValueIs(8), 3), Mission(ValueIs(10), 3),
    Mission(ValueIs(15), 3), Mission(ValueIs(16), 3), Mission(ValueIs(20), 3),
    Mission(ValueIs(25), 3), Mission(ValueIs(31), 3), Mission(ValueIs(32), 3),
    Mission(ValueIs(42), 3), Mission(ValueIs(50), 3), Mission(ValueIs(64), 3),
    Mission(ValueIs(77), 3), Mission(ValueIs(100), 3), Mission(ValueIs(127), 4),
    Mission(ValueIs(128), 3), Mission(ValueIs(150), 3), Mission(ValueIs(185), 3),
    Mission(ValueIs(200), 3), Mission(ValueIs(243), 3),
    Mission(HintViewed("bits"), 10)
  ]

  const N: int := 28

  /** Whether mission `i`'s goal holds for the shown value and the hints read so far.
      Indices outside the curriculum have no goal. */
  predicate Holds(i: int, value: Bits.Byte, hints: set<string>)
  {
    0 <= i < |Missions| &&
    match Missions[i].goal
    case HintViewed(topic) => topic in hints
    case ValueIs(target) => value == target
  }

  /** `mission.timer || 3`: a missing or zero timer shows the notice for three seconds. */
  function CelebrationSeconds(m: Mission): nat
  {
    if m.timer == 0 then 3 else m.timer
  }

  /** The curriculum has 28 missions, the first and the last asking for a hint, every other
      one for a value; each notice is shown for its own timer, never the default. */
  lemma CurriculumShape()
    ensures |Missions| == N
    ensures Missions[0].goal == HintViewed("switches")
    ensures Missions[N - 1].goal == HintViewed("bits")
    ensures forall i :: 1 <= i < N - 1 ==> Missions[i].goal.ValueIs?
    ensures forall i :: 0 <= i < N ==> CelebrationSeconds(Missions[i]) == Missions[i].timer
    ensures forall i, j :: 1 <= i < j < N - 1 ==> Missions[i].goal.target < Missions[j].goal.target
  {
  }

  // ---------------------------------------------------------------------------
  // A snapshot of the visualizer and the steps on it

  /** Every field of the visualizer that its logic reads or writes.  `hintOpen` is the
      topic of the hint window being shown; `pendingFinal` counts the deferred final-mission
      callbacks that are scheduled and have not fired; `notice` is the duration in seconds
      of the completion notice on screen, if one is shown. */
  datatype Screen = Screen(
    value: Bits.Byte,
    switches: seq<bool>,
    hintsViewed: set<string>,
    hintOpen: Option<string>,
    progress: Progress,
    pendingFinal: nat,
    notice: Option<nat>)

  /** The switches show the value, and the mission standing is consistent. */
  predicate Coherent(s: Screen)
  {
    s.switches == Bits.BitsOf(s.value, 8) && Consistent(s.progress, N)
  }

  /** Checking the current mission throws (reading a mission at a negative index) when the
      curriculum is not finished and the pointer is negative. */
  predicate CheckFaults(s: Screen)
  {
    !Terminal(s.progress, N) && s.progress.current < 0
  }

  /** checkMission: nothing once finished; otherwise the engine's check against the current
      goal, a notice when a mission is newly completed, and one more deferred callback when
      the learner now stands on the completed second-to-last mission with the last open. */
  function AfterCheck(s: Screen): Screen
  {
    if Terminal(s.progress, N) || s.progress.current < 0 then s
    else
      var p := Check(s.progress, Holds(s.progress.current, s.value, s.hintsViewed), N);
      s.(progress := p,
         notice := if p != s.progress then Some(CelebrationSeconds(Missions[p.current])) else s.notice,
         pendingFinal := s.pendingFinal + (if AutoCompleteDue(p, N) then 1 else 0))
  }

  /** The deferred callback: completes the last mission if it is still open. */
  function AfterAutoComplete(s: Screen): Screen
    requires s.pendingFinal > 0
  {
    var p := AutoComplete(s.progress, N);
    s.(progress := p,
       pendingFinal := s.pendingFinal - 1,
       notice := if p != s.progress then Some(CelebrationSeconds(Missions[N - 1])) else s.notice)
  }

  /** The value of eight switches, which is a byte. */
  function SwitchByte(sw: seq<bool>): Bits.Byte
    requires |sw| == 8
  {
    Bits.SwitchValueBound(sw);
    Bits.Pow2Eight();
    Bits.SwitchValue(sw)
  }

  /** A check leaves the value, the switches and the hints alone, changes the standing as
      the engine's check does (or not at all when it throws), and schedules at most one
      deferred callback, only for a learner on the completed second-to-last mission. */
  lemma CheckStepFacts(s: Screen)
    ensures var r := AfterCheck(s);
      && r.value == s.value && r.switches == s.switches && r.hintsViewed == s.hintsViewed
      && r.hintOpen == s.hintOpen
      && (CheckFaults(s) ==> r == s)
      && (!CheckFaults(s) ==>
            r.progress == Check(s.progress, Holds(s.progress.current, s.value, s.hintsViewed), N))
      && s.pendingFinal <= r.pendingFinal <= s.pendingFinal + 1
      && (r.pendingFinal > s.pendingFinal ==>
            r.progress.current == N - 2 && N - 2 in r.progress.completed && N - 1 !in r.progress.completed)
      && (r.notice != s.notice ==> r.progress.completed != s.progress.completed)
  {
  }

  /** Every step keeps the switches showing the value and the standing consistent. */
  lemma StepsKeepCoherent(s: Screen)
    requires Coherent(s)
    ensures Coherent(AfterCheck(s))
    ensures s.pendingFinal > 0 ==> Coherent(AfterAutoComplete(s))
  {
    StepsKeepConsistent(s.progress, N, 0, Holds(s.progress.current, s.value, s.hintsViewed));
  }

  /** A completion notice is shown for the timer of the mission just completed; the
      deferred callback shows the last mission's ten seconds. */
  lemma NoticeDuration(s: Screen)
    ensures AfterCheck(s).progress.completed != s.progress.completed ==>
              0 <= s.progress.current < N &&
              AfterCheck(s).notice == Some(Missions[s.progress.current].timer)
    ensures s.pendingFinal > 0 && N - 1 !in s.progress.completed ==>
              AfterAutoComplete(s).notice == Some(10)
  {
  }

  /** The deferred final completion can be scheduled many times but completes the last
      mission once: after the first firing, later firings only use up their callbacks. */
  lemma {:induction false} FinalCompletesOnce(s: Screen, k: nat)
    requires s.pendingFinal >= k
    ensures FireTimes(s, k).progress.completed ==
              s.progress.completed + (if k > 0 then {N - 1} else {})
    ensures k > 0 && N - 1 !in s.progress.completed ==> FireTimes(s, k).progress.current == N - 1
    ensures k > 0 && N - 1 in s.progress.completed ==> FireTimes(s, k).progress == s.progress
    ensures FireTimes(s, k).pendingFinal == s.pendingFinal - k
    decreases k
  {
    if k > 0 {
      var t := AfterAutoComplete(s);
      AutoCompleteAtMostOnce(s.progress, N);
      FinalCompletesOnce(t, k - 1);
    }
  }

  /** Firing `k` of the scheduled callbacks one after another. */
  function FireTimes(s: Screen, k: nat): Screen
    requires s.pendingFinal >= k
    decreases k
  {
    if k == 0 then s else FireTimes(AfterAutoComplete(s), k - 1)
  }

  // ---------------------------------------------------------------------------
  // The visualizer

  class BinaryAsciiVisualizer {
    var currentValue: Bits.Byte
    var switches: seq<bool>
    var hintsViewed: set<string>
    var currentHintType: Option<string>
    var currentMission: int
    var completedMissions: set<int>
    var pendingFinal: nat
    var notice: Option<nat>

    function Snap(): Screen
      reads this
    {
      Screen(currentValue, switches, hintsViewed, currentHintType,
             Progress(currentMission, completedMissions), pendingFinal, notice)
    }

    function State(): Progress
      reads this
    {
      Progress(currentMission, completedMissions)
    }

    ghost predicate Valid()
      reads this
    {
      Coherent(Snap())
    }

    /** Starts on 202 with no mission completed, the switches set from the value. */
    constructor ()
      ensures Valid()
      ensures currentValue == 202 && switches == Bits.BitsOf(202, 8)
      ensures State() == Progress(0, {}) && hintsViewed == {} && currentHintType == None
      ensures pendingFinal == 0 && notice == None
    {
      currentValue := 202;
      switches := [false, false, false, false, false, false, false, false];
      hintsViewed := {};
      currentHintType := None;
      currentMission := 0;
      completedMissions := {};
      pendingFinal := 0;
      notice := None;
      new;
      UpdateSwitches();
    }

    /** Scans the missions from the first and returns the unlock bound. */
    method GetMaxUnlockedMission() returns (r: int)
      ensures r == MaxUnlocked(completedMissions, N)
      ensures 0 <= r <= N - 1
    {
      var maxUnlocked := 0;
      for i := 0 to |Missions|
        invariant maxUnlocked == Reach(completedMissions, i)
      {
        ReachIsHighest(completedMissions, i);
        if i in completedMissions {
          maxUnlocked := if maxUnlocked >= i + 1 then maxUnlocked else i + 1;
        }
      }
      MaxUnlockedIsBounded(completedMissions, N);
      r := if maxUnlocked <= |Missions| - 1 then maxUnlocked else |Missions| - 1;
    }

    /** Shows mission `missionIndex` if it is unlocked; otherwise nothing changes. */
    method SelectMission(missionIndex: int)
      requires Valid()
      modifies this
      ensures Valid()
      ensures Snap() == old(Snap()).(progress := Select(old(State()), missionIndex, N))
    {
      var maxUnlocked := GetMaxUnlockedMission();
      if missionIndex == 0 || missionIndex in completedMissions || missionIndex <= maxUnlocked {
        currentMission := missionIndex;
      }
      StepsKeepConsistent(old(State()), N, missionIndex, false);
    }

    /** Checks the current mission; `ok` is false when the check throws. */
    method CheckMission() returns (ok: bool)
      requires Valid()
      modifies this
      ensures Valid()
      ensures ok <==> !CheckFaults(old(Snap()))
      ensures Snap() == AfterCheck(old(Snap()))
    {
      StepsKeepCoherent(Snap());
      if |completedMissions| >= |Missions| {
        return true;
      }
      if currentMission < 0 {
        return false;
      }
      ok := true;
      if currentMission < |Missions| {
        var mission := Missions[currentMission];
        if Holds(currentMission, currentValue, hintsViewed) && currentMission !in completedMissions {
          completedMissions := completedMissions + {currentMission};
          notice := Some(CelebrationSeconds(mission));
        }
      }
      var finalMissionIndex := |Missions| - 1;
      if currentMission == finalMissionIndex - 1 && finalMissionIndex - 1 in completedMissions
         && finalMissionIndex !in completedMissions {
        pendingFinal := pendingFinal + 1;
      }
    }

    /** One scheduled final-mission callback fires. */
    method FireFinalAutoComplete()
      requires Valid() && pendingFinal > 0
      modifies this
      ensures Valid()
      ensures Snap() == AfterAutoComplete(old(Snap()))
    {
      StepsKeepCoherent(Snap());
      pendingFinal := pendingFinal - 1;
      var finalMissionIndex := |Missions| - 1;
      if finalMissionIndex !in completedMissions {
        currentMission := finalMissionIndex;
        completedMissions := completedMissions + {finalMissionIndex};
        notice := Some(CelebrationSeconds(Missions[finalMissionIndex]));
      }
    }

    /** Closes the notice and moves to the next mission not yet completed, or stays. */
    method NextMission()
      requires Valid()
      modifies this
      ensures Valid()
      ensures Snap() == old(Snap()).(progress := Advance(old(State()), N), notice := None)
    {
      notice := None;
      var next := currentMission;
      var i := currentMission + 1;
      while i < |Missions|
        invariant currentMission + 1 <= i
        invariant forall j :: currentMission + 1 <= j < i ==> j in completedMissions
        invariant next == currentMission
        decreases |Missions| - i
      {
        if i !in completedMissions {
          next := i;
          break;
        }
        i := i + 1;
      }
      NextOpenIsLowestOpen(completedMissions, currentMission + 1, N, currentMission);
      StepsKeepConsistent(old(State()), N, 0, false);
      currentMission := next;
    }

    /** Sets every switch from the bit test of the current value. */
    method UpdateSwitches()
      requires |switches| == 8
      modifies this
      ensures Snap() == old(Snap()).(switches := Bits.BitsOf(currentValue, 8))
    {
      for b := 0 to 8
        invariant |switches| == 8
        invariant forall j :: 0 <= j < b ==> switches[j] == Bits.BitSet(currentValue, j)
        invariant Snap() == old(Snap()).(switches := switches)
      {
        switches := switches[b := Bits.BitSet(currentValue, b)];
      }
    }

    /** Adds up the checked switches into the current value, then checks the mission. */
    method UpdateValueFromSwitches() returns (ok: bool)
      requires |switches| == 8 && Consistent(State(), N)
      modifies this
      ensures Valid()
      ensures Snap() == AfterCheck(old(Snap()).(value := SwitchByte(old(switches))))
      ensures ok <==> !CheckFaults(old(Snap()))
    {
      var checked := switches;
      var value := 0;
      for bit := 0 to 8
        invariant value == Bits.SwitchValue(checked[..bit])
        invariant Snap() == old(Snap())
      {
        Bits.SwitchValueExtend(checked, bit);
        if checked[bit] {
          value := value + Bits.Pow2(bit);
        }
      }
      assert checked[..8] == checked;
      Bits.BitsOfSwitchValue(checked);
      assert value == SwitchByte(checked);
      currentValue := value;
      assert switches == Bits.BitsOf(currentValue, 8);
      ok := CheckMission();
    }

    /** The learner flips switch `bit`. */
    method ToggleSwitch(bit: int) returns (ok: bool)
      requires Valid() && 0 <= bit < 8
      modifies this
      ensures Valid()
      ensures var sw := old(switches)[bit := !old(switches)[bit]];
        Snap() == AfterCheck(old(Snap()).(value := SwitchByte(sw), switches := sw))
    {
      switches := switches[bit := !switches[bit]];
      ok := UpdateValueFromSwitches();
    }

    /** Shows `value` clamped to a byte, sets the switches from it and checks the mission. */
    method SetValue(value: int) returns (ok: bool)
      requires Valid()
      modifies this
      ensures Valid()
      ensures Snap() == AfterCheck(old(Snap()).(value := Bits.Clamp(value),
                                                  switches := Bits.BitsOf(Bits.Clamp(value), 8)))
      ensures ok <==> !CheckFaults(old(Snap()))
    {
      currentValue := Bits.Clamp(value);
      UpdateSwitches();
      ok := CheckMission();
    }

    /** Opens the hint window for `topic`. */
    method ShowHint(topic: string)
      requires Valid()
      modifies this
      ensures Valid()
      ensures Snap() == old(Snap()).(hintOpen := Some(topic))
    {
      currentHintType := Some(topic);
    }

    /** Closes the hint window: an open, non-empty topic counts as read and the mission is
      checked; the open topic is cleared only when that check does not throw. */
    method HideHint()
      requires Valid()
      modifies this
      ensures Valid()
      ensures old(currentHintType).Some? && old(currentHintType).value != "" ==>
        var s := AfterCheck(old(Snap()).(hintsViewed := old(hintsViewed) + {old(currentHintType).value}));
        Snap() == if CheckFaults(old(Snap())) then s else s.(hintOpen := None)
      ensures !(old(currentHintType).Some? && old(currentHintType).value != "") ==> Snap() == old(Snap())
    {
      if currentHintType.Some? && currentHintType.value != "" {
        hintsViewed := hintsViewed + {currentHintType.value};
        var ok := CheckMission();
        if ok {
          currentHintType := None;
        }
      }
    }

    /** The set-bit breakdown the help window explains for the current mission, when it
      asks for a value; None for a hint mission or a pointer outside the curriculum. */
    method HelpForCurrentMission() returns (steps: Option<seq<Bits.SetBit>>)
      ensures steps.Some? <==> 0 <= currentMission < N && Missions[currentMission].goal.ValueIs?
      ensures steps.Some? ==>
        var t := Missions[currentMission].goal.target;
        && Bits.SumValues(steps.value) == t
        && (forall i :: 0 <= i < 8 ==> (i in Bits.Positions(steps.value) <==> Bits.BitSet(t, i)))
        && (forall k, l :: 0 <= k < l < |steps.value| ==> steps.value[k].position < steps.value[l].position)
    {
      if 0 <= currentMission < |Missions| && Missions[currentMission].goal.ValueIs? {
        var bits := Bits.HelpSteps(Missions[currentMission].goal.target);
        steps := Some(bits);
      } else {
        steps := None;
      }
    }
  }

  /** The console helper `setBinary`: a string of one to eight binary digits sets the
      value it reads as; anything else is refused and changes nothing. */
  method SetBinary(vis: BinaryAsciiVisualizer, s: string) returns (accepted: bool)
    requires vis.Valid()
    modifies vis
    ensures vis.Valid()
    ensures accepted <==> Bits.ParseBinary(s).Some?
    ensures !accepted ==> vis.Snap() == old(vis.Snap())
    ensures accepted ==>
      var v := Bits.ParseBinary(s).value;
      vis.Snap() == AfterCheck(old(vis.Snap()).(value := v, switches := Bits.BitsOf(v, 8)))
  {
    var parsed := Bits.ParseBinary(s);
    if parsed.None? {
      return false;
    }
    var ok := vis.SetValue(parsed.value);
    accepted := true;
  }
}
