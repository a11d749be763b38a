/** The memory visualizer: the learner adds one file and several storage media, fills a
    medium with copies of the file in an animated simulation, and works through a
    curriculum of nine missions about file and media sizes.  The class keeps the fields
    the visualizer updates in place; each method is specified by a pure step on `World`,
    a snapshot of those fields, and the properties of the steps are proved as lemmas. */
module MemoryApp {
  import opened Wrappers
  import opened Storage
  import Progression

  // ---------------------------------------------------------------------------
  // The curriculum

  const M: int := 9

  predicate HasFileType(files: seq<File>, t: string)
  {
    exists k :: 0 <= k < |files| && files[k].fileType == t
  }

  predicate HasMediaType(media: seq<Medium>, t: string)
  {
    exists k :: 0 <= k < |media| && media[k].mediaType == t
  }

  /** The simulation state object: whether it runs, which medium it fills, and the
      space it shows as filled. */
  datatype Simulation = Simulation(active: bool, currentMediaIndex: int, filledSpace: nat)

  const Idle: Simulation := Simulation(false, -1, 0)

  /** An animation callback waiting to fire, with the capacity of the medium it was
      started for. */
  datatype Pending = Pending(capacity: nat, chain: Chain)

  /** Every field of the visualizer its logic reads or writes; `chains` are the scheduled
      animation callbacks, `notice` the duration of the completion notice on screen. */
  datatype World = World(
    files: seq<File>,
    media: seq<Medium>,
    selectedFileType: string,
    selectedMediaType: Option<string>,
    sim: Simulation,
    chains: seq<Pending>,
    progress: Progression.Progress,
    notice: Option<nat>)

  /** The goal of mission `i` for the present state; indices outside the curriculum have none. */
  predicate Holds(i: int, w: World)
  {
    if i == 0 then |w.files| > 0 && HasFileType(w.files, "image")
    else if i == 1 then |w.media| > 0
    else if i == 2 then w.sim.filledSpace > 0
    else if i == 3 then |w.media| > 1
    else if i == 4 then HasFileType(w.files, "music")
    else if i == 5 then HasMediaType(w.media, "usb") && w.sim.active
    else if i == 6 then HasMediaType(w.media, "smartphone")
    else if i == 7 then HasFileType(w.files, "text") && HasMediaType(w.media, "hdd")
    else if i == 8 then |w.media| >= 2 && |w.files| > 0
    else false
  }

  /** The missions' timers; mission 7 has none. */
  const Timers: seq<Option<nat>> :=
    [Some(6), Some(6), Some(0), Some(20), Some(5), Some(6), Some(7), None, Some(10)]

  /** The timer passed to the notice, which defaults to three seconds only when absent. */
  function NoticeSeconds(i: int): nat
    requires 0 <= i < M
  {
    if Timers[i].None? then 3 else Timers[i].value
  }

  /** Mission 2 shows its notice for zero seconds and mission 7, which has no timer, for
      three; every other mission for its own timer. */
  lemma NoticeSecondsOfCurriculum()
    ensures |Timers| == M
    ensures NoticeSeconds(2) == 0 && NoticeSeconds(7) == 3
    ensures forall i :: 0 <= i < M && i != 7 ==> Timers[i].Some? && NoticeSeconds(i) == Timers[i].value
  {
  }

  // ---------------------------------------------------------------------------
  // Steps on the snapshot

  /** The standing is consistent, the media are sorted by capacity, every file is
      non-empty, and every scheduled run fits the medium it was started for. */
  predicate Coherent(w: World)
  {
    && Progression.Consistent(w.progress, M)
    && SortedByCapacity(w.media)
    && (forall k :: 0 <= k < |w.files| ==> w.files[k].size > 0)
    && (forall k :: 0 <= k < |w.chains| ==> ChainFits(w.chains[k].chain, w.chains[k].capacity))
  }

  predicate CheckFaults(w: World)
  {
    !Progression.Terminal(w.progress, M) && w.progress.current < 0
  }

  /** checkMission: nothing once finished or when it throws; otherwise the engine's check
      of the current goal, with a notice when a mission is newly completed. */
  function AfterCheck(w: World): World
  {
    if Progression.Terminal(w.progress, M) || w.progress.current < 0 then w
    else
      var p := Progression.Check(w.progress, Holds(w.progress.current, w), M);
      w.(progress := p,
         notice := if p != w.progress then Some(NoticeSeconds(p.current)) else w.notice)
  }

  /** addFile: a size of zero or less, or a size the learner declines to confirm, changes
      nothing; otherwise the new file replaces the list and the mission is checked. */
  function AfterAddFile(w: World, size: int, unit: string, id: int, confirmed: bool): World
  {
    if size <= 0 then w
    else
      var bytes := ConvertToBytes(size, unit);
      if !Validate(FileRange(w.selectedFileType), bytes, confirmed) then w
      else AfterCheck(w.(files := [File(id, w.selectedFileType, bytes)]))
  }

  /** No media type is selected (none yet, or an empty one). */
  predicate NoMediaType(w: World)
  {
    w.selectedMediaType.None? || w.selectedMediaType.value == ""
  }

  /** addMedia: a capacity of zero or less, no selected type, or a capacity the learner
      declines to confirm changes nothing; otherwise the medium is appended, the list
      sorted by capacity, and the mission checked. */
  function AfterAddMedia(w: World, capacity: int, unit: string, id: int, confirmed: bool): World
  {
    if capacity <= 0 || NoMediaType(w) then w
    else
      var bytes := ConvertToBytes(capacity, unit);
      var t := w.selectedMediaType.value;
      if !Validate(MediaRange(t), bytes, confirmed) then w
      else AfterCheck(w.(media := SortByCapacity(w.media + [Medium(id, t, bytes)])))
  }

  function AfterRemoveFile(w: World, id: int): World
  {
    w.(files := Filter(w.files, (f: File) => f.id != id))
  }

  function AfterRemoveMedia(w: World, id: int): World
  {
    w.(media := Filter(w.media, (m: Medium) => m.id != id), sim := Idle)
  }

  function SumSizes(files: seq<File>): nat
    decreases |files|
  {
    if files == [] then 0 else files[0].size + SumSizes(files[1..])
  }

  /** Starting the simulation throws when there are files and no medium at the index. */
  predicate StartFaults(w: World, index: int)
  {
    |w.files| > 0 && !(0 <= index < |w.media|)
  }

  /** startSimulation: the simulation becomes active on the medium at `index` with nothing
      filled; with files present the first tick runs at once (scheduling the rest), and
      then the mission is checked, unless reading the medium threw. */
  function AfterStart(w: World, index: int): World
  {
    var started := w.(sim := Simulation(true, index, 0));
    if |w.files| == 0 then AfterCheck(started)
    else if !(0 <= index < |w.media|) then started
    else
      var total := SumSizes(w.files);
      if total == 0 then AfterCheck(started)
      else
        var capacity := w.media[index].capacity;
        var t := Animate(StartChain(capacity, total), true);
        AfterCheck(started.(
          sim := started.sim.(filledSpace := t.filled),
          chains := w.chains + (if t.next.Some? then [Pending(capacity, t.next.value)] else [])))
  }

  /** Scheduled callback `k` fires: it ticks its run against the simulation state of the
      moment, writes the filled space, and schedules its continuation if any. */
  function AfterTick(w: World, k: nat): World
    requires k < |w.chains|
  {
    var pc := w.chains[k];
    var t := Animate(pc.chain, w.sim.active);
    w.(sim := w.sim.(filledSpace := t.filled),
       chains := w.chains[..k] + w.chains[k + 1..] +
                 (if t.next.Some? then [Pending(pc.capacity, t.next.value)] else []))
  }

  // ---------------------------------------------------------------------------
  // Properties of the steps

  lemma CheckKeepsCoherent(w: World)
    requires Coherent(w)
    ensures Coherent(AfterCheck(w))
    ensures AfterCheck(w).files == w.files && AfterCheck(w).media == w.media
    ensures AfterCheck(w).sim == w.sim && AfterCheck(w).chains == w.chains
    ensures AfterCheck(w).selectedFileType == w.selectedFileType
    ensures AfterCheck(w).selectedMediaType == w.selectedMediaType
    ensures AfterCheck(w).notice != w.notice ==>
              AfterCheck(w).progress.completed != w.progress.completed &&
              AfterCheck(w).notice == Some(NoticeSeconds(w.progress.current))
    ensures !CheckFaults(w) ==>
              AfterCheck(w).progress == Progression.Check(w.progress, Holds(w.progress.current, w), M)
    ensures CheckFaults(w) ==> AfterCheck(w) == w
  {
    Progression.StepsKeepConsistent(w.progress, M, 0, Holds(w.progress.current, w));
  }

  /** Adding a file leaves exactly one file of the selected type and converted size when
      the size is positive and in range or confirmed; otherwise it changes nothing. */
  lemma AddFileReplacesList(w: World, size: int, unit: string, id: int, confirmed: bool)
    requires Coherent(w)
    ensures var r := AfterAddFile(w, size, unit, id, confirmed);
      && Coherent(r)
      && (size <= 0 ==> r == w)
      && (size > 0 && Validate(FileRange(w.selectedFileType), ConvertToBytes(size, unit), confirmed) ==>
            r.files == [File(id, w.selectedFileType, ConvertToBytes(size, unit))] &&
            r.progress.completed >= w.progress.completed)
      && (size > 0 && !Validate(FileRange(w.selectedFileType), ConvertToBytes(size, unit), confirmed) ==> r == w)
      && r.media == w.media && r.sim == w.sim
  {
    if size > 0 {
      var bytes := ConvertToBytes(size, unit);
      UnitLadder(size, unit);
      if Validate(FileRange(w.selectedFileType), bytes, confirmed) {
        CheckKeepsCoherent(w.(files := [File(id, w.selectedFileType, bytes)]));
      }
    }
  }

  /** Adding a medium keeps the list sorted by capacity. A positive capacity of a selected
      type that is in range or confirmed makes the list the old list plus the new medium,
      inserted after the media of at most its capacity; a non-positive capacity, a missing
      type or a declined confirmation changes nothing. */
  lemma AddMediaKeepsSorted(w: World, capacity: int, unit: string, id: int, confirmed: bool)
    requires Coherent(w)
    ensures var r := AfterAddMedia(w, capacity, unit, id, confirmed);
      && Coherent(r)
      && (capacity <= 0 || NoMediaType(w) ==> r == w)
      && (capacity > 0 && !NoMediaType(w) ==>
            var m := Medium(id, w.selectedMediaType.value, ConvertToBytes(capacity, unit));
            && (Validate(MediaRange(m.mediaType), m.capacity, confirmed) ==>
                  r.media == Insert(w.media, m) && multiset(r.media) == multiset(w.media) + multiset{m} &&
                  r.progress.completed >= w.progress.completed)
            && (!Validate(MediaRange(m.mediaType), m.capacity, confirmed) ==> r == w))
      && r.files == w.files && r.sim == w.sim
  {
    if capacity > 0 && !NoMediaType(w) {
      var m := Medium(id, w.selectedMediaType.value, ConvertToBytes(capacity, unit));
      AppendThenSort(w.media, m);
      InsertSortsAndKeeps(w.media, m);
      if Validate(MediaRange(m.mediaType), m.capacity, confirmed) {
        CheckKeepsCoherent(w.(media := SortByCapacity(w.media + [m])));
      }
    }
  }

  /** Removal drops exactly the items with the id and keeps every other item as often as
      it occurs (their order is `RemovalKeepsOrder`), so the media stay sorted; removing a
      medium resets the simulation. */
  lemma RemovalDropsExactlyTheId(w: World, id: int)
    requires Coherent(w)
    ensures Coherent(AfterRemoveFile(w, id)) && Coherent(AfterRemoveMedia(w, id))
    ensures forall f :: multiset(AfterRemoveFile(w, id).files)[f] ==
              if f.id == id then 0 else multiset(w.files)[f]
    ensures forall m :: multiset(AfterRemoveMedia(w, id).media)[m] ==
              if m.id == id then 0 else multiset(w.media)[m]
    ensures AfterRemoveMedia(w, id).sim == Simulation(false, -1, 0)
    ensures AfterRemoveFile(w, id).media == w.media && AfterRemoveMedia(w, id).files == w.files
  {
    FilterCounts(w.files, (f: File) => f.id != id);
    FilterCounts(w.media, (m: Medium) => m.id != id);
    FilterKeepsSorted(w.media, (m: Medium) => m.id != id);
    var fs := AfterRemoveFile(w, id).files;
    forall k | 0 <= k < |fs|
      ensures fs[k].size > 0
    {
      assert fs[k] in multiset(fs);
      assert fs[k] in multiset(w.files);
    }
  }

  /** Removal keeps the order of what it keeps: removing from a list split in two parts is
      removing from each part, and removing an id no item carries changes no list. */
  lemma RemovalKeepsOrder(w: World, id: int, f1: seq<File>, f2: seq<File>, m1: seq<Medium>, m2: seq<Medium>)
    requires w.files == f1 + f2 && w.media == m1 + m2
    ensures AfterRemoveFile(w, id).files ==
              AfterRemoveFile(w.(files := f1), id).files + AfterRemoveFile(w.(files := f2), id).files
    ensures AfterRemoveMedia(w, id).media ==
              AfterRemoveMedia(w.(media := m1), id).media + AfterRemoveMedia(w.(media := m2), id).media
    ensures (forall k :: 0 <= k < |w.files| ==> w.files[k].id != id) ==> AfterRemoveFile(w, id) == w
    ensures (forall k :: 0 <= k < |w.media| ==> w.media[k].id != id) ==> AfterRemoveMedia(w, id).media == w.media
  {
    FilterKeepsOrder(f1, f2, (f: File) => f.id != id);
    FilterKeepsOrder(m1, m2, (m: Medium) => m.id != id);
    FilterKeepsOrder(w.files, [], (f: File) => f.id != id);
    FilterKeepsOrder(w.media, [], (m: Medium) => m.id != id);
  }

  /** Starting the simulation shows at most the medium's capacity as filled, and the run
      it schedules fits that medium. */
  lemma StartFillsWithinCapacity(w: World, index: int)
    requires Coherent(w)
    ensures Coherent(AfterStart(w, index))
    ensures !StartFaults(w, index) && |w.files| > 0 ==>
              AfterStart(w, index).sim.filledSpace <= w.media[index].capacity
    ensures StartFaults(w, index) ==> AfterStart(w, index) == w.(sim := Simulation(true, index, 0))
    ensures AfterStart(w, index).files == w.files && AfterStart(w, index).media == w.media
  {
    var started := w.(sim := Simulation(true, index, 0));
    if |w.files| == 0 || !(0 <= index < |w.media|) || SumSizes(w.files) == 0 {
      CheckKeepsCoherent(started);
    } else {
      var capacity := w.media[index].capacity;
      var total := SumSizes(w.files);
      StartChainFits(capacity, total);
      AnimateStaysWithinCapacity(StartChain(capacity, total), true, capacity);
      var t := Animate(StartChain(capacity, total), true);
      var s2 := started.(sim := started.sim.(filledSpace := t.filled),
        chains := w.chains + (if t.next.Some? then [Pending(capacity, t.next.value)] else []));
      assert Coherent(s2);
      CheckKeepsCoherent(s2);
    }
  }

  /** A tick writes at most the capacity of the medium its run was started for, and a run
      that ends writes the full fill of whole copies.  The medium at the simulation's index
      may by then be another one (media added and sorted, or removed, meanwhile): the bound
      holds per run. */
  lemma TickFillsWithinCapacity(w: World, k: nat)
    requires Coherent(w) && k < |w.chains|
    ensures Coherent(AfterTick(w, k))
    ensures AfterTick(w, k).sim.filledSpace <= w.chains[k].capacity
    ensures |AfterTick(w, k).chains| <= |w.chains|
    ensures AfterTick(w, k).progress == w.progress && AfterTick(w, k).media == w.media
  {
    var pc := w.chains[k];
    AnimateStaysWithinCapacity(pc.chain, w.sim.active, pc.capacity);
    var r := AfterTick(w, k);
    forall j | 0 <= j < |r.chains|
      ensures ChainFits(r.chains[j].chain, r.chains[j].capacity)
    {
      if j < k {
        assert r.chains[j] == w.chains[j];
      } else if j < |w.chains| - 1 {
        assert r.chains[j] == w.chains[j + 1];
      }
    }
  }

  /** Removing a medium resets the simulation but cancels no callback: whichever pending
      callback fires next writes its chain's full fill (files times their total size),
      ends its chain and leaves the simulation inactive. */
  lemma TickAfterRemovalWritesFullFill(w: World, id: int, k: nat)
    requires k < |w.chains|
    ensures var r := AfterTick(AfterRemoveMedia(w, id), k);
      && r.sim.filledSpace == w.chains[k].chain.maxFiles * w.chains[k].chain.total
      && !r.sim.active && r.sim.currentMediaIndex == -1
      && r.chains == w.chains[..k] + w.chains[k + 1..]
      && r.media == Filter(w.media, (m: Medium) => m.id != id)
  {
  }

  /** A callback left over from an earlier run still writes its full fill after the
      medium was removed and the simulation reset: the reset does not stop it. */
  lemma StaleTickAfterRemoval()
    ensures var w := World([File(1, "image", 100)], [Medium(2, "cd", 1000)], "image", None,
                           Simulation(true, 0, 100), [Pending(1000, Chain(100, 10, 1, 1))],
                           Progression.Progress(0, {}), None);
      var r := AfterTick(AfterRemoveMedia(w, 2), 0);
      r.media == [] && !r.sim.active && r.sim.currentMediaIndex == -1 && r.sim.filledSpace == 1000
  {
    var w := World([File(1, "image", 100)], [Medium(2, "cd", 1000)], "image", None,
                   Simulation(true, 0, 100), [Pending(1000, Chain(100, 10, 1, 1))],
                   Progression.Progress(0, {}), None);
    var keep := (m: Medium) => m.id != 2;
    assert Filter(w.media, keep) == [] by {
      assert !keep(w.media[0]);
      assert w.media[1..] == [];
    }
  }

  // ---------------------------------------------------------------------------
  // The visualizer

  class MemoryVisualizer {
    var files: seq<File>
    var media: seq<Medium>
    var selectedFileType: string
    var selectedMediaType: Option<string>
    var simulationState: Simulation
    var chains: seq<Pending>
    var currentMission: int
    var completedMissions: set<int>
    var notice: Option<nat>

    function Snap(): World
      reads this
    {
      World(files, media, selectedFileType, selectedMediaType, simulationState, chains,
            Progression.Progress(currentMission, completedMissions), notice)
    }

    function State(): Progression.Progress
      reads this
    {
      Progression.Progress(currentMission, completedMissions)
    }

    ghost predicate Valid()
      reads this
    {
      Coherent(Snap())
    }

    /** No files or media, text files selected, no media type, the simulation idle. */
    constructor ()
      ensures Valid()
      ensures Snap() == World([], [], "text", None, Idle, [], Progression.Progress(0, {}), None)
    {
      files := [];
      media := [];
      selectedFileType := "text";
      selectedMediaType := None;
      simulationState := Idle;
      chains := [];
      currentMission := 0;
      completedMissions := {};
      notice := None;
    }

    /** Scans the missions from the first and returns the unlock bound. */
    method GetMaxUnlockedMission() returns (r: int)
      ensures r == Progression.MaxUnlocked(completedMissions, M)
      ensures 0 <= r <= M - 1
    {
      var maxUnlocked := 0;
      for i := 0 to M
        invariant maxUnlocked == Progression.Reach(completedMissions, i)
      {
        Progression.ReachIsHighest(completedMissions, i);
        if i in completedMissions {
          maxUnlocked := if maxUnlocked >= i + 1 then maxUnlocked else i + 1;
        }
      }
      Progression.MaxUnlockedIsBounded(completedMissions, M);
      r := if maxUnlocked <= M - 1 then maxUnlocked else M - 1;
    }

    /** Shows mission `missionIndex` if it is unlocked; otherwise nothing changes. */
    method SelectMission(missionIndex: int)
      requires Valid()
      modifies this
      ensures Valid()
      ensures Snap() == old(Snap()).(progress := Progression.Select(old(State()), missionIndex, M))
    {
      var maxUnlocked := GetMaxUnlockedMission();
      if missionIndex == 0 || missionIndex in completedMissions || missionIndex <= maxUnlocked {
        currentMission := missionIndex;
      }
      Progression.StepsKeepConsistent(old(State()), M, missionIndex, false);
    }

    /** Checks the current mission; `ok` is false when the check throws. */
    method CheckMission() returns (ok: bool)
      requires Valid()
      modifies this
      ensures Valid()
      ensures ok <==> !CheckFaults(old(Snap()))
      ensures Snap() == AfterCheck(old(Snap()))
    {
      CheckKeepsCoherent(Snap());
      if |completedMissions| >= M {
        return true;
      }
      if currentMission < 0 {
        return false;
      }
      ok := true;
      if currentMission < M {
        if Holds(currentMission, Snap()) && currentMission !in completedMissions {
          completedMissions := completedMissions + {currentMission};
          notice := Some(NoticeSeconds(currentMission));
        }
      }
    }

    /** Closes the notice and moves to the next mission not yet completed, or stays. */
    method NextMission()
      requires Valid()
      modifies this
      ensures Valid()
      ensures Snap() == old(Snap()).(progress := Progression.Advance(old(State()), M), notice := None)
    {
      notice := None;
      var next := currentMission;
      var i := currentMission + 1;
      while i < M
        invariant currentMission + 1 <= i
        invariant forall j :: currentMission + 1 <= j < i ==> j in completedMissions
        invariant next == currentMission
        decreases M - i
      {
        if i !in completedMissions {
          next := i;
          break;
        }
        i := i + 1;
      }
      Progression.NextOpenIsLowestOpen(completedMissions, currentMission + 1, M, currentMission);
      Progression.StepsKeepConsistent(old(State()), M, 0, false);
      currentMission := next;
    }

    method SelectFileType(t: string)
      requires Valid()
      modifies this
      ensures Valid()
      ensures Snap() == old(Snap()).(selectedFileType := t)
    {
      selectedFileType := t;
    }

    method SelectMediaType(t: string)
      requires Valid()
      modifies this
      ensures Valid()
      ensures Snap() == old(Snap()).(selectedMediaType := Some(t))
    {
      selectedMediaType := Some(t);
    }

    /** Adds a file of `size` `unit`s; `id` is its timestamp and `confirmed` the learner's
        answer should the size be implausible. */
    method AddFile(size: int, unit: string, id: int, confirmed: bool)
      requires Valid()
      modifies this
      ensures Valid()
      ensures Snap() == AfterAddFile(old(Snap()), size, unit, id, confirmed)
    {
      AddFileReplacesList(Snap(), size, unit, id, confirmed);
      if size <= 0 {
        return;
      }
      var sizeInBytes := ConvertToBytes(size, unit);
      if !Validate(FileRange(selectedFileType), sizeInBytes, confirmed) {
        return;
      }
      files := [File(id, selectedFileType, sizeInBytes)];
      UnitLadder(size, unit);
      var ok := CheckMission();
    }

    /** Adds a medium of the selected type with `capacity` `unit`s. */
    method AddMedia(capacity: int, unit: string, id: int, confirmed: bool)
      requires Valid()
      modifies this
      ensures Valid()
      ensures Snap() == AfterAddMedia(old(Snap()), capacity, unit, id, confirmed)
    {
      AddMediaKeepsSorted(Snap(), capacity, unit, id, confirmed);
      if capacity <= 0 {
        return;
      }
      if selectedMediaType.None? || selectedMediaType.value == "" {
        return;
      }
      var capacityInBytes := ConvertToBytes(capacity, unit);
      var t := selectedMediaType.value;
      if !Validate(MediaRange(t), capacityInBytes, confirmed) {
        return;
      }
      var m := Medium(id, t, capacityInBytes);
      media := media + [m];
      SortMediaByCapacity();
      AppendThenSort(old(media), m);
      InsertSortsAndKeeps(old(media), m);
      var ok := CheckMission();
    }

    /** Sorts the media by ascending capacity, keeping the order of equal capacities. */
    method SortMediaByCapacity()
      modifies this
      ensures Snap() == old(Snap()).(media := SortByCapacity(old(media)))
    {
      var items := media;
      var sorted: seq<Medium> := [];
      for i := 0 to |items|
        invariant sorted == SortByCapacity(items[..i])
        invariant Snap() == old(Snap())
      {
        assert items[..i + 1][..i] == items[..i];
        sorted := Insert(sorted, items[i]);
      }
      assert items[..|items|] == items;
      media := sorted;
    }

    method RemoveFile(fileId: int)
      requires Valid()
      modifies this
      ensures Valid()
      ensures Snap() == AfterRemoveFile(old(Snap()), fileId)
    {
      RemovalDropsExactlyTheId(Snap(), fileId);
      files := Filter(files, (f: File) => f.id != fileId);
    }

    method RemoveMedia(mediaId: int)
      requires Valid()
      modifies this
      ensures Valid()
      ensures Snap() == AfterRemoveMedia(old(Snap()), mediaId)
    {
      RemovalDropsExactlyTheId(Snap(), mediaId);
      media := Filter(media, (m: Medium) => m.id != mediaId);
      simulationState := Simulation(false, -1, 0);
    }

    /** Starts filling the medium at `mediaIndex`; `ok` is false when the run or the check
        throws. */
    method StartSimulation(mediaIndex: int) returns (ok: bool)
      requires Valid()
      modifies this
      ensures Valid()
      ensures Snap() == AfterStart(old(Snap()), mediaIndex)
      ensures ok <==> !StartFaults(old(Snap()), mediaIndex) && !CheckFaults(old(Snap()))
    {
      StartFillsWithinCapacity(Snap(), mediaIndex);
      simulationState := Simulation(true, mediaIndex, 0);
      if |files| > 0 {
        if !(0 <= mediaIndex < |media|) {
          return false;
        }
        var medium := media[mediaIndex];
        var totalFileSize := SumSizes(files);
        if totalFileSize > 0 {
          var tick := Animate(StartChain(medium.capacity, totalFileSize), true);
          simulationState := simulationState.(filledSpace := tick.filled);
          if tick.next.Some? {
            chains := chains + [Pending(medium.capacity, tick.next.value)];
          }
        }
      }
      ok := CheckMission();
    }

    /** The scheduled animation callback `k` fires. */
    method FireAnimation(k: nat)
      requires Valid() && k < |chains|
      modifies this
      ensures Valid()
      ensures Snap() == AfterTick(old(Snap()), k)
    {
      TickFillsWithinCapacity(Snap(), k);
      var pending := chains[k];
      var tick := Animate(pending.chain, simulationState.active);
      simulationState := simulationState.(filledSpace := tick.filled);
      chains := chains[..k] + chains[k + 1..] +
                (if tick.next.Some? then [Pending(pending.capacity, tick.next.value)] else []);
    }
  }
}
