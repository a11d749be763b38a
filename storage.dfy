/** The storage arithmetic of the memory visualizer: units of 1024, the plausible size
    ranges of file types and storage media, the media classifier by capacity, the list
    operations on files and media, and the integer steps of the fill simulation.
    Sizes are whole numbers of bytes. */
module Storage {
  import opened Wrappers

  // ---------------------------------------------------------------------------
  // Units

  const KiB: nat := 1024
  const MiB: nat := 1024 * 1024
  const GiB: nat := 1024 * 1024 * 1024
  const TiB: nat := 1024 * 1024 * 1024 * 1024

  /** The factor of a unit name; a name the table does not know counts as bytes. */
  function UnitFactor(unit: string): nat
  {
    if unit == "byte" then 1
    else if unit == "kb" then KiB
    else if unit == "mb" then MiB
    else if unit == "gb" then GiB
    else if unit == "tb" then TiB
    else 1
  }

  function ConvertToBytes(size: nat, unit: string): nat
  {
    size * UnitFactor(unit)
  }

  /** The units of the table in ascending order. */
  const Units: seq<string> := ["byte", "kb", "mb", "gb", "tb"]

  function Pow1024(k: nat): nat
  {
    if k == 0 then 1 else 1024 * Pow1024(k - 1)
  }

  /** Unit k of the table is 1024^k bytes, so each unit is 1024 of the one before; an
      unknown unit converts like bytes; a positive size stays positive. */
  lemma UnitLadder(size: nat, unit: string)
    ensures forall k :: 0 <= k < |Units| ==> UnitFactor(Units[k]) == Pow1024(k)
    ensures forall k :: 1 <= k < |Units| ==>
              ConvertToBytes(size, Units[k]) == 1024 * ConvertToBytes(size, Units[k - 1])
    ensures unit !in Units ==> ConvertToBytes(size, unit) == size
    ensures ConvertToBytes(size, unit) > 0 <==> size > 0
  {
    assert Pow1024(2) == MiB;
    assert Pow1024(3) == GiB;
    assert Pow1024(4) == TiB;
    forall k | 1 <= k < |Units|
      ensures ConvertToBytes(size, Units[k]) == 1024 * ConvertToBytes(size, Units[k - 1])
    {
      assert UnitFactor(Units[k]) == 1024 * UnitFactor(Units[k - 1]);
    }
  }

  // ---------------------------------------------------------------------------
  // Media classification by capacity

  /** The classifier's thresholds, from the smallest kind of medium to the largest. */
  function DetermineMediaType(capacity: nat): string
  {
    if capacity < 10 * MiB then "floppy"
    else if capacity < 5 * GiB then "cd"
    else if capacity < 10 * GiB then "dvd"
    else if capacity < 200 * GiB then "usb"
    else if capacity < 2000 * GiB then "smartphone"
    else "hdd"
  }

  /** The kinds of media ordered by the capacity bands the classifier uses. */
  const MediaKinds: seq<string> := ["floppy", "cd", "dvd", "usb", "smartphone", "hdd"]

  /** The lower end of band k (band 0 starts at zero; the last band is open above). */
  function BandStart(k: nat): nat
    requires k < 6
  {
    [0, 10 * MiB, 5 * GiB, 10 * GiB, 200 * GiB, 2000 * GiB][k]
  }

  function Band(capacity: nat): (k: nat)
    ensures k < 6
  {
    if capacity < 10 * MiB then 0
    else if capacity < 5 * GiB then 1
    else if capacity < 10 * GiB then 2
    else if capacity < 200 * GiB then 3
    else if capacity < 2000 * GiB then 4
    else 5
  }

  /** The classifier names band k exactly for the capacities from the start of band k up
      to the start of the next one. */
  lemma ClassifierFollowsBands(capacity: nat, k: nat)
    requires k < 6
    ensures DetermineMediaType(capacity) == MediaKinds[k] <==>
              BandStart(k) <= capacity && (k == 5 || capacity < BandStart(k + 1))
  {
    assert Band(capacity) == k <==> BandStart(k) <= capacity && (k == 5 || capacity < BandStart(k + 1));
    assert DetermineMediaType(capacity) == MediaKinds[Band(capacity)];
    assert forall i, j :: 0 <= i < j < 6 ==> MediaKinds[i] != MediaKinds[j];
  }

  /** A larger capacity never gets a smaller kind of medium. */
  lemma ClassifierIsMonotone(a: nat, b: nat)
    requires a <= b
    ensures Band(a) <= Band(b)
    ensures DetermineMediaType(a) == MediaKinds[Band(a)]
    ensures DetermineMediaType(b) == MediaKinds[Band(b)]
  {
  }

  // ---------------------------------------------------------------------------
  // Plausible ranges

  datatype Range = Range(min: nat, max: nat)

  /** The plausible sizes of each file type; other types have none. */
  function FileRange(fileType: string): Option<Range>
  {
    if fileType == "image" then Some(Range(50 * KiB, 50 * MiB))
    else if fileType == "text" then Some(Range(100, 10 * MiB))
    else if fileType == "music" then Some(Range(500 * KiB, 20 * MiB))
    else if fileType == "video" then Some(Range(MiB, 10 * GiB))
    else None
  }

  /** The plausible capacities of each kind of medium (3.5 GiB for a DVD is a whole number
      of bytes); other kinds have none. */
  function MediaRange(mediaType: string): Option<Range>
  {
    if mediaType == "cd" then Some(Range(600 * MiB, 800 * MiB))
    else if mediaType == "dvd" then Some(Range(3584 * MiB, 9 * GiB))
    else if mediaType == "usb" then Some(Range(128 * MiB, TiB))
    else if mediaType == "smartphone" then Some(Range(16 * GiB, TiB))
    else if mediaType == "hdd" then Some(Range(100 * GiB, 20 * TiB))
    else if mediaType == "floppy" then Some(Range(700 * KiB, 3 * MiB))
    else None
  }

  /** validateFileSize / validateMediaCapacity: a type without a range, or a size inside
      its range, is accepted; outside the range, the learner's answer to the confirmation
      dialog decides. */
  function Validate(range: Option<Range>, bytes: nat, confirmed: bool): bool
  {
    match range
    case None => true
    case Some(r) => if bytes < r.min || bytes > r.max then confirmed else true
  }

  /** The dialog's answer matters exactly for a size outside a known range. */
  lemma ValidateAsksOnlyOutOfRange(range: Option<Range>, bytes: nat)
    ensures Validate(range, bytes, false) <==> range.None? || range.value.min <= bytes <= range.value.max
    ensures Validate(range, bytes, true)
  {
  }

  /** Every range is non-empty, and the file and media tables cover exactly their types. */
  lemma RangesAreWellFormed(t: string)
    ensures FileRange(t).Some? ==> FileRange(t).value.min < FileRange(t).value.max
    ensures MediaRange(t).Some? ==> MediaRange(t).value.min < MediaRange(t).value.max
    ensures FileRange(t).Some? <==> t in {"image", "text", "music", "video"}
    ensures MediaRange(t).Some? <==> t in MediaKinds
  {
  }

  // ---------------------------------------------------------------------------
  // Lists of files and media

  /** A file the learner added; `id` stands for its creation timestamp. */
  datatype File = File(id: int, fileType: string, size: nat)

  /** A storage medium the learner added. */
  datatype Medium = Medium(id: int, mediaType: string, capacity: nat)

  /** `Array.prototype.filter`. */
  function Filter<T>(s: seq<T>, keep: T -> bool): seq<T>
    decreases |s|
  {
    if s == [] then []
    else (if keep(s[0]) then [s[0]] else []) + Filter(s[1..], keep)
  }

  /** The filter keeps every element that passes, as often as it occurs, and nothing else. */
  lemma {:induction false} FilterCounts<T>(s: seq<T>, keep: T -> bool)
    ensures forall x :: multiset(Filter(s, keep))[x] == if keep(x) then multiset(s)[x] else 0
    ensures forall x :: x in Filter(s, keep) ==> keep(x)
    decreases |s|
  {
    if s != [] {
      FilterCounts(s[1..], keep);
      assert s == [s[0]] + s[1..];
    }
  }

  /** Filtering a concatenation is the concatenation of the filtered parts. */
  lemma {:induction false} FilterAppend<T>(a: seq<T>, b: seq<T>, keep: T -> bool)
    ensures Filter(a + b, keep) == Filter(a, keep) + Filter(b, keep)
    decreases |a|
  {
    if a == [] {
      assert a + b == b;
    } else {
      FilterAppend(a[1..], b, keep);
      assert (a + b)[1..] == a[1..] + b;
    }
  }

  /** A list whose every element passes comes back unchanged. */
  lemma {:induction false} FilterAllPass<T>(a: seq<T>, keep: T -> bool)
    requires forall k :: 0 <= k < |a| ==> keep(a[k])
    ensures Filter(a, keep) == a
    decreases |a|
  {
    if a != [] {
      FilterAllPass(a[1..], keep);
    }
  }

  /** The filter works element by element and keeps the order: filtering a concatenation
      is the concatenation of the filtered parts, a single element is kept or dropped on
      its own, and a list whose every element passes comes back unchanged. */
  lemma FilterKeepsOrder<T>(a: seq<T>, b: seq<T>, keep: T -> bool)
    ensures Filter(a + b, keep) == Filter(a, keep) + Filter(b, keep)
    ensures forall x :: Filter([x], keep) == if keep(x) then [x] else []
    ensures (forall k :: 0 <= k < |a| ==> keep(a[k])) ==> Filter(a, keep) == a
  {
    FilterAppend(a, b, keep);
    forall x
      ensures Filter([x], keep) == if keep(x) then [x] else []
    {
      assert [x][1..] == [];
    }
    if forall k :: 0 <= k < |a| ==> keep(a[k]) {
      FilterAllPass(a, keep);
    }
  }

  /** Capacities ascend along the list (ties in any order). */
  predicate SortedByCapacity(s: seq<Medium>)
  {
    forall i, j :: 0 <= i < j < |s| ==> s[i].capacity <= s[j].capacity
  }

  /** The filter keeps the order of what it keeps, so it keeps a sorted list sorted. */
  lemma {:induction false} FilterKeepsSorted(s: seq<Medium>, keep: Medium -> bool)
    requires SortedByCapacity(s)
    ensures SortedByCapacity(Filter(s, keep))
    decreases |s|
  {
    if s != [] {
      FilterKeepsSorted(s[1..], keep);
      FilterCounts(s[1..], keep);
      var rest := Filter(s[1..], keep);
      forall j | 0 <= j < |rest|
        ensures s[0].capacity <= rest[j].capacity
      {
        assert rest[j] in multiset(rest);
        assert rest[j] in s[1..];
      }
    }
  }

  /** Inserting a medium after every medium of at most its capacity: the place a stable
      sort gives an item appended to a sorted list. */
  function Insert(s: seq<Medium>, m: Medium): seq<Medium>
    decreases |s|
  {
    if s == [] then [m]
    else if m.capacity < s[|s| - 1].capacity then Insert(s[..|s| - 1], m) + [s[|s| - 1]]
    else s + [m]
  }

  lemma {:induction false} InsertKeeps(s: seq<Medium>, m: Medium)
    ensures multiset(Insert(s, m)) == multiset(s) + multiset{m}
    ensures |Insert(s, m)| == |s| + 1
    decreases |s|
  {
    if s != [] && m.capacity < s[|s| - 1].capacity {
      InsertKeeps(s[..|s| - 1], m);
      assert s == s[..|s| - 1] + [s[|s| - 1]];
    }
  }

  lemma AppendLargest(r: seq<Medium>, x: Medium)
    requires SortedByCapacity(r)
    requires forall i :: 0 <= i < |r| ==> r[i].capacity <= x.capacity
    ensures SortedByCapacity(r + [x])
  {
  }

  lemma {:induction false} InsertSorts(s: seq<Medium>, m: Medium)
    requires SortedByCapacity(s)
    ensures SortedByCapacity(Insert(s, m))
    decreases |s|
  {
    if s == [] {
    } else if m.capacity < s[|s| - 1].capacity {
      var init, last := s[..|s| - 1], s[|s| - 1];
      InsertSorts(init, m);
      InsertKeeps(init, m);
      var r := Insert(init, m);
      forall i | 0 <= i < |r|
        ensures r[i].capacity <= last.capacity
      {
        assert r[i] in multiset(r);
        assert r[i] == m || r[i] in multiset(init);
      }
      AppendLargest(r, last);
    } else {
      AppendLargest(s, m);
    }
  }

  lemma InsertSortsAndKeeps(s: seq<Medium>, m: Medium)
    requires SortedByCapacity(s)
    ensures SortedByCapacity(Insert(s, m))
    ensures multiset(Insert(s, m)) == multiset(s) + multiset{m}
    ensures |Insert(s, m)| == |s| + 1
  {
    InsertSorts(s, m);
    InsertKeeps(s, m);
  }

  /** A stable sort by capacity: each element is inserted in turn into the sorted prefix. */
  function SortByCapacity(s: seq<Medium>): seq<Medium>
    decreases |s|
  {
    if s == [] then [] else Insert(SortByCapacity(s[..|s| - 1]), s[|s| - 1])
  }

  /** The sort returns a sorted permutation of its input, and a sorted list unchanged. */
  lemma {:induction false} SortIsSortedPermutation(s: seq<Medium>)
    ensures SortedByCapacity(SortByCapacity(s))
    ensures multiset(SortByCapacity(s)) == multiset(s)
    decreases |s|
  {
    if s != [] {
      var init, last := s[..|s| - 1], s[|s| - 1];
      SortIsSortedPermutation(init);
      InsertSortsAndKeeps(SortByCapacity(init), last);
      assert SortByCapacity(s) == Insert(SortByCapacity(init), last);
      assert s == init + [last];
      assert multiset(s) == multiset(init) + multiset{last};
    }
  }

  lemma {:induction false} SortKeepsSorted(s: seq<Medium>)
    requires SortedByCapacity(s)
    ensures SortByCapacity(s) == s
    decreases |s|
  {
    if s != [] {
      SortKeepsSorted(s[..|s| - 1]);
      assert s == s[..|s| - 1] + [s[|s| - 1]];
    }
  }

  /** Appending to a sorted list and sorting is the stable insertion of the new item. */
  lemma AppendThenSort(s: seq<Medium>, m: Medium)
    requires SortedByCapacity(s)
    ensures SortByCapacity(s + [m]) == Insert(s, m)
  {
    assert (s + [m])[..|s|] == s;
    SortKeepsSorted(s);
  }

  // ---------------------------------------------------------------------------
  // The fill simulation

  /** One animation run: the size of all files, how many copies of them fit, the step
      size, and the copies shown so far. */
  datatype Chain = Chain(total: nat, maxFiles: nat, stepSize: nat, step: nat)

  /** `Math.max(1, Math.ceil(maxFiles / 20))`. */
  function StepSize(maxFiles: nat): nat
  {
    if maxFiles == 0 then 1 else (maxFiles + 19) / 20
  }

  /** The run set up for filling a medium of `capacity` with files of `total` bytes. */
  function StartChain(capacity: nat, total: nat): Chain
    requires total > 0
  {
    Chain(total, capacity / total, StepSize(capacity / total), 0)
  }

  /** The result of one animation tick: the filled space it writes, and the run that
      continues after it, if the tick schedules another. */
  datatype Tick = Tick(filled: nat, next: Option<Chain>)

  /** One tick of `animate`, given whether the simulation is still active: a finished or
      stopped run writes the full fill and ends; otherwise it advances by one step (not
      past the end), writes that fill, and continues unless it reached the end. */
  function Animate(c: Chain, active: bool): Tick
  {
    if c.step >= c.maxFiles || !active then Tick(c.maxFiles * c.total, None)
    else
      var step := if c.step + c.stepSize <= c.maxFiles then c.step + c.stepSize else c.maxFiles;
      Tick(step * c.total, if step < c.maxFiles then Some(c.(step := step)) else None)
  }

  /** A run is well set up when its copies fit the capacity and its step is positive. */
  predicate ChainFits(c: Chain, capacity: nat)
  {
    c.maxFiles * c.total <= capacity && c.stepSize >= 1 && c.step <= c.maxFiles
  }

  /** A run starts at step 0 with maxFiles = floor(capacity / total), so maxFiles copies
      fit and one more would not, and with the least positive step that reaches maxFiles
      in twenty steps, i.e. max(1, ceil(maxFiles / 20)). */
  lemma StartChainFits(capacity: nat, total: nat)
    requires total > 0
    ensures ChainFits(StartChain(capacity, total), capacity)
    ensures StartChain(capacity, total).maxFiles * total <= capacity < (StartChain(capacity, total).maxFiles + 1) * total
    ensures 20 * StartChain(capacity, total).stepSize >= StartChain(capacity, total).maxFiles
    ensures StartChain(capacity, total).stepSize == 1 ||
              20 * (StartChain(capacity, total).stepSize - 1) < StartChain(capacity, total).maxFiles
    ensures StartChain(capacity, total).step == 0
  {
    var m := capacity / total;
    assert m * total <= capacity < (m + 1) * total;
  }

  /** A tick never writes more than the medium holds. A continuing tick advances by one
      whole step and writes that many copies; a tick that ends the run, because the run was
      finished, stopped or reached its last step, writes the full fill of `maxFiles` copies. */
  lemma AnimateStaysWithinCapacity(c: Chain, active: bool, capacity: nat)
    requires ChainFits(c, capacity)
    ensures Animate(c, active).filled <= capacity
    ensures Animate(c, active).next.Some? ==>
              var d := Animate(c, active).next.value;
              ChainFits(d, capacity) && c.step < d.step < c.maxFiles &&
              d.total == c.total && d.maxFiles == c.maxFiles && d.stepSize == c.stepSize &&
              d.step == c.step + c.stepSize && Animate(c, active).filled == d.step * c.total
    ensures Animate(c, active).next.None? ==> Animate(c, active).filled == c.maxFiles * c.total
    ensures Animate(c, active).next.None? <==>
              !active || c.step >= c.maxFiles || c.step + c.stepSize >= c.maxFiles
  {
    var t := Animate(c, active);
    if !(c.step >= c.maxFiles || !active) {
      var step := if c.step + c.stepSize <= c.maxFiles then c.step + c.stepSize else c.maxFiles;
      assert step * c.total <= c.maxFiles * c.total;
    }
  }

  /** Running an uninterrupted simulation tick after tick. */
  function RunTicks(c: Chain, k: nat): Tick
    decreases k
  {
    var t := Animate(c, true);
    if k == 0 || t.next.None? then t else RunTicks(t.next.value, k - 1)
  }

  /** An active run reaches the end within 20 ticks of its start: after the i-th tick it
      shows at least i steps' worth of copies. */
  lemma {:induction false} RunEnds(c: Chain, k: nat)
    requires c.stepSize >= 1 && c.step <= c.maxFiles
    requires c.step + (k + 1) * c.stepSize >= c.maxFiles
    ensures RunTicks(c, k).next.None?
    ensures RunTicks(c, k).filled == c.maxFiles * c.total
    decreases k
  {
    var t := Animate(c, true);
    if k > 0 && t.next.Some? {
      var d := t.next.value;
      assert d.step == c.step + c.stepSize;
      assert d.step + k * d.stepSize == c.step + (k + 1) * c.stepSize;
      RunEnds(d, k - 1);
    }
  }

  /** A freshly started simulation that nobody stops ends within twenty ticks, having
      filled exactly `floor(capacity / total)` copies of the files. */
  lemma SimulationEndsWithinTwentyTicks(capacity: nat, total: nat)
    requires total > 0
    ensures RunTicks(StartChain(capacity, total), 19).next.None?
    ensures RunTicks(StartChain(capacity, total), 19).filled == (capacity / total) * total
  {
    StartChainFits(capacity, total);
    RunEnds(StartChain(capacity, total), 19);
  }
}
