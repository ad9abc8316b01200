/** The SpectralView drivers (`auto_run_spectralview.py` and
    `auto_run_spectralview_many_folders.py`): for each expected product, in
    order, wait for the file and then its header, then switch to the next
    virtual desktop and start the SpectralView processing job there. A run is the sequence of
    events it produces, every wait taken to end; keystrokes are values. */
module SpectralView {
  import opened Common

  // ---------------------------------------------------------------------
  // Waiting for files.
  // ---------------------------------------------------------------------

  /** A path as a folder and a name inside it. */
  datatype Path = Path(folder: string, name: string)

  /** One poll of `wait_for_file`: the first listed name whose stem is the
      base name. A listing that fails (`None`) or holds no such name means
      another poll. */
  function FindBase(listing: Option<seq<string>>, base: string): (r: Option<nat>)
    ensures r.Some? ==> listing.Some? && r.value < |listing.value| && Stem(listing.value[r.value]) == base
    ensures r.Some? ==> forall j | 0 <= j < r.value :: Stem(listing.value[j]) != base
    ensures r.None? <==> listing.None? || forall j | 0 <= j < |listing.value| :: Stem(listing.value[j]) != base
  {
    match listing
    case None => None
    case Some(names) => FirstWithStem(names, base)
  }

  function FirstWithStem(names: seq<string>, base: string): (r: Option<nat>)
    ensures r.Some? ==> r.value < |names| && Stem(names[r.value]) == base
    ensures r.Some? ==> forall j | 0 <= j < r.value :: Stem(names[j]) != base
    ensures r.None? <==> forall j | 0 <= j < |names| :: Stem(names[j]) != base
  {
    if names == [] then None
    else if Stem(names[0]) == base then Some(0)
    else
      assert forall j | 1 <= j < |names| :: names[j] == names[1..][j - 1];
      match FirstWithStem(names[1..], base)
      case None => None
      case Some(j) => Some(j + 1)
  }

  /** `wait_for_hdr_file`: the header sits next to the file, named after
      the file's stem. */
  function HdrPath(p: Path): Path {
    Path(p.folder, Stem(p.name) + ".hdr")
  }

  /** The header waited for after a base file was found is the base name
      with `.hdr`, in the same folder, whatever the found file's
      extension. */
  lemma HeaderOfFoundFile(folder: string, listing: seq<string>, base: string)
    requires FindBase(Some(listing), base).Some?
    ensures var f := listing[FindBase(Some(listing), base).value];
      HdrPath(Path(folder, f)) == Path(folder, base + ".hdr")
  {
  }

  /** A name with a letter that is not a dot loses exactly `.hdr`. */
  lemma StemOfHeader(b: string, i: nat)
    requires i < |b| && b[i] != '.'
    ensures Stem(b + ".hdr") == b
  {
    var h := b + ".hdr";
    assert LastIndexOf(h, '.') == Some(|b|) by {
      assert h[|b|] == '.';
      assert LastIndexOf(h, '.') == LastIndexOf(h[..|h| - 1], '.');
      assert h[..|h| - 1][..|h| - 2] == h[..|h| - 2];
      assert LastIndexOf(h[..|h| - 1], '.') == LastIndexOf(h[..|h| - 2], '.');
      assert h[..|h| - 2][..|h| - 3] == h[..|h| - 3];
      assert LastIndexOf(h[..|h| - 2], '.') == LastIndexOf(h[..|h| - 3], '.');
      assert h[..|h| - 3] == b + ".";
    }
    assert h[i] != '.';
    assert h[..|b|] == b;
  }

  /** The header itself has the base name as its stem: when it is listed
      before any other file of that stem, the wait for the base file ends
      on the header. */
  lemma HeaderCanBeTheBaseFile(listing: seq<string>, base: string, i: nat)
    requires i < |base| && base[i] != '.'
    requires |listing| > 0 && listing[0] == base + ".hdr"
    ensures FindBase(Some(listing), base) == Some(0)
  {
    StemOfHeader(base, i);
  }

  // ---------------------------------------------------------------------
  // Keystrokes and desktops.
  // ---------------------------------------------------------------------

  datatype Key = PrevDesktop | NextDesktop | Tab | Space

  function Repeat(k: Key, n: nat): (r: seq<Key>)
    ensures |r| == n && forall i | 0 <= i < n :: r[i] == k
  {
    if n == 0 then [] else [k] + Repeat(k, n - 1)
  }

  /** `switch_to_desktop`: `lefts` presses of Ctrl+Win+Left to reach the
      first desktop, then one Ctrl+Win+Right per step to the target. */
  function SwitchKeys(target: nat, lefts: nat): (r: seq<Key>)
    ensures |r| == lefts + target
    ensures forall i | 0 <= i < lefts :: r[i] == PrevDesktop
    ensures forall i | lefts <= i < |r| :: r[i] == NextDesktop
  {
    Repeat(PrevDesktop, lefts) + Repeat(NextDesktop, target)
  }

  /** `start_next_task`. */
  function StartKeys(): (r: seq<Key>)
    ensures |r| == 5 && r[4] == Space && forall i | 0 <= i < 4 :: r[i] == Tab
  {
    Repeat(Tab, 4) + [Space]
  }

  /** The desktop shown after one key, among `count` desktops: the
      switching keys stop at either end; other keys leave it. */
  function Press(pos: nat, k: Key, count: nat): nat {
    match k
    case PrevDesktop => if pos == 0 then 0 else pos - 1
    case NextDesktop => if pos + 1 < count then pos + 1 else pos
    case _ => pos
  }

  function PressAll(pos: nat, keys: seq<Key>, count: nat): nat
    decreases |keys|
  {
    if keys == [] then pos else PressAll(Press(pos, keys[0], count), keys[1..], count)
  }

  lemma {:induction false} PressAllAppend(pos: nat, a: seq<Key>, b: seq<Key>, count: nat)
    ensures PressAll(pos, a + b, count) == PressAll(PressAll(pos, a, count), b, count)
    decreases |a|
  {
    if a == [] {
      assert a + b == b;
    } else {
      assert (a + b)[0] == a[0];
      assert (a + b)[1..] == a[1..] + b;
      PressAllAppend(Press(pos, a[0], count), a[1..], b, count);
    }
  }

  /** Enough left presses reach the first desktop from anywhere within
      that many steps of it. */
  lemma {:induction false} LeftsReachFirst(pos: nat, n: nat, count: nat)
    requires pos <= n
    ensures PressAll(pos, Repeat(PrevDesktop, n), count) == 0
    decreases n
  {
    if n > 0 {
      var r := Repeat(PrevDesktop, n);
      assert r[1..] == Repeat(PrevDesktop, n - 1);
      LeftsReachFirst(if pos == 0 then 0 else pos - 1, n - 1, count);
    }
  }

  /** Right presses from the first desktop count up to the target. */
  lemma {:induction false} RightsCountUp(pos: nat, n: nat, count: nat)
    requires pos + n < count
    ensures PressAll(pos, Repeat(NextDesktop, n), count) == pos + n
    decreases n
  {
    if n > 0 {
      var r := Repeat(NextDesktop, n);
      assert r[1..] == Repeat(NextDesktop, n - 1);
      RightsCountUp(pos + 1, n - 1, count);
    }
  }

  /** A switch ends on the target desktop when the start is within `lefts`
      steps of the first desktop and the target exists. */
  lemma SwitchLandsOnTarget(start: nat, target: nat, lefts: nat, count: nat)
    requires start <= lefts && target < count
    ensures PressAll(start, SwitchKeys(target, lefts), count) == target
  {
    PressAllAppend(start, Repeat(PrevDesktop, lefts), Repeat(NextDesktop, target), count);
    LeftsReachFirst(start, lefts, count);
    RightsCountUp(0, target, count);
  }

  // ---------------------------------------------------------------------
  // The schedule.
  // ---------------------------------------------------------------------

  datatype Event =
    | WaitBase(folder: string, base: string)
    | WaitHeader(folder: string, base: string)
    | SwitchTo(desktop: nat)
    | StartTask

  /** An expected product: the folder to watch and the base name. */
  type Slot = (string, string)

  /** The cycles from slot `g` on: wait for the file and its header; stop
      after the last slot, otherwise switch to desktop `g + 1` and start
      the SpectralView processing job there. */
  function Cycles(slots: seq<Slot>, g: nat): (r: seq<Event>)
    requires g <= |slots|
    decreases |slots| - g
  {
    if g == |slots| then []
    else
      var waits := [WaitBase(slots[g].0, slots[g].1), WaitHeader(slots[g].0, slots[g].1)];
      if g == |slots| - 1 then waits
      else waits + [SwitchTo(g + 1), StartTask] + Cycles(slots, g + 1)
  }

  /** Event `i` of a schedule: slot `i / 4`'s base wait, header wait,
      switch to the next desktop and task start, in that order. */
  function Expected(slots: seq<Slot>, i: nat): Event
    requires i / 4 < |slots|
  {
    var g := i / 4;
    if i % 4 == 0 then WaitBase(slots[g].0, slots[g].1)
    else if i % 4 == 1 then WaitHeader(slots[g].0, slots[g].1)
    else if i % 4 == 2 then SwitchTo(g + 1)
    else StartTask
  }

  /** A run follows the schedule of its slots: four events per slot, the
      last slot's two waits ending it. */
  predicate Scheduled(slots: seq<Slot>, run: seq<Event>) {
    && |slots| > 0 && |run| == 4 * |slots| - 2
    && forall i | 0 <= i < |run| :: run[i] == Expected(slots, i)
  }

  lemma Quarter(g: nat, j: nat)
    requires j < 4
    ensures (4 * g + j) / 4 == g && (4 * g + j) % 4 == j
  {
  }

  lemma {:induction false} CyclesFrom(slots: seq<Slot>, g: nat)
    requires g < |slots|
    ensures var r := Cycles(slots, g);
      && |r| == 4 * (|slots| - g) - 2
      && forall i | 0 <= i < |r| :: (4 * g + i) / 4 < |slots| && r[i] == Expected(slots, 4 * g + i)
    decreases |slots| - g
  {
    var r := Cycles(slots, g);
    forall j | 0 <= j < 4 && j < |r| ensures (4 * g + j) / 4 < |slots| && r[j] == Expected(slots, 4 * g + j) {
      Quarter(g, j);
    }
    if g < |slots| - 1 {
      CyclesFrom(slots, g + 1);
      var rest := Cycles(slots, g + 1);
      assert forall i | 4 <= i < |r| :: r[i] == rest[i - 4];
    }
  }

  /** The whole schedule visits desktops `1 .. n-1` once each, in order,
      after the waits of the slot before. */
  lemma CyclesAreScheduled(slots: seq<Slot>)
    requires |slots| > 0
    ensures Scheduled(slots, Cycles(slots, 0))
  {
    CyclesFrom(slots, 0);
  }

  // The single-folder driver.

  function SingleSlots(folder: string, names: seq<string>): (r: seq<Slot>)
    ensures |r| == |names| && forall i | 0 <= i < |names| :: r[i] == (folder, names[i])
  {
    seq(|names|, i requires 0 <= i < |names| => (folder, names[i]))
  }

  /** `main` of the single-folder driver: nothing at all when the folder or
      the list is not configured. */
  function RunSingle(folder: string, names: seq<string>): (r: seq<Event>)
    ensures folder == [] || names == [] ==> r == []
    ensures folder != [] && names != [] ==> Scheduled(SingleSlots(folder, names), r)
  {
    if folder == [] || names == [] then []
    else
      CyclesAreScheduled(SingleSlots(folder, names));
      Cycles(SingleSlots(folder, names), 0)
  }

  /** The keystrokes of a run: each switch resets with `lefts` presses. */
  function RunKeys(run: seq<Event>, lefts: nat): seq<Key>
    decreases |run|
  {
    if run == [] then []
    else
      var here := match run[0]
        case SwitchTo(d) => SwitchKeys(d, lefts)
        case StartTask => StartKeys()
        case _ => [];
      here + RunKeys(run[1..], lefts)
  }

  /** The single-folder driver resets with one press more than there are
      names, enough to reach the first desktop from the last of them. */
  function SingleLefts(names: seq<string>): nat {
    |names| + 1
  }

  /** The single-folder reset reaches the target from any desktop up to
      one past the last name's. */
  lemma SingleSwitchLands(names: seq<string>, start: nat, target: nat, count: nat)
    requires start <= |names| + 1 && target < count
    ensures PressAll(start, SwitchKeys(target, SingleLefts(names)), count) == target
  {
    SwitchLandsOnTarget(start, target, SingleLefts(names), count);
  }

  /** An unconfigured driver sends no keystrokes. */
  lemma UnconfiguredSendsNothing(folder: string, names: seq<string>, lefts: nat)
    requires folder == [] || names == []
    ensures RunKeys(RunSingle(folder, names), lefts) == []
  {
  }

  // The many-folder driver.

  datatype Stage = Stage(folder: string, names: seq<string>)

  /** The stages' products in order. */
  function Slots(stages: seq<Stage>): (r: seq<Slot>)
    ensures |r| == Total(stages)
    decreases |stages|
  {
    if stages == [] then []
    else SingleSlots(stages[0].folder, stages[0].names) + Slots(stages[1..])
  }

  /** `total_desktop_slots`: the sum of the stages' list lengths. */
  function Total(stages: seq<Stage>): nat
    decreases |stages|
  {
    if stages == [] then 0 else |stages[0].names| + Total(stages[1..])
  }

  /** The files of one stage from `j` on, `g` being the global desktop
      index of file `j`; the flag says the run ended. */
  function StageRun(stage: Stage, j: nat, g: nat, total: nat): (r: (seq<Event>, bool))
    requires j <= |stage.names|
    decreases |stage.names| - j
  {
    if j == |stage.names| then ([], false)
    else
      var waits := [WaitBase(stage.folder, stage.names[j]), WaitHeader(stage.folder, stage.names[j])];
      if g == total - 1 then (waits, true)
      else
        var (rest, stop) := StageRun(stage, j + 1, g + 1, total);
        (waits + [SwitchTo(g + 1), StartTask] + rest, stop)
  }

  /** The stages from `k` on, with the global counter at `g`. */
  function StagesRun(stages: seq<Stage>, k: nat, g: nat, total: nat): seq<Event>
    requires k <= |stages|
    decreases |stages| - k
  {
    if k == |stages| then []
    else
      var (events, stop) := StageRun(stages[k], 0, g, total);
      if stop then events else events + StagesRun(stages, k + 1, g + |stages[k].names|, total)
  }

  /** `main` of the many-folder driver. */
  function RunMany(stages: seq<Stage>): (r: seq<Event>)
    ensures stages == [] ==> r == []
  {
    if stages == [] then [] else StagesRun(stages, 0, 0, Total(stages))
  }

  /** The many-folder driver resets with two presses more than there are
      slots. */
  function ManyLefts(stages: seq<Stage>): nat {
    Total(stages) + 2
  }

  /** The many-folder reset reaches the target from any desktop up to two
      past the last slot's. */
  lemma ManySwitchLands(stages: seq<Stage>, start: nat, target: nat, count: nat)
    requires start <= Total(stages) + 2 && target < count
    ensures PressAll(start, SwitchKeys(target, ManyLefts(stages)), count) == target
  {
    SwitchLandsOnTarget(start, target, ManyLefts(stages), count);
  }

  lemma {:induction false} TotalSplit(stages: seq<Stage>, k: nat)
    requires k <= |stages|
    ensures Total(stages) == Total(stages[..k]) + Total(stages[k..])
    decreases |stages|
  {
    if k > 0 {
      TotalSplit(stages[1..], k - 1);
      assert stages[1..][..k - 1] == stages[..k][1..];
      assert stages[1..][k - 1..] == stages[k..];
    } else {
      assert stages[k..] == stages;
    }
  }

  /** A stage's files from `j` on are the flat cycles from its global
      index, as long as the stage does not hold the last slot; and the
      stage stops exactly when it does. */
  lemma {:induction false} StageRunIsCycles(slots: seq<Slot>, stage: Stage, j: nat, g: nat)
    requires j <= |stage.names| && g + |stage.names| - j <= |slots|
    requires forall i | j <= i < |stage.names| :: slots[g + i - j] == (stage.folder, stage.names[i])
    ensures var (events, stop) := StageRun(stage, j, g, |slots|);
      && (stop <==> g + |stage.names| - j == |slots| && j < |stage.names|)
      && (stop ==> events == Cycles(slots, g))
      && (!stop ==> events + Cycles(slots, g + |stage.names| - j) == Cycles(slots, g))
    decreases |stage.names| - j
  {
    if j < |stage.names| && g != |slots| - 1 {
      StageRunIsCycles(slots, stage, j + 1, g + 1);
      var waits := [WaitBase(stage.folder, stage.names[j]), WaitHeader(stage.folder, stage.names[j])];
      var (rest, stop) := StageRun(stage, j + 1, g + 1, |slots|);
      assert waits + [SwitchTo(g + 1), StartTask] + rest + Cycles(slots, g + |stage.names| - j)
          == waits + [SwitchTo(g + 1), StartTask] + (rest + Cycles(slots, g + 1 + |stage.names| - (j + 1)));
    }
  }

  /** `StageRunIsCycles` for a whole stage. */
  lemma WholeStageIsCycles(slots: seq<Slot>, stage: Stage, g: nat)
    requires g + |stage.names| <= |slots|
    requires forall i | 0 <= i < |stage.names| :: slots[g + i] == (stage.folder, stage.names[i])
    ensures var (events, stop) := StageRun(stage, 0, g, |slots|);
      && (stop ==> events == Cycles(slots, g))
      && (!stop ==> events + Cycles(slots, g + |stage.names|) == Cycles(slots, g))
  {
    StageRunIsCycles(slots, stage, 0, g);
  }

  /** The stages from `k` on produce the flat cycles from the first slot
      of stage `k`. */
  predicate RunFromStageMatches(stages: seq<Stage>, k: nat)
    requires k <= |stages|
  {
    Total(stages[..k]) <= Total(stages)
    && StagesRun(stages, k, Total(stages[..k]), Total(stages)) == Cycles(Slots(stages), Total(stages[..k]))
  }

  lemma StagesStep(stages: seq<Stage>, k: nat)
    requires k < |stages| && RunFromStageMatches(stages, k + 1)
    ensures RunFromStageMatches(stages, k)
  {
    var slots := Slots(stages);
    var g := Total(stages[..k]);
    TotalSplit(stages, k);
    TotalStep(stages, k);
    var stage := stages[k];
    var (events, stop) := StageRun(stage, 0, g, |slots|);
    assert (stop ==> events == Cycles(slots, g))
        && (!stop ==> events + Cycles(slots, g + |stage.names|) == Cycles(slots, g)) by {
      SlotsAt(stages, k);
      WholeStageIsCycles(slots, stage, g);
    }
    StagesRunUnfold(stages, k, g, |slots|);
    Combine(StagesRun(stages, k, g, |slots|), events, StagesRun(stages, k + 1, g + |stage.names|, |slots|),
            Cycles(slots, g), Cycles(slots, g + |stage.names|), stop);
  }

  lemma StagesRunUnfold(stages: seq<Stage>, k: nat, g: nat, total: nat)
    requires k < |stages|
    ensures var (events, stop) := StageRun(stages[k], 0, g, total);
      StagesRun(stages, k, g, total) == if stop then events else events + StagesRun(stages, k + 1, g + |stages[k].names|, total)
  {
  }

  lemma Combine(run: seq<Event>, events: seq<Event>, later: seq<Event>, whole: seq<Event>, after: seq<Event>, stop: bool)
    requires run == if stop then events else events + later
    requires later == after
    requires stop ==> events == whole
    requires !stop ==> events + after == whole
    ensures run == whole
  {
  }

  lemma {:induction false} StagesRunIsCycles(stages: seq<Stage>, k: nat)
    requires k <= |stages|
    ensures RunFromStageMatches(stages, k)
    decreases |stages| - k
  {
    if k < |stages| {
      StagesRunIsCycles(stages, k + 1);
      StagesStep(stages, k);
    } else {
      assert stages[..k] == stages;
    }
  }

  lemma TotalStep(stages: seq<Stage>, k: nat)
    requires k < |stages|
    ensures Total(stages[..k + 1]) == Total(stages[..k]) + |stages[k].names|
  {
    assert stages[..k + 1][..k] == stages[..k];
    TotalSplit(stages[..k + 1], k);
    assert stages[..k + 1][k..] == [stages[k]];
    assert Total([stages[k]]) == |stages[k].names|;
  }

  /** The slots of stage `k` start at the total of the stages before it. */
  lemma {:induction false} SlotsAt(stages: seq<Stage>, k: nat)
    requires k < |stages|
    ensures Total(stages[..k]) + |stages[k].names| <= |Slots(stages)|
    ensures forall i | 0 <= i < |stages[k].names| ::
      Slots(stages)[Total(stages[..k]) + i] == (stages[k].folder, stages[k].names[i])
    decreases |stages|
  {
    if k == 0 {
      assert stages[..0] == [];
      SlotsFront(stages);
    } else {
      SlotsAt(stages[1..], k - 1);
      TotalFront(stages, k);
      SlotsFront(stages);
      assert stages[1..][k - 1] == stages[k];
    }
  }

  /** The first stage's slots come first, then the others'. */
  lemma SlotsFront(stages: seq<Stage>)
    requires |stages| > 0
    ensures var h := |stages[0].names|;
      && |Slots(stages)| == h + |Slots(stages[1..])|
      && (forall i | 0 <= i < h :: Slots(stages)[i] == (stages[0].folder, stages[0].names[i]))
      && (forall j | 0 <= j < |Slots(stages[1..])| :: Slots(stages)[h + j] == Slots(stages[1..])[j])
  {
    var first := SingleSlots(stages[0].folder, stages[0].names);
    var rest := Slots(stages[1..]);
    var all := Slots(stages);
    assert all == first + rest;
    assert |first| == |stages[0].names|;
    forall i | 0 <= i < |first| ensures all[i] == first[i] {
    }
    forall j | 0 <= j < |rest| ensures all[|first| + j] == rest[j] {
    }
  }

  lemma TotalFront(stages: seq<Stage>, k: nat)
    requires 0 < k <= |stages|
    ensures Total(stages[..k]) == |stages[0].names| + Total(stages[1..][..k - 1])
  {
    assert stages[..k][0] == stages[0] && stages[..k][1..] == stages[1..][..k - 1];
  }

  /** The global counter advances by one per file in the stages'
      concatenated order, and the run ends right after the last slot:
      the many-folder run is the flat schedule of all the stages' slots. */
  lemma ManyIsFlatSchedule(stages: seq<Stage>)
    requires Total(stages) > 0
    ensures Scheduled(Slots(stages), RunMany(stages))
  {
    assert stages[..0] == [];
    StagesRunIsCycles(stages, 0);
    assert RunFromStageMatches(stages, 0);
    CyclesAreScheduled(Slots(stages));
  }

  /** Stages whose lists are all empty produce no events. */
  lemma {:induction false} NoSlotsNoEvents(stages: seq<Stage>, k: nat, g: nat, total: nat)
    requires k <= |stages| && forall i | k <= i < |stages| :: stages[i].names == []
    ensures StagesRun(stages, k, g, total) == []
    decreases |stages| - k
  {
    if k < |stages| {
      NoSlotsNoEvents(stages, k + 1, g, total);
    }
  }
}
