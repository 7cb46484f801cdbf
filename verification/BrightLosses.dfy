/** Two runs of the brightness program in which merging loses something. */
module BrightLosses {
  import opened BrightHardware
  import opened BrightProtocol
  import Levels
  import opened Options

  const SCANNED := Work(Scan, 0, false, "", 1)

  /**
   A scan, then the same key twice, before the worker has taken the first press: what the scan finds, the focus and
   the key, the two commands, and what the terminal shows after each press.
   */
  datatype Keys = Keys(found: State, focus: bool, level: int, first: Work, second: Work, once: Shown, twice: Shown)

  function Ui(k: Keys, shown: Shown, sequence: nat): (ui: Terminal) {
    Terminal(shown, 0, k.focus, true, sequence, false, "")
  }

  /** Both presses are queued. */
  function Pressed(k: Keys): (s: System) {
    var first := Snapshot(ShownOf(k.found), 1);
    System(Ui(k, k.twice, 3), [k.first, k.second], [], Waiting(None), k.found,
           [SCANNED, k.first, k.second], [[SCANNED]], [first], [k.found])
  }

  function RunOf(b: Backend, k: Keys): (run: seq<System>) {
    var start := Start("");
    var shown := ShownOf(k.found);
    var first := Snapshot(shown, 1);
    var idle := Terminal(shown, 0, false, false, 1, false, "");
    var seen := System(idle, [], [], Waiting(None), k.found, [SCANNED], [[SCANNED]], [first], [k.found]);
    var pressed := Pressed(k);
    var after := Execute(b, k.found, k.second);
    var reply := Snapshot(ShownOf(after), 3);
    [ start,
      start.(worker := Merging(SCANNED, []), commands := []),
      start.(worker := Executing(SCANNED, None, []), commands := []),
      seen.(ui := start.ui, replies := [first]),
      seen,
      seen.(ui := idle.(nightFocus := k.focus)),
      seen.(ui := Ui(k, k.once, 2), commands := [k.first], queued := [SCANNED, k.first]),
      pressed,
      pressed.(worker := Merging(k.first, []), commands := [k.second]),
      pressed.(worker := Merging(k.second, [k.first]), commands := []),
      pressed.(worker := Executing(k.second, None, [k.first]), commands := []),
      pressed.(worker := Waiting(None), commands := [], current := after, replies := [reply],
               groups := [[SCANNED], [k.first, k.second]], sent := [first, reply], states := [k.found, after]) ]
  }

  ghost predicate Fits(b: Backend, k: Keys) {
    && b.Hardware? && b.found(1) == k.found && |k.found.panels| == 1
    && SameControl(k.first, k.second) && Coalescible(k.second.kind) && k.second.sequence == 3
    && var run := RunOf(b, k);
       Adjust(run[5], k.level, false) == run[6] && Adjust(run[6], k.level, false) == run[7]
  }

  lemma ScanIsTaken(b: Backend, k: Keys)
    ensures var run := RunOf(b, k); run[0] == Start("") && Take(run[0], run[1]) && Merge(run[1], run[2])
  {
    hide Execute, ShownOf;
  }

  lemma ScanIsExecuted(b: Backend, k: Keys)
    requires b.Hardware? && b.found(1) == k.found
    ensures Run(b, RunOf(b, k)[2], RunOf(b, k)[3])
  {
    hide ShownOf;
    assert Execute(b, EMPTY, SCANNED) == k.found;
    hide Execute;
    var s, t := RunOf(b, k)[2], RunOf(b, k)[3];
    assert s.current == EMPTY && s.worker == Executing(SCANNED, None, []) && [] + [SCANNED] == [SCANNED];
    assert t == s.(worker := Waiting(None), current := k.found, groups := [[SCANNED]],
                   replies := [Snapshot(ShownOf(k.found), 1)], sent := [Snapshot(ShownOf(k.found), 1)], states := [k.found]);
  }

  lemma ScanIsShown(b: Backend, k: Keys)
    requires |k.found.panels| == 1
    ensures var run := RunOf(b, k); UiStep(run[3], run[4]) && UiStep(run[4], run[5])
  {
    hide Adjust, Execute;
    var run := RunOf(b, k);
    assert run[4] == Drain(run[3]);
    assert run[5] == run[4].(ui := run[4].ui.(nightFocus := k.focus));
  }

  lemma KeysAreMerged(b: Backend, k: Keys)
    requires Fits(b, k)
    ensures var run := RunOf(b, k);
            && UiStep(run[5], run[6]) && UiStep(run[6], run[7])
            && Take(run[7], run[8]) && Merge(run[8], run[9]) && Merge(run[9], run[10])
  {
    hide Adjust, Execute, ShownOf;
    assert [k.first, k.second][1..] == [k.second] && [k.second][1..] == [];
    assert [] + [k.first] == [k.first];
    assert !RunOf(b, k)[5].ui.stopping && !RunOf(b, k)[6].ui.stopping;
  }

  lemma MergedIsExecuted(b: Backend, k: Keys)
    requires Fits(b, k)
    ensures Run(b, RunOf(b, k)[10], RunOf(b, k)[11])
  {
    hide Adjust, Execute, ShownOf;
    var s, t := RunOf(b, k)[10], RunOf(b, k)[11];
    assert s.worker.merged + [s.worker.work] == [k.first, k.second];
    assert s.groups + [[k.first, k.second]] == t.groups;
    assert s.states + [t.current] == t.states;
    assert s.sent + [Snapshot(ShownOf(t.current), 3)] == t.sent;
    assert s.replies + [Snapshot(ShownOf(t.current), 3)] == t.replies;
  }

  lemma RunOfKeysIsRun(b: Backend, k: Keys)
    requires Fits(b, k)
    ensures IsRun(b, RunOf(b, k))
  {
    hide UiStep, Take, Merge, Run;
    ScanIsTaken(b, k);
    ScanIsExecuted(b, k);
    ScanIsShown(b, k);
    KeysAreMerged(b, k);
    MergedIsExecuted(b, k);
    assert |RunOf(b, k)| == 12;
  }

  /** The last answer of such a run is faithful exactly when the two commands merge well. */
  lemma LossIff(b: Backend, k: Keys)
    requires Fits(b, k)
    ensures var s := RunOf(b, k)[11];
            && IsRun(b, RunOf(b, k))
            && (s.current == ExecuteAll(b, EMPTY, s.queued) <==> MergesWell(b, k.found, [k.first, k.second]))
  {
    hide Fits, Inv, Step, MergesWell, Execute, ShownOf, ExecuteAll;
    RunOfKeysIsRun(b, k);
    RunHolds(b, RunOf(b, k), 11);
    var s := RunOf(b, k)[11];
    AnswerFaithfulIff(b, s, 0);
    OneMergesWell(b, EMPTY, [SCANNED]);
    AnswerFaithfulIff(b, s, 1);
    assert s.queued[..3] == s.queued;
  }

  lemma EndOf(b: Backend, k: Keys)
    ensures var s := RunOf(b, k)[11];
            s.current == Execute(b, k.found, k.second) && s.queued == [SCANNED, k.first, k.second]
  {
  }

  /** Without merging the two commands are executed after the scan, one by one. */
  lemma OneByOne(b: Backend, k: Keys)
    requires b.Hardware? && b.found(1) == k.found
    ensures ExecuteAll(b, EMPTY, [SCANNED, k.first, k.second]) == Execute(b, Execute(b, k.found, k.first), k.second)
  {
    var works := [SCANNED, k.first, k.second];
    assert works[..2] == [SCANNED, k.first] && works[..2][..1] == [SCANNED] && [SCANNED][..0] == [];
    assert Execute(b, EMPTY, SCANNED) == k.found;
    assert ExecuteAll(b, EMPTY, [SCANNED]) == k.found;
    assert ExecuteAll(b, EMPTY, works[..2]) == Execute(b, k.found, k.first);
  }

  // ----- a device that refuses the second command -----

  const NO_SERVICE := Detected(NoService, false, false, None, None)
  const TAKEN := Answer(true, true, true, true, true, true, NO_SERVICE, true, true)

  function PanelAt(percent: nat): (p: Panel) {
    Panel(Device("d", percent, 100), percent)
  }

  function DevicesAt(percent: nat, night: Night): (shown: Shown) {
    Shown([Device("d", percent, 100)], night)
  }

  const WARM := Night(true, 5500, true, true)
  const FOUND := State([PanelAt(10)], DaemonState(WARM, Ramp(true, false)))

  function RefusesWrite(): (b: Backend) {
    Hardware(n => if n == 3 then TAKEN.(written := false) else TAKEN, _ => FOUND)
  }

  const BRIGHTER := Keys(FOUND, false, 10, Work(Brightness, 20, true, "d", 2), Work(Brightness, 30, true, "d", 3),
                         DevicesAt(20, WARM), DevicesAt(30, WARM))

  /** The presses of a key queue the two commands. */
  lemma KeysFit(b: Backend, k: Keys)
    requires (b == RefusesWrite() && k == BRIGHTER) || (b == RefusesTemperature() && k == WARMER)
    ensures Fits(b, k)
  {
    hide Adjust, Execute;
    FirstPress(b, k);
    SecondPress(b, k);
  }

  lemma FirstPress(b: Backend, k: Keys)
    requires k == BRIGHTER || k == WARMER
    ensures Adjust(RunOf(b, k)[5], k.level, false) == RunOf(b, k)[6]
  {
    hide Execute;
    assert ShownOf(FOUND) == DevicesAt(10, WARM);
    assert [] + [k.first] == [k.first] && [SCANNED] + [k.first] == [SCANNED, k.first];
  }

  lemma SecondPress(b: Backend, k: Keys)
    requires k == BRIGHTER || k == WARMER
    ensures Adjust(RunOf(b, k)[6], k.level, false) == RunOf(b, k)[7]
  {
    hide Execute;
    assert [k.first] + [k.second] == [k.first, k.second];
    assert [SCANNED, k.first] + [k.second] == [SCANNED, k.first, k.second];
  }

  /** The device takes 20 and would refuse 30: executed one by one the commands leave 20, but merged they leave 10. */
  lemma RefusalLosesAValue()
    ensures var b, run := RefusesWrite(), RunOf(RefusesWrite(), BRIGHTER);
            && IsRun(b, run)
            && run[11].current == FOUND
            && ExecuteAll(b, EMPTY, run[11].queued) == FOUND.(panels := [PanelAt(20)])
  {
    hide RunOf, IsRun, Levels.Percent, Levels.Raw;
    var b := RefusesWrite();
    EndOf(b, BRIGHTER);
    KeysFit(b, BRIGHTER);
    RunOfKeysIsRun(b, BRIGHTER);
    OneByOne(b, BRIGHTER);
    Levels.PercentOfRaw(20, 100);
    LevelsAre();
    assert SetBrightness(b, FOUND.panels, BRIGHTER.second) == FOUND.panels;
    assert SetBrightness(b, FOUND.panels, BRIGHTER.first) == [PanelAt(20)];
    assert SetBrightness(b, [PanelAt(20)], BRIGHTER.second) == [PanelAt(20)];
  }

  lemma LevelsAre()
    ensures Levels.Raw(20, 100) == 20 && Levels.Percent(20, 100) == 20 && Levels.Percent(10, 100) == 10
  {
  }

  // ----- a ramp that refuses the first command -----

  function RefusesTemperature(): (b: Backend) {
    Hardware(n => if n == 2 then TAKEN.(applies := false) else TAKEN, _ => FOUND)
  }

  const WARMER := Keys(FOUND, true, 10, Work(Temperature, 4950, true, "d", 2), Work(Temperature, 4400, true, "d", 3),
                       DevicesAt(10, WARM.(kelvin := 4950)), DevicesAt(10, WARM.(kelvin := 4400)))

  /**
   The ramp refuses 4950 and would take 4400: executed one by one the first command switches the filter off and the
   second is only remembered, but merged they leave the filter on.
   */
  lemma RefusalSwitchesOff()
    ensures var b, run := RefusesTemperature(), RunOf(RefusesTemperature(), WARMER);
            && IsRun(b, run)
            && run[11].current == FOUND.(daemon := DaemonState(WARM.(kelvin := 4400), Ramp(true, false)))
            && ExecuteAll(b, EMPTY, run[11].queued)
               == FOUND.(daemon := DaemonState(WARM.(enabled := false, kelvin := 4400), Ramp(false, false)))
  {
    hide RunOf, IsRun;
    var b := RefusesTemperature();
    EndOf(b, WARMER);
    KeysFit(b, WARMER);
    RunOfKeysIsRun(b, WARMER);
    OneByOne(b, WARMER);
  }
}
