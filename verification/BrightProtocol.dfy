/** The brightness program, step by step: the terminal, the worker that merges commands, and their queues. */
module BrightProtocol {
  import opened BrightHardware
  import opened Options
  import opened Sequences

  // ----- the two threads -----

  // The terminal thread queues commands, a worker thread executes them against the hardware and answers with
  // snapshots. The worker merges runs of commands for the same control; sequence numbers tell the terminal which
  // answer is current.

  /** The worker: waiting (perhaps with a command handed over), merging, or about to execute. */
  datatype Worker =
    | Waiting(next: Option<Work>)
    | Merging(work: Work, merged: seq<Work>)
    | Executing(work: Work, next: Option<Work>, merged: seq<Work>)
    | Stopped

  datatype Snapshot = Snapshot(shown: Shown, sequence: nat)

  /** The terminal thread. */
  datatype Terminal = Terminal(
    shown: Shown,
    selected: nat,
    nightFocus: bool,
    busy: bool,
    sequence: nat,
    stopping: bool,
    preferred: string)

  /**
   The whole program. `queued`, `groups`, `sent` and `states` are its history: all commands queued, those dealt
   with, grouped as they were merged, all answers, and the state of devices and filter behind each answer.
   */
  datatype System = System(
    ui: Terminal,
    commands: seq<Work>,
    replies: seq<Snapshot>,
    worker: Worker,
    current: State,
    queued: seq<Work>,
    groups: seq<seq<Work>>,
    sent: seq<Snapshot>,
    states: seq<State>)

  const EMPTY := State([], DaemonState(Night(false, 0, false, false), NoService))

  function DeviceName(ui: Terminal): string {
    if ui.selected < |ui.shown.devices| then ui.shown.devices[ui.selected].id else ""
  }

  /** `queue`: number a command from the state of the terminal and hand it to the worker. */
  function Queue(s: System, kind: Kind, value: int): (r: System) {
    var w := Work(kind, value, s.ui.shown.night.enabled, DeviceName(s.ui), s.ui.sequence + 1);
    s.(ui := s.ui.(sequence := s.ui.sequence + 1, busy := true), commands := s.commands + [w], queued := s.queued + [w])
  }

  /** The program once it has queued its first scan; a device may be preferred, or none (""). */
  function Start(preferred: string): (s: System) {
    var ui := Terminal(Shown([], Night(false, 4000, false, false)), 0, false, false, 0, false, preferred);
    Queue(System(ui, [], [], Waiting(None), EMPTY, [], [], [], []), Scan, 0)
  }

  /** `adjust` */
  function Adjust(s: System, level: int, absolute: bool): (r: System) {
    var shown := s.ui.shown;
    if !s.ui.nightFocus && s.ui.selected < |shown.devices| then
      var d := shown.devices[s.ui.selected];
      var percent := Clamp(if absolute then level else d.percent + level, 1, 100);
      Queue(s.(ui := s.ui.(shown := shown.(devices := shown.devices[s.ui.selected := d.(percent := percent)]))),
            Brightness, percent)
    else if s.ui.nightFocus && shown.night.canTemperature then
      var warmth := Clamp(if absolute then level * 55 else 6500 - shown.night.kelvin + level * 55, 0, 5500);
      Queue(s.(ui := s.ui.(shown := shown.(night := shown.night.(kelvin := 6500 - warmth)))),
            Temperature, 6500 - warmth)
    else s
  }

  /** The key that switches the filter; it moves the focus to the temperature of a filter switched on. */
  function ToggleNight(s: System): (r: System) {
    Queue(s.(ui := Toggled(s.ui)), SetNight, s.ui.shown.night.kelvin)
  }

  function Toggled(ui: Terminal): (r: Terminal) {
    var night := ui.shown.night.(enabled := !ui.shown.night.enabled);
    ui.(shown := ui.shown.(night := night), nightFocus := ui.nightFocus || (night.enabled && night.canTemperature))
  }

  /** The last device with an id, or row 0. */
  function RowOf(devices: seq<Device>, id: string): (row: nat)
    ensures devices != [] ==> row < |devices|
  {
    if devices == [] then 0
    else if devices[|devices| - 1].id == id then |devices| - 1
    else RowOf(devices[..|devices| - 1], id)
  }

  /** The device to select in a reply: the one selected, or else the preferred one. */
  function Wanted(ui: Terminal): string {
    if DeviceName(ui) == "" then ui.preferred else DeviceName(ui)
  }

  /** One reply is taken from the queue; it is shown if it answers the latest command. */
  function Drain(s: System): (r: System)
    requires s.replies != []
  {
    var reply := s.replies[0];
    var rest := s.(replies := s.replies[1..]);
    if reply.sequence >= s.ui.sequence then
      rest.(ui := s.ui.(shown := reply.shown, selected := RowOf(reply.shown.devices, Wanted(s.ui)), busy := false))
    else rest
  }

  ghost predicate UiStep(s: System, t: System) {
    && !s.ui.stopping
    && (|| (exists level, absolute :: t == Adjust(s, level, absolute))
        || (s.ui.shown.night.canToggle && t == ToggleNight(s))
        || (exists focus :: t == s.(ui := s.ui.(nightFocus := focus)))
        || (exists row: nat :: row < |s.ui.shown.devices| && t == s.(ui := s.ui.(selected := row)))
        || t == Queue(s, Scan, 0)
        || (!s.ui.busy && t == Queue(s, Read, 0))
        || (s.replies != [] && t == Drain(s))
        || t == Queue(s.(ui := s.ui.(stopping := true)), Quit, 0))
  }

  /** The worker takes the command it was handed, or the first one in the queue. */
  ghost predicate Take(s: System, t: System) {
    && s.worker.Waiting?
    && if s.worker.next.Some? then t == s.(worker := Merging(s.worker.next.value, []))
       else s.commands != []
            && t == s.(worker := Merging(s.commands[0], []), commands := s.commands[1..])
  }

  /** One look at the queue while merging: merge, hand over, or stop merging. */
  ghost predicate Merge(s: System, t: System) {
    && s.worker.Merging?
    && var w := s.worker.work;
       if Coalescible(w.kind) && s.commands != [] then
         var c := s.commands[0];
         if SameControl(c, w)
         then t == s.(worker := Merging(c, s.worker.merged + [w]), commands := s.commands[1..])
         else t == s.(worker := Executing(w, Some(c), s.worker.merged), commands := s.commands[1..])
       else t == s.(worker := Executing(w, None, s.worker.merged))
  }

  ghost predicate Run(b: Backend, s: System, t: System) {
    && s.worker.Executing?
    && var w := s.worker.work;
       var groups := s.groups + [s.worker.merged + [w]];
       if w.kind == Quit then t == s.(worker := Stopped, groups := groups)
       else
         var state := Execute(b, s.current, w);
         var reply := Snapshot(ShownOf(state), w.sequence);
         t == s.(worker := Waiting(s.worker.next), current := state, groups := groups,
                 replies := s.replies + [reply], sent := s.sent + [reply], states := s.states + [state])
  }

  ghost predicate Step(b: Backend, s: System, t: System) {
    UiStep(s, t) || Take(s, t) || Merge(s, t) || Run(b, s, t)
  }

  // ----- the invariant -----

  /** The commands the worker holds, in order. */
  function Held(w: Worker): (held: seq<Work>) {
    match w
    case Waiting(None) => []
    case Waiting(Some(n)) => [n]
    case Merging(work, merged) => merged + [work]
    case Executing(work, None, merged) => merged + [work]
    case Executing(work, Some(n), merged) => merged + [work] + [n]
    case Stopped => []
  }

  ghost predicate GoodWorker(w: Worker) {
    match w
    case Merging(work, merged) => GoodGroup(merged + [work])
    case Executing(work, next, merged) => GoodGroup(merged + [work]) && (work.kind == Quit ==> next == None)
    case _ => true
  }

  /** The commands of the first `n` groups, in order. */
  function Flat(groups: seq<seq<Work>>, n: nat): (works: seq<Work>)
    requires n <= |groups|
  {
    if n == 0 then [] else Flat(groups, n - 1) + groups[n - 1]
  }

  function Executed(s: System): (works: seq<Work>) {
    Flat(s.groups, |s.groups|)
  }

  /** The state before an answer. */
  function Before(states: seq<State>, k: nat): (s: State)
    requires k <= |states|
  {
    if k == 0 then EMPTY else states[k - 1]
  }

  /** Commands are numbered 1, 2, 3, ... and nothing is queued after the last one. */
  ghost predicate Numbered(queued: seq<Work>, stopping: bool) {
    && (forall i :: 0 <= i < |queued| ==> queued[i].sequence == i + 1)
    && forall i :: 0 <= i < |queued| && queued[i].kind == Quit ==> stopping && i == |queued| - 1
  }

  /** The state behind an answer is that of all commands up to its number executed in order. */
  ghost predicate Faithful(b: Backend, queued: seq<Work>, sequence: nat, state: State) {
    1 <= sequence <= |queued| && state == ExecuteAll(b, EMPTY, queued[..sequence])
  }

  /** The answers still in the queue end the list of all answers. */
  function Drained(s: System): (n: int) {
    |s.sent| - |s.replies|
  }

  /** The number of the last answer the terminal has taken. */
  function LastDrained(s: System): (n: nat)
    requires 0 <= Drained(s) <= |s.sent|
  {
    if Drained(s) == 0 then 0 else s.sent[Drained(s) - 1].sequence
  }

  ghost predicate Increasing(sent: seq<Snapshot>) {
    forall i, j :: 0 <= i < j < |sent| ==> sent[i].sequence < sent[j].sequence
  }

  /** No command is lost: those queued are dealt with, held by the worker, or in the queue. */
  ghost predicate Conserved(s: System) {
    s.queued == Executed(s) + Held(s.worker) + s.commands
  }

  ghost predicate WorkerInv(b: Backend, s: System) {
    && GoodWorker(s.worker)
    && s.current == Before(s.states, |s.states|)
    && (s.worker.Stopped? ==> s.ui.stopping)
  }

  /** An answer carries the number of the last command of its group, and shows what that command did to the state before. */
  ghost predicate Answers(b: Backend, groups: seq<seq<Work>>, sent: seq<Snapshot>, states: seq<State>, k: nat)
    requires k < |groups| && k < |sent| && k < |states|
  {
    && GoodGroup(groups[k]) && sent[k].sequence == |Flat(groups, k + 1)|
    && sent[k].sequence == groups[k][|groups[k]| - 1].sequence
    && sent[k].shown == ShownOf(states[k])
    && states[k] == Execute(b, Before(states, k), groups[k][|groups[k]| - 1])
  }

  ghost predicate AnswerInv(b: Backend, s: System) {
    && Increasing(s.sent)
    && |s.groups| == |s.sent| + (if s.worker.Stopped? then 1 else 0)
    && |s.states| == |s.sent|
    && (forall k :: 0 <= k < |s.sent| ==> Answers(b, s.groups, s.sent, s.states, k))
    && (s.sent != [] ==> s.sent[|s.sent| - 1].sequence <= |s.queued|)
  }

  ghost predicate QueueInv(s: System) {
    && 0 <= Drained(s) && s.replies == s.sent[Drained(s)..]
  }

  ghost predicate UiInv(s: System)
    requires QueueInv(s)
  {
    && s.ui.sequence == |s.queued| > 0
    && (s.ui.shown.devices != [] ==> s.ui.selected < |s.ui.shown.devices|)
    && (!s.ui.busy <==> LastDrained(s) == s.ui.sequence)
    && (!s.ui.busy ==> s.ui.shown == s.sent[Drained(s) - 1].shown)
    && (s.ui.stopping ==> s.queued[|s.queued| - 1].kind == Quit)
  }

  ghost predicate Inv(b: Backend, s: System) {
    && Conserved(s) && Numbered(s.queued, s.ui.stopping)
    && WorkerInv(b, s) && AnswerInv(b, s) && QueueInv(s) && UiInv(s)
  }

  // ----- every step keeps the invariant -----

  lemma StartHolds(b: Backend, preferred: string)
    ensures Inv(b, Start(preferred))
  {
    var s := Start(preferred);
    assert s.queued == Executed(s) + Held(s.worker) + s.commands;
  }

  /** No answer is numbered higher than the commands queued. */
  lemma SentBound(b: Backend, s: System, k: nat)
    requires AnswerInv(b, s) && k < |s.sent|
    ensures s.sent[k].sequence <= |s.queued|
  {
    hide Answers;
    if k < |s.sent| - 1 {
      assert s.sent[k].sequence < s.sent[|s.sent| - 1].sequence;
    }
  }

  /** Whatever the terminal changes before it queues a command, the invariant holds after. */
  lemma QueueKeeps(b: Backend, s: System, ui: Terminal, kind: Kind, value: int)
    requires Inv(b, s) && !s.ui.stopping && ui.sequence == s.ui.sequence
    requires ui.shown.devices != [] ==> ui.selected < |ui.shown.devices|
    requires ui.stopping <==> kind == Quit
    ensures Inv(b, Queue(s.(ui := ui), kind, value))
  {
    hide Answers, Held, GoodWorker, Numbered, Increasing, Flat;
    var t := Queue(s.(ui := ui), kind, value);
    var w := t.queued[|s.queued|];
    assert t.queued == s.queued + [w];
    NumberedMore(s.queued, w);
    Regroup(Executed(s) + Held(s.worker), s.commands, [w]);
    if Drained(s) > 0 {
      SentBound(b, s, Drained(s) - 1);
    }
    assert LastDrained(t) == LastDrained(s);
  }

  lemma NumberedMore(queued: seq<Work>, w: Work)
    requires Numbered(queued, false) && w.sequence == |queued| + 1
    ensures Numbered(queued + [w], w.kind == Quit)
  {
  }

  lemma DrainKeeps(b: Backend, s: System)
    requires Inv(b, s) && s.replies != []
    ensures Inv(b, Drain(s))
  {
    hide Answers, GoodWorker, Flat, Numbered, Held, Increasing;
    var t := Drain(s);
    var k := Drained(s);
    assert s.replies[0] == s.sent[k] && s.replies[1..] == s.sent[k + 1..];
    SentBound(b, s, k);
    TakenBefore(s);
    assert Drained(t) == k + 1 && LastDrained(t) == s.sent[k].sequence;
  }

  lemma {:induction false} LastRowIs(devices: seq<Device>, id: string)
    ensures var row := RowOf(devices, id);
            && ((exists i :: 0 <= i < |devices| && devices[i].id == id) ==>
                  row < |devices| && devices[row].id == id && forall i :: row < i < |devices| ==> devices[i].id != id)
            && ((forall i :: 0 <= i < |devices| ==> devices[i].id != id) ==> row == 0)
  {
    if devices != [] && devices[|devices| - 1].id != id {
      LastRowIs(devices[..|devices| - 1], id);
    }
  }

  /**
   A reply to the latest command is shown, and the row selected is the last one of the device that was selected,
   or of the preferred device when none was; without such a row it is the first. An older reply shows nothing.
   */
  lemma DrainSelects(s: System)
    requires s.replies != []
    ensures var reply, was, ui := s.replies[0], s.ui, Drain(s).ui;
            var devices := was.shown.devices;
            var none := was.selected >= |devices| || devices[was.selected].id == "";
            var id := if none then was.preferred else devices[was.selected].id;
            if reply.sequence < was.sequence then ui == was
            else
              && ui.shown == reply.shown && !ui.busy
              && ((exists i :: 0 <= i < |ui.shown.devices| && ui.shown.devices[i].id == id) ==>
                    && ui.selected < |ui.shown.devices| && ui.shown.devices[ui.selected].id == id
                    && forall i :: ui.selected < i < |ui.shown.devices| ==> ui.shown.devices[i].id != id)
              && ((forall i :: 0 <= i < |ui.shown.devices| ==> ui.shown.devices[i].id != id) ==> ui.selected == 0)
              && ui == was.(shown := ui.shown, selected := ui.selected, busy := false)
    ensures Drain(s) == s.(ui := Drain(s).ui, replies := s.replies[1..])
  {
    hide RowOf;
    LastRowIs(s.replies[0].shown.devices, Wanted(s.ui));
  }

  lemma TakenBefore(s: System)
    requires Increasing(s.sent) && 0 <= Drained(s) < |s.sent|
    ensures Drained(s) > 0 ==> LastDrained(s) < s.sent[Drained(s)].sequence
  {
  }

  lemma UiKeeps(b: Backend, s: System, t: System)
    requires Inv(b, s) && UiStep(s, t)
    ensures Inv(b, t)
  {
    hide Conserved, WorkerInv, AnswerInv, Numbered, Clamp;
    if level, absolute :| t == Adjust(s, level, absolute) {
      AdjustKeeps(b, s, level, absolute);
    } else if s.ui.shown.night.canToggle && t == ToggleNight(s) {
      QueueKeeps(b, s, Toggled(s.ui), SetNight, s.ui.shown.night.kelvin);
    } else if t == Queue(s, Scan, 0) {
      QueueKeeps(b, s, s.ui, Scan, 0);
    } else if t == Queue(s, Read, 0) {
      QueueKeeps(b, s, s.ui, Read, 0);
    } else if s.replies != [] && t == Drain(s) {
      DrainKeeps(b, s);
    } else if t == Queue(s.(ui := s.ui.(stopping := true)), Quit, 0) {
      QueueKeeps(b, s, s.ui.(stopping := true), Quit, 0);
    } else {
      LookKeeps(b, s, t);
    }
  }

  lemma AdjustKeeps(b: Backend, s: System, level: int, absolute: bool)
    requires Inv(b, s) && !s.ui.stopping
    ensures Inv(b, Adjust(s, level, absolute))
  {
    hide Conserved, WorkerInv, AnswerInv, Numbered, Clamp;
    var shown := s.ui.shown;
    if !s.ui.nightFocus && s.ui.selected < |shown.devices| {
      var d := shown.devices[s.ui.selected];
      var percent := Clamp(if absolute then level else d.percent + level, 1, 100);
      QueueKeeps(b, s, s.ui.(shown := shown.(devices := shown.devices[s.ui.selected := d.(percent := percent)])),
                 Brightness, percent);
    } else if s.ui.nightFocus && shown.night.canTemperature {
      var warmth := Clamp(if absolute then level * 55 else 6500 - shown.night.kelvin + level * 55, 0, 5500);
      QueueKeeps(b, s, s.ui.(shown := shown.(night := shown.night.(kelvin := 6500 - warmth))), Temperature, 6500 - warmth);
    }
  }

  /** Moving the focus or the selection shows nothing new. */
  lemma LookKeeps(b: Backend, s: System, t: System)
    requires Inv(b, s)
    requires (exists focus :: t == s.(ui := s.ui.(nightFocus := focus)))
             || (exists row: nat :: row < |s.ui.shown.devices| && t == s.(ui := s.ui.(selected := row)))
    ensures Inv(b, t)
  {
    hide Answers, Increasing, GoodWorker, Held, Flat;
    assert t == s.(ui := t.ui) && Drained(t) == Drained(s) && LastDrained(t) == LastDrained(s);
  }

  lemma LeftGroup(x: seq<Work>, y: seq<Work>, z: seq<Work>)
    ensures x + y + z == x + (y + z)
  {
  }

  /** The worker moves commands from the queue to its own hands. */
  lemma WorkerMoves(b: Backend, s: System, worker: Worker, commands: seq<Work>)
    requires Inv(b, s) && !s.worker.Stopped? && !worker.Stopped? && GoodWorker(worker)
    requires Held(worker) + commands == Held(s.worker) + s.commands
    ensures Inv(b, s.(worker := worker, commands := commands))
  {
    hide Answers, Held, GoodWorker, Increasing, Numbered, Flat;
    LeftGroup(Executed(s), Held(worker), commands);
    LeftGroup(Executed(s), Held(s.worker), s.commands);
    assert Drained(s.(worker := worker, commands := commands)) == Drained(s);
    assert LastDrained(s.(worker := worker, commands := commands)) == LastDrained(s);
  }

  lemma TakeMoves(s: System, t: System)
    requires Take(s, t)
    ensures t == s.(worker := t.worker, commands := t.commands)
    ensures !s.worker.Stopped? && !t.worker.Stopped? && GoodWorker(t.worker)
    ensures Held(t.worker) + t.commands == Held(s.worker) + s.commands
  {
    if s.worker.next == None {
      assert s.commands == [s.commands[0]] + t.commands;
    }
  }

  lemma MergeMoves(s: System, t: System)
    requires Merge(s, t) && GoodWorker(s.worker)
    ensures t == s.(worker := t.worker, commands := t.commands)
    ensures !s.worker.Stopped? && !t.worker.Stopped? && GoodWorker(t.worker)
    ensures Held(t.worker) + t.commands == Held(s.worker) + s.commands
  {
    if t.commands != s.commands {
      assert s.commands == [s.commands[0]] + t.commands;
      LeftGroup(Held(s.worker), [s.commands[0]], t.commands);
    }
  }

  lemma InvWorker(b: Backend, s: System)
    requires Inv(b, s)
    ensures GoodWorker(s.worker)
  {
  }

  lemma {:induction false} FlatPrefix(groups: seq<seq<Work>>, g: seq<Work>, n: nat)
    requires n <= |groups|
    ensures Flat(groups + [g], n) == Flat(groups, n)
  {
    if n > 0 {
      FlatPrefix(groups, g, n - 1);
    }
  }

  /** What the worker holds comes right after what it has dealt with. */
  lemma HeldIsNext(s: System)
    requires Conserved(s) && s.worker.Executing?
    ensures var done := Executed(s) + (s.worker.merged + [s.worker.work]);
            |done| <= |s.queued| && s.queued[|done| - 1] == s.worker.work
            && s.queued == done + Held(Waiting(s.worker.next)) + s.commands
  {
    hide Executed;
    var done := Executed(s) + (s.worker.merged + [s.worker.work]);
    var rest := Held(Waiting(s.worker.next)) + s.commands;
    assert s.queued == done + rest;
    assert done + rest == done + Held(Waiting(s.worker.next)) + s.commands;
  }

  lemma RunKeeps(b: Backend, s: System, t: System)
    requires Inv(b, s) && Run(b, s, t)
    ensures Inv(b, t)
  {
    hide Execute, SameControl, Increasing, UiInv, Answers, AnswerInv;
    var g := s.worker.merged + [s.worker.work];
    HeldIsNext(s);
    FlatPrefix(s.groups, g, |s.groups|);
    assert Executed(t) == Executed(s) + g;
    assert t.queued == Executed(t) + Held(t.worker) + t.commands;
    if s.worker.work.kind == Quit {
      GroupAdded(b, s, t, g);
    } else {
      AnswerAdded(b, s, t, g, Snapshot(ShownOf(t.current), s.worker.work.sequence));
    }
  }

  /** The group that stops the worker is not answered. */
  lemma GroupAdded(b: Backend, s: System, t: System, g: seq<Work>)
    requires AnswerInv(b, s) && QueueInv(s) && UiInv(s) && !s.worker.Stopped? && t.worker.Stopped?
    requires t.groups == s.groups + [g] && t.sent == s.sent && t.states == s.states
    requires t.replies == s.replies && t.queued == s.queued && t.ui == s.ui
    ensures AnswerInv(b, t) && QueueInv(t) && UiInv(t)
  {
    hide Increasing, Answers;
    forall k | 0 <= k < |t.sent| ensures Answers(b, t.groups, t.sent, t.states, k) {
      AnswerStays(b, s, t, g, k);
    }
    assert Drained(t) == Drained(s) && LastDrained(t) == LastDrained(s);
  }

  lemma AnswerStays(b: Backend, s: System, t: System, g: seq<Work>, k: nat)
    requires k < |s.groups| && k < |s.sent| && k < |s.states| && t.groups == s.groups + [g]
    requires s.sent <= t.sent && s.states <= t.states && Answers(b, s.groups, s.sent, s.states, k)
    ensures Answers(b, t.groups, t.sent, t.states, k)
  {
    hide Execute, GoodGroup, ShownOf;
    FlatPrefix(s.groups, g, k + 1);
    assert Before(t.states, k) == Before(s.states, k);
  }

  lemma IncreasingAdded(sent: seq<Snapshot>, reply: Snapshot)
    requires Increasing(sent) && (sent != [] ==> sent[|sent| - 1].sequence < reply.sequence)
    ensures Increasing(sent + [reply])
  {
    var r := sent + [reply];
    forall i, j | 0 <= i < j < |r| ensures r[i].sequence < r[j].sequence {
      assert i < |sent| - 1 ==> sent[i].sequence < sent[|sent| - 1].sequence;
    }
  }

  lemma AnswerAdded(b: Backend, s: System, t: System, g: seq<Work>, reply: Snapshot)
    requires AnswerInv(b, s) && QueueInv(s) && UiInv(s) && !s.worker.Stopped? && !t.worker.Stopped?
    requires t.groups == s.groups + [g] && t.sent == s.sent + [reply] && t.replies == s.replies + [reply]
    requires t.queued == s.queued && t.ui == s.ui && g != [] && GoodGroup(g) && reply.sequence == g[|g| - 1].sequence
    requires t.states == s.states + [t.current] && reply.shown == ShownOf(t.current)
    requires t.current == Execute(b, Before(s.states, |s.states|), g[|g| - 1])
    requires Executed(t) == Executed(s) + g && |Executed(t)| == reply.sequence <= |t.queued|
    ensures AnswerInv(b, t) && QueueInv(t) && UiInv(t)
  {
    hide Increasing, Answers, Execute, GoodGroup, ShownOf;
    assert Drained(t) == Drained(s);
    assert t.sent[Drained(t)..] == s.sent[Drained(s)..] + [reply];
    assert LastDrained(t) == LastDrained(s);
    LastSent(b, s);
    IncreasingAdded(s.sent, reply);
    forall k | 0 <= k < |t.sent| ensures Answers(b, t.groups, t.sent, t.states, k) {
      if k < |s.sent| {
        AnswerStays(b, s, t, g, k);
      } else {
        assert t.states[..k] == s.states;
        NewAnswer(b, t, k);
      }
    }
  }

  lemma NewAnswer(b: Backend, t: System, k: nat)
    requires k + 1 == |t.groups| == |t.sent| == |t.states| && GoodGroup(t.groups[k])
    requires t.sent[k].sequence == |Executed(t)| == t.groups[k][|t.groups[k]| - 1].sequence
    requires t.sent[k].shown == ShownOf(t.states[k])
    requires t.states[k] == Execute(b, Before(t.states[..k], k), t.groups[k][|t.groups[k]| - 1])
    ensures Answers(b, t.groups, t.sent, t.states, k)
  {
    hide Execute, GoodGroup, ShownOf;
    assert Before(t.states[..k], k) == Before(t.states, k);
  }

  /** While the worker lives its last answer is for the last command it dealt with. */
  lemma LastSent(b: Backend, s: System)
    requires AnswerInv(b, s) && !s.worker.Stopped?
    ensures |Executed(s)| == if s.sent == [] then 0 else s.sent[|s.sent| - 1].sequence
  {
    hide Execute, GoodGroup, Increasing;
    if s.sent != [] {
      assert Answers(b, s.groups, s.sent, s.states, |s.sent| - 1);
    }
  }

  lemma StepKeeps(b: Backend, s: System, t: System)
    requires Inv(b, s) && Step(b, s, t)
    ensures Inv(b, t)
  {
    hide Inv, UiStep, Take, Merge, Run, GoodWorker, Held;
    if UiStep(s, t) {
      UiKeeps(b, s, t);
    } else if Take(s, t) {
      TakeMoves(s, t);
      WorkerMoves(b, s, t.worker, t.commands);
    } else if Merge(s, t) {
      InvWorker(b, s);
      MergeMoves(s, t);
      WorkerMoves(b, s, t.worker, t.commands);
    } else {
      RunKeeps(b, s, t);
    }
  }

  // ----- what holds in every run -----

  ghost predicate IsRun(b: Backend, run: seq<System>) {
    && run != [] && run[0] == Start(run[0].ui.preferred)
    && forall i :: 0 <= i < |run| - 1 ==> Step(b, run[i], run[i + 1])
  }

  lemma {:induction false} RunHolds(b: Backend, run: seq<System>, i: nat)
    requires IsRun(b, run) && i < |run|
    ensures Inv(b, run[i])
  {
    hide Inv, Step;
    if i == 0 {
      StartHolds(b, run[0].ui.preferred);
    } else {
      RunHolds(b, run, i - 1);
      assert Step(b, run[i - 1], run[i]);
      StepKeeps(b, run[i - 1], run[i]);
    }
  }

  /** The terminal is idle, and so is the worker. */
  predicate Quiet(s: System) {
    s.commands == [] && s.replies == [] && s.worker == Waiting(None)
  }

  /** Behind the first `n` answers is the state of all commands up to their numbers executed in order. */
  ghost predicate AllFaithful(b: Backend, s: System, n: nat)
    requires n <= |s.sent| == |s.states|
  {
    forall k :: 0 <= k < n ==> Faithful(b, s.queued, s.sent[k].sequence, s.states[k])
  }

  /** The first `n` groups lost nothing by being merged. */
  ghost predicate AllMergeWell(b: Backend, s: System, n: nat)
    requires n <= |s.states| <= |s.groups|
  {
    forall k :: 0 <= k < n ==> MergesWell(b, Before(s.states, k), s.groups[k])
  }

  lemma {:induction false} FlatIsPrefix(groups: seq<seq<Work>>, n: nat, m: nat)
    requires n <= m <= |groups|
    ensures Flat(groups, n) <= Flat(groups, m)
    decreases m
  {
    if n < m {
      FlatIsPrefix(groups, n, m - 1);
    }
  }

  /** A faithful answer shows the commands of the groups up to its own. */
  lemma FaithfulIs(b: Backend, s: System, k: nat)
    requires Conserved(s) && k < |s.sent| && k < |s.groups| && k < |s.states| && Answers(b, s.groups, s.sent, s.states, k)
    ensures 1 <= s.sent[k].sequence <= |s.queued|
    ensures Faithful(b, s.queued, s.sent[k].sequence, s.states[k])
            <==> s.states[k] == ExecuteAll(b, EMPTY, Flat(s.groups, k + 1))
  {
    hide Execute, ExecuteAll, Held;
    FlatIsPrefix(s.groups, k + 1, |s.groups|);
    assert Flat(s.groups, k + 1) <= s.queued;
    assert s.queued[..s.sent[k].sequence] == Flat(s.groups, k + 1);
  }

  lemma {:induction false} FaithfulIff(b: Backend, s: System, n: nat)
    requires Inv(b, s) && n <= |s.sent|
    ensures |s.sent| == |s.states| <= |s.groups|
    ensures AllFaithful(b, s, n) <==> AllMergeWell(b, s, n)
  {
    hide Execute, ExecuteAll, Faithful, MergesWell, Flat, GoodGroup;
    if n > 0 {
      FaithfulIff(b, s, n - 1);
      if AllFaithful(b, s, n - 1) {
        AnswerFaithfulIff(b, s, n - 1);
      }
    }
  }

  /** After faithful answers the next one is faithful exactly when its group merges well. */
  lemma AnswerFaithfulIff(b: Backend, s: System, k: nat)
    requires Inv(b, s) && k < |s.sent| == |s.states| && AllFaithful(b, s, k)
    ensures |s.sent| <= |s.groups|
    ensures Faithful(b, s.queued, s.sent[k].sequence, s.states[k]) <==> MergesWell(b, Before(s.states, k), s.groups[k])
  {
    hide Execute, Faithful, MergesWell, Inv, ShownOf;
    InvAnswers(b, s, k);
    FaithfulIs(b, s, k);
    var g := s.groups[k];
    var before := Before(s.states, k);
    if k > 0 {
      InvAnswers(b, s, k - 1);
      FaithfulIs(b, s, k - 1);
    }
    assert before == ExecuteAll(b, EMPTY, Flat(s.groups, k));
    ExecuteAllAdds(b, EMPTY, Flat(s.groups, k), g);
    MergingIsFaithfulIff(b, before, g);
  }

  lemma InvAnswers(b: Backend, s: System, k: nat)
    requires Inv(b, s) && k < |s.sent|
    ensures |s.sent| == |s.states| <= |s.groups| && Answers(b, s.groups, s.sent, s.states, k) && Conserved(s)
  {
    hide Answers, Conserved;
  }

  /**
   In every state of every run: no command is lost; answers carry strictly increasing numbers, and each
   shows what the last command of its group did to the state the answer before it left; behind all answers is
   the state of all commands up to their numbers executed in order, as if none had been merged, if and only if
   every group merged well; when the terminal is not busy it shows the answer to its latest command; and when
   nothing is left to do it is not busy, and shows the state of the worker.
   */
  lemma RunIsSafe(b: Backend, run: seq<System>, i: nat)
    requires IsRun(b, run) && i < |run|
    ensures var s := run[i];
            && s.queued == Executed(s) + Held(s.worker) + s.commands
            && Increasing(s.sent)
            && |s.sent| == |s.states| <= |s.groups|
            && (forall k :: 0 <= k < |s.sent| ==> Answers(b, s.groups, s.sent, s.states, k))
            && (AllFaithful(b, s, |s.sent|) <==> AllMergeWell(b, s, |s.sent|))
            && (!s.ui.busy ==> Snapshot(s.ui.shown, |s.queued|) in s.sent)
            && (!s.ui.busy && AllMergeWell(b, s, |s.sent|) ==> s.ui.shown == ShownOf(ExecuteAll(b, EMPTY, s.queued)))
            && (Quiet(s) ==> !s.ui.busy && s.ui.shown == ShownOf(s.current))
  {
    hide ExecuteAll, Step, Flat, GoodWorker, Numbered, Execute, ShownOf, MergesWell;
    RunHolds(b, run, i);
    var s := run[i];
    FaithfulIff(b, s, |s.sent|);
    if !s.ui.busy {
      var k := Drained(s) - 1;
      assert s.sent[k] == Snapshot(s.ui.shown, |s.queued|);
      assert s.queued[..|s.queued|] == s.queued;
      InvAnswers(b, s, k);
    }
    if Quiet(s) {
      LastSent(b, s);
      assert s.queued == Executed(s);
    }
  }

  // ----- what the keys do -----

  /** One more command, numbered next, for the device selected; the terminal is busy and shows what is expected. */
  ghost predicate Queues(s: System, kind: Kind, value: int, shown: Shown, t: System) {
    && t.ui.sequence == s.ui.sequence + 1 && t.ui.busy && t.ui.shown == shown
    && t.ui.selected == s.ui.selected && t.ui.stopping == s.ui.stopping && t.ui.preferred == s.ui.preferred
    && |t.commands| == |s.commands| + 1 && s.commands <= t.commands && t.queued == s.queued + t.commands[|s.commands|..]
    && t == s.(ui := t.ui, commands := t.commands, queued := t.queued)
    && var w := t.commands[|s.commands|];
       && w.kind == kind && w.value == value && w.enabled == shown.night.enabled && w.sequence == t.ui.sequence
       && w.device == (if s.ui.selected < |shown.devices| then shown.devices[s.ui.selected].id else "")
  }

  lemma QueueIs(s: System, kind: Kind, value: int)
    ensures Queues(s, kind, value, s.ui.shown, Queue(s, kind, value))
    ensures Queue(s, kind, value).ui.nightFocus == s.ui.nightFocus
  {
  }

  /**
   A level is asked of the device selected, or a warmth of the filter when that has the focus: 55 kelvin below 6500
   for every step. It is kept between 1 and 100, or 1000 and 6500; it is shown at once and queued.
   */
  lemma AdjustIs(s: System, level: int, absolute: bool)
    ensures var t := Adjust(s, level, absolute);
            var was, now := s.ui.shown, t.ui.shown;
            t.ui.nightFocus == s.ui.nightFocus
            && if s.ui.nightFocus && was.night.canTemperature then
                 && now == was.(night := was.night.(kelvin := now.night.kelvin))
                 && IsWithin((if absolute then 6500 else was.night.kelvin) - 55 * level, 1000, 6500, now.night.kelvin)
                 && Queues(s, Temperature, now.night.kelvin, now, t)
               else if !s.ui.nightFocus && s.ui.selected < |was.devices| then
                 && |now.devices| == |was.devices| && now.night == was.night
                 && (forall i :: 0 <= i < |was.devices| ==>
                       now.devices[i] == was.devices[i].(percent := now.devices[i].percent)
                       && (i != s.ui.selected ==> now.devices[i] == was.devices[i]))
                 && var percent := now.devices[s.ui.selected].percent;
                    && IsWithin(level + if absolute then 0 else was.devices[s.ui.selected].percent, 1, 100, percent)
                    && Queues(s, Brightness, percent, now, t)
               else t == s
  {
  }

  /** The filter is shown switched at once; one switched on takes the focus if it has a temperature. */
  lemma ToggleIs(s: System)
    ensures var t := ToggleNight(s);
            var was := s.ui.shown;
            && Queues(s, SetNight, was.night.kelvin, was.(night := was.night.(enabled := !was.night.enabled)), t)
            && (t.ui.nightFocus <==> s.ui.nightFocus || (t.ui.shown.night.enabled && was.night.canTemperature))
  {
  }

  /** The program starts with a scan and nothing shown. */
  lemma StartIs(preferred: string)
    ensures var s := Start(preferred);
            && s.ui.shown == Shown([], Night(false, 4000, false, false)) && s.ui.selected == 0 && !s.ui.nightFocus
            && !s.ui.stopping && s.ui.busy && s.ui.preferred == preferred && s.ui.sequence == 1
            && s.commands == s.queued == [Work(Scan, 0, false, "", 1)] && s.worker == Waiting(None)
            && s.replies == s.sent == [] && s.groups == [] && s.states == [] && s.current == EMPTY
  {
  }
}
