/** Displays and the night filter, the commands for them, and when merging commands loses nothing. */
module BrightHardware {
  import opened Options
  import Levels

  datatype Device = Device(id: string, percent: int, maximum: nat)

  /** What a reply of the night daemon says. */
  datatype Night = Night(enabled: bool, kelvin: int, canToggle: bool, canTemperature: bool)

  /** What a snapshot shows: the devices and the night filter. */
  datatype Shown = Shown(devices: seq<Device>, night: Night)

  datatype Kind = Scan | Read | Brightness | SetNight | Temperature | Quit

  datatype Work = Work(kind: Kind, value: int, enabled: bool, device: string, sequence: nat)

  predicate Coalescible(k: Kind) {
    k == Brightness || k == SetNight || k == Temperature
  }

  /** Two commands for the same control. */
  predicate SameControl(a: Work, b: Work) {
    a.kind == b.kind && a.device == b.device
  }

  // ----- devices, the night daemon, and how they answer -----

  /** A display: what was last read of it, and the level it is at. */
  datatype Panel = Panel(device: Device, level: nat)

  /**
   What filters the light: the gamma ramp of the daemon itself, which it may hold open, perhaps with a service
   of the desktop behind it; or such a service: GNOME or Cinnamon, KWin with its older interface, or KWin,
   which the daemon may inhibit.
   */
  datatype Service = Ramp(open: bool, backed: bool) | Settings | OldKwin | Kwin(inhibited: bool) | NoService

  /** A service of the desktop as it is detected. */
  type Desktop = s: Service | !s.Ramp? && s != Kwin(true) witness NoService

  /** What detection finds; it may not tell whether the filter is on, or its temperature. */
  datatype Detected = Detected(desktop: Desktop, canToggle: bool, canTemperature: bool, enabled: Option<bool>, kelvin: Option<int>)

  datatype DaemonState = DaemonState(night: Night, service: Service)

  /** The daemon inhibits KWin only to switch the filter off. */
  type Daemon = d: DaemonState | d.service == Kwin(true) ==> !d.night.enabled
    witness DaemonState(Night(false, 4000, false, false), NoService)

  datatype State = State(panels: seq<Panel>, daemon: Daemon)

  function ShownOf(s: State): (shown: Shown) {
    Shown(seq(|s.panels|, i requires 0 <= i < |s.panels| => s.panels[i].device), s.daemon.night)
  }

  /**
   How a command fares: whether the device can be read, written, and read again; whether the daemon is
   reached, whether its ramp opens and takes a temperature, what it falls back on, and whether the service of
   the desktop takes the request and lifts an inhibition.
   */
  datatype Answer = Answer(readable: bool, written: bool, confirmed: bool, reached: bool, opens: bool, applies: bool,
                           fallback: Detected, serves: bool, lifts: bool)

  /** Where the commands go. Each command fares by its number, and so do scans and reads. */
  datatype Backend =
    | Demo
    | Hardware(answer: nat -> Answer, found: nat -> State)

  function Clamp(n: int, low: int, high: int): (r: int) {
    if n < low then low else if n > high then high else n
  }

  function Kelvin(w: Work): (r: int) {
    Clamp(w.value, 1000, 6500)
  }

  const DEMO_SCAN := State([Panel(Device("demo-panel", 70, 100), 0), Panel(Device("demo-monitor", 50, 100), 0)],
                           DaemonState(Night(false, 4000, true, true), NoService))

  // ----- what a command does -----

  /** `sb_set`: read, write, and read again. */
  function Written(b: Backend, p: Panel, w: Work): (r: Panel) {
    match b
    case Demo => p.(device := p.device.(percent := w.value))
    case Hardware(answer, _) =>
      var a := answer(w.sequence);
      var raw := Levels.Raw(w.value, p.device.maximum);
      if !a.readable then p
      else if !a.written then p.(device := p.device.(percent := Levels.Percent(p.level, p.device.maximum)))
      else
        var last := if a.confirmed then raw else p.level;
        Panel(p.device.(percent := Levels.Percent(last, p.device.maximum)), raw)
  }

  function SetBrightness(b: Backend, panels: seq<Panel>, w: Work): (r: seq<Panel>)
    ensures |r| == |panels|
    ensures forall i :: 0 <= i < |r| ==> r[i] == if panels[i].device.id == w.device then Written(b, panels[i], w) else panels[i]
  {
    seq(|panels|, i requires 0 <= i < |panels| =>
      if panels[i].device.id == w.device then Written(b, panels[i], w) else panels[i])
  }

  /** A temperature is taken: applied by a filter that is on, or only remembered for one that is off. */
  predicate TakesTemperature(b: Backend, d: Daemon, w: Work) {
    match b
    case Demo => true
    case Hardware(answer, _) =>
      var a := answer(w.sequence);
      a.reached && d.night.canTemperature
      && match d.service
         case Ramp(open, _) => open && d.night.enabled ==> a.applies
         case Settings => a.serves
         case OldKwin => a.serves
         case Kwin(_) => d.night.enabled ==> a.serves
         case NoService => true
  }

  /** The ramp that filters now refuses a temperature. */
  predicate Trips(b: Backend, d: Daemon, w: Work) {
    b.Hardware? && b.answer(w.sequence).reached && !b.answer(w.sequence).applies
    && d.service.Ramp? && d.service.open && d.night.enabled && d.night.canTemperature
  }

  /** Command 4 of the daemon: a ramp that refuses is closed, and the filter is off. */
  function SetTemperature(b: Backend, d: Daemon, w: Work): (r: Daemon) {
    if b.Demo? then DaemonState(d.night.(enabled := w.enabled, kelvin := w.value), NoService)
    else if TakesTemperature(b, d, w) then DaemonState(d.night.(kelvin := Kelvin(w)), d.service)
    else if Trips(b, d, w) then DaemonState(d.night.(enabled := false), d.service.(open := false))
    else d
  }

  /** A service of the desktop is asked to switch the filter. */
  function SwitchService(d: Daemon, w: Work, a: Answer): (r: Daemon) {
    var night := d.night.(enabled := w.enabled, kelvin := Kelvin(w));
    if !d.night.canToggle then d
    else
      match d.service
      case Settings => if w.enabled && !a.serves then d else DaemonState(night, Settings)
      case OldKwin => if a.serves then DaemonState(night, OldKwin) else d
      case Kwin(inhibited) =>
        if w.enabled then
          if inhibited && !a.lifts then d
          else DaemonState(if a.serves then night else d.night, Kwin(false))
        else if inhibited || a.serves then DaemonState(night, Kwin(true))
        else d
      case _ => d
  }

  predicate RampTakes(s: Service, a: Answer)
    requires s.Ramp?
  {
    (s.open || a.opens) && a.applies
  }

  /** The daemon gives up its ramp for what the desktop has. */
  function FallBack(d: Daemon, found: Detected): (r: Daemon) {
    DaemonState(Night(if found.enabled.Some? then found.enabled.value else d.night.enabled,
                      if found.kelvin.Some? then found.kelvin.value else d.night.kelvin,
                      found.canToggle, found.canTemperature),
                found.desktop)
  }

  /** Commands 1 and 2 of the daemon. */
  function Switch(b: Backend, d: Daemon, w: Work): (r: Daemon) {
    match b
    case Demo => DaemonState(d.night.(enabled := w.enabled, kelvin := w.value), NoService)
    case Hardware(answer, _) =>
      var a := answer(w.sequence);
      if !a.reached || !d.night.canToggle then d
      else if !d.service.Ramp? then SwitchService(d, w, a)
      else if !w.enabled || RampTakes(d.service, a) then
        DaemonState(d.night.(enabled := w.enabled, kelvin := Kelvin(w)), d.service.(open := w.enabled))
      else if d.service.backed then SwitchService(FallBack(d, a.fallback), w, a)
      else DaemonState(d.night, d.service.(open := false))
  }

  function SetFilter(b: Backend, d: Daemon, w: Work): (r: Daemon) {
    if w.kind == SetNight then Switch(b, d, w) else SetTemperature(b, d, w)
  }

  function Execute(b: Backend, s: State, w: Work): (r: State) {
    match w.kind
    case Scan => if b.Demo? then DEMO_SCAN else b.found(w.sequence)
    case Read => if b.Demo? then s else b.found(w.sequence)
    case Brightness => s.(panels := SetBrightness(b, s.panels, w))
    case SetNight => s.(daemon := SetFilter(b, s.daemon, w))
    case Temperature => s.(daemon := SetFilter(b, s.daemon, w))
    case Quit => s
  }

  /** Every command in order, none merged. */
  function ExecuteAll(b: Backend, s: State, works: seq<Work>): (r: State) {
    if works == [] then s
    else Execute(b, ExecuteAll(b, s, works[..|works| - 1]), works[|works| - 1])
  }

  lemma {:induction false} ExecuteAllAdds(b: Backend, s: State, x: seq<Work>, y: seq<Work>)
    ensures ExecuteAll(b, s, x + y) == ExecuteAll(b, ExecuteAll(b, s, x), y)
  {
    if y == [] {
      assert x + y == x;
    } else {
      assert (x + y)[..|x + y| - 1] == x + y[..|y| - 1];
      ExecuteAllAdds(b, s, x, y[..|y| - 1]);
    }
  }

  // ----- what the commands for one control leave -----

  ghost predicate GoodGroup(group: seq<Work>) {
    && group != []
    && (|group| > 1 ==> Coalescible(group[|group| - 1].kind))
    && forall i :: 0 <= i < |group| ==> SameControl(group[i], group[|group| - 1])
  }

  ghost predicate AllFor(group: seq<Work>, last: Work) {
    forall i :: 0 <= i < |group| ==> SameControl(group[i], last)
  }

  function PanelAfter(b: Backend, p: Panel, group: seq<Work>): (r: Panel) {
    if group == [] then p else Written(b, PanelAfter(b, p, group[..|group| - 1]), group[|group| - 1])
  }

  function FilterAfter(b: Backend, d: Daemon, group: seq<Work>): (r: Daemon) {
    if group == [] then d else SetFilter(b, FilterAfter(b, d, group[..|group| - 1]), group[|group| - 1])
  }

  lemma {:induction false} PanelStays(b: Backend, p: Panel, group: seq<Work>)
    ensures var q := PanelAfter(b, p, group);
            q.device.id == p.device.id && q.device.maximum == p.device.maximum && (b.Demo? ==> q.level == p.level)
  {
    if group != [] {
      PanelStays(b, p, group[..|group| - 1]);
    }
  }

  predicate SameSort(x: Service, y: Service) {
    (x.Kwin? && y.Kwin?) || (x.Ramp? && y.Ramp? && x.backed == y.backed) || x == y
  }

  ghost predicate SameAbilities(d: Daemon, e: Daemon) {
    e.night.canToggle == d.night.canToggle && e.night.canTemperature == d.night.canTemperature && SameSort(d.service, e.service)
  }

  /** Only a ramp with a service behind it is given up, and for good. */
  lemma {:induction false} FilterStays(b: Backend, d: Daemon, group: seq<Work>)
    requires b.Hardware?
    ensures var e := FilterAfter(b, d, group);
            SameAbilities(d, e) || (d.service.Ramp? && d.service.backed && !e.service.Ramp?)
  {
    if group != [] {
      FilterStays(b, d, group[..|group| - 1]);
    }
  }

  /** Commands for one device go to its panels, and commands for the filter to the daemon. */
  lemma {:induction false} GroupIs(b: Backend, s: State, group: seq<Work>, last: Work)
    requires AllFor(group, last) && Coalescible(last.kind)
    ensures var r := ExecuteAll(b, s, group);
            && |r.panels| == |s.panels|
            && (last.kind != Brightness ==> r.panels == s.panels)
            && r.daemon == (if last.kind == Brightness then s.daemon else FilterAfter(b, s.daemon, group))
            && (last.kind == Brightness ==> forall i :: 0 <= i < |r.panels| ==>
                  r.panels[i] == if s.panels[i].device.id == last.device then PanelAfter(b, s.panels[i], group) else s.panels[i])
  {
    hide Written, SetFilter;
    if group != [] {
      var init, w := group[..|group| - 1], group[|group| - 1];
      assert SameControl(group[|group| - 1], last);
      GroupIs(b, s, init, last);
      forall i | 0 <= i < |s.panels| ensures PanelAfter(b, s.panels[i], init).device.id == s.panels[i].device.id {
        PanelStays(b, s.panels[i], init);
      }
    }
  }

  /** The last of some temperatures that a daemon in this state takes. */
  function LastTaken(b: Backend, d: Daemon, group: seq<Work>): (w: Option<Work>)
    ensures w.Some? ==> TakesTemperature(b, d, w.value)
    ensures w.None? ==> forall i :: 0 <= i < |group| ==> !TakesTemperature(b, d, group[i])
  {
    if group == [] then None
    else if TakesTemperature(b, d, group[|group| - 1]) then Some(group[|group| - 1])
    else LastTaken(b, d, group[..|group| - 1])
  }

  predicate AnyTrips(b: Backend, d: Daemon, group: seq<Work>) {
    exists i :: 0 <= i < |group| && Trips(b, d, group[i])
  }

  lemma AnyTripsLast(b: Backend, d: Daemon, group: seq<Work>)
    requires group != []
    ensures AnyTrips(b, d, group) <==> AnyTrips(b, d, group[..|group| - 1]) || Trips(b, d, group[|group| - 1])
  {
    hide Trips;
    var init := group[..|group| - 1];
    if AnyTrips(b, d, init) {
      var i :| 0 <= i < |init| && Trips(b, d, init[i]);
      assert Trips(b, d, group[i]);
    }
  }

  /**
   Temperatures leave the last one taken, unless the ramp refuses one: then the filter is off and stays off,
   whatever comes after it.
   */
  lemma {:induction false} TemperaturesLeave(b: Backend, d: Daemon, group: seq<Work>)
    requires b.Hardware? && forall i :: 0 <= i < |group| ==> group[i].kind == Temperature
    ensures var e := FilterAfter(b, d, group);
            if AnyTrips(b, d, group) then
              d.service.Ramp? && e == DaemonState(d.night.(enabled := false, kelvin := e.night.kelvin), d.service.(open := false))
            else
              e == match LastTaken(b, d, group) case None => d case Some(w) => DaemonState(d.night.(kelvin := Kelvin(w)), d.service)
  {
    if group != [] {
      AnyTripsLast(b, d, group);
      TemperaturesLeave(b, d, group[..|group| - 1]);
    }
  }

  /** The last of some commands whose write went through. */
  function LastWritten(b: Backend, group: seq<Work>): (w: Option<Work>)
    requires b.Hardware?
  {
    if group == [] then None
    else
      var a := b.answer(group[|group| - 1].sequence);
      if a.readable && a.written then Some(group[|group| - 1]) else LastWritten(b, group[..|group| - 1])
  }

  /** A device is at the level of the last command written, confirmed or not. */
  lemma {:induction false} LevelLeft(b: Backend, p: Panel, group: seq<Work>)
    requires b.Hardware?
    ensures PanelAfter(b, p, group).level
            == match LastWritten(b, group) case None => p.level case Some(w) => Levels.Raw(w.value, p.device.maximum)
  {
    if group != [] {
      LevelLeft(b, p, group[..|group| - 1]);
      PanelStays(b, p, group[..|group| - 1]);
    }
  }

  // ----- when merging loses nothing -----

  /** The last command for a device makes up for what the ones before it made of `p`, namely `q`. */
  predicate PanelCovered(b: Backend, p: Panel, q: Panel, last: Work) {
    match b
    case Demo => true
    case Hardware(answer, _) =>
      var a := answer(last.sequence);
      if !a.readable then q == p
      else if !a.written then q.level == p.level
      else a.confirmed || Levels.Percent(q.level, p.device.maximum) == Levels.Percent(p.level, p.device.maximum)
  }

  /**
   The last temperature makes up for the ones before it. Once the ramp refused one of those, it does so only
   by being refused by the ramp too, and asking for the temperature there is; otherwise by being taken, or
   when none before it was, or the last one that was asked for the temperature there is.
   */
  predicate TemperatureCovered(b: Backend, d: Daemon, init: seq<Work>, last: Work) {
    if AnyTrips(b, d, init) then Trips(b, d, last) && Kelvin(last) == d.night.kelvin
    else
      || TakesTemperature(b, d, last)
      || match LastTaken(b, d, init) case None => true case Some(w) => Kelvin(w) == d.night.kelvin
  }

  /** The last switch, asked of a service of the desktop, makes up for what the ones before it made of `d`, namely `e`. */
  predicate ServiceCovered(d: Daemon, e: Daemon, last: Work, a: Answer) {
    || e == d
    || (e.night.canToggle == d.night.canToggle == true && e.night.canTemperature == d.night.canTemperature
        && match d.service
           case Settings => e.service == Settings && (!last.enabled || a.serves || e.night == d.night)
           case OldKwin => e.service == OldKwin && (a.serves || e.night == d.night)
           case Kwin(inhibited) =>
             && e.service.Kwin?
             && if last.enabled then
                  (a.lifts || e.service == d.service) && ((a.serves && (a.lifts || !inhibited)) || e.night == d.night)
                else
                  a.serves || (e.service == d.service && (inhibited || e.night == d.night))
           case _ => false)
  }

  /**
   The last switch makes up for what the ones before it made of `d`, namely `e`. A ramp makes up for everything
   when it is closed, or opened, as long as it has not been given up. Where it is given up now, so that a service
   of the desktop is asked, it must have been given up before as well, or it would be given up then too.
   */
  predicate SwitchCovered(b: Backend, d: Daemon, e: Daemon, last: Work) {
    match b
    case Demo => true
    case Hardware(answer, _) =>
      var a := answer(last.sequence);
      || e == d
      || (a.reached && d.night.canToggle
          && if !d.service.Ramp? then ServiceCovered(d, e, last, a)
             else if !last.enabled || RampTakes(d.service, a) then
               e.service.Ramp? && (!last.enabled || RampTakes(e.service, a))
             else if e.service.Ramp? then
               !RampTakes(e.service, a)
               && if d.service.backed then ServiceCovered(FallBack(d, a.fallback), FallBack(e, a.fallback), last, a)
                  else e.night == d.night
             else ServiceCovered(FallBack(d, a.fallback), e, last, a))
  }

  /** The last command of a group makes up for the others. */
  predicate MergesWell(b: Backend, s: State, group: seq<Work>) {
    |group| <= 1
    || var init, last := group[..|group| - 1], group[|group| - 1];
       match last.kind
       case Brightness =>
         forall i :: 0 <= i < |s.panels| && s.panels[i].device.id == last.device ==>
           PanelCovered(b, s.panels[i], PanelAfter(b, s.panels[i], init), last)
       case SetNight => SwitchCovered(b, s.daemon, FilterAfter(b, s.daemon, init), last)
       case _ => b.Demo? || TemperatureCovered(b, s.daemon, init, last)
  }

  lemma PanelCoveredIff(b: Backend, p: Panel, group: seq<Work>, last: Work)
    ensures var q := PanelAfter(b, p, group);
            Written(b, q, last) == Written(b, p, last) <==> PanelCovered(b, p, q, last)
  {
    PanelStays(b, p, group);
  }

  lemma ServiceCoveredIff(d: Daemon, e: Daemon, last: Work, a: Answer)
    requires !d.service.Ramp? && !e.service.Ramp?
    ensures SwitchService(e, last, a) == SwitchService(d, last, a) <==> ServiceCovered(d, e, last, a)
  {
  }

  lemma SwitchCoveredIff(b: Backend, d: Daemon, group: seq<Work>, last: Work)
    requires last.kind == SetNight && b.Hardware?
    ensures var e := FilterAfter(b, d, group);
            SetFilter(b, e, last) == SetFilter(b, d, last) <==> SwitchCovered(b, d, e, last)
  {
    hide ServiceCovered;
    FilterStays(b, d, group);
    var e := FilterAfter(b, d, group);
    var a := b.answer(last.sequence);
    if !d.service.Ramp? {
      ServiceCoveredIff(d, e, last, a);
    } else if d.service.backed {
      ServiceCoveredIff(FallBack(d, a.fallback), if e.service.Ramp? then FallBack(e, a.fallback) else e, last, a);
    }
  }

  lemma TemperatureCoveredIff(b: Backend, d: Daemon, init: seq<Work>, last: Work)
    requires b.Hardware? && last.kind == Temperature && forall i :: 0 <= i < |init| ==> init[i].kind == Temperature
    ensures SetFilter(b, FilterAfter(b, d, init), last) == SetFilter(b, d, last) <==> TemperatureCovered(b, d, init, last)
  {
    TemperaturesLeave(b, d, init);
  }

  lemma BrightnessCoveredIff(b: Backend, s: State, init: seq<Work>, last: Work)
    requires AllFor(init, last) && last.kind == Brightness
    ensures Execute(b, s, last) == Execute(b, ExecuteAll(b, s, init), last)
            <==> forall i :: 0 <= i < |s.panels| && s.panels[i].device.id == last.device ==>
                   PanelCovered(b, s.panels[i], PanelAfter(b, s.panels[i], init), last)
  {
    hide Written, SetFilter, PanelCovered, PanelAfter, ExecuteAll;
    GroupIs(b, s, init, last);
    var t := ExecuteAll(b, s, init);
    var x, y := SetBrightness(b, s.panels, last), SetBrightness(b, t.panels, last);
    forall i | 0 <= i < |s.panels|
      ensures x[i] == y[i] <==> (s.panels[i].device.id == last.device ==>
                PanelCovered(b, s.panels[i], PanelAfter(b, s.panels[i], init), last))
    {
      PanelStays(b, s.panels[i], init);
      PanelCoveredIff(b, s.panels[i], init, last);
    }
    if forall i :: 0 <= i < |x| ==> x[i] == y[i] {
      assert x == y;
    }
  }

  lemma FilterCoveredIff(b: Backend, s: State, init: seq<Work>, last: Work)
    requires AllFor(init, last) && (last.kind == SetNight || last.kind == Temperature)
    ensures Execute(b, s, last) == Execute(b, ExecuteAll(b, s, init), last)
            <==> if last.kind == SetNight then SwitchCovered(b, s.daemon, FilterAfter(b, s.daemon, init), last)
                 else b.Demo? || TemperatureCovered(b, s.daemon, init, last)
  {
    hide SwitchCovered, TemperatureCovered, FilterAfter, ExecuteAll, TakesTemperature, Trips;
    GroupIs(b, s, init, last);
    var e := FilterAfter(b, s.daemon, init);
    assert Execute(b, s, last) == s.(daemon := SetFilter(b, s.daemon, last));
    assert Execute(b, ExecuteAll(b, s, init), last) == s.(daemon := SetFilter(b, e, last));
    if b.Demo? {
      DemoCovers(b, s.daemon, init, last);
    } else if last.kind == SetNight {
      SwitchCoveredIff(b, s.daemon, init, last);
    } else {
      forall i | 0 <= i < |init| ensures init[i].kind == Temperature {
        assert SameControl(init[i], last);
      }
      TemperatureCoveredIff(b, s.daemon, init, last);
    }
  }

  /** Without hardware the last command for the filter sets all there is. */
  lemma {:induction false} DemoCovers(b: Backend, d: Daemon, init: seq<Work>, last: Work)
    requires b.Demo?
    ensures SetFilter(b, FilterAfter(b, d, init), last) == SetFilter(b, d, last)
    ensures SwitchCovered(b, d, FilterAfter(b, d, init), last)
  {
    if init != [] {
      DemoCovers(b, d, init[..|init| - 1], init[|init| - 1]);
    }
  }

  /** Executing only the last command of a group is the same as executing all if and only if it makes up for the others. */
  lemma MergingIsFaithfulIff(b: Backend, s: State, group: seq<Work>)
    requires GoodGroup(group)
    ensures Execute(b, s, group[|group| - 1]) == ExecuteAll(b, s, group) <==> MergesWell(b, s, group)
  {
    hide Execute, SameControl, PanelCovered, SwitchCovered, TemperatureCovered, PanelAfter, FilterAfter;
    var init, last := group[..|group| - 1], group[|group| - 1];
    if |group| > 1 {
      assert AllFor(init, last);
      if last.kind == Brightness {
        BrightnessCoveredIff(b, s, init, last);
      } else {
        FilterCoveredIff(b, s, init, last);
      }
    }
  }

  // ----- hardware that takes a command -----

  /** Everything that could refuse the command takes it. */
  predicate Sure(b: Backend, w: Work) {
    match b
    case Demo => true
    case Hardware(answer, _) =>
      var a := answer(w.sequence);
      a.readable && a.written && a.confirmed && a.reached && a.opens && a.applies && a.serves && a.lifts
  }

  /** Everything is where the command would put it. */
  predicate AlreadyThere(s: State, w: Work) {
    var night, service := s.daemon.night, s.daemon.service;
    match w.kind
    case Brightness =>
      forall i :: 0 <= i < |s.panels| && s.panels[i].device.id == w.device ==>
        var d := s.panels[i].device;
        var raw := Levels.Raw(w.value, d.maximum);
        s.panels[i].level == raw && d.percent == Levels.Percent(raw, d.maximum)
    case SetNight =>
      night.canToggle && service != NoService ==>
        && night.enabled == w.enabled && night.kelvin == Kelvin(w)
        && (service.Ramp? ==> service.open == w.enabled) && (service.Kwin? ==> service.inhibited == !w.enabled)
    case _ => night.canTemperature ==> night.kelvin == Kelvin(w)
  }

  /** A command that everything takes changes nothing exactly when everything is there already. */
  lemma AlreadyThereIff(b: Backend, s: State, w: Work)
    requires b.Hardware? && Coalescible(w.kind) && Sure(b, w)
    ensures Execute(b, s, w) == s <==> AlreadyThere(s, w)
  {
    hide Levels.Raw, Levels.Percent;
    if w.kind == Brightness {
      var r := SetBrightness(b, s.panels, w);
      if AlreadyThere(s, w) {
        assert r == s.panels;
      } else {
        var i :| 0 <= i < |s.panels| && s.panels[i].device.id == w.device
                 && Written(b, s.panels[i], w) != s.panels[i];
        assert r[i] != s.panels[i];
      }
    }
  }

  /** Nothing is there to hear the command. */
  predicate Unheard(b: Backend, w: Work) {
    b.Hardware? && !b.answer(w.sequence).readable && !b.answer(w.sequence).reached
  }

  /** The commands do not cost the daemon its ramp. */
  predicate RampKept(b: Backend, d: Daemon, init: seq<Work>, kind: Kind) {
    match kind
    case Temperature => !AnyTrips(b, d, init)
    case SetNight => b.Demo? || !d.service.Ramp? || FilterAfter(b, d, init).service.Ramp?
    case _ => true
  }

  lemma {:induction false} CannotSwitch(b: Backend, d: Daemon, group: seq<Work>)
    requires b.Hardware? && (!d.night.canToggle || d.service == NoService)
    requires forall i :: 0 <= i < |group| ==> group[i].kind == SetNight
    ensures FilterAfter(b, d, group) == d
  {
    if group != [] {
      CannotSwitch(b, d, group[..|group| - 1]);
    }
  }

  lemma SureSwitchCovers(b: Backend, d: Daemon, init: seq<Work>, last: Work)
    requires b.Hardware? && Sure(b, last) && forall i :: 0 <= i < |init| ==> init[i].kind == SetNight
    ensures SwitchCovered(b, d, FilterAfter(b, d, init), last) <==> RampKept(b, d, init, SetNight)
  {
    FilterStays(b, d, init);
    if !d.night.canToggle || d.service == NoService {
      CannotSwitch(b, d, init);
    }
  }

  /** Temperatures of which the ramp refuses none have no cost; a sure one is taken unless the daemon takes none at all. */
  lemma SureTemperatureCovers(b: Backend, d: Daemon, init: seq<Work>, last: Work)
    requires b.Hardware? && Sure(b, last)
    ensures TemperatureCovered(b, d, init, last) <==> RampKept(b, d, init, Temperature)
  {
  }

  /** A command that everything takes makes up for those before it if and only if they did not cost the daemon its ramp. */
  lemma LastCommandWins(b: Backend, s: State, group: seq<Work>)
    requires GoodGroup(group) && |group| > 1 && Sure(b, group[|group| - 1])
    ensures var init, last := group[..|group| - 1], group[|group| - 1];
            MergesWell(b, s, group) <==> RampKept(b, s.daemon, init, last.kind)
  {
    hide SwitchCovered, TemperatureCovered, FilterAfter, TakesTemperature;
    var init, last := group[..|group| - 1], group[|group| - 1];
    assert forall i :: 0 <= i < |init| ==> SameControl(group[i], last) && init[i].kind == last.kind;
    if b.Hardware? {
      if last.kind == SetNight {
        SureSwitchCovers(b, s.daemon, init, last);
      } else if last.kind == Temperature {
        SureTemperatureCovers(b, s.daemon, init, last);
      }
    } else if last.kind == SetNight {
      DemoCovers(b, s.daemon, init, last);
    }
  }

  lemma {:induction false} SureKeepsRamp(b: Backend, d: Daemon, group: seq<Work>)
    requires forall i :: 0 <= i < |group| ==> Sure(b, group[i])
    ensures !AnyTrips(b, d, group) && (b.Hardware? && d.service.Ramp? ==> FilterAfter(b, d, group).service.Ramp?)
  {
    if group != [] {
      SureKeepsRamp(b, d, group[..|group| - 1]);
    }
  }

  lemma {:induction false} UnheardChangesNothing(b: Backend, s: State, group: seq<Work>)
    requires forall i :: 0 <= i < |group| ==> Unheard(b, group[i]) && Coalescible(group[i].kind)
    ensures ExecuteAll(b, s, group) == s
  {
    if group != [] {
      UnheardChangesNothing(b, s, group[..|group| - 1]);
      var w := group[|group| - 1];
      assert w.kind == Brightness ==> SetBrightness(b, s.panels, w) == s.panels;
    }
  }

  /** Hardware that takes all commands of a group, or hears none of them, loses nothing by merging. */
  lemma SteadyHardwareMergesWell(b: Backend, s: State, group: seq<Work>)
    requires GoodGroup(group)
    requires (forall i :: 0 <= i < |group| ==> Sure(b, group[i])) || (forall i :: 0 <= i < |group| ==> Unheard(b, group[i]))
    ensures MergesWell(b, s, group)
  {
    hide Sure, Unheard, MergesWell, Execute, AnyTrips, FilterAfter;
    var init, last := group[..|group| - 1], group[|group| - 1];
    if |group| <= 1 {
      OneMergesWell(b, s, group);
    } else if Sure(b, last) && forall i :: 0 <= i < |init| ==> Sure(b, init[i]) {
      SureKeepsRamp(b, s.daemon, init);
      LastCommandWins(b, s, group);
    } else {
      assert forall i :: 0 <= i < |group| ==> SameControl(group[i], last) && group[i].kind == last.kind;
      UnheardChangesNothing(b, s, group);
      assert Unheard(b, group[|group| - 1]);
      UnheardChangesNothing(b, s, [last]);
      assert [last][..0] == [];
      assert ExecuteAll(b, s, [last]) == Execute(b, s, last);
      MergingIsFaithfulIff(b, s, group);
    }
  }

  lemma OneMergesWell(b: Backend, s: State, group: seq<Work>)
    requires |group| <= 1
    ensures MergesWell(b, s, group)
  {
  }

  // ----- what one command does -----

  /** A value kept between two bounds. */
  ghost predicate IsWithin(target: int, low: int, high: int, n: int) {
    low <= n <= high && (n < target ==> n == high) && (n > target ==> n == low)
  }

  lemma ClampIs(n: int, low: int, high: int)
    requires low <= high
    ensures IsWithin(n, low, high, Clamp(n, low, high))
  {
  }

  /**
   A display that is read and written is at the requested level, and any other stays where it is. It is shown at the
   level read last: the new one when the write is confirmed, the one before when it fails or cannot be confirmed.
   The demonstration takes every percentage.
   */
  lemma WrittenIs(b: Backend, p: Panel, w: Work)
    ensures var r := Written(b, p, w);
            && r.device.id == p.device.id && r.device.maximum == p.device.maximum
            && match b
               case Demo => r.device.percent == w.value && r.level == p.level
               case Hardware(answer, _) =>
                 var a := answer(w.sequence);
                 && r.level == (if a.readable && a.written then Levels.Raw(w.value, p.device.maximum) else p.level)
                 && r.device.percent
                    == if !a.readable then p.device.percent
                       else Levels.Percent(if a.written && a.confirmed then r.level else p.level, p.device.maximum)
  {
  }

  /** A command for a display goes to all displays with its id, one for the filter to the daemon; a scan or read finds all anew. */
  lemma CommandIs(b: Backend, s: State, w: Work)
    ensures var r := Execute(b, s, w);
            match w.kind
            case Scan => r == if b.Hardware? then b.found(w.sequence) else DEMO_SCAN
            case Read => r == if b.Hardware? then b.found(w.sequence) else s
            case Quit => r == s
            case Brightness =>
              r.daemon == s.daemon && |r.panels| == |s.panels|
              && forall i :: 0 <= i < |r.panels| ==>
                   r.panels[i] == if s.panels[i].device.id == w.device then Written(b, s.panels[i], w) else s.panels[i]
            case SetNight => r.panels == s.panels && r.daemon == Switch(b, s.daemon, w)
            case Temperature => r.panels == s.panels && r.daemon == SetTemperature(b, s.daemon, w)
  {
  }

  /**
   A temperature, kept between 1000 and 6500, is taken when the daemon is reached, the filter has a temperature, and
   nothing that filters now refuses it; an older KWin and the settings of a desktop are asked also while the filter
   is off. A refusal by the ramp closes it and switches the filter off, any other changes nothing.
   */
  lemma TemperatureIs(b: Backend, d: Daemon, w: Work)
    requires b.Hardware?
    ensures var a := b.answer(w.sequence);
            var filters := d.night.enabled && (d.service.Kwin? || (d.service.Ramp? && d.service.open));
            var asked := filters || d.service.Settings? || d.service.OldKwin?;
            var heard := a.reached && d.night.canTemperature;
            var taken := heard && (asked ==> if d.service.Ramp? then a.applies else a.serves);
            var refused := heard && d.service.Ramp? && filters && !a.applies;
            var r := SetTemperature(b, d, w);
            && r.night == d.night.(kelvin := if taken then Clamp(w.value, 1000, 6500) else d.night.kelvin,
                                   enabled := d.night.enabled && !refused)
            && r.service == if refused then Ramp(false, d.service.backed) else d.service
  {
  }

  /** The service of the desktop switches the filter. */
  ghost predicate Serves(d: Daemon, on: bool, a: Answer) {
    && d.night.canToggle
    && match d.service
       case Settings => on ==> a.serves
       case OldKwin => a.serves
       case Kwin(inhibited) => if on then (inhibited ==> a.lifts) && a.serves else inhibited || a.serves
       case _ => false
  }

  /** Whether KWin is inhibited after it is asked to switch. */
  ghost predicate StaysInhibited(d: Daemon, on: bool, a: Answer)
    requires d.service.Kwin?
  {
    if !d.night.canToggle then d.service.inhibited
    else if on then d.service.inhibited && !a.lifts
    else d.service.inhibited || a.serves
  }

  /** Switched through the desktop: the filter is as asked, or as it was. */
  ghost predicate IsServed(d: Daemon, w: Work, a: Answer, r: Daemon) {
    && r.night == (if Serves(d, w.enabled, a) then d.night.(enabled := w.enabled, kelvin := Clamp(w.value, 1000, 6500)) else d.night)
    && r.service == if d.service.Kwin? then Kwin(StaysInhibited(d, w.enabled, a)) else d.service
  }

  lemma SwitchServiceIs(d: Daemon, w: Work, a: Answer)
    ensures IsServed(d, w, a, SwitchService(d, w, a))
  {
  }

  /**
   The filter is switched by the ramp, always when it goes off and when it goes on if the ramp is or can be opened
   and takes the temperature; else the ramp is closed and the filter stays as it was, or, with a service of the
   desktop behind the ramp, that service is asked in its place, for good. Without a ramp it is asked at once.
   */
  lemma SwitchIs(b: Backend, d: Daemon, w: Work)
    requires b.Hardware?
    ensures var a := b.answer(w.sequence);
            var r := Switch(b, d, w);
            if !(a.reached && d.night.canToggle) then r == d
            else if !d.service.Ramp? then IsServed(d, w, a, r)
            else if w.enabled ==> (d.service.open || a.opens) && a.applies then
              && r.night == d.night.(enabled := w.enabled, kelvin := Clamp(w.value, 1000, 6500))
              && r.service == Ramp(w.enabled, d.service.backed)
            else if !d.service.backed then r.night == d.night && r.service == Ramp(false, false)
            else exists e: Daemon :: IsFallBack(d, a.fallback, e) && IsServed(e, w, a, r)
  {
    var a := b.answer(w.sequence);
    SwitchServiceIs(d, w, a);
    SwitchServiceIs(FallBack(d, a.fallback), w, a);
    assert IsFallBack(d, a.fallback, FallBack(d, a.fallback));
  }

  /** What was detected of the desktop takes the place of the ramp; what could not be told stays. */
  ghost predicate IsFallBack(d: Daemon, found: Detected, e: Daemon) {
    && e.service == found.desktop
    && e.night.canToggle == found.canToggle && e.night.canTemperature == found.canTemperature
    && (match found.enabled case Some(on) => e.night.enabled == on case None => e.night.enabled == d.night.enabled)
    && (match found.kelvin case Some(k) => e.night.kelvin == k case None => e.night.kelvin == d.night.kelvin)
  }

  /** The demonstration takes every switch and every temperature. */
  lemma DemoIs(d: Daemon, w: Work)
    ensures SetFilter(Demo, d, w).night == d.night.(enabled := w.enabled, kelvin := w.value)
  {
  }
}
