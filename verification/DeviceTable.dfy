/**
 The Bluetooth device list as the terminal program keeps it: discovery lines
 edit it, rescans are merged into it, and after every change it is sorted so
 that the rows the user can select are a prefix of the table.
 */
module DeviceTable {
  import opened Options
  import opened Devices
  import opened DeviceMerge

  // ----- one line of discovery output -----

  datatype Change =
    | Rssi(rssi: int)
    | Manufacturer(id: int)
    | Icon(icon: string)
    | Connected(on: bool)
    | Paired(on: bool)
    | Trusted(on: bool)
    | Blocked(on: bool)
    | Name(text: string)
    | Other

  /** A line about one device; `announced` lines may add the device, and so may names. */
  datatype ScanLine = Deleted(address: string) | Changed(address: string, announced: bool, change: Change)

  predicate HexDigit(c: char) {
    '0' <= c <= '9' || 'a' <= c <= 'f' || 'A' <= c <= 'F'
  }

  predicate ValidAddress(a: string) {
    && |a| == 17
    && (forall i :: 0 <= i < 17 ==> if i % 3 == 2 then a[i] == ':' else HexDigit(a[i]))
    && (exists i :: 0 <= i < 17 && i % 3 != 2 && a[i] != '0')
    && (exists i :: 0 <= i < 17 && i % 3 != 2 && a[i] != 'f' && a[i] != 'F')
  }

  function ChangedDevice(d: Device, change: Change): (r: Device)
    ensures r.address == d.address
  {
    match change
    case Rssi(v) => d.(rssi := v)
    case Manufacturer(id) => if 0 <= id <= 65535 then d.(manufacturer := id) else d
    case Icon(icon) => d.(icon := icon)
    case Connected(on) => d.(connected := on)
    case Paired(on) => d.(paired := on)
    case Trusted(on) => d.(trusted := on)
    case Blocked(on) => d.(blocked := on)
    case Name(text) => Renamed(d, text)
    case Other => d
  }

  /** The device a line leaves for its address, from the one there was. */
  function LineOutcome(was: Option<Device>, line: ScanLine, room: bool): (r: Option<Device>) {
    match line
    case Deleted(_) => None
    case Changed(address, announced, change) =>
      if was.Some? then Some(ChangedDevice(was.value, change))
      else if (announced || change.Name?) && room then Some(ChangedDevice(NewDevice(address), change))
      else None
  }

  /** The table after a line, before it is sorted. */
  function Edited(devices: seq<Device>, line: ScanLine): (r: seq<Device>) {
    var i := IndexOf(devices, line.address);
    if !ValidAddress(line.address) then devices
    else if line.Deleted? then (if i < |devices| then devices[..i] + devices[i + 1..] else devices)
    else if i < |devices| then devices[i := ChangedDevice(devices[i], line.change)]
    else if (line.announced || line.change.Name?) && |devices| < MAX_DEVICES
    then devices + [ChangedDevice(NewDevice(line.address), line.change)]
    else devices
  }

  lemma RemovedFinds(devices: seq<Device>, i: nat, address: string)
    requires Unique(devices) && i < |devices|
    ensures var r := devices[..i] + devices[i + 1..];
            && Unique(r)
            && Find(r, address) == if Same(devices[i].address, address) then None else Find(devices, address)
  {
    hide Same;
    var r := devices[..i] + devices[i + 1..];
    assert forall k :: 0 <= k < |r| ==> r[k] == devices[if k < i then k else k + 1];
    var j := IndexOf(devices, address);
    SameIsSymmetric(devices[i].address, address);
    if Same(devices[i].address, address) {
      FindAt(devices, i, address);
      OthersDiffer(devices, i);
      SameThrough(r, devices[i].address, address);
    } else if j < |devices| {
      FindAt(r, if j < i then j else j - 1, address);
    }
  }

  lemma OthersDiffer(devices: seq<Device>, i: nat)
    requires Unique(devices) && i < |devices|
    ensures forall k :: 0 <= k < |devices| && k != i ==> !Same(devices[k].address, devices[i].address)
  {
    forall k | 0 <= k < |devices| && k != i ensures !Same(devices[k].address, devices[i].address) {
      SameIsSymmetric(devices[k].address, devices[i].address);
      assert k < i || i < k;
    }
  }

  lemma SameThrough(r: seq<Device>, a: string, address: string)
    requires Same(a, address) && forall k :: 0 <= k < |r| ==> !Same(r[k].address, a)
    ensures Find(r, address) == None
  {
  }

  /** A discovery line changes the device of its address as it says, and no other. */
  lemma EditedAt(devices: seq<Device>, line: ScanLine, address: string)
    requires Table(devices)
    ensures Table(Edited(devices, line))
    ensures Find(Edited(devices, line), address) ==
            if ValidAddress(line.address) && Same(line.address, address)
            then LineOutcome(Find(devices, line.address), line, |devices| < MAX_DEVICES)
            else Find(devices, address)
  {
    hide ValidAddress, Same, IsAddressName;
    if ValidAddress(line.address) {
      var i := IndexOf(devices, line.address);
      SameFinds(devices, line.address, address);
      SameIsSymmetric(line.address, address);
      if i < |devices| {
        SameAgain(devices[i].address, line.address, address);
        if line.Deleted? {
          RemovedFinds(devices, i, address);
        } else {
          SameIsSymmetric(devices[i].address, devices[i].address);
          FindUpdated(devices, i, ChangedDevice(devices[i], line.change), address);
        }
      } else if line.Changed? && (line.announced || line.change.Name?) && |devices| < MAX_DEVICES {
        var d := ChangedDevice(NewDevice(line.address), line.change);
        NewDeviceAddress(line.address);
        SameAgain(d.address, line.address, address);
        SameFinds(devices, d.address, line.address);
        FindAppended(devices, d, address);
      }
    }
  }

  lemma SameAgain(a: string, b: string, c: string)
    requires Same(a, b)
    ensures Same(a, c) <==> Same(b, c)
  {
  }

  lemma NewDeviceAddress(address: string)
    ensures Same(NewDevice(address).address, address)
  {
  }

  /** `qsort`, which need not be stable: any permutation that the comparator finds in order. */
  method QuickSorted(devices: seq<Device>, showUnnamed: bool) returns (sorted: seq<Device>)
    ensures multiset(sorted) == multiset(devices) && Sorted(sorted, showUnnamed)
  {
    ghost var arranged := CanBeArranged(devices, showUnnamed);
    sorted :| multiset(sorted) == multiset(devices) && Sorted(sorted, showUnnamed);
  }

  datatype Key = Up | Down | PageUp | PageDown

  class App {
    var devices: seq<Device>
    var powered: bool
    var selected: int
    var top: int
    var showUnnamed: bool

    /** Addresses are unique, visible devices come first, and the selection is row 0 or a visible row. */
    ghost predicate Valid()
      reads this
    {
      && Table(devices) && VisiblePrefix(devices, showUnnamed)
      && 0 <= selected && (selected == 0 || selected < VisibleCount(devices, showUnnamed))
    }

    constructor ()
      ensures Valid() && devices == [] && selected == 0 && !showUnnamed
    {
      devices, powered, selected, top, showUnnamed := [], false, 0, 0, false;
    }

    /** `device_in_app`. */
    method DeviceInApp(address: string) returns (i: nat)
      ensures i == IndexOf(devices, address)
    {
      i := 0;
      while i < |devices|
        invariant i <= |devices|
        invariant forall k :: 0 <= k < i ==> !Same(devices[k].address, address)
      {
        if Same(devices[i].address, address) {
          return;
        }
        i := i + 1;
      }
    }

    method VisibleDeviceCount() returns (count: nat)
      ensures count == VisibleCount(devices, showUnnamed)
    {
      count := 0;
      for i := 0 to |devices|
        invariant count == VisibleCount(devices[..i], showUnnamed)
      {
        assert devices[..i + 1][..i] == devices[..i];
        if Visible(devices[i], showUnnamed) {
          count := count + 1;
        }
      }
      assert devices[..|devices|] == devices;
    }

    /** Sort the table; the device of the given address stays selected while it is visible. */
    method SortDevices(selectedAddress: string)
      requires Table(devices)
      modifies this`devices, this`selected, this`top
      ensures Valid() && Arranged(devices, old(devices), showUnnamed)
      ensures selectedAddress != "" && Has(devices, selectedAddress)
              && Visible(Find(devices, selectedAddress).value, showUnnamed) ==>
                selected < |devices| && Same(devices[selected].address, selectedAddress)
      ensures selectedAddress == "" || !Has(devices, selectedAddress) ==> selected == 0
      ensures top == if old(top) > selected then selected else old(top)
    {
      hide Compare, Visible, Same;
      var sorted := QuickSorted(devices, showUnnamed);
      RearrangedIsTable(sorted, devices);
      SortedShowsPrefix(sorted, showUnnamed);
      devices := sorted;
      selected := 0;
      if selectedAddress != "" {
        var i := DeviceInApp(selectedAddress);
        if i < |devices| {
          selected := i;
        }
      }
      var visible := VisibleDeviceCount();
      if selected >= visible {
        selected := if visible > 0 then visible - 1 else 0;
      }
      if top > selected {
        top := selected;
      }
    }

    /** The edit of one discovery line. */
    method ParseScanLine(line: ScanLine)
      modifies this`devices
      ensures devices == Edited(old(devices), line)
    {
      hide ValidAddress, Same, IsAddressName;
      if !ValidAddress(line.address) {
        return;
      }
      var i := DeviceInApp(line.address);
      if line.Deleted? {
        if i < |devices| {
          devices := devices[..i] + devices[i + 1..];
        }
        return;
      }
      if i == |devices| {
        if !(line.announced || line.change.Name?) || |devices| >= MAX_DEVICES {
          return;
        }
        devices := devices + [NewDevice(line.address)];
      }
      devices := devices[i := ChangedDevice(devices[i], line.change)];
    }

    /** A line from live discovery: edit the table and sort it again. */
    method ApplyDiscoveryLine(line: ScanLine)
      requires Valid()
      modifies this
      ensures Valid() && showUnnamed == old(showUnnamed)
      ensures Arranged(devices, Edited(old(devices), line), showUnnamed)
      ensures old(selected) < |old(devices)| ==>
                KeepsSelection(old(devices)[old(selected)].address, devices, selected, showUnnamed)
    {
      hide Compare, Visible, Same, ValidAddress, Edited;
      var selectedAddress := if devices != [] && selected < |devices| then devices[selected].address else "";
      EditedAt(devices, line, "");
      ParseScanLine(line);
      SortDevices(selectedAddress);
    }

    /** Show or hide devices without a name. */
    method ToggleUnnamed()
      requires Valid()
      modifies this
      ensures Valid() && showUnnamed == !old(showUnnamed)
      ensures Arranged(devices, old(devices), showUnnamed)
      ensures old(VisibleCount(devices, showUnnamed)) > 0 ==>
                old(selected) < |old(devices)|
                && KeepsSelection(old(devices)[old(selected)].address, devices, selected, showUnnamed)
    {
      hide Compare, Visible, Same;
      var selectedAddress := "";
      var visible := VisibleDeviceCount();
      if visible > 0 {
        selectedAddress := devices[selected].address;
      }
      showUnnamed := !showUnnamed;
      SortDevices(selectedAddress);
    }

    method PressKey(key: Key)
      requires Valid()
      modifies this`selected
      ensures Valid()
      ensures var rows, was := VisibleCount(devices, showUnnamed), old(selected);
              selected == match key
                case Up => if was > 0 then was - 1 else was
                case Down => if was + 1 < rows then was + 1 else was
                case PageUp => if was < 10 then 0 else was - 10
                case PageDown => if was + 10 < rows then was + 10 else if rows > 0 then rows - 1 else 0
    {
      var rows := VisibleDeviceCount();
      match key
      case Up => if selected > 0 { selected := selected - 1; }
      case Down => if selected + 1 < rows { selected := selected + 1; }
      case PageUp =>
        selected := selected - 10;
        if selected < 0 { selected := 0; }
      case PageDown =>
        selected := selected + 10;
        if selected >= rows { selected := if rows > 0 then rows - 1 else 0; }
    }

    /** The loop that drops scanned devices that were deleted live. */
    method DropGone(live: App, baseline: App)
      requires this != live && this != baseline
      modifies this`devices
      ensures devices == Pruned(baseline.devices, live.devices, old(devices))
    {
      hide Same, Find, Gone;
      ghost var was := devices;
      ghost var n := 0;
      var i := 0;
      while i < |devices|
        invariant 0 <= i <= |devices| && n <= |was|
        invariant devices[..i] == Pruned(baseline.devices, live.devices, was[..n])
        invariant devices[i..] == was[n..]
        decreases |devices| - i
      {
        var d := devices[i];
        assert d == was[n] && was[..n + 1][..n] == was[..n];
        assert was[n..][1..] == was[n + 1..] && devices[i..][1..] == devices[i + 1..];
        var known := baseline.DeviceInApp(d.address);
        var there := live.DeviceInApp(d.address);
        GoneIs(baseline.devices, live.devices, d);
        n := n + 1;
        if known < |baseline.devices| && there == |live.devices| {
          ghost var head := devices[..i];
          devices := devices[..i] + devices[i + 1..];
          assert devices[..i] == head;
        } else {
          i := i + 1;
          assert devices[..i] == devices[..i - 1] + [d];
        }
      }
      assert devices[..i] == devices && was[..n] == was;
    }

    /** The merge of what live discovery changed since `baseline` into this finished scan. */
    method MergeDiscoveryUpdates(live: App, baseline: App)
      requires this != live && this != baseline
      modifies this`devices, this`powered
      ensures devices == Merged(baseline.devices, live.devices, old(devices))
      ensures powered == if live.powered != baseline.powered then live.powered else old(powered)
    {
      hide MergeOne, Pruned;
      DropGone(live, baseline);
      ghost var kept := devices;
      for i := 0 to |live.devices|
        invariant devices == MergeUpTo(baseline.devices, live.devices, i, kept) && powered == old(powered)
      {
        MergeLive(live.devices[i], baseline);
      }
      if live.powered != baseline.powered {
        powered := live.powered;
      }
    }

    /** The body of the merge loop, for one live device. */
    method MergeLive(live: Device, baseline: App)
      requires this != baseline
      modifies this`devices
      ensures devices == MergeOne(baseline.devices, old(devices), live)
    {
      hide Same, TakeName, MergeFields;
      var before := baseline.DeviceInApp(live.address);
      var after := DeviceInApp(live.address);
      if after == |devices| {
        if before == |baseline.devices| && |devices| < MAX_DEVICES {
          devices := devices + [live];
        }
      } else if before == |baseline.devices| {
        devices := devices[after := TakeName(live, devices[after])];
      } else {
        devices := devices[after := MergeFields(baseline.devices[before], live, devices[after])];
      }
    }

    /** A finished rescan becomes the table, with live changes since its baseline merged in. */
    method FinishScan(scanned: App, baseline: App)
      requires Valid() && Table(scanned.devices) && scanned != this && scanned != baseline
      modifies this, scanned
      ensures Valid() && showUnnamed == old(showUnnamed)
      ensures Arranged(devices, Merged(old(baseline.devices), old(devices), old(scanned.devices)), showUnnamed)
      ensures powered == if old(powered) != old(baseline.powered) then old(powered) else old(scanned.powered)
      ensures old(selected) < |old(devices)| ==>
                KeepsSelection(old(devices)[old(selected)].address, devices, selected, showUnnamed)
    {
      hide Compare, Visible, Same, Merged;
      var selectedAddress := if devices != [] && selected < |devices| then devices[selected].address else "";
      MergedIsThreeWay(baseline.devices, devices, scanned.devices, "");
      scanned.MergeDiscoveryUpdates(this, baseline);
      devices, powered, selected := scanned.devices, scanned.powered, scanned.selected;
      SortDevices(selectedAddress);
    }
  }

  lemma GoneIs(base: seq<Device>, live: seq<Device>, d: Device)
    ensures Gone(base, live, d) <==> IndexOf(base, d.address) < |base| && IndexOf(live, d.address) == |live|
  {
  }

  /** The address that was selected is still selected if its device is still there and visible. */
  ghost predicate KeepsSelection(address: string, devices: seq<Device>, selected: int, showUnnamed: bool) {
    var found := Find(devices, address);
    address != "" && found.Some? && Visible(found.value, showUnnamed) ==>
      0 <= selected < |devices| && Same(devices[selected].address, address)
  }

  /** Sorting a merged table changes what the user sees for no address. */
  lemma ArrangedMergeIsThreeWay(devices: seq<Device>, base: seq<Device>, live: seq<Device>, scanned: seq<Device>,
                                showUnnamed: bool, address: string)
    requires Table(live) && Table(scanned) && Arranged(devices, Merged(base, live, scanned), showUnnamed)
    ensures ThreeWay(Find(base, address), Find(live, address), Find(scanned, address), Room(base, live, scanned, address),
                     Find(devices, address))
  {
    hide Merged, Room, Same, Compare, ThreeWay;
    MergedIsThreeWay(base, live, scanned, address);
    RearrangedFinds(devices, Merged(base, live, scanned), address);
  }

  // ----- what the parts mean -----

  lemma HexDigitIff(c: char)
    ensures HexDigit(c) <==> c in "0123456789abcdefABCDEF"
  {
    var digits := "0123456789abcdefABCDEF";
    if '0' <= c <= '9' {
      assert digits[c as int - 48] == c;
    } else if 'a' <= c <= 'f' {
      assert digits[10 + (c as int - 97)] == c;
    } else if 'A' <= c <= 'F' {
      assert digits[16 + (c as int - 65)] == c;
    }
  }

  /** An address is six bytes in hexadecimal with colons between them, not all zero and not all ones. */
  lemma ValidAddressIff(a: string)
    ensures ValidAddress(a) <==>
              var colons := {2, 5, 8, 11, 14};
              && |a| == 17
              && (forall i :: 0 <= i < 17 ==> if i in colons then a[i] == ':' else a[i] in "0123456789abcdefABCDEF")
              && (exists i :: 0 <= i < 17 && i !in colons && a[i] != '0')
              && (exists i :: 0 <= i < 17 && i !in colons && a[i] !in "fF")
  {
    hide HexDigit;
    assert forall i :: 0 <= i < 17 ==> (i % 3 == 2 <==> i in {2, 5, 8, 11, 14});
    forall c ensures HexDigit(c) <==> c in "0123456789abcdefABCDEF" {
      HexDigitIff(c);
    }
  }

  /** Each change sets its own field to what the line says, and a manufacturer only within 16 bits. */
  lemma ChangeIs(d: Device, change: Change)
    ensures var r := ChangedDevice(d, change);
            && r == d.(rssi := r.rssi, manufacturer := r.manufacturer, icon := r.icon, name := r.name,
                       connected := r.connected, paired := r.paired, trusted := r.trusted, blocked := r.blocked)
            && r.rssi == (if change.Rssi? then change.rssi else d.rssi)
            && r.manufacturer == (if change.Manufacturer? && 0 <= change.id < 0x1_0000 then change.id else d.manufacturer)
            && r.icon == (if change.Icon? then change.icon else d.icon)
            && r.connected == (if change.Connected? then change.on else d.connected)
            && r.paired == (if change.Paired? then change.on else d.paired)
            && r.trusted == (if change.Trusted? then change.on else d.trusted)
            && r.blocked == (if change.Blocked? then change.on else d.blocked)
    ensures ChangedDevice(d, change).name
            == if !change.Name? || (IsAddressName(d.address, change.text) && d.name != "") then d.name
               else if IsAddressName(d.address, change.text) then d.address else change.text
  {
    hide IsAddressName, Renamed;
    if change.Name? {
      RenamedIs(d, change.text);
    }
  }

  /**
   A line about a valid address: a deletion takes the device away; a change is made to a device that is there, or to a
   new one if the line announces it or names it and there is room. Other lines change nothing.
   */
  lemma LineLeaves(devices: seq<Device>, line: ScanLine)
    requires Table(devices)
    ensures var was, now := Find(devices, line.address), Find(Edited(devices, line), line.address);
            && (!ValidAddress(line.address) ==> Edited(devices, line) == devices)
            && (ValidAddress(line.address) && line.Deleted? ==> now == None)
            && (ValidAddress(line.address) && line.Changed? ==>
                  var adds := (line.announced || line.change.Name?) && |devices| < MAX_DEVICES;
                  && (was.Some? ==> now == Some(ChangedDevice(was.value, line.change)))
                  && (was.None? && adds ==> now == Some(ChangedDevice(NewDevice(line.address), line.change)))
                  && (was.None? && !adds ==> now == None))
  {
    hide ValidAddress, Same, ChangedDevice;
    EditedAt(devices, line, line.address);
    SameIsSymmetric(line.address, line.address);
  }
}
