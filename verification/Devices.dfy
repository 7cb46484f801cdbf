/**
 The Bluetooth device records: addresses compared without regard to case,
 names, what makes a device visible, and the order of the device list.
 */
module Devices {
  import opened Options

  const MAX_DEVICES: nat := 256

  datatype Device = Device(
    address: string,
    name: string,
    serviceName: string,
    icon: string,
    rssi: int,
    battery: int,
    manufacturer: int,
    paired: bool,
    trusted: bool,
    connected: bool,
    blocked: bool,
    pairingKeyRejected: bool)

  // ----- addresses and names -----

  function Lower(c: char): char {
    if 'A' <= c <= 'Z' then ((c as int) + 32) as char else c
  }

  function Upper(c: char): char {
    if 'a' <= c <= 'z' then ((c as int) - 32) as char else c
  }

  function Folded(s: string): (r: string)
    ensures |r| == |s| && forall k :: 0 <= k < |s| ==> r[k] == Lower(s[k])
  {
    seq(|s|, k requires 0 <= k < |s| => Lower(s[k]))
  }

  function Normalized(s: string): (r: string)
    ensures |r| == |s| && forall k :: 0 <= k < |s| ==> r[k] == Upper(s[k])
  {
    seq(|s|, k requires 0 <= k < |s| => Upper(s[k]))
  }

  /** `strcasecmp(a, b) == 0`. */
  predicate Same(a: string, b: string) {
    Folded(a) == Folded(b)
  }

  /** A name that is only the address, spelled with dashes or colons, or nothing. */
  predicate IsAddressName(address: string, name: string) {
    name == "" || (|name| == 17 && Same(WithColons(name), address))
  }

  function WithColons(name: string): (r: string) {
    seq(|name|, k requires 0 <= k < |name| => if k % 3 == 2 && name[k] == '-' then ':' else name[k])
  }

  predicate HasName(d: Device) {
    !IsAddressName(d.address, d.name) || d.serviceName != ""
  }

  predicate Visible(d: Device, showUnnamed: bool) {
    showUnnamed || HasName(d) || d.paired || d.trusted || d.connected
  }

  /** `update_device_name` with an already sanitized name. */
  function Renamed(d: Device, name: string): (r: Device) {
    if !IsAddressName(d.address, name) then d.(name := name)
    else if d.name == "" then d.(name := d.address)
    else d
  }

  /** A device that has just been added. */
  function NewDevice(address: string): (d: Device) {
    Renamed(Device(Normalized(address), "", "", "", -127, -1, -1, false, false, false, false, false), "")
  }

  // ----- tables -----

  ghost predicate Unique(devices: seq<Device>) {
    forall i, j :: 0 <= i < j < |devices| ==> !Same(devices[i].address, devices[j].address)
  }

  ghost predicate Table(devices: seq<Device>) {
    Unique(devices) && |devices| <= MAX_DEVICES
  }

  /** The first device with the address, or the length of the table. */
  function IndexOf(devices: seq<Device>, address: string): (i: nat)
    ensures i <= |devices|
    ensures i < |devices| ==> Same(devices[i].address, address)
    ensures forall k :: 0 <= k < i ==> !Same(devices[k].address, address)
  {
    if devices == [] then 0
    else if Same(devices[0].address, address) then 0
    else
      var i := IndexOf(devices[1..], address);
      assert forall k :: 1 <= k < i + 1 ==> devices[k] == devices[1..][k - 1];
      i + 1
  }

  function Find(devices: seq<Device>, address: string): (d: Option<Device>) {
    var i := IndexOf(devices, address);
    if i < |devices| then Some(devices[i]) else None
  }

  predicate Has(devices: seq<Device>, address: string) {
    Find(devices, address).Some?
  }

  /** A table has at most one device for an address, and `Find` gives it. */
  lemma FindAt(devices: seq<Device>, i: nat, address: string)
    requires Unique(devices) && i < |devices| && Same(devices[i].address, address)
    ensures IndexOf(devices, address) == i && Find(devices, address) == Some(devices[i])
  {
  }

  // ----- the order of the list -----

  /** -1, 0 or 1 as `strcasecmp` is negative, zero or positive. */
  function CompareText(a: string, b: string): (r: int) {
    if a == "" then (if b == "" then 0 else -1)
    else if b == "" then 1
    else if Lower(a[0]) < Lower(b[0]) then -1
    else if Lower(b[0]) < Lower(a[0]) then 1
    else CompareText(a[1..], b[1..])
  }

  function Bit(b: bool): (n: int) {
    if b then 1 else 0
  }

  /** `compare_devices`. */
  function Compare(a: Device, b: Device, showUnnamed: bool): (r: int) {
    if Visible(a, showUnnamed) != Visible(b, showUnnamed) then Bit(Visible(b, showUnnamed)) - Bit(Visible(a, showUnnamed))
    else if a.connected != b.connected then Bit(b.connected) - Bit(a.connected)
    else if a.paired != b.paired then Bit(b.paired) - Bit(a.paired)
    else if a.trusted != b.trusted then Bit(b.trusted) - Bit(a.trusted)
    else if (a.rssi > -127) != (b.rssi > -127) then Bit(b.rssi > -127) - Bit(a.rssi > -127)
    else if a.rssi != b.rssi then b.rssi - a.rssi
    else CompareText(a.name, b.name)
  }

  lemma {:induction false} TextIsPreorder(a: string, b: string, c: string)
    ensures CompareText(a, b) == -CompareText(b, a)
    ensures CompareText(a, b) <= 0 && CompareText(b, c) <= 0 ==> CompareText(a, c) <= 0
  {
    if a != "" && b != "" {
      TextIsPreorder(a[1..], b[1..], if c == "" then "" else c[1..]);
    }
  }

  /** The comparator is a total preorder, as `qsort` needs. */
  lemma CompareIsPreorder(a: Device, b: Device, c: Device, showUnnamed: bool)
    ensures Compare(a, a, showUnnamed) == 0
    ensures Compare(a, b, showUnnamed) <= 0 <==> Compare(b, a, showUnnamed) >= 0
    ensures Compare(a, b, showUnnamed) <= 0 && Compare(b, c, showUnnamed) <= 0 ==> Compare(a, c, showUnnamed) <= 0
  {
    hide Compare;
    CompareReverses(a, a, showUnnamed);
    CompareReverses(a, b, showUnnamed);
    if Compare(a, b, showUnnamed) <= 0 && Compare(b, c, showUnnamed) <= 0 {
      CompareIsTransitive(a, b, c, showUnnamed);
    }
  }

  lemma CompareReverses(a: Device, b: Device, showUnnamed: bool)
    ensures Compare(a, b, showUnnamed) == -Compare(b, a, showUnnamed)
  {
    hide CompareText, Visible;
    TextIsPreorder(a.name, b.name, "");
  }

  lemma CompareIsTransitive(a: Device, b: Device, c: Device, showUnnamed: bool)
    requires Compare(a, b, showUnnamed) <= 0 && Compare(b, c, showUnnamed) <= 0
    ensures Compare(a, c, showUnnamed) <= 0
  {
    hide CompareText, Visible;
    TextIsPreorder(a.name, b.name, c.name);
  }

  predicate Sorted(devices: seq<Device>, showUnnamed: bool) {
    forall i, j :: 0 <= i < j < |devices| ==> Compare(devices[i], devices[j], showUnnamed) <= 0
  }

  predicate Arranged(devices: seq<Device>, was: seq<Device>, showUnnamed: bool) {
    multiset(devices) == multiset(was) && Sorted(devices, showUnnamed)
  }

  /** Every table can be put in order. */
  lemma {:induction false} CanBeArranged(was: seq<Device>, showUnnamed: bool) returns (devices: seq<Device>)
    ensures Arranged(devices, was, showUnnamed)
  {
    if was == [] {
      devices := [];
    } else {
      var rest := CanBeArranged(was[1..], showUnnamed);
      devices := Insert(was[0], rest, showUnnamed);
      assert was == [was[0]] + was[1..];
    }
  }

  ghost predicate Leads(d: Device, devices: seq<Device>, showUnnamed: bool) {
    forall x :: x in devices ==> Compare(d, x, showUnnamed) <= 0
  }

  lemma SortedParts(d: Device, rest: seq<Device>, showUnnamed: bool)
    ensures Sorted([d] + rest, showUnnamed) <==> Leads(d, rest, showUnnamed) && Sorted(rest, showUnnamed)
  {
    hide Compare;
    var all := [d] + rest;
    if Sorted(all, showUnnamed) {
      forall x | x in rest ensures Compare(d, x, showUnnamed) <= 0 {
        var k :| 0 <= k < |rest| && rest[k] == x;
        assert Compare(all[0], all[k + 1], showUnnamed) <= 0;
      }
      forall i, j | 0 <= i < j < |rest| ensures Compare(rest[i], rest[j], showUnnamed) <= 0 {
        assert Compare(all[i + 1], all[j + 1], showUnnamed) <= 0;
      }
    }
  }

  lemma LeadsAlso(d: Device, first: Device, rest: seq<Device>, showUnnamed: bool)
    requires Compare(d, first, showUnnamed) <= 0 && Leads(first, rest, showUnnamed)
    ensures Leads(d, [first] + rest, showUnnamed)
  {
    hide Compare;
    forall x | x in rest ensures Compare(d, x, showUnnamed) <= 0 {
      CompareIsPreorder(d, first, x, showUnnamed);
    }
  }

  lemma {:induction false} Insert(d: Device, sorted: seq<Device>, showUnnamed: bool) returns (r: seq<Device>)
    requires Sorted(sorted, showUnnamed)
    ensures Sorted(r, showUnnamed) && multiset(r) == multiset(sorted) + multiset{d}
  {
    hide Compare, Sorted, Leads;
    if sorted == [] {
      r := [d];
      assert Sorted(r, showUnnamed) by { OneIsSorted(d, showUnnamed); }
    } else {
      var first, rest := sorted[0], sorted[1..];
      assert sorted == [first] + rest;
      SortedParts(first, rest, showUnnamed);
      if Compare(d, first, showUnnamed) <= 0 {
        r := [d] + sorted;
        LeadsAlso(d, first, rest, showUnnamed);
        SortedParts(d, sorted, showUnnamed);
      } else {
        CompareIsPreorder(d, first, first, showUnnamed);
        var tail := Insert(d, rest, showUnnamed);
        r := [first] + tail;
        LeadsInserted(first, d, rest, tail, showUnnamed);
        SortedParts(first, tail, showUnnamed);
      }
    }
  }

  lemma OneIsSorted(d: Device, showUnnamed: bool)
    ensures Sorted([d], showUnnamed)
  {
  }

  lemma LeadsInserted(first: Device, d: Device, rest: seq<Device>, tail: seq<Device>, showUnnamed: bool)
    requires Leads(first, rest, showUnnamed) && Compare(first, d, showUnnamed) <= 0
    requires multiset(tail) == multiset(rest) + multiset{d}
    ensures Leads(first, tail, showUnnamed)
  {
    hide Compare;
    forall x | x in tail ensures Compare(first, x, showUnnamed) <= 0 {
      assert x in multiset(tail);
    }
  }

  // ----- visible devices -----

  function VisibleCount(devices: seq<Device>, showUnnamed: bool): (n: nat)
    ensures n <= |devices|
  {
    if devices == [] then 0
    else VisibleCount(devices[..|devices| - 1], showUnnamed) + if Visible(devices[|devices| - 1], showUnnamed) then 1 else 0
  }

  /** The visible devices are exactly the rows below `VisibleCount`. */
  ghost predicate VisiblePrefix(devices: seq<Device>, showUnnamed: bool) {
    forall i :: 0 <= i < |devices| ==> (Visible(devices[i], showUnnamed) <==> i < VisibleCount(devices, showUnnamed))
  }

  lemma {:induction false} AllVisible(devices: seq<Device>, showUnnamed: bool)
    requires forall i :: 0 <= i < |devices| ==> Visible(devices[i], showUnnamed)
    ensures VisibleCount(devices, showUnnamed) == |devices|
  {
    if devices != [] {
      AllVisible(devices[..|devices| - 1], showUnnamed);
    }
  }

  lemma {:induction false} SortedShowsPrefix(devices: seq<Device>, showUnnamed: bool)
    requires Sorted(devices, showUnnamed)
    ensures VisiblePrefix(devices, showUnnamed)
  {
    if devices != [] {
      var n := |devices| - 1;
      var init := devices[..n];
      SortedShowsPrefix(init, showUnnamed);
      assert forall i :: 0 <= i < n ==> init[i] == devices[i];
      if Visible(devices[n], showUnnamed) {
        forall i | 0 <= i < n ensures Visible(init[i], showUnnamed) {
          assert Compare(devices[i], devices[n], showUnnamed) <= 0;
        }
        AllVisible(init, showUnnamed);
      }
    }
  }

  // ----- rearranging keeps the table -----

  lemma TakeOut(s: seq<Device>, p: nat)
    requires p < |s|
    ensures multiset(s[..p] + s[p + 1..]) == multiset(s) - multiset{s[p]}
  {
    assert s == s[..p] + [s[p]] + s[p + 1..];
  }

  /** Two places of a rearrangement come from two places of the original. */
  lemma TwoPlaces(devices: seq<Device>, was: seq<Device>, i: nat, j: nat) returns (p: nat, q: nat)
    requires multiset(devices) == multiset(was) && i < j < |devices|
    ensures p < |was| && q < |was| && p != q && was[p] == devices[i] && was[q] == devices[j]
  {
    p := PlaceOf(devices, was, i);
    var a, b := devices[..i] + devices[i + 1..], was[..p] + was[p + 1..];
    TakeOut(devices, i);
    TakeOut(was, p);
    assert a[j - 1] == devices[j];
    var r := PlaceOf(a, b, j - 1);
    q := if r < p then r else r + 1;
  }

  lemma PlaceOf(devices: seq<Device>, was: seq<Device>, i: nat) returns (p: nat)
    requires multiset(devices) == multiset(was) && i < |devices|
    ensures p < |was| && was[p] == devices[i]
  {
    assert devices[i] in multiset(was);
    p :| 0 <= p < |was| && was[p] == devices[i];
  }

  lemma RearrangedIsTable(devices: seq<Device>, was: seq<Device>)
    requires multiset(devices) == multiset(was) && Table(was)
    ensures Table(devices) && |devices| == |was|
  {
    assert |devices| == |multiset(devices)| == |multiset(was)| == |was|;
    forall i, j | 0 <= i < j < |devices| ensures !Same(devices[i].address, devices[j].address) {
      var p, q := TwoPlaces(devices, was, i, j);
      assert p < q ==> !Same(was[p].address, was[q].address);
      assert q < p ==> !Same(was[q].address, was[p].address);
    }
  }

  /** A rearranged table has the same device for every address. */
  lemma RearrangedFinds(devices: seq<Device>, was: seq<Device>, address: string)
    requires multiset(devices) == multiset(was) && Table(was)
    ensures Find(devices, address) == Find(was, address)
  {
    RearrangedIsTable(devices, was);
    var i := IndexOf(was, address);
    if i < |was| {
      assert was[i] in multiset(devices);
      var k :| 0 <= k < |devices| && devices[k] == was[i];
      FindAt(devices, k, address);
    } else {
      forall k | 0 <= k < |devices| ensures !Same(devices[k].address, address) {
        assert devices[k] in multiset(was);
      }
    }
  }

  // ----- what the parts mean -----

  const UPPER := "ABCDEFGHIJKLMNOPQRSTUVWXYZ"
  const LOWER := "abcdefghijklmnopqrstuvwxyz"

  lemma CaseIs(c: char)
    ensures forall i :: 0 <= i < 26 ==> Lower(UPPER[i]) == LOWER[i] && Upper(LOWER[i]) == UPPER[i]
    ensures (c !in UPPER ==> Lower(c) == c) && (c !in LOWER ==> Upper(c) == c)
  {
    if 'A' <= c <= 'Z' {
      assert UPPER[c as int - 65] == c;
    }
    if 'a' <= c <= 'z' {
      assert LOWER[c as int - 97] == c;
    }
  }

  lemma SameIff(a: string, b: string)
    ensures Same(a, b) <==> |a| == |b| && forall k :: 0 <= k < |a| ==> Lower(a[k]) == Lower(b[k])
  {
    hide Lower;
    var x, y := Folded(a), Folded(b);
    if x == y {
      assert forall k :: 0 <= k < |a| ==> x[k] == y[k];
    }
  }

  /** A name is only the address when it is empty or spells the address, in any case, with a dash for any colon. */
  lemma IsAddressNameIff(address: string, name: string)
    ensures IsAddressName(address, name) <==>
              name == ""
              || (|name| == |address| == 17
                  && forall k :: 0 <= k < 17 ==> if k in {2, 5, 8, 11, 14} && name[k] == '-' then address[k] == ':'
                                                 else Lower(name[k]) == Lower(address[k]))
  {
    hide Lower, Same;
    if |name| == 17 {
      var w := WithColons(name);
      SameIff(w, address);
      LowerOfMarks();
      if |address| == 17 {
        forall k | 0 <= k < 17
          ensures Lower(w[k]) == Lower(address[k]) <==> if k in {2, 5, 8, 11, 14} && name[k] == '-' then address[k] == ':'
                                                        else Lower(name[k]) == Lower(address[k])
        {
        }
      }
    }
  }

  lemma LowerOfMarks()
    ensures forall c :: Lower(':') == Lower(c) <==> c == ':'
  {
  }

  /** A device is listed when it has a name of its own or a service's, or is known by pairing, trust or connection. */
  lemma VisibleIff(d: Device, showUnnamed: bool)
    ensures !Visible(d, showUnnamed) <==>
              !showUnnamed && IsAddressName(d.address, d.name) && d.serviceName == "" && !d.paired && !d.trusted && !d.connected
  {
  }

  /** A name that is only the address never replaces another; a device without a name is called by its address. */
  lemma RenamedIs(d: Device, name: string)
    ensures var r := Renamed(d, name);
            && r == d.(name := r.name)
            && (!IsAddressName(d.address, name) ==> r.name == name)
            && (IsAddressName(d.address, name) && d.name != "" ==> r.name == d.name)
            && (IsAddressName(d.address, name) && d.name == "" ==> r.name == d.address)
  {
  }

  lemma NewDeviceIs(address: string)
    ensures var d := NewDevice(address);
            && d.address == d.name == Normalized(address) && d.serviceName == d.icon == ""
            && d.rssi == -127 && d.battery == d.manufacturer == -1
            && !d.paired && !d.trusted && !d.connected && !d.blocked && !d.pairingKeyRejected
  {
  }

  ghost predicate Precedes(a: string, b: string, k: nat) {
    && k <= |a| && k <= |b| && Same(a[..k], b[..k])
    && if k == |a| then k < |b| else k < |b| && Lower(a[k]) < Lower(b[k])
  }

  /** Names are compared without regard to case, letter by letter; a beginning comes before what it begins. */
  lemma {:induction false} TextOrder(a: string, b: string)
    ensures CompareText(a, b) == 0 <==> Same(a, b)
    ensures CompareText(a, b) < 0 <==> exists k :: Precedes(a, b, k)
  {
    hide Lower, Same;
    if a == "" || b == "" {
      SameIff(a, b);
      SameIff(a[..0], b[..0]);
      assert a == "" && b != "" ==> Precedes(a, b, 0);
    } else {
      TextOrder(a[1..], b[1..]);
      SameParts(a, b);
      if Lower(a[0]) != Lower(b[0]) {
        SameIff(a[..0], b[..0]);
        assert Lower(a[0]) < Lower(b[0]) ==> Precedes(a, b, 0);
        forall k: nat | 0 < k && k <= |a| && k <= |b| ensures !Same(a[..k], b[..k]) {
          SameParts(a[..k], b[..k]);
        }
      } else {
        TailOrder(a, b);
      }
    }
  }

  lemma SameParts(a: string, b: string)
    requires a != "" && b != ""
    ensures Same(a, b) <==> Lower(a[0]) == Lower(b[0]) && Same(a[1..], b[1..])
  {
    hide Lower;
    var x, y := Folded(a), Folded(b);
    assert x == [Lower(a[0])] + Folded(a[1..]) && y == [Lower(b[0])] + Folded(b[1..]);
    assert x[1..] == Folded(a[1..]) && y[1..] == Folded(b[1..]);
  }

  lemma TailOrder(a: string, b: string)
    requires a != "" && b != "" && Lower(a[0]) == Lower(b[0])
    ensures (exists k :: Precedes(a, b, k)) <==> exists k :: Precedes(a[1..], b[1..], k)
  {
    hide Lower, Same;
    forall k: nat | k < |a| && k < |b| ensures Precedes(a[1..], b[1..], k) <==> Precedes(a, b, k + 1) {
      assert a[..k + 1][1..] == a[1..][..k] && b[..k + 1][1..] == b[1..][..k];
      SameParts(a[..k + 1], b[..k + 1]);
    }
    if exists k :: Precedes(a, b, k) {
      var k: nat :| Precedes(a, b, k);
      assert Precedes(a[1..], b[1..], k - 1);
    }
    if exists k :: Precedes(a[1..], b[1..], k) {
      var k: nat :| Precedes(a[1..], b[1..], k);
      assert Precedes(a, b, k + 1);
    }
  }

  /**
   The list shows visible devices first, then connected, paired and trusted ones, the stronger signal first, and
   else in the order of their names; a later rule counts only where those before tie.
   */
  lemma CompareIs(a: Device, b: Device, showUnnamed: bool)
    ensures Visible(a, showUnnamed) && !Visible(b, showUnnamed) ==> Compare(a, b, showUnnamed) < 0
    ensures Visible(a, showUnnamed) == Visible(b, showUnnamed) ==>
              && (a.connected && !b.connected ==> Compare(a, b, showUnnamed) < 0)
              && (a.connected == b.connected ==>
                    && (a.paired && !b.paired ==> Compare(a, b, showUnnamed) < 0)
                    && (a.paired == b.paired ==>
                          && (a.trusted && !b.trusted ==> Compare(a, b, showUnnamed) < 0)
                          && (a.trusted == b.trusted ==>
                                && (a.rssi > b.rssi ==> Compare(a, b, showUnnamed) < 0)
                                && (a.rssi == b.rssi ==> Compare(a, b, showUnnamed) == CompareText(a.name, b.name)))))
  {
  }
}
