/**
 The three-way merge that takes a finished rescan into a device table that live
 discovery kept editing: what changed live since the scan began wins.
 */
module DeviceMerge {
  import opened Options
  import opened Devices

  // ----- what the merge computes, step by step -----

  /** The device was known when the scan began and has been deleted live since. */
  predicate Gone(base: seq<Device>, live: seq<Device>, d: Device) {
    Has(base, d.address) && !Has(live, d.address)
  }

  function Pruned(base: seq<Device>, live: seq<Device>, scanned: seq<Device>): (r: seq<Device>)
    ensures |r| <= |scanned|
  {
    if scanned == [] then []
    else
      var d := scanned[|scanned| - 1];
      Pruned(base, live, scanned[..|scanned| - 1]) + if Gone(base, live, d) then [] else [d]
  }

  /** A device known to all three: each merged field is the live value if it changed, else the scanned one. */
  function MergeFields(before: Device, live: Device, after: Device): (r: Device) {
    var paired := if live.paired != before.paired then live.paired else after.paired;
    var connected := if live.connected != before.connected then live.connected else after.connected;
    after.(
      name := if live.name != before.name then live.name else after.name,
      icon := if live.icon != before.icon then live.icon else after.icon,
      rssi := if live.rssi != before.rssi then live.rssi else after.rssi,
      manufacturer := if live.manufacturer != before.manufacturer then live.manufacturer else after.manufacturer,
      paired := paired,
      trusted := if live.trusted != before.trusted then live.trusted else after.trusted,
      connected := connected,
      blocked := if live.blocked != before.blocked then live.blocked else after.blocked,
      pairingKeyRejected := if live.pairingKeyRejected != before.pairingKeyRejected
                            then live.pairingKeyRejected && paired && !connected
                            else after.pairingKeyRejected)
  }

  /** A device both live discovery and the scan have found since the scan began. */
  function TakeName(live: Device, after: Device): (r: Device) {
    if IsAddressName(live.address, live.name) then after else after.(name := live.name)
  }

  /** One live device merged into the table so far. */
  function MergeOne(base: seq<Device>, table: seq<Device>, live: Device): (r: seq<Device>) {
    var i := IndexOf(table, live.address);
    var before := Find(base, live.address);
    if i == |table| then (if before.None? && |table| < MAX_DEVICES then table + [live] else table)
    else if before.None? then table[i := TakeName(live, table[i])]
    else table[i := MergeFields(before.value, live, table[i])]
  }

  function MergeUpTo(base: seq<Device>, live: seq<Device>, n: nat, table: seq<Device>): (r: seq<Device>)
    requires n <= |live|
  {
    if n == 0 then table else MergeOne(base, MergeUpTo(base, live, n - 1, table), live[n - 1])
  }

  function Merged(base: seq<Device>, live: seq<Device>, scanned: seq<Device>): (r: seq<Device>) {
    MergeUpTo(base, live, |live|, Pruned(base, live, scanned))
  }

  // ----- what the merge means for one address -----

  /** The device for an address after the merge, from the devices the three tables have for it. */
  function Outcome(before: Option<Device>, live: Option<Device>, scanned: Option<Device>, room: bool): (r: Option<Device>) {
    match (live, scanned)
    case (None, _) => if before.Some? then None else scanned
    case (Some(l), None) => if before.None? && room then Some(l) else None
    case (Some(l), Some(s)) =>
      Some(if before.None? then TakeName(l, s) else MergeFields(before.value, l, s))
  }

  lemma FindUpdated(table: seq<Device>, i: nat, d: Device, address: string)
    requires Unique(table) && i < |table| && Same(d.address, table[i].address)
    ensures Unique(table[i := d])
    ensures Find(table[i := d], address) == if Same(d.address, address) then Some(d) else Find(table, address)
  {
    var r := table[i := d];
    assert forall k :: 0 <= k < |r| ==> Same(r[k].address, table[k].address);
    if Same(d.address, address) {
      FindAt(r, i, address);
    } else {
      var j := IndexOf(table, address);
      if j < |table| {
        FindAt(r, j, address);
      }
    }
  }

  lemma FindAppended(table: seq<Device>, d: Device, address: string)
    requires Unique(table) && !Has(table, d.address)
    ensures Unique(table + [d])
    ensures Find(table + [d], address) == if Same(d.address, address) then Some(d) else Find(table, address)
  {
    var r := table + [d];
    assert forall k :: 0 <= k < |table| ==> !Same(table[k].address, d.address);
    if Same(d.address, address) {
      FindAt(r, |table|, address);
    } else {
      var j := IndexOf(table, address);
      if j < |table| {
        FindAt(r, j, address);
      }
    }
  }

  /** Merging one live device touches its own address only. */
  lemma MergeOneAt(base: seq<Device>, table: seq<Device>, live: Device, address: string)
    requires Table(table)
    ensures Table(MergeOne(base, table, live))
    ensures Find(MergeOne(base, table, live), address) ==
            if Same(live.address, address)
            then Outcome(Find(base, live.address), Some(live), Find(table, live.address), |table| < MAX_DEVICES)
            else Find(table, address)
  {
    hide IsAddressName;
    var i := IndexOf(table, live.address);
    var before := Find(base, live.address);
    if i < |table| {
      FindUpdated(table, i, if before.None? then TakeName(live, table[i]) else MergeFields(before.value, live, table[i]), address);
    } else if before.None? && |table| < MAX_DEVICES {
      FindAppended(table, live, address);
    }
    SameFinds(table, live.address, address);
  }

  lemma SameFinds(table: seq<Device>, a: string, b: string)
    ensures Same(a, b) ==> Find(table, a) == Find(table, b)
  {
    if Same(a, b) {
      var i, j := IndexOf(table, a), IndexOf(table, b);
      assert i < |table| ==> Same(table[i].address, b);
      assert j < |table| ==> Same(table[j].address, a);
    }
  }

  lemma {:induction false} MergeUpToAt(base: seq<Device>, live: seq<Device>, n: nat, table: seq<Device>, address: string)
    requires Table(table) && Unique(live) && n <= |live|
    ensures Table(MergeUpTo(base, live, n, table))
    ensures var i := IndexOf(live, address);
            Find(MergeUpTo(base, live, n, table), address) ==
            if i < n
            then Outcome(Find(base, address), Some(live[i]), Find(table, address),
                         |MergeUpTo(base, live, i, table)| < MAX_DEVICES)
            else Find(table, address)
  {
    hide MergeOne, Outcome, Same;
    if n > 0 {
      var sofar := MergeUpTo(base, live, n - 1, table);
      MergeUpToAt(base, live, n - 1, table, address);
      MergeOneAt(base, sofar, live[n - 1], address);
      if Same(live[n - 1].address, address) {
        FindAt(live, n - 1, address);
        SameFinds(base, live[n - 1].address, address);
        SameFinds(sofar, live[n - 1].address, address);
      }
    }
  }

  lemma {:induction false} PrunedAt(base: seq<Device>, live: seq<Device>, scanned: seq<Device>, address: string)
    requires Unique(scanned)
    ensures Unique(Pruned(base, live, scanned))
    ensures Find(Pruned(base, live, scanned), address) ==
            if Has(base, address) && !Has(live, address) then None else Find(scanned, address)
  {
    hide Same, MergeOne, Outcome;
    if scanned != [] {
      var init, d := scanned[..|scanned| - 1], scanned[|scanned| - 1];
      var kept := Pruned(base, live, init);
      assert scanned == init + [d];
      NotInInit(init, d);
      PrunedAt(base, live, init, address);
      PrunedAt(base, live, init, d.address);
      FindAppended(init, d, address);
      SameFinds(base, d.address, address);
      SameFinds(live, d.address, address);
      if Gone(base, live, d) {
        assert Pruned(base, live, scanned) == kept;
      } else {
        FindAppended(kept, d, address);
      }
    }
  }

  lemma NotInInit(init: seq<Device>, d: Device)
    requires Unique(init + [d])
    ensures Unique(init) && !Has(init, d.address)
  {
    hide Same;
    var all := init + [d];
    forall i, j | 0 <= i < j < |init| ensures !Same(init[i].address, init[j].address) {
      assert !Same(all[i].address, all[j].address);
    }
    forall k | 0 <= k < |init| ensures !Same(init[k].address, d.address) {
      assert !Same(all[k].address, all[|init|].address);
    }
  }

  /** Whether there is room left for a live device that is new, when its turn comes. */
  predicate Room(base: seq<Device>, live: seq<Device>, scanned: seq<Device>, address: string) {
    var i := IndexOf(live, address);
    |MergeUpTo(base, live, i, Pruned(base, live, scanned))| < MAX_DEVICES
  }

  /** The device of one address after the merge, as far as the scan and live discovery both know one. */
  ghost predicate FieldByField(b: Option<Device>, l: Device, s: Device, r: Device) {
    && r.address == s.address && r.serviceName == s.serviceName && r.battery == s.battery
    && (b.None? ==>
          && r.name == (if IsAddressName(l.address, l.name) then s.name else l.name)
          && r.icon == s.icon && r.rssi == s.rssi && r.manufacturer == s.manufacturer && r.paired == s.paired
          && r.trusted == s.trusted && r.connected == s.connected && r.blocked == s.blocked
          && r.pairingKeyRejected == s.pairingKeyRejected)
    && (b.Some? ==>
          var was := b.value;
          && r.name == (if l.name != was.name then l.name else s.name)
          && r.icon == (if l.icon != was.icon then l.icon else s.icon)
          && r.rssi == (if l.rssi != was.rssi then l.rssi else s.rssi)
          && r.manufacturer == (if l.manufacturer != was.manufacturer then l.manufacturer else s.manufacturer)
          && r.paired == (if l.paired != was.paired then l.paired else s.paired)
          && r.trusted == (if l.trusted != was.trusted then l.trusted else s.trusted)
          && r.connected == (if l.connected != was.connected then l.connected else s.connected)
          && r.blocked == (if l.blocked != was.blocked then l.blocked else s.blocked)
          && (r.pairingKeyRejected <==>
                if l.pairingKeyRejected != was.pairingKeyRejected
                then l.pairingKeyRejected && r.paired && !r.connected else s.pairingKeyRejected))
  }

  /** What the three tables have for one address, and what is left for it after the merge. */
  ghost predicate ThreeWay(b: Option<Device>, l: Option<Device>, s: Option<Device>, room: bool, r: Option<Device>) {
    && (l.None? ==> r == if b.Some? then None else s)
    && (l.Some? && s.None? ==> r == if b.None? && room then l else None)
    && (l.Some? && s.Some? ==> r.Some? && FieldByField(b, l.value, s.value, r.value))
  }

  /**
   The merge is a three-way merge for every address: deleted live is gone, new live is added while
   there is room, dropped by the scan is gone, and a device known to all three keeps each changed
   live value. Addresses stay unique.
   */
  lemma MergedIsThreeWay(base: seq<Device>, live: seq<Device>, scanned: seq<Device>, address: string)
    requires Table(live) && Table(scanned)
    ensures Table(Merged(base, live, scanned))
    ensures ThreeWay(Find(base, address), Find(live, address), Find(scanned, address), Room(base, live, scanned, address),
                     Find(Merged(base, live, scanned), address))
  {
    hide Merged, Room, Same, IsAddressName;
    MergedFinds(base, live, scanned, address);
  }

  lemma MergedFinds(base: seq<Device>, live: seq<Device>, scanned: seq<Device>, address: string)
    requires Table(live) && Table(scanned)
    ensures Table(Merged(base, live, scanned))
    ensures Find(Merged(base, live, scanned), address) ==
            Outcome(Find(base, address), Find(live, address), Find(scanned, address), Room(base, live, scanned, address))
  {
    hide MergeUpTo, Pruned, Same;
    var table := Pruned(base, live, scanned);
    PrunedAt(base, live, scanned, address);
    assert Table(table);
    MergeUpToAt(base, live, |live|, table, address);
    assert Find(live, address).Some? ==> Find(table, address) == Find(scanned, address);
  }

  // ----- room -----

  predicate IsNew(base: seq<Device>, scanned: seq<Device>, d: Device) {
    !Has(base, d.address) && !Has(scanned, d.address)
  }

  /** How many of the first `n` live devices are new to both other tables. */
  function NewCount(base: seq<Device>, live: seq<Device>, scanned: seq<Device>, n: nat): (count: nat)
    requires n <= |live|
  {
    if n == 0 then 0 else NewCount(base, live, scanned, n - 1) + if IsNew(base, scanned, live[n - 1]) then 1 else 0
  }

  function Min(a: nat, b: nat): nat {
    if a < b then a else b
  }

  lemma MergeOneLength(base: seq<Device>, table: seq<Device>, live: Device)
    ensures |MergeOne(base, table, live)| ==
            |table| + if !Has(table, live.address) && !Has(base, live.address) && |table| < MAX_DEVICES then 1 else 0
  {
    hide MergeFields, TakeName, Same;
  }

  lemma {:induction false} MergedLength(base: seq<Device>, live: seq<Device>, scanned: seq<Device>, n: nat)
    requires Table(live) && Table(scanned) && n <= |live|
    ensures |MergeUpTo(base, live, n, Pruned(base, live, scanned))|
            == Min(MAX_DEVICES, |Pruned(base, live, scanned)| + NewCount(base, live, scanned, n))
  {
    hide Pruned, Outcome, MergeOne, Same, Gone;
    if n > 0 {
      var d := live[n - 1];
      var kept := Pruned(base, live, scanned);
      MergedLength(base, live, scanned, n - 1);
      FindAt(live, n - 1, d.address);
      PrunedAt(base, live, scanned, d.address);
      MergeUpToAt(base, live, n - 1, kept, d.address);
      MergeOneLength(base, MergeUpTo(base, live, n - 1, kept), d);
    }
  }

  /** Room is left exactly while fewer than the maximum are kept or added before. */
  lemma RoomIs(base: seq<Device>, live: seq<Device>, scanned: seq<Device>, address: string)
    requires Table(live) && Table(scanned) && Has(live, address)
    ensures Room(base, live, scanned, address) <==>
            |Pruned(base, live, scanned)| + NewCount(base, live, scanned, IndexOf(live, address)) < MAX_DEVICES
  {
    hide Pruned, MergeUpTo, NewCount;
    MergedLength(base, live, scanned, IndexOf(live, address));
  }

  // ----- the two degenerate merges -----

  lemma {:induction false} NothingPruned(base: seq<Device>, scanned: seq<Device>)
    ensures Pruned(base, base, scanned) == scanned
  {
    if scanned != [] {
      NothingPruned(base, scanned[..|scanned| - 1]);
    }
  }

  lemma FieldsUnchanged(d: Device, after: Device)
    ensures MergeFields(d, d, after) == after
  {
  }

  lemma MergeKnownUnchanged(base: seq<Device>, table: seq<Device>, k: nat)
    requires Unique(base) && k < |base|
    ensures MergeOne(base, table, base[k]) == table
  {
    hide MergeFields, TakeName, Same;
    assert Same(base[k].address, base[k].address) by { SameIsSymmetric(base[k].address, base[k].address); }
    FindAt(base, k, base[k].address);
    var i := IndexOf(table, base[k].address);
    if i < |table| {
      FieldsUnchanged(base[k], table[i]);
    }
  }

  lemma {:induction false} NothingMerged(base: seq<Device>, n: nat, table: seq<Device>)
    requires Unique(base) && n <= |base|
    ensures MergeUpTo(base, base, n, table) == table
  {
    hide MergeOne;
    if n > 0 {
      NothingMerged(base, n - 1, table);
      MergeKnownUnchanged(base, table, n - 1);
    }
  }

  /** If nothing changed live, the merge gives exactly the scanned table. */
  lemma UnchangedLiveGivesScanned(base: seq<Device>, scanned: seq<Device>)
    requires Unique(base)
    ensures Merged(base, base, scanned) == scanned
  {
    NothingPruned(base, scanned);
    NothingMerged(base, |base|, scanned);
  }

  function KnownCount(live: seq<Device>, table: seq<Device>, n: nat): (count: nat)
    requires n <= |live|
  {
    if n == 0 then 0 else KnownCount(live, table, n - 1) + if Has(table, live[n - 1].address) then 1 else 0
  }

  lemma {:induction false} KnownOneMore(live: seq<Device>, init: seq<Device>, d: Device, n: nat)
    requires Unique(live) && Unique(init) && !Has(init, d.address) && n <= |live|
    ensures KnownCount(live, init + [d], n) ==
            KnownCount(live, init, n) + if IndexOf(live, d.address) < n then 1 else 0
  {
    hide Same;
    if n > 0 {
      KnownOneMore(live, init, d, n - 1);
      FindAppended(init, d, live[n - 1].address);
      SameFinds(init, d.address, live[n - 1].address);
      if Same(live[n - 1].address, d.address) {
        FindAt(live, n - 1, d.address);
      }
      SameIsSymmetric(live[n - 1].address, d.address);
    }
  }

  lemma SameIsSymmetric(a: string, b: string)
    ensures (Same(a, b) <==> Same(b, a)) && Same(a, a)
  {
  }

  /** Every device that survives pruning and was known before is one of the known live devices. */
  lemma {:induction false} PrunedAreKnown(base: seq<Device>, live: seq<Device>, scanned: seq<Device>)
    requires Unique(live) && Unique(scanned)
    requires forall k :: 0 <= k < |scanned| ==> Has(base, scanned[k].address)
    ensures |Pruned(base, live, scanned)| == KnownCount(live, scanned, |live|)
  {
    if scanned == [] {
      NoneKnown(live, |live|);
    } else {
      var init, d := scanned[..|scanned| - 1], scanned[|scanned| - 1];
      assert scanned == init + [d];
      NotInInit(init, d);
      PrunedAreKnown(base, live, init);
      KnownOneMore(live, init, d, |live|);
      assert Has(base, scanned[|scanned| - 1].address);
    }
  }

  lemma {:induction false} NoneKnown(live: seq<Device>, n: nat)
    requires n <= |live|
    ensures KnownCount(live, [], n) == 0
  {
    if n > 0 {
      NoneKnown(live, n - 1);
    }
  }

  lemma {:induction false} NewOrKnown(base: seq<Device>, live: seq<Device>, n: nat, m: nat)
    requires n <= m <= |live|
    ensures NewCount(base, live, base, m) + KnownCount(live, base, m) == m
    ensures NewCount(base, live, base, n) <= NewCount(base, live, base, m)
    decreases m
  {
    if m > 0 {
      NewOrKnown(base, live, if n < m then n else m - 1, m - 1);
    }
  }

  lemma TableHasItself(base: seq<Device>)
    ensures forall k :: 0 <= k < |base| ==> Has(base, base[k].address)
  {
  }

  /**
   If the scan changed nothing, the merge has live's devices, and every field it merges is live's:
   there is always room.
   */
  lemma UnchangedScanGivesLive(base: seq<Device>, live: seq<Device>, address: string)
    requires Table(base) && Table(live)
    ensures var r, l, b := Find(Merged(base, live, base), address), Find(live, address), Find(base, address);
            && (r.Some? <==> l.Some?)
            && (l.Some? && b.None? ==> r == l)
            && (l.Some? && b.Some? ==>
                  var m := r.value;
                  && m.name == l.value.name && m.icon == l.value.icon && m.rssi == l.value.rssi
                  && m.manufacturer == l.value.manufacturer && m.paired == l.value.paired
                  && m.trusted == l.value.trusted && m.connected == l.value.connected && m.blocked == l.value.blocked
                  && m.serviceName == b.value.serviceName && m.battery == b.value.battery
                  && m.address == b.value.address)
  {
    hide Merged, Pruned, Room, Same, KnownCount;
    MergedFinds(base, live, base, address);
    if Has(live, address) && !Has(base, address) {
      var i := IndexOf(live, address);
      RoomIs(base, live, base, address);
      TableHasItself(base);
      PrunedAreKnown(base, live, base);
      NewOrKnown(base, live, i + 1, |live|);
      SameFinds(base, live[i].address, address);
      assert IsNew(base, base, live[i]);
    }
  }
}
