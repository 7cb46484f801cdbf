/**
 Which drives may be erased: whatever is stacked on one must be a partition
 without a mount outside the removable-volume directories.
 */
module DriveSafety {

  const MAX_NODES: nat := 512

  datatype Node = Node(path: string, parent: string, kind: string, mounts: string, identity: string,
                       size: nat, device: nat, readonly: bool)

  type Table = t: seq<Node> | |t| <= MAX_NODES

  // ----- what is stacked on a drive -----

  /** `child` names `parent` as its parent. */
  predicate On(table: Table, child: nat, parent: nat)
    requires child < |table| && parent < |table|
  {
    table[child].parent != "" && table[child].parent == table[parent].path
  }

  ghost predicate Chain(table: Table, chain: seq<nat>) {
    && chain != []
    && (forall k :: 0 <= k < |chain| ==> chain[k] < |table|)
    && forall k :: 0 <= k < |chain| - 1 ==> On(table, chain[k + 1], chain[k])
  }

  /** A node is reached from the drive through parent names. */
  ghost predicate Reaches(table: Table, disk: nat, node: nat) {
    exists chain :: Chain(table, chain) && chain[0] == disk && chain[|chain| - 1] == node
  }

  lemma ReachesItself(table: Table, disk: nat)
    requires disk < |table|
    ensures Reaches(table, disk, disk)
  {
    assert Chain(table, [disk]);
  }

  lemma ReachesOneMore(table: Table, disk: nat, parent: nat, child: nat)
    requires Reaches(table, disk, parent) && child < |table| && parent < |table| && On(table, child, parent)
    ensures Reaches(table, disk, child)
  {
    var chain :| Chain(table, chain) && chain[0] == disk && chain[|chain| - 1] == parent;
    var longer := chain + [child];
    forall k | 0 <= k < |longer| - 1 ensures On(table, longer[k + 1], longer[k]) {
      if k < |chain| - 1 {
        assert longer[k + 1] == chain[k + 1];
      }
    }
    assert Chain(table, longer);
  }

  /** Marks closed under parent names: nothing unmarked sits on something marked. */
  ghost predicate Closed(table: Table, marks: seq<bool>) {
    && |table| <= |marks|
    && forall i, j :: 0 <= i < |table| && 0 <= j < |table| && marks[j] && On(table, i, j) ==> marks[i]
  }

  lemma {:induction false} ClosedHoldsChain(table: Table, marks: seq<bool>, chain: seq<nat>, k: nat)
    requires Closed(table, marks) && Chain(table, chain) && marks[chain[0]] && k < |chain|
    ensures marks[chain[k]]
  {
    if k > 0 {
      ClosedHoldsChain(table, marks, chain, k - 1);
      assert On(table, chain[k - 1 + 1], chain[k - 1]);
    }
  }

  lemma ClosedHoldsReached(table: Table, marks: seq<bool>, disk: nat, node: nat)
    requires Closed(table, marks) && disk < |table| && marks[disk] && Reaches(table, disk, node)
    ensures node < |table| && marks[node]
  {
    var chain :| Chain(table, chain) && chain[0] == disk && chain[|chain| - 1] == node;
    ClosedHoldsChain(table, marks, chain, |chain| - 1);
  }

  // ----- the passes over the table -----

  ghost function Marked(marks: seq<bool>, n: nat): (s: set<nat>)
    requires n <= |marks|
  {
    set i: nat | i < n && marks[i]
  }

  lemma {:induction false} MarkedAtMost(marks: seq<bool>, n: nat)
    requires n <= |marks|
    ensures |Marked(marks, n)| <= n
  {
    if n == 0 {
      assert Marked(marks, 0) == {};
    } else {
      MarkedAtMost(marks, n - 1);
      assert Marked(marks, n) <= Marked(marks, n - 1) + {n - 1};
      Bigger(Marked(marks, n), Marked(marks, n - 1) + {n - 1});
    }
  }

  lemma {:induction false} Bigger<T>(a: set<T>, b: set<T>)
    requires a <= b
    ensures |a| <= |b| && (a != b ==> |a| < |b|)
    decreases |a|
  {
    if a == {} {
      if b != {} {
        var x :| x in b;
      }
    } else {
      var x :| x in a;
      Bigger(a - {x}, b - {x});
      if a != b {
        var y :| y in b && y !in a;
        assert y in b - {x} && y !in a - {x};
      }
    }
  }

  /** Every mark was there before, or is of a node on a marked one; only nodes of the table are marked. */
  ghost predicate Grown(was: seq<bool>, now: seq<bool>) {
    |was| == |now| && forall i :: 0 <= i < |was| && was[i] ==> now[i]
  }

  ghost predicate AllReached(table: Table, disk: nat, marks: seq<bool>) {
    && |table| <= |marks| && disk < |table| && marks[disk]
    && (forall i :: 0 <= i < |marks| && marks[i] ==> i < |table| && Reaches(table, disk, i))
  }

  /** The inner loop: is the parent of a node marked? */
  method SitsOnMarked(table: Table, i: nat, marks: array<bool>) returns (found: bool, ghost j: nat)
    requires i < |table| <= marks.Length && table[i].parent != ""
    ensures found ==> j < |table| && marks[j] && On(table, i, j)
    ensures !found ==> forall k :: 0 <= k < |table| && marks[k] ==> !On(table, i, k)
  {
    found, j := false, 0;
    for k := 0 to |table|
      invariant forall m :: 0 <= m < k && marks[m] ==> !On(table, i, m)
    {
      if marks[k] && table[i].parent == table[k].path {
        return true, k;
      }
    }
  }

  /** One pass, which marks nodes in place; a pass that changes nothing has found the marks closed. */
  method Pass(table: Table, ghost disk: nat, marks: array<bool>) returns (changed: bool)
    requires |table| <= marks.Length && AllReached(table, disk, marks[..])
    modifies marks
    ensures AllReached(table, disk, marks[..]) && Grown(old(marks[..]), marks[..])
    ensures changed <==> marks[..] != old(marks[..])
    ensures !changed ==> Closed(table, marks[..])
  {
    hide Reaches;
    ghost var was := marks[..];
    changed := false;
    for i := 0 to |table|
      invariant AllReached(table, disk, marks[..]) && Grown(was, marks[..])
      invariant changed <==> marks[..] != was
      invariant !changed ==> forall m, k :: 0 <= m < i && 0 <= k < |table| && marks[k] && On(table, m, k) ==> marks[m]
    {
      if marks[i] || table[i].parent == "" {
        continue;
      }
      var found, j := SitsOnMarked(table, i, marks);
      if found {
        ReachesOneMore(table, disk, j, i);
        ghost var before := marks[..];
        marks[i] := true;
        changed := true;
        assert marks[..] == before[i := true];
        assert !was[i];
      }
    }
  }

  /**
   `members`: after at most as many passes as there are nodes exactly the nodes reached from the drive are
   marked, for any table: with cycles, duplicate names, or parents that are not there.
   */
  method Members(table: Table, disk: nat, marks: array<bool>)
    requires disk < |table| && marks.Length == MAX_NODES
    modifies marks
    ensures forall i :: 0 <= i < |table| ==> (marks[i] <==> Reaches(table, disk, i))
    ensures forall i :: |table| <= i < marks.Length ==> !marks[i]
  {
    hide Reaches, Closed;
    for i := 0 to marks.Length
      invariant forall k :: 0 <= k < i ==> !marks[k]
    {
      marks[i] := false;
    }
    marks[disk] := true;
    ReachesItself(table, disk);
    var pass := 0;
    assert disk in Marked(marks[..], |table|);
    Bigger({disk}, Marked(marks[..], |table|));
    while pass < |table|
      invariant pass <= |table| && AllReached(table, disk, marks[..])
      invariant |Marked(marks[..], |table|)| > pass
    {
      ghost var was := marks[..];
      var changed := Pass(table, disk, marks);
      if !changed {
        break;
      }
      MarksGrow(was, marks[..], |table|);
      pass := pass + 1;
    }
    MarkedAtMost(marks[..], |table|);
    assert Closed(table, marks[..]);
    forall i | 0 <= i < |table| && Reaches(table, disk, i) ensures marks[i] {
      ClosedHoldsReached(table, marks[..], disk, i);
    }
  }

  lemma MarksGrow(was: seq<bool>, now: seq<bool>, n: nat)
    requires n <= |was| && Grown(was, now) && was != now
    requires forall i :: n <= i < |now| ==> !now[i]
    ensures |Marked(was, n)| < |Marked(now, n)|
  {
    var i :| 0 <= i < |was| && was[i] != now[i];
    assert i in Marked(now, n) && i !in Marked(was, n);
    Bigger(Marked(was, n), Marked(now, n));
  }

  // ----- mount points -----

  /** `path_inside`. */
  predicate PathInside(path: string, directory: string) {
    var n := |directory|;
    && n > 0 && directory <= path
    && (directory[n - 1] == '/' || |path| == n || path[n] == '/')
  }

  /** The parts of a text between separators. */
  function Split(text: string, sep: char): (r: seq<string>)
    ensures r != []
  {
    if text == "" then [""]
    else
      var before := Split(text[..|text| - 1], sep);
      var c := text[|text| - 1];
      if c == sep then before + [""] else before[|before| - 1 := before[|before| - 1] + [c]]
  }

  /** The parts of a path between its slashes. */
  function Parts(path: string): (r: seq<string>) {
    Split(path, '/')
  }

  /** Parts put together again. */
  function Assembled(parts: seq<string>): (path: string)
    requires parts != []
  {
    if |parts| == 1 then parts[0] else Assembled(parts[..|parts| - 1]) + "/" + parts[|parts| - 1]
  }

  lemma {:induction false} PartsAssemble(path: string)
    ensures Parts(path) != [] && Assembled(Parts(path)) == path
  {
    if path != "" {
      var head, c := path[..|path| - 1], path[|path| - 1];
      var before := Parts(head);
      PartsAssemble(head);
      assert path == head + [c];
      if c == '/' {
        assert (before + [""])[..|before|] == before;
      } else {
        var after := before[|before| - 1 := before[|before| - 1] + [c]];
        assert after[..|after| - 1] == before[..|before| - 1];
        if |before| > 1 {
          assert Assembled(after) == Assembled(before[..|before| - 1]) + "/" + (before[|before| - 1] + [c]);
          assert Assembled(after) == Assembled(before) + [c];
        }
      }
    }
  }

  lemma {:induction false} SplitLonger(text: string, rest: string, sep: char)
    ensures Split(text + [sep] + rest, sep) == Split(text, sep) + Split(rest, sep)
  {
    if rest == "" {
      assert text + [sep] + rest == text + [sep];
      assert (text + [sep])[..|text|] == text;
    } else {
      var whole := text + [sep] + rest;
      var head := rest[..|rest| - 1];
      assert whole[..|whole| - 1] == text + [sep] + head;
      SplitLonger(text, head, sep);
    }
  }

  lemma {:induction false} OnePart(text: string, sep: char)
    requires sep !in text
    ensures Split(text, sep) == [text]
  {
    if text != "" {
      OnePart(text[..|text| - 1], sep);
      assert text == text[..|text| - 1] + [text[|text| - 1]];
    }
  }

  lemma {:induction false} AssembledLonger(a: seq<string>, b: seq<string>)
    requires a != [] && b != []
    ensures Assembled(a + b) == Assembled(a) + "/" + Assembled(b)
  {
    var n := |b| - 1;
    assert (a + b)[..|a + b| - 1] == a + b[..n];
    if n > 0 {
      AssembledLonger(a, b[..n]);
      assert Assembled(a) + "/" + Assembled(b) == Assembled(a) + "/" + Assembled(b[..n]) + "/" + b[n];
    } else {
      assert a + b[..n] == a;
    }
  }

  /**
   A path is inside a directory exactly when the directory's parts are the first parts of the path: names that
   only begin alike, as /media and /mediaplayer, are kept apart. A directory written with a final slash is
   matched as a prefix.
   */
  lemma InsideMeansParts(path: string, directory: string)
    requires directory != ""
    ensures directory[|directory| - 1] != '/' ==> (PathInside(path, directory) <==> Parts(directory) <= Parts(path))
    ensures directory[|directory| - 1] == '/' ==> (PathInside(path, directory) <==> directory <= path)
  {
    hide Split, Assembled;
    var n := |directory|;
    if directory[n - 1] != '/' {
      if PathInside(path, directory) {
        InsideGivesParts(path, directory);
      }
      if Parts(directory) <= Parts(path) {
        PartsGiveInside(path, directory);
      }
    }
  }

  lemma InsideGivesParts(path: string, directory: string)
    requires PathInside(path, directory) && directory[|directory| - 1] != '/'
    ensures Parts(directory) <= Parts(path)
  {
    hide Split, Assembled;
    var n := |directory|;
    if |path| > n {
      assert path == directory + "/" + path[n + 1..];
      SplitLonger(directory, path[n + 1..], '/');
    } else {
      assert path == directory;
    }
  }

  lemma PartsGiveInside(path: string, directory: string)
    requires directory != "" && Parts(directory) <= Parts(path)
    ensures PathInside(path, directory)
  {
    hide Split, Assembled;
    PartsAssemble(path);
    PartsAssemble(directory);
    var m := |Parts(directory)|;
    var rest := Parts(path)[m..];
    assert Parts(path) == Parts(directory) + rest;
    if rest != [] {
      AssembledLonger(Parts(directory), rest);
      assert path == directory + ("/" + Assembled(rest));
      assert path[|directory|] == '/';
    } else {
      assert Parts(path) == Parts(directory);
    }
  }

  predicate Removable(mount: string) {
    PathInside(mount, "/media") || PathInside(mount, "/run/media") || PathInside(mount, "/mnt") || PathInside(mount, "/Volumes")
  }

  /** A mount of the table: a longest run of characters other than newlines. */
  predicate Mount(mounts: string, i: nat, j: nat) {
    && i < j <= |mounts|
    && (forall k :: i <= k < j ==> mounts[k] != '\n')
    && (i == 0 || mounts[i - 1] == '\n')
    && (j == |mounts| || mounts[j] == '\n')
  }

  ghost predicate MountsAreSafe(mounts: string, image: string) {
    forall i: nat, j: nat :: Mount(mounts, i, j) ==> !PathInside(image, mounts[i..j]) && Removable(mounts[i..j])
  }

  /** `safe_mounts`, with `strtok_r` as the loop over runs between newlines. */
  method SafeMounts(mounts: string, image: string) returns (ok: bool)
    ensures ok <==> MountsAreSafe(mounts, image)
  {
    hide PathInside, Removable;
    var p := 0;
    while p < |mounts|
      invariant p <= |mounts|
      invariant p == 0 || p == |mounts| || mounts[p - 1] == '\n'
      invariant forall i: nat, j: nat :: Mount(mounts, i, j) && i < p ==>
                  !PathInside(image, mounts[i..j]) && Removable(mounts[i..j])
    {
      if mounts[p] == '\n' {
        p := p + 1;
        continue;
      }
      var end := p;
      while end < |mounts| && mounts[end] != '\n'
        invariant p <= end <= |mounts| && forall k :: p <= k < end ==> mounts[k] != '\n'
      {
        end := end + 1;
      }
      assert Mount(mounts, p, end);
      if PathInside(image, mounts[p..end]) {
        return false;
      }
      if !Removable(mounts[p..end]) {
        return false;
      }
      forall i: nat, j: nat | Mount(mounts, i, j) && p <= i <= end ensures i == p && j == end {
      }
      p := if end < |mounts| then end + 1 else end;
    }
    ok := true;
  }

  // ----- eligible drives -----

  /** What every node stacked on a drive has to be, the drive itself included. */
  ghost predicate NodeIsSafe(table: Table, disk: nat, i: nat, image: string, imageDevice: nat)
    requires i < |table|
  {
    && (table[i].device == 0 || table[i].device != imageDevice)
    && (i == disk || table[i].kind == "part" || table[i].kind == "label")
    && MountsAreSafe(table[i].mounts, image)
  }

  ghost predicate Eligible(table: Table, disk: nat, image: string, imageDevice: nat, imageSize: nat)
    requires disk < |table|
  {
    && table[disk].kind == "disk" && !table[disk].readonly && table[disk].size >= imageSize
    && forall i :: 0 <= i < |table| && Reaches(table, disk, i) ==> NodeIsSafe(table, disk, i, image, imageDevice)
  }

  /** `eligible`. */
  method CheckEligible(table: Table, disk: nat, image: string, imageDevice: nat, imageSize: nat) returns (ok: bool)
    requires disk < |table|
    ensures ok <==> Eligible(table, disk, image, imageDevice, imageSize)
  {
    hide Reaches, MountsAreSafe;
    if table[disk].kind != "disk" || table[disk].readonly || table[disk].size < imageSize {
      return false;
    }
    var marks := new bool[MAX_NODES];
    Members(table, disk, marks);
    for i := 0 to |table|
      invariant forall k :: 0 <= k < |table| ==> (marks[k] <==> Reaches(table, disk, k))
      invariant forall k :: 0 <= k < i && marks[k] ==> NodeIsSafe(table, disk, k, image, imageDevice)
    {
      if marks[i] {
        if table[i].device != 0 && table[i].device == imageDevice {
          assert !NodeIsSafe(table, disk, i, image, imageDevice);
          return false;
        }
        if i != disk && table[i].kind != "part" && table[i].kind != "label" {
          return false;
        }
        var safe := SafeMounts(table[i].mounts, image);
        if !safe {
          return false;
        }
      }
    }
    ok := true;
  }

  /** The first node with a path, from some index on. */
  function FirstAt(table: Table, device: string, from: nat): (disk: int)
    requires from <= |table|
    ensures disk < 0 ==> forall i :: from <= i < |table| ==> table[i].path != device
    ensures disk >= 0 ==> from <= disk < |table| && table[disk].path == device
                          && forall i :: from <= i < disk ==> table[i].path != device
    decreases |table| - from
  {
    if from == |table| then -1
    else if table[from].path == device then from
    else FirstAt(table, device, from + 1)
  }

  /** The loop that looks for the drive by name. */
  method FindDrive(table: Table, device: string) returns (disk: int)
    ensures disk == FirstAt(table, device, 0)
  {
    for i := 0 to |table|
      invariant FirstAt(table, device, 0) == FirstAt(table, device, i)
    {
      if table[i].path == device {
        return i;
      }
    }
    return -1;
  }

  /** A drive is refused as soon as something in a stack on it holds the image, is mounted elsewhere, or is no partition. */
  lemma OneBadNodeRefuses(table: Table, disk: nat, node: nat, image: string, imageDevice: nat, imageSize: nat)
    requires disk < |table| && node < |table| && Reaches(table, disk, node)
    requires || (table[node].device != 0 && table[node].device == imageDevice)
             || (node != disk && table[node].kind != "part" && table[node].kind != "label")
             || exists i: nat, j: nat :: Mount(table[node].mounts, i, j)
                  && (PathInside(image, table[node].mounts[i..j]) || !Removable(table[node].mounts[i..j]))
    ensures !Eligible(table, disk, image, imageDevice, imageSize)
  {
    assert !NodeIsSafe(table, disk, node, image, imageDevice);
  }

  // ----- what the parts mean -----

  lemma ShorterChain(table: Table, chain: seq<nat>, n: nat)
    requires Chain(table, chain) && 0 < n <= |chain|
    ensures Chain(table, chain[..n])
  {
    var c := chain[..n];
    forall k | 0 <= k < |c| - 1 ensures On(table, c[k + 1], c[k]) {
      assert On(table, chain[k + 1], chain[k]);
    }
  }

  /** What is reached: the drive itself, and every node that names a reached one as its parent. */
  lemma ReachesIff(table: Table, disk: nat, node: nat)
    requires disk < |table| && node < |table|
    ensures Reaches(table, disk, node)
            <==> node == disk
                 || exists p: nat :: p < |table| && Reaches(table, disk, p)
                                     && table[node].parent == table[p].path && table[node].parent != ""
  {
    ReachesItself(table, disk);
    if Reaches(table, disk, node) && node != disk {
      var chain :| Chain(table, chain) && chain[0] == disk && chain[|chain| - 1] == node;
      var n := |chain| - 2;
      assert On(table, chain[n + 1], chain[n]);
      ShorterChain(table, chain, n + 1);
      assert Reaches(table, disk, chain[n]);
    }
    forall p: nat | p < |table| && Reaches(table, disk, p) && table[node].parent == table[p].path && table[node].parent != ""
      ensures Reaches(table, disk, node)
    {
      ReachesOneMore(table, disk, p, node);
    }
  }

  /** A directory of the root, and one in a directory of it. */
  lemma PartsOfRooted(a: string, b: string)
    requires '/' !in a && '/' !in b
    ensures Parts("/" + a) == ["", a] && Parts("/" + a + "/" + b) == ["", a, b]
  {
    hide Split;
    OnePart("", '/');
    OnePart(a, '/');
    OnePart(b, '/');
    SplitLonger("", a, '/');
    assert "" + ['/'] + a == "/" + a;
    SplitLonger("/" + a, b, '/');
  }

  /** Removable volumes are mounted in /media, /run/media, /mnt and /Volumes, or are these directories themselves. */
  lemma RemovableIff(mount: string)
    ensures var parts := Parts(mount);
            Removable(mount) <==> |parts| >= 2 && parts[0] == ""
                                  && (parts[1] == "media" || parts[1] == "mnt" || parts[1] == "Volumes"
                                      || (|parts| >= 3 && parts[1] == "run" && parts[2] == "media"))
  {
    hide Parts, PathInside;
    PartsOfRooted("media", "");
    PartsOfRooted("mnt", "");
    PartsOfRooted("Volumes", "");
    PartsOfRooted("run", "media");
    assert "/" + "media" == "/media" && "/" + "mnt" == "/mnt" && "/" + "Volumes" == "/Volumes";
    assert "/" + "run" + "/" + "media" == "/run/media";
    InsideMeansParts(mount, "/media");
    InsideMeansParts(mount, "/mnt");
    InsideMeansParts(mount, "/Volumes");
    InsideMeansParts(mount, "/run/media");
  }

  ghost predicate IsMount(mounts: string, i: nat, j: nat, mount: string) {
    Mount(mounts, i, j) && mounts[i..j] == mount
  }

  /** The mounts of a text are its lines, less the empty ones. */
  lemma MountsAre(mounts: string, mount: string)
    ensures (exists i: nat, j: nat :: IsMount(mounts, i, j, mount)) <==> mount != "" && mount in Split(mounts, '\n')
  {
    hide Split;
    if i: nat, j: nat :| IsMount(mounts, i, j, mount) {
      MountIsLine(mounts, i, j);
    }
    if mount != "" && mount in Split(mounts, '\n') {
      var i, j := LineIsMount(mounts, mount);
    }
  }

  lemma MountIsLine(mounts: string, i: nat, j: nat)
    requires Mount(mounts, i, j)
    ensures mounts[i..j] in Split(mounts, '\n')
  {
    hide Split;
    OnePart(mounts[i..j], '\n');
    if j < |mounts| {
      assert mounts[..j] + ['\n'] + mounts[j + 1..] == mounts;
      SplitLonger(mounts[..j], mounts[j + 1..], '\n');
    } else {
      assert mounts[..j] == mounts;
    }
    if i > 0 {
      assert mounts[..i - 1] + ['\n'] + mounts[i..j] == mounts[..j];
      SplitLonger(mounts[..i - 1], mounts[i..j], '\n');
    } else {
      assert mounts[i..j] == mounts[..j];
    }
  }

  lemma {:induction false} LineIsMount(mounts: string, mount: string) returns (i: nat, j: nat)
    requires mount != "" && mount in Split(mounts, '\n')
    ensures IsMount(mounts, i, j, mount)
    decreases |mounts|
  {
    hide Split;
    if '\n' !in mounts {
      OnePart(mounts, '\n');
      i, j := 0, |mounts|;
    } else {
      var n := FirstNewline(mounts);
      var first, rest := mounts[..n], mounts[n + 1..];
      assert first + ['\n'] + rest == mounts;
      SplitLonger(first, rest, '\n');
      OnePart(first, '\n');
      if mount == first {
        i, j := 0, n;
      } else {
        i, j := LineIsMount(rest, mount);
        i, j := i + n + 1, j + n + 1;
        assert mounts[i..j] == rest[i - n - 1..j - n - 1];
      }
    }
  }

  lemma {:induction false} FirstNewline(text: string) returns (n: nat)
    requires '\n' in text
    ensures n < |text| && text[n] == '\n' && '\n' !in text[..n]
  {
    if text[0] == '\n' {
      n := 0;
    } else {
      var m := FirstNewline(text[1..]);
      n := m + 1;
      assert text[..n] == [text[0]] + text[1..][..m];
    }
  }
}
