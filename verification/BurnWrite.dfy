/**
 The privileged helper that writes an image: two scans of the drives, before and
 after unmounting, stand between the request and the first byte written.
 */
module BurnWrite {
  import opened BurnProgress
  import opened ByteText
  import opened DriveSafety
  import opened Options
  import Reads
  import opened Utf8

  /** What is known of an opened file. */
  datatype Stat = Stat(device: nat, size: nat, identity: string, regular: bool)

  /** What the operating system answers during one run. */
  datatype Environment = Environment(
    root: bool,
    iso: Option<Stat>,
    firstScan: Option<Table>,
    unmountOutput: seq<Bytes>,
    unmounts: bool,
    stopAfterUnmount: bool,
    secondScan: Option<Table>,
    driveOpens: bool,
    batches: nat -> Batch,
    finalIdentity: Option<string>,
    closes: bool,
    error: Bytes
  )

  function LowerChar(c: char): (r: char) {
    if 'A' <= c <= 'Z' then c - 'A' + 'a' else c
  }

  predicate IsIso(path: string) {
    var n := |path|;
    n >= 4 && path[n - 4] == '.' && LowerChar(path[n - 3]) == 'i' && LowerChar(path[n - 2]) == 's' && LowerChar(path[n - 1]) == 'o'
  }

  /** `open_image`: a nonempty regular file of whole sectors, named as an image. */
  function OpenImage(path: string, file: Option<Stat>): (r: Option<Stat>)
    ensures r.Some? ==> r.value.size > 0 && r.value.size % SECTOR == 0
  {
    if !IsIso(path) then None
    else if file.None? then None
    else if !file.value.regular || file.value.size == 0 || file.value.size % SECTOR != 0 then None
    else file
  }

  /** The drive of that name is the one that was confirmed, and may be erased. */
  ghost predicate Confirms(table: Table, device: string, expected: string, image: string, st: Stat) {
    var disk := FirstAt(table, device, 0);
    disk >= 0 && table[disk].identity == expected && Eligible(table, disk, image, st.device, st.size)
  }

  /** Nothing stacked on the drive is mounted. */
  ghost predicate NoMounts(table: Table, disk: nat) {
    forall i :: 0 <= i < |table| && Reaches(table, disk, i) ==> table[i].mounts == ""
  }

  /** All that has to hold before the first byte is written. */
  ghost predicate MayWrite(image: string, device: string, expectedDrive: string, expectedImage: string, env: Environment) {
    && env.root
    && OpenImage(image, env.iso).Some?
    && var st := OpenImage(image, env.iso).value;
       && st.identity == expectedImage
       && env.firstScan.Some? && Confirms(env.firstScan.value, device, expectedDrive, image, st)
       && env.unmounts && !env.stopAfterUnmount
       && env.secondScan.Some? && Confirms(env.secondScan.value, device, expectedDrive, image, st)
       && NoMounts(env.secondScan.value, FirstAt(env.secondScan.value, device, 0))
       && env.driveOpens
  }

  function Unmounting(): (r: Bytes) {
    Ascii("Unmounting selected drive...")
  }

  /** The lines the helper prints, and those of the programs it runs. */
  ghost predicate FromHelper(m: Message, size: nat, error: Bytes) {
    || m.Other?
    || m == Status(Unmounting())
    || m == Status(Writing())
    || (m.Progress? && m.n <= size)
    || m == Finished
    || m == Failure(error)
  }

  ghost predicate AllFromHelper(log: seq<Message>, size: nat, error: Bytes) {
    forall m :: m in log ==> FromHelper(m, size, error)
  }

  lemma OneMoreLine(log: seq<Message>, m: Message, size: nat, error: Bytes)
    requires AllFromHelper(log, size, error) && FromHelper(m, size, error)
    ensures AllFromHelper(log + [m], size, error) && (Finished in log + [m] <==> Finished in log || m == Finished)
    ensures Values(log + [m]) == if m.Progress? then Values(log) + [m.n] else Values(log)
  {
    hide FromHelper;
    ValuesAdd(log, m);
    assert Values(log) + [] == Values(log);
  }

  /** Find the drive in a scan and check it. */
  method Confirm(table: Table, device: string, expected: string, image: string, st: Stat) returns (disk: int)
    ensures disk >= 0 <==> Confirms(table, device, expected, image, st)
    ensures disk >= 0 ==> disk == FirstAt(table, device, 0)
  {
    hide Eligible;
    disk := FindDrive(table, device);
    if disk < 0 || table[disk].identity != expected {
      return -1;
    }
    var ok := CheckEligible(table, disk, image, st.device, st.size);
    if !ok {
      return -1;
    }
  }

  /** The loop over everything stacked on the drive after unmounting. */
  method StillMounted(table: Table, disk: nat) returns (mounted: bool)
    requires disk < |table|
    ensures mounted <==> !NoMounts(table, disk)
  {
    hide Reaches;
    var marks := new bool[MAX_NODES];
    Members(table, disk, marks);
    for i := 0 to |table|
      invariant forall k :: 0 <= k < |table| ==> (marks[k] <==> Reaches(table, disk, k))
      invariant forall k :: 0 <= k < i && Reaches(table, disk, k) ==> table[k].mounts == ""
    {
      if marks[i] && table[i].mounts != "" {
        return true;
      }
    }
    mounted := false;
  }

  /** The checks up to opening the drive. */
  method Prepare(c: Copier, image: string, device: string, expectedDrive: string, expectedImage: string, env: Environment)
    returns (st: Option<Stat>)
    modifies c`log
    ensures st.Some? <==> MayWrite(image, device, expectedDrive, expectedImage, env)
    ensures st.Some? ==> st == OpenImage(image, env.iso)
    ensures c.log == old(c.log) || c.log == old(c.log) + [Status(Unmounting())] + Others(env.unmountOutput)
  {
    hide Confirms, NoMounts;
    if !env.root {
      return None;
    }
    st := OpenImage(image, env.iso);
    if st.None? {
      return None;
    }
    if st.value.identity != expectedImage {
      return None;
    }
    if env.firstScan.None? {
      return None;
    }
    var disk := Confirm(env.firstScan.value, device, expectedDrive, image, st.value);
    if disk < 0 {
      return None;
    }
    c.Print(Status(Unmounting()));
    c.Overhear(env.unmountOutput);
    if !env.unmounts || env.stopAfterUnmount {
      return None;
    }
    if env.secondScan.None? {
      return None;
    }
    disk := Confirm(env.secondScan.value, device, expectedDrive, image, st.value);
    if disk < 0 {
      return None;
    }
    var mounted := StillMounted(env.secondScan.value, disk);
    if mounted {
      return None;
    }
    if !env.driveOpens {
      return None;
    }
  }

  /**
   `write_image`: the drive is touched only when the second scan shows the confirmed drive, eligible and without
   mounts on anything stacked on it; success means that the whole image is on the drive and flushed, and that the
   image is still the one that was chosen.
   */
  method WriteImage(c: Copier, image: string, device: string, expectedDrive: string, expectedImage: string, env: Environment)
    returns (result: nat, ghost started: bool, ghost committed: nat)
    requires c.inOffset == c.outOffset == 0 && c.log == []
    modifies c
    ensures started <==> MayWrite(image, device, expectedDrive, expectedImage, env)
    ensures !started ==> c.drive == old(c.drive) && c.durable == old(c.durable) && Values(c.log) == [] && result != 0
    ensures started ==>
              && Values(c.log) != [] && Rising(Values(c.log), OpenImage(image, env.iso).value.size)
              && Values(c.log)[|Values(c.log)| - 1] == committed && c.Committed(committed)
    ensures result == 0 <==> started && committed == OpenImage(image, env.iso).value.size
                             && env.finalIdentity == Some(expectedImage) && env.closes
    ensures result == 0 <==> Finished in c.log
    ensures AllFromHelper(c.log, if env.iso.Some? then env.iso.value.size else 0, env.error)
    ensures result != 0 ==> c.log != [] && c.log[|c.log| - 1] == Failure(env.error)
  {
    hide MayWrite, Rising, Logged, AllFromHelper, Values, Unmounting, Writing;
    committed := 0;
    var st := Prepare(c, image, device, expectedDrive, expectedImage, env);
    started := st.Some?;
    ghost var before, size := c.log, if env.iso.Some? then env.iso.value.size else 0;
    StatusOnly(c.log, env.unmountOutput, size, env.error);
    if st.None? {
      c.Print(Failure(env.error));
      OneMoreLine(before, Failure(env.error), size, env.error);
      return 1, started, committed;
    }
    var ok;
    ok, committed := c.RunDd(st.value.size, env.batches);
    RunValues(before, c.log, committed, size);
    RunMessages(before, c.log, committed, size, env.error);
    ghost var after := c.log;
    if ok && env.finalIdentity == Some(expectedImage) && env.closes {
      c.Print(Finished);
      OneMoreLine(after, Finished, size, env.error);
      return 0, started, committed;
    }
    c.Print(Failure(env.error));
    OneMoreLine(after, Failure(env.error), size, env.error);
    return 1, started, committed;
  }

  lemma StatusOnly(log: seq<Message>, lines: seq<Bytes>, size: nat, error: Bytes)
    requires log == [] || log == [] + [Status(Unmounting())] + Others(lines)
    ensures Values(log) == [] && Finished !in log && AllFromHelper(log, size, error)
  {
    hide Unmounting;
    ValuesAdd([], Status(Unmounting()));
    OthersHaveNoValues([] + [Status(Unmounting())], lines);
  }

  lemma RunValues(before: seq<Message>, log: seq<Message>, committed: nat, size: nat)
    requires Logged(before, log, committed, size) && Values(before) == []
    ensures Values(log) != [] && Rising(Values(log), size) && Values(log)[|Values(log)| - 1] == committed
  {
    hide Rising, Values, Writing;
    var added := log[|before|..];
    assert log == before + added;
    ValuesOfBoth(before, added);
    assert [] + Values(added) == Values(added);
  }

  lemma RunMessages(before: seq<Message>, log: seq<Message>, committed: nat, size: nat, error: Bytes)
    requires Logged(before, log, committed, size) && AllFromHelper(before, size, error) && Finished !in before
    ensures AllFromHelper(log, size, error) && Finished !in log
  {
    hide Values, Unmounting, Writing;
    var added := log[|before|..];
    assert log == before + added;
    forall m | m in added ensures FromHelper(m, size, error) && m != Finished {
      if m.Progress? {
        ProgressIsAValue(added, m);
      }
    }
  }

  lemma {:induction false} ValuesOfBoth(a: seq<Message>, b: seq<Message>)
    ensures Values(a + b) == Values(a) + Values(b)
  {
    if b == [] {
      assert a + b == a;
    } else {
      var head, m := b[..|b| - 1], b[|b| - 1];
      ValuesOfBoth(a, head);
      assert a + b == (a + head) + [m];
      ValuesAdd(a + head, m);
    }
  }

  lemma {:induction false} ProgressIsAValue(log: seq<Message>, m: Message)
    requires m in log && m.Progress?
    ensures exists i :: 0 <= i < |Values(log)| && Values(log)[i] == m.n
  {
    var head, last := log[..|log| - 1], log[|log| - 1];
    if last == m {
      assert Values(log)[|Values(log)| - 1] == m.n;
    } else {
      assert log == head + [last];
      ProgressIsAValue(head, m);
      var i :| 0 <= i < |Values(head)| && Values(head)[i] == m.n;
      assert Values(log)[i] == m.n;
    }
  }

  lemma HelperIsSendable(m: Message, size: nat, error: Bytes)
    requires FromHelper(m, size, error) && size <= NUMBER_MAX && OneLine(Text(Failure(error)))
    requires m.Other? ==> Sendable(m)
    ensures Sendable(m)
  {
    hide Ascii, Unmounting, Writing, OneLine;
    StatusLinesAreSendable();
    DoneIsSendable();
    if m.Progress? {
      ProgressIsSendable(m.n);
    }
  }

  lemma StatusLinesAreSendable()
    ensures Sendable(Status(Unmounting())) && Sendable(Status(Writing()))
  {
    hide Ascii, Sendable;
    PlainStatus("Unmounting selected drive...");
    PlainStatus("Writing and syncing drive...");
  }

  lemma DoneIsSendable()
    ensures Sendable(Finished)
  {
    hide Ascii;
    PlainText("DONE");
  }

  lemma PlainStatus(text: string)
    requires |text| < 100 && forall c :: c in text ==> ' ' <= c <= '~'
    ensures Sendable(Status(Ascii(text)))
  {
    hide Ascii;
    PlainText(text);
    PlainText("STATUS ");
  }

  lemma PlainText(text: string)
    requires forall c :: c in text ==> ' ' <= c <= '~'
    ensures forall b :: b in Ascii(text) ==> 32 <= b < 127
  {
    forall b | b in Ascii(text) ensures 32 <= b < 127 {
      var i :| 0 <= i < |text| && Ascii(text)[i] == b;
      assert text[i] in text;
    }
  }

  /** A program other than the helper has complained. */
  ghost predicate Complaint(log: seq<Message>) {
    exists m :: m in log && m.Other? && Complains(m.text)
  }

  lemma {:induction false} FailureIsNoticed(r: Reader, log: seq<Message>, size: nat, error: Bytes)
    requires AllFromHelper(log, size, error)
    ensures EffectAll(r, log).failed <==> r.failed || Failure(error) in log || Complaint(log)
  {
    hide Copied, Ascii, Complains, Writing, Unmounting;
    if log != [] {
      var head, last := log[..|log| - 1], log[|log| - 1];
      assert log == head + [last];
      FailureIsNoticed(r, head, size, error);
      assert FromHelper(last, size, error);
      assert Complaint(log) <==> Complaint(head) || (last.Other? && Complains(last.text));
    }
  }

  /**
   Whatever the reads its output is split into, lines of other programs included, the program that shows the
   progress ends with the last value the helper printed, done when it succeeded, and failed when it reported an
   error or one of the programs it ran complained.
   */
  lemma RunIsShown(log: seq<Message>, size: nat, error: Bytes, chunks: seq<Bytes>)
    requires AllFromHelper(log, size, error) && forall m :: m in log && m.Other? ==> Sendable(m)
    requires size <= NUMBER_MAX && OneLine(Text(Failure(error))) && Reads.Joined(chunks) == Transcript(log)
    ensures var r := Reads.AfterAll(ReadStep, Reader([], 0, false, false, []), chunks);
            && r.written == LastOr(Values(log), 0)
            && (r.done <==> Finished in log)
            && (r.failed <==> Failure(error) in log || Complaint(log))
  {
    hide ReadStep, FromHelper, Sendable, OneLine, Text, Complaint;
    forall i | 0 <= i < |log| ensures Sendable(log[i]) {
      assert log[i] in log;
      HelperIsSendable(log[i], size, error);
    }
    var start := Reader([], 0, false, false, []);
    Reads.SplittingDoesNotMatter(ReadStep, start, chunks);
    TranscriptIsRead(start, log);
    EffectsOf(start, log);
    FailureIsNoticed(start, log, size, error);
  }

  /** The image must be named as one, in letters of either case. */
  lemma IsIsoIff(path: string)
    ensures IsIso(path) <==>
              |path| >= 4 && path[|path| - 4..] in {".iso", ".isO", ".iSo", ".iSO", ".Iso", ".IsO", ".ISo", ".ISO"}
  {
    if |path| >= 4 {
      var end := path[|path| - 4..];
      assert end == [end[0], end[1], end[2], end[3]];
      assert forall k :: 0 <= k < 4 ==> end[k] == path[|path| - 4 + k];
    }
  }

  /** It is opened exactly when it is a regular file of whole sectors, and not empty. */
  lemma OpenImageIff(path: string, file: Option<Stat>)
    ensures OpenImage(path, file).Some? <==>
              IsIso(path) && file.Some? && file.value.regular && file.value.size >= SECTOR && file.value.size % SECTOR == 0
    ensures OpenImage(path, file).Some? ==> OpenImage(path, file) == file
  {
    hide IsIso;
  }
}
