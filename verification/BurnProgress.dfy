/**
 Writing an image in batches, each copied by `dd` and flushed before its end is
 reported, and the lines that carry the progress to the program that shows it.
 */
module BurnProgress {
  import opened ByteText
  import Levels
  import opened Reads
  import opened Utf8

  const SECTOR: nat := 2048
  const SYNC_BYTES: nat := 16 * 1024 * 1024
  const LINE_SIZE: nat := 1024
  const MESSAGE_SIZE: nat := 512
  const NUMBER_MAX: nat := 0xffff_ffff_ffff_ffff

  /** A line of the helper's output; `Other` is what `dd` or `sudo` print themselves. */
  datatype Message = Status(text: Bytes) | Progress(n: nat) | Failure(text: Bytes) | Finished | Other(text: Bytes)

  // ----- copying in batches -----

  /** What a run of `dd` and the flush after it do, and the lines `dd` prints itself, as the environment decides. */
  datatype Batch = Batch(stopBefore: bool, ddOk: bool, stopDuring: bool, taken: nat, put: nat, chatter: seq<Bytes>,
                         flushOk: bool, stopAfter: bool)

  /** A batch in which nothing goes wrong: all that was asked for is copied and flushed. */
  predicate Works(b: Batch) {
    !b.stopBefore && b.ddOk && !b.stopDuring && b.taken >= SYNC_BYTES && b.put >= SYNC_BYTES && b.flushOk && !b.stopAfter
  }

  function Least(a: nat, b: nat): (r: nat)
    ensures r <= a && r <= b && (r == a || r == b)
  {
    if a < b then a else b
  }

  /** The progress values among messages, in order. */
  function Values(log: seq<Message>): (r: seq<nat>) {
    if log == [] then []
    else Values(log[..|log| - 1]) + if log[|log| - 1].Progress? then [log[|log| - 1].n] else []
  }

  /** Every value is a whole number of sectors, larger than the one before by at most a batch, and no larger than the size. */
  ghost predicate Rising(values: seq<nat>, size: nat) {
    && (forall i :: 0 <= i < |values| ==> values[i] % SECTOR == 0 && values[i] <= size)
    && (forall i, j :: 0 <= i < j < |values| ==> values[i] < values[j])
    && forall i :: 0 < i < |values| ==> values[i] - values[i - 1] <= SYNC_BYTES
  }

  lemma ValuesAdd(log: seq<Message>, m: Message)
    ensures Values(log + [m]) == Values(log) + if m.Progress? then [m.n] else []
  {
    assert (log + [m])[..|log|] == log;
  }

  /** Lines that other programs print into the same pipe. */
  function Others(lines: seq<Bytes>): (r: seq<Message>)
    ensures |r| == |lines| && forall i :: 0 <= i < |r| ==> r[i] == Other(lines[i])
  {
    seq(|lines|, i requires 0 <= i < |lines| => Other(lines[i]))
  }

  lemma {:induction false} OthersHaveNoValues(log: seq<Message>, lines: seq<Bytes>)
    ensures Values(log + Others(lines)) == Values(log)
    decreases |lines|
  {
    if lines == [] {
      assert log + Others(lines) == log;
    } else {
      var init, last := lines[..|lines| - 1], lines[|lines| - 1];
      OthersHaveNoValues(log, init);
      assert log + Others(lines) == (log + Others(init)) + [Other(last)];
      ValuesAdd(log + Others(init), Other(last));
      assert Values(log) + [] == Values(log);
    }
  }

  function Writing(): (r: Bytes) {
    Ascii("Writing and syncing drive...")
  }

  /** What a run has added to the log so far. */
  ghost predicate Logged(before: seq<Message>, log: seq<Message>, committed: nat, size: nat) {
    && before <= log
    && var added := log[|before|..];
       var values := Values(added);
       && values != [] && values[0] == 0 && values[|values| - 1] == committed && Rising(values, size)
       && forall m :: m in added ==> m.Progress? || m.Other? || m == Status(Writing())
  }

  lemma StartsAtZero(before: seq<Message>, size: nat)
    ensures Logged(before, before + [Status(Writing())] + [Progress(0)], 0, size)
  {
    var status := Status(Writing());
    var log := before + [status] + [Progress(0)];
    assert log[|before|..] == [status] + [Progress(0)];
    ValuesAdd([], status);
    ValuesAdd([status], Progress(0));
    assert [] + [status] == [status];
  }

  lemma LoggedMore(before: seq<Message>, log: seq<Message>, committed: nat, end: nat, size: nat)
    requires Logged(before, log, committed, size) && committed < end <= size && end % SECTOR == 0
    requires end - committed <= SYNC_BYTES
    ensures Logged(before, log + [Progress(end)], end, size)
  {
    var added := log[|before|..];
    assert (log + [Progress(end)])[|before|..] == added + [Progress(end)];
    ValuesAdd(added, Progress(end));
  }

  lemma LoggedOthers(before: seq<Message>, log: seq<Message>, committed: nat, size: nat, lines: seq<Bytes>)
    requires Logged(before, log, committed, size)
    ensures Logged(before, log + Others(lines), committed, size)
  {
    hide Rising, Writing;
    var added := log[|before|..];
    assert (log + Others(lines))[|before|..] == added + Others(lines);
    OthersHaveNoValues(added, lines);
  }

  /** The image, the drive, and the two offsets that all runs of `dd` share. */
  class Copier {
    const image: Bytes
    var drive: Bytes
    var inOffset: nat
    var outOffset: nat
    var log: seq<Message>
    /** What the drive held when it was last flushed. */
    ghost var durable: Bytes

    constructor (image: Bytes, drive: Bytes)
      ensures this.image == image && this.drive == drive && durable == drive && inOffset == outOffset == 0 && log == []
    {
      this.image, this.drive, durable, inOffset, outOffset, log := image, drive, drive, 0, 0, [];
    }

    /** A prefix of the image was copied to the drive and flushed. */
    ghost predicate Committed(n: nat)
      reads this
    {
      Holds(durable, n)
    }

    /** The content begins with so many bytes of the image. */
    ghost predicate Holds(content: Bytes, n: nat) {
      n <= |image| && n <= |content| && content[..n] == image[..n]
    }

    lemma HoldsNothing(content: Bytes)
      ensures Holds(content, 0)
    {
    }

    lemma HoldsLess(content: Bytes, n: nat, v: nat)
      requires Holds(content, n) && v <= n
      ensures Holds(content, v)
    {
      assert content[..v] == content[..n][..v] && image[..v] == image[..n][..v];
    }

    /** A batch written behind a copied prefix makes the prefix longer. */
    lemma HoldsMore(was: Bytes, now: Bytes, n: nat, end: nat)
      requires Holds(was, n) && Wrote(was, now, n, n, end - n) && n <= end
      ensures Holds(now, end)
    {
      assert now[..end] == now[..n] + now[n..end];
      assert image[..end] == image[..n] + image[n..end];
    }

    /** The content changed only where a stretch of the image was written. */
    ghost predicate Wrote(was: Bytes, now: Bytes, at: nat, from: nat, length: int) {
      && 0 <= length && |now| == |was| && at + length <= |was| && from + length <= |image|
      && now[..at] == was[..at] && now[at + length..] == was[at + length..]
      && now[at..at + length] == image[from..from + length]
    }

    /** Print a line; a progress line may only name a prefix already copied and flushed. */
    method Print(m: Message)
      requires m.Progress? ==> Committed(m.n)
      modifies this`log
      ensures log == old(log) + [m]
    {
      log := log + [m];
    }

    /** Another program prints into the same pipe. */
    method Overhear(lines: seq<Bytes>)
      modifies this`log
      ensures log == old(log) + Others(lines)
    {
      log := log + Others(lines);
    }

    /**
     `dd_batch`: copy at most so many whole sectors from where the last batch ended; it may stop short, or
     read more than it writes.
     */
    method DdBatch(size: nat, b: Batch) returns (ok: bool)
      requires inOffset <= |image| && outOffset <= |drive|
      modifies this`drive, this`inOffset, this`outOffset, this`log
      ensures log == old(log) + Others(b.chatter)
      ensures inOffset <= |image| && outOffset <= |drive|
      ensures Wrote(old(drive), drive, old(outOffset), old(inOffset), outOffset - old(outOffset))
      ensures inOffset - old(inOffset) == Least(Least(b.taken, size / SECTOR * SECTOR), |image| - old(inOffset))
      ensures outOffset - old(outOffset) == Least(Least(b.put, inOffset - old(inOffset)), |drive| - old(outOffset))
      ensures ok <==> b.ddOk && !b.stopDuring
    {
      var count := size / SECTOR;
      var taken := Least(Least(b.taken, count * SECTOR), |image| - inOffset);
      var put := Least(Least(b.put, taken), |drive| - outOffset);
      drive := drive[..outOffset] + image[inOffset..inOffset + put] + drive[outOffset + put..];
      inOffset := inOffset + taken;
      outOffset := outOffset + put;
      log := log + Others(b.chatter);
      ok := b.ddOk && !b.stopDuring;
    }

    /** Every value printed by a run that has come so far names a prefix copied and flushed. */
    lemma EveryValueIsCommitted(before: seq<Message>, committed: nat, size: nat, i: nat)
      requires Logged(before, log, committed, size) && Committed(committed) && i < |Values(log[|before|..])|
      ensures Committed(Values(log[|before|..])[i])
    {
      var values := Values(log[|before|..]);
      assert values[i] <= committed;
      HoldsLess(durable, committed, values[i]);
    }

    /** `platform_flush`. */
    method Flush(ok: bool)
      modifies this`durable
      ensures durable == if ok then drive else old(durable)
    {
      if ok {
        durable := drive;
      }
    }

    /**
     `run_dd`: every value printed is a multiple of the sector size, larger than the last, at most the size, and
     names a prefix copied and flushed; success means that the whole image is.
     */
    method RunDd(size: nat, env: nat -> Batch) returns (ok: bool, ghost committed: nat)
      requires size > 0 && size % SECTOR == 0 && inOffset == 0 && outOffset == 0
      modifies this`drive, this`inOffset, this`outOffset, this`log, this`durable
      ensures |drive| == |old(drive)|
      ensures Logged(old(log), log, committed, size) && Committed(committed)
      ensures ok <==> committed == size
      ensures size <= |image| && size <= |drive| && (forall i :: Works(env(i))) ==> ok
    {
      hide Logged, Holds, Wrote, Writing;
      ghost var before := log;
      var written := 0;
      committed := 0;
      Print(Status(Writing()));
      HoldsNothing(durable);
      HoldsNothing(drive);
      Print(Progress(0));
      StartsAtZero(before, size);
      var i := 0;
      while written < size
        invariant committed == written <= size && committed % SECTOR == 0
        invariant inOffset == outOffset == committed <= |image| && committed <= |drive|
        invariant Holds(drive, committed) && Holds(durable, committed)
        invariant |drive| == |old(drive)|
        invariant Logged(before, log, committed, size)
        decreases size - committed
      {
        if env(i).stopBefore {
          return false, committed;
        }
        var batch := size - written;
        if batch > SYNC_BYTES {
          batch := SYNC_BYTES;
        }
        ghost var was, logWas := drive, log;
        var copied := DdBatch(batch, env(i));
        LoggedOthers(before, logWas, committed, size, env(i).chatter);
        if !copied {
          return false, committed;
        }
        var end := written + batch;
        if inOffset != end || outOffset != end {
          return false, committed;
        }
        HoldsMore(was, drive, committed, end);
        HoldsLess(drive, end, committed);
        Flush(env(i).flushOk);
        if !env(i).flushOk {
          return false, committed;
        }
        if env(i).stopAfter {
          return false, committed;
        }
        LoggedMore(before, log, committed, end, size);
        written, committed := end, end;
        Print(Progress(written));
        i := i + 1;
      }
      ok := true;
    }
  }

  // ----- numbers in text -----

  function DigitValue(b: Byte): (r: nat)
    requires Digit(b)
  {
    b as int - 48
  }

  /** A number as `printf` writes it. */
  function Decimal(n: nat): (r: Bytes)
    ensures r != [] && forall i :: 0 <= i < |r| ==> Digit(r[i])
  {
    if n < 10 then [48 + n] else Decimal(n / 10) + [48 + n % 10]
  }

  function Value(digits: Bytes): (r: nat)
    requires forall i :: 0 <= i < |digits| ==> Digit(digits[i])
  {
    if digits == [] then 0 else Value(digits[..|digits| - 1]) * 10 + DigitValue(digits[|digits| - 1])
  }

  function DigitRun(text: Bytes, i: nat): (r: nat)
    requires i <= |text|
    ensures i <= r <= |text| && forall k :: i <= k < r ==> Digit(text[k])
    ensures r < |text| ==> !Digit(text[r])
    decreases |text| - i
  {
    if i < |text| && Digit(text[i]) then DigitRun(text, i + 1) else i
  }

  /** `strtoull` in base 10: spaces, a sign, digits; the value stops at the largest 64-bit number. */
  function Number(text: Bytes): (r: nat)
    ensures r <= NUMBER_MAX
  {
    var t := TrimLeft(text);
    var negative := t != [] && t[0] == 45;
    var u := if t != [] && (t[0] == 45 || t[0] == 43) then t[1..] else t;
    var v := Value(u[..DigitRun(u, 0)]);
    if v > NUMBER_MAX then NUMBER_MAX
    else if negative then (if v == 0 then 0 else NUMBER_MAX + 1 - v)
    else v
  }

  lemma {:induction false} ValueOfDecimal(n: nat)
    ensures Value(Decimal(n)) == n
    decreases n
  {
    if n >= 10 {
      ValueOfDecimal(n / 10);
      assert Decimal(n)[..|Decimal(n)| - 1] == Decimal(n / 10);
    } else {
      assert [48 + n][..0] == [];
    }
  }

  /** A printed number reads back as itself. */
  lemma NumberOfDecimal(n: nat)
    requires n <= NUMBER_MAX
    ensures Number(Decimal(n)) == n
  {
    var d := Decimal(n);
    assert Digit(d[0]);
    assert TrimLeft(d) == d;
    assert DigitRun(d, 0) == |d|;
    assert d[..|d|] == d;
    ValueOfDecimal(n);
  }

  // ----- the program that shows the progress -----

  /** The line being read, and what the lines so far have told. */
  datatype Reader = Reader(line: Bytes, written: nat, done: bool, failed: bool, message: Bytes)

  /** A C string ends at the first NUL. */
  function UpToNul(text: Bytes): (r: Bytes)
    ensures 0 !in text ==> r == text
  {
    if text == [] then []
    else if text[0] == 0 then []
    else [text[0]] + UpToNul(text[1..])
  }

  predicate Complains(line: Bytes) {
    Contains(line, Ascii("dd:")) || Contains(line, Ascii("sudo:"))
  }

  function HandleLine(r: Reader, whole: Bytes): (now: Reader) {
    var line := UpToNul(whole);
    if Ascii("PROGRESS ") <= line then r.(written := Number(line[9..]))
    else if Ascii("STATUS ") <= line then r.(message := Copied(line[7..], MESSAGE_SIZE))
    else if Ascii("ERROR ") <= line then r.(message := Copied(line[6..], MESSAGE_SIZE), failed := true)
    else if line == Ascii("DONE") then r.(done := true)
    else if Complains(line) then r.(message := Copied(line, MESSAGE_SIZE), failed := true)
    else r
  }

  function ReadStep(r: Reader, b: Byte): (now: Reader) {
    if b == 10 || b == 13 then HandleLine(r, r.line).(line := [])
    else if |r.line| < LINE_SIZE - 1 then r.(line := r.line + [b])
    else r
  }

  class ProgressReader {
    var line: array<Byte>
    var used: nat
    var written: nat
    var done: bool
    var failed: bool
    var message: Bytes

    ghost predicate Valid()
      reads this
    {
      line.Length == LINE_SIZE && used < LINE_SIZE
    }

    ghost function State(): (r: Reader)
      reads this, line
      requires Valid()
    {
      Reader(line[..used], written, done, failed, message)
    }

    constructor ()
      ensures Valid() && fresh(line) && State() == Reader([], 0, false, false, [])
    {
      line := new Byte[LINE_SIZE](_ => 0);
      used, written, done, failed, message := 0, 0, false, false, [];
    }

    /** One byte of the output. */
    method TakeByte(b: Byte)
      requires Valid()
      modifies this, line
      ensures Valid() && line == old(line)
      ensures State() == ReadStep(old(State()), b)
    {
      hide UpToNul, Ascii, Complains, Number, Copied;
      if b == 10 || b == 13 {
        var text := UpToNul(line[..used]);
        line[used] := 0;
        if Ascii("PROGRESS ") <= text {
          written := Number(text[9..]);
        } else if Ascii("STATUS ") <= text {
          message := Copied(text[7..], MESSAGE_SIZE);
        } else if Ascii("ERROR ") <= text {
          message := Copied(text[6..], MESSAGE_SIZE);
          failed := true;
        } else if text == Ascii("DONE") {
          done := true;
        } else if Complains(text) {
          message := Copied(text, MESSAGE_SIZE);
          failed := true;
        }
        used := 0;
      } else if used < LINE_SIZE - 1 {
        line[used] := b;
        used := used + 1;
      }
    }

    /** `read_progress`: whatever has arrived, in reads of any size. */
    method ReadProgress(chunks: seq<Bytes>)
      requires Valid()
      modifies this, line
      ensures Valid() && line == old(line)
      ensures State() == After(ReadStep, old(State()), Joined(chunks), |Joined(chunks)|)
    {
      hide ReadStep;
      ghost var was, buffer := State(), line;
      for i := 0 to |chunks|
        invariant Valid() && line == buffer
        invariant AfterAll(ReadStep, State(), chunks[i..]) == AfterAll(ReadStep, was, chunks)
      {
        ghost var from := State();
        for k := 0 to |chunks[i]|
          invariant Valid() && line == buffer
          invariant State() == After(ReadStep, from, chunks[i], k)
        {
          TakeByte(chunks[i][k]);
        }
        assert chunks[i..][0] == chunks[i] && chunks[i..][1..] == chunks[i + 1..];
      }
      SplittingDoesNotMatter(ReadStep, was, chunks);
    }
  }

  // ----- what the shown progress says about the run -----

  /** A message as a line of output. */
  function Text(m: Message): (r: Bytes) {
    match m
    case Status(text) => Ascii("STATUS ") + text
    case Progress(n) => Ascii("PROGRESS ") + Decimal(n)
    case Failure(text) => Ascii("ERROR ") + text
    case Finished => Ascii("DONE")
    case Other(text) => text
  }

  predicate OneLine(text: Bytes) {
    0 !in text && 10 !in text && 13 !in text && |text| < LINE_SIZE
  }

  /** A message of one line, short enough to be read whole; output of other programs does not look like the helper's. */
  predicate Sendable(m: Message) {
    && OneLine(Text(m))
    && (m.Progress? ==> m.n <= NUMBER_MAX)
    && (m.Other? ==> !(Ascii("PROGRESS ") <= m.text) && !(Ascii("STATUS ") <= m.text) && !(Ascii("ERROR ") <= m.text)
                     && m.text != Ascii("DONE"))
  }

  function Power(k: nat): (r: nat) {
    if k == 0 then 1 else 10 * Power(k - 1)
  }

  lemma {:induction false} DecimalLength(n: nat, k: nat)
    requires k >= 1 && n < Power(k)
    ensures |Decimal(n)| <= k
    decreases k
  {
    if k > 1 && n >= 10 {
      DecimalLength(n / 10, k - 1);
    } else if k == 1 {
      assert Power(1) == 10 * Power(0);
    }
  }

  lemma TwentyDigits()
    ensures NUMBER_MAX < Power(20)
  {
    assert Power(5) == 100000;
    assert Power(10) == 10000000000;
    assert Power(15) == 1000000000000000;
    assert Power(20) == 100000000000000000000;
  }

  /** Every progress line of a 64-bit value is short enough to be read. */
  lemma ProgressIsSendable(n: nat)
    requires n <= NUMBER_MAX
    ensures Sendable(Progress(n))
  {
    TwentyDigits();
    DecimalLength(n, 20);
    var text := Text(Progress(n));
    forall i | 0 <= i < |text| ensures text[i] != 0 && text[i] != 10 && text[i] != 13 {
      if i >= 9 {
        assert text[i] == Decimal(n)[i - 9] && Digit(Decimal(n)[i - 9]);
      }
    }
  }

  /** What a message means to the reader. */
  function Effect(r: Reader, m: Message): (now: Reader) {
    match m
    case Status(text) => r.(message := Copied(text, MESSAGE_SIZE))
    case Progress(n) => r.(written := n)
    case Failure(text) => r.(message := Copied(text, MESSAGE_SIZE), failed := true)
    case Finished => r.(done := true)
    case Other(text) => if Complains(text) then r.(message := Copied(text, MESSAGE_SIZE), failed := true) else r
  }

  function EffectAll(r: Reader, log: seq<Message>): (now: Reader) {
    if log == [] then r else Effect(EffectAll(r, log[..|log| - 1]), log[|log| - 1])
  }

  /** The output of the helper. */
  function Transcript(log: seq<Message>): (r: Bytes) {
    if log == [] then [] else Transcript(log[..|log| - 1]) + (Text(log[|log| - 1]) + [10])
  }

  lemma {:induction false} LineCollects(r: Reader, text: Bytes, i: nat)
    requires r.line == [] && OneLine(text) && i <= |text|
    ensures After(ReadStep, r, text + [10], i) == r.(line := text[..i])
  {
    hide HandleLine;
    if i == 0 {
      assert text[..0] == [];
    } else {
      LineCollects(r, text, i - 1);
      assert (text + [10])[i - 1] == text[i - 1];
      assert text[i - 1] in text;
      assert text[..i - 1] + [text[i - 1]] == text[..i];
    }
  }

  lemma Keywords()
    ensures Ascii("PROGRESS ")[0] == 80 && Ascii("STATUS ")[0] == 83 && Ascii("ERROR ")[0] == 69 && Ascii("DONE")[0] == 68
  {
  }

  lemma TextIsHandled(r: Reader, m: Message)
    requires Sendable(m)
    ensures HandleLine(r, Text(m)) == Effect(r, m)
  {
    hide Ascii, Complains, Number, Copied, UpToNul;
    Keywords();
    var line := Text(m);
    match m
    case Status(text) => assert line[0] == 83 && line[7..] == text;
    case Progress(n) =>
      assert line[0] == 80 && line[9..] == Decimal(n);
      NumberOfDecimal(n);
    case Failure(text) => assert line[0] == 69 && line[6..] == text;
    case Finished => assert line[0] == 68;
    case Other(text) =>
  }

  lemma MessageIsRead(r: Reader, m: Message)
    requires r.line == [] && Sendable(m)
    ensures After(ReadStep, r, Text(m) + [10], |Text(m)| + 1) == Effect(r, m)
  {
    hide HandleLine, Text;
    var text := Text(m);
    LineCollects(r, text, |text|);
    assert text[..|text|] == text && (text + [10])[|text|] == 10;
    TextIsHandled(r.(line := text), m);
    SameEffect(r, text, m);
  }

  lemma SameEffect(r: Reader, text: Bytes, m: Message)
    requires r.line == []
    ensures Effect(r.(line := text), m).(line := []) == Effect(r, m) && Effect(r, m).line == []
  {
  }

  lemma {:induction false} TranscriptIsRead(r: Reader, log: seq<Message>)
    requires r.line == [] && forall i :: 0 <= i < |log| ==> Sendable(log[i])
    ensures After(ReadStep, r, Transcript(log), |Transcript(log)|) == EffectAll(r, log)
    ensures EffectAll(r, log).line == []
  {
    hide ReadStep, Effect, Sendable, Text;
    if log != [] {
      var head, m := log[..|log| - 1], log[|log| - 1];
      TranscriptIsRead(r, head);
      AfterBoth(ReadStep, r, Transcript(head), Text(m) + [10], |Text(m)| + 1);
      MessageIsRead(EffectAll(r, head), m);
      SameEffect(EffectAll(r, head), [], m);
    }
  }

  function LastOr(values: seq<nat>, none: nat): (r: nat) {
    if values == [] then none else values[|values| - 1]
  }

  lemma {:induction false} EffectsOf(r: Reader, log: seq<Message>)
    ensures EffectAll(r, log).written == LastOr(Values(log), r.written)
    ensures EffectAll(r, log).done <==> r.done || Finished in log
  {
    hide Effect;
    if log != [] {
      var head, m := log[..|log| - 1], log[|log| - 1];
      EffectsOf(r, head);
      EffectOf(EffectAll(r, head), m);
      assert log == head + [m];
      if m.Progress? {
        assert Values(log) == Values(head) + [m.n];
      } else {
        assert Values(log) == Values(head);
      }
    }
  }

  lemma EffectOf(r: Reader, m: Message)
    ensures Effect(r, m).written == if m.Progress? then m.n else r.written
    ensures Effect(r, m).done <==> r.done || m == Finished
  {
  }

  /**
   The reader recovers the last value printed, and learns of the end, whatever the reads its output was split
   into.
   */
  lemma LastValueIsRecovered(chunks: seq<Bytes>, log: seq<Message>)
    requires Joined(chunks) == Transcript(log) && forall i :: 0 <= i < |log| ==> Sendable(log[i])
    ensures var r := AfterAll(ReadStep, Reader([], 0, false, false, []), chunks);
            r.written == LastOr(Values(log), 0) && (r.done <==> Finished in log) && r.line == []
  {
    var start := Reader([], 0, false, false, []);
    SplittingDoesNotMatter(ReadStep, start, chunks);
    TranscriptIsRead(start, log);
    EffectsOf(start, log);
  }

  // ----- the percentage -----

  /** `progress_percent`, with the quotient taken exactly. */
  function Percent(committed: nat, size: nat, done: bool): (r: nat) {
    if done then 100
    else if size == 0 then 0
    else if committed >= size then 99
    else
      var percent := 100 * committed / size;
      if percent < 100 then percent else 99
  }

  /** 100 per cent is shown when, and only when, the helper has finished. */
  lemma HundredMeansDone(committed: nat, size: nat, done: bool)
    ensures Percent(committed, size, done) <= 100
    ensures Percent(committed, size, done) == 100 <==> done
  {
  }

  lemma PercentRises(a: nat, b: nat, size: nat, doneBefore: bool, doneAfter: bool)
    requires a <= b && (doneBefore ==> doneAfter)
    ensures Percent(a, size, doneBefore) <= Percent(b, size, doneAfter)
  {
    if !doneAfter && size > 0 && b < size {
      Levels.QuotientMonotone(100 * a, 100 * b, size);
    }
  }

  lemma {:induction false} ValuesOfPrefix(log: seq<Message>, i: nat)
    requires i <= |log|
    ensures Values(log[..i]) <= Values(log)
    decreases |log|
  {
    if i < |log| {
      assert log[..|log| - 1][..i] == log[..i];
      ValuesOfPrefix(log[..|log| - 1], i);
    } else {
      assert log[..i] == log;
    }
  }

  /** From one message of a run to a later one the percentage never decreases. */
  lemma MessagesNeverDecrease(log: seq<Message>, i: nat, j: nat, size: nat)
    requires i <= j <= |log| && Rising(Values(log), size)
    ensures var start := Reader([], 0, false, false, []);
            var before, after := EffectAll(start, log[..i]), EffectAll(start, log[..j]);
            Percent(before.written, size, before.done) <= Percent(after.written, size, after.done)
  {
    hide EffectAll, Percent, Values, Rising;
    var start := Reader([], 0, false, false, []);
    EffectsOf(start, log[..i]);
    EffectsOf(start, log[..j]);
    WrittenRises(log, i, j, size);
    assert log[..i] == log[..j][..i];
    PercentRises(EffectAll(start, log[..i]).written, EffectAll(start, log[..j]).written, size,
                 Finished in log[..i], Finished in log[..j]);
  }

  /** How many lines of the output end within its first `i` bytes. */
  function LinesIn(log: seq<Message>, i: nat): (n: nat)
    ensures n <= |log|
  {
    if log == [] then 0
    else
      var head := log[..|log| - 1];
      if i >= |Transcript(log)| then |log|
      else if i > |Transcript(head)| then |log| - 1
      else LinesIn(head, i)
  }

  lemma {:induction false} MoreLinesIn(log: seq<Message>, i: nat, j: nat)
    requires i <= j
    ensures LinesIn(log, i) <= LinesIn(log, j)
  {
    if log != [] {
      MoreLinesIn(log[..|log| - 1], i, j);
    }
  }

  /** Between the ends of lines the reader knows what the lines read whole have told it. */
  lemma {:induction false} PrefixIsRead(r: Reader, log: seq<Message>, i: nat)
    requires r.line == [] && i <= |Transcript(log)| && forall k :: 0 <= k < |log| ==> Sendable(log[k])
    ensures After(ReadStep, r, Transcript(log), i).(line := []) == EffectAll(r, log[..LinesIn(log, i)])
  {
    hide ReadStep, Effect, Sendable, Text;
    if i == |Transcript(log)| {
      assert LinesIn(log, i) == |log| && log[..|log|] == log;
      TranscriptIsRead(r, log);
    } else {
      var head, m := log[..|log| - 1], log[|log| - 1];
      var n := |Transcript(head)|;
      if i <= n {
        PrefixIsRead(r, head, i);
        AfterPrefix(ReadStep, r, Transcript(head), Text(m) + [10], i);
        if i == n {
          FullPrefix(head);
        }
        assert head[..LinesIn(head, i)] == log[..LinesIn(head, i)];
      } else {
        TranscriptIsRead(r, head);
        AfterBoth(ReadStep, r, Transcript(head), Text(m) + [10], i - n);
        InsideLine(EffectAll(r, head), m, i - n);
      }
    }
  }

  lemma FullPrefix(log: seq<Message>)
    ensures LinesIn(log, |Transcript(log)|) == |log|
  {
  }

  lemma InsideLine(r: Reader, m: Message, i: nat)
    requires r.line == [] && Sendable(m) && i <= |Text(m)|
    ensures After(ReadStep, r, Text(m) + [10], i) == r.(line := Text(m)[..i])
  {
    LineCollects(r, Text(m), i);
  }

  /** While the output of a run is read, byte by byte or in any pieces, the shown percentage never decreases. */
  lemma ShownNeverDecreases(log: seq<Message>, i: nat, j: nat, size: nat)
    requires i <= j <= |Transcript(log)| && Rising(Values(log), size) && forall k :: 0 <= k < |log| ==> Sendable(log[k])
    ensures var start := Reader([], 0, false, false, []);
            var r, s := After(ReadStep, start, Transcript(log), i), After(ReadStep, start, Transcript(log), j);
            Percent(r.written, size, r.done) <= Percent(s.written, size, s.done)
  {
    hide ReadStep, EffectAll, Percent, Values, Rising, Sendable, Transcript, LinesIn;
    var start := Reader([], 0, false, false, []);
    MoreLinesIn(log, i, j);
    PrefixIsRead(start, log, i);
    PrefixIsRead(start, log, j);
    MessagesNeverDecrease(log, LinesIn(log, i), LinesIn(log, j), size);
  }

  lemma WrittenRises(log: seq<Message>, i: nat, j: nat, size: nat)
    requires i <= j <= |log| && Rising(Values(log), size)
    ensures LastOr(Values(log[..i]), 0) <= LastOr(Values(log[..j]), 0)
  {
    hide Values;
    ValuesOfPrefix(log, j);
    assert log[..j][..i] == log[..i];
    ValuesOfPrefix(log[..j], i);
    var a, b := Values(log[..i]), Values(log[..j]);
    assert a <= b <= Values(log);
    if a != [] {
      assert a[|a| - 1] == Values(log)[|a| - 1] && b[|b| - 1] == Values(log)[|b| - 1];
    }
  }

  // ----- what the reader makes of lines that no helper wrote -----

  lemma {:induction false} UpToNulIs(text: Bytes)
    ensures var r := UpToNul(text); r <= text && 0 !in r && (|r| < |text| ==> text[|r|] == 0)
  {
    if text != [] && text[0] != 0 {
      UpToNulIs(text[1..]);
    }
  }

  /** A line complains when it speaks of `dd` or `sudo` anywhere. */
  lemma ComplainsIff(line: Bytes)
    ensures Complains(line) <==> exists k :: 0 <= k < |line| && (Ascii("dd:") <= line[k..] || Ascii("sudo:") <= line[k..])
  {
    ContainsIff(line, Ascii("dd:"));
    ContainsIff(line, Ascii("sudo:"));
  }

  lemma {:induction false} DigitRunIs(digits: Bytes, rest: Bytes, i: nat)
    requires i <= |digits| && (forall k :: 0 <= k < |digits| ==> Digit(digits[k])) && (rest == [] || !Digit(rest[0]))
    ensures DigitRun(digits + rest, i) == |digits|
    decreases |digits| - i
  {
    if i < |digits| {
      DigitRunIs(digits, rest, i + 1);
    }
  }

  lemma {:induction false} SpacesGo(spaces: Bytes, rest: Bytes)
    requires (forall k :: 0 <= k < |spaces| ==> Space(spaces[k])) && (rest == [] || !Space(rest[0]))
    ensures TrimLeft(spaces + rest) == rest
  {
    if spaces != [] {
      assert (spaces + rest)[1..] == spaces[1..] + rest;
      SpacesGo(spaces[1..], rest);
    } else {
      assert spaces + rest == rest;
    }
  }

  /** A number is read after white space and a sign, up to the first byte that is no digit; it saturates, and a minus wraps. */
  lemma NumberIs(spaces: Bytes, sign: Bytes, digits: Bytes, rest: Bytes)
    requires (forall k :: 0 <= k < |spaces| ==> Space(spaces[k])) && sign in [[], Ascii("+"), Ascii("-")]
    requires digits != [] && (forall k :: 0 <= k < |digits| ==> Digit(digits[k])) && (rest == [] || !Digit(rest[0]))
    ensures Number(spaces + (sign + (digits + rest)))
            == if Value(digits) > NUMBER_MAX then NUMBER_MAX
               else if sign == Ascii("-") && Value(digits) > 0 then NUMBER_MAX - (Value(digits) - 1)
               else Value(digits)
  {
    assert Ascii("+") == [43] && Ascii("-") == [45];
    var u := digits + rest;
    var t := sign + u;
    assert t[0] == if sign == [] then digits[0] else sign[0];
    SpacesGo(spaces, t);
    assert u == if sign == [] then t else t[1..];
    DigitRunIs(digits, rest, 0);
    assert u[..|digits|] == digits;
  }

  /** A line that says PROGRESS is read as a number whatever follows the word. */
  lemma ProgressLine(r: Reader, rest: Bytes)
    requires 0 !in rest
    ensures HandleLine(r, Ascii("PROGRESS ") + rest) == r.(written := Number(rest))
  {
    hide Number;
    var line := Ascii("PROGRESS ") + rest;
    Keywords();
    NoNul("PROGRESS ");
    assert UpToNul(line) == line && line[9..] == rest;
  }

  lemma NoNul(text: string)
    requires forall i :: 0 <= i < |text| ==> 0 as char < text[i] < 128 as char
    ensures 0 !in Ascii(text)
  {
  }

  /** A line longer than the buffer is cut off, and goes on being cut off until it ends. */
  lemma {:induction false} LongLine(r: Reader, text: Bytes, i: nat)
    requires r.line == [] && 10 !in text && 13 !in text && i <= |text|
    ensures After(ReadStep, r, text, i) == r.(line := text[..if i < LINE_SIZE then i else LINE_SIZE - 1])
  {
    hide HandleLine;
    if i > 0 {
      LongLine(r, text, i - 1);
      assert text[i - 1] in text;
      if i < LINE_SIZE {
        assert text[..i - 1] + [text[i - 1]] == text[..i];
      }
    }
  }

  /** A carriage return ends a line as a newline does. */
  lemma EitherEndsLine(r: Reader)
    ensures ReadStep(r, 13) == ReadStep(r, 10) && ReadStep(r, 10).line == []
  {
  }

  /** Until the helper is done the percentage is the whole part of the quotient, but never more than 99. */
  lemma PercentIs(committed: nat, size: nat)
    ensures size == 0 ==> Percent(committed, size, false) == 0
    ensures size > 0 ==>
              var r := Percent(committed, size, false);
              r <= 99 && r * size <= 100 * committed && (r < 99 ==> 100 * committed < (r + 1) * size)
  {
    if size > 0 {
      var q := 100 * committed / size;
      assert q * size <= 100 * committed < (q + 1) * size;
      if committed >= size {
        assert 99 * size <= 100 * committed;
      } else if q >= 100 {
        Levels.ProductMonotone(100, q, size);
      }
    }
  }
}
