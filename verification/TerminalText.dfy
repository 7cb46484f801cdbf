/**
 Terminal output with redraws taken out, twice: at once and in place for the
 output of a finished command, and byte by byte while a pairing is under way.
 Both come to the same lines.
 */
module TerminalText {
  import opened ByteText
  import opened Reads
  import opened Utf8

  const ESC: Byte := 0x1b
  const CR: Byte := 0x0d
  const LF: Byte := 0x0a

  datatype Escape = Plain | Started | Sequence

  function AfterEscape(escape: Escape, b: Byte): (r: Escape) {
    match escape
    case Plain => Plain
    case Started => if b == 0x5b then Sequence else Plain
    case Sequence => if 0x40 <= b <= 0x7e then Plain else Sequence
  }

  predicate Erases(b: Byte) {
    b == 0x08 || b == 0x7f
  }

  predicate Prints(b: Byte) {
    (b == 0x09 || b >= 0x20) && !Erases(b)
  }

  // ----- what the stripper has written after some bytes -----

  /** The finished lines, each with its newline, and the line being written. */
  datatype Strip = Strip(escape: Escape, done: Bytes, line: Bytes)

  function StripStep(s: Strip, b: Byte): (r: Strip) {
    if s.escape != Plain then s.(escape := AfterEscape(s.escape, b))
    else if b == ESC then s.(escape := Started)
    else if b == CR then (if s.line == [] then s else Strip(Plain, s.done + s.line + [LF], []))
    else if Erases(b) then (if s.line == [] then s else s.(line := s.line[..|s.line| - 1]))
    else if b == LF then Strip(Plain, s.done + s.line + [LF], [])
    else if Prints(b) then s.(line := s.line + [b])
    else s
  }

  function StripUpTo(text: Bytes, i: nat): (r: Strip)
    requires i <= |text|
    ensures |r.done| + |r.line| <= i
    ensures LF !in r.line
  {
    if i == 0 then Strip(Plain, [], []) else StripStep(StripUpTo(text, i - 1), text[i - 1])
  }

  function Stripped(text: Bytes): (r: Bytes)
    ensures |r| <= |text|
  {
    var s := StripUpTo(text, |text|);
    s.done + s.line
  }

  /** What the array holds for a state of the stripper. */
  ghost predicate Written(s: Strip, text: Bytes, lineStart: nat, write: nat) {
    lineStart <= write <= |text| && text[..lineStart] == s.done && text[lineStart..write] == s.line
  }

  lemma StepWrites(s: Strip, b: Byte, text: Bytes, lineStart: nat, write: nat)
    requires s.escape == Plain && LF !in s.line && Written(s, text, lineStart, write) && write < |text|
    ensures b == ESC ==> StripStep(s, b) == s.(escape := Started)
    ensures b == CR && write > lineStart ==>
              text[write - 1] != LF && Written(StripStep(s, b), text[write := LF], write + 1, write + 1)
    ensures b == CR && write == lineStart ==> Written(StripStep(s, b), text, write, write)
    ensures Erases(b) ==> Written(StripStep(s, b), text, lineStart, if write > lineStart then write - 1 else write)
    ensures b == LF ==> Written(StripStep(s, b), text[write := LF], write + 1, write + 1)
    ensures Prints(b) ==> Written(StripStep(s, b), text[write := b], lineStart, write + 1)
    ensures b != ESC && b != CR && b != LF && !Erases(b) && !Prints(b) ==> StripStep(s, b) == s
    ensures b != ESC ==> StripStep(s, b).escape == Plain
  {
    var now := text[write := b];
    assert now[..lineStart] == text[..lineStart];
    assert now[lineStart..write + 1] == text[lineStart..write] + [b];
    var ended := text[write := LF];
    assert ended[..write + 1] == (text[..lineStart] + text[lineStart..write]) + [LF];
    if write > lineStart {
      assert text[lineStart..write - 1] == text[lineStart..write][..write - 1 - lineStart];
      assert text[write - 1] == s.line[write - 1 - lineStart];
    }
  }

  ghost predicate Unread(was: Bytes, now: Bytes, read: nat) {
    |now| == |was| && forall i :: read <= i < |was| ==> now[i] == was[i]
  }

  /** The inner loop: skip an escape sequence, which the end of the text may cut short. */
  method SkipEscape(text: array<Byte>, ghost n: nat, ghost was: Bytes, from: nat) returns (read: nat)
    requires n < text.Length && text[n] == 0 && |was| == n && from <= n
    requires forall i :: from <= i < n ==> text[i] == was[i] && was[i] != 0
    requires StripUpTo(was, from).escape == Started
    ensures from <= read <= n
    ensures var s := StripUpTo(was, from); StripUpTo(was, read).done == s.done && StripUpTo(was, read).line == s.line
    ensures StripUpTo(was, read).escape == Plain || read == n
  {
    read := from;
    if text[read] == 0x5b {
      read := read + 1;
      while text[read] != 0
        invariant from <= read <= n && StripUpTo(was, read) == StripUpTo(was, from).(escape := Sequence)
        decreases n - read
      {
        var part := text[read];
        read := read + 1;
        if 0x40 <= part <= 0x7e {
          break;
        }
      }
    } else if text[read] != 0 {
      read := read + 1;
    }
  }

  /**
   `strip_terminal_sequences`, in place: the write position never passes the read position, so a byte is
   never overwritten before it was read.
   */
  method StripTerminalSequences(text: array<Byte>, ghost n: nat)
    requires n < text.Length && text[n] == 0 && forall i :: 0 <= i < n ==> text[i] != 0
    modifies text
    ensures var out := Stripped(old(text[..n]));
            text[..|out| + 1] == out + [0] && forall i :: n < i < text.Length ==> text[i] == old(text[i])
  {
    hide StripStep, Written, StripUpTo;
    ghost var was, all := text[..n], text[..];
    var read, write, lineStart := 0, 0, 0;
    StartWritten(was, text[..]);
    while text[read] != 0
      invariant lineStart <= write <= read <= n
      invariant Unread(all, text[..], read)
      invariant Written(StripUpTo(was, read), text[..], lineStart, write)
      invariant StripUpTo(was, read).escape == Plain || read == n
      decreases n - read
    {
      var value := text[read];
      read := read + 1;
      ghost var shown := text[..];
      assert value == was[read - 1] by {
        assert text[..][read - 1] == all[read - 1];
      }
      OneMore(was, read - 1);
      StepWrites(StripUpTo(was, read - 1), value, text[..], lineStart, write);
      if value == ESC {
        ghost var from := read - 1;
        read := SkipEscape(text, n, was, read);
        SameWritten(StripUpTo(was, from), StripUpTo(was, read), text[..], lineStart, write);
        continue;
      }
      if value == CR {
        if write > lineStart && text[write - 1] != LF {
          text[write] := LF;
          write := write + 1;
          assert text[..] == shown[write - 1 := LF];
        }
        lineStart := write;
        continue;
      }
      if value == 0x08 || value == 0x7f {
        if write > lineStart {
          write := write - 1;
        }
        continue;
      }
      if value == LF {
        text[write] := LF;
        write := write + 1;
        lineStart := write;
        assert text[..] == shown[write - 1 := LF];
      } else if value == 0x09 || value >= 0x20 {
        text[write] := value;
        write := write + 1;
        assert text[..] == shown[write - 1 := value];
      }
    }
    AllWritten(StripUpTo(was, n), text[..], lineStart, write);
    text[write] := 0;
  }

  lemma StartWritten(was: Bytes, text: Bytes)
    ensures Written(StripUpTo(was, 0), text, 0, 0) && StripUpTo(was, 0).escape == Plain
  {
  }

  lemma OneMore(text: Bytes, i: nat)
    requires i < |text|
    ensures StripUpTo(text, i + 1) == StripStep(StripUpTo(text, i), text[i])
  {
  }

  lemma AllWritten(s: Strip, text: Bytes, lineStart: nat, write: nat)
    requires Written(s, text, lineStart, write)
    ensures text[..write] == s.done + s.line
  {
    assert text[..write] == text[..lineStart] + text[lineStart..write];
  }

  lemma SameWritten(s: Strip, t: Strip, text: Bytes, lineStart: nat, write: nat)
    requires Written(s, text, lineStart, write) && s.done == t.done && s.line == t.line
    ensures Written(t, text, lineStart, write)
  {
  }

  // ----- the same text byte by byte -----

  const LINE_SIZE: nat := 4096
  const ERROR_SIZE: nat := 256
  const PROMPT_SIZE: nat := 512

  /** The line being read, and the lines completed so far, empty ones included. */
  datatype Stream = Stream(escape: Escape, line: Bytes, completed: seq<Bytes>)

  function StreamStep(s: Stream, b: Byte): (r: Stream) {
    if s.escape != Plain then s.(escape := AfterEscape(s.escape, b))
    else if b == ESC then s.(escape := Started)
    else if b == CR || b == LF then Stream(Plain, [], s.completed + [s.line])
    else if Erases(b) then (if s.line == [] then s else s.(line := s.line[..|s.line| - 1]))
    else if Prints(b) && |s.line| + 1 < LINE_SIZE then s.(line := s.line + [b])
    else s
  }

  /** The stream after some bytes. */
  function Fed(s: Stream, bytes: Bytes): (r: Stream) {
    After(StreamStep, s, bytes, |bytes|)
  }

  const FRESH: Stream := Stream(Plain, [], [])

  // ----- the two agree -----

  datatype Lines = Lines(complete: seq<Bytes>, rest: Bytes)

  /** The non-empty lines of a text that end with a newline, and what follows the last newline. */
  function LinesUpTo(text: Bytes, i: nat): (r: Lines)
    requires i <= |text|
  {
    if i == 0 then Lines([], [])
    else
      var before := LinesUpTo(text, i - 1);
      if text[i - 1] != LF then before.(rest := before.rest + [text[i - 1]])
      else if before.rest == [] then before
      else Lines(before.complete + [before.rest], [])
  }

  function LinesOf(text: Bytes): (r: Lines) {
    LinesUpTo(text, |text|)
  }

  lemma {:induction false} LinesPrefix(a: Bytes, b: Bytes, i: nat)
    requires i <= |a|
    ensures LinesUpTo(a + b, i) == LinesUpTo(a, i)
  {
    if i > 0 {
      LinesPrefix(a, b, i - 1);
      assert (a + b)[i - 1] == a[i - 1];
    }
  }

  lemma {:induction false} LineFollows(done: Bytes, line: Bytes, i: nat)
    requires i <= |line| && LF !in line && LinesOf(done).rest == []
    ensures LinesUpTo(done + line, |done| + i) == Lines(LinesOf(done).complete, line[..i])
  {
    if i == 0 {
      LinesPrefix(done, line, |done|);
    } else {
      LineFollows(done, line, i - 1);
      assert (done + line)[|done| + i - 1] == line[i - 1];
      assert line[..i - 1] + [line[i - 1]] == line[..i];
    }
  }

  lemma LineEnds(done: Bytes, line: Bytes)
    requires LF !in line && LinesOf(done).rest == []
    ensures LinesOf(done + line) == Lines(LinesOf(done).complete, line)
    ensures LinesOf(done + line + [LF]) ==
            Lines(LinesOf(done).complete + if line == [] then [] else [line], [])
  {
    LineFollows(done, line, |line|);
    assert line[..|line|] == line;
    var text := done + line;
    LinesPrefix(text, [LF], |text|);
    assert (text + [LF])[|text|] == LF;
    assert LinesOf(done).complete + [] == LinesOf(done).complete;
  }

  function NonEmpty(lines: seq<Bytes>): (r: seq<Bytes>) {
    if lines == [] then []
    else NonEmpty(lines[..|lines| - 1]) + if lines[|lines| - 1] == [] then [] else [lines[|lines| - 1]]
  }

  lemma NonEmptyAdds(lines: seq<Bytes>, line: Bytes)
    ensures NonEmpty(lines + [line]) == NonEmpty(lines) + if line == [] then [] else [line]
  {
    assert (lines + [line])[..|lines|] == lines;
  }

  /** No line grows past the room for it in the pairing parser, at any moment. */
  ghost predicate Fits(text: Bytes) {
    forall i :: 0 <= i <= |text| ==> |StripUpTo(text, i).line| < LINE_SIZE
  }

  /** The stripper and the stream hold the same line and have completed the same non-empty lines. */
  ghost predicate Agree(t: Strip, s: Stream) {
    && t.escape == s.escape && t.line == s.line
    && LinesOf(t.done) == Lines(NonEmpty(s.completed), [])
  }

  lemma StepAgrees(t: Strip, s: Stream, b: Byte)
    requires Agree(t, s) && LF !in t.line && |StripStep(t, b).line| < LINE_SIZE
    ensures Agree(StripStep(t, b), StreamStep(s, b))
  {
    hide LinesOf, NonEmpty;
    if t.escape == Plain && (b == CR || b == LF) {
      LineEnds(t.done, t.line);
      NonEmptyAdds(s.completed, s.line);
      assert NonEmpty(s.completed) + [] == NonEmpty(s.completed);
    }
  }

  lemma {:induction false} PrefixesAgree(text: Bytes, i: nat)
    requires i <= |text| && Fits(text)
    ensures Agree(StripUpTo(text, i), After(StreamStep, FRESH, text, i))
  {
    hide StripStep, StreamStep;
    if i > 0 {
      PrefixesAgree(text, i - 1);
      StepAgrees(StripUpTo(text, i - 1), After(StreamStep, FRESH, text, i - 1), text[i - 1]);
    }
  }

  /**
   The non-empty newline-terminated lines of the stripped text are the non-empty lines the pairing parser
   completes, and the unfinished last line is the same.
   */
  lemma StrippersAgree(text: Bytes)
    requires Fits(text)
    ensures LinesOf(Stripped(text)) == Lines(NonEmpty(Fed(FRESH, text).completed), Fed(FRESH, text).line)
  {
    hide StripStep, StreamStep;
    PrefixesAgree(text, |text|);
    var s := StripUpTo(text, |text|);
    LineEnds(s.done, s.line);
  }

  // ----- what a pairing line decides -----

  datatype Verdict = Pending | Succeeded | Failed(error: Bytes)

  function Lower(b: Byte): (r: Byte) {
    if 0x41 <= b <= 0x5a then b + 32 else b
  }

  function LowerAll(text: Bytes): (r: Bytes)
    ensures |r| == |text|
  {
    seq(|text|, i requires 0 <= i < |text| => Lower(text[i]))
  }

  /** A line without the spaces around it and without the prompt of the shell before it. */
  function Cleaned(line: Bytes): (r: Bytes) {
    var clean := Trimmed(line);
    var prompt := Place(clean, Ascii("]> "), 0);
    if clean != [] && clean[0] == 0x5b && prompt < |clean| then Trimmed(clean[prompt..][3..]) else clean
  }

  predicate Asks(clean: Bytes) {
    && clean != [] && clean[|clean| - 1] == 0x3a
    && (|| Contains(clean, Ascii("(yes/no):"))
        || Contains(clean, Ascii("Enter PIN code:"))
        || Contains(clean, Ascii("Enter passkey (number in 0-999999):")))
  }

  predicate Refuses(clean: Bytes) {
    || Ascii("Failed to ") <= clean
    || Ascii("No default controller") <= clean
    || Ascii("Invalid command") <= clean
    || (Ascii("Device ") <= clean && Contains(LowerAll(clean), Ascii("not available")))
  }

  /** What a completed line decides; once decided, later lines change nothing. */
  function Judged(v: Verdict, line: Bytes): (r: Verdict) {
    var clean := Cleaned(line);
    if v != Pending then v
    else if clean == Ascii("Pairing successful") then Succeeded
    else if Refuses(clean) then Failed(Copied(clean, ERROR_SIZE))
    else Pending
  }

  function JudgedAll(v: Verdict, lines: seq<Bytes>): (r: Verdict) {
    if lines == [] then v else Judged(JudgedAll(v, lines[..|lines| - 1]), lines[|lines| - 1])
  }

  lemma JudgedAdds(v: Verdict, lines: seq<Bytes>, line: Bytes)
    ensures JudgedAll(v, lines + [line]) == Judged(JudgedAll(v, lines), line)
  {
    assert (lines + [line])[..|lines|] == lines;
  }

  /** Empty lines decide nothing. */
  lemma {:induction false} EmptyLinesDecideNothing(v: Verdict, lines: seq<Bytes>)
    ensures JudgedAll(v, NonEmpty(lines)) == JudgedAll(v, lines)
  {
    if lines != [] {
      var last := lines[|lines| - 1];
      EmptyLinesDecideNothing(v, lines[..|lines| - 1]);
      var before := NonEmpty(lines[..|lines| - 1]);
      if last == [] {
        assert before + [] == before;
        assert Cleaned([]) == [];
      } else {
        JudgedAdds(v, before, last);
      }
    }
  }

  /**
   The outcome of a pairing, however its output was split into reads, is the one that the lines of the
   stripped output decide.
   */
  lemma OutcomeIsThatOfStrippedLines(chunks: seq<Bytes>)
    requires Fits(Joined(chunks))
    ensures JudgedAll(Pending, AfterAll(StreamStep, FRESH, chunks).completed) == JudgedAll(Pending, LinesOf(Stripped(Joined(chunks))).complete)
  {
    hide Judged, StripStep, StreamStep;
    SplittingDoesNotMatter(StreamStep, FRESH, chunks);
    StrippersAgree(Joined(chunks));
    EmptyLinesDecideNothing(Pending, AfterAll(StreamStep, FRESH, chunks).completed);
  }

  class PairOutput {
    var line: array<Byte>
    var used: nat
    var escape: Escape
    var prompt: Bytes
    var error: Bytes
    var waitingInput: bool
    var finished: bool
    var succeeded: bool
    /** The lines completed so far. */
    ghost var completed: seq<Bytes>

    ghost function Read(): (s: Stream)
      reads this, line
      requires used <= line.Length
    {
      Stream(escape, line[..used], completed)
    }

    ghost predicate Valid()
      reads this, line
    {
      && line.Length == LINE_SIZE && used < LINE_SIZE
      && (succeeded ==> finished)
      && JudgedAll(Pending, completed) == if !finished then Pending else if succeeded then Succeeded else Failed(error)
    }

    constructor ()
      ensures Valid() && fresh(line) && Read() == FRESH
    {
      line := new Byte[LINE_SIZE](_ => 0);
      used, escape, completed := 0, Plain, [];
      prompt, error, waitingInput, finished, succeeded := [], [], false, false, false;
    }

    /** A prompt of the agent is remembered, and a question makes the program wait for an answer. */
    method NotePrompt(clean: Bytes)
      modifies this`prompt, this`waitingInput
      ensures !(Ascii("[agent] ") <= clean) ==> prompt == old(prompt) && waitingInput == old(waitingInput)
      ensures Ascii("[agent] ") <= clean ==>
                && prompt == (if old(prompt) == clean then clean else Copied(clean, PROMPT_SIZE))
                && (waitingInput <==> old(waitingInput) || Asks(clean))
    {
      if Ascii("[agent] ") <= clean {
        if prompt != clean {
          prompt := Copied(clean, PROMPT_SIZE);
        }
        if Asks(clean) {
          waitingInput := true;
        }
      }
    }

    /** `parse_pair_line`: only a complete line can decide the outcome. */
    method ParsePairLine(complete: bool)
      requires Valid()
      modifies this`prompt, this`error, this`waitingInput, this`finished, this`succeeded, this`completed
      ensures Valid()
      ensures Read() == if complete then old(Read()).(completed := old(completed) + [line[..used]]) else old(Read())
      ensures !complete ==> finished == old(finished) && succeeded == old(succeeded) && error == old(error)
    {
      hide Cleaned, Refuses, Ascii, JudgedAll, Copied;
      ghost var was := completed;
      if complete {
        JudgedAdds(Pending, completed, line[..used]);
        completed := completed + [line[..used]];
      }
      if finished {
        return;
      }
      var clean := Cleaned(line[..used]);
      NotePrompt(clean);
      if !complete {
        return;
      }
      if clean == Ascii("Pairing successful") {
        finished := true;
        succeeded := true;
      } else if Refuses(clean) {
        error := Copied(clean, ERROR_SIZE);
        finished := true;
      }
    }

    /** `parse_pair_output`: one read. */
    method ParsePairOutput(bytes: Bytes)
      requires Valid()
      modifies this, line
      ensures Valid() && line == old(line)
      ensures Read() == Fed(old(Read()), bytes)
    {
      hide JudgedAll, Judged;
      ghost var from, buffer := Read(), line;
      for i := 0 to |bytes|
        invariant Valid() && line == buffer
        invariant Read() == After(StreamStep, from, bytes, i)
      {
        TakeByte(bytes[i]);
      }
      ParsePairLine(false);
    }

    method TakeByte(value: Byte)
      requires Valid()
      modifies this, line
      ensures Valid() && line == old(line)
      ensures Read() == StreamStep(old(Read()), value)
    {
      hide JudgedAll, Judged;
      if escape != Plain {
        if escape == Started {
          escape := if value == 0x5b then Sequence else Plain;
        } else if 0x40 <= value <= 0x7e {
          escape := Plain;
        }
        return;
      }
      if value == ESC {
        escape := Started;
        return;
      }
      if value == CR || value == LF {
        ParsePairLine(true);
        used := 0;
      } else if value == 0x08 || value == 0x7f {
        if used > 0 {
          used := used - 1;
        }
      } else if (value == 0x09 || value >= 0x20) && used + 1 < line.Length {
        line[used] := value;
        used := used + 1;
      }
      line[used] := 0;
    }
  }

  // ----- what the parts mean -----

  /** Tabs and everything from the space on count as text, but for the delete character. */
  lemma PrintsIff(b: Byte)
    ensures Prints(b) <==> b == 9 || (b >= 32 && b != 127)
  {
  }

  /** What a byte means outside an escape sequence, at a line that `line` is written on. */
  lemma ByteMeans(s: Strip, b: Byte)
    requires s.escape == Plain
    ensures var r := StripStep(s, b);
            && (b == 27 ==> r == s.(escape := Started))
            && (b == 10 || (b == 13 && s.line != []) ==> r == Strip(Plain, s.done + s.line + [10], []))
            && ((b == 8 || b == 127) && s.line != [] ==> r == s.(line := s.line[..|s.line| - 1]))
            && (b == 9 || (b >= 32 && b != 127) ==> r == s.(line := s.line + [b]))
            && (b < 32 && b !in {8, 9, 10, 13, 27} ==> r == s)
            && (b in {8, 13, 127} && s.line == [] ==> r == s)
  {
  }

  /** The same for the stream; its lines have a limit, and an empty line is completed as well. */
  lemma StreamByteMeans(s: Stream, b: Byte)
    requires s.escape == Plain
    ensures var r := StreamStep(s, b);
            && (b == 27 ==> r == s.(escape := Started))
            && (b == 10 || b == 13 ==> r == Stream(Plain, [], s.completed + [s.line]))
            && ((b == 8 || b == 127) && s.line != [] ==> r == s.(line := s.line[..|s.line| - 1]))
            && ((b == 9 || (b >= 32 && b != 127)) && |s.line| <= 4094 ==> r == s.(line := s.line + [b]))
            && ((b == 9 || (b >= 32 && b != 127)) && |s.line| > 4094 ==> r == s)
            && (b < 32 && b !in {8, 9, 10, 13, 27} ==> r == s)
            && (b in {8, 127} && s.line == [] ==> r == s)
  {
  }

  lemma {:induction false} InsideSequence(text: Bytes, i: nat, k: nat)
    requires i + 2 <= k <= |text| && text[i] == 27 && text[i + 1] == 0x5b && StripUpTo(text, i).escape == Plain
    requires forall n :: i + 2 <= n < k ==> text[n] < 0x40 || text[n] > 0x7e
    ensures StripUpTo(text, k) == StripUpTo(text, i).(escape := Sequence)
    decreases k
  {
    if k == i + 2 {
      assert StripUpTo(text, i + 1) == StripUpTo(text, i).(escape := Started);
    } else {
      InsideSequence(text, i, k - 1);
    }
  }

  /** A control sequence, from the escape to the first byte from 0x40 to 0x7e, leaves no trace; other escapes have one byte. */
  lemma EscapesAreSkipped(text: Bytes, i: nat, j: nat)
    requires i + 1 <= j < |text| && text[i] == 27 && StripUpTo(text, i).escape == Plain
    requires if text[i + 1] == 0x5b
             then i + 2 <= j && 0x40 <= text[j] <= 0x7e && forall n :: i + 2 <= n < j ==> text[n] < 0x40 || text[n] > 0x7e
             else j == i + 1
    ensures StripUpTo(text, j + 1) == StripUpTo(text, i)
  {
    var s := StripUpTo(text, i);
    assert StripUpTo(text, i + 1) == s.(escape := Started);
    if text[i + 1] == 0x5b {
      InsideSequence(text, i, j);
    }
    assert StripUpTo(text, j + 1) == StripStep(StripUpTo(text, j), text[j]);
  }

  predicate PromptEnds(clean: Bytes, k: nat) {
    k < |clean| && Ascii("]> ") <= clean[k..]
  }

  lemma PromptIsFirst(clean: Bytes)
    ensures var at := Place(clean, Ascii("]> "), 0);
            && (at < |clean| ==> PromptEnds(clean, at) && at + 3 <= |clean|)
            && forall n: nat :: PromptEnds(clean, n) ==> at <= n < |clean|
  {
    assert |Ascii("]> ")| == 3;
    hide Ascii, Place;
    var at := Place(clean, Ascii("]> "), 0);
    assert at < |clean| ==> |clean[at..]| >= 3;
    forall n: nat | PromptEnds(clean, n) ensures at <= n < |clean| {
      PlaceIsFirst(clean, Ascii("]> "), 0);
    }
  }

  /** The part of an answer that is judged: without the spaces around it, and without a prompt in brackets before it. */
  lemma CleanedIs(line: Bytes, k: nat)
    ensures var clean := Trimmed(line);
            && (clean == [] || clean[0] != 0x5b || (forall n :: !PromptEnds(clean, n)) ==> Cleaned(line) == clean)
            && (clean != [] && clean[0] == 0x5b && PromptEnds(clean, k) && (forall n: nat :: n < k ==> !PromptEnds(clean, n)) ==>
                  k + 3 <= |clean| && Cleaned(line) == Trimmed(clean[k + 3..]))
  {
    hide Ascii, Trimmed, Place, PromptEnds;
    var clean := Trimmed(line);
    PromptIsFirst(clean);
    var at := Place(clean, Ascii("]> "), 0);
    if at < |clean| {
      assert clean[at..][3..] == clean[at + 3..];
    }
  }

  /** A word that stands somewhere in a text, in letters of either case. */
  ghost predicate SpeltAt(text: Bytes, k: nat, lower: Bytes, upper: Bytes)
    requires |lower| == |upper|
  {
    k + |lower| <= |text| && forall n :: 0 <= n < |lower| ==> text[k + n] == lower[n] || text[k + n] == upper[n]
  }

  lemma EitherCase(b: Byte, n: nat)
    ensures var lower, upper := Ascii("not available"), Ascii("NOT AVAILABLE");
            |lower| == |upper| == 13 && (n < 13 ==> (Lower(b) == lower[n] <==> b == lower[n] || b == upper[n]))
  {
    assert Ascii("not available") == [110, 111, 116, 32, 97, 118, 97, 105, 108, 97, 98, 108, 101];
    assert Ascii("NOT AVAILABLE") == [78, 79, 84, 32, 65, 86, 65, 73, 76, 65, 66, 76, 69];
  }

  lemma SpeltIff(clean: Bytes, k: nat)
    requires k <= |clean|
    ensures |Ascii("not available")| == |Ascii("NOT AVAILABLE")|
    ensures Ascii("not available") <= LowerAll(clean)[k..] <==> SpeltAt(clean, k, Ascii("not available"), Ascii("NOT AVAILABLE"))
  {
    hide Ascii, Lower;
    EitherCase(0, 0);
    var lower, upper, all := Ascii("not available"), Ascii("NOT AVAILABLE"), LowerAll(clean)[k..];
    if k + 13 <= |clean| {
      forall n | 0 <= n < 13 ensures all[n] == lower[n] <==> clean[k + n] == lower[n] || clean[k + n] == upper[n] {
        EitherCase(clean[k + n], n);
      }
    }
  }

  /**
   A line that says that pairing was successful decides for it; one that begins with a complaint against it, or one
   about a device that says it is not available, in letters of either case. The first that decides is the last.
   */
  lemma JudgedIs(v: Verdict, line: Bytes)
    ensures |Ascii("not available")| == |Ascii("NOT AVAILABLE")|
    ensures var clean, r := Cleaned(line), Judged(v, line);
            var gone := exists k :: 0 <= k < |clean| && SpeltAt(clean, k, Ascii("not available"), Ascii("NOT AVAILABLE"));
            var against := Ascii("Failed to ") <= clean || Ascii("No default controller") <= clean
                           || Ascii("Invalid command") <= clean || (Ascii("Device ") <= clean && gone);
            r == if v != Pending then v
                 else if clean == Ascii("Pairing successful") then Succeeded
                 else if against then Failed(Copied(clean, ERROR_SIZE))
                 else Pending
  {
    hide Ascii, LowerAll, SpeltAt, Cleaned, Copied;
    var clean := Cleaned(line);
    SpeltIff(clean, 0);
    ContainsIff(LowerAll(clean), Ascii("not available"));
    forall k: nat | k < |clean|
      ensures Ascii("not available") <= LowerAll(clean)[k..] <==> SpeltAt(clean, k, Ascii("not available"), Ascii("NOT AVAILABLE"))
    {
      SpeltIff(clean, k);
    }
  }

  /** A prompt asks when it ends in a colon and one of three questions stands in it. */
  lemma AsksIff(clean: Bytes)
    ensures Asks(clean) <==>
              clean != [] && clean[|clean| - 1] == ':' as int
              && exists k :: 0 <= k < |clean|
                   && (Ascii("(yes/no):") <= clean[k..] || Ascii("Enter PIN code:") <= clean[k..]
                       || Ascii("Enter passkey (number in 0-999999):") <= clean[k..])
  {
    hide Ascii, Contains;
    ContainsIff(clean, Ascii("(yes/no):"));
    ContainsIff(clean, Ascii("Enter PIN code:"));
    ContainsIff(clean, Ascii("Enter passkey (number in 0-999999):"));
  }
}
