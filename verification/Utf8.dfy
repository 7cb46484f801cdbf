/** UTF-8 as the suite writes and reads it, and the validator of Bluetooth service names. */
module Utf8 {

  /** Masks and shifts by powers of two are written with `/` and `%`. */
  type Byte = b: int | 0 <= b < 256

  type Bytes = seq<Byte>

  datatype Decoded = Character(codepoint: nat, used: nat) | Malformed

  predicate Tail(b: Byte) {
    b / 64 == 2
  }

  predicate Scalar(cp: nat) {
    cp < 0xd800 || 0xe000 <= cp <= 0x10ffff
  }

  /** A scalar value that is neither a C0 control, DEL nor a C1 control. */
  predicate Shown(cp: nat) {
    Scalar(cp) && 0x20 <= cp && !(0x7f <= cp <= 0x9f)
  }

  /** One more six-bit group below `high`, as in `high << 6 | (low & 0x3f)`. */
  function Join(high: nat, low: nat): (r: nat) {
    high * 64 + low % 64
  }

  /** The byte sequence written for a code point up to U+10FFFF. */
  function Encode(cp: nat): (s: Bytes)
    requires cp <= 0x10ffff
    ensures 1 <= |s| <= 4
  {
    if cp <= 0x7f then [cp]
    else if cp <= 0x7ff then [0xc0 + cp / 64, 0x80 + cp % 64]
    else if cp <= 0xffff then [0xe0 + cp / 64 / 64, 0x80 + cp / 64 % 64, 0x80 + cp % 64]
    else [0xf0 + cp / 64 / 64 / 64, 0x80 + cp / 64 / 64 % 64, 0x80 + cp / 64 % 64, 0x80 + cp % 64]
  }

  ghost predicate AllShown(cps: seq<nat>) {
    forall k :: 0 <= k < |cps| ==> Shown(cps[k])
  }

  ghost predicate AllScalar(cps: seq<nat>) {
    forall k :: 0 <= k < |cps| ==> Scalar(cps[k])
  }

  function EncodeAll(cps: seq<nat>): (s: Bytes)
    requires forall k :: 0 <= k < |cps| ==> cps[k] <= 0x10ffff
  {
    if cps == [] then [] else Encode(cps[0]) + EncodeAll(cps[1..])
  }

  // The rows of the syntax table in section 4 of RFC 3629, by length.

  predicate Two(a: Byte, b: Byte) {
    0xc2 <= a <= 0xdf && Tail(b)
  }

  predicate Three(a: Byte, b: Byte, c: Byte) {
    && 0xe0 <= a <= 0xef && Tail(b) && Tail(c)
    && (a == 0xe0 ==> 0xa0 <= b) && (a == 0xed ==> b <= 0x9f)
  }

  predicate Four(a: Byte, b: Byte, c: Byte, d: Byte) {
    && 0xf0 <= a <= 0xf4 && Tail(b) && Tail(c) && Tail(d)
    && (a == 0xf0 ==> 0x90 <= b) && (a == 0xf4 ==> b <= 0x8f)
  }

  /** The first character of `s`, as `mbrtowc` finds it. */
  function Decode(s: Bytes): (d: Decoded)
    ensures d.Character? ==> 1 <= d.used <= |s|
  {
    if |s| >= 1 && s[0] < 0x80 then Character(s[0], 1)
    else if |s| >= 2 && Two(s[0], s[1]) then Character(Join(s[0] % 32, s[1]), 2)
    else if |s| >= 3 && Three(s[0], s[1], s[2]) then Character(Join(Join(s[0] % 16, s[1]), s[2]), 3)
    else if |s| >= 4 && Four(s[0], s[1], s[2], s[3]) then
      Character(Join(Join(Join(s[0] % 8, s[1]), s[2]), s[3]), 4)
    else Malformed
  }

  predicate WellFormed(s: Bytes)
    decreases |s|
  {
    s == [] || (Decode(s).Character? && WellFormed(s[Decode(s).used..]))
  }

  /** A position of well-formed text where a character begins or the text ends. */
  predicate Boundary(s: Bytes, i: nat)
    requires i <= |s|
  {
    i == |s| || !Tail(s[i])
  }

  // ----- encoding and decoding are inverse -----

  lemma TwoBytes(cp: nat, a: Byte, b: Byte)
    requires 0x80 <= cp <= 0x7ff && a == 0xc0 + cp / 64 && b == 0x80 + cp % 64
    ensures Two(a, b) && Join(a % 32, b) == cp
  {
    assert a % 32 == cp / 64;
  }

  lemma ThreeBytes(cp: nat, high: nat, a: Byte, b: Byte, c: Byte)
    requires 0x800 <= cp <= 0xffff && Scalar(cp) && high == cp / 64
    requires a == 0xe0 + high / 64 && b == 0x80 + high % 64 && c == 0x80 + cp % 64
    ensures Three(a, b, c) && Join(Join(a % 16, b), c) == cp
  {
    assert a % 16 == high / 64;
  }

  lemma DecodeEncode(cp: nat, rest: Bytes)
    requires Scalar(cp)
    ensures Decode(Encode(cp) + rest) == Character(cp, |Encode(cp)|)
  {
    var e := Encode(cp);
    var s := e + rest;
    assert forall k :: 0 <= k < |e| ==> s[k] == e[k];
    if 0x80 <= cp <= 0x7ff {
      TwoBytes(cp, s[0], s[1]);
    } else if 0x800 <= cp <= 0xffff {
      ThreeBytes(cp, cp / 64, s[0], s[1], s[2]);
    } else if cp > 0xffff {
    }
  }

  lemma JoinSplits(high: nat, low: nat)
    ensures Join(high, low) / 64 == high && Join(high, low) % 64 == low % 64
  {
  }

  lemma TwoDecodes(a: Byte, b: Byte)
    requires Two(a, b)
    ensures var cp := Join(a % 32, b); 0x80 <= cp <= 0x7ff && Encode(cp) == [a, b]
  {
    JoinSplits(a % 32, b);
  }

  lemma ThreeDecodes(a: Byte, b: Byte, c: Byte)
    requires Three(a, b, c)
    ensures var cp := Join(Join(a % 16, b), c); 0x800 <= cp <= 0xffff && Scalar(cp) && Encode(cp) == [a, b, c]
  {
    JoinSplits(a % 16, b);
    JoinSplits(Join(a % 16, b), c);
  }

  lemma FourDecodes(a: Byte, b: Byte, c: Byte, d: Byte)
    requires Four(a, b, c, d)
    ensures var cp := Join(Join(Join(a % 8, b), c), d);
            0x10000 <= cp <= 0x10ffff && Encode(cp) == [a, b, c, d]
  {
    JoinSplits(a % 8, b);
    JoinSplits(Join(a % 8, b), c);
    JoinSplits(Join(Join(a % 8, b), c), d);
  }

  lemma EncodeDecode(s: Bytes)
    requires Decode(s).Character?
    ensures Scalar(Decode(s).codepoint)
    ensures Encode(Decode(s).codepoint) == s[..Decode(s).used]
  {
    match Decode(s).used {
      case 1 =>
      case 2 => TwoDecodes(s[0], s[1]);
      case 3 => ThreeDecodes(s[0], s[1], s[2]);
      case _ => FourDecodes(s[0], s[1], s[2], s[3]);
    }
  }

  /** What is decoded depends only on the bytes of the character itself. */
  lemma DecodePrefix(s: Bytes, n: nat)
    requires n <= |s|
    ensures Decode(s[..n]).Character? ==> Decode(s) == Decode(s[..n])
    ensures Decode(s).Character? && Decode(s).used <= n ==> Decode(s[..n]) == Decode(s)
  {
  }

  lemma DecodeTails(s: Bytes, i: nat)
    requires Decode(s).Character? && 1 <= i < Decode(s).used
    ensures Tail(s[i]) && s[i] >= 0x80
  {
  }

  /** Well-formed text read from one of its boundaries is well-formed. */
  lemma {:induction false} WellFormedSuffix(s: Bytes, i: nat)
    requires WellFormed(s) && i <= |s| && Boundary(s, i)
    ensures WellFormed(s[i..])
    decreases |s|
  {
    if i == |s| {
      assert s[i..] == [];
    } else if i == 0 {
      assert s[0..] == s;
    } else {
      var used := Decode(s).used;
      if i < used {
        DecodeTails(s, i);
      }
      WellFormedSuffix(s[used..], i - used);
      assert s[used..][i - used..] == s[i..];
    }
  }

  // ----- the validator -----

  /** `s` is exactly a run of encoded scalar values that may be shown. */
  ghost predicate ShownText(s: Bytes) {
    exists cps: seq<nat> :: AllShown(cps) && EncodeAll(cps) == s
  }

  predicate Accepts(s: Bytes)
    decreases |s|
  {
    s == [] || (Decode(s).Character? && Shown(Decode(s).codepoint) && Accepts(s[Decode(s).used..]))
  }

  lemma {:induction false} AcceptsEncodings(cps: seq<nat>)
    requires AllShown(cps)
    ensures Accepts(EncodeAll(cps))
  {
    hide Decode, Encode;
    if cps != [] {
      var rest := EncodeAll(cps[1..]);
      DecodeEncode(cps[0], rest);
      AcceptsEncodings(cps[1..]);
      assert (Encode(cps[0]) + rest)[|Encode(cps[0])|..] == rest;
    }
  }

  lemma {:induction false} AcceptedAreEncodings(s: Bytes) returns (cps: seq<nat>)
    requires Accepts(s)
    ensures AllShown(cps) && EncodeAll(cps) == s
    decreases |s|
  {
    hide Decode, Encode, Scalar;
    if s == [] {
      cps := [];
    } else {
      var d := Decode(s);
      EncodeDecode(s);
      var tail := AcceptedAreEncodings(s[d.used..]);
      cps := [d.codepoint] + tail;
      assert cps[1..] == tail && s == s[..d.used] + s[d.used..];
    }
  }

  lemma AcceptsExactlyShownText(s: Bytes)
    ensures Accepts(s) <==> ShownText(s)
  {
    if Accepts(s) {
      var cps := AcceptedAreEncodings(s);
    }
    if ShownText(s) {
      var cps: seq<nat> :| AllShown(cps) && EncodeAll(cps) == s;
      AcceptsEncodings(cps);
    }
  }

  /** The code points of well-formed text. */
  function DecodeAll(s: Bytes): (cps: seq<nat>)
    requires WellFormed(s)
    decreases |s|
  {
    if s == [] then [] else [Decode(s).codepoint] + DecodeAll(s[Decode(s).used..])
  }

  /** Encoded text is well formed and decodes to itself. */
  lemma {:induction false} DecodeAllEncoded(cps: seq<nat>)
    requires AllScalar(cps)
    ensures WellFormed(EncodeAll(cps)) && DecodeAll(EncodeAll(cps)) == cps
  {
    hide Decode, Encode;
    if cps != [] {
      var rest := EncodeAll(cps[1..]);
      DecodeEncode(cps[0], rest);
      DecodeAllEncoded(cps[1..]);
      assert EncodeAll(cps)[|Encode(cps[0])|..] == rest;
    }
  }

  /** Every byte string has at most one reading as a run of scalar values. */
  lemma {:induction false} EncodeAllInjective(a: seq<nat>, b: seq<nat>)
    requires AllScalar(a)
    requires AllScalar(b)
    requires EncodeAll(a) == EncodeAll(b)
    ensures a == b
  {
    if a != [] && b != [] {
      DecodeEncode(a[0], EncodeAll(a[1..]));
      DecodeEncode(b[0], EncodeAll(b[1..]));
      var n := |Encode(a[0])|;
      assert EncodeAll(a)[n..] == EncodeAll(a[1..]) && EncodeAll(b)[n..] == EncodeAll(b[1..]);
      EncodeAllInjective(a[1..], b[1..]);
      assert a == [a[0]] + a[1..] && b == [b[0]] + b[1..];
    }
  }

  /** The continuation bytes folded into a code point. */
  function Fold(cp: nat, bytes: Bytes): (r: nat) {
    if bytes == [] then cp
    else Join(Fold(cp, bytes[..|bytes| - 1]), bytes[|bytes| - 1])
  }

  /** What the validator demands of a lead byte, its `extra` continuation bytes and the folded value. */
  predicate StepAccepted(s: Bytes, extra: nat, initial: nat)
    requires extra < |s|
  {
    (forall j :: 1 <= j <= extra ==> Tail(s[j])) && RangesAccepted(extra, Fold(initial, s[1..1 + extra]))
  }

  lemma FoldSmall(cp: nat, b: Bytes)
    requires 1 <= |b| <= 3
    ensures |b| == 1 ==> Fold(cp, b) == Join(cp, b[0])
    ensures |b| == 2 ==> Fold(cp, b) == Join(Join(cp, b[0]), b[1])
    ensures |b| == 3 ==> Fold(cp, b) == Join(Join(Join(cp, b[0]), b[1]), b[2])
  {
    assert b[..|b|] == b && b[..1][..0] == b[..0];
    assert Fold(cp, b[..1]) == Join(cp, b[0]);
    if |b| >= 2 {
      assert b[..2][..1] == b[..1];
      assert Fold(cp, b[..2]) == Join(Fold(cp, b[..1]), b[1]);
    }
    if |b| == 3 {
      assert b[..3][..2] == b[..2];
    }
  }

  lemma RangesMatchFour(a: Byte, b: Byte, c: Byte, d: Byte)
    requires 0xf0 <= a <= 0xf4 && Tail(b) && Tail(c) && Tail(d)
    ensures var cp := Join(Join(Join(a % 8, b), c), d);
            !(cp < 0x10000) && !(cp > 0x10ffff) <==> Four(a, b, c, d)
  {
  }

  predicate LeadByte(first: Byte, extra: nat, initial: nat) {
    || (extra == 1 && 0xc2 <= first <= 0xdf && initial == first % 32)
    || (extra == 2 && 0xe0 <= first <= 0xef && initial == first % 16)
    || (extra == 3 && 0xf0 <= first <= 0xf4 && initial == first % 8)
  }

  lemma StepMatchesTwo(s: Bytes, initial: nat)
    requires |s| > 1 && LeadByte(s[0], 1, initial)
    ensures StepAccepted(s, 1, initial) <==> Decode(s).Character? && Shown(Decode(s).codepoint)
    ensures Decode(s).Character? ==> Decode(s).used == 2
  {
    FoldSmall(initial, s[1..2]);
    if Tail(s[1]) {
      TwoDecodes(s[0], s[1]);
    }
  }

  lemma StepMatchesThree(s: Bytes, initial: nat)
    requires |s| > 2 && LeadByte(s[0], 2, initial)
    ensures StepAccepted(s, 2, initial) <==> Decode(s).Character? && Shown(Decode(s).codepoint)
    ensures Decode(s).Character? ==> Decode(s).used == 3
  {
    FoldSmall(initial, s[1..3]);
    if Tail(s[1]) && Tail(s[2]) {
      if Three(s[0], s[1], s[2]) { ThreeDecodes(s[0], s[1], s[2]); }
    }
  }

  lemma StepMatchesFour(s: Bytes, initial: nat)
    requires |s| > 3 && LeadByte(s[0], 3, initial)
    ensures StepAccepted(s, 3, initial) <==> Decode(s).Character? && Shown(Decode(s).codepoint)
    ensures Decode(s).Character? ==> Decode(s).used == 4
  {
    FoldSmall(initial, s[1..4]);
    if Tail(s[1]) && Tail(s[2]) && Tail(s[3]) {
      RangesMatchFour(s[0], s[1], s[2], s[3]);
      if Four(s[0], s[1], s[2], s[3]) { FourDecodes(s[0], s[1], s[2], s[3]); }
    }
  }

  lemma StepMatchesTable(s: Bytes, extra: nat, initial: nat)
    requires extra < |s| && LeadByte(s[0], extra, initial)
    ensures StepAccepted(s, extra, initial) <==> Decode(s).Character? && Shown(Decode(s).codepoint)
    ensures Decode(s).Character? ==> Decode(s).used == extra + 1
  {
    match extra {
      case 1 => StepMatchesTwo(s, initial);
      case 2 => StepMatchesThree(s, initial);
      case _ => StepMatchesFour(s, initial);
    }
  }

  /** The validator's inner loop: the `extra` bytes from `begin` on, folded below `initial`. */
  method ReadTails(text: Bytes, begin: nat, extra: nat, initial: nat) returns (ok: bool, codepoint: nat)
    requires begin + extra <= |text|
    ensures ok <==> forall k :: begin <= k < begin + extra ==> Tail(text[k])
    ensures ok ==> codepoint == Fold(initial, text[begin..begin + extra])
  {
    codepoint := initial;
    for j := 0 to extra
      invariant codepoint == Fold(initial, text[begin..begin + j])
      invariant forall k :: begin <= k < begin + j ==> Tail(text[k])
    {
      var next := text[begin + j];
      if !Tail(next) {
        return false, codepoint;
      }
      var read := text[begin..begin + j + 1];
      assert read[..j] == text[begin..begin + j] && read[j] == next;
      codepoint := Join(codepoint, next);
    }
    ok := true;
  }

  predicate RangesAccepted(extra: nat, cp: nat) {
    && !(extra == 2 && cp < 0x800) && !(extra == 3 && cp < 0x10000) && cp <= 0x10ffff
    && !(0xd800 <= cp <= 0xdfff) && !(0x80 <= cp <= 0x9f)
  }

  lemma AcceptsMultibyte(text: Bytes, i: nat, extra: nat, initial: nat)
    requires i + extra < |text| && LeadByte(text[i], extra, initial)
    ensures Accepts(text[i..]) <==>
            && (forall k :: i < k <= i + extra ==> Tail(text[k]))
            && RangesAccepted(extra, Fold(initial, text[i + 1..i + 1 + extra]))
            && Accepts(text[i + 1 + extra..])
  {
    var here := text[i..];
    StepMatchesTable(here, extra, initial);
    assert here[1..1 + extra] == text[i + 1..i + 1 + extra];
    assert forall j :: 1 <= j <= extra ==> here[j] == text[i + j];
    assert here[1 + extra..] == text[i + 1 + extra..];
    if forall k :: i < k <= i + extra ==> Tail(text[k]) {
      assert forall j :: 1 <= j <= extra ==> Tail(here[j]);
    } else {
      var k :| i < k <= i + extra && !Tail(text[k]);
      assert !Tail(here[k - i]);
    }
  }

  lemma AcceptsAscii(text: Bytes, i: nat)
    requires i < |text| && text[i] < 0x80
    ensures Accepts(text[i..]) <==> !(text[i] < 0x20 || text[i] == 0x7f) && Accepts(text[i + 1..])
  {
    assert text[i..][1..] == text[i + 1..];
  }

  lemma RejectsShort(text: Bytes, i: nat)
    requires i < |text| && text[i] >= 0x80
    requires forall extra: nat, initial: nat :: LeadByte(text[i], extra, initial) ==> |text| <= i + extra
    ensures !Accepts(text[i..])
  {
    var first := text[i];
    assert LeadByte(first, 1, first % 32) || LeadByte(first, 2, first % 16) || LeadByte(first, 3, first % 8)
           || !(0xc2 <= first <= 0xf4);
  }

  lemma AcceptsNothing()
    ensures Accepts([])
  {
  }

  method PrintableUtf8(text: Bytes) returns (ok: bool)
    ensures ok <==> ShownText(text)
  {
    hide Accepts, ShownText, Fold, Tail;
    AcceptsExactlyShownText(text);
    AcceptsNothing();
    var i := 0;
    assert text[0..] == text;
    while i < |text|
      invariant 0 <= i <= |text|
      invariant Accepts(text) <==> Accepts(text[i..])
    {
      var first := text[i];
      if first < 0x80 {
        AcceptsAscii(text, i);
        i := i + 1;
        if first < 0x20 || first == 0x7f {
          return false;
        }
        continue;
      }
      var extra, initial;
      if 0xc2 <= first <= 0xdf {
        extra, initial := 1, first % 32;
      } else if 0xe0 <= first <= 0xef {
        extra, initial := 2, first % 16;
      } else if 0xf0 <= first <= 0xf4 {
        extra, initial := 3, first % 8;
      } else {
        RejectsShort(text, i);
        return false;
      }
      assert LeadByte(first, extra, initial);
      if extra > |text| - (i + 1) {
        RejectsShort(text, i);
        return false;
      }
      AcceptsMultibyte(text, i, extra, initial);
      i := i + 1;
      var tails, codepoint := ReadTails(text, i, extra, initial);
      if !tails {
        return false;
      }
      i := i + extra;
      if (extra == 2 && codepoint < 0x800) || (extra == 3 && codepoint < 0x10000) || codepoint > 0x10ffff
         || 0xd800 <= codepoint <= 0xdfff || 0x80 <= codepoint <= 0x9f {
        return false;
      }
    }
    assert text[i..] == [];
    ok := true;
  }

  // ----- character steps with a terminal width -----

  datatype Step = Step(used: nat, cells: nat)

  /**
   One character of `s` on a terminal: a malformed byte stands alone in one cell,
   and a character narrower than one cell still takes one.
   */
  function StepOf(s: Bytes, cells: nat -> nat): (r: Step)
    requires s != []
    ensures 1 <= r.used <= |s| && 1 <= r.cells
  {
    match Decode(s)
    case Malformed => Step(1, 1)
    case Character(cp, used) => Step(used, if cells(cp) < 1 then 1 else cells(cp))
  }

  // ----- what the parts mean -----

  /** What a byte holds besides the bits that mark it. */
  ghost function Payload(b: nat, mark: nat): int {
    b - mark
  }

  /**
   The encoding of section 3 of RFC 3629: the bits of a character, six at a time, behind a first byte that tells how
   many bytes follow.
   */
  lemma EncodingIs(cp: nat)
    requires cp <= 0x10ffff
    ensures var s := Encode(cp);
            && (forall k :: 1 <= k < |s| ==> 0x80 <= s[k] < 0xc0)
            && if cp < 0x80 then s == [cp]
               else if cp < 0x800 then
                 |s| == 2 && 0xc0 <= s[0] < 0xe0 && cp == Payload(s[0], 0xc0) * 0x40 + Payload(s[1], 0x80)
               else if cp < 0x10000 then
                 |s| == 3 && 0xe0 <= s[0] < 0xf0 && cp == Payload(s[0], 0xe0) * 0x1000 + Payload(s[1], 0x80) * 0x40 + Payload(s[2], 0x80)
               else
                 |s| == 4 && 0xf0 <= s[0] < 0xf8
                 && cp == Payload(s[0], 0xf0) * 0x40000 + Payload(s[1], 0x80) * 0x1000 + Payload(s[2], 0x80) * 0x40 + Payload(s[3], 0x80)
  {
  }

  /** Text that may be shown: characters of Unicode other than C0 controls, DEL and C1 controls. */
  lemma ShownIff(cp: nat)
    ensures Shown(cp) <==> 0x20 <= cp < 0x7f || 0xa0 <= cp < 0xd800 || 0xe000 <= cp <= 0x10ffff
  {
  }

  lemma StepIs(cp: nat, stray: Bytes, rest: Bytes, cells: nat -> nat)
    requires Scalar(cp) && stray != [] && Decode(stray).Malformed?
    ensures StepOf(Encode(cp) + rest, cells) == Step(|Encode(cp)|, if cells(cp) == 0 then 1 else cells(cp))
    ensures StepOf(stray, cells) == Step(1, 1)
  {
    DecodeEncode(cp, rest);
  }
}
