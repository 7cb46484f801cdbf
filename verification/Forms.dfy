/**
 Form submission as `application/x-www-form-urlencoded`, and the parser of
 section 5.1 of the WHATWG URL Standard that a server applies to it.
 */
module Forms {
  import ByteText
  import opened Utf8
  import opened PageData

  type Pair = (Bytes, Bytes)

  const AMPERSAND: Byte := 38
  const EQUALS: Byte := 61
  const PERCENT: Byte := 37
  const PLUS: Byte := 43

  // ----- writing -----

  /** Bytes written as they are; a locale may count bytes above 127 as letters too. */
  predicate Plain(b: Byte, locale: set<Byte>) {
    || ByteText.Digit(b) || 65 <= b <= 90 || 97 <= b <= 122
    || b == 45 || b == 95 || b == 46 || b == 126
    || (b >= 128 && b in locale)
  }

  function HexDigit(n: nat): (b: Byte)
    requires n < 16
  {
    if n < 10 then 48 + n else 55 + n
  }

  function EncodeByte(b: Byte, locale: set<Byte>): (r: Bytes) {
    if Plain(b, locale) then [b]
    else if b == 32 then [PLUS]
    else [PERCENT, HexDigit(b / 16), HexDigit(b % 16)]
  }

  function Urlencoded(s: Bytes, locale: set<Byte>): (r: Bytes) {
    if s == [] then [] else EncodeByte(s[0], locale) + Urlencoded(s[1..], locale)
  }

  function PairText(p: Pair, locale: set<Byte>): (r: Bytes) {
    Urlencoded(p.0, locale) + [EQUALS] + Urlencoded(p.1, locale)
  }

  /** The body for a list of pairs. */
  function Body(pairs: seq<Pair>, locale: set<Byte>): (r: Bytes) {
    if pairs == [] then []
    else if |pairs| == 1 then PairText(pairs[0], locale)
    else PairText(pairs[0], locale) + [AMPERSAND] + Body(pairs[1..], locale)
  }

  // ----- reading, by section 5.1 of the WHATWG URL Standard -----

  /** The strictly split byte sequences of `s` on a separator. */
  function Split(s: Bytes, separator: Byte): (parts: seq<Bytes>)
    ensures |parts| >= 1
  {
    if s == [] then [[]]
    else
      var rest := Split(s[1..], separator);
      if s[0] == separator then [[]] + rest else [[s[0]] + rest[0]] + rest[1..]
  }

  function PlusToSpace(s: Bytes): (r: Bytes) {
    if s == [] then [] else [if s[0] == PLUS then 32 else s[0]] + PlusToSpace(s[1..])
  }

  predicate IsHex(b: Byte) {
    ByteText.Digit(b) || 65 <= b <= 70 || 97 <= b <= 102
  }

  function HexValue(b: Byte): (n: nat)
    requires IsHex(b)
    ensures n < 16
  {
    if ByteText.Digit(b) then b - 48 else if b <= 70 then b - 55 else b - 87
  }

  function PercentDecode(s: Bytes): (r: Bytes) {
    if s == [] then []
    else if s[0] == PERCENT && |s| >= 3 && IsHex(s[1]) && IsHex(s[2])
    then [HexValue(s[1]) * 16 + HexValue(s[2])] + PercentDecode(s[3..])
    else [s[0]] + PercentDecode(s[1..])
  }

  /** Name and value of one byte sequence, parted at its first `=`. */
  function Part(s: Bytes): (p: Pair) {
    if s == [] then ([], [])
    else if s[0] == EQUALS then ([], s[1..])
    else var (name, value) := Part(s[1..]); ([s[0]] + name, value)
  }

  function DecodePart(s: Bytes): (p: Pair) {
    var (name, value) := Part(s);
    (PercentDecode(PlusToSpace(name)), PercentDecode(PlusToSpace(value)))
  }

  function ParseParts(parts: seq<Bytes>): (pairs: seq<Pair>) {
    if parts == [] then []
    else (if parts[0] == [] then [] else [DecodePart(parts[0])]) + ParseParts(parts[1..])
  }

  /** The list of name-value pairs of a body. */
  function Parse(body: Bytes): (pairs: seq<Pair>) {
    ParseParts(Split(body, AMPERSAND))
  }

  // ----- the round trip -----

  lemma {:induction false} EncodedIsSafe(s: Bytes, locale: set<Byte>)
    ensures AMPERSAND !in Urlencoded(s, locale) && EQUALS !in Urlencoded(s, locale)
  {
    if s != [] {
      EncodedIsSafe(s[1..], locale);
    }
  }

  lemma DecodeEncodedByte(b: Byte, locale: set<Byte>, rest: Bytes)
    ensures PercentDecode(PlusToSpace(EncodeByte(b, locale)) + rest) == [b] + PercentDecode(rest)
  {
    var e := EncodeByte(b, locale);
    if Plain(b, locale) || b == 32 {
      assert PlusToSpace(e) == [b] + PlusToSpace([]) == [b];
      assert ([b] + rest)[1..] == rest;
    } else {
      assert e[1..][1..] == [e[2]] && e[1..][1..][1..] == [];
      assert PlusToSpace(e[1..][1..]) == [e[2]];
      assert PlusToSpace(e[1..]) == [e[1], e[2]];
      assert PlusToSpace(e) == e;
      assert (e + rest)[3..] == rest;
    }
  }

  lemma {:induction false} PlusToSpaceAdds(a: Bytes, b: Bytes)
    ensures PlusToSpace(a + b) == PlusToSpace(a) + PlusToSpace(b)
  {
    if a == [] {
      assert a + b == b;
    } else {
      assert (a + b)[1..] == a[1..] + b;
      PlusToSpaceAdds(a[1..], b);
    }
  }

  lemma {:induction false} DecodeEncoded(s: Bytes, locale: set<Byte>)
    ensures PercentDecode(PlusToSpace(Urlencoded(s, locale))) == s
  {
    if s != [] {
      var e, rest := EncodeByte(s[0], locale), Urlencoded(s[1..], locale);
      PlusToSpaceAdds(e, rest);
      DecodeEncodedByte(s[0], locale, PlusToSpace(rest));
      DecodeEncoded(s[1..], locale);
    }
  }

  lemma {:induction false} PartAtFirstEquals(name: Bytes, value: Bytes)
    requires EQUALS !in name
    ensures Part(name + [EQUALS] + value) == (name, value)
  {
    var s := name + [EQUALS] + value;
    if name == [] {
      assert s[1..] == value;
    } else {
      assert s[1..] == name[1..] + [EQUALS] + value;
      assert name[0] in name;
      PartAtFirstEquals(name[1..], value);
      assert name == [name[0]] + name[1..];
    }
  }

  lemma DecodePairText(p: Pair, locale: set<Byte>)
    ensures PairText(p, locale) != [] && AMPERSAND !in PairText(p, locale)
    ensures DecodePart(PairText(p, locale)) == p
  {
    EncodedIsSafe(p.0, locale);
    EncodedIsSafe(p.1, locale);
    PartAtFirstEquals(Urlencoded(p.0, locale), Urlencoded(p.1, locale));
    DecodeEncoded(p.0, locale);
    DecodeEncoded(p.1, locale);
  }

  lemma {:induction false} SplitAtSeparator(a: Bytes, b: Bytes, separator: Byte)
    requires separator !in a
    ensures Split(a, separator) == [a]
    ensures Split(a + [separator] + b, separator) == [a] + Split(b, separator)
  {
    var s := a + [separator] + b;
    if a == [] {
      assert s[1..] == b;
    } else {
      assert s[1..] == a[1..] + [separator] + b;
      assert a[0] in a;
      SplitAtSeparator(a[1..], b, separator);
      assert a == [a[0]] + a[1..];
    }
  }

  /** Parsing a body gives back exactly its pairs, in order, for all byte strings. */
  lemma {:induction false} ParseBody(pairs: seq<Pair>, locale: set<Byte>)
    ensures Parse(Body(pairs, locale)) == pairs
  {
    if pairs == [] {
      assert Split([], AMPERSAND) == [[]] && ParseParts([[]]) == [] + ParseParts([[]][1..]);
    } else {
      var first := PairText(pairs[0], locale);
      DecodePairText(pairs[0], locale);
      SplitAtSeparator(first, Body(pairs[1..], locale), AMPERSAND);
      if |pairs| == 1 {
        assert ParseParts([first]) == [pairs[0]] + ParseParts([first][1..]);
      } else {
        ParseBody(pairs[1..], locale);
        var rest := Split(Body(pairs[1..], locale), AMPERSAND);
        assert ([first] + rest)[1..] == rest;
      }
      assert pairs == [pairs[0]] + pairs[1..];
    }
  }

  // ----- the successful controls -----

  function SubmitValue(c: ControlItem): (value: Bytes) {
    if c.kind == Select && c.optionValues != [] then
      c.optionValues[if 0 <= c.selected < |c.optionValues| then c.selected else 0]
    else c.value
  }

  predicate IsSuccessful(c: ControlItem, index: int, submitIndex: int, formIndex: int) {
    && !c.disabled && c.name != []
    && (formIndex >= 0 ==> c.formIndex == formIndex)
    && (formIndex < 0 && index != submitIndex ==> c.formIndex == formIndex)
    && (c.kind == Checkbox || c.kind == Radio ==> c.checked)
    && (c.kind == Submit || c.kind == Button ==> index == submitIndex && c.buttonSubmits)
  }

  /** The pairs of the first `n` controls: name and value of each successful one, in order. */
  function SuccessfulPairs(controls: seq<ControlItem>, n: nat, formIndex: int, submitIndex: int): (pairs: seq<Pair>)
    requires n <= |controls|
  {
    if n == 0 then []
    else
      var c := controls[n - 1];
      SuccessfulPairs(controls, n - 1, formIndex, submitIndex)
      + if IsSuccessful(c, n - 1, submitIndex, formIndex) then [(c.name, SubmitValue(c))] else []
  }

  lemma EmptyBody(locale: set<Byte>)
    ensures Body([], locale) == [] && Urlencoded([], locale) == []
  {
  }

  lemma {:induction false} BodyAppends(pairs: seq<Pair>, p: Pair, locale: set<Byte>)
    ensures Body(pairs + [p], locale) ==
            if pairs == [] then PairText(p, locale) else Body(pairs, locale) + [AMPERSAND] + PairText(p, locale)
  {
    hide PairText;
    if pairs != [] {
      var first, rest := pairs[0], pairs[1..];
      assert pairs == [first] + rest && pairs + [p] == [first] + (rest + [p]);
      BodyAppends(rest, p, locale);
      if rest != [] {
      }
    }
  }

  lemma EncodedStep(before: Bytes, s: Bytes, i: nat, locale: set<Byte>)
    requires i < |s|
    ensures before + Urlencoded(s[i..], locale) ==
            (before + EncodeByte(s[i], locale)) + Urlencoded(s[i + 1..], locale)
  {
    assert s[i..][1..] == s[i + 1..];
  }

  /** `form_urlencode_append`: the encoded bytes are appended to the buffer. */
  method AppendUrlencoded(buffer: Bytes, s: Bytes, locale: set<Byte>) returns (r: Bytes)
    ensures r == buffer + Urlencoded(s, locale)
  {
    hide Urlencoded;
    r := buffer;
    assert s[0..] == s;
    for i := 0 to |s|
      invariant r + Urlencoded(s[i..], locale) == buffer + Urlencoded(s, locale)
    {
      var c := s[i];
      ghost var before := r;
      EncodedStep(before, s, i, locale);
      if Plain(c, locale) {
        r := r + [c];
      } else if c == 32 {
        r := r + [PLUS];
      } else {
        r := r + [PERCENT, HexDigit(c / 16), HexDigit(c % 16)];
      }
      assert r == before + EncodeByte(c, locale);
    }
    assert s[|s|..] == [] && Urlencoded([], locale) == [] by { EmptyBody(locale); }
  }

  method AppendPair(buffer: Bytes, p: Pair, locale: set<Byte>) returns (r: Bytes)
    ensures r == buffer + PairText(p, locale)
  {
    hide Urlencoded;
    r := AppendUrlencoded(buffer, p.0, locale);
    r := r + [EQUALS];
    r := AppendUrlencoded(r, p.1, locale);
    var a, b := Urlencoded(p.0, locale), Urlencoded(p.1, locale);
    assert buffer + a + [EQUALS] + b == buffer + (a + [EQUALS] + b);
  }

  /** `build_urlencoded_form`: parsing the body gives exactly the successful controls' pairs. */
  method BuildUrlencodedForm(controls: seq<ControlItem>, formIndex: int, submitIndex: int, locale: set<Byte>)
    returns (body: Bytes)
    ensures body == Body(SuccessfulPairs(controls, |controls|, formIndex, submitIndex), locale)
    ensures Parse(body) == SuccessfulPairs(controls, |controls|, formIndex, submitIndex)
  {
    hide Urlencoded, Parse, SubmitValue, IsSuccessful, Body;
    EmptyBody(locale);
    body := [];
    var first := true;
    for i := 0 to |controls|
      invariant body == Body(SuccessfulPairs(controls, i, formIndex, submitIndex), locale)
      invariant first <==> SuccessfulPairs(controls, i, formIndex, submitIndex) == []
    {
      var c := controls[i];
      ghost var before := SuccessfulPairs(controls, i, formIndex, submitIndex);
      assert before + [] == before;
      if IsSuccessful(c, i, submitIndex, formIndex) {
        BodyAppends(before, (c.name, SubmitValue(c)), locale);
        if !first {
          body := body + [AMPERSAND];
        }
        first := false;
        body := AppendPair(body, (c.name, SubmitValue(c)), locale);
      }
    }
    ParseBody(SuccessfulPairs(controls, |controls|, formIndex, submitIndex), locale);
  }

  predicate IsButton(c: ControlItem) {
    c.kind == Submit || c.kind == Button
  }

  /** How many of the first `n` controls are successful buttons, or successful controls of other kinds. */
  function SuccessfulCount(controls: seq<ControlItem>, n: nat, formIndex: int, submitIndex: int, buttons: bool): (count: nat)
    requires n <= |controls|
  {
    if n == 0 then 0
    else SuccessfulCount(controls, n - 1, formIndex, submitIndex, buttons)
         + if IsSuccessful(controls[n - 1], n - 1, submitIndex, formIndex) && IsButton(controls[n - 1]) == buttons then 1 else 0
  }

  /**
   In any form only the pressed button can be submitted, and only if it submits; so at most one pair comes from a
   button, and one does exactly when the pressed control is such a button of the form.
   */
  lemma {:induction false} OnlyPressedButton(controls: seq<ControlItem>, formIndex: int, submitIndex: int, n: nat)
    requires n <= |controls|
    ensures forall i :: 0 <= i < n && (controls[i].kind == Submit || controls[i].kind == Button)
                        && IsSuccessful(controls[i], i, submitIndex, formIndex) ==>
              i == submitIndex && controls[i].buttonSubmits
    ensures |SuccessfulPairs(controls, n, formIndex, submitIndex)|
            == SuccessfulCount(controls, n, formIndex, submitIndex, true) + SuccessfulCount(controls, n, formIndex, submitIndex, false)
    ensures SuccessfulCount(controls, n, formIndex, submitIndex, true)
            == if 0 <= submitIndex < n && (controls[submitIndex].kind == Submit || controls[submitIndex].kind == Button)
                  && IsSuccessful(controls[submitIndex], submitIndex, submitIndex, formIndex) then 1 else 0
  {
    if n > 0 {
      OnlyPressedButton(controls, formIndex, submitIndex, n - 1);
    }
  }

  // ----- text in names and values -----

  /** A name and a value as text. */
  type TextPair = (seq<nat>, seq<nat>)

  ghost predicate AreTexts(texts: seq<TextPair>) {
    forall i :: 0 <= i < |texts| ==> AllScalar(texts[i].0) && AllScalar(texts[i].1)
  }

  /** The bytes of texts in UTF-8. */
  ghost function Encoded(texts: seq<TextPair>): (pairs: seq<Pair>)
    requires AreTexts(texts)
    ensures |pairs| == |texts|
    ensures forall i :: 0 <= i < |pairs| ==> pairs[i] == (EncodeAll(texts[i].0), EncodeAll(texts[i].1))
  {
    seq(|texts|, i requires 0 <= i < |texts| => (EncodeAll(texts[i].0), EncodeAll(texts[i].1)))
  }

  /** Where names and values are text, the UTF-8 decoding that ends the parse gives the text back. */
  lemma ParseText(texts: seq<TextPair>, locale: set<Byte>, i: nat)
    requires AreTexts(texts) && i < |texts|
    ensures var pairs := Parse(Body(Encoded(texts), locale));
            && |pairs| == |texts| && WellFormed(pairs[i].0) && WellFormed(pairs[i].1)
            && DecodeAll(pairs[i].0) == texts[i].0 && DecodeAll(pairs[i].1) == texts[i].1
  {
    hide Parse, Body, WellFormed, EncodeAll;
    ParseBody(Encoded(texts), locale);
    DecodeAllEncoded(texts[i].0);
    DecodeAllEncoded(texts[i].1);
  }

  // ----- what the parts mean -----

  /** Letters, digits and four marks stand for themselves, and what the locale counts as a letter or digit. */
  lemma PlainIff(b: Byte, locale: set<Byte>)
    ensures var c := b as char;
            Plain(b, locale) <==> '0' <= c <= '9' || 'A' <= c <= 'Z' || 'a' <= c <= 'z' || c in "-_.~" || (b >= 128 && b in locale)
  {
  }

  /** A byte stands for itself, or a plus for a space, or a percent sign and two upper-case digits for any other. */
  lemma EncodedByteIs(b: Byte, locale: set<Byte>)
    ensures var digits := ByteText.Ascii("0123456789ABCDEF");
            EncodeByte(b, locale) == if Plain(b, locale) then [b]
                                     else if b == 32 then ByteText.Ascii("+")
                                     else ByteText.Ascii("%") + [digits[b / 16], digits[b % 16]]
  {
    var digits := ByteText.Ascii("0123456789ABCDEF");
    assert forall n :: 0 <= n < 16 ==> digits[n] == HexDigit(n);
    assert ByteText.Ascii("+") == [43] && ByteText.Ascii("%") == [37];
  }

  /** The parser takes hexadecimal digits of either case. */
  lemma HexDigitsCount(n: nat)
    requires n < 16
    ensures var upper, lower := ByteText.Ascii("0123456789ABCDEF"), ByteText.Ascii("0123456789abcdef");
            IsHex(upper[n]) && IsHex(lower[n]) && HexValue(upper[n]) == HexValue(lower[n]) == n
  {
  }

  /** A selection with options submits the one selected, or the first when none is; all else submits its value. */
  lemma SubmitValueIs(c: ControlItem)
    ensures c.kind != Select || c.optionValues == [] ==> SubmitValue(c) == c.value
    ensures c.kind == Select && 0 <= c.selected < |c.optionValues| ==> SubmitValue(c) == c.optionValues[c.selected]
    ensures c.kind == Select && c.optionValues != [] && !(0 <= c.selected < |c.optionValues|) ==> SubmitValue(c) == c.optionValues[0]
  {
  }

  /**
   A control takes part if it has a name, is not disabled and belongs to the form, or is itself pressed outside any;
   a box must be checked as well, and a button must be the one pressed and submit.
   */
  lemma IsSuccessfulIff(c: ControlItem, index: int, submitIndex: int, formIndex: int)
    ensures var pressed := index == submitIndex;
            var ready := if c.kind in {Checkbox, Radio} then c.checked
                         else if c.kind in {Submit, Button} then pressed && c.buttonSubmits else true;
            IsSuccessful(c, index, submitIndex, formIndex) <==>
              |c.name| > 0 && !c.disabled && ready && (c.formIndex == formIndex || (formIndex < 0 && pressed))
  {
  }

  /** Each successful control is submitted, at the place that the successful ones before it leave. */
  lemma {:induction false} PairIs(controls: seq<ControlItem>, n: nat, i: nat, formIndex: int, submitIndex: int)
    requires i < n <= |controls| && IsSuccessful(controls[i], i, submitIndex, formIndex)
    ensures var at := |SuccessfulPairs(controls, i, formIndex, submitIndex)|;
            var pairs := SuccessfulPairs(controls, n, formIndex, submitIndex);
            at < |pairs| && pairs[at] == (controls[i].name, SubmitValue(controls[i]))
  {
    hide IsSuccessful, SubmitValue;
    if i < n - 1 {
      PairIs(controls, n - 1, i, formIndex, submitIndex);
    }
  }
}
