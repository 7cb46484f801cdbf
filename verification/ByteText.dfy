/** Text as bytes, in the C locale: spaces, digits, trimming, and search for ASCII text. */
module ByteText {
  import opened Utf8

  function Ascii(text: string): (r: Bytes)
    ensures |r| == |text|
  {
    seq(|text|, i requires 0 <= i < |text| => if (text[i] as int) < 128 then text[i] as int else 63)
  }

  /** The first place where a text occurs, as `strstr` finds it, or the end. */
  function Place(text: Bytes, what: Bytes, i: nat): (r: nat)
    requires i <= |text|
    ensures i <= r <= |text|
    ensures r < |text| ==> what <= text[r..]
    decreases |text| - i
  {
    if i == |text| || what <= text[i..] then i else Place(text, what, i + 1)
  }

  predicate Contains(text: Bytes, what: Bytes) {
    Place(text, what, 0) < |text|
  }

  predicate Digit(b: Byte) {
    48 <= b <= 57
  }

  predicate Space(b: Byte) {
    b == 0x20 || 9 <= b <= 13
  }

  function TrimLeft(text: Bytes): (r: Bytes)
    ensures r == [] || !Space(r[0])
  {
    if text == [] || !Space(text[0]) then text else TrimLeft(text[1..])
  }

  function TrimRight(text: Bytes): (r: Bytes)
    ensures r == [] || !Space(r[|r| - 1])
    ensures r <= text
  {
    if text == [] || !Space(text[|text| - 1]) then text else TrimRight(text[..|text| - 1])
  }

  /** A text without the spaces around it. */
  function Trimmed(text: Bytes): (r: Bytes)
    ensures r == [] || !Space(r[0])
  {
    TrimRight(TrimLeft(text))
  }

  /** A text copied to a buffer of some size. */
  function Copied(text: Bytes, size: nat): (r: Bytes)
    requires size > 0
  {
    if |text| < size then text else text[..size - 1]
  }

  /** The end of the paragraph, or line of source text, that goes on at `i`: its newline or the end of the text. */
  function ParagraphEnd(text: Bytes, i: nat): (end: nat)
    requires i <= |text|
    ensures i <= end <= |text|
    decreases |text| - i
  {
    if i == |text| || text[i] == 10 then i else ParagraphEnd(text, i + 1)
  }

  lemma {:induction false} ParagraphHasNoNewline(text: Bytes, i: nat)
    requires i <= |text|
    ensures var end := ParagraphEnd(text, i);
            (forall k :: i <= k < end ==> text[k] != 10) && (end < |text| ==> text[end] == 10)
    decreases |text| - i
  {
    if i < |text| && text[i] != 10 {
      ParagraphHasNoNewline(text, i + 1);
    }
  }

  // ----- what these say of a text -----

  lemma AsciiIs(text: string)
    ensures forall i :: 0 <= i < |text| && text[i] < 128 as char ==> Ascii(text)[i] == text[i] as int
  {
  }

  lemma DigitsAndSpaces(b: Byte)
    ensures Digit(b) <==> b in Ascii("0123456789")
    ensures Space(b) <==> b in Ascii(" \t\n\r") + [11, 12]
  {
    var digits, spaces := Ascii("0123456789"), Ascii(" \t\n\r");
    assert digits == [48, 49, 50, 51, 52, 53, 54, 55, 56, 57] && spaces == [32, 9, 10, 13];
  }

  lemma {:induction false} PlaceIsFirst(text: Bytes, what: Bytes, i: nat)
    requires i <= |text|
    ensures forall k :: i <= k < Place(text, what, i) ==> !(what <= text[k..])
    decreases |text| - i
  {
    if i < |text| && !(what <= text[i..]) {
      PlaceIsFirst(text, what, i + 1);
    }
  }

  /** A text contains another exactly when the other stands somewhere in it. */
  lemma ContainsIff(text: Bytes, what: Bytes)
    ensures Contains(text, what) <==> exists k :: 0 <= k < |text| && what <= text[k..]
  {
    PlaceIsFirst(text, what, 0);
  }

  lemma {:induction false} TrimmedFrom(text: Bytes) returns (i: nat)
    ensures i <= |text| && TrimLeft(text) == text[i..] && forall k :: 0 <= k < i ==> Space(text[k])
  {
    i := 0;
    if text != [] && Space(text[0]) {
      var j := TrimmedFrom(text[1..]);
      i := j + 1;
      assert forall k :: 0 < k < i ==> text[k] == text[1..][k - 1];
    }
  }

  lemma {:induction false} TrimmedTo(text: Bytes)
    ensures forall k :: |TrimRight(text)| <= k < |text| ==> Space(text[k])
  {
    if text != [] && Space(text[|text| - 1]) {
      TrimmedTo(text[..|text| - 1]);
    }
  }

  /** Trimming takes the spaces at both ends, all of them, and nothing else. */
  lemma TrimmedIs(text: Bytes) returns (i: nat, j: nat)
    ensures i <= j <= |text| && Trimmed(text) == text[i..j]
    ensures (forall k :: 0 <= k < i || j <= k < |text| ==> Space(text[k]))
    ensures i < j ==> !Space(text[i]) && !Space(text[j - 1])
  {
    i := TrimmedFrom(text);
    TrimmedTo(text[i..]);
    j := i + |Trimmed(text)|;
    assert forall k :: j <= k < |text| ==> text[k] == text[i..][k - i];
  }

  /** A copy holds as much of the text as the buffer takes beside its NUL. */
  lemma CopiedIs(text: Bytes, size: nat)
    requires size > 0
    ensures var r := Copied(text, size); r <= text && |r| < size && (|r| < size - 1 ==> r == text)
  {
  }
}
