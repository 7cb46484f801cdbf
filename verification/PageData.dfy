/**
 What a browser page holds besides its text: links and form controls, each
 anchored to an offset of the text.
 */
module PageData {
  import opened Utf8

  datatype LinkItem = LinkItem(caption: Bytes, url: Bytes)

  datatype ControlKind =
    | Hidden | Text | Search | Password | Email | Url | Number | TextArea
    | Select | Checkbox | Radio | Submit | Button

  datatype ControlItem = ControlItem(
    caption: Bytes,
    name: Bytes,
    value: Bytes,
    kind: ControlKind,
    formIndex: int,
    checked: bool,
    optionValues: seq<Bytes>,
    selected: int,
    disabled: bool,
    buttonSubmits: bool)

  /** An item and the text offset it is anchored to. */
  datatype Mark<+T> = Mark(item: T, offset: nat)

  type Link = Mark<LinkItem>

  type Control = Mark<ControlItem>
}
