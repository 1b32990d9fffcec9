/**
 * The code editor's key handling: Tab replaces the selection with two
 * spaces and puts the caret after them; other keys are left to the
 * text area.
 */
module CodeEditor {

  function Clamp(x: int, n: nat): nat {
    if x < 0 then 0 else if x > n then n else x
  }

  /** `String.prototype.substring`: both indices clamped to 0..|s| and
      taken in increasing order. */
  function Substring(s: string, from: int, to: int): (r: string)
    ensures 0 <= from <= to <= |s| ==> r == s[from..to]
    ensures 0 <= to <= from <= |s| ==> r == s[to..from]
    ensures |r| <= |s|
  {
    var i, j := Clamp(from, |s|), Clamp(to, |s|);
    if i <= j then s[i..j] else s[j..i]
  }

  /** The order of the two indices does not matter. */
  lemma SubstringSymmetric(s: string, from: int, to: int)
    ensures Substring(s, from, to) == Substring(s, to, from)
  {
  }

  /** Indices outside 0..|s| act as the nearest end of the text. */
  lemma SubstringClamps(s: string, from: int, to: int)
    ensures Substring(s, from, to) == Substring(s, Clamp(from, |s|), Clamp(to, |s|))
    ensures from <= 0 && |s| <= to ==> Substring(s, from, to) == s
  {
    assert s[0..|s|] == s;
  }

  /** `value.substring(0, start) + "  " + value.substring(end)`: for a
      selection inside the text, the splice keeps everything before the
      selection and everything after it, and puts two spaces in its place;
      the caret target start + 2 is just after the spaces. */
  function TabSplice(value: string, start: int, end: int): (r: string)
    ensures 0 <= start <= end <= |value| ==>
      |r| == |value| - (end - start) + 2 &&
      r[..start] == value[..start] && r[start..start + 2] == "  " && r[start + 2..] == value[end..]
  {
    Substring(value, 0, start) + "  " + Substring(value, end, |value|)
  }

  /** What a key press does: nothing, or a new value and the caret position
      scheduled for it. */
  datatype KeyResult = Unhandled | Indented(value: string, caret: int)

  /** `handleKeyDown`, with the text area's selection as `start`..`end`. */
  function HandleKeyDown(key: string, value: string, start: int, end: int): (r: KeyResult)
    ensures key != "Tab" ==> r == Unhandled
    ensures key == "Tab" ==> r.Indented? && r.caret == start + 2
    ensures key == "Tab" && 0 <= start <= end <= |value| ==>
      |r.value| == |value| - (end - start) + 2 &&
      r.value[..start] == value[..start] && r.value[start..start + 2] == "  " && r.value[start + 2..] == value[end..]
  {
    if key == "Tab" then
      Indented(TabSplice(value, start, end), start + 2)
    else Unhandled
  }

  /** With no selection, Tab inserts two spaces at the caret, and taking
      them out again gives the old value back. */
  lemma TabAtCaretInserts(value: string, caret: int)
    requires 0 <= caret <= |value|
    ensures TabSplice(value, caret, caret) == value[..caret] + "  " + value[caret..]
    ensures var r := TabSplice(value, caret, caret); r[..caret] + r[caret + 2..] == value
  {
    assert value[..caret] + value[caret..] == value;
  }

  /** Selection positions past the end of the text are clamped: the two
      spaces go at the end. */
  lemma TabPastEnd(value: string, start: int, end: int)
    requires |value| <= start <= end
    ensures TabSplice(value, start, end) == value + "  "
  {
    assert value[0..|value|] == value;
    assert value[|value|..|value|] == [];
  }
}
