/**
 * The diff-to-edit translation of EditorUtil.kt: `DiffFragment.toTextEdit`
 * and `textEditFromDocs`.
 *
 * A fragment, as `ComparisonManager.compareChars` returns it, pairs the
 * changed range `[start1, end1)` of the old text with the range
 * `[start2, end2)` of the new text that replaces it. `offsetToPosition` (the
 * old document's offset-to-line/column conversion) is a parameter.
 */
module TextEdits {
  import opened Wrappers

  datatype Fragment = Fragment(start1: nat, end1: nat, start2: nat, end2: nat)

  /** LSP's Position, Range and TextEdit. */
  datatype Position = Position(line: nat, character: nat)
  datatype Range = Range(start: Position, end: Position)
  datatype TextEdit = TextEdit(range: Range, newText: string)

  /** `TextRange(start2, end2)` is a valid range of the new text. */
  predicate NewRangeIn(f: Fragment, newText: string) {
    f.start2 <= f.end2 <= |newText|
  }

  predicate AllNewRangesIn(changes: seq<Fragment>, newText: string) {
    forall i :: 0 <= i < |changes| ==> NewRangeIn(changes[i], newText)
  }

  /** `DiffFragment.toTextEdit(oldDoc, newDoc)`. */
  function ToTextEdit(f: Fragment, oldText: string, newText: string, offsetToPosition: (string, nat) -> Position): (e: TextEdit)
    requires NewRangeIn(f, newText)
    // both ends of the range are positions in the old document
    ensures e.range.start == offsetToPosition(oldText, f.start1)
    ensures e.range.end == offsetToPosition(oldText, f.end1)
    // the replacement text is the new document's text on [start2, end2)
    ensures |e.newText| == f.end2 - f.start2
    ensures forall k :: 0 <= k < |e.newText| ==> e.newText[k] == newText[f.start2 + k]
    // an insertion has an empty range, a deletion an empty text
    ensures f.start1 == f.end1 ==> e.range.start == e.range.end
    ensures f.start2 == f.end2 ==> e.newText == ""
  {
    TextEdit(Range(offsetToPosition(oldText, f.start1), offsetToPosition(oldText, f.end1)), newText[f.start2..f.end2])
  }

  /** `textEditFromDocs`: `changes.map { it.toTextEdit(oldDoc, newDoc) }`, `changes` being the diff. */
  function TextEditsFromDocs(
    oldText: string, newText: string, changes: seq<Fragment>, offsetToPosition: (string, nat) -> Position): (edits: seq<TextEdit>)
    requires AllNewRangesIn(changes, newText)
    // one edit per fragment, in the fragments' order
    ensures |edits| == |changes|
    ensures forall i :: 0 <= i < |changes| ==> edits[i] == ToTextEdit(changes[i], oldText, newText, offsetToPosition)
    decreases |changes|
  {
    if changes == [] then []
    else [ToTextEdit(changes[0], oldText, newText, offsetToPosition)] +
         TextEditsFromDocs(oldText, newText, changes[1..], offsetToPosition)
  }

  /**
   * The contract assumed of `compareChars`, read from the offsets `p1` (old)
   * and `p2` (new) on: the fragments come in ascending order without
   * overlap, and the unchanged text before each fragment, and after the last
   * one, is the same in both texts.
   */
  predicate Agrees(oldText: string, newText: string, changes: seq<Fragment>, p1: nat, p2: nat)
    decreases |changes|
  {
    && p1 <= |oldText| && p2 <= |newText|
    && if changes == [] then oldText[p1..] == newText[p2..]
       else
         var f := changes[0];
         && p1 <= f.start1 <= f.end1 <= |oldText|
         && p2 <= f.start2 <= f.end2 <= |newText|
         && oldText[p1..f.start1] == newText[p2..f.start2]
         && Agrees(oldText, newText, changes[1..], f.end1, f.end2)
  }

  /** `changes` is a character diff of `oldText` into `newText`. */
  predicate IsCharDiff(oldText: string, newText: string, changes: seq<Fragment>) {
    Agrees(oldText, newText, changes, 0, 0)
  }

  /** An edit in offsets of the old text, as a client resolves a TextEdit. */
  datatype OffsetEdit = OffsetEdit(start: nat, end: nat, text: string)

  function ToOffsetEdits(edits: seq<TextEdit>, oldText: string, positionToOffset: (string, Position) -> nat): (r: seq<OffsetEdit>)
    ensures |r| == |edits|
    decreases |edits|
  {
    if edits == [] then []
    else
      var e := edits[0];
      [OffsetEdit(positionToOffset(oldText, e.range.start), positionToOffset(oldText, e.range.end), e.newText)] +
      ToOffsetEdits(edits[1..], oldText, positionToOffset)
  }

  /** The ranges lie in `text` from `cursor` on, ascending and without overlap. */
  predicate Sequential(text: string, edits: seq<OffsetEdit>, cursor: nat)
    decreases |edits|
  {
    && cursor <= |text|
    && (edits != [] ==>
          && cursor <= edits[0].start <= edits[0].end <= |text|
          && Sequential(text, edits[1..], edits[0].end))
  }

  /** Each range of the unedited `text` replaced by its edit's text. */
  function Splice(text: string, edits: seq<OffsetEdit>, cursor: nat): string
    requires Sequential(text, edits, cursor)
    decreases |edits|
  {
    if edits == [] then text[cursor..]
    else text[cursor..edits[0].start] + edits[0].text + Splice(text, edits[1..], edits[0].end)
  }

  /**
   * A TextEdit list applied the way LSP prescribes: every range refers to
   * the unedited text. `None` when the ranges are out of order or overlap.
   */
  function ApplyTextEdits(oldText: string, edits: seq<TextEdit>, positionToOffset: (string, Position) -> nat): Option<string> {
    var es := ToOffsetEdits(edits, oldText, positionToOffset);
    if Sequential(oldText, es, 0) then Some(Splice(oldText, es, 0)) else None
  }

  /** `positionToOffset` undoes `offsetToPosition` on every offset of `text`. */
  ghost predicate PositionsInvertible(
    text: string, offsetToPosition: (string, nat) -> Position, positionToOffset: (string, Position) -> nat)
  {
    forall o: nat :: o <= |text| ==> positionToOffset(text, offsetToPosition(text, o)) == o
  }

  /** The contract keeps every fragment inside both texts. */
  lemma {:induction false} AgreesInBounds(oldText: string, newText: string, changes: seq<Fragment>, p1: nat, p2: nat)
    requires Agrees(oldText, newText, changes, p1, p2)
    ensures AllNewRangesIn(changes, newText)
    ensures forall i :: 0 <= i < |changes| ==> changes[i].start1 <= changes[i].end1 <= |oldText|
    decreases |changes|
  {
    if changes != [] {
      var rest := changes[1..];
      AgreesInBounds(oldText, newText, rest, changes[0].end1, changes[0].end2);
      forall i | 0 < i < |changes|
        ensures NewRangeIn(changes[i], newText) && changes[i].start1 <= changes[i].end1 <= |oldText|
      {
        assert changes[i] == rest[i - 1];
      }
    }
  }

  lemma {:induction false} AgreesSplices(
    oldText: string, newText: string, changes: seq<Fragment>, p1: nat, p2: nat,
    offsetToPosition: (string, nat) -> Position, positionToOffset: (string, Position) -> nat)
    requires Agrees(oldText, newText, changes, p1, p2)
    requires PositionsInvertible(oldText, offsetToPosition, positionToOffset)
    ensures AllNewRangesIn(changes, newText)
    ensures var es := ToOffsetEdits(TextEditsFromDocs(oldText, newText, changes, offsetToPosition), oldText, positionToOffset);
      Sequential(oldText, es, p1) && Splice(oldText, es, p1) == newText[p2..]
    decreases |changes|
  {
    if changes != [] {
      var f := changes[0];
      var rest := changes[1..];
      AgreesInBounds(oldText, newText, changes, p1, p2);
      AgreesSplices(oldText, newText, rest, f.end1, f.end2, offsetToPosition, positionToOffset);
      var edits := TextEditsFromDocs(oldText, newText, changes, offsetToPosition);
      assert edits[1..] == TextEditsFromDocs(oldText, newText, rest, offsetToPosition);
      var es := ToOffsetEdits(edits, oldText, positionToOffset);
      assert es[0] == OffsetEdit(f.start1, f.end1, newText[f.start2..f.end2]);
      assert es[1..] == ToOffsetEdits(TextEditsFromDocs(oldText, newText, rest, offsetToPosition), oldText, positionToOffset);
      calc {
        Splice(oldText, es, p1);
        oldText[p1..f.start1] + newText[f.start2..f.end2] + Splice(oldText, es[1..], f.end1);
        newText[p2..f.start2] + newText[f.start2..f.end2] + newText[f.end2..];
        newText[p2..];
      }
    }
  }

  /**
   * Under the `compareChars` contract, applying the edits of
   * `textEditFromDocs` to the old text reproduces the new text exactly; their
   * ranges are in ascending order and do not overlap.
   */
  lemma EditsReproduceNewText(
    oldText: string, newText: string, changes: seq<Fragment>,
    offsetToPosition: (string, nat) -> Position, positionToOffset: (string, Position) -> nat)
    requires IsCharDiff(oldText, newText, changes)
    requires PositionsInvertible(oldText, offsetToPosition, positionToOffset)
    ensures AllNewRangesIn(changes, newText)
    ensures ApplyTextEdits(oldText, TextEditsFromDocs(oldText, newText, changes, offsetToPosition), positionToOffset)
            == Some(newText)
  {
    AgreesSplices(oldText, newText, changes, 0, 0, offsetToPosition, positionToOffset);
  }

  /**
   * A sanity check of the assumed `compareChars` contract: an empty diff is
   * allowed for two equal texts, and only for those. That comparing equal
   * texts yields no fragments is not stated, as `compareChars` is abstract.
   */
  lemma NoChangesIffEqual(oldText: string, newText: string)
    ensures IsCharDiff(oldText, newText, []) <==> oldText == newText
  {
  }

  /** The insertion of "baz " into "foo bar": one edit with an empty range. */
  lemma InsertionExample(offsetToPosition: (string, nat) -> Position)
    ensures IsCharDiff("foo bar", "foo baz bar", [Fragment(4, 4, 4, 8)])
    ensures TextEditsFromDocs("foo bar", "foo baz bar", [Fragment(4, 4, 4, 8)], offsetToPosition)
            == [TextEdit(Range(offsetToPosition("foo bar", 4), offsetToPosition("foo bar", 4)), "baz ")]
  {
    assert "foo bar"[0..4] == "foo baz bar"[0..4];
    assert "foo bar"[4..] == "foo baz bar"[8..];
    assert "foo baz bar"[4..8] == "baz ";
  }
}
