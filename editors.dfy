/**
 * The editor sandbox of EditorUtil.kt: `withEditor` (create an editor, run
 * the callback, log what it throws, always release the editor) and
 * `differenceFromAction` (run a callback on a copy of a file and return the
 * edits that turn the original's text into the copy's).
 *
 * The editor factory is recorded as the sequence of what happened to editors.
 * A callback is a function from the document text it starts with to the text
 * it leaves and whether it threw.
 */
module Editors {
  import opened Wrappers
  import opened Documents
  import opened TextEdits

  datatype Event =
    | Acquired(editor: nat)   // createEditor
    | Released(editor: nat)   // EditorFactory.releaseEditor
    | Logged(message: string) // LOG.error for an exception of the callback

  /** The copy's text after the callback, and the exception if it threw one. */
  datatype CallbackOutcome = Returned(text: string) | Threw(text: string, message: string)

  /**
   * The exception `createEditor` is taken to raise on a file without a
   * document, as the `createEditor` of ProjectUtil.kt does with
   * `getDocument(file)!!`.
   */
  datatype EditorError = NoDocument(file: VirtualFile)

  /** The editors acquired in `events` and not released since. */
  function LiveEditors(events: seq<Event>): set<nat>
    decreases |events|
  {
    if events == [] then {}
    else
      var before := LiveEditors(events[..|events| - 1]);
      match events[|events| - 1]
      case Acquired(e) => before + {e}
      case Released(e) => before - {e}
      case Logged(_) => before
  }

  /** What one `withEditor` call with a document records. */
  function Session(editor: nat, outcome: CallbackOutcome): seq<Event> {
    [Acquired(editor)] + (if outcome.Threw? then [Logged(outcome.message)] else []) + [Released(editor)]
  }

  /** A session on an editor that was not live leaves the live editors as they were. */
  lemma SessionLeavesNoEditor(events: seq<Event>, editor: nat, outcome: CallbackOutcome)
    requires editor !in LiveEditors(events)
    ensures LiveEditors(events + Session(editor, outcome)) == LiveEditors(events)
  {
    var acquired := events + [Acquired(editor)];
    assert acquired[..|acquired| - 1] == events;
    assert LiveEditors(acquired) == LiveEditors(events) + {editor};
    var logged := acquired + (if outcome.Threw? then [Logged(outcome.message)] else []);
    assert LiveEditors(logged) == LiveEditors(events) + {editor} by {
      if outcome.Threw? {
        assert logged[..|logged| - 1] == acquired;
      } else {
        assert logged == acquired;
      }
    }
    var released := logged + [Released(editor)];
    assert released[..|released| - 1] == logged;
    assert released == events + Session(editor, outcome);
  }

  /** `EditorFactory`, as seen through the editors `withEditor` creates. */
  class EditorFactory {
    var events: seq<Event>
    var nextEditor: nat

    ghost predicate Valid()
      reads this
    {
      forall e :: e in LiveEditors(events) ==> e < nextEditor
    }

    constructor ()
      ensures Valid() && events == [] && nextEditor == 0
    {
      events := [];
      nextEditor := 0;
    }

    /**
     * `withEditor`: `createEditor` (which needs the file's document), then the
     * callback inside try/catch/finally. The editor is released exactly once,
     * whether or not the callback throws, and its exception is logged rather
     * than propagated.
     */
    method WithEditor(
      store: DocumentStore, file: VirtualFile, contents: string, accepts: bool, callback: string -> CallbackOutcome)
      returns (r: Outcome<EditorError>)
      requires Valid() && store.Valid()
      modifies this, store
      ensures Valid() && store.Valid()
      ensures LiveEditors(events) == LiveEditors(old(events))
      ensures var s := GetOrRegister(old(store.docs), old(store.nextId), file, contents, accepts);
        match s.document
        case None =>
          && r == Fail(NoDocument(file))
          && events == old(events) && nextEditor == old(nextEditor)
          && store.docs == old(store.docs) && store.nextId == old(store.nextId)
        case Some(doc) =>
          var outcome := callback(doc.text);
          && r == Pass
          && events == old(events) + Session(old(nextEditor), outcome)
          && nextEditor == old(nextEditor) + 1
          && store.docs == s.docs[file := doc.(text := outcome.text)]
          && store.nextId == s.nextId
    {
      var doc := store.GetDocument(file, contents, accepts);
      if doc.None? {
        return Fail(NoDocument(file));
      }
      var editor := nextEditor;
      nextEditor := nextEditor + 1;
      events := events + [Acquired(editor)];
      var outcome := callback(doc.value.text);
      store.docs := store.docs[file := doc.value.(text := outcome.text)];
      if outcome.Threw? {
        events := events + [Logged(outcome.message)];
      }
      events := events + [Released(editor)];
      assert events == old(events) + Session(editor, outcome);
      SessionLeavesNoEditor(old(events), editor, outcome);
      return Pass;
    }
  }

  /** What `compareChars` is assumed to guarantee for every pair of texts. */
  ghost predicate CompareCharsContract(compareChars: (string, string) -> seq<Fragment>) {
    forall a, b :: IsCharDiff(a, b, compareChars(a, b))
  }

  /**
   * `differenceFromAction`: `copy` is the new file `createFileCopy` makes,
   * with the same PSI text `contents` as `file`; the callback runs on the
   * copy's document inside `withEditor`; then both documents are fetched (a
   * null one makes the result null) and `textEditFromDocs` compares them.
   */
  method DifferenceFromAction(
    store: DocumentStore, editors: EditorFactory, file: VirtualFile, copy: VirtualFile, contents: string,
    accepts: VirtualFile -> bool, callback: string -> CallbackOutcome,
    compareChars: (string, string) -> seq<Fragment>, offsetToPosition: (string, nat) -> Position)
    returns (r: Result<Option<seq<TextEdit>>, EditorError>)
    requires store.Valid() && editors.Valid()
    requires copy != file && copy !in store.docs
    requires CompareCharsContract(compareChars)
    modifies store, editors
    ensures store.Valid() && editors.Valid()
    ensures LiveEditors(editors.events) == LiveEditors(old(editors.events))
    // the callback never touches the original's document
    ensures file in old(store.docs) ==> file in store.docs && store.docs[file] == old(store.docs)[file]
    // documents of every other file stay as they were
    ensures forall g :: g != file && g != copy ==>
              && (g in store.docs <==> g in old(store.docs))
              && (g in store.docs ==> store.docs[g] == old(store.docs)[g])
    // an original without a document gets one holding its PSI text, if the manager keeps it
    ensures accepts(copy) && file !in old(store.docs) ==>
              && (accepts(file) <==> file in store.docs)
              && (file in store.docs ==> store.docs[file].text == contents)
    ensures !accepts(copy) ==>
              && r == Failure(NoDocument(copy))
              && store.docs == old(store.docs) && editors.events == old(editors.events)
    ensures accepts(copy) ==>
              && editors.events == old(editors.events) + Session(old(editors.nextEditor), callback(contents))
              && copy in store.docs && store.docs[copy].text == callback(contents).text
    ensures accepts(copy) && file !in old(store.docs) && !accepts(file) ==> r == Success(None)
    ensures accepts(copy) && (file in old(store.docs) || accepts(file)) ==>
              var before := if file in old(store.docs) then old(store.docs)[file].text else contents;
              var after := callback(contents).text;
              && IsCharDiff(before, after, compareChars(before, after))
              && AllNewRangesIn(compareChars(before, after), after)
              && r == Success(Some(TextEditsFromDocs(before, after, compareChars(before, after), offsetToPosition)))
  {
    var session := editors.WithEditor(store, copy, contents, accepts(copy), callback);
    if session.Fail? {
      return Failure(session.error);
    }
    var oldDoc := store.GetDocument(file, contents, accepts(file));
    if oldDoc.None? {
      return Success(None);
    }
    var newDoc := store.GetDocument(copy, contents, accepts(copy));
    if newDoc.None? {
      return Success(None);
    }
    var oldText, newText := oldDoc.value.text, newDoc.value.text;
    var changes := compareChars(oldText, newText);
    AgreesInBounds(oldText, newText, changes, 0, 0);
    return Success(Some(TextEditsFromDocs(oldText, newText, changes, offsetToPosition)));
  }
}
