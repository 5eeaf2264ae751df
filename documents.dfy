/**
 * `getDocument(PsiFile)` of ProjectUtil.kt: ask the document manager for the
 * file's document; if it has none, register a new document seeded with the
 * file's PSI text and ask again.
 *
 * The manager is a map from virtual files to documents. Whether it keeps a
 * registered document (so that the second request finds it) is the host's
 * decision, given as `accepts`.
 */
module Documents {
  import opened Wrappers

  datatype VirtualFile = VirtualFile(id: nat)

  /** A document: its identity and its current text. */
  datatype Document = Document(id: nat, text: string)

  /** What one `getDocument` call returns and the manager state it leaves. */
  datatype Registration = Registration(document: Option<Document>, docs: map<VirtualFile, Document>, nextId: nat)

  /** Every registered document has an identity below `nextId`. */
  ghost predicate IdsBelow(docs: map<VirtualFile, Document>, nextId: nat) {
    forall f :: f in docs ==> docs[f].id < nextId
  }

  /** One `getDocument(file)` call; `contents` is the file's PSI text. */
  function GetOrRegister(
    docs: map<VirtualFile, Document>, nextId: nat, file: VirtualFile, contents: string, accepts: bool): (s: Registration)
    // a document the manager already has is returned and nothing changes
    ensures file in docs ==> s == Registration(Some(docs[file]), docs, nextId)
    // null only when there was none and the registration did not stick
    ensures s.document.None? <==> file !in docs && !accepts
    ensures s.document.None? ==> s.docs == docs && s.nextId == nextId
    // a registered document is new, holds the PSI text, and is what the manager now has for `file`
    ensures file !in docs && accepts ==>
              && s.document == Some(Document(nextId, contents))
              && s.docs == docs[file := Document(nextId, contents)]
              && s.nextId == nextId + 1
    ensures IdsBelow(docs, nextId) ==> IdsBelow(s.docs, s.nextId)
    ensures IdsBelow(docs, nextId) && file !in docs && s.document.Some? ==>
              forall f :: f in docs ==> docs[f].id != s.document.value.id
  {
    if file in docs then Registration(Some(docs[file]), docs, nextId)
    else if accepts then
      var created := Document(nextId, contents);
      Registration(Some(created), docs[file := created], nextId + 1)
    else Registration(None, docs, nextId)
  }

  /** A document once obtained is returned again, unchanged, and nothing is registered twice. */
  lemma GetOrRegisterIdempotent(
    docs: map<VirtualFile, Document>, nextId: nat, file: VirtualFile, contents: string, accepts: bool,
    contents': string, accepts': bool)
    requires GetOrRegister(docs, nextId, file, contents, accepts).document.Some?
    ensures var first := GetOrRegister(docs, nextId, file, contents, accepts);
      GetOrRegister(first.docs, first.nextId, file, contents', accepts') == first
  {
  }

  /** `FileDocumentManager`, as far as `getDocument(PsiFile)` sees it. */
  class DocumentStore {
    var docs: map<VirtualFile, Document>
    var nextId: nat

    ghost predicate Valid()
      reads this
    {
      IdsBelow(docs, nextId)
    }

    constructor ()
      ensures Valid() && docs == map[]
    {
      docs := map[];
      nextId := 0;
    }

    /** `getDocument(file: PsiFile)`. */
    method GetDocument(file: VirtualFile, contents: string, accepts: bool) returns (doc: Option<Document>)
      requires Valid()
      modifies this
      ensures Valid()
      ensures Registration(doc, docs, nextId) == GetOrRegister(old(docs), old(nextId), file, contents, accepts)
      ensures doc.Some? ==> file in docs && docs[file] == doc.value
      ensures forall f :: f != file ==> (f in docs <==> f in old(docs)) && (f in docs ==> docs[f] == old(docs)[f])
    {
      if file in docs {
        return Some(docs[file]);
      }
      var created := Document(nextId, contents);
      if accepts {
        docs := docs[file := created];
        nextId := nextId + 1;
      }
      if file in docs {
        return Some(docs[file]);
      }
      return None;
    }
  }
}
