/** The markdown editor component (src/components/RichEditor.js): the toolbar's
    formatting insertion, the change notification, and the effect that pushes a new
    `value` into the editor. The CodeMirror view is modelled by its document and its main
    selection. */
module RichEditor {
  import opened Wrappers
  import MarkdownLinter

  // ---------------------------------------------------------------------------------------
  // The formatting splice

  /** The document after `insertMarkdown(prefix, suffix)` on the selection `[from, to)`:
      the selected text wrapped in the prefix and the suffix, everything around it kept. */
  function Splice(doc: string, from: nat, to: nat, prefix: string, suffix: string): (r: string)
    requires from <= to <= |doc|
    ensures |r| == |doc| + |prefix| + |suffix|
    ensures r[..from] == doc[..from]
    ensures r[from..from + |prefix|] == prefix
    ensures r[from + |prefix|..to + |prefix|] == doc[from..to]
    ensures r[to + |prefix|..to + |prefix| + |suffix|] == suffix
    ensures r[to + |prefix| + |suffix|..] == doc[to..]
  {
    var r := doc[..from] + (prefix + doc[from..to] + suffix) + doc[to..];
    assert r[from..from + |prefix|] == prefix;
    assert r[from + |prefix|..to + |prefix|] == doc[from..to];
    assert r[to + |prefix|..to + |prefix| + |suffix|] == suffix;
    r
  }

  /** Cutting the prefix and the suffix back out gives the document before the splice. */
  lemma Unsplice(doc: string, from: nat, to: nat, prefix: string, suffix: string)
    requires from <= to <= |doc|
    ensures var r := Splice(doc, from, to, prefix, suffix);
            r[..from] + r[from + |prefix|..to + |prefix|] + r[to + |prefix| + |suffix|..] == doc
  {
    assert doc == doc[..from] + doc[from..to] + doc[to..];
  }

  /** The selection after the splice, `{anchor: from + |prefix|, head: to + |prefix|}`: it
      spans the originally selected text, now between the prefix and the suffix. */
  lemma ReselectsOriginal(doc: string, from: nat, to: nat, prefix: string, suffix: string)
    requires from <= to <= |doc|
    ensures var r := Splice(doc, from, to, prefix, suffix);
            && to + |prefix| <= |r|
            && r[from + |prefix|..to + |prefix|] == doc[from..to]
            && r[..from + |prefix|] == doc[..from] + prefix
            && r[to + |prefix|..] == suffix + doc[to..]
  {
    var r := Splice(doc, from, to, prefix, suffix);
    assert r[..from + |prefix|] == r[..from] + r[from..from + |prefix|];
    assert r[to + |prefix|..] == r[to + |prefix|..to + |prefix| + |suffix|] + r[to + |prefix| + |suffix|..];
  }

  // ---------------------------------------------------------------------------------------
  // The toolbar

  datatype Format = Bold | Italic | Link | BulletList | NumberedList | Diagram

  /** The prefix and suffix each button passes to `insertMarkdown`. */
  function Affixes(f: Format): (string, string) {
    match f
    case Bold => ("**", "**")
    case Italic => ("*", "*")
    case Link => ("[", "](url)")
    case BulletList => ("- ", "")
    case NumberedList => ("1. ", "")
    case Diagram => ("```mermaid\n", "\n```")
  }

  /** The buttons that wrap the selection put the same marker on both sides; the list
      buttons only prefix; every button has a prefix, so every press edits the document. */
  lemma AffixShapes(f: Format)
    ensures Affixes(f).0 != []
    ensures f in {Bold, Italic} ==> Affixes(f).0 == Affixes(f).1
    ensures f in {BulletList, NumberedList} ==> Affixes(f).1 == []
  {
  }

  /** The link button pressed with nothing selected writes "[](url)", which the link rule of
      the linter does not match: the text group needs a character. */
  lemma EmptyLinkNotLinted(doc: string, at: nat)
    requires at <= |doc|
    ensures Splice(doc, at, at, Affixes(Link).0, Affixes(Link).1)[at..at + 7] == "[](url)"
    ensures MarkdownLinter.Links("[](url)", 0) == []
  {
    var r := Splice(doc, at, at, "[", "](url)");
    assert r[at..at + 7] == r[at..at + 1] + r[at + 1..at + 7];
    MarkdownLinter.ToolbarEmptyLinkNotReported();
  }

  // ---------------------------------------------------------------------------------------
  // The editor

  /** Whether a CodeMirror transaction changes the document: replacing `[from, to)` by
      `insert` is an empty change only when both are empty. */
  predicate DocChanged(from: nat, to: nat, insert: string) {
    from < to || insert != []
  }

  /** The caret kept when a new `value` replaces the document, moved back to the end of
      `value` when it lay beyond it (see `SyncCaretAsWritten`). */
  function ClampedCaret(head: nat, value: string): (c: nat)
    ensures c <= |value|
    ensures head <= |value| ==> c == head
    ensures head > |value| ==> c == |value|
  {
    if head <= |value| then head else |value|
  }

  /** The caret position of the sync effect as written: the old `head`, which CodeMirror
      rejects with a `RangeError` (`None`) when it lies beyond the new document. */
  function SyncCaretAsWritten(head: nat, value: string): (c: Option<nat>)
    ensures c.Some? <==> head <= |value|
    ensures c.Some? ==> c.value == head
  {
    if head <= |value| then Some(head) else None
  }

  /** A caret at the end of "abc" cannot be kept when the value becomes "a": the effect as
      written throws, and the clamped caret lands on the end of the new document. */
  lemma ShorterValueThrows()
    ensures SyncCaretAsWritten(|"abc"|, "a").None?
    ensures ClampedCaret(|"abc"|, "a") == 1
  {
  }

  /** Where both agree: whenever the effect as written does not throw, the clamped caret
      is the same one. */
  lemma ClampedAgreesWhenInRange(head: nat, value: string)
    ensures SyncCaretAsWritten(head, value).Some? ==> SyncCaretAsWritten(head, value).value == ClampedCaret(head, value)
  {
  }

  /** The editor component: whether its view exists (`viewRef.current`), whether
      `isEditorReady` is set, the view's document and main selection, whether it has focus,
      and every document handed to `onChange`. */
  class Editor {
    var hasView: bool
    var ready: bool
    var doc: string
    var anchor: nat
    var head: nat
    var focused: bool
    var emitted: seq<string>

    /** The selection lies inside the document. */
    predicate Valid()
      reads this
    {
      anchor <= |doc| && head <= |doc|
    }

    /** The main selection as a range. */
    function From(): nat
      reads this
    {
      if anchor <= head then anchor else head
    }

    function To(): nat
      reads this
    {
      if anchor <= head then head else anchor
    }

    /** The first render, before the mount effect has run. */
    constructor()
      ensures Valid() && !hasView && !ready && doc == [] && emitted == [] && !focused
    {
      hasView, ready, doc, anchor, head, focused, emitted := false, false, [], 0, 0, false, [];
    }

    /** The mount effect: a view over `value` with the caret at its start, then ready. */
    method Mount(value: string)
      modifies this
      ensures Valid() && hasView && ready && doc == value && anchor == 0 && head == 0
      ensures focused == old(focused) && emitted == old(emitted)
    {
      doc, anchor, head := value, 0, 0;
      hasView := true;
      ready := true;
    }

    /** The update listener: `onChange` is called with the new document only for updates
        that changed it. */
    method HandleUpdate(docChanged: bool)
      modifies this
      ensures emitted == old(emitted) + (if docChanged then [doc] else [])
      ensures hasView == old(hasView) && ready == old(ready) && doc == old(doc)
      ensures anchor == old(anchor) && head == old(head) && focused == old(focused)
    {
      if docChanged {
        emitted := emitted + [doc];
      }
    }

    /** `insertMarkdown(prefix, suffix)`: without a view, nothing; otherwise the splice, the
        selection moved onto the original text, the update, and focus. */
    method InsertMarkdown(prefix: string, suffix: string)
      requires Valid()
      modifies this
      ensures Valid()
      ensures !old(hasView) ==> doc == old(doc) && anchor == old(anchor) && head == old(head)
                                && emitted == old(emitted) && focused == old(focused)
      ensures old(hasView) ==>
                && doc == Splice(old(doc), old(From()), old(To()), prefix, suffix)
                && anchor == old(From()) + |prefix| && head == old(To()) + |prefix|
                && focused
                && emitted == old(emitted) + (if DocChanged(old(From()), old(To()), prefix + old(doc)[old(From())..old(To())] + suffix) then [doc] else [])
      ensures hasView == old(hasView) && ready == old(ready)
    {
      if !hasView {
        return;
      }
      var from, to := From(), To();
      var selectedText := doc[from..to];
      var replacement := prefix + selectedText + suffix;
      doc := doc[..from] + replacement + doc[to..];
      assert doc == Splice(old(doc), from, to, prefix, suffix);
      anchor, head := from + |prefix|, to + |prefix|;
      HandleUpdate(DocChanged(from, to, replacement));
      focused := true;
    }

    /** The value-sync effect: when ready and `value` differs from the document, the whole
        document is replaced by `value`, keeping the caret (clamped into the new document,
        see `SyncCaretAsWritten`); the replacement is an update that changed the document. */
    method SyncValue(value: string)
      requires Valid()
      modifies this
      ensures Valid()
      ensures !(old(ready) && old(hasView) && value != old(doc)) ==>
                doc == old(doc) && anchor == old(anchor) && head == old(head) && emitted == old(emitted)
      ensures old(ready) && old(hasView) && value != old(doc) ==>
                && doc == value
                && anchor == ClampedCaret(old(head), value) && head == anchor
                && emitted == old(emitted) + [value]
      ensures hasView == old(hasView) && ready == old(ready) && focused == old(focused)
    {
      if ready && hasView && value != doc {
        var currentPos := ClampedCaret(head, value);
        var length := |doc|;
        doc := doc[..0] + value + doc[length..];
        assert doc == value;
        anchor, head := currentPos, currentPos;
        HandleUpdate(DocChanged(0, length, value));
      }
    }
  }

  /** With nothing selected, the caret lands between the prefix and the suffix. */
  lemma CaretBetweenAffixes(doc: string, at: nat, prefix: string, suffix: string)
    requires at <= |doc|
    ensures var r := Splice(doc, at, at, prefix, suffix);
            r[..at + |prefix|] == doc[..at] + prefix && r[at + |prefix|..] == suffix + doc[at..]
  {
    ReselectsOriginal(doc, at, at, prefix, suffix);
  }

  /** A toolbar press on a mounted editor always reports the new document once. */
  method PressButton(e: Editor, f: Format)
    requires e.Valid() && e.hasView
    modifies e
    ensures e.Valid()
    ensures e.doc == Splice(old(e.doc), old(e.From()), old(e.To()), Affixes(f).0, Affixes(f).1)
    ensures e.emitted == old(e.emitted) + [e.doc]
  {
    AffixShapes(f);
    e.InsertMarkdown(Affixes(f).0, Affixes(f).1);
  }
}
