/** Memento: an `Editor` can hand out snapshots of its content and be reset
    to one; an `EditorHistory` keeps the snapshots on a stack, so restoring
    goes back through them newest first. */
module Memento {
  import opened Wrappers

  /** The editor's `Content`; `None` is the null it holds before the first
      assignment. */
  datatype Editor = Editor(content: Option<string>)

  /** An `EditorMemento`: its content is set once, by its constructor. */
  datatype EditorMemento = EditorMemento(content: Option<string>)

  /** The caretaker's stack, most recent snapshot last. */
  type History = seq<EditorMemento>

  /** The `Content` setter. */
  function SetContent(e: Editor, text: string): (r: Editor)
    ensures r.content == Some(text)
  {
    Editor(Some(text))
  }

  /** `Editor.CreateMemento`: a snapshot of the current content. */
  function CreateMemento(e: Editor): (m: EditorMemento)
    ensures m.content == e.content
  {
    EditorMemento(e.content)
  }

  /** `Editor.RestoreMemento`: the editor takes the snapshot's content, and
      whatever content it had before is forgotten. */
  function RestoreMemento(e: Editor, m: EditorMemento): (r: Editor)
    ensures r.content == m.content
    ensures CreateMemento(r) == m
  {
    Editor(m.content)
  }

  /** Snapshot and restore are inverse: restoring a snapshot of `e` into any
      editor yields `e`, and a snapshot of an editor restored from `m` is `m`. */
  lemma SnapshotRoundTrip(e: Editor, other: Editor, m: EditorMemento)
    ensures RestoreMemento(other, CreateMemento(e)) == e
    ensures CreateMemento(RestoreMemento(other, m)) == m
  {
  }

  /** `EditorHistory.SaveState`: pushes a snapshot of the editor, which is
      left unchanged. */
  function SaveState(h: History, e: Editor): (r: (History, Editor))
    ensures |r.0| == |h| + 1 && r.0[..|h|] == h
    ensures r.0[|h|].content == e.content
    ensures r.1 == e
  {
    var pushed := h + [CreateMemento(e)];
    assert pushed[..|h|] == h;
    (pushed, e)
  }

  /** `EditorHistory.RestoreState`: on a non-empty stack, pops the most
      recent snapshot and restores the editor from it; on an empty stack,
      changes neither. */
  function RestoreState(h: History, e: Editor): (r: (History, Editor))
    ensures |h| == 0 ==> r == (h, e)
    ensures |h| > 0 ==> r.0 == h[..|h| - 1] && r.1.content == h[|h| - 1].content
  {
    if |h| > 0 then (h[..|h| - 1], RestoreMemento(e, h[|h| - 1])) else (h, e)
  }

  /** Saving, editing in any way, then restoring brings back the saved
      content and the history as it was before the save; since a snapshot is
      a value, no later edit of the editor reaches it. Applied to a stack of
      saves this is last-in, first-out order. */
  lemma SaveEditRestore(h: History, e: Editor, edited: Editor)
    ensures var (h1, _) := SaveState(h, e);
      RestoreState(h1, edited) == (h, e)
  {
    var (h1, _) := SaveState(h, e);
    assert h1[..|h1| - 1] == h;
  }

  /** The driver: save "Text 1", save "Text 2", set "Text 3"; the first
      restore brings back "Text 2", the second "Text 1", leaving the stack
      empty. */
  lemma EditorScenario()
    ensures
      var e0 := Editor(None);
      var e1 := SetContent(e0, "Text 1");
      var (h1, e2) := SaveState([], e1);
      var e3 := SetContent(e2, "Text 2");
      var (h2, e4) := SaveState(h1, e3);
      var e5 := SetContent(e4, "Text 3");
      var (h3, e6) := RestoreState(h2, e5);
      var (h4, e7) := RestoreState(h3, e6);
      e6.content == Some("Text 2") && e7.content == Some("Text 1") && |h4| == 0
  {
  }
}
