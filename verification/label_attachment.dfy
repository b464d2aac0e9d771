/** ValueTreeLabelAttachment: keeps one text property of a tree node and the
    text of one label in step, in both directions.

    The same skeleton as the slider attachment, with two differences: the label
    is always updated without notification, so no label event and no queued
    notification ever comes from the tree side; and the constructor as written
    reads its key parameter after moving it into the member (see
    ConstructAsWritten), which this model corrects in Construct. */
module LabelAttachment {
  import opened ValueTree

  /** A missing property reads as this text (a void var converts to ""). */
  const Absent: string := ""

  datatype Attachment = Attachment(
    // the members set by the constructor
    node: NodeId,
    key: Key,
    labelId: WidgetId,
    undo: Undo,
    // the two objects the attachment mediates between
    tree: Forest<string>,
    text: string,
    // the try-lock, free between callbacks
    guard: bool,
    // registration in the node's and the label's listener lists
    treeListening: bool,
    labelListening: bool,
    // every setProperty this attachment has issued, oldest first
    writes: seq<Write<string>>)

  /** The constructor's members and both registrations are left as they were. */
  predicate SameBinding(s: Attachment, r: Attachment) {
    && r.node == s.node && r.key == s.key && r.labelId == s.labelId && r.undo == s.undo
    && r.treeListening == s.treeListening && r.labelListening == s.labelListening
  }

  /** The text the node holds under the bound key, as the label reads it. */
  function TreeText(s: Attachment): string {
    GetProperty(s.tree, s.node, s.key, Absent)
  }

  /** Between events: the guard is free, both listeners are registered, and
      the label shows what the node holds. */
  predicate Consistent(s: Attachment) {
    && !s.guard
    && s.treeListening && s.labelListening
    && s.text == TreeText(s)
  }

  /** valueTreePropertyChanged: with the guard free and the event about the
      bound node and the stored key, the label is set to the node's text
      without notification; no write results. Otherwise nothing changes. */
  function OnTreePropertyChanged(s: Attachment, n: NodeId, k: Key): (r: Attachment)
    ensures SameBinding(s, r) && r.guard == s.guard
    ensures r.tree == s.tree && r.writes == s.writes
    ensures s.guard || n != s.node || k != s.key ==> r == s
    ensures !s.guard && n == s.node && k == s.key ==> r.text == TreeText(s)
  {
    if s.guard then s
    else
      var held := s.(guard := true);
      var done := if n == s.node && k == s.key then held.(text := TreeText(held)) else held;
      done.(guard := false)
  }

  /** tree_.setProperty (property, text, undoMgr), followed by the tree's
      synchronous notification of its listeners. */
  function WriteProperty(s: Attachment, v: string): (r: Attachment)
    ensures SameBinding(s, r) && r.guard == s.guard
    ensures Lookup(r.tree, s.node, s.key) == Some(v)
    ensures forall m, j :: m != s.node || j != s.key ==> Lookup(r.tree, m, j) == Lookup(s.tree, m, j)
    ensures r.writes == s.writes + [Write(s.node, s.key, v, s.undo)]
    ensures s.guard || !s.treeListening ==> r.text == s.text
  {
    var written := s.(tree := SetProperty(s.tree, s.node, s.key, v),
                      writes := s.writes + [Write(s.node, s.key, v, s.undo)]);
    if written.treeListening then OnTreePropertyChanged(written, s.node, s.key) else written
  }

  /** labelTextChanged: with the guard free and the event from the bound
      label, exactly one write of the label's text goes to the stored key and
      the tree's echo is dropped. Otherwise nothing changes. */
  function OnLabelTextChanged(s: Attachment, src: WidgetId): (r: Attachment)
    ensures SameBinding(s, r) && r.guard == s.guard
    ensures s.guard || src != s.labelId ==> r == s
    ensures !s.guard && src == s.labelId ==>
      && r.tree == SetProperty(s.tree, s.node, s.key, s.text)
      && r.writes == s.writes + [Write(s.node, s.key, s.text, s.undo)]
      && r.text == s.text
  {
    if s.guard then s
    else
      var held := s.(guard := true);
      var done := if src == s.labelId then WriteProperty(held, held.text) else held;
      done.(guard := false)
  }

  /** The blank attachment the constructor's member initialisers produce. */
  function Initialised(tree: Forest<string>, node: NodeId, key: Key, labelId: WidgetId,
                       text: string, undo: Undo): Attachment {
    Attachment(node, key, labelId, undo, tree, text, false, false, false, [])
  }

  /** The constructor as it is meant to work: the initial reconciliation uses
      the stored key. A node that has the property sets the label's text and
      the tree is left alone; otherwise the label's text is written under the
      key. The stored key is the caller's, both listeners are registered, and
      the result is consistent. */
  function Construct(tree: Forest<string>, node: NodeId, key: Key, labelId: WidgetId,
                     text: string, undo: Undo): (r: Attachment)
    requires node in tree
    ensures r.node == node && r.key == key && r.labelId == labelId && r.undo == undo
    ensures Consistent(r)
    ensures HasProperty(tree, node, key) ==>
      r.text == tree[node][key] && r.tree == tree && r.writes == []
    ensures !HasProperty(tree, node, key) ==>
      && r.text == text && r.writes == [Write(node, key, text, undo)]
      && Lookup(r.tree, node, key) == Some(text)
      && forall m, j :: m != node || j != key ==> Lookup(r.tree, m, j) == Lookup(tree, m, j)
  {
    var blank := Initialised(tree, node, key, labelId, text, undo);
    var synced :=
      if HasProperty(tree, node, key) then blank.(text := tree[node][key])
      else WriteProperty(blank, text);
    synced.(treeListening := true, labelListening := true)
  }

  /** The constructor as written: the member is initialised from the key, but
      the body then looks up and writes the moved-from parameter, which holds
      NullKey. The existing value under the caller's key is never shown, and
      the label's text is written under NullKey instead. */
  function ConstructAsWritten(tree: Forest<string>, node: NodeId, key: Key, labelId: WidgetId,
                              text: string, undo: Undo): (r: Attachment)
    requires node in tree
    ensures r.key == key && r.treeListening && r.labelListening && !r.guard
    ensures HasProperty(tree, node, NullKey) ==>
      r.text == tree[node][NullKey] && r.tree == tree && r.writes == []
    ensures !HasProperty(tree, node, NullKey) ==>
      && r.text == text && r.writes == [Write(node, NullKey, text, undo)]
      && Lookup(r.tree, node, NullKey) == Some(text)
      && forall m, j :: m != node || j != NullKey ==> Lookup(r.tree, m, j) == Lookup(tree, m, j)
  {
    var blank := Initialised(tree, node, key, labelId, text, undo);
    var moved := NullKey;
    var synced :=
      if HasProperty(tree, node, moved) then blank.(text := tree[node][moved])
      else
        blank.(tree := SetProperty(tree, node, moved, text),
               writes := [Write(node, moved, text, undo)]);
    synced.(treeListening := true, labelListening := true)
  }

  /** The discrepancy in general: whenever the node already holds a text under
      the caller's key that differs from the label's, and nothing is stored
      under NullKey, the constructor as written leaves the label out of step
      with the node, while the intended constructor does not. */
  lemma AsWrittenMissesExistingText(tree: Forest<string>, node: NodeId, key: Key,
                                    labelId: WidgetId, text: string, undo: Undo)
    requires node in tree && key != NullKey
    requires HasProperty(tree, node, key) && tree[node][key] != text
    requires !HasProperty(tree, node, NullKey)
    ensures !Consistent(ConstructAsWritten(tree, node, key, labelId, text, undo))
    ensures Consistent(Construct(tree, node, key, labelId, text, undo))
  {
  }

  /** A concrete input: a node holding "Hi" under "title", bound to an empty
      label. As written, the label stays empty and "" is written under
      NullKey; as intended, the label shows "Hi" and nothing is written. */
  lemma MovedKeyCounterexample()
    ensures
      var tree := map[0 := map["title" := "Hi"]];
      var asWritten := ConstructAsWritten(tree, 0, "title", 1, "", NoUndo);
      var intended := Construct(tree, 0, "title", 1, "", NoUndo);
      && asWritten.text == "" && asWritten.writes == [Write(0, NullKey, "", NoUndo)]
      && intended.text == "Hi" && intended.writes == []
  {
  }

  /** The destructor: both listeners are removed; nothing else changes. */
  function Destroy(s: Attachment): (r: Attachment)
    ensures !r.treeListening && !r.labelListening
    ensures r.node == s.node && r.key == s.key && r.labelId == s.labelId && r.undo == s.undo
    ensures r.tree == s.tree && r.text == s.text && r.writes == s.writes && r.guard == s.guard
  {
    s.(treeListening := false, labelListening := false)
  }

  /** What can happen to a constructed attachment: the user edits the label
      (the label tells its listeners at once), or someone else writes or
      removes a property of some node (the tree tells its listeners at once). */
  datatype Event =
    | Edit(text: string)
    | TreeWrite(node: NodeId, key: Key, v: string)
    | TreeRemove(node: NodeId, key: Key)

  function NotifyLabel(s: Attachment, src: WidgetId): Attachment {
    if s.labelListening then OnLabelTextChanged(s, src) else s
  }

  function NotifyTree(s: Attachment, n: NodeId, k: Key): Attachment {
    if s.treeListening then OnTreePropertyChanged(s, n, k) else s
  }

  function Step(s: Attachment, e: Event): Attachment {
    match e
    case Edit(t) => NotifyLabel(s.(text := t), s.labelId)
    case TreeWrite(n, k, v) => NotifyTree(s.(tree := SetProperty(s.tree, n, k, v)), n, k)
    case TreeRemove(n, k) => NotifyTree(s.(tree := RemoveProperty(s.tree, n, k)), n, k)
  }

  function Run(s: Attachment, events: seq<Event>): Attachment
    decreases |events|
  {
    if events == [] then s else Run(Step(s, events[0]), events[1..])
  }

  /** One edit produces exactly one tree write, of the edited text. */
  lemma EditWritesOnce(s: Attachment, t: string)
    requires Consistent(s)
    ensures Step(s, Edit(t)).writes == s.writes + [Write(s.node, s.key, t, s.undo)]
    ensures Step(s, Edit(t)).text == t
    ensures Lookup(Step(s, Edit(t)).tree, s.node, s.key) == Some(t)
  {
  }

  /** Tree-side changes never cause a tree write, whichever property of
      whichever node they touch; the label follows writes and removals of the
      bound property and ignores all others. */
  lemma TreeSideNeverWrites(s: Attachment, n: NodeId, k: Key, v: string)
    requires Consistent(s)
    ensures Step(s, TreeWrite(n, k, v)).writes == s.writes
    ensures Step(s, TreeRemove(n, k)).writes == s.writes
    ensures n == s.node && k == s.key ==> Step(s, TreeWrite(n, k, v)).text == v
    ensures n != s.node || k != s.key ==> Step(s, TreeWrite(n, k, v)).text == s.text
    ensures n == s.node && k == s.key ==> Step(s, TreeRemove(n, k)).text == Absent
    ensures n != s.node || k != s.key ==> Step(s, TreeRemove(n, k)).text == s.text
  {
  }

  /** Every event keeps a consistent attachment consistent. */
  lemma StepKeepsConsistent(s: Attachment, e: Event)
    requires Consistent(s)
    ensures Consistent(Step(s, e))
  {
  }

  /** Bidirectional convergence: after any sequence of events, each settled,
      the label shows the text the node holds. */
  lemma {:induction false} RunKeepsConsistent(s: Attachment, events: seq<Event>)
    requires Consistent(s)
    ensures Consistent(Run(s, events))
    decreases |events|
  {
    if events != [] {
      StepKeepsConsistent(s, events[0]);
      RunKeepsConsistent(Step(s, events[0]), events[1..]);
    }
  }

  /** Once destroyed, the attachment never writes to the tree again. */
  lemma {:induction false} DestroyedIsInert(s: Attachment, events: seq<Event>)
    requires !s.treeListening && !s.labelListening
    ensures Run(s, events).writes == s.writes
    ensures !Run(s, events).treeListening && !Run(s, events).labelListening
    decreases |events|
  {
    if events != [] {
      DestroyedIsInert(Step(s, events[0]), events[1..]);
    }
  }
}
