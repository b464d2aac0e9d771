/** ValueTreeButtonAttachment: keeps one boolean property of a tree node and
    the toggle state of one button in step, in both directions.

    The button is held through a safe pointer that becomes null when the
    button is deleted; here that pointer is a ButtonRef, and the toggle state
    can only be read from a live one, so a deleted button is never
    dereferenced. Tree-side updates set the toggle state with asynchronous
    notification: the resulting click is queued in `pending` and reaches the
    attachment later, after the guard has been released. */
module ButtonAttachment {
  import opened ValueTree

  /** A missing property reads as this state (a void var converts to false). */
  const Absent: bool := false

  /** The safe pointer to the button: its toggle state while it exists. */
  datatype ButtonRef = Alive(toggle: bool) | Deleted

  datatype Attachment = Attachment(
    // the members set by the constructor
    node: NodeId,
    key: Key,
    button: WidgetId,
    undo: Undo,
    // the two objects the attachment mediates between
    tree: Forest<bool>,
    ref: ButtonRef,
    // the try-lock, free between callbacks
    guard: bool,
    // registration in the node's and the button's listener lists
    treeListening: bool,
    buttonListening: bool,
    // asynchronous click notifications not yet delivered
    pending: seq<WidgetId>,
    // every setProperty this attachment has issued, oldest first
    writes: seq<Write<bool>>)

  /** The constructor's members and both registrations are left as they were. */
  predicate SameBinding(s: Attachment, r: Attachment) {
    && r.node == s.node && r.key == s.key && r.button == s.button && r.undo == s.undo
    && r.treeListening == s.treeListening && r.buttonListening == s.buttonListening
  }

  /** The state the node holds under the bound key, as the button reads it. */
  function TreeToggle(s: Attachment): bool {
    GetProperty(s.tree, s.node, s.key, Absent)
  }

  /** Between events: the guard is free and the tree listener is registered;
      a live button is listened to and shows what the node holds, and a
      deleted button has taken its listener list with it. */
  predicate Consistent(s: Attachment) {
    && !s.guard
    && s.treeListening
    && match s.ref
       case Alive(t) => s.buttonListening && t == TreeToggle(s)
       case Deleted => !s.buttonListening
  }

  /** valueTreePropertyChanged: with the guard free, the event about the bound
      node and key, and the button still alive, the toggle state is set to the
      node's value and a click notification is queued. Otherwise nothing
      changes. No write results either way. */
  function OnTreePropertyChanged(s: Attachment, n: NodeId, k: Key): (r: Attachment)
    ensures SameBinding(s, r) && r.guard == s.guard
    ensures r.tree == s.tree && r.writes == s.writes
    ensures s.guard || n != s.node || k != s.key || s.ref.Deleted? ==> r == s
    ensures !s.guard && n == s.node && k == s.key && s.ref.Alive? ==>
      r.ref == Alive(TreeToggle(s)) && r.pending == s.pending + [s.button]
  {
    if s.guard then s
    else
      var held := s.(guard := true);
      var done :=
        if n == s.node && held.ref.Alive? && k == s.key then
          held.(ref := Alive(TreeToggle(held)), pending := held.pending + [s.button])
        else held;
      done.(guard := false)
  }

  /** tree_.setProperty (property_, v, undo_), followed by the tree's
      synchronous notification of its listeners. */
  function WriteProperty(s: Attachment, v: bool): (r: Attachment)
    ensures SameBinding(s, r) && r.guard == s.guard
    ensures Lookup(r.tree, s.node, s.key) == Some(v)
    ensures forall m, j :: m != s.node || j != s.key ==> Lookup(r.tree, m, j) == Lookup(s.tree, m, j)
    ensures r.writes == s.writes + [Write(s.node, s.key, v, s.undo)]
    ensures s.guard || !s.treeListening ==> r.ref == s.ref && r.pending == s.pending
  {
    var written := s.(tree := SetProperty(s.tree, s.node, s.key, v),
                      writes := s.writes + [Write(s.node, s.key, v, s.undo)]);
    if written.treeListening then OnTreePropertyChanged(written, s.node, s.key) else written
  }

  /** buttonClicked: with the guard free and the click from the bound, live
      button, exactly one write of its toggle state goes to the bound key and
      the tree's echo is dropped. A deleted button compares unequal to every
      button that can click, so then nothing changes, as it does for clicks
      from other buttons or while the guard is held. */
  function OnButtonClicked(s: Attachment, src: WidgetId): (r: Attachment)
    ensures SameBinding(s, r) && r.guard == s.guard
    ensures s.guard || src != s.button || s.ref.Deleted? ==> r == s
    ensures !s.guard && src == s.button && s.ref.Alive? ==>
      && r.tree == SetProperty(s.tree, s.node, s.key, s.ref.toggle)
      && r.writes == s.writes + [Write(s.node, s.key, s.ref.toggle, s.undo)]
      && r.ref == s.ref && r.pending == s.pending
  {
    if s.guard then s
    else
      var held := s.(guard := true);
      var done :=
        if held.ref.Alive? && src == s.button then WriteProperty(held, held.ref.toggle) else held;
      done.(guard := false)
  }

  /** The constructor, given a live button showing `toggle`. A node that has
      the property sets the toggle state without notification and the tree is
      left alone; otherwise the toggle state is written under the key. Both
      listeners are registered afterwards and the result is consistent. */
  function Construct(tree: Forest<bool>, node: NodeId, key: Key, button: WidgetId,
                     toggle: bool, undo: Undo): (r: Attachment)
    requires node in tree
    ensures r.node == node && r.key == key && r.button == button && r.undo == undo
    ensures Consistent(r) && r.ref.Alive? && r.pending == []
    ensures HasProperty(tree, node, key) ==>
      r.ref.toggle == tree[node][key] && r.tree == tree && r.writes == []
    ensures !HasProperty(tree, node, key) ==>
      && r.ref.toggle == toggle && r.writes == [Write(node, key, toggle, undo)]
      && Lookup(r.tree, node, key) == Some(toggle)
      && forall m, j :: m != node || j != key ==> Lookup(r.tree, m, j) == Lookup(tree, m, j)
  {
    var blank := Attachment(node, key, button, undo, tree, Alive(toggle), false, false, false, [], []);
    var synced :=
      if HasProperty(tree, node, key) then blank.(ref := Alive(tree[node][key]))
      else WriteProperty(blank, toggle);
    synced.(treeListening := true, buttonListening := true)
  }

  /** The destructor: the tree listener is always removed; the button
      listener is removed only through a live pointer, and a deleted button's
      listener registration is not touched. */
  function Destroy(s: Attachment): (r: Attachment)
    ensures !r.treeListening
    ensures s.ref.Alive? ==> !r.buttonListening
    ensures s.ref.Deleted? ==> r.buttonListening == s.buttonListening
    ensures r.node == s.node && r.key == s.key && r.button == s.button && r.undo == s.undo
    ensures r.tree == s.tree && r.ref == s.ref && r.writes == s.writes
    ensures r.guard == s.guard && r.pending == s.pending
  {
    var detached := s.(treeListening := false);
    if detached.ref.Alive? then detached.(buttonListening := false) else detached
  }

  /** Detach safety: destroying a consistent attachment, whether or not its
      button still exists, leaves it registered nowhere. */
  lemma DestroyDetaches(s: Attachment)
    requires Consistent(s)
    ensures !Destroy(s).treeListening && !Destroy(s).buttonListening
  {
  }

  /** What can happen to a constructed attachment: the user clicks the button
      (a live one flips its state and tells its listeners at once), someone
      else writes or removes a property of some node (the tree tells its
      listeners at once), the oldest queued click is delivered, or the button
      is deleted (the safe pointer becomes null and the button's listener list
      goes with it). */
  datatype Event =
    | Click
    | TreeWrite(node: NodeId, key: Key, v: bool)
    | TreeRemove(node: NodeId, key: Key)
    | Deliver
    | DeleteButton

  function NotifyButton(s: Attachment, src: WidgetId): Attachment {
    if s.buttonListening then OnButtonClicked(s, src) else s
  }

  function NotifyTree(s: Attachment, n: NodeId, k: Key): Attachment {
    if s.treeListening then OnTreePropertyChanged(s, n, k) else s
  }

  function Step(s: Attachment, e: Event): Attachment {
    match e
    case Click =>
      if s.ref.Alive? then NotifyButton(s.(ref := Alive(!s.ref.toggle)), s.button) else s
    case TreeWrite(n, k, v) => NotifyTree(s.(tree := SetProperty(s.tree, n, k, v)), n, k)
    case TreeRemove(n, k) => NotifyTree(s.(tree := RemoveProperty(s.tree, n, k)), n, k)
    case Deliver =>
      if s.pending == [] then s
      else NotifyButton(s.(pending := s.pending[1..]), s.pending[0])
    case DeleteButton => s.(ref := Deleted, buttonListening := false)
  }

  function Run(s: Attachment, events: seq<Event>): Attachment
    decreases |events|
  {
    if events == [] then s else Run(Step(s, events[0]), events[1..])
  }

  /** One click on a live button produces exactly one tree write, of the new
      toggle state, and queues nothing. */
  lemma ClickWritesOnce(s: Attachment)
    requires Consistent(s) && s.ref.Alive?
    ensures Step(s, Click).writes == s.writes + [Write(s.node, s.key, !s.ref.toggle, s.undo)]
    ensures Step(s, Click).ref == Alive(!s.ref.toggle)
    ensures Step(s, Click).pending == s.pending
    ensures Lookup(Step(s, Click).tree, s.node, s.key) == Some(!s.ref.toggle)
  {
  }

  /** A change of the bound property reaches a live button, causes no tree
      write, and queues exactly one click, delivered later as a separate
      event. */
  lemma TreeWriteQueuesClick(s: Attachment, v: bool)
    requires Consistent(s) && s.ref.Alive?
    ensures Step(s, TreeWrite(s.node, s.key, v)).ref == Alive(v)
    ensures Step(s, TreeWrite(s.node, s.key, v)).writes == s.writes
    ensures Step(s, TreeWrite(s.node, s.key, v)).pending == s.pending + [s.button]
  {
  }

  /** Once the button is deleted, property writes and removals have no effect
      on the attachment beyond the tree itself. */
  lemma DeletedButtonIgnoresTree(s: Attachment, n: NodeId, k: Key, v: bool)
    requires Consistent(s) && s.ref.Deleted?
    ensures Step(s, TreeWrite(n, k, v)).ref == Deleted
    ensures Step(s, TreeWrite(n, k, v)).writes == s.writes
    ensures Step(s, TreeWrite(n, k, v)).pending == s.pending
    ensures Step(s, TreeRemove(n, k)).ref == Deleted
    ensures Step(s, TreeRemove(n, k)).writes == s.writes
    ensures Step(s, TreeRemove(n, k)).pending == s.pending
  {
  }

  /** Every event keeps a consistent attachment consistent. */
  lemma StepKeepsConsistent(s: Attachment, e: Event)
    requires Consistent(s)
    ensures Consistent(Step(s, e))
  {
  }

  /** Bidirectional convergence: after any sequence of events, each settled,
      a live button shows the state the node holds. */
  lemma {:induction false} RunKeepsConsistent(s: Attachment, events: seq<Event>)
    requires Consistent(s)
    ensures Consistent(Run(s, events))
    decreases |events|
  {
    if events != [] {
      StepKeepsConsistent(s, events[0]);
      RunKeepsConsistent(Step(s, events[0]), events[1..]);
    }
  }

  /** Delivering a queued click rewrites the state the node already holds:
      the queue shrinks by one, neither side changes value, and a tree that
      has the property is left exactly as it was. */
  lemma DeliverSettles(s: Attachment)
    requires Consistent(s) && s.pending != []
    ensures Step(s, Deliver).pending == s.pending[1..]
    ensures Step(s, Deliver).ref == s.ref
    ensures TreeToggle(Step(s, Deliver)) == TreeToggle(s)
    ensures HasProperty(s.tree, s.node, s.key) ==> Step(s, Deliver).tree == s.tree
    ensures s.pending[0] == s.button && s.ref.Alive? && !HasProperty(s.tree, s.node, s.key) ==>
      Lookup(Step(s, Deliver).tree, s.node, s.key) == Some(Absent)
  {
    var popped := s.(pending := s.pending[1..]);
    if s.pending[0] == s.button && s.ref.Alive? {
      assert Lookup(OnButtonClicked(popped, s.button).tree, s.node, s.key) == Some(s.ref.toggle);
      if HasProperty(s.tree, s.node, s.key) {
        SetPropertySameValue(s.tree, s.node, s.key);
      }
    }
  }

  /** A removal does not stick while the button exists: the toggle state is
      set to the void value's false with a queued click, and delivering it
      writes false back under the key that was just removed. */
  lemma RemovalIsUndone(s: Attachment)
    requires Consistent(s) && s.pending == [] && s.ref.Alive?
    ensures !HasProperty(Step(s, TreeRemove(s.node, s.key)).tree, s.node, s.key)
    ensures Lookup(Run(s, [TreeRemove(s.node, s.key), Deliver]).tree, s.node, s.key) == Some(Absent)
    ensures |Run(s, [TreeRemove(s.node, s.key), Deliver]).writes| == |s.writes| + 1
  {
    var removed := Step(s, TreeRemove(s.node, s.key));
    DeliverSettles(removed);
    assert Run(s, [TreeRemove(s.node, s.key), Deliver]) == Run(removed, [Deliver]);
  }

  /** Delivers the `n` oldest queued clicks. */
  function Drain(s: Attachment, n: nat): Attachment
    decreases n
  {
    if n == 0 then s else Drain(Step(s, Deliver), n - 1)
  }

  /** No feedback loop: delivering every queued click empties the queue
      without changing either side's value. */
  lemma {:induction false} DrainEmptiesQueue(s: Attachment)
    requires Consistent(s)
    ensures Drain(s, |s.pending|).pending == []
    ensures Drain(s, |s.pending|).ref == s.ref
    ensures TreeToggle(Drain(s, |s.pending|)) == TreeToggle(s)
    ensures Consistent(Drain(s, |s.pending|))
    decreases |s.pending|
  {
    if s.pending != [] {
      DeliverSettles(s);
      StepKeepsConsistent(s, Deliver);
      DrainEmptiesQueue(Step(s, Deliver));
    }
  }

  /** Once destroyed, the attachment never writes to the tree again. */
  lemma {:induction false} DestroyedIsInert(s: Attachment, events: seq<Event>)
    requires !s.treeListening && !s.buttonListening
    ensures Run(s, events).writes == s.writes
    ensures !Run(s, events).treeListening && !Run(s, events).buttonListening
    decreases |events|
  {
    if events != [] {
      DestroyedIsInert(Step(s, events[0]), events[1..]);
    }
  }
}
