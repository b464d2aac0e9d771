/** ValueTreeSliderAttachment: keeps one numeric property of a tree node and
    the position of one slider in step, in both directions.

    The attachment is an immutable record; construction, both listener
    callbacks and destruction are pure step functions. The std::mutex the
    class try-locks on entry to each callback is the boolean `guard`. A
    notification delivered synchronously is a nested call made while the guard
    is held. A notification delivered asynchronously is queued in `pending`
    and handed to the slider's listeners later by a `Deliver` event. */
module SliderAttachment {
  import opened ValueTree

  /** A missing property reads as this position (a void var converts to 0). */
  const Absent: real := 0.0

  datatype Attachment = Attachment(
    // the members set by the constructor
    node: NodeId,
    key: Key,
    slider: WidgetId,
    undo: Undo,
    // how Slider::setValue notifies, a JUCE default outside this model
    notify: Notification,
    // the two objects the attachment mediates between
    tree: Forest<real>,
    value: real,
    // the try-lock, free between callbacks
    guard: bool,
    // registration in the node's and the slider's listener lists
    treeListening: bool,
    sliderListening: bool,
    // asynchronous slider notifications not yet delivered
    pending: seq<WidgetId>,
    // every setProperty this attachment has issued, oldest first
    writes: seq<Write<real>>)

  /** The constructor's members and both registrations are left as they were. */
  predicate SameBinding(s: Attachment, r: Attachment) {
    && r.node == s.node && r.key == s.key && r.slider == s.slider
    && r.undo == s.undo && r.notify == s.notify
    && r.treeListening == s.treeListening && r.sliderListening == s.sliderListening
  }

  /** The value the node holds under the bound key, as the slider reads it. */
  function TreeValue(s: Attachment): real {
    GetProperty(s.tree, s.node, s.key, Absent)
  }

  /** Between events: the guard is free, both listeners are registered, and
      the slider shows what the node holds. */
  predicate Consistent(s: Attachment) {
    && !s.guard
    && s.treeListening && s.sliderListening
    && s.value == TreeValue(s)
  }

  /** The queue after a setValue made with the attachment's notification mode. */
  function Queued(s: Attachment): seq<WidgetId> {
    if s.notify == SendAsync then s.pending + [s.slider] else s.pending
  }

  function Rank(s: Attachment): nat {
    if s.guard then 0 else 1
  }

  /** tree_.setProperty (property_, v, undo_), followed by the tree's
      synchronous notification of its listeners. */
  function WriteProperty(s: Attachment, v: real): (r: Attachment)
    decreases Rank(s), 1
    ensures SameBinding(s, r) && r.guard == s.guard
    ensures s.guard || !s.treeListening ==>
      && r.tree == SetProperty(s.tree, s.node, s.key, v)
      && r.writes == s.writes + [Write(s.node, s.key, v, s.undo)]
      && r.value == s.value && r.pending == s.pending
  {
    var written := s.(tree := SetProperty(s.tree, s.node, s.key, v),
                      writes := s.writes + [Write(s.node, s.key, v, s.undo)]);
    if written.treeListening then OnTreePropertyChanged(written, s.node, s.key) else written
  }

  /** slider_.setValue (v), notifying the slider's listeners as `notify` says. */
  function SetSliderValue(s: Attachment, v: real): (r: Attachment)
    decreases Rank(s), 1
    ensures SameBinding(s, r) && r.guard == s.guard
    ensures s.guard || !s.sliderListening ==>
      && r.value == v && r.tree == s.tree && r.writes == s.writes
      && r.pending == Queued(s)
  {
    var shown := s.(value := v);
    match s.notify
    case DontSend => shown
    case SendAsync => shown.(pending := s.pending + [s.slider])
    case SendSync =>
      if shown.sliderListening then OnSliderValueChanged(shown, s.slider) else shown
  }

  /** sliderValueChanged: with the guard free and the event from the bound
      slider, exactly one write of the slider's value goes to the bound key;
      the tree's echo of that write is dropped, so the slider keeps its value
      and nothing is queued. Otherwise nothing changes. */
  function OnSliderValueChanged(s: Attachment, src: WidgetId): (r: Attachment)
    decreases Rank(s), 0
    ensures SameBinding(s, r) && r.guard == s.guard
    ensures s.guard || src != s.slider ==> r == s
    ensures !s.guard && src == s.slider ==>
      && r.tree == SetProperty(s.tree, s.node, s.key, s.value)
      && r.writes == s.writes + [Write(s.node, s.key, s.value, s.undo)]
      && r.value == s.value && r.pending == s.pending
  {
    if s.guard then s
    else
      var held := s.(guard := true);
      var done := if src == s.slider then WriteProperty(held, held.value) else held;
      done.(guard := false)
  }

  /** valueTreePropertyChanged: with the guard free and the event about the
      bound node and key, the slider is set to the node's current value; a
      synchronous echo from the slider is dropped, so no write results.
      Otherwise nothing changes. */
  function OnTreePropertyChanged(s: Attachment, n: NodeId, k: Key): (r: Attachment)
    decreases Rank(s), 0
    ensures SameBinding(s, r) && r.guard == s.guard
    ensures s.guard || n != s.node || k != s.key ==> r == s
    ensures !s.guard && n == s.node && k == s.key ==>
      && r.value == TreeValue(s) && r.tree == s.tree && r.writes == s.writes
      && r.pending == Queued(s)
  {
    if s.guard then s
    else
      var held := s.(guard := true);
      var done := if n == s.node && k == s.key then SetSliderValue(held, TreeValue(held)) else held;
      done.(guard := false)
  }

  /** The constructor. A node that already has the property pushes it into the
      slider and the tree is left alone; otherwise the slider's position is
      written under the key through the undo manager. Both listeners are
      registered only afterwards, so none of this reaches the attachment's own
      callbacks, and the result is consistent. */
  function Construct(tree: Forest<real>, node: NodeId, key: Key, slider: WidgetId,
                     position: real, undo: Undo, notify: Notification): (r: Attachment)
    requires node in tree
    ensures r.node == node && r.key == key && r.slider == slider && r.undo == undo
    ensures r.notify == notify
    ensures Consistent(r)
    ensures HasProperty(tree, node, key) ==>
      && r.value == tree[node][key] && r.tree == tree && r.writes == []
      && r.pending == (if notify == SendAsync then [slider] else [])
    ensures !HasProperty(tree, node, key) ==>
      && r.value == position && r.pending == []
      && r.writes == [Write(node, key, position, undo)]
      && Lookup(r.tree, node, key) == Some(position)
      && forall m, j :: m != node || j != key ==> Lookup(r.tree, m, j) == Lookup(tree, m, j)
  {
    var blank := Attachment(node, key, slider, undo, notify, tree, position,
                            false, false, false, [], []);
    var synced :=
      if HasProperty(tree, node, key) then SetSliderValue(blank, tree[node][key])
      else WriteProperty(blank, position);
    synced.(treeListening := true, sliderListening := true)
  }

  /** The destructor: both listeners are removed; nothing else changes. */
  function Destroy(s: Attachment): (r: Attachment)
    ensures !r.treeListening && !r.sliderListening
    ensures r.node == s.node && r.key == s.key && r.slider == s.slider
    ensures r.undo == s.undo && r.notify == s.notify
    ensures r.tree == s.tree && r.value == s.value && r.writes == s.writes
    ensures r.guard == s.guard && r.pending == s.pending
  {
    s.(treeListening := false, sliderListening := false)
  }

  /** What can happen to a constructed attachment: the user drags the slider
      (the slider tells its listeners at once), someone else writes or removes
      a property of some node (the tree tells its listeners at once), or the
      oldest queued slider notification is delivered. */
  datatype Event =
    | Drag(position: real)
    | TreeWrite(node: NodeId, key: Key, v: real)
    | TreeRemove(node: NodeId, key: Key)
    | Deliver

  /** Hands a slider notification to the attachment if it is still registered
      with the slider. */
  function NotifySlider(s: Attachment, src: WidgetId): Attachment {
    if s.sliderListening then OnSliderValueChanged(s, src) else s
  }

  /** Hands a property notification to the attachment if it is still
      registered with the tree. */
  function NotifyTree(s: Attachment, n: NodeId, k: Key): Attachment {
    if s.treeListening then OnTreePropertyChanged(s, n, k) else s
  }

  function Step(s: Attachment, e: Event): Attachment {
    match e
    case Drag(p) => NotifySlider(s.(value := p), s.slider)
    case TreeWrite(n, k, v) => NotifyTree(s.(tree := SetProperty(s.tree, n, k, v)), n, k)
    case TreeRemove(n, k) => NotifyTree(s.(tree := RemoveProperty(s.tree, n, k)), n, k)
    case Deliver =>
      if s.pending == [] then s
      else NotifySlider(s.(pending := s.pending[1..]), s.pending[0])
  }

  function Run(s: Attachment, events: seq<Event>): Attachment
    decreases |events|
  {
    if events == [] then s else Run(Step(s, events[0]), events[1..])
  }

  /** One drag produces exactly one tree write, of the dragged position, and no
      echo: nothing is queued and the attachment stays consistent. */
  lemma DragWritesOnce(s: Attachment, p: real)
    requires Consistent(s)
    ensures Step(s, Drag(p)).writes == s.writes + [Write(s.node, s.key, p, s.undo)]
    ensures Step(s, Drag(p)).pending == s.pending
    ensures Step(s, Drag(p)).value == p
    ensures Lookup(Step(s, Drag(p)).tree, s.node, s.key) == Some(p)
    ensures Consistent(Step(s, Drag(p)))
  {
  }

  /** A change made by someone else to the bound property reaches the slider
      and causes no tree write. With asynchronous notification exactly one
      slider notification is queued. */
  lemma TreeWriteReachesSlider(s: Attachment, v: real)
    requires Consistent(s)
    ensures Step(s, TreeWrite(s.node, s.key, v)).value == v
    ensures Step(s, TreeWrite(s.node, s.key, v)).writes == s.writes
    ensures Step(s, TreeWrite(s.node, s.key, v)).pending == Queued(s)
  {
  }

  /** A change to any other property, of this node or another, leaves the
      slider and the write log alone. */
  lemma OtherPropertyIgnored(s: Attachment, n: NodeId, k: Key, v: real)
    requires Consistent(s)
    requires n != s.node || k != s.key
    ensures Step(s, TreeWrite(n, k, v)).value == s.value
    ensures Step(s, TreeWrite(n, k, v)).writes == s.writes
    ensures Step(s, TreeWrite(n, k, v)).pending == s.pending
  {
  }

  /** Every event keeps a consistent attachment consistent. */
  lemma StepKeepsConsistent(s: Attachment, e: Event)
    requires Consistent(s)
    ensures Consistent(Step(s, e))
  {
  }

  /** Bidirectional convergence: after any sequence of events, each settled,
      the slider shows the value the node holds. */
  lemma {:induction false} RunKeepsConsistent(s: Attachment, events: seq<Event>)
    requires Consistent(s)
    ensures Consistent(Run(s, events))
    decreases |events|
  {
    if events != [] {
      StepKeepsConsistent(s, events[0]);
      RunKeepsConsistent(Step(s, events[0]), events[1..]);
    }
  }

  /** Delivering a queued notification rewrites the value the node already
      holds: the queue shrinks by one, neither side changes value, and a tree
      that has the property is left exactly as it was. */
  lemma DeliverSettles(s: Attachment)
    requires Consistent(s) && s.pending != []
    ensures Step(s, Deliver).pending == s.pending[1..]
    ensures Step(s, Deliver).value == s.value
    ensures TreeValue(Step(s, Deliver)) == TreeValue(s)
    ensures HasProperty(s.tree, s.node, s.key) ==> Step(s, Deliver).tree == s.tree
    ensures s.pending[0] == s.slider && !HasProperty(s.tree, s.node, s.key) ==>
      Lookup(Step(s, Deliver).tree, s.node, s.key) == Some(Absent)
  {
    var popped := s.(pending := s.pending[1..]);
    if s.pending[0] == s.slider {
      assert Lookup(OnSliderValueChanged(popped, s.slider).tree, s.node, s.key) == Some(s.value);
      if HasProperty(s.tree, s.node, s.key) {
        SetPropertySameValue(s.tree, s.node, s.key);
      }
    }
  }

  /** A removal does not stick in asynchronous mode: the slider is set to the
      void value's 0 with a queued notification, and delivering it writes 0
      back under the key that was just removed. */
  lemma RemovalIsUndone(s: Attachment)
    requires Consistent(s) && s.pending == [] && s.notify == SendAsync
    ensures !HasProperty(Step(s, TreeRemove(s.node, s.key)).tree, s.node, s.key)
    ensures Lookup(Run(s, [TreeRemove(s.node, s.key), Deliver]).tree, s.node, s.key) == Some(Absent)
    ensures |Run(s, [TreeRemove(s.node, s.key), Deliver]).writes| == |s.writes| + 1
  {
    var removed := Step(s, TreeRemove(s.node, s.key));
    DeliverSettles(removed);
    assert Run(s, [TreeRemove(s.node, s.key), Deliver]) == Run(removed, [Deliver]);
  }

  /** Delivers the `n` oldest queued notifications. */
  function Drain(s: Attachment, n: nat): Attachment
    decreases n
  {
    if n == 0 then s else Drain(Step(s, Deliver), n - 1)
  }

  /** No feedback loop: delivering everything that is queued empties the queue
      without changing either side's value. */
  lemma {:induction false} DrainEmptiesQueue(s: Attachment)
    requires Consistent(s)
    ensures Drain(s, |s.pending|).pending == []
    ensures Drain(s, |s.pending|).value == s.value
    ensures TreeValue(Drain(s, |s.pending|)) == TreeValue(s)
    ensures Consistent(Drain(s, |s.pending|))
    decreases |s.pending|
  {
    if s.pending != [] {
      DeliverSettles(s);
      StepKeepsConsistent(s, Deliver);
      DrainEmptiesQueue(Step(s, Deliver));
    }
  }

  /** A drag to `p` during which another listener of the node, notified
      synchronously by the attachment's own setProperty, writes `q` to the
      bound key. The tree notifies the attachment of that write too, but the
      attachment still holds its try-lock, so the notification is dropped like
      an echo. `Step` has no event for this; it is the as-written behaviour
      of the try-lock, not a scenario the convergence lemmas cover. */
  function DragWithNestedForeignWrite(s: Attachment, p: real, q: real): (r: Attachment)
    ensures !s.guard && s.treeListening ==>
      && r.value == p && !r.guard
      && Lookup(r.tree, s.node, s.key) == Some(q)
      && r.writes == s.writes + [Write(s.node, s.key, p, s.undo)]
      && r.pending == s.pending
  {
    if s.guard then s
    else
      var held := s.(value := p, guard := true);
      var written := WriteProperty(held, p);
      var overwritten := written.(tree := SetProperty(written.tree, s.node, s.key, q));
      var notified := NotifyTree(overwritten, s.node, s.key);
      notified.(guard := false)
  }

  /** The try-lock drops every notification that arrives while it is held,
      not only the attachment's own echo: after a nested foreign write of a
      different value, the slider shows `p` while the node holds `q`, and
      nothing reconciles them until the next change. */
  lemma NestedForeignWriteIsLost(s: Attachment, p: real, q: real)
    requires Consistent(s) && p != q
    ensures DragWithNestedForeignWrite(s, p, q).value == p
    ensures TreeValue(DragWithNestedForeignWrite(s, p, q)) == q
    ensures !Consistent(DragWithNestedForeignWrite(s, p, q))
  {
  }

  /** Once destroyed, the attachment never writes to the tree again, whatever
      happens to the slider or the tree. */
  lemma {:induction false} DestroyedIsInert(s: Attachment, events: seq<Event>)
    requires !s.treeListening && !s.sliderListening
    ensures Run(s, events).writes == s.writes
    ensures !Run(s, events).treeListening && !Run(s, events).sliderListening
    decreases |events|
  {
    if events != [] {
      DestroyedIsInert(Step(s, events[0]), events[1..]);
    }
  }
}
