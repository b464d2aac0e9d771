# ffGuiAttachments: the single-widget attachments, in Dafny

This project models the three single-widget attachments of ffGuiAttachments.
Each one keeps one property of a JUCE `ValueTree` node in step with one control,
in both directions:

- `ValueTreeSliderAttachment` (module `SliderAttachment`) handles a slider's numeric value.
- `ValueTreeLabelAttachment` (module `LabelAttachment`) handles a label's text.
- `ValueTreeButtonAttachment` (module `ButtonAttachment`) handles a button's toggle state. The button is held through a safe pointer that becomes null when the button is deleted.

All three share one skeleton:

1. The constructor reconciles once. A node that has the property pushes it into the widget. Otherwise the widget's value is written into the node, through the undo manager.
2. The constructor then registers as a listener on both the node and the widget.
3. Two callbacks copy a change across, widget→tree and tree→widget. Each one try-locks a mutex on entry and does nothing if the mutex is already held.
4. The destructor unregisters both listeners (for the button, the button listener only while the button exists).

Each attachment is an immutable record. It holds:

- the tree, a forest of property maps from module `ValueTree`;
- the widget's value;
- the boolean `guard`, which stands for the mutex;
- the two listener registrations;
- a queue of asynchronous widget notifications not yet delivered;
- a log of the `setProperty` calls the attachment has issued, with the undo manager each went through.

The constructor, both callbacks and the destructor are pure functions over this record. A notification the tree or the widget delivers synchronously is a nested call made while the guard is held. An asynchronous one is queued and handed over later by a `Deliver` event, after the guard has been released. A `Step` function plays the outside world:

- a user edit, which the widget reports at once;
- a write or removal of any property of any node by someone else, which the tree reports at once;
- delivery of a queued notification;
- for the button only, deletion of the button.

These events happen only between callbacks. Another listener that writes the tree from inside one of the attachment's callbacks is outside `Step` (see "## Left out"). `SliderAttachment.DragWithNestedForeignWrite` shows what the source does then.

`Run` folds `Step` over a sequence of events. The `Consistent` predicate of each module says that between events the guard is free, the listeners are registered, and the widget shows what the node holds (for the button, only while it exists). Construction establishes it, and every event preserves it.

A missing property reads as the value kind's zero: 0, the empty string or false. That is what JUCE's void `var` converts to when the property has been removed.

## Model

| member | source | states |
|---|---|---|
| SliderAttachment.Construct | ff_gui_attachments/ValueTreeSliderAttachment.h:62-85 | An existing property sets the slider and leaves the tree and write log untouched. A missing one gets the slider's position, written once through the undo manager, and no other (node, key) changes. Registration happens only afterwards, so no callback of the attachment runs. The result is consistent with both listeners registered. |
| SliderAttachment.Destroy | ff_gui_attachments/ValueTreeSliderAttachment.h:87-91 | Both listeners are removed. The constructor's members, tree, slider, log, guard and queue are unchanged. |
| SliderAttachment.OnSliderValueChanged | ff_gui_attachments/ValueTreeSliderAttachment.h:96-105 | Guard held or event from another slider: no effect. Otherwise exactly one write of the slider's value goes to the bound key, the tree's synchronous echo is dropped (slider and queue unchanged), and the guard is released. |
| SliderAttachment.OnTreePropertyChanged | ff_gui_attachments/ValueTreeSliderAttachment.h:110-122 | Guard held, another node or another key: no effect. Otherwise the slider takes the node's value and no write results: a synchronous echo from the slider is dropped, and an asynchronous one is queued exactly once. The guard is released. |
| SliderAttachment.WriteProperty | ff_gui_attachments/ValueTreeSliderAttachment.h:102 | A write made while the guard is held, or before registration, changes exactly the bound key and adds one log entry; its echo changes nothing else. |
| SliderAttachment.SetSliderValue | ff_gui_attachments/ValueTreeSliderAttachment.h:118 | A slider update made while the guard is held, or before registration, changes only the slider value. It queues one notification exactly when the mode is asynchronous, and never writes the tree. |
| SliderAttachment.DragWritesOnce | ff_gui_attachments/ValueTreeSliderAttachment.h:98-122 | Feedback suppression: one drag gives exactly one tree write, of the dragged position. Nothing is queued, and the attachment stays consistent. |
| SliderAttachment.TreeWriteReachesSlider | ff_gui_attachments/ValueTreeSliderAttachment.h:110-121 | A foreign write to the bound property reaches the slider and causes no write. In asynchronous mode it queues exactly one notification. |
| SliderAttachment.OtherPropertyIgnored | ff_gui_attachments/ValueTreeSliderAttachment.h:114-116 | A write to another node or another key leaves the slider, the log and the queue alone. |
| SliderAttachment.StepKeepsConsistent | ff_gui_attachments/ValueTreeSliderAttachment.h:96-122 | Every event keeps a consistent attachment consistent. |
| SliderAttachment.RunKeepsConsistent | ff_gui_attachments/ValueTreeSliderAttachment.h:96-122 | Convergence: after any event sequence the slider shows the node's value, with the guard free. |
| SliderAttachment.DeliverSettles | ff_gui_attachments/ValueTreeSliderAttachment.h:98-104 | A delivered asynchronous notification writes the slider's value back to the bound key. The queue shrinks by one and neither side changes value. A tree that has the property is left exactly as it was; a tree without it gets the property back, holding 0. |
| SliderAttachment.RemovalIsUndone | ff_gui_attachments/ValueTreeSliderAttachment.h:98-118 | In asynchronous mode, removing the bound property sets the slider to 0 and queues a notification. Delivering that notification writes 0 back, so the removal does not stick and exactly one write results. |
| SliderAttachment.DrainEmptiesQueue | ff_gui_attachments/ValueTreeSliderAttachment.h:98-122 | No feedback loop: delivering everything queued empties the queue without changing either side. |
| SliderAttachment.DragWithNestedForeignWrite | ff_gui_attachments/ValueTreeSliderAttachment.h:98-121 | A drag during which another listener writes a second value to the bound key from inside the attachment's own setProperty. The notification of that write arrives while the try-lock is held and is dropped. The slider keeps the dragged value while the node holds the other one, after exactly one write of the attachment's own. |
| SliderAttachment.NestedForeignWriteIsLost | ff_gui_attachments/ValueTreeSliderAttachment.h:102-112 | For any consistent attachment and two different values, the nested foreign write leaves the attachment inconsistent: the slider shows the dragged value and the node holds the other. |
| SliderAttachment.DestroyedIsInert | ff_gui_attachments/ValueTreeSliderAttachment.h:87-91 | After destruction no event makes the attachment write the tree. |
| LabelAttachment.Construct | ff_gui_attachments/ValueTreeLabelAttachment.h:62-83 | Intended constructor, using the stored key, which equals the caller's key. An existing property sets the label text and leaves the tree alone. A missing one gets the label's text, written once, and nothing else changes. The result is consistent. |
| LabelAttachment.ConstructAsWritten | ff_gui_attachments/ValueTreeLabelAttachment.h:68-79 | Constructor as written: the member keeps the caller's key, but the reconciliation looks up and writes NullKey, the moved-from identifier. |
| LabelAttachment.AsWrittenMissesExistingText | ff_gui_attachments/ValueTreeLabelAttachment.h:68-79 | Take a node holding a text under the caller's key that differs from the label's, with nothing under NullKey. The constructor as written leaves the attachment inconsistent; the intended one does not. |
| LabelAttachment.MovedKeyCounterexample | ff_gui_attachments/ValueTreeLabelAttachment.h:74-78 | Concrete input: "Hi" under "title" with an empty label. As written, the label stays empty and "" is written under NullKey. As intended, the label shows "Hi" and nothing is written. |
| LabelAttachment.Destroy | ff_gui_attachments/ValueTreeLabelAttachment.h:85-89 | Both listeners are removed. The constructor's members, tree, text, log and guard are unchanged. |
| LabelAttachment.OnLabelTextChanged | ff_gui_attachments/ValueTreeLabelAttachment.h:94-100 | Guard held or event from another label: no effect. Otherwise exactly one write of the label's text goes to the stored key, and the echo is dropped. |
| LabelAttachment.OnTreePropertyChanged | ff_gui_attachments/ValueTreeLabelAttachment.h:105-115 | Never writes the tree. It sets the label text from the node only when the guard is free and the event is about the bound node and key. |
| LabelAttachment.WriteProperty | ff_gui_attachments/ValueTreeLabelAttachment.h:98 | The write changes exactly the bound key and adds one log entry. While the guard is held its echo leaves the label alone. |
| LabelAttachment.EditWritesOnce | ff_gui_attachments/ValueTreeLabelAttachment.h:94-115 | One edit gives exactly one tree write, of the edited text. |
| LabelAttachment.TreeSideNeverWrites | ff_gui_attachments/ValueTreeLabelAttachment.h:105-115 | Tree-side writes and removals never cause a tree write. The label takes a written value of the bound property, becomes empty when it is removed, and ignores all other properties. |
| LabelAttachment.StepKeepsConsistent | ff_gui_attachments/ValueTreeLabelAttachment.h:94-115 | Every event keeps a consistent attachment consistent. |
| LabelAttachment.RunKeepsConsistent | ff_gui_attachments/ValueTreeLabelAttachment.h:94-115 | Convergence: after any event sequence the label shows the node's text. |
| LabelAttachment.DestroyedIsInert | ff_gui_attachments/ValueTreeLabelAttachment.h:85-89 | After destruction no event makes the attachment write the tree. |
| ButtonAttachment.Construct | ff_gui_attachments/ValueTreeButtonAttachment.h:13-36 | An existing property sets the toggle state without notification: nothing is queued and the tree is unchanged. A missing one gets the toggle state, written once, and nothing else changes. The result is consistent. |
| ButtonAttachment.Destroy | ff_gui_attachments/ValueTreeButtonAttachment.h:38-44 | The tree listener is always removed. The button listener is removed only through a live pointer; a deleted button's registration is not touched. |
| ButtonAttachment.DestroyDetaches | ff_gui_attachments/ValueTreeButtonAttachment.h:38-44 | Detach safety: destroying a consistent attachment leaves it registered nowhere, whether or not the button still exists. |
| ButtonAttachment.OnButtonClicked | ff_gui_attachments/ValueTreeButtonAttachment.h:46-55 | Guard held, another button, or a deleted button: no effect. Otherwise exactly one write of the toggle state goes to the bound key, and the echo is dropped. |
| ButtonAttachment.OnTreePropertyChanged | ff_gui_attachments/ValueTreeButtonAttachment.h:57-69 | Never writes the tree. It changes anything only with the guard free, the bound node and key, and a live button. Then it sets the toggle state and queues exactly one click. |
| ButtonAttachment.WriteProperty | ff_gui_attachments/ValueTreeButtonAttachment.h:52 | The write changes exactly the bound key and adds one log entry. While the guard is held its echo leaves the button and queue alone. |
| ButtonAttachment.ClickWritesOnce | ff_gui_attachments/ValueTreeButtonAttachment.h:46-69 | One click on a live button gives exactly one write, of the new toggle state, and queues nothing. |
| ButtonAttachment.TreeWriteQueuesClick | ff_gui_attachments/ValueTreeButtonAttachment.h:57-69 | A foreign write to the bound key sets a live button's state and causes no write. Exactly one click is queued, delivered later as a separate event. |
| ButtonAttachment.DeletedButtonIgnoresTree | ff_gui_attachments/ValueTreeButtonAttachment.h:61 | With the button deleted, property writes and removals neither touch the button nor write nor queue anything. |
| ButtonAttachment.StepKeepsConsistent | ff_gui_attachments/ValueTreeButtonAttachment.h:46-69 | Every event, button deletion included, keeps a consistent attachment consistent. |
| ButtonAttachment.RunKeepsConsistent | ff_gui_attachments/ValueTreeButtonAttachment.h:46-69 | Convergence: after any event sequence a live button shows the node's state. |
| ButtonAttachment.DeliverSettles | ff_gui_attachments/ValueTreeButtonAttachment.h:46-55 | A delivered queued click writes a live button's state back to the bound key. The queue shrinks by one and neither side changes. A tree that has the property is left exactly as it was; a tree without it gets the property back, holding false. |
| ButtonAttachment.RemovalIsUndone | ff_gui_attachments/ValueTreeButtonAttachment.h:46-65 | With the button alive, removing the bound property sets the toggle state to false and queues a click. Delivering that click writes false back, so the removal does not stick and exactly one write results. |
| ButtonAttachment.DrainEmptiesQueue | ff_gui_attachments/ValueTreeButtonAttachment.h:46-69 | No feedback loop: delivering every queued click empties the queue without changing either side. |
| ButtonAttachment.DestroyedIsInert | ff_gui_attachments/ValueTreeButtonAttachment.h:38-44 | After destruction no event makes the attachment write the tree. |

## Left out

- Source/MainComponent.cpp: the demo window's setup, painting and layout are not modelled. Its constructor calls pass arguments in an order that does not match the headers.
- The combo-box and radio-button-group attachments are not modelled. MainComponent.cpp uses them, but their sources are not part of this model.
- JUCE's `ValueTree` internals are not modelled: how notifications are delivered and coalesced, and whether a write of an unchanged value notifies. The model treats every write as notifying synchronously, which is the case that needs the guard.
- Whether `Slider::setValue` notifies, and whether it skips notification for an unchanged value, is not modelled. The slider's notification mode is the parameter `notify`, used both at construction and in the tree→slider callback.
- The button's tree→widget update is taken as queued, as its asynchronous notification flag says. If JUCE delivered that click synchronously instead, it would arrive while the guard is held and be dropped, like the slider's synchronous echo.
- JUCE's merging of pending asynchronous notifications is not modelled. Neither is `setToggleState` skipping notification for an unchanged state. The model queues one entry for every asynchronous `setValue` or `setToggleState`, so it may deliver extra callbacks. While the bound property exists, an extra callback rewrites the value the node already holds (`DeliverSettles`). After the property has been removed, the delivered callback re-creates it with 0 or false (`RemovalIsUndone`). JUCE can leave it removed instead: `setToggleState` at ValueTreeButtonAttachment.h:65 does not notify when the state is already false, and the slider's `setValue` at ValueTreeSliderAttachment.h:118 does not notify when the slider already shows 0.
- Slider range clamping and snapping are not modelled, and neither is floating point. Slider positions are `real`.
- A `var` holding another kind is not converted: each tree holds values of its widget's kind only.
- `UndoManager` bookkeeping is not modelled. The undo manager is an opaque value recorded with each write.
- `SafePointer` mechanics are not modelled. The button pointer is a two-state `ButtonRef`.
- ButtonAttachment.Construct: the constructor needs a live button, so it takes the toggle state rather than a `ButtonRef`. The source dereferences the button pointer without a null check at ValueTreeButtonAttachment.h:27, :31 and :35, so constructing with a null button is undefined behaviour and outside the model.
- `std::mutex` and threads are not modelled. Everything runs on one UI thread, and the mutex is the boolean `guard`.
- The `jassert (tree.isValid())` check becomes the constructors' precondition `node in tree` (the button's constructor also needs a live button, see above): a node absent from the forest is an invalid ValueTree, and a valid node without properties maps to an empty property set.
- Writes that other listeners make from inside the attachment's callbacks are not events of `Step`. The source drops their notifications because the try-lock is held, so the widget and the node can disagree until the next change. The convergence lemmas (`RunKeepsConsistent`) therefore cover only changes made between callbacks. `SliderAttachment.NestedForeignWriteIsLost` proves the loss for the slider; the label and the button drop such writes the same way.
- LabelAttachment.EditWritesOnce: an edit that leaves the text unchanged still logs one write. JUCE's Label notifies its listeners only when the text actually changes, and that check is not modelled.
- User edits are assumed to notify the widget's listeners synchronously. A user click on a live toggle button flips its state.

## Findings

| source | as written | input that shows it | evidently intended | confidence | as-written member | corrected member |
|---|---|---|---|---|---|---|
| ff_gui_attachments/ValueTreeLabelAttachment.h:68-79 | The member `property` is initialised with `std::move(property)`. The constructor body then uses the parameter, which shadows the member, in `hasProperty` (:74), `getProperty` (:75) and `setProperty` (:78). The parameter has been moved from, so it holds the empty identifier. | A node holding "Hi" under "title", bound to a label showing "". The label stays "" and "" is written under the empty key. | The body uses the stored key: the label shows "Hi" and nothing is written. | medium; not executed; relies on juce::Identifier's move leaving an empty name | LabelAttachment.ConstructAsWritten, LabelAttachment.MovedKeyCounterexample | LabelAttachment.Construct |
