# Focus trap, click-outside watcher and id generator

A Dafny model of the three composables that carry the behaviour of this Vue
component library. Everything else in the library is presentation.

- `focus_trap.dfy` (module `FocusTrap`) models `useFocusTrap`. Modals and drawers use it.
  - An element can take focus when it matches the comma-joined selector list.
    The model keeps that list as data: a list of six selectors that matches when any one of them does.
  - The focusable set is the container's matching descendants, in document order.
  - An element is a record with a node id. The handler compares nodes the way `===` does: by id.
    A record may be a stale snapshot, so two records with the same id but different attributes still stand for one node.
  - On Tab and Shift+Tab the handler wraps focus around at the two ends of that set.
  - `activate` records the focused element, registers the keydown listener and focuses the first focusable element.
  - `deactivate` removes the listener and focuses the recorded element again.
  - The `isActive` watcher queues `activate` on a rising edge and calls `deactivate` on a falling edge.
  - Unmount stops the watcher and deactivates.
  - The document's focus is a separate `Document` object shared by every trap.
  - A queued `activate` is a counter. The event loop runs one by calling `RunScheduledActivate`.
- `click_outside.dfy` (module `ClickOutside`) models `useClickOutside`.
  - The page is a tree given by a parent map. Node numbers follow document order, so a parent's number is smaller than its child's.
  - `node.contains(other)` is ancestor-or-self.
  - The mousedown decision checks three things in order: the optional `enabled` gate, the container ref, and containment.
  - Mount and unmount add and remove the listener.
  - The callback is a counter of invocations.
- `use_id.dfy` (module `Ids`) models `useId`.
  - The module-level counter is one `IdGenerator` object.
  - Each call increments the counter and then returns `prefix-N`, with `"cl"` as the default prefix.
  - Identifiers never repeat, whatever the prefixes. The proof shows that the digits after the last dash determine the count.
- `wrappers.dfy` (module `Wrappers`) holds `Option`, which stands for a value that may be `null`.

## Behaviour as written

In four places the code does less than one might expect of a focus trap, and the model follows the code:

- `deactivate` never clears `previousActiveElement` (`src/composables/useFocusTrap.ts:57-64`).
  So every call refocuses the recorded element.
  Deactivating twice ends in the same state as deactivating once, but it is not a no-op: it moves focus back again.
- `activate` followed by `deactivate` restores the earlier focus only when something had focus.
  If `document.activeElement` was `null`, nothing is recorded, and focus stays on the first focusable element.
  `ActivateThenDeactivate` states both cases.
- Nothing stops a queued `activate` from running after a falling edge or after unmount.
  `StaleActivateAfterFalseEdge` shows the result: the listener is registered and focus is inside the container while `isActive` is false.
  The handler then ignores Tab, because it checks `isActive` itself.
  `StaleActivateAfterUnmount` shows the worse case: unmount has stopped the watcher, so a later falling edge no longer calls `deactivate`.
  The keydown listener stays registered: neither the watcher nor the unmount hook is left to remove it, and only an explicit call of the returned `deactivate` would.
- `querySelectorAll` looks only at descendants, so the container itself is never in the focusable set.
  The model's container is the sequence of its descendants.

## Model

| member | source | states |
|---|---|---|
| `FocusTrap.MatchesAnyIff` | src/composables/useFocusTrap.ts:3-10 | the joined selector list matches an element exactly when one of its selectors matches it |
| `FocusTrap.Focusable` | src/composables/useFocusTrap.ts:3-10 | an element can take focus when the joined selector list matches it; its closed form is `FocusableIff` |
| `FocusTrap.FocusableIff` | src/composables/useFocusTrap.ts:3-10 | an element is focusable iff it is an `a` with `href`, or a `button`/`input`/`select`/`textarea` without `disabled`, or it has a `tabindex` other than `"-1"` |
| `FocusTrap.InputWithNegativeTabindexIsFocusable` | src/composables/useFocusTrap.ts:6-9 | because the list is a disjunction, a non-disabled `<input tabindex="-1">` is focusable |
| `FocusTrap.FocusablePositions` | src/composables/useFocusTrap.ts:19-22 | the positions it returns are strictly increasing, all in range, and are exactly the positions of the focusable descendants |
| `FocusTrap.FocusableElements` | src/composables/useFocusTrap.ts:21 | the query returns no more elements than there are descendants |
| `FocusTrap.FocusableElementsAtPositions` | src/composables/useFocusTrap.ts:21 | the query result is the descendants at the focusable positions, in document order |
| `FocusTrap.FocusableElementsAppend` | src/composables/useFocusTrap.ts:21 | a descendant added at the end joins the query result, at its end, exactly when it is focusable |
| `FocusTrap.FocusableMembers` | src/composables/useFocusTrap.ts:19-22 | an element is in the query result iff it is a focusable descendant |
| `FocusTrap.GetFocusable` | src/composables/useFocusTrap.ts:19-22 | with no container the focusable set is empty; otherwise it has no more elements than the container has descendants |
| `FocusTrap.GetFocusableMembers` | src/composables/useFocusTrap.ts:19-22 | with no container the focusable set is empty; otherwise it holds exactly the container's focusable descendants |
| `FocusTrap.HasFocus` | src/composables/useFocusTrap.ts:34-39 | focus is on an element when the focused record has the same node id, whatever its attributes |
| `FocusTrap.TabTarget` | src/composables/useFocusTrap.ts:24-44 | the handler moves focus only for Tab while active, only to an element of the focusable set, and only when the focused node is one of that set |
| `FocusTrap.IgnoredUnlessTabWhileActive` | src/composables/useFocusTrap.ts:25 | any key other than Tab, and any key while `isActive` is false, has no effect |
| `FocusTrap.EmptyTrapIgnoresTab` | src/composables/useFocusTrap.ts:27-28 | with an empty focusable set the handler neither prevents the default action nor moves focus |
| `FocusTrap.ShiftTabFromFirstWrapsToLast` | src/composables/useFocusTrap.ts:33-37 | Shift+Tab while the first element's node has focus prevents the default action and focuses the last element |
| `FocusTrap.TabFromLastWrapsToFirst` | src/composables/useFocusTrap.ts:38-42 | Tab while the last element's node has focus prevents the default action and focuses the first element |
| `FocusTrap.OtherTabsPassThrough` | src/composables/useFocusTrap.ts:30-43 | every other Tab press, including one while focus is on a node outside the set or on nothing, leaves focus and the default action alone |
| `FocusTrap.SingleFocusableHoldsFocus` | src/composables/useFocusTrap.ts:30-43 | with one focusable element, both directions prevent the default action and keep focus on it, also when the focused node's attributes changed since it was recorded |
| `FocusTrap.Document.Focus` | src/composables/useFocusTrap.ts:36 | `focus()` makes the element the document's active element |
| `FocusTrap.Trap.constructor` | src/composables/useFocusTrap.ts:16-17 | a new trap is mounted and has recorded nothing, registered nothing and queued nothing |
| `FocusTrap.Trap.HandleKeyDown` | src/composables/useFocusTrap.ts:24-44 | the handler prevents the default action and moves focus exactly as `TabTarget` says, using a focusable set recomputed from the current container |
| `FocusTrap.Trap.KeyDown` | src/composables/useFocusTrap.ts:48-58 | a keydown has an effect only while the listener is registered |
| `FocusTrap.Trap.Activate` | src/composables/useFocusTrap.ts:46-55 | records the element focused before the call, registers the listener, and focuses the first focusable element if there is one (otherwise focus is unchanged) |
| `FocusTrap.Trap.Deactivate` | src/composables/useFocusTrap.ts:57-64 | unregisters the listener; refocuses the recorded element if there is one, and keeps the record |
| `FocusTrap.Trap.SetIsActive` | src/composables/useFocusTrap.ts:66-73 | the ref always takes the new value; while mounted, a rising edge queues one `activate` and changes nothing else, and a falling edge deactivates at once; no edge, or any edge after unmount, does nothing more |
| `FocusTrap.Trap.RunScheduledActivate` | src/composables/useFocusTrap.ts:69 | a queued `activate` runs with the effects of `Activate`, whatever `isActive` is now; with nothing queued nothing changes |
| `FocusTrap.Trap.Unmount` | src/composables/useFocusTrap.ts:66-77 | unmount stops the watcher and deactivates; a queued `activate` stays queued |
| `FocusTrap.ActivateThenDeactivate` | src/composables/useFocusTrap.ts:46-64 | activate then deactivate restores the focus held before `activate`, when something held it |
| `FocusTrap.DeactivateTwice` | src/composables/useFocusTrap.ts:57-64 | deactivating twice ends in the state one deactivation gives: no listener, focus on the recorded element |
| `FocusTrap.StaleActivateAfterFalseEdge` | src/composables/useFocusTrap.ts:66-73 | a queued `activate` that runs after a falling edge registers the listener and moves focus, but Tab is still ignored |
| `FocusTrap.StaleActivateAfterUnmount` | src/composables/useFocusTrap.ts:66-77 | a rising edge, then unmount, then the queued `activate`: the listener ends registered and a later falling edge does not remove it |
| `FocusTrap.ModalElementsFocusability` | src/composables/useFocusTrap.ts:3-10 | a button and a link match the selector list; a disabled input does not |
| `FocusTrap.SkipsMiddle` | src/composables/useFocusTrap.ts:21 | of a focusable, a non-focusable and a focusable descendant, the query returns the outer two in order |
| `FocusTrap.ModalFocusables` | src/composables/useFocusTrap.ts:3-22 | for a button, a disabled input and a link, the focusable set is the button and the link |
| `FocusTrap.ActivateThenWrap` | src/composables/useFocusTrap.ts:19-73 | for any container with something focusable and nothing focused, a rising edge and its queued `activate` focus the first element, Shift+Tab wraps to the last, and Tab wraps back to the first |
| `FocusTrap.ModalScenario` | src/composables/useFocusTrap.ts:19-55 | activation focuses the button, Shift+Tab wraps to the link, and Tab wraps back to the button |
| `ClickOutside.ContainsSelf` | src/composables/useClickOutside.ts:19 | `contains` is inclusive: a node contains itself |
| `ClickOutside.ContainsChild` | src/composables/useClickOutside.ts:19 | a node contains its children |
| `ClickOutside.ContainsPrecedes` | src/composables/useClickOutside.ts:19 | a node comes no later in document order than anything it contains |
| `ClickOutside.ContainsTransitive` | src/composables/useClickOutside.ts:19 | containment is transitive |
| `ClickOutside.ContainsAntisymmetric` | src/composables/useClickOutside.ts:19 | two nodes that contain each other are the same node |
| `ClickOutside.ParentNotContained` | src/composables/useClickOutside.ts:19 | a node does not contain its parent |
| `ClickOutside.SiblingNotContained` | src/composables/useClickOutside.ts:19 | a node contains neither a sibling nor anything inside a sibling |
| `ClickOutside.ShouldInvoke` | src/composables/useClickOutside.ts:14-22 | the callback fires only when the gate is not closed, the container is set, and the target is not the container |
| `ClickOutside.ClosedGateNeverInvokes` | src/composables/useClickOutside.ts:15 | with a supplied gate that is false, no mousedown fires, whatever its target |
| `ClickOutside.NullContainerNeverInvokes` | src/composables/useClickOutside.ts:16 | with a null container ref, no mousedown fires |
| `ClickOutside.InsideNeverInvokes` | src/composables/useClickOutside.ts:18-19 | a mousedown on the container or on any descendant does not fire |
| `ClickOutside.OutsideInvokes` | src/composables/useClickOutside.ts:18-21 | every other mousedown fires, when the gate is open or absent and the container is set |
| `ClickOutside.NeighboursInvoke` | src/composables/useClickOutside.ts:18-21 | a mousedown on the container's parent, on a sibling, or inside a sibling fires |
| `ClickOutside.Watcher.constructor` | src/composables/useClickOutside.ts:7-12 | a new watcher has no listener and has made no calls |
| `ClickOutside.Watcher.Mount` | src/composables/useClickOutside.ts:24-26 | mount registers the listener, and mounting again leaves exactly one registration |
| `ClickOutside.Watcher.Unmount` | src/composables/useClickOutside.ts:28-30 | unmount removes the listener |
| `ClickOutside.Watcher.HandleClickOutside` | src/composables/useClickOutside.ts:14-22 | the listener invokes the callback once when `ShouldInvoke` holds, and otherwise not at all |
| `ClickOutside.Watcher.MouseDown` | src/composables/useClickOutside.ts:24-25 | a mousedown reaches the listener only while it is registered |
| `ClickOutside.UnmountedNeverInvokes` | src/composables/useClickOutside.ts:24-30 | after mount, mount and unmount, no mousedown invokes the callback |
| `ClickOutside.SiblingScenario` | src/composables/useClickOutside.ts:14-30 | a press inside the container makes no call; a press on its sibling makes exactly one |
| `Ids.Decimal` | src/composables/useId.ts:10 | the interpolated counter is a non-empty string of decimal digits, one digit exactly below ten, with no leading zero |
| `Ids.DecimalRoundTrip` | src/composables/useId.ts:10 | reading the decimal form back gives the counter |
| `Ids.DecimalInjective` | src/composables/useId.ts:10 | different counts have different decimal forms |
| `Ids.FormatId` | src/composables/useId.ts:10 | the identifier is the prefix, a dash, then digits with no leading zero that read back as the count, so the string is fixed |
| `Ids.LastDash` | src/composables/useId.ts:10 | in `prefix-N` the separator is the last dash |
| `Ids.FormatIdInjective` | src/composables/useId.ts:10 | an identifier determines both its prefix and its count, even when the prefix contains dashes |
| `Ids.IdsDistinct` | src/composables/useId.ts:3-10 | two different counter values never give the same identifier, whatever the prefixes |
| `Ids.IdGenerator.constructor` | src/composables/useId.ts:3 | the shared counter starts at 0 |
| `Ids.IdGenerator.UseId` | src/composables/useId.ts:9-11 | increments the counter by exactly 1 before using it, and returns the prefix (default `"cl"`), `-` and the new count; the result differs from every earlier result |
| `Ids.FirstIds` | src/composables/useId.ts:3-11 | a fresh counter gives `cl-1` for the default prefix, then `tab-2` |

## Left out

- Vue reactivity is written out as explicit calls. `ref`, `watch`, `onMounted` and `onUnmounted` become fields and methods.
  `watch`'s batching of several changes in one tick is not modelled: every change of `isActive` runs the watcher at once.
- The `setTimeout` task queue is a counter of queued `activate` calls. Time and ordering against other tasks are not modelled.
- There is no real DOM and no CSS engine.
  - Elements are records with a lower-case tag name and attributes.
  - The six selectors are matched by attribute presence and value.
  - Case-insensitive tag matching, hidden elements and `fieldset`-disabled controls are not modelled. The selectors do not test for them either.
- The browser's native tab order between intermediate elements is not modelled. The handler leaves those presses to the browser.
- `focus()` always succeeds in the model. A browser ignores it on an element that cannot take focus.
- `previousActiveElement` being `null` models `document.activeElement` being `null`. `document.body` counts as an ordinary element.
- Dispatch order across several mounted traps or watchers is an event-loop concern and is not modelled. Each instance is modelled on its own.
- `Ids.IdGenerator.UseId`: JavaScript writes numbers of `1e21` and above in exponent form and loses integer precision above 2^53. The model's counter is unbounded and always written in plain decimal.
- `src/utils/cn.ts` wraps the external `clsx` library, whose behaviour is not visible. It is not part of this model.
- The Storybook stories and the `index.ts` re-exports hold no logic and are not part of this model.
