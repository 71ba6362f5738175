/**
 * The focus trap used by modals and drawers: which elements of the container
 * can take focus, how Tab and Shift+Tab wrap around at the ends, and how the
 * trap records, moves and restores the document's focus as it is switched on
 * and off.
 */
module FocusTrap {
  import opened Wrappers

  // ---------------------------------------------------------------------------
  // Elements and the focusable selector list
  // ---------------------------------------------------------------------------

  /**
   * An element as the trap sees it: the node's identity, its lower-case local
   * tag name and its attributes (name to value). A record is a snapshot: two
   * records stand for the same node exactly when their ids agree, even if the
   * node's attributes changed in between.
   */
  datatype Element = Element(id: nat, tag: string, attrs: map<string, string>)

  /** The three shapes of simple selector the focusable selector list uses. */
  datatype Selector =
    | TagWithAttr(tag: string, attr: string)          // tag[attr]
    | TagWithoutAttr(tag: string, attr: string)       // tag:not([attr])
    | AttrExceptValue(attr: string, value: string)    // [attr]:not([attr="value"])

  predicate Matches(sel: Selector, e: Element) {
    match sel
    case TagWithAttr(t, a) => e.tag == t && a in e.attrs
    case TagWithoutAttr(t, a) => e.tag == t && a !in e.attrs
    case AttrExceptValue(a, v) => a in e.attrs && e.attrs[a] != v
  }

  /** The comma-joined selector list that decides which descendants can take focus. */
  const FocusableSelectors: seq<Selector> := [
    TagWithAttr("a", "href"),
    TagWithoutAttr("button", "disabled"),
    TagWithoutAttr("input", "disabled"),
    TagWithoutAttr("select", "disabled"),
    TagWithoutAttr("textarea", "disabled"),
    AttrExceptValue("tabindex", "-1")
  ]

  /** A selector list matches an element when at least one of its selectors does. */
  predicate MatchesAny(sels: seq<Selector>, e: Element) {
    |sels| > 0 && (Matches(sels[0], e) || MatchesAny(sels[1..], e))
  }

  /** A selector list matches exactly when one of its selectors does. */
  lemma {:induction false} MatchesAnyIff(sels: seq<Selector>, e: Element)
    ensures MatchesAny(sels, e) <==> exists i :: 0 <= i < |sels| && Matches(sels[i], e)
  {
    if |sels| > 0 {
      MatchesAnyIff(sels[1..], e);
      if MatchesAny(sels[1..], e) {
        var j :| 0 <= j < |sels[1..]| && Matches(sels[1..][j], e);
        assert Matches(sels[j + 1], e);
      }
      if exists i :: 0 <= i < |sels| && Matches(sels[i], e) {
        var i :| 0 <= i < |sels| && Matches(sels[i], e);
        if i > 0 {
          assert Matches(sels[1..][i - 1], e);
        }
      }
    }
  }

  /** An element can take focus when one selector of the list matches it. */
  predicate Focusable(e: Element) {
    MatchesAny(FocusableSelectors, e)
  }

  /**
   * The selector list in closed form. It is a disjunction: an element with a
   * `tabindex` other than "-1" is focusable even when disabled, and a
   * non-disabled form control is focusable even with `tabindex="-1"`.
   */
  lemma FocusableIff(e: Element)
    ensures Focusable(e) <==>
      || (e.tag == "a" && "href" in e.attrs)
      || (e.tag in {"button", "input", "select", "textarea"} && "disabled" !in e.attrs)
      || ("tabindex" in e.attrs && e.attrs["tabindex"] != "-1")
  {
    MatchesAnyIff(FocusableSelectors, e);
    if Focusable(e) {
      var i :| 0 <= i < 6 && Matches(FocusableSelectors[i], e);
      assert i == 0 || i == 1 || i == 2 || i == 3 || i == 4 || i == 5;
    } else {
      forall i | 0 <= i < 6 ensures !Matches(FocusableSelectors[i], e) {
      }
      assert !Matches(FocusableSelectors[0], e) && !Matches(FocusableSelectors[1], e);
      assert !Matches(FocusableSelectors[2], e) && !Matches(FocusableSelectors[3], e);
      assert !Matches(FocusableSelectors[4], e) && !Matches(FocusableSelectors[5], e);
    }
  }

  /** A non-disabled `<input tabindex="-1">` still matches the `input` selector. */
  lemma InputWithNegativeTabindexIsFocusable(id: nat)
    ensures Focusable(Element(id, "input", map["tabindex" := "-1"]))
  {
  }

  /**
   * The positions, in document order, of the descendants that can take focus:
   * strictly increasing, in range, and containing exactly the focusable ones.
   */
  function FocusablePositions(s: seq<Element>): (idx: seq<nat>)
    ensures |idx| <= |s|
    ensures forall k :: 0 <= k < |idx| ==> idx[k] < |s|
    ensures forall k, l :: 0 <= k < l < |idx| ==> idx[k] < idx[l]
    ensures forall i :: 0 <= i < |s| ==> (i in idx <==> Focusable(s[i]))
  {
    if s == [] then []
    else
      var n := |s| - 1;
      FocusablePositions(s[..n]) + (if Focusable(s[n]) then [n] else [])
  }

  /**
   * `querySelectorAll` over the container's descendants (in document order):
   * the result picks out the descendants at the focusable positions, in order.
   */
  function FocusableElements(descendants: seq<Element>): (r: seq<Element>)
    ensures |r| <= |descendants|
  {
    if descendants == [] then []
    else
      var n := |descendants| - 1;
      FocusableElements(descendants[..n]) + (if Focusable(descendants[n]) then [descendants[n]] else [])
  }

  /** The focusable elements are the descendants at the focusable positions, in order. */
  lemma {:induction false} FocusableElementsAtPositions(s: seq<Element>)
    ensures |FocusableElements(s)| == |FocusablePositions(s)|
    ensures forall k :: 0 <= k < |FocusableElements(s)| ==> FocusableElements(s)[k] == s[FocusablePositions(s)[k]]
  {
    if s != [] {
      var n := |s| - 1;
      FocusableElementsAtPositions(s[..n]);
      var r, idx := FocusableElements(s[..n]), FocusablePositions(s[..n]);
      forall k | 0 <= k < |r|
        ensures FocusableElements(s)[k] == s[FocusablePositions(s)[k]]
      {
        assert FocusableElements(s)[k] == r[k] == s[..n][idx[k]];
      }
    }
  }

  /** A descendant added at the end joins the focusable elements, at the end, exactly when it is focusable. */
  lemma FocusableElementsAppend(s: seq<Element>, e: Element)
    ensures FocusableElements(s + [e]) == FocusableElements(s) + (if Focusable(e) then [e] else [])
  {
    assert (s + [e])[..|s|] == s;
  }

  /** An element is among the focusable elements exactly when it is a focusable descendant. */
  lemma {:induction false} FocusableMembers(s: seq<Element>)
    ensures forall e :: e in FocusableElements(s) <==> e in s && Focusable(e)
  {
    if s != [] {
      var n := |s| - 1;
      FocusableMembers(s[..n]);
      assert s == s[..n] + [s[n]];
    }
  }

  /**
   * `getFocusableElements`: no container gives nothing; otherwise the
   * container's focusable descendants in document order.
   */
  function GetFocusable(container: Option<seq<Element>>): (r: seq<Element>)
    ensures container.None? ==> r == []
    ensures container.Some? ==> |r| <= |container.value|
  {
    match container
    case None => []
    case Some(d) => FocusableElements(d)
  }

  /** The focusable set holds exactly the container's focusable descendants, and nothing without a container. */
  lemma GetFocusableMembers(container: Option<seq<Element>>)
    ensures forall e :: e in GetFocusable(container) <==> container.Some? && e in container.value && Focusable(e)
  {
    if container.Some? {
      FocusableMembers(container.value);
    }
  }

  // ---------------------------------------------------------------------------
  // Tab and Shift+Tab
  // ---------------------------------------------------------------------------

  datatype KeyEvent = KeyEvent(key: string, shiftKey: bool)

  /** `document.activeElement === e`: the focused node is the node `e` stands for. */
  predicate HasFocus(active: Option<Element>, e: Element) {
    active.Some? && active.value.id == e.id
  }

  /**
   * Where the key handler moves focus, if it does: `Some(e)` means it prevents
   * the default action and focuses `e`; `None` means it does nothing. It only
   * ever moves focus from a node of the focusable set to a node of that set.
   */
  function TabTarget(focusables: seq<Element>, active: Option<Element>, ev: KeyEvent, isActive: bool): (r: Option<Element>)
    ensures r.Some? ==> ev.key == "Tab" && isActive
    ensures r.Some? ==> r.value in focusables
    ensures r.Some? ==> exists k :: 0 <= k < |focusables| && HasFocus(active, focusables[k])
  {
    if ev.key != "Tab" || !isActive || |focusables| == 0 then None
    else
      var first, last := focusables[0], focusables[|focusables| - 1];
      if ev.shiftKey then (if HasFocus(active, first) then Some(last) else None)
      else (if HasFocus(active, last) then Some(first) else None)
  }

  /** Any key but Tab, and any key while the trap is inactive, is ignored. */
  lemma IgnoredUnlessTabWhileActive(focusables: seq<Element>, active: Option<Element>, ev: KeyEvent, isActive: bool)
    requires ev.key != "Tab" || !isActive
    ensures TabTarget(focusables, active, ev, isActive) == None
  {
  }

  /** With nothing focusable in the container the handler does nothing. */
  lemma EmptyTrapIgnoresTab(active: Option<Element>, ev: KeyEvent, isActive: bool)
    ensures TabTarget([], active, ev, isActive) == None
  {
  }

  /** Shift+Tab on the first focusable element wraps to the last one. */
  lemma ShiftTabFromFirstWrapsToLast(focusables: seq<Element>, active: Option<Element>)
    requires |focusables| > 0 && HasFocus(active, focusables[0])
    ensures TabTarget(focusables, active, KeyEvent("Tab", true), true)
         == Some(focusables[|focusables| - 1])
  {
  }

  /** Tab on the last focusable element wraps to the first one. */
  lemma TabFromLastWrapsToFirst(focusables: seq<Element>, active: Option<Element>)
    requires |focusables| > 0 && HasFocus(active, focusables[|focusables| - 1])
    ensures TabTarget(focusables, active, KeyEvent("Tab", false), true)
         == Some(focusables[0])
  {
  }

  /** Every other Tab press is left to the browser. */
  lemma OtherTabsPassThrough(focusables: seq<Element>, active: Option<Element>, shift: bool)
    requires |focusables| > 0
    requires shift ==> !HasFocus(active, focusables[0])
    requires !shift ==> !HasFocus(active, focusables[|focusables| - 1])
    ensures TabTarget(focusables, active, KeyEvent("Tab", shift), true) == None
  {
  }

  /**
   * With one focusable element, both directions hold focus on it, also when
   * the focused node's attributes changed since focus was recorded.
   */
  lemma SingleFocusableHoldsFocus(e: Element, active: Option<Element>, shift: bool)
    requires HasFocus(active, e)
    ensures TabTarget([e], active, KeyEvent("Tab", shift), true) == Some(e)
  {
  }

  // ---------------------------------------------------------------------------
  // The document's focus and the trap's state
  // ---------------------------------------------------------------------------

  /** The document: which element holds input focus (`None` for `null`). */
  class Document {
    var activeElement: Option<Element>

    constructor (initial: Option<Element>)
      ensures activeElement == initial
    {
      activeElement := initial;
    }

    /** `element.focus()` */
    method Focus(e: Element)
      modifies this
      ensures activeElement == Some(e)
    {
      activeElement := Some(e);
    }
  }

  /**
   * One `useFocusTrap` instance. `container` is what the container ref holds
   * (its descendants in document order, or `None` for `null`), `isActive` the
   * active ref, `mounted` whether the owning component is still mounted (its
   * watcher stops at unmount), `listening` whether the document keydown
   * listener is registered, and `scheduled` how many deferred `activate`
   * calls are queued.
   */
  class Trap {
    const doc: Document
    var container: Option<seq<Element>>
    var isActive: bool
    var mounted: bool
    var previousActiveElement: Option<Element>
    var listening: bool
    var scheduled: nat

    /** Setting the trap up records nothing, registers nothing and schedules nothing. */
    constructor (doc: Document, container: Option<seq<Element>>, isActive: bool)
      ensures this.doc == doc && this.container == container && this.isActive == isActive
      ensures mounted && previousActiveElement == None && !listening && scheduled == 0
    {
      this.doc := doc;
      this.container := container;
      this.isActive := isActive;
      mounted := true;
      previousActiveElement := None;
      listening := false;
      scheduled := 0;
    }

    /** The focusable set, recomputed from the container as it is now. */
    function Focusables(): seq<Element>
      reads this
    {
      GetFocusable(container)
    }

    /** The keydown listener itself. */
    method HandleKeyDown(ev: KeyEvent) returns (prevented: bool)
      modifies doc
      ensures prevented == TabTarget(Focusables(), old(doc.activeElement), ev, isActive).Some?
      ensures doc.activeElement ==
        if prevented then TabTarget(Focusables(), old(doc.activeElement), ev, isActive)
        else old(doc.activeElement)
    {
      prevented := false;
      if ev.key != "Tab" || !isActive {
        return;
      }
      var focusables := GetFocusable(container);
      if |focusables| == 0 {
        return;
      }
      var first, last := focusables[0], focusables[|focusables| - 1];
      if ev.shiftKey {
        if HasFocus(doc.activeElement, first) {
          prevented := true;
          doc.Focus(last);
        }
      } else {
        if HasFocus(doc.activeElement, last) {
          prevented := true;
          doc.Focus(first);
        }
      }
    }

    /** A keydown reaching the document: the listener runs only while registered. */
    method KeyDown(ev: KeyEvent) returns (prevented: bool)
      modifies doc
      ensures prevented == (listening && TabTarget(Focusables(), old(doc.activeElement), ev, isActive).Some?)
      ensures doc.activeElement ==
        if prevented then TabTarget(Focusables(), old(doc.activeElement), ev, isActive)
        else old(doc.activeElement)
    {
      prevented := false;
      if listening {
        prevented := HandleKeyDown(ev);
      }
    }

    /**
     * `activate`: remember what had focus, register the listener, then focus
     * the first focusable element if there is one.
     */
    method Activate()
      modifies this`previousActiveElement, this`listening, doc
      ensures previousActiveElement == old(doc.activeElement)
      ensures listening
      ensures doc.activeElement ==
        if |Focusables()| > 0 then Some(Focusables()[0]) else old(doc.activeElement)
    {
      previousActiveElement := doc.activeElement;
      listening := true;
      var focusables := GetFocusable(container);
      if |focusables| > 0 {
        doc.Focus(focusables[0]);
      }
    }

    /**
     * `deactivate`: unregister the listener and, if an element was recorded,
     * focus it again. The record is kept.
     */
    method Deactivate()
      modifies this`listening, doc
      ensures !listening
      ensures doc.activeElement ==
        if previousActiveElement.Some? then previousActiveElement else old(doc.activeElement)
    {
      listening := false;
      if previousActiveElement.Some? {
        doc.Focus(previousActiveElement.value);
      }
    }

    /**
     * Assigning the active ref. The watcher runs only on a change and only
     * while the owner is mounted: a rising edge queues one `activate`, a
     * falling edge deactivates at once.
     */
    method SetIsActive(active: bool)
      modifies this`isActive, this`scheduled, this`listening, doc
      ensures isActive == active
      ensures scheduled == if mounted && !old(isActive) && active then old(scheduled) + 1 else old(scheduled)
      ensures mounted && old(isActive) && !active ==>
        !listening &&
        doc.activeElement == if previousActiveElement.Some? then previousActiveElement else old(doc.activeElement)
      ensures !(mounted && old(isActive) && !active) ==>
        listening == old(listening) && doc.activeElement == old(doc.activeElement)
    {
      var changed := active != isActive;
      isActive := active;
      if mounted && changed {
        if active {
          scheduled := scheduled + 1;
        } else {
          Deactivate();
        }
      }
    }

    /**
     * The event loop running one queued `activate`, if any is queued. Nothing
     * checks `isActive` first: a queued call runs even after a falling edge.
     */
    method RunScheduledActivate() returns (ran: bool)
      modifies this`scheduled, this`previousActiveElement, this`listening, doc
      ensures ran == (old(scheduled) > 0)
      ensures ran ==>
        && scheduled == old(scheduled) - 1
        && previousActiveElement == old(doc.activeElement)
        && listening
        && doc.activeElement == if |Focusables()| > 0 then Some(Focusables()[0]) else old(doc.activeElement)
      ensures !ran ==>
        && scheduled == old(scheduled)
        && previousActiveElement == old(previousActiveElement)
        && listening == old(listening)
        && doc.activeElement == old(doc.activeElement)
    {
      ran := scheduled > 0;
      if ran {
        scheduled := scheduled - 1;
        Activate();
      }
    }

    /**
     * Unmounting the owner stops the watcher and deactivates; it does not
     * cancel a queued `activate`.
     */
    method Unmount()
      modifies this`mounted, this`listening, doc
      ensures !mounted && !listening
      ensures doc.activeElement ==
        if previousActiveElement.Some? then previousActiveElement else old(doc.activeElement)
    {
      mounted := false;
      Deactivate();
    }
  }

  // ---------------------------------------------------------------------------
  // Properties of several calls together
  // ---------------------------------------------------------------------------

  /**
   * `activate` then `deactivate`, with no focus change in between, gives
   * focus back to whatever had it before `activate`, provided something had
   * it; when nothing had focus, focus stays on the first focusable element.
   */
  method ActivateThenDeactivate(t: Trap)
    modifies t`previousActiveElement, t`listening, t.doc
    ensures !t.listening
    ensures t.previousActiveElement == old(t.doc.activeElement)
    ensures old(t.doc.activeElement).Some? ==> t.doc.activeElement == old(t.doc.activeElement)
    ensures old(t.doc.activeElement).None? ==>
      t.doc.activeElement == if |t.Focusables()| > 0 then Some(t.Focusables()[0]) else None
  {
    t.Activate();
    t.Deactivate();
  }

  /** Deactivating twice ends where deactivating once does. */
  method DeactivateTwice(t: Trap)
    modifies t`listening, t.doc
    ensures !t.listening
    ensures t.doc.activeElement ==
      if t.previousActiveElement.Some? then t.previousActiveElement else old(t.doc.activeElement)
  {
    t.Deactivate();
    t.Deactivate();
  }

  /**
   * A rising edge, then a falling edge before the queued `activate` runs
   * (the watcher has run for each edge), then the queued `activate` running: the listener ends up registered and focus inside the
   * container although the active ref is false, and a Tab press is then
   * still ignored because the handler checks the ref.
   */
  method StaleActivateAfterFalseEdge(t: Trap, tab: KeyEvent) returns (prevented: bool)
    requires t.mounted && !t.isActive && t.scheduled == 0
    modifies t`isActive, t`scheduled, t`previousActiveElement, t`listening, t.doc
    ensures !t.isActive && t.listening && t.scheduled == 0
    ensures |t.Focusables()| > 0 ==> t.doc.activeElement == Some(t.Focusables()[0])
    ensures !prevented
  {
    t.SetIsActive(true);
    t.SetIsActive(false);
    var ran := t.RunScheduledActivate();
    prevented := t.KeyDown(tab);
  }

  /**
   * A rising edge, then unmount before the queued `activate` runs: the
   * `activate` still runs and registers the listener, and since the watcher
   * has stopped, no later falling edge removes it again.
   */
  method StaleActivateAfterUnmount(t: Trap)
    requires t.mounted && !t.isActive && t.scheduled == 0
    modifies t`mounted, t`isActive, t`scheduled, t`previousActiveElement, t`listening, t.doc
    ensures !t.mounted && !t.isActive && t.listening && t.scheduled == 0
  {
    t.SetIsActive(true);
    t.Unmount();
    var ran := t.RunScheduledActivate();
    t.SetIsActive(false);
  }

  // ---------------------------------------------------------------------------
  // A modal with a button, a disabled input and a link
  // ---------------------------------------------------------------------------

  const ButtonA := Element(1, "button", map[])
  const InputB := Element(2, "input", map["disabled" := ""])
  const LinkC := Element(3, "a", map["href" := "#"])

  /** The button and the link match the selector list; the disabled input does not. */
  lemma ModalElementsFocusability()
    ensures Focusable(ButtonA) && !Focusable(InputB) && Focusable(LinkC)
  {
    FocusableIff(ButtonA);
    FocusableIff(InputB);
    FocusableIff(LinkC);
  }

  /** Of three descendants where only the middle one cannot take focus, the outer two remain, in order. */
  lemma SkipsMiddle(a: Element, b: Element, c: Element)
    requires Focusable(a) && !Focusable(b) && Focusable(c)
    ensures FocusableElements([a, b, c]) == [a, c]
  {
    assert [a] == [] + [a];
    FocusableElementsAppend([], a);
    assert FocusableElements([a]) == [a];
    assert [a, b] == [a] + [b];
    FocusableElementsAppend([a], b);
    assert FocusableElements([a, b]) == [a];
    assert [a, b, c] == [a, b] + [c];
    FocusableElementsAppend([a, b], c);
    assert [a] + [c] == [a, c];
  }

  /** The three descendants in document order give the button and then the link. */
  lemma ModalFocusables()
    ensures FocusableElements([ButtonA, InputB, LinkC]) == [ButtonA, LinkC]
  {
    ModalElementsFocusability();
    SkipsMiddle(ButtonA, InputB, LinkC);
  }

  /**
   * A freshly set-up trap over any container with something focusable and
   * nothing focused: raising the active ref and letting the queued `activate`
   * run focuses the first focusable element, Shift+Tab then wraps to the
   * last one and Tab wraps back to the first.
   */
  method ActivateThenWrap(contents: seq<Element>) returns (afterActivate: Option<Element>, afterShiftTab: Option<Element>, afterTab: Option<Element>)
    requires |FocusableElements(contents)| > 0
    ensures afterActivate == Some(FocusableElements(contents)[0])
    ensures afterShiftTab == Some(FocusableElements(contents)[|FocusableElements(contents)| - 1])
    ensures afterTab == Some(FocusableElements(contents)[0])
  {
    var focusables := FocusableElements(contents);
    var first, last := focusables[0], focusables[|focusables| - 1];
    var doc := new Document(None);
    var trap := new Trap(doc, Some(contents), false);
    assert trap.Focusables() == focusables;
    trap.SetIsActive(true);
    assert trap.scheduled == 1 && trap.isActive && trap.Focusables() == focusables;
    var ran := trap.RunScheduledActivate();
    assert trap.listening && trap.Focusables() == focusables;
    afterActivate := doc.activeElement;
    assert afterActivate == Some(first);
    ShiftTabFromFirstWrapsToLast(focusables, Some(first));
    var prevented := trap.KeyDown(KeyEvent("Tab", true));
    afterShiftTab := doc.activeElement;
    assert afterShiftTab == Some(last);
    TabFromLastWrapsToFirst(focusables, Some(last));
    prevented := trap.KeyDown(KeyEvent("Tab", false));
    afterTab := doc.activeElement;
  }

  /**
   * Activating focuses the button; Shift+Tab then wraps to the link (the
   * disabled input is skipped) and Tab wraps back to the button.
   */
  method ModalScenario() returns (afterActivate: Option<Element>, afterShiftTab: Option<Element>, afterTab: Option<Element>)
    ensures afterActivate == Some(ButtonA)
    ensures afterShiftTab == Some(LinkC)
    ensures afterTab == Some(ButtonA)
  {
    ModalFocusables();
    afterActivate, afterShiftTab, afterTab := ActivateThenWrap([ButtonA, InputB, LinkC]);
  }

}
