/**
 * The click-outside watcher used to close dropdowns and overlays: on every
 * mousedown it invokes its callback unless the gate is closed, the container
 * ref is empty, or the press landed on the container or inside it.
 */
module ClickOutside {
  import opened Wrappers

  // ---------------------------------------------------------------------------
  // The node tree and containment
  // ---------------------------------------------------------------------------

  /** Nodes are numbered in document order. */
  type NodeId = nat

  /**
   * The document tree, as each node's parent. A parent comes before its
   * children in document order, so following parents always ends at a root.
   */
  type Tree = parent: map<NodeId, NodeId> | forall n :: n in parent ==> parent[n] < n
    witness map[]

  /** `node.contains(other)`: `other` is `node` itself or one of its descendants. */
  predicate Contains(t: Tree, node: NodeId, other: NodeId)
    decreases other
  {
    node == other || (other in t && Contains(t, node, t[other]))
  }

  /** A node contains itself. */
  lemma ContainsSelf(t: Tree, node: NodeId)
    ensures Contains(t, node, node)
  {
  }

  /** A node contains each of its children. */
  lemma ContainsChild(t: Tree, node: NodeId, child: NodeId)
    requires child in t && t[child] == node
    ensures Contains(t, node, child)
  {
  }

  /** A node precedes everything it contains. */
  lemma {:induction false} ContainsPrecedes(t: Tree, node: NodeId, other: NodeId)
    requires Contains(t, node, other)
    ensures node <= other
  {
    if node != other {
      ContainsPrecedes(t, node, t[other]);
    }
  }

  /** Containment is transitive. */
  lemma {:induction false} ContainsTransitive(t: Tree, a: NodeId, b: NodeId, c: NodeId)
    requires Contains(t, a, b) && Contains(t, b, c)
    ensures Contains(t, a, c)
    decreases c
  {
    if b != c {
      ContainsTransitive(t, a, b, t[c]);
    }
  }

  /** Two nodes that contain each other are the same node. */
  lemma ContainsAntisymmetric(t: Tree, a: NodeId, b: NodeId)
    requires Contains(t, a, b) && Contains(t, b, a)
    ensures a == b
  {
    ContainsPrecedes(t, a, b);
    ContainsPrecedes(t, b, a);
  }

  /** A node does not contain its parent. */
  lemma ParentNotContained(t: Tree, node: NodeId)
    requires node in t
    ensures !Contains(t, node, t[node])
  {
    if Contains(t, node, t[node]) {
      ContainsPrecedes(t, node, t[node]);
    }
  }

  /** A node does not contain a sibling, nor anything inside the sibling. */
  lemma SiblingNotContained(t: Tree, node: NodeId, sibling: NodeId, inside: NodeId)
    requires node in t && sibling in t && t[node] == t[sibling] && node != sibling
    requires Contains(t, sibling, inside)
    ensures !Contains(t, node, inside)
  {
    if Contains(t, node, inside) {
      // Both are ancestors of `inside`, so one contains the other, and so
      // contains the other's parent, which is its own parent: impossible.
      AncestorsOrdered(t, node, sibling, inside);
      if Contains(t, node, sibling) {
        ParentReached(t, node, sibling);
        ParentNotContained(t, node);
      } else {
        ParentReached(t, sibling, node);
        ParentNotContained(t, sibling);
      }
    }
  }

  /** Two ancestors of one node are ordered by containment. */
  lemma {:induction false} AncestorsOrdered(t: Tree, a: NodeId, b: NodeId, n: NodeId)
    requires Contains(t, a, n) && Contains(t, b, n)
    ensures Contains(t, a, b) || Contains(t, b, a)
    decreases n
  {
    if a != n && b != n {
      AncestorsOrdered(t, a, b, t[n]);
    }
  }

  /** A node that strictly contains another contains that other's parent. */
  lemma ParentReached(t: Tree, a: NodeId, n: NodeId)
    requires Contains(t, a, n) && a != n
    ensures n in t && Contains(t, a, t[n])
  {
  }

  // ---------------------------------------------------------------------------
  // The firing decision
  // ---------------------------------------------------------------------------

  /**
   * `handleClickOutside`'s decision for one mousedown. `enabled` is the
   * optional gate (`None` when no gate was supplied), `container` the target
   * ref (`None` for `null`), `target` the event's target node.
   */
  function ShouldInvoke(enabled: Option<bool>, container: Option<NodeId>, t: Tree, target: NodeId): (fire: bool)
    ensures fire ==> enabled != Some(false) && container.Some?
    ensures fire ==> target != container.value
  {
    if enabled == Some(false) then false
    else if container.None? then false
    else !Contains(t, container.value, target)
  }

  /** A closed gate suppresses the callback, whatever the target. */
  lemma ClosedGateNeverInvokes(container: Option<NodeId>, t: Tree, target: NodeId)
    ensures !ShouldInvoke(Some(false), container, t, target)
  {
  }

  /** An empty container ref suppresses the callback. */
  lemma NullContainerNeverInvokes(enabled: Option<bool>, t: Tree, target: NodeId)
    ensures !ShouldInvoke(enabled, None, t, target)
  {
  }

  /** A press on the container or anything inside it is not outside. */
  lemma InsideNeverInvokes(enabled: Option<bool>, container: NodeId, t: Tree, target: NodeId)
    requires Contains(t, container, target)
    ensures !ShouldInvoke(enabled, Some(container), t, target)
  {
  }

  /** Any other press, with the gate open or absent, is outside. */
  lemma OutsideInvokes(enabled: Option<bool>, container: NodeId, t: Tree, target: NodeId)
    requires enabled != Some(false)
    requires !Contains(t, container, target)
    ensures ShouldInvoke(enabled, Some(container), t, target)
  {
  }

  /** A press on the container's parent, a sibling, or inside a sibling is outside. */
  lemma NeighboursInvoke(enabled: Option<bool>, container: NodeId, t: Tree, sibling: NodeId, target: NodeId)
    requires enabled != Some(false)
    requires container in t && sibling in t && t[container] == t[sibling] && container != sibling
    ensures ShouldInvoke(enabled, Some(container), t, t[container])
    ensures Contains(t, sibling, target) ==> ShouldInvoke(enabled, Some(container), t, target)
  {
    ParentNotContained(t, container);
    if Contains(t, sibling, target) {
      SiblingNotContained(t, container, sibling, target);
    }
  }

  // ---------------------------------------------------------------------------
  // The watcher
  // ---------------------------------------------------------------------------

  /**
   * One `useClickOutside` instance: the target ref, the optional gate,
   * whether its document mousedown listener is registered, and how many times
   * the callback has been invoked.
   */
  class Watcher {
    var container: Option<NodeId>
    var enabled: Option<bool>
    var listening: bool
    var calls: nat

    /** Setting the watcher up registers nothing until mount. */
    constructor (container: Option<NodeId>, enabled: Option<bool>)
      ensures this.container == container && this.enabled == enabled
      ensures !listening && calls == 0
    {
      this.container := container;
      this.enabled := enabled;
      listening := false;
      calls := 0;
    }

    /** Mounting registers the listener (registering it again changes nothing). */
    method Mount()
      modifies this`listening
      ensures listening
    {
      listening := true;
    }

    /** Unmounting removes the listener. */
    method Unmount()
      modifies this`listening
      ensures !listening
    {
      listening := false;
    }

    /** The mousedown listener itself: invoke the callback once, or not at all. */
    method HandleClickOutside(t: Tree, target: NodeId) returns (invoked: bool)
      modifies this`calls
      ensures invoked == ShouldInvoke(enabled, container, t, target)
      ensures calls == old(calls) + (if invoked then 1 else 0)
    {
      invoked := false;
      if enabled.Some? && !enabled.value {
        return;
      }
      if container.None? {
        return;
      }
      if !Contains(t, container.value, target) {
        invoked := true;
        calls := calls + 1;
      }
    }

    /** A mousedown reaching the document: the listener runs only while registered. */
    method MouseDown(t: Tree, target: NodeId) returns (invoked: bool)
      modifies this`calls
      ensures invoked == (listening && ShouldInvoke(enabled, container, t, target))
      ensures calls == old(calls) + (if invoked then 1 else 0)
    {
      invoked := false;
      if listening {
        invoked := HandleClickOutside(t, target);
      }
    }
  }

  /** After unmount no mousedown invokes the callback, however many mounts came before. */
  method UnmountedNeverInvokes(w: Watcher, t: Tree, targets: seq<NodeId>)
    modifies w`listening, w`calls
    ensures !w.listening && w.calls == old(w.calls)
  {
    w.Mount();
    w.Mount();
    w.Unmount();
    var i := 0;
    while i < |targets|
      invariant 0 <= i <= |targets|
      invariant !w.listening && w.calls == old(w.calls)
    {
      var invoked := w.MouseDown(t, targets[i]);
      i := i + 1;
    }
  }

  // ---------------------------------------------------------------------------
  // A container with a child, next to a sibling
  // ---------------------------------------------------------------------------

  /** Root 0 holds the container 1 and its sibling 3; node 2 sits inside the container. */
  const Page: Tree := map[1 := 0, 2 := 1, 3 := 0]

  /**
   * Pressing inside the container leaves the callback alone; pressing on the
   * sibling invokes it exactly once.
   */
  method SiblingScenario() returns (afterInside: nat, afterSibling: nat)
    ensures afterInside == 0 && afterSibling == 1
  {
    var w := new Watcher(Some(1), None);
    w.Mount();
    assert Contains(Page, 1, 2);
    var invoked := w.MouseDown(Page, 2);
    afterInside := w.calls;
    NeighboursInvoke(None, 1, Page, 3, 3);
    invoked := w.MouseDown(Page, 3);
    afterSibling := w.calls;
  }
}
