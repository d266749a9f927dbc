/**
  JavaScript data as it lives in memory, where objects refer to one another, and the trees
  it unfolds to.
 */
module JsGraph {
  import opened Transport

  type Ref = nat

  /** What a slot of a container holds; a hole reads as undefined. */
  datatype Item =
    | Absent
    | Data(js: Js)
    | Reference(ref: Ref)

  datatype Slot = Slot(name: string, item: Item)

  datatype Pair = Pair(key: Item, value: Item)

  /** Arrays are read item by item, and so are Sets and wide typed arrays, which are no arrays. */
  datatype Node =
    | ListNode(isArray: bool, items: seq<Item>)
    | ObjectNode(slots: seq<Slot>)
    | MapNode(pairs: seq<Pair>)
    | LeafNode(js: Js)

  type Heap = map<Ref, Node>

  // ----- Well-formed heaps -----

  predicate ItemIn(heap: Heap, item: Item) {
    && (item.Data? ==> Primitive(item.js) && !item.js.JsUndefined?)
    && (item.Reference? ==> item.ref in heap)
  }

  predicate NodeIn(heap: Heap, node: Node) {
    match node
    case ListNode(_, items) => forall i :: 0 <= i < |items| ==> ItemIn(heap, items[i])
    case ObjectNode(slots) => forall i :: 0 <= i < |slots| ==> ItemIn(heap, slots[i].item)
    case MapNode(pairs) => forall i :: 0 <= i < |pairs| ==> ItemIn(heap, pairs[i].key) && ItemIn(heap, pairs[i].value)
    case LeafNode(js) => js.JsBuffer? || js.JsDate? || js.JsNative?
  }

  /** References lead to objects, and the rest is data without references. */
  ghost predicate WellFormed(heap: Heap) {
    forall ref :: ref in heap ==> NodeIn(heap, heap[ref])
  }

  // ----- Unfolding -----

  /** The tree that an item unfolds to. */
  ghost predicate Denotes(heap: Heap, item: Item, js: Js)
    decreases js
  {
    match item
    case Absent => js == JsUndefined
    case Data(data) => js == data
    case Reference(ref) =>
      ref in heap &&
      match heap[ref]
      case ListNode(_, items) =>
        js.JsArray? && |js.items| == |items| && forall i :: 0 <= i < |items| ==> Denotes(heap, items[i], js.items[i])
      case ObjectNode(slots) =>
        js.JsObject? && |js.properties| == |slots|
        && forall i :: 0 <= i < |slots| ==> SlotDenotes(heap, slots[i], js.properties[i])
      case MapNode(pairs) =>
        js.JsMap? && |js.entries| == |pairs|
        && forall i :: 0 <= i < |pairs| ==> PairDenotes(heap, pairs[i], js.entries[i])
      case LeafNode(leaf) => js == leaf
  }

  ghost predicate SlotDenotes(heap: Heap, slot: Slot, property: Property)
    decreases property
  {
    property.name == slot.name && Denotes(heap, slot.item, property.value)
  }

  ghost predicate PairDenotes(heap: Heap, pair: Pair, entry: JsEntry)
    decreases entry
  {
    Denotes(heap, pair.key, entry.key) && Denotes(heap, pair.value, entry.value)
  }

  /** An item unfolds in one way only. */
  lemma {:induction false} OneUnfolding(heap: Heap, item: Item, a: Js, b: Js)
    requires Denotes(heap, item, a) && Denotes(heap, item, b)
    ensures a == b
    decreases a
  {
    if item.Reference? {
      match heap[item.ref]
      case ListNode(_, items) =>
        forall i | 0 <= i < |items| ensures a.items[i] == b.items[i] {
          OneUnfolding(heap, items[i], a.items[i], b.items[i]);
        }
        assert a.items == b.items;
      case ObjectNode(slots) =>
        forall i | 0 <= i < |slots| ensures a.properties[i] == b.properties[i] {
          assert SlotDenotes(heap, slots[i], a.properties[i]) && SlotDenotes(heap, slots[i], b.properties[i]);
          OneUnfolding(heap, slots[i].item, a.properties[i].value, b.properties[i].value);
        }
        assert a.properties == b.properties;
      case MapNode(pairs) =>
        forall i | 0 <= i < |pairs| ensures a.entries[i] == b.entries[i] {
          assert PairDenotes(heap, pairs[i], a.entries[i]) && PairDenotes(heap, pairs[i], b.entries[i]);
          OneUnfolding(heap, pairs[i].key, a.entries[i].key, b.entries[i].key);
          OneUnfolding(heap, pairs[i].value, a.entries[i].value, b.entries[i].value);
        }
        assert a.entries == b.entries;
      case LeafNode(_) =>
    }
  }

  // ----- Paths and cycles -----

  ghost predicate ChildOf(node: Node, item: Item) {
    match node
    case ListNode(_, items) => exists i :: 0 <= i < |items| && items[i] == item
    case ObjectNode(slots) => exists i :: 0 <= i < |slots| && slots[i].item == item
    case MapNode(pairs) => exists i :: 0 <= i < |pairs| && (pairs[i].key == item || pairs[i].value == item)
    case LeafNode(_) => false
  }

  /** One object holds a reference to the other. */
  ghost predicate Edge(heap: Heap, from: Ref, to: Ref) {
    from in heap && ChildOf(heap[from], Reference(to))
  }

  ghost predicate IsPath(heap: Heap, path: seq<Ref>) {
    path != [] && forall i :: 0 <= i < |path| - 1 ==> Edge(heap, path[i], path[i + 1])
  }

  ghost predicate OnCycle(heap: Heap, ref: Ref) {
    exists path :: |path| >= 2 && path[0] == ref && path[|path| - 1] == ref && IsPath(heap, path)
  }

  /** From this item a cycle can be reached. */
  ghost predicate ReachesCycle(heap: Heap, item: Item) {
    item.Reference? && exists path :: IsPath(heap, path) && path[0] == item.ref && OnCycle(heap, path[|path| - 1])
  }

  lemma ChildUnfolds(heap: Heap, ref: Ref, item: Item, js: Js) returns (child: Js)
    requires Denotes(heap, Reference(ref), js) && ChildOf(heap[ref], item)
    ensures Denotes(heap, item, child) && child < js
  {
    match heap[ref]
    case ListNode(_, items) =>
      var i :| 0 <= i < |items| && items[i] == item;
      child := js.items[i];
    case ObjectNode(slots) =>
      var i :| 0 <= i < |slots| && slots[i].item == item;
      assert SlotDenotes(heap, slots[i], js.properties[i]);
      child := js.properties[i].value;
    case MapNode(pairs) =>
      var i :| 0 <= i < |pairs| && (pairs[i].key == item || pairs[i].value == item);
      assert PairDenotes(heap, pairs[i], js.entries[i]);
      child := if pairs[i].key == item then js.entries[i].key else js.entries[i].value;
  }

  lemma {:induction false} PathUnfolds(heap: Heap, path: seq<Ref>, js: Js) returns (end: Js)
    requires IsPath(heap, path) && Denotes(heap, Reference(path[0]), js)
    ensures Denotes(heap, Reference(path[|path| - 1]), end)
    ensures |path| >= 2 ==> end < js
    ensures |path| == 1 ==> end == js
    decreases |path|
  {
    if |path| == 1 {
      end := js;
    } else {
      assert Edge(heap, path[0], path[1]);
      var child := ChildUnfolds(heap, path[0], Reference(path[1]), js);
      forall i | 0 <= i < |path| - 2 ensures Edge(heap, path[1..][i], path[1..][i + 1]) {
        assert Edge(heap, path[i + 1], path[i + 2]);
      }
      end := PathUnfolds(heap, path[1..], child);
    }
  }

  /** What lies on a cycle would unfold to a tree within itself. */
  lemma {:induction false} CycleNeverUnfolds(heap: Heap, path: seq<Ref>, js: Js)
    requires |path| >= 2 && path[0] == path[|path| - 1] && IsPath(heap, path)
    ensures !Denotes(heap, Reference(path[0]), js)
    decreases js
  {
    if Denotes(heap, Reference(path[0]), js) {
      var end := PathUnfolds(heap, path, js);
      CycleNeverUnfolds(heap, path, end);
    }
  }

  lemma ReachingNeverUnfolds(heap: Heap, item: Item, js: Js)
    requires ReachesCycle(heap, item)
    ensures !Denotes(heap, item, js)
  {
    if Denotes(heap, item, js) {
      var path :| IsPath(heap, path) && path[0] == item.ref && OnCycle(heap, path[|path| - 1]);
      var end := PathUnfolds(heap, path, js);
      var cycle :| |cycle| >= 2 && cycle[0] == path[|path| - 1] && cycle[|cycle| - 1] == cycle[0]
          && IsPath(heap, cycle);
      CycleNeverUnfolds(heap, cycle, end);
    }
  }

  lemma ParentReaches(heap: Heap, ref: Ref, item: Item)
    requires ref in heap && ChildOf(heap[ref], item) && ReachesCycle(heap, item)
    ensures ReachesCycle(heap, Reference(ref))
  {
    var path :| IsPath(heap, path) && path[0] == item.ref && OnCycle(heap, path[|path| - 1]);
    var longer := [ref] + path;
    forall i | 0 <= i < |longer| - 1 ensures Edge(heap, longer[i], longer[i + 1]) {
      if i > 0 { assert Edge(heap, path[i - 1], path[i]); }
    }
    assert longer[|longer| - 1] == path[|path| - 1];
  }
}
