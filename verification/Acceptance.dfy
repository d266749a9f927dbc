/**
  What the encoder of node/src/codec.rs accepts, said without running it: object graphs
  without cycles, no deeper than allowed.
 */
module Acceptance {
  import opened Sequences
  import opened Values
  import opened Transport
  import opened RoundTrip
  import opened JsGraph
  import opened JsEncoding

  // ----- Graphs that unfold -----

  /** An item met at the end of a trail, from which no cycle can be reached. */
  ghost predicate Linked(heap: Heap, trail: seq<Ref>, item: Item) {
    WellFormed(heap) && ItemIn(heap, item) && Trail(heap, trail, item) && !ReachesCycle(heap, item)
  }

  lemma ChildrenLinked(heap: Heap, trail: seq<Ref>, ref: Ref)
    requires Linked(heap, trail, Reference(ref))
    ensures forall child :: ChildOf(heap[ref], child) ==> Linked(heap, trail + [ref], child)
    ensures heap.Keys - SetOf(trail + [ref]) < heap.Keys - SetOf(trail)
  {
    hide Trail, ReachesCycle, NodeIn;
    InHeap(heap, trail, ref);
    forall child | ChildOf(heap[ref], child) ensures Linked(heap, trail + [ref], child) {
      LongerTrail(heap, trail, ref, child);
      if ReachesCycle(heap, child) { ParentReaches(heap, ref, child); }
      ChildIn(heap, ref, child);
    }
    SetOfSnoc(trail, ref);
    if ref in SetOf(trail) { TrailCloses(heap, trail, ref); }
    hide SetOf;
    assert ref in heap.Keys - SetOf(trail);
  }

  lemma InHeap(heap: Heap, trail: seq<Ref>, ref: Ref)
    requires Linked(heap, trail, Reference(ref))
    ensures ref in heap
  {
    hide Trail, ReachesCycle;
  }

  lemma ChildIn(heap: Heap, ref: Ref, child: Item)
    requires WellFormed(heap) && ref in heap && ChildOf(heap[ref], child)
    ensures ItemIn(heap, child)
  {
    hide ItemIn;
    assert NodeIn(heap, heap[ref]);
  }

  /** The tree an item unfolds to, object by object; the trail uses up the heap. */
  ghost function Unfolding(heap: Heap, trail: seq<Ref>, item: Item): Js
    requires Linked(heap, trail, item)
    decreases heap.Keys - SetOf(trail)
  {
    match item
    case Absent => JsUndefined
    case Data(js) => js
    case Reference(ref) =>
      InHeap(heap, trail, ref);
      ChildrenLinked(heap, trail, ref);
      match heap[ref]
      case ListNode(_, items) =>
        JsArray(seq(|items|, i requires 0 <= i < |items| =>
          assert ChildOf(heap[ref], items[i]);
          Unfolding(heap, trail + [ref], items[i])))
      case ObjectNode(slots) =>
        JsObject(seq(|slots|, i requires 0 <= i < |slots| =>
          assert ChildOf(heap[ref], slots[i].item);
          Property(slots[i].name, Unfolding(heap, trail + [ref], slots[i].item))))
      case MapNode(pairs) =>
        JsMap(seq(|pairs|, i requires 0 <= i < |pairs| =>
          assert ChildOf(heap[ref], pairs[i].key) && ChildOf(heap[ref], pairs[i].value);
          JsEntry(Unfolding(heap, trail + [ref], pairs[i].key), Unfolding(heap, trail + [ref], pairs[i].value))))
      case LeafNode(js) => js
  }

  lemma {:induction false} UnfoldingDenotes(heap: Heap, trail: seq<Ref>, item: Item)
    requires Linked(heap, trail, item)
    ensures Denotes(heap, item, Unfolding(heap, trail, item))
    decreases heap.Keys - SetOf(trail)
  {
    if item.Reference? {
      InHeap(heap, trail, item.ref);
      ChildrenLinked(heap, trail, item.ref);
      hide Linked, SetOf;
      forall child | ChildOf(heap[item.ref], child)
        ensures Denotes(heap, child, Unfolding(heap, trail + [item.ref], child))
      {
        UnfoldingDenotes(heap, trail + [item.ref], child);
      }
      NodeUnfolds(heap, trail, item.ref);
    }
  }

  lemma NodeUnfolds(heap: Heap, trail: seq<Ref>, ref: Ref)
    requires Linked(heap, trail, Reference(ref)) && ref in heap
    requires forall child :: ChildOf(heap[ref], child) ==> Linked(heap, trail + [ref], child)
    requires forall child :: ChildOf(heap[ref], child) ==> Denotes(heap, child, Unfolding(heap, trail + [ref], child))
    ensures Denotes(heap, Reference(ref), Unfolding(heap, trail, Reference(ref)))
  {
    hide Linked;
    var js := Unfolding(heap, trail, Reference(ref));
    match heap[ref]
    case ListNode(_, items) =>
      forall i | 0 <= i < |items| ensures Denotes(heap, items[i], js.items[i]) {
        assert ChildOf(heap[ref], items[i]);
      }
    case ObjectNode(slots) =>
      forall i | 0 <= i < |slots| ensures SlotDenotes(heap, slots[i], js.properties[i]) {
        assert ChildOf(heap[ref], slots[i].item);
      }
    case MapNode(pairs) =>
      forall i | 0 <= i < |pairs| ensures PairDenotes(heap, pairs[i], js.entries[i]) {
        assert ChildOf(heap[ref], pairs[i].key) && ChildOf(heap[ref], pairs[i].value);
      }
    case LeafNode(_) =>
  }

  /** An item unfolds to a tree exactly when no cycle can be reached from it; sharing is no obstacle. */
  lemma UnfoldsIffAcyclic(heap: Heap, item: Item)
    requires WellFormed(heap) && ItemIn(heap, item)
    ensures (exists js :: Denotes(heap, item, js)) <==> !ReachesCycle(heap, item)
  {
    hide Denotes, ReachesCycle;
    if ReachesCycle(heap, item) {
      forall js ensures !Denotes(heap, item, js) { ReachingNeverUnfolds(heap, item, js); }
    } else {
      assert Linked(heap, [], item);
      UnfoldingDenotes(heap, [], item);
    }
  }

  // ----- How deep -----

  /** How deep a tree nests. A slot with nothing in it is not looked into. */
  function TreeHeight(js: Js): nat
    decreases js, 0
  {
    match js
    case JsArray(items) => Max(seq(|items|, i requires 0 <= i < |items| => SlotHeight(items[i])))
    case JsObject(properties) =>
      Max(seq(|properties|, i requires 0 <= i < |properties| => PropertyHeight(properties[i])))
    case _ => 0
  }

  function SlotHeight(js: Js): nat
    decreases js, 1
  {
    if js.JsUndefined? then 0 else 1 + TreeHeight(js)
  }

  function PropertyHeight(property: Property): nat
    decreases property, 0
  {
    SlotHeight(property.value)
  }

  lemma ArrayHeight(items: seq<Js>, n: nat)
    ensures TreeHeight(JsArray(items)) <= n <==> forall i :: 0 <= i < |items| ==> SlotHeight(items[i]) <= n
  {
    var heights := seq(|items|, i requires 0 <= i < |items| => SlotHeight(items[i]));
    assert forall i :: 0 <= i < |items| ==> heights[i] == SlotHeight(items[i]);
    assert TreeHeight(JsArray(items)) == Max(heights);
  }

  lemma ObjectHeight(properties: seq<Property>, n: nat)
    ensures TreeHeight(JsObject(properties)) <= n
       <==> forall i :: 0 <= i < |properties| ==> PropertyHeight(properties[i]) <= n
  {
    hide PropertyHeight;
    var heights := seq(|properties|, i requires 0 <= i < |properties| => PropertyHeight(properties[i]));
    assert forall i :: 0 <= i < |properties| ==> heights[i] == PropertyHeight(properties[i]);
    assert TreeHeight(JsObject(properties)) == Max(heights);
  }

  /** Arrays and plain objects of JSON data, the names of each object once. */
  predicate PlainTree(js: Js) {
    match js
    case JsArray(items) => forall i :: 0 <= i < |items| ==> PlainTree(items[i])
    case JsObject(properties) =>
      && (forall i :: 0 <= i < |properties| ==> PropertyPlain(properties[i]))
      && Distinct(seq(|properties|, i requires 0 <= i < |properties| => properties[i].name))
    case _ => js.JsUndefined? || js.JsNull? || js.JsBoolean? || js.JsNumber? || js.JsString?
  }

  predicate PropertyPlain(property: Property) { PlainTree(property.value) }

  lemma ArrayShallow(items: seq<Js>, depth: nat, maxDepth: nat)
    requires forall i :: 0 <= i < |items| ==>
      (Encode(items[i], depth + 1, maxDepth).Some? <==> depth + SlotHeight(items[i]) <= maxDepth)
    requires depth <= maxDepth
    ensures Encode(JsArray(items), depth, maxDepth).Some? <==> depth + TreeHeight(JsArray(items)) <= maxDepth
  {
    ArrayHeight(items, maxDepth - depth);
    hide TreeHeight, SlotHeight;
  }

  lemma ObjectShallow(properties: seq<Property>, depth: nat, maxDepth: nat)
    requires forall i :: 0 <= i < |properties| ==>
      (EncodeProperty(properties[i], depth + 1, maxDepth).Some? <==> depth + PropertyHeight(properties[i]) <= maxDepth)
    requires depth <= maxDepth && PlainTree(JsObject(properties))
    ensures Encode(JsObject(properties), depth, maxDepth).Some?
        <==> depth + TreeHeight(JsObject(properties)) <= maxDepth
  {
    hide TreeHeight, PropertyHeight, DistinctKeys;
    ObjectHeight(properties, maxDepth - depth);
    if forall i :: 0 <= i < |properties| ==> EncodeProperty(properties[i], depth + 1, maxDepth).Some? {
      var made := seq(|properties|,
          i requires 0 <= i < |properties| => EncodeProperty(properties[i], depth + 1, maxDepth).value);
      var names := seq(|properties|, i requires 0 <= i < |properties| => properties[i].name);
      hide PlainTree, Encode;
      assert forall i :: 0 <= i < |made| ==> made[i].key == Str(names[i]);
      RecordDistinct(made, names);
    }
  }

  lemma {:induction false} EncodesIffShallow(js: Js, depth: nat, maxDepth: nat)
    requires PlainTree(js)
    ensures Encode(js, depth, maxDepth).Some? <==> js.JsUndefined? || depth + TreeHeight(js) <= maxDepth
    decreases js
  {
    if depth <= maxDepth {
      match js
      case JsArray(items) =>
        forall i | 0 <= i < |items|
          ensures Encode(items[i], depth + 1, maxDepth).Some? <==> depth + SlotHeight(items[i]) <= maxDepth
        {
          EncodesIffShallow(items[i], depth + 1, maxDepth);
        }
        ArrayShallow(items, depth, maxDepth);
      case JsObject(properties) =>
        forall i | 0 <= i < |properties|
          ensures EncodeProperty(properties[i], depth + 1, maxDepth).Some?
             <==> depth + PropertyHeight(properties[i]) <= maxDepth
        {
          assert PropertyPlain(properties[i]);
          EncodesIffShallow(properties[i].value, depth + 1, maxDepth);
        }
        ObjectShallow(properties, depth, maxDepth);
      case _ =>
    }
  }

  // ----- Graphs of arrays and plain objects -----

  predicate PlainItem(item: Item) {
    item.Data? ==> !item.js.JsBigInt?
  }

  predicate PlainNode(node: Node) {
    match node
    case ListNode(_, items) => forall i :: 0 <= i < |items| ==> PlainItem(items[i])
    case ObjectNode(slots) =>
      && (forall i :: 0 <= i < |slots| ==> PlainItem(slots[i].item))
      && Distinct(seq(|slots|, i requires 0 <= i < |slots| => slots[i].name))
    case _ => false
  }

  ghost predicate PlainHeap(heap: Heap) {
    WellFormed(heap) && forall ref :: ref in heap ==> PlainNode(heap[ref])
  }

  lemma {:induction false} PlainUnfolds(heap: Heap, item: Item, js: Js)
    requires PlainHeap(heap) && ItemIn(heap, item) && PlainItem(item) && Denotes(heap, item, js)
    ensures PlainTree(js)
    decreases js
  {
    if item.Reference? {
      assert PlainNode(heap[item.ref]) && NodeIn(heap, heap[item.ref]);
      hide PlainHeap;
      match heap[item.ref]
      case ListNode(_, items) =>
        forall i | 0 <= i < |items| ensures PlainTree(js.items[i]) {
          PlainUnfolds(heap, items[i], js.items[i]);
        }
      case ObjectNode(slots) =>
        forall i | 0 <= i < |slots| ensures PropertyPlain(js.properties[i]) && js.properties[i].name == slots[i].name {
          assert SlotDenotes(heap, slots[i], js.properties[i]);
          PlainUnfolds(heap, slots[i].item, js.properties[i].value);
        }
        assert seq(|js.properties|, i requires 0 <= i < |js.properties| => js.properties[i].name)
            == seq(|slots|, i requires 0 <= i < |slots| => slots[i].name);
    }
  }

  /**
    Of arrays and plain objects the encoder accepts exactly what unfolds to a tree within
    the depth, and then gives the encoding of that tree. It blames a cycle only on a graph
    that has one.
   */
  lemma AcceptsIffShallow(heap: Heap, item: Item, maxDepth: nat, result: Result<Value, Refusal>, tree: Js)
    requires PlainHeap(heap) && ItemIn(heap, item) && PlainItem(item)
    requires Answers(heap, item, 0, maxDepth, result, tree)
    ensures result.Ok? <==> exists js :: Denotes(heap, item, js) && TreeHeight(js) <= maxDepth
    ensures result.Ok? ==> Denotes(heap, item, tree) && Encode(tree, 0, maxDepth) == Some(result.value)
    ensures result.Err? && result.error == Cyclic ==> forall js :: !Denotes(heap, item, js)
  {
    hide Denotes, Encode, TreeHeight, ReachesCycle;
    forall js | Denotes(heap, item, js)
      ensures Encode(js, 0, maxDepth).Some? <==> TreeHeight(js) <= maxDepth
    {
      PlainUnfolds(heap, item, js);
      EncodesIffShallow(js, 0, maxDepth);
      if js.JsUndefined? { LowTree(js); }
    }
    if result.Ok? {
      assert Denotes(heap, item, tree) && TreeHeight(tree) <= maxDepth;
    } else {
      forall js | Denotes(heap, item, js) ensures !(TreeHeight(js) <= maxDepth) {
        assert Encode(js, 0, maxDepth).None?;
      }
    }
    if result.Err? && result.error == Cyclic {
      forall js ensures !Denotes(heap, item, js) { ReachingNeverUnfolds(heap, item, js); }
    }
  }

  lemma LowTree(js: Js)
    requires js.JsUndefined?
    ensures TreeHeight(js) == 0
  {
  }
}
