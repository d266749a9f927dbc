/**
  `JsEncoder` of node/src/codec.rs: turning an object graph into a native value, with the
  objects being encoded held in `active`.
 */
module JsEncoding {
  import opened Sequences
  import opened Values
  import opened Transport
  import opened RoundTrip
  import opened JsGraph

  const MAX_DOCUMENTS := 1024

  datatype Refusal = TooDeep | Cyclic | DuplicateKey | Unencodable | Missing | TooMany

  /** Whatever tree an item unfolds to, the tree has no encoding. */
  ghost predicate Refuses(heap: Heap, item: Item, depth: nat, maxDepth: nat) {
    forall js :: Denotes(heap, item, js) ==> Encode(js, depth, maxDepth).None?
  }

  /** A right answer: the encoding of the unfolding, or a refusal where there is none, and a cycle is one. */
  ghost predicate Answers(heap: Heap, item: Item, depth: nat, maxDepth: nat, result: Result<Value, Refusal>, tree: Js) {
    && (result.Ok? ==> Denotes(heap, item, tree) && Encode(tree, depth, maxDepth) == Some(result.value))
    && (result.Err? ==> Refuses(heap, item, depth, maxDepth))
    && (result.Err? && result.error == Cyclic ==> ReachesCycle(heap, item))
  }

  function SetOf(refs: seq<Ref>): set<Ref> {
    set i | 0 <= i < |refs| :: refs[i]
  }

  /** The objects being encoded, from the outermost to the one that holds this item. */
  ghost predicate Trail(heap: Heap, trail: seq<Ref>, item: Item) {
    trail != [] ==>
      && IsPath(heap, trail)
      && trail[|trail| - 1] in heap && ChildOf(heap[trail[|trail| - 1]], item)
  }

  /** Meeting an active object again closes a cycle. */
  lemma TrailCloses(heap: Heap, trail: seq<Ref>, ref: Ref)
    requires Trail(heap, trail, Reference(ref)) && ref in SetOf(trail)
    ensures OnCycle(heap, ref) && ReachesCycle(heap, Reference(ref))
  {
    var k :| 0 <= k < |trail| && trail[k] == ref;
    var cycle := trail[k..] + [ref];
    forall i | 0 <= i < |cycle| - 1 ensures Edge(heap, cycle[i], cycle[i + 1]) {
      if i < |cycle| - 2 { assert Edge(heap, trail[k + i], trail[k + i + 1]); }
    }
    assert IsPath(heap, cycle) && cycle[|cycle| - 1] == ref;
    assert IsPath(heap, [ref]);
  }

  lemma CycleRefuses(heap: Heap, item: Item, depth: nat, maxDepth: nat)
    requires ReachesCycle(heap, item)
    ensures Refuses(heap, item, depth, maxDepth)
  {
    hide Encode, Denotes, ReachesCycle;
    forall js ensures !Denotes(heap, item, js) {
      ReachingNeverUnfolds(heap, item, js);
    }
  }

  lemma LongerTrail(heap: Heap, trail: seq<Ref>, ref: Ref, item: Item)
    requires Trail(heap, trail, Reference(ref)) && ref in heap && ChildOf(heap[ref], item)
    ensures Trail(heap, trail + [ref], item)
  {
    var longer := trail + [ref];
    forall i | 0 <= i < |longer| - 1 ensures Edge(heap, longer[i], longer[i + 1]) {
      if i < |trail| - 1 { assert Edge(heap, trail[i], trail[i + 1]); }
    }
  }

  lemma SetOfSnoc(refs: seq<Ref>, ref: Ref)
    ensures SetOf(refs + [ref]) == SetOf(refs) + {ref}
  {
    var longer := refs + [ref];
    assert longer[|refs|] == ref;
    assert forall i :: 0 <= i < |refs| ==> longer[i] == refs[i];
  }

  lemma ChildRefused(heap: Heap, ref: Ref, item: Item, depth: nat, maxDepth: nat)
    requires ref in heap && ChildOf(heap[ref], item) && Refuses(heap, item, depth + 1, maxDepth)
    ensures Refuses(heap, Reference(ref), depth, maxDepth)
  {
    forall js | Denotes(heap, Reference(ref), js) ensures Encode(js, depth, maxDepth).None? {
      ChildRefusedIn(heap, ref, item, js, depth, maxDepth);
    }
  }

  lemma ChildRefusedIn(heap: Heap, ref: Ref, item: Item, js: Js, depth: nat, maxDepth: nat)
    requires ref in heap && ChildOf(heap[ref], item) && Refuses(heap, item, depth + 1, maxDepth)
    requires Denotes(heap, Reference(ref), js)
    ensures Encode(js, depth, maxDepth).None?
  {
    hide FromMapping, EncodeScalar, Encode;
    match heap[ref]
    case ListNode(_, items) =>
      var i :| 0 <= i < |items| && items[i] == item;
      ItemFails(js.items, i, depth, maxDepth);
    case ObjectNode(slots) =>
      var i :| 0 <= i < |slots| && slots[i].item == item;
      assert SlotDenotes(heap, slots[i], js.properties[i]);
      PropertyFails(js.properties, i, depth, maxDepth);
    case MapNode(pairs) =>
      var i :| 0 <= i < |pairs| && (pairs[i].key == item || pairs[i].value == item);
      assert PairDenotes(heap, pairs[i], js.entries[i]);
      EntryFails(js.entries, i, depth, maxDepth);
  }

  lemma ItemFails(items: seq<Js>, i: nat, depth: nat, maxDepth: nat)
    requires i < |items| && Encode(items[i], depth + 1, maxDepth).None?
    ensures Encode(JsArray(items), depth, maxDepth).None?
  {
  }

  lemma PropertyFails(properties: seq<Property>, i: nat, depth: nat, maxDepth: nat)
    requires i < |properties| && Encode(properties[i].value, depth + 1, maxDepth).None?
    ensures Encode(JsObject(properties), depth, maxDepth).None?
  {
    hide FromMapping;
    assert EncodeProperty(properties[i], depth + 1, maxDepth).None?;
  }

  lemma EntryFails(entries: seq<JsEntry>, i: nat, depth: nat, maxDepth: nat)
    requires i < |entries|
    requires Encode(entries[i].key, depth + 1, maxDepth).None? || Encode(entries[i].value, depth + 1, maxDepth).None?
    ensures Encode(JsMap(entries), depth, maxDepth).None?
  {
    hide FromMapping;
    assert EncodeEntry(entries[i], depth + 1, maxDepth).None?;
  }

  /** What goes wrong with a child goes wrong with its holder. */
  lemma ChildAnswers(
    heap: Heap, ref: Ref, item: Item, depth: nat, maxDepth: nat, result: Result<Value, Refusal>, tree: Js)
    requires ref in heap && ChildOf(heap[ref], item) && result.Err?
    requires Answers(heap, item, depth + 1, maxDepth, result, tree)
    ensures Answers(heap, Reference(ref), depth, maxDepth, result, tree)
  {
    hide Refuses, ReachesCycle, ChildOf;
    ChildRefused(heap, ref, item, depth, maxDepth);
    if result.error == Cyclic { ParentReaches(heap, ref, item); }
  }

  lemma OneTreeRefused(heap: Heap, item: Item, tree: Js, depth: nat, maxDepth: nat)
    requires Denotes(heap, item, tree) && Encode(tree, depth, maxDepth).None?
    ensures Refuses(heap, item, depth, maxDepth)
  {
    hide Encode, Denotes;
    forall js | Denotes(heap, item, js) ensures Encode(js, depth, maxDepth).None? {
      OneUnfolding(heap, item, js, tree);
    }
  }

  // ----- Containers, one item at a time -----

  /** The items so far, their trees and their encodings. */
  ghost predicate ItemsSoFar(heap: Heap, items: seq<Item>, trees: seq<Js>, values: seq<Value>,
                               depth: nat, maxDepth: nat) {
    && |trees| == |values| <= |items|
    && forall i :: 0 <= i < |trees| ==>
         Denotes(heap, items[i], trees[i]) && Encode(trees[i], depth, maxDepth) == Some(values[i])
  }

  lemma ArrayAnswers(heap: Heap, ref: Ref, trees: seq<Js>, values: seq<Value>, depth: nat, maxDepth: nat)
    requires ref in heap && heap[ref].ListNode? && |trees| == |heap[ref].items| && depth <= maxDepth
    requires ItemsSoFar(heap, heap[ref].items, trees, values, depth + 1, maxDepth)
    ensures Answers(heap, Reference(ref), depth, maxDepth, Ok(Sequence(values)), JsArray(trees))
  {
    assert Encode(JsArray(trees), depth, maxDepth).value.items == values;
  }

  ghost predicate SlotsSoFar(heap: Heap, slots: seq<Slot>, trees: seq<Property>, entries: seq<Entry>,
                               depth: nat, maxDepth: nat) {
    && |trees| == |entries| <= |slots|
    && forall i :: 0 <= i < |trees| ==>
         SlotDenotes(heap, slots[i], trees[i]) && EncodeProperty(trees[i], depth, maxDepth) == Some(entries[i])
  }

  lemma ObjectAnswers(heap: Heap, ref: Ref, trees: seq<Property>, entries: seq<Entry>, depth: nat, maxDepth: nat)
    requires ref in heap && heap[ref].ObjectNode? && |trees| == |heap[ref].slots| && depth <= maxDepth
    requires SlotsSoFar(heap, heap[ref].slots, trees, entries, depth + 1, maxDepth)
    ensures Denotes(heap, Reference(ref), JsObject(trees))
    ensures Encode(JsObject(trees), depth, maxDepth) == FromMapping(entries)
  {
    hide FromMapping, EncodeProperty;
    assert seq(|trees|, i requires 0 <= i < |trees| => EncodeProperty(trees[i], depth + 1, maxDepth).value) == entries;
  }

  ghost predicate PairsSoFar(heap: Heap, pairs: seq<Pair>, trees: seq<JsEntry>, entries: seq<Entry>,
                               depth: nat, maxDepth: nat) {
    && |trees| == |entries| <= |pairs|
    && forall i :: 0 <= i < |trees| ==>
         PairDenotes(heap, pairs[i], trees[i]) && EncodeEntry(trees[i], depth, maxDepth) == Some(entries[i])
  }

  lemma MapAnswers(heap: Heap, ref: Ref, trees: seq<JsEntry>, entries: seq<Entry>, depth: nat, maxDepth: nat)
    requires ref in heap && heap[ref].MapNode? && |trees| == |heap[ref].pairs| && depth <= maxDepth
    requires PairsSoFar(heap, heap[ref].pairs, trees, entries, depth + 1, maxDepth)
    ensures Denotes(heap, Reference(ref), JsMap(trees))
    ensures Encode(JsMap(trees), depth, maxDepth) == FromMapping(entries)
  {
    hide FromMapping, EncodeEntry;
    assert seq(|trees|, i requires 0 <= i < |trees| => EncodeEntry(trees[i], depth + 1, maxDepth).value) == entries;
  }

  /** The answer for a mapping: refused when two of its keys are one. */
  lemma MappingAnswers(heap: Heap, ref: Ref, tree: Js, entries: seq<Entry>, depth: nat, maxDepth: nat)
    requires Denotes(heap, Reference(ref), tree)
    requires Encode(tree, depth, maxDepth) == FromMapping(entries)
    ensures Answers(heap, Reference(ref), depth, maxDepth,
              if DistinctKeys(entries) then Ok(Mapping(entries)) else Err(DuplicateKey), tree)
  {
    hide Encode, DistinctKeys, Denotes, Refuses;
    if !DistinctKeys(entries) { OneTreeRefused(heap, Reference(ref), tree, depth, maxDepth); }
  }

  lemma LeafAnswers(heap: Heap, ref: Ref, depth: nat, maxDepth: nat)
    requires WellFormed(heap) && ref in heap && heap[ref].LeafNode? && depth <= maxDepth
    ensures var js := heap[ref].js;
      && !js.JsArray? && !js.JsObject? && !js.JsMap?
      && Answers(heap, Reference(ref), depth, maxDepth,
           if EncodeScalar(js).Some? then Ok(EncodeScalar(js).value) else Err(Unencodable), js)
  {
    hide EncodeScalar;
    assert NodeIn(heap, heap[ref]);
  }

  lemma TooDeepAnswers(heap: Heap, item: Item, depth: nat, maxDepth: nat, tree: Js)
    requires WellFormed(heap) && ItemIn(heap, item) && !item.Absent? && depth > maxDepth
    ensures Answers(heap, item, depth, maxDepth, Err(TooDeep), tree)
  {
    forall js | Denotes(heap, item, js) ensures Encode(js, depth, maxDepth).None? {
      if item.Reference? { assert NodeIn(heap, heap[item.ref]); }
    }
  }

  lemma DataAnswers(heap: Heap, item: Item, depth: nat, maxDepth: nat)
    requires ItemIn(heap, item) && item.Data? && depth <= maxDepth
    ensures !item.js.JsArray? && !item.js.JsObject? && !item.js.JsMap?
    ensures Answers(heap, item, depth, maxDepth,
              if EncodeScalar(item.js).Some? then Ok(EncodeScalar(item.js).value) else Err(Unencodable), item.js)
  {
    hide EncodeScalar;
  }

  lemma AbsentAnswers(heap: Heap, depth: nat, maxDepth: nat)
    ensures Answers(heap, Absent, depth, maxDepth, Ok(Null), JsUndefined)
  {
  }

  // ----- The encoder -----

  class JsEncoder {
    const maxDepth: nat
    var active: set<Ref>

    constructor (maxDepth: nat)
      ensures this.maxDepth == maxDepth && active == {}
    {
      this.maxDepth := maxDepth;
      active := {};
    }

    /** `encode`: a whole value; the encoder is as it was before, whatever the answer. */
    method Encode(heap: Heap, item: Item) returns (result: Result<Value, Refusal>, ghost tree: Js)
      requires WellFormed(heap) && ItemIn(heap, item) && active == {}
      modifies `active
      ensures active == {}
      ensures Answers(heap, item, 0, maxDepth, result, tree)
    {
      hide WellFormed, Answers;
      result, tree := EncodeSlot(heap, item, 0, []);
    }

    /** A slot of a container: nothing there is null, at any depth. */
    method EncodeSlot(heap: Heap, item: Item, depth: nat, ghost trail: seq<Ref>)
      returns (result: Result<Value, Refusal>, ghost tree: Js)
      requires WellFormed(heap) && ItemIn(heap, item) && depth <= maxDepth + 1
      requires Trail(heap, trail, item) && active == SetOf(trail)
      modifies `active
      ensures active == old(active)
      ensures Answers(heap, item, depth, maxDepth, result, tree)
      decreases maxDepth + 1 - depth, 4
    {
      hide WellFormed, Answers, Trail;
      if item.Absent? {
        result, tree := Ok(Null), JsUndefined;
        AbsentAnswers(heap, depth, maxDepth);
      } else {
        result, tree := EncodeAt(heap, item, depth, trail);
      }
    }

    method EncodeAt(heap: Heap, item: Item, depth: nat, ghost trail: seq<Ref>)
      returns (result: Result<Value, Refusal>, ghost tree: Js)
      requires WellFormed(heap) && ItemIn(heap, item) && depth <= maxDepth + 1 && !item.Absent?
      requires Trail(heap, trail, item) && active == SetOf(trail)
      modifies `active
      ensures active == old(active)
      ensures Answers(heap, item, depth, maxDepth, result, tree)
      decreases maxDepth + 1 - depth, 3
    {
      hide WellFormed, Answers, Trail, EncodeScalar;
      if depth > maxDepth {
        result, tree := Err(TooDeep), JsNull;
        TooDeepAnswers(heap, item, depth, maxDepth, tree);
      } else if item.Data? {
        DataAnswers(heap, item, depth, maxDepth);
        var value := EncodeScalar(item.js);
        result, tree := if value.Some? then Ok(value.value) else Err(Unencodable), item.js;
      } else {
        result, tree := EncodeObject(heap, item.ref, depth, trail);
      }
    }

    /** `encode_object`: refused while active, active until its own encoding has ended. */
    method EncodeObject(heap: Heap, ref: Ref, depth: nat, ghost trail: seq<Ref>)
      returns (result: Result<Value, Refusal>, ghost tree: Js)
      requires WellFormed(heap) && ref in heap && depth <= maxDepth
      requires Trail(heap, trail, Reference(ref)) && active == SetOf(trail)
      modifies `active
      ensures active == old(active)
      ensures Answers(heap, Reference(ref), depth, maxDepth, result, tree)
      decreases maxDepth + 1 - depth, 2
    {
      hide WellFormed, Trail, Refuses, ReachesCycle;
      if ref in active {
        result, tree := Err(Cyclic), JsNull;
        TrailCloses(heap, trail, ref);
        CycleRefuses(heap, Reference(ref), depth, maxDepth);
      } else {
        hide Answers;
        active := active + {ref};
        SetOfSnoc(trail, ref);
        result, tree := EncodeObjectInner(heap, ref, depth, trail);
        active := active - {ref};
      }
    }

    method EncodeObjectInner(heap: Heap, ref: Ref, depth: nat, ghost trail: seq<Ref>)
      returns (result: Result<Value, Refusal>, ghost tree: Js)
      requires WellFormed(heap) && ref in heap && depth <= maxDepth
      requires Trail(heap, trail, Reference(ref)) && active == SetOf(trail + [ref])
      modifies `active
      ensures active == old(active)
      ensures Answers(heap, Reference(ref), depth, maxDepth, result, tree)
      decreases maxDepth + 1 - depth, 1
    {
      hide WellFormed, Trail, Answers, EncodeScalar;
      match heap[ref]
      case ListNode(_, items) => result, tree := EncodeItems(heap, ref, depth, trail);
      case ObjectNode(slots) => result, tree := EncodeProperties(heap, ref, depth, trail);
      case MapNode(pairs) => result, tree := EncodeMap(heap, ref, depth, trail);
      case LeafNode(js) =>
        LeafAnswers(heap, ref, depth, maxDepth);
        var value := EncodeScalar(js);
        result, tree := if value.Some? then Ok(value.value) else Err(Unencodable), js;
    }

    /** `encode_array`, `encode_set` and `encode_typed_array`. */
    method EncodeItems(heap: Heap, ref: Ref, depth: nat, ghost trail: seq<Ref>)
      returns (result: Result<Value, Refusal>, ghost tree: Js)
      requires WellFormed(heap) && ref in heap && heap[ref].ListNode? && depth <= maxDepth
      requires Trail(heap, trail, Reference(ref)) && active == SetOf(trail + [ref])
      modifies `active
      ensures active == old(active)
      ensures Answers(heap, Reference(ref), depth, maxDepth, result, tree)
      decreases maxDepth + 1 - depth, 0
    {
      hide WellFormed, Trail, Answers, SetOf;
      var items := heap[ref].items;
      var values: seq<Value> := [];
      ghost var trees: seq<Js> := [];
      for i := 0 to |items|
        invariant active == old(active)
        invariant |trees| == i && ItemsSoFar(heap, items, trees, values, depth + 1, maxDepth)
      {
        ItemLinked(heap, trail, ref, i);
        var item, itemTree := EncodeSlot(heap, items[i], depth + 1, trail + [ref]);
        if item.Err? {
          ChildAnswers(heap, ref, items[i], depth, maxDepth, item, itemTree);
          return item, itemTree;
        }
        MoreItems(heap, items, trees, values, item, itemTree, depth + 1, maxDepth);
        values := values + [item.value];
        trees := trees + [itemTree];
      }
      ArrayAnswers(heap, ref, trees, values, depth, maxDepth);
      return Ok(Sequence(values)), JsArray(trees);
    }

    /** `encode_properties`. */
    method EncodeProperties(heap: Heap, ref: Ref, depth: nat, ghost trail: seq<Ref>)
      returns (result: Result<Value, Refusal>, ghost tree: Js)
      requires WellFormed(heap) && ref in heap && heap[ref].ObjectNode? && depth <= maxDepth
      requires Trail(heap, trail, Reference(ref)) && active == SetOf(trail + [ref])
      modifies `active
      ensures active == old(active)
      ensures Answers(heap, Reference(ref), depth, maxDepth, result, tree)
      decreases maxDepth + 1 - depth, 0
    {
      hide WellFormed, Trail, Answers, SetOf;
      var slots := heap[ref].slots;
      var entries: seq<Entry> := [];
      ghost var trees: seq<Property> := [];
      for i := 0 to |slots|
        invariant active == old(active)
        invariant |trees| == i && SlotsSoFar(heap, slots, trees, entries, depth + 1, maxDepth)
      {
        SlotLinked(heap, trail, ref, i);
        var item, itemTree := EncodeSlot(heap, slots[i].item, depth + 1, trail + [ref]);
        if item.Err? {
          ChildAnswers(heap, ref, slots[i].item, depth, maxDepth, item, itemTree);
          return item, itemTree;
        }
        MoreSlots(heap, slots, trees, entries, item, itemTree, depth + 1, maxDepth);
        entries := entries + [Entry(Str(slots[i].name), item.value)];
        trees := trees + [Property(slots[i].name, itemTree)];
      }
      ObjectAnswers(heap, ref, trees, entries, depth, maxDepth);
      MappingAnswers(heap, ref, JsObject(trees), entries, depth, maxDepth);
      return if DistinctKeys(entries) then Ok(Mapping(entries)) else Err(DuplicateKey), JsObject(trees);
    }

    /** `encode_map`: each key before its value. */
    method EncodeMap(heap: Heap, ref: Ref, depth: nat, ghost trail: seq<Ref>)
      returns (result: Result<Value, Refusal>, ghost tree: Js)
      requires WellFormed(heap) && ref in heap && heap[ref].MapNode? && depth <= maxDepth
      requires Trail(heap, trail, Reference(ref)) && active == SetOf(trail + [ref])
      modifies `active
      ensures active == old(active)
      ensures Answers(heap, Reference(ref), depth, maxDepth, result, tree)
      decreases maxDepth + 1 - depth, 0
    {
      hide WellFormed, Trail, Answers, SetOf;
      var pairs := heap[ref].pairs;
      var entries: seq<Entry> := [];
      ghost var trees: seq<JsEntry> := [];
      for i := 0 to |pairs|
        invariant active == old(active)
        invariant |trees| == i && PairsSoFar(heap, pairs, trees, entries, depth + 1, maxDepth)
      {
        PairLinked(heap, trail, ref, i);
        var key, keyTree := EncodeSlot(heap, pairs[i].key, depth + 1, trail + [ref]);
        if key.Err? {
          ChildAnswers(heap, ref, pairs[i].key, depth, maxDepth, key, keyTree);
          return key, keyTree;
        }
        var item, itemTree := EncodeSlot(heap, pairs[i].value, depth + 1, trail + [ref]);
        if item.Err? {
          ChildAnswers(heap, ref, pairs[i].value, depth, maxDepth, item, itemTree);
          return item, itemTree;
        }
        MorePairs(heap, pairs, trees, entries, key, keyTree, item, itemTree, depth + 1, maxDepth);
        entries := entries + [Entry(key.value, item.value)];
        trees := trees + [JsEntry(keyTree, itemTree)];
      }
      MapAnswers(heap, ref, trees, entries, depth, maxDepth);
      MappingAnswers(heap, ref, JsMap(trees), entries, depth, maxDepth);
      return if DistinctKeys(entries) then Ok(Mapping(entries)) else Err(DuplicateKey), JsMap(trees);
    }
  }

  lemma ItemLinked(heap: Heap, trail: seq<Ref>, ref: Ref, i: nat)
    requires WellFormed(heap) && ref in heap && heap[ref].ListNode? && i < |heap[ref].items|
    requires Trail(heap, trail, Reference(ref))
    ensures ItemIn(heap, heap[ref].items[i]) && ChildOf(heap[ref], heap[ref].items[i])
    ensures Trail(heap, trail + [ref], heap[ref].items[i])
  {
    hide Trail, ItemIn;
    assert NodeIn(heap, heap[ref]);
    LongerTrail(heap, trail, ref, heap[ref].items[i]);
  }

  lemma SlotLinked(heap: Heap, trail: seq<Ref>, ref: Ref, i: nat)
    requires WellFormed(heap) && ref in heap && heap[ref].ObjectNode? && i < |heap[ref].slots|
    requires Trail(heap, trail, Reference(ref))
    ensures ItemIn(heap, heap[ref].slots[i].item) && ChildOf(heap[ref], heap[ref].slots[i].item)
    ensures Trail(heap, trail + [ref], heap[ref].slots[i].item)
  {
    hide Trail, ItemIn;
    assert NodeIn(heap, heap[ref]);
    LongerTrail(heap, trail, ref, heap[ref].slots[i].item);
  }

  lemma PairLinked(heap: Heap, trail: seq<Ref>, ref: Ref, i: nat)
    requires WellFormed(heap) && ref in heap && heap[ref].MapNode? && i < |heap[ref].pairs|
    requires Trail(heap, trail, Reference(ref))
    ensures ItemIn(heap, heap[ref].pairs[i].key) && ChildOf(heap[ref], heap[ref].pairs[i].key)
    ensures ItemIn(heap, heap[ref].pairs[i].value) && ChildOf(heap[ref], heap[ref].pairs[i].value)
    ensures Trail(heap, trail + [ref], heap[ref].pairs[i].key) && Trail(heap, trail + [ref], heap[ref].pairs[i].value)
  {
    hide Trail, ItemIn;
    assert NodeIn(heap, heap[ref]);
    LongerTrail(heap, trail, ref, heap[ref].pairs[i].key);
    LongerTrail(heap, trail, ref, heap[ref].pairs[i].value);
  }

  lemma MoreItems(heap: Heap, items: seq<Item>, trees: seq<Js>, values: seq<Value>,
                  item: Result<Value, Refusal>, tree: Js, depth: nat, maxDepth: nat)
    requires ItemsSoFar(heap, items, trees, values, depth, maxDepth) && |trees| < |items| && item.Ok?
    requires Answers(heap, items[|trees|], depth, maxDepth, item, tree)
    ensures ItemsSoFar(heap, items, trees + [tree], values + [item.value], depth, maxDepth)
  {
    hide Encode, Denotes;
  }

  lemma MoreSlots(heap: Heap, slots: seq<Slot>, trees: seq<Property>, entries: seq<Entry>,
                  item: Result<Value, Refusal>, tree: Js, depth: nat, maxDepth: nat)
    requires SlotsSoFar(heap, slots, trees, entries, depth, maxDepth) && |trees| < |slots| && item.Ok?
    requires Answers(heap, slots[|trees|].item, depth, maxDepth, item, tree)
    ensures var slot := slots[|trees|];
      SlotsSoFar(heap, slots, trees + [Property(slot.name, tree)], entries + [Entry(Str(slot.name), item.value)],
          depth, maxDepth)
  {
    hide Encode, Denotes;
  }

  lemma MorePairs(heap: Heap, pairs: seq<Pair>, trees: seq<JsEntry>, entries: seq<Entry>,
                  key: Result<Value, Refusal>, keyTree: Js, item: Result<Value, Refusal>, tree: Js,
                  depth: nat, maxDepth: nat)
    requires PairsSoFar(heap, pairs, trees, entries, depth, maxDepth) && |trees| < |pairs| && key.Ok? && item.Ok?
    requires Answers(heap, pairs[|trees|].key, depth, maxDepth, key, keyTree)
    requires Answers(heap, pairs[|trees|].value, depth, maxDepth, item, tree)
    ensures PairsSoFar(heap, pairs, trees + [JsEntry(keyTree, tree)], entries + [Entry(key.value, item.value)],
                       depth, maxDepth)
  {
    hide Encode, Denotes;
  }

  // ----- Many values, one encoder -----

  /** `encode_js_values`: each value is encoded as if by itself; the first refusal is the answer. */
  method EncodeValues(heap: Heap, items: seq<Item>, maxDepth: nat) returns (result: Result<seq<Value>, Refusal>)
    requires WellFormed(heap) && forall i :: 0 <= i < |items| ==> ItemIn(heap, items[i])
    ensures result.Ok? ==>
      && |items| <= 1024 && |result.value| == |items|
      && forall i :: 0 <= i < |items| ==> Encodes(heap, items[i], maxDepth, result.value[i])
    ensures result.Err? ==>
      || |items| > 1024
      || exists i :: 0 <= i < |items| && (items[i].Absent? || Refuses(heap, items[i], 0, maxDepth))
  {
    hide WellFormed, Encodes, Refuses;
    if |items| > MAX_DOCUMENTS { return Err(TooMany); }
    var encoder := new JsEncoder(maxDepth);
    var values: seq<Value> := [];
    for i := 0 to |items|
      invariant encoder.active == {} && encoder.maxDepth == maxDepth && fresh(encoder)
      invariant |values| == i && forall k :: 0 <= k < i ==> Encodes(heap, items[k], maxDepth, values[k])
    {
      if items[i].Absent? { return Err(Missing); }
      ghost var tree;
      var one;
      one, tree := encoder.Encode(heap, items[i]);
      if one.Err? { return Err(one.error); }
      TreeEncodes(heap, items[i], maxDepth, one.value, tree);
      values := values + [one.value];
    }
    return Ok(values);
  }

  /** The value is the encoding of the item's unfolding. */
  ghost predicate Encodes(heap: Heap, item: Item, maxDepth: nat, value: Value) {
    exists tree :: Denotes(heap, item, tree) && Encode(tree, 0, maxDepth) == Some(value)
  }

  lemma TreeEncodes(heap: Heap, item: Item, maxDepth: nat, value: Value, tree: Js)
    requires Denotes(heap, item, tree) && Encode(tree, 0, maxDepth) == Some(value)
    ensures Encodes(heap, item, maxDepth, value)
  {
    hide Encode, Denotes;
  }
}
