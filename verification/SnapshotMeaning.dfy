/**
  What the bounded copy means: the JavaScript value its clones make up is the value of the
  source, and what is accepted is JSON data of bounded depth and size.
 */
module SnapshotMeaning {
  import opened Sequences
  import opened Transport
  import opened JsGraph
  import opened Snapshot
  import opened SnapshotCopy

  // ----- JSON data -----

  /** Null, booleans, strings and finite numbers, in arrays and objects, at most so deep. */
  predicate JsonWithin(js: Js, depth: int) {
    0 <= depth &&
    match js
    case JsNull => true
    case JsBoolean(_) => true
    case JsString(_) => true
    case JsNumber(number) => !number.NotANumber? && !number.PositiveInfinity? && !number.NegativeInfinity?
    case JsArray(items) => forall i :: 0 <= i < |items| ==> JsonWithin(items[i], depth - 1)
    case JsObject(properties) => forall i :: 0 <= i < |properties| ==> PropertyWithin(properties[i], depth - 1)
    case _ => false
  }

  predicate PropertyWithin(property: Property, depth: int) { JsonWithin(property.value, depth) }

  /** How many values there are in a value, itself included. */
  function Nodes(js: Js): nat {
    match js
    case JsArray(items) => 1 + NodesOf(items)
    case JsObject(properties) => 1 + NodesIn(properties)
    case _ => 1
  }

  function NodesOf(items: seq<Js>): nat {
    if items == [] then 0 else NodesOf(items[..|items| - 1]) + Nodes(items[|items| - 1])
  }

  function NodesIn(properties: seq<Property>): nat {
    if properties == [] then 0
    else NodesIn(properties[..|properties| - 1]) + PropertyNodes(properties[|properties| - 1])
  }

  function PropertyNodes(property: Property): nat { Nodes(property.value) }

  // ----- The value of a tree -----

  function NameOf(key: Key): string {
    if key.Named? then key.name else ""
  }

  function ValueOf(tree: Tree): Js {
    match tree
    case Leaf(js) => js
    case Branch(_, isArray, keys, children) =>
      if isArray then JsArray(seq(|children|, i requires 0 <= i < |children| => ValueOf(children[i])))
      else
        JsObject(seq(|children|, i requires 0 <= i < |children| =>
          Property(if i < |keys| then NameOf(keys[i]) else "", ValueOf(children[i]))))
  }

  /** A tree that a source unfolds to has the value of the source. */
  lemma {:induction false} UnfoldsDenotes(heap: Heap, item: Item, tree: Tree)
    requires Unfolds(heap, item, tree)
    ensures Denotes(heap, item, ValueOf(tree))
    decreases tree
  {
    hide JsonScalar;
    if item.Reference? {
      var node := heap[item.ref];
      forall i | 0 <= i < |tree.children| ensures Denotes(heap, Items(node)[i], ValueOf(tree.children[i])) {
        UnfoldsDenotes(heap, Items(node)[i], tree.children[i]);
      }
      BranchDenotes(heap, item.ref, tree);
    }
  }

  lemma BranchDenotes(heap: Heap, ref: Ref, tree: Tree)
    requires ref in heap && Container(heap[ref]) && tree.Branch? && tree.isArray == heap[ref].ListNode?
    requires tree.keys == Keys(heap[ref]) && |tree.children| == |Items(heap[ref])|
    requires forall i :: 0 <= i < |tree.children| ==> Denotes(heap, Items(heap[ref])[i], ValueOf(tree.children[i]))
    ensures Denotes(heap, Reference(ref), ValueOf(tree))
  {
    if heap[ref].ObjectNode? {
      var slots, properties := heap[ref].slots, ValueOf(tree).properties;
      forall i | 0 <= i < |slots| ensures SlotDenotes(heap, slots[i], properties[i]) {
        assert Items(heap[ref])[i] == slots[i].item && Keys(heap[ref])[i] == Named(slots[i].name);
      }
    } else {
      assert forall i :: 0 <= i < |tree.children| ==> Items(heap[ref])[i] == heap[ref].items[i];
    }
  }

  /** Its depth and its size are those of the value. */
  lemma {:induction false} ValueMeasures(heap: Heap, item: Item, tree: Tree, depth: int)
    requires Unfolds(heap, item, tree)
    ensures Within(tree, depth) <==> JsonWithin(ValueOf(tree), depth)
    ensures Size(tree) == Nodes(ValueOf(tree))
    decreases tree
  {
    if tree.Branch? {
      var children, items := tree.children, Items(heap[item.ref]);
      hide Unfolds, Within, JsonWithin, Size, Nodes;
      forall i | 0 <= i < |children|
        ensures Within(children[i], depth - 1) <==> JsonWithin(ValueOf(children[i]), depth - 1)
        ensures Size(children[i]) == Nodes(ValueOf(children[i]))
      {
        ChildUnfolds(heap, item, tree, i);
        ValueMeasures(heap, items[i], children[i], depth - 1);
      }
      BranchWithin(tree, depth);
      BranchNodes(tree);
    }
  }

  lemma ChildUnfolds(heap: Heap, item: Item, tree: Tree, i: nat)
    requires Unfolds(heap, item, tree) && item.Reference? && tree.Branch? && i < |tree.children|
    ensures Unfolds(heap, Items(heap[item.ref])[i], tree.children[i])
  {
  }

  lemma BranchWithin(tree: Tree, depth: int)
    requires tree.Branch?
    requires forall i :: 0 <= i < |tree.children| ==>
      (Within(tree.children[i], depth - 1) <==> JsonWithin(ValueOf(tree.children[i]), depth - 1))
    ensures Within(tree, depth) <==> JsonWithin(ValueOf(tree), depth)
  {
    var children, value := tree.children, ValueOf(tree);
    if tree.isArray {
      assert forall i :: 0 <= i < |children| ==> value.items[i] == ValueOf(children[i]);
    } else {
      assert forall i :: 0 <= i < |children| ==> value.properties[i].value == ValueOf(children[i]);
      assert forall i :: 0 <= i < |children| ==>
        PropertyWithin(value.properties[i], depth - 1) == JsonWithin(ValueOf(children[i]), depth - 1);
    }
  }

  lemma BranchNodes(tree: Tree)
    requires tree.Branch?
    requires forall i :: 0 <= i < |tree.children| ==> Size(tree.children[i]) == Nodes(ValueOf(tree.children[i]))
    ensures Size(tree) == Nodes(ValueOf(tree))
  {
    hide ValueOf;
    BranchValue(tree);
    if tree.isArray {
      ArrayNodes(tree.children, ValueOf(tree).items);
    } else {
      ObjectNodes(tree.children, ValueOf(tree).properties);
    }
  }

  lemma BranchValue(tree: Tree)
    requires tree.Branch?
    ensures tree.isArray ==>
      var js := ValueOf(tree);
      && js.JsArray? && |js.items| == |tree.children|
      && forall i :: 0 <= i < |tree.children| ==> js.items[i] == ValueOf(tree.children[i])
    ensures !tree.isArray ==>
      var js := ValueOf(tree);
      && js.JsObject? && |js.properties| == |tree.children|
      && forall i :: 0 <= i < |tree.children| ==> js.properties[i].value == ValueOf(tree.children[i])
  {
  }

  lemma {:induction false} ArrayNodes(children: seq<Tree>, items: seq<Js>)
    requires |items| == |children|
    requires forall i :: 0 <= i < |children| ==> Size(children[i]) == Nodes(items[i])
    ensures SizeAll(children) == NodesOf(items)
  {
    hide Size, Nodes;
    if children != [] { ArrayNodes(children[..|children| - 1], items[..|items| - 1]); }
  }

  lemma {:induction false} ObjectNodes(children: seq<Tree>, properties: seq<Property>)
    requires |properties| == |children|
    requires forall i :: 0 <= i < |children| ==> Size(children[i]) == Nodes(properties[i].value)
    ensures SizeAll(children) == NodesIn(properties)
  {
    hide Size, Nodes;
    if children != [] { ObjectNodes(children[..|children| - 1], properties[..|properties| - 1]); }
  }

  /** What is accepted: a value of at most a million parts, 256 deep, in which no object occurs twice. */
  lemma AcceptableMeans(heap: Heap, source: Item)
    ensures Acceptable(heap, source) <==>
      exists tree :: Unfolds(heap, source, tree) && PlainTree(heap, tree) && BoundedJson(tree)
  {
    hide PlainTree, Unfolds, Within, Size, Objects, ValueOf, JsonWithin, Nodes;
    forall tree | Unfolds(heap, source, tree) ensures AcceptableTree(heap, source, tree) <==> BoundedJson(tree) {
      ValueMeasures(heap, source, tree, 256);
    }
    forall tree | Unfolds(heap, source, tree) ensures PlainTree(heap, tree) {
      UnfoldsPlain(heap, source, tree);
    }
    if Acceptable(heap, source) {
      var tree :| AcceptableTree(heap, source, tree);
      assert Unfolds(heap, source, tree) && BoundedJson(tree);
    }
    if exists tree :: Unfolds(heap, source, tree) && BoundedJson(tree) {
      var tree :| Unfolds(heap, source, tree) && BoundedJson(tree);
      assert AcceptableTree(heap, source, tree);
    }
  }

  ghost predicate BoundedJson(tree: Tree) {
    && JsonWithin(ValueOf(tree), 256)
    && Nodes(ValueOf(tree)) <= 1_000_000
    && forall ref :: Objects(tree)[ref] <= 1
  }

  /** Every array or plain object of JSON data unfolds. */
  lemma {:induction false} DenotesUnfolds(heap: Heap, item: Item, js: Js, depth: int) returns (tree: Tree)
    requires WellFormed(heap) && ItemIn(heap, item) && PlainContainers(heap)
    requires Denotes(heap, item, js) && JsonWithin(js, depth)
    ensures Unfolds(heap, item, tree) && ValueOf(tree) == js
    decreases js
  {
    if item.Reference? {
      var ref, node := item.ref, heap[item.ref];
      assert Container(node) && NodeIn(heap, node);
      var items := Items(node);
      var children: seq<Tree> := [];
      var parts := Parts(js);
      assert |parts| == |items|;
      for i := 0 to |items|
        invariant |children| == i
        invariant forall k :: 0 <= k < i ==> Unfolds(heap, items[k], children[k]) && ValueOf(children[k]) == parts[k]
      {
        PartDenotes(heap, ref, js, depth, i);
        assert NodeIn(heap, node);
        var child := DenotesUnfolds(heap, items[i], parts[i], depth - 1);
        children := children + [child];
      }
      tree := Branch(ref, node.ListNode?, Keys(node), children);
      PartsValue(heap, ref, js, tree);
    } else {
      tree := Leaf(js);
    }
  }

  /** An array or a plain object: no Set, typed array, Map or wrapped data. */
  predicate Plain(node: Node) {
    (node.ListNode? && node.isArray) || node.ObjectNode?
  }

  ghost predicate PlainContainers(heap: Heap) {
    forall ref :: ref in heap ==> Plain(heap[ref])
  }

  /** Every object of the tree is an array or a plain object, and stands in the tree as what it is. */
  ghost predicate PlainTree(heap: Heap, tree: Tree) {
    tree.Branch? ==>
      && tree.ref in heap && Plain(heap[tree.ref]) && tree.isArray == heap[tree.ref].ListNode?
      && forall i :: 0 <= i < |tree.children| ==> PlainTree(heap, tree.children[i])
  }

  lemma {:induction false} UnfoldsPlain(heap: Heap, item: Item, tree: Tree)
    requires Unfolds(heap, item, tree)
    ensures PlainTree(heap, tree)
    decreases tree
  {
    if tree.Branch? {
      forall i | 0 <= i < |tree.children| ensures PlainTree(heap, tree.children[i]) {
        UnfoldsPlain(heap, Items(heap[item.ref])[i], tree.children[i]);
      }
    }
  }

  function Parts(js: Js): seq<Js> {
    if js.JsArray? then js.items
    else if js.JsObject? then seq(|js.properties|, i requires 0 <= i < |js.properties| => js.properties[i].value)
    else []
  }

  lemma PartDenotes(heap: Heap, ref: Ref, js: Js, depth: int, i: nat)
    requires Denotes(heap, Reference(ref), js) && JsonWithin(js, depth) && ref in heap && Container(heap[ref])
    requires |Parts(js)| == |Items(heap[ref])| && i < |Parts(js)|
    ensures Denotes(heap, Items(heap[ref])[i], Parts(js)[i]) && JsonWithin(Parts(js)[i], depth - 1) && Parts(js)[i] < js
  {
    if js.JsObject? {
      assert SlotDenotes(heap, heap[ref].slots[i], js.properties[i]);
      assert PropertyWithin(js.properties[i], depth - 1);
    }
  }

  lemma PartsValue(heap: Heap, ref: Ref, js: Js, tree: Tree)
    requires Denotes(heap, Reference(ref), js) && ref in heap && Container(heap[ref])
    requires tree.Branch? && tree.isArray == heap[ref].ListNode? && tree.keys == Keys(heap[ref])
    requires |tree.children| == |Parts(js)| == |Items(heap[ref])|
    requires forall k :: 0 <= k < |tree.children| ==> ValueOf(tree.children[k]) == Parts(js)[k]
    ensures ValueOf(tree) == js
  {
    if js.JsArray? {
      assert ValueOf(tree).items == js.items;
    } else {
      forall i | 0 <= i < |js.properties| ensures ValueOf(tree).properties[i] == js.properties[i] {
        assert SlotDenotes(heap, heap[ref].slots[i], js.properties[i]);
      }
      assert ValueOf(tree).properties == js.properties;
    }
  }

  // ----- The value of the copy -----

  /** The JavaScript value that the clones make up, read property by property. */
  ghost predicate CopyDenotes(copy: Copy, item: Item, js: Js)
    decreases js
  {
    match item
    case Absent => false
    case Data(data) => js == data
    case Reference(clone) =>
      clone < |copy.kinds| &&
      match js
      case JsArray(items) =>
        && copy.kinds[clone] == ArrayClone(|items|)
        && (forall key :: Address(Clone(clone), key) in copy.written ==> key.Index? && key.i < |items|)
        && forall i: nat :: i < |items| ==>
             && Address(Clone(clone), Index(i)) in copy.written
             && CopyDenotes(copy, copy.written[Address(Clone(clone), Index(i))], items[i])
      case JsObject(properties) =>
        && copy.kinds[clone] == ObjectClone
        && (forall key :: Address(Clone(clone), key) in copy.written ==>
              exists i :: 0 <= i < |properties| && key == Named(properties[i].name))
        && forall i :: 0 <= i < |properties| ==> PropertyCopied(copy, clone, properties[i])
      case _ => false
  }

  ghost predicate PropertyCopied(copy: Copy, clone: Ref, property: Property)
    decreases property
  {
    && Address(Clone(clone), Named(property.name)) in copy.written
    && CopyDenotes(copy, copy.written[Address(Clone(clone), Named(property.name))], property.value)
  }

  /** The keys of a tree are those its kind of object has. */
  predicate GoodKeys(tree: Tree) {
    tree.Branch? ==>
      && |tree.keys| == |tree.children|
      && (forall i :: 0 <= i < |tree.keys| ==> if tree.isArray then tree.keys[i] == Index(i) else tree.keys[i].Named?)
      && forall i :: 0 <= i < |tree.children| ==> GoodKeys(tree.children[i])
  }

  lemma {:induction false} UnfoldedKeys(heap: Heap, item: Item, tree: Tree)
    requires Unfolds(heap, item, tree)
    ensures GoodKeys(tree)
    decreases tree
  {
    if tree.Branch? {
      forall i | 0 <= i < |tree.children| ensures GoodKeys(tree.children[i]) {
        UnfoldedKeys(heap, Items(heap[item.ref])[i], tree.children[i]);
      }
    }
  }

  lemma {:induction false} SameKeys(a: Tree, b: Tree)
    requires SameShape(a, b) && GoodKeys(a)
    ensures GoodKeys(b) && ValueOf(a) == ValueOf(b)
  {
    if a.Branch? {
      forall i | 0 <= i < |a.children|
        ensures GoodKeys(b.children[i]) && ValueOf(a.children[i]) == ValueOf(b.children[i])
      {
        SameKeys(a.children[i], b.children[i]);
      }
    }
  }

  lemma {:induction false} CopyMeans(copy: Copy, item: Item, tree: Tree)
    requires CopyUnfolds(copy, item, tree) && GoodKeys(tree)
    ensures CopyDenotes(copy, item, ValueOf(tree))
    decreases tree
  {
    if item.Reference? {
      forall i | 0 <= i < |tree.children|
        ensures CopyDenotes(copy, copy.written[Address(Clone(item.ref), tree.keys[i])], ValueOf(tree.children[i]))
      {
        CopyMeans(copy, copy.written[Address(Clone(item.ref), tree.keys[i])], tree.children[i]);
      }
      BranchMeans(copy, item.ref, tree);
    }
  }

  lemma BranchMeans(copy: Copy, clone: Ref, tree: Tree)
    requires CopyUnfolds(copy, Reference(clone), tree) && GoodKeys(tree)
    requires forall i :: 0 <= i < |tree.children| ==>
      CopyDenotes(copy, copy.written[Address(Clone(clone), tree.keys[i])], ValueOf(tree.children[i]))
    ensures CopyDenotes(copy, Reference(clone), ValueOf(tree))
  {
    if !tree.isArray {
      var properties := ValueOf(tree).properties;
      forall i | 0 <= i < |properties| ensures PropertyCopied(copy, clone, properties[i]) {
        assert tree.keys[i] == Named(properties[i].name);
      }
      forall key | Address(Clone(clone), key) in copy.written
        ensures exists i :: 0 <= i < |properties| && key == Named(properties[i].name)
      {
        var i :| 0 <= i < |tree.keys| && tree.keys[i] == key;
        assert key == Named(properties[i].name);
      }
    }
  }

  /** A copy of an acceptable source has the value of the source. */
  lemma CopyHasValue(heap: Heap, source: Item, copy: Copy, js: Js)
    requires Acceptable(heap, source) && IsCopy(heap, source, copy) && Denotes(heap, source, js)
    ensures CopyDenotes(copy, copy.written[ROOT], js)
  {
    hide Unfolds, Within, Size, Objects, ValueOf, GoodKeys, CopyUnfolds, CopyDenotes, Denotes, SameShape, Unshared;
    var tree :| AcceptableTree(heap, source, tree);
    assert CopiedAs(copy, tree);
    var cloned :| CopyUnfolds(copy, copy.written[ROOT], cloned) && SameShape(tree, cloned)
      && Unshared(Objects(cloned), {});
    UnfoldedKeys(heap, source, tree);
    SameKeys(tree, cloned);
    CopyMeans(copy, copy.written[ROOT], cloned);
    UnfoldsDenotes(heap, source, tree);
    OneUnfolding(heap, source, js, ValueOf(tree));
  }
}
