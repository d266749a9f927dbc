/**
  `snapshotNativeJSON` of node/binding.js: copying a caller's JSON-like objects into fresh
  ones with a stack of its own, within bounds on nodes and depth.
 */
module Snapshot {
  import opened Transport
  import opened JsGraph

  const MAX_NODES := 1_000_000
  const MAX_DEPTH := 256

  datatype Key = Index(i: nat) | Named(name: string)

  // ----- What may be copied -----

  /** Null, strings, booleans and finite numbers. */
  predicate JsonScalar(js: Js) {
    js.JsNull? || js.JsString? || js.JsBoolean?
    || (js.JsNumber? && (js.number.Integral? || js.number.Fraction? || js.number.NegativeZero?))
  }

  /** Arrays and plain objects. */
  predicate Container(node: Node) {
    (node.ListNode? && node.isArray) || node.ObjectNode?
  }

  function Items(node: Node): seq<Item>
    requires Container(node)
  {
    if node.ListNode? then node.items else seq(|node.slots|, i requires 0 <= i < |node.slots| => node.slots[i].item)
  }

  function Keys(node: Node): (keys: seq<Key>)
    requires Container(node)
    ensures |keys| == |Items(node)|
  {
    if node.ListNode? then seq(|node.items|, i requires 0 <= i < |node.items| => Index(i))
    else seq(|node.slots|, i requires 0 <= i < |node.slots| => Named(node.slots[i].name))
  }

  /** An unfolding that remembers which object each part of it is. */
  datatype Tree =
    | Leaf(js: Js)
    | Branch(ref: Ref, isArray: bool, keys: seq<Key>, children: seq<Tree>)

  ghost predicate Unfolds(heap: Heap, item: Item, tree: Tree)
    decreases tree
  {
    match item
    case Absent => false
    case Data(js) => JsonScalar(js) && tree == Leaf(js)
    case Reference(ref) =>
      && ref in heap && Container(heap[ref])
      && tree.Branch? && tree.ref == ref && tree.isArray == heap[ref].ListNode? && tree.keys == Keys(heap[ref])
      && |tree.children| == |Items(heap[ref])|
      && forall i :: 0 <= i < |tree.children| ==> Unfolds(heap, Items(heap[ref])[i], tree.children[i])
  }

  function Size(tree: Tree): nat {
    if tree.Leaf? then 1 else 1 + SizeAll(tree.children)
  }

  function SizeAll(trees: seq<Tree>): nat {
    if trees == [] then 0 else SizeAll(trees[..|trees| - 1]) + Size(trees[|trees| - 1])
  }

  /** How often each object occurs. */
  function Objects(tree: Tree): multiset<Ref> {
    if tree.Leaf? then multiset{} else multiset{tree.ref} + ObjectsAll(tree.children)
  }

  function ObjectsAll(trees: seq<Tree>): multiset<Ref> {
    if trees == [] then multiset{} else ObjectsAll(trees[..|trees| - 1]) + Objects(trees[|trees| - 1])
  }

  /** The tree is at most so deep. */
  predicate Within(tree: Tree, budget: int) {
    0 <= budget && (tree.Branch? ==> forall i :: 0 <= i < |tree.children| ==> Within(tree.children[i], budget - 1))
  }

  /** No object occurs twice, and none of those seen before. */
  ghost predicate Unshared(objects: multiset<Ref>, seen: set<Ref>) {
    forall ref :: objects[ref] <= if ref in seen then 0 else 1
  }

  /** What the copy accepts: a tree of JSON data without shared objects, within the bounds. */
  ghost predicate Acceptable(heap: Heap, source: Item) {
    exists tree :: AcceptableTree(heap, source, tree)
  }

  ghost predicate AcceptableTree(heap: Heap, source: Item, tree: Tree) {
    && Unfolds(heap, source, tree)
    && Within(tree, MAX_DEPTH)
    && Size(tree) <= MAX_NODES
    && Unshared(Objects(tree), {})
  }

  // ----- Trees in a row -----

  function Reverse<T>(s: seq<T>): (r: seq<T>)
    ensures |r| == |s|
  {
    if s == [] then [] else Reverse(s[1..]) + [s[0]]
  }

  lemma {:induction false} ReverseAt<T>(s: seq<T>, i: nat)
    requires i < |s|
    ensures Reverse(s)[i] == s[|s| - 1 - i]
  {
    if i < |s| - 1 { ReverseAt(s[1..], i); }
  }

  lemma {:induction false} AllAppend(a: seq<Tree>, b: seq<Tree>)
    ensures SizeAll(a + b) == SizeAll(a) + SizeAll(b)
    ensures ObjectsAll(a + b) == ObjectsAll(a) + ObjectsAll(b)
    decreases |b|
  {
    if b == [] {
      assert a + b == a;
    } else {
      var n := |b| - 1;
      assert (a + b)[..|a| + n] == a + b[..n];
      AllAppend(a, b[..n]);
    }
  }

  lemma AllOne(tree: Tree)
    ensures SizeAll([tree]) == Size(tree) && ObjectsAll([tree]) == Objects(tree)
  {
    assert [tree][..0] == [];
  }

  lemma {:induction false} AllReverse(trees: seq<Tree>)
    ensures SizeAll(Reverse(trees)) == SizeAll(trees)
    ensures ObjectsAll(Reverse(trees)) == ObjectsAll(trees)
    decreases |trees|
  {
    if trees != [] {
      hide Size, Objects;
      AllReverse(trees[1..]);
      AllAppend(Reverse(trees[1..]), [trees[0]]);
      AllAppend([trees[0]], trees[1..]);
      AllOne(trees[0]);
      assert [trees[0]] + trees[1..] == trees;
    }
  }

  lemma {:induction false} OneNodeEach(trees: seq<Tree>)
    ensures SizeAll(trees) >= |trees|
    decreases |trees|
  {
    if trees != [] { OneNodeEach(trees[..|trees| - 1]); }
  }

  // ----- The stack -----

  /** Where a copy is put: the holder of the result, or a clone. */
  datatype Target = Holder | Clone(ref: Ref)

  datatype Address = Address(target: Target, key: Key)

  datatype Task = Task(source: Item, address: Address, depth: nat)

  const ROOT := Address(Holder, Named("value"))

  /** The slots of an object, waiting to be copied into its clone. */
  function Tasks(node: Node, clone: Ref, depth: nat): seq<Task>
    requires Container(node)
  {
    seq(|Items(node)|, i requires 0 <= i < |Items(node)| =>
      Task(Items(node)[i], Address(Clone(clone), Keys(node)[i]), depth))
  }

  ghost predicate TaskFits(heap: Heap, task: Task, tree: Tree) {
    Unfolds(heap, task.source, tree) && Within(tree, MAX_DEPTH - task.depth)
  }

  /** What waits on the stack unfolds to these trees. */
  ghost predicate AllFit(heap: Heap, pending: seq<Task>, forest: seq<Tree>) {
    |forest| == |pending| && forall i :: 0 <= i < |pending| ==> TaskFits(heap, pending[i], forest[i])
  }

  /** There is room for these trees, and none of their objects is shared. */
  ghost predicate Room(seen: set<Ref>, nodes: nat, forest: seq<Tree>) {
    nodes + SizeAll(forest) <= MAX_NODES && Unshared(ObjectsAll(forest), seen)
  }

  ghost predicate Fits(heap: Heap, pending: seq<Task>, seen: set<Ref>, nodes: nat, forest: seq<Tree>) {
    |forest| == |pending| && AllFit(heap, pending, forest) && Room(seen, nodes, forest)
  }

  ghost predicate Feasible(heap: Heap, pending: seq<Task>, seen: set<Ref>, nodes: nat) {
    exists forest :: Fits(heap, pending, seen, nodes, forest)
  }

  lemma AllFitAppend(heap: Heap, a: seq<Task>, b: seq<Task>, f: seq<Tree>, g: seq<Tree>)
    requires |a| == |f| && |b| == |g|
    ensures AllFit(heap, a + b, f + g) <==> AllFit(heap, a, f) && AllFit(heap, b, g)
  {
    hide TaskFits;
    if AllFit(heap, a + b, f + g) {
      forall i | 0 <= i < |a| ensures TaskFits(heap, a[i], f[i]) {
        assert TaskFits(heap, (a + b)[i], (f + g)[i]);
      }
      forall i | 0 <= i < |b| ensures TaskFits(heap, b[i], g[i]) {
        assert TaskFits(heap, (a + b)[|a| + i], (f + g)[|a| + i]);
      }
    }
  }

  lemma AllFitOne(heap: Heap, task: Task, tree: Tree)
    ensures AllFit(heap, [task], [tree]) <==> TaskFits(heap, task, tree)
  {
    hide TaskFits;
    if AllFit(heap, [task], [tree]) { assert TaskFits(heap, [task][0], [tree][0]); }
  }

  lemma AllFitSnoc(heap: Heap, pending: seq<Task>, forest: seq<Tree>)
    requires pending != [] && |forest| == |pending|
    ensures var n := |pending| - 1;
      AllFit(heap, pending, forest) <==>
        AllFit(heap, pending[..n], forest[..n]) && TaskFits(heap, pending[n], forest[n])
  {
    hide AllFit, TaskFits;
    var n := |pending| - 1;
    assert pending[..n] + [pending[n]] == pending;
    assert forest[..n] + [forest[n]] == forest;
    AllFitAppend(heap, pending[..n], [pending[n]], forest[..n], [forest[n]]);
    AllFitOne(heap, pending[n], forest[n]);
  }

  lemma StartFeasible(heap: Heap, source: Item)
    ensures Feasible(heap, [Task(source, ROOT, 0)], {}, 0) <==> Acceptable(heap, source)
  {
    hide Unfolds, Within, Size, SizeAll, Objects, ObjectsAll, Unshared, AllFit;
    var task := Task(source, ROOT, 0);
    if Acceptable(heap, source) {
      var tree :| AcceptableTree(heap, source, tree);
      AllOne(tree);
      AllFitOne(heap, task, tree);
      assert Fits(heap, [task], {}, 0, [tree]);
    }
    if Feasible(heap, [task], {}, 0) {
      var forest :| Fits(heap, [task], {}, 0, forest);
      assert forest == [forest[0]];
      AllOne(forest[0]);
      AllFitOne(heap, task, forest[0]);
      assert AcceptableTree(heap, source, forest[0]);
    }
  }

  lemma AllFitLength(heap: Heap, pending: seq<Task>, forest: seq<Tree>)
    requires AllFit(heap, pending, forest)
    ensures |forest| == |pending|
  {
  }

  /** An empty stack is done. */
  lemma EmptyFeasible(heap: Heap, seen: set<Ref>, nodes: nat)
    requires nodes <= MAX_NODES
    ensures Feasible(heap, [], seen, nodes)
  {
    assert Fits(heap, [], seen, nodes, []);
  }

  /** A leaf among the trees takes one node and no object. */
  lemma LeafRoom(rest: seq<Tree>, leaf: Tree, seen: set<Ref>, nodes: nat)
    requires leaf.Leaf?
    ensures Room(seen, nodes, rest + [leaf]) <==> Room(seen, nodes + 1, rest)
  {
    AllAppend(rest, [leaf]);
    AllOne(leaf);
    LeafCounts(leaf);
    hide SizeAll, ObjectsAll, Unshared;
    assert ObjectsAll(rest) + multiset{} == ObjectsAll(rest);
  }

  lemma SizeRoom(seen: set<Ref>, nodes: nat, forest: seq<Tree>)
    requires Room(seen, nodes, forest)
    ensures nodes + |forest| <= MAX_NODES
  {
    OneNodeEach(forest);
  }

  /** A scalar can be taken from the stack if it is JSON and there is room, and the rest is as feasible as before. */
  lemma ScalarStep(heap: Heap, pending: seq<Task>, seen: set<Ref>, nodes: nat)
    requires pending != [] && !pending[|pending| - 1].source.Reference?
    ensures var task := pending[|pending| - 1];
      Feasible(heap, pending, seen, nodes)
      <==> && task.source.Data? && JsonScalar(task.source.js) && task.depth <= MAX_DEPTH
           && Feasible(heap, pending[..|pending| - 1], seen, nodes + 1)
  {
    hide AllFit, Room, JsonScalar;
    var n, task := |pending| - 1, pending[|pending| - 1];
    if Feasible(heap, pending, seen, nodes) {
      var forest :| Fits(heap, pending, seen, nodes, forest);
      AllFitSnoc(heap, pending, forest);
      assert forest[..n] + [forest[n]] == forest;
      LeafRoom(forest[..n], forest[n], seen, nodes);
      assert Fits(heap, pending[..n], seen, nodes + 1, forest[..n]);
    }
    if task.source.Data? && JsonScalar(task.source.js) && task.depth <= MAX_DEPTH
        && Feasible(heap, pending[..n], seen, nodes + 1) {
      var leaf := Leaf(task.source.js);
      var rest :| Fits(heap, pending[..n], seen, nodes + 1, rest);
      assert (rest + [leaf])[..n] == rest;
      AllFitSnoc(heap, pending, rest + [leaf]);
      LeafRoom(rest, leaf, seen, nodes);
      assert Fits(heap, pending, seen, nodes, rest + [leaf]);
    }
  }

  lemma LeafCounts(tree: Tree)
    requires tree.Leaf?
    ensures Size(tree) == 1 && Objects(tree) == multiset{}
  {
  }

  lemma ChildrenFit(heap: Heap, task: Task, tree: Tree, clone: Ref)
    requires TaskFits(heap, task, tree) && task.source.Reference?
    ensures var ref := task.source.ref;
      && ref in heap && Container(heap[ref]) && tree.Branch? && tree.ref == ref && task.depth <= MAX_DEPTH
      && |tree.children| == |Items(heap[ref])|
      && AllFit(heap, Reverse(Tasks(heap[ref], clone, task.depth + 1)), Reverse(tree.children))
  {
    var ref := task.source.ref;
    var tasks := Tasks(heap[ref], clone, task.depth + 1);
    hide Keys, Items;
    forall i | 0 <= i < |tasks| ensures TaskFits(heap, Reverse(tasks)[i], Reverse(tree.children)[i]) {
      ReverseAt(tasks, i);
      ReverseAt(tree.children, i);
      assert TaskFits(heap, tasks[|tasks| - 1 - i], tree.children[|tasks| - 1 - i]);
    }
  }

  lemma BranchCounts(tree: Tree)
    requires tree.Branch?
    ensures Size(tree) == 1 + SizeAll(tree.children) && Objects(tree) == multiset{tree.ref} + ObjectsAll(tree.children)
  {
  }

  /** Moving a reference from the objects waiting to those seen keeps everything unshared, and back. */
  lemma MoveToSeen(rest: multiset<Ref>, below: multiset<Ref>, ref: Ref, seen: set<Ref>)
    ensures Unshared(rest + (multiset{ref} + below), seen)
       <==> ref !in seen && Unshared(rest + below, seen + {ref})
  {
    var before, after := rest + (multiset{ref} + below), rest + below;
    assert before[ref] == after[ref] + 1;
    assert forall r :: r != ref ==> before[r] == after[r];
    if ref !in seen && Unshared(after, seen + {ref}) {
      assert after[ref] <= 0;
      forall r ensures before[r] <= if r in seen then 0 else 1 {
        assert after[r] <= if r in seen + {ref} then 0 else 1;
      }
    }
    if Unshared(before, seen) {
      assert before[ref] <= if ref in seen then 0 else 1;
      forall r ensures after[r] <= if r in seen + {ref} then 0 else 1 {
        assert before[r] <= if r in seen then 0 else 1;
      }
    }
  }

  /** Trees in a row, one of them replaced by what is below it. */
  lemma Exchange(rest: seq<Tree>, tree: Tree, below: seq<Tree>, seen: set<Ref>)
    requires tree.Branch? && |below| == |tree.children|
    requires SizeAll(below) == SizeAll(tree.children) && ObjectsAll(below) == ObjectsAll(tree.children)
    ensures SizeAll(rest + [tree]) == 1 + SizeAll(rest + below) && SizeAll(rest + below) >= |rest| + |below|
    ensures Unshared(ObjectsAll(rest + [tree]), seen)
       <==> tree.ref !in seen && Unshared(ObjectsAll(rest + below), seen + {tree.ref})
  {
    hide SizeAll, ObjectsAll, Size, Objects, Unshared;
    AllAppend(rest, [tree]);
    AllOne(tree);
    BranchCounts(tree);
    AllAppend(rest, below);
    OneNodeEach(rest + below);
    MoveToSeen(ObjectsAll(rest), ObjectsAll(tree.children), tree.ref, seen);
  }

  lemma ExchangeRoom(rest: seq<Tree>, tree: Tree, below: seq<Tree>, seen: set<Ref>, nodes: nat)
    requires tree.Branch? && (below == Reverse(tree.children) || tree.children == Reverse(below))
    ensures Room(seen, nodes, rest + [tree]) <==> tree.ref !in seen && Room(seen + {tree.ref}, nodes + 1, rest + below)
  {
    hide Unshared, SizeAll, ObjectsAll;
    if below == Reverse(tree.children) { AllReverse(tree.children); } else { AllReverse(below); }
    Exchange(rest, tree, below, seen);
  }

  /** The stack once an object's slots replace the object. */
  function Pushed(heap: Heap, pending: seq<Task>, clone: Ref): seq<Task>
    requires pending != [] && pending[|pending| - 1].source.Reference?
    requires pending[|pending| - 1].source.ref in heap && Container(heap[pending[|pending| - 1].source.ref])
  {
    var task := pending[|pending| - 1];
    pending[..|pending| - 1] + Reverse(Tasks(heap[task.source.ref], clone, task.depth + 1))
  }

  /**
    Taking an object from the stack: it was not seen before, there is room for all of its
    slots besides what waits already, and its slots can wait in its place.
   */
  lemma ContainerStep(heap: Heap, pending: seq<Task>, seen: set<Ref>, nodes: nat, forest: seq<Tree>, clone: Ref)
    requires pending != [] && Fits(heap, pending, seen, nodes, forest)
    requires pending[|pending| - 1].source.Reference?
    ensures var n, task := |pending| - 1, pending[|pending| - 1];
      && task.source.ref in heap && Container(heap[task.source.ref]) && task.source.ref !in seen
      && task.depth <= MAX_DEPTH && |Items(heap[task.source.ref])| <= MAX_NODES - (nodes + 1) - n
      && Feasible(heap, Pushed(heap, pending, clone), seen + {task.source.ref}, nodes + 1)
  {
    hide AllFit, TaskFits, Room, Items, Keys;
    AllFitLength(heap, pending, forest);
    var n, task, tree := |pending| - 1, pending[|pending| - 1], forest[|pending| - 1];
    AllFitSnoc(heap, pending, forest);
    ChildrenFit(heap, task, tree, clone);
    var below := Reverse(tree.children);
    var tasks := Reverse(Tasks(heap[task.source.ref], clone, task.depth + 1));
    AllFitLength(heap, tasks, below);
    assert forest[..n] + [tree] == forest;
    ExchangeRoom(forest[..n], tree, below, seen, nodes);
    SizeRoom(seen + {task.source.ref}, nodes + 1, forest[..n] + below);
    AllFitAppend(heap, pending[..n], tasks, forest[..n], below);
    assert Fits(heap, Pushed(heap, pending, clone), seen + {task.source.ref}, nodes + 1, forest[..n] + below);
  }

  /** The tree of an object whose slots unfold to these trees. */
  function Parent(heap: Heap, ref: Ref, children: seq<Tree>): Tree
    requires ref in heap && Container(heap[ref])
  {
    Branch(ref, heap[ref].ListNode?, Keys(heap[ref]), children)
  }

  lemma ParentFits(heap: Heap, task: Task, clone: Ref, below: seq<Tree>)
    requires task.source.Reference? && task.source.ref in heap && Container(heap[task.source.ref])
        && task.depth <= MAX_DEPTH
    requires AllFit(heap, Reverse(Tasks(heap[task.source.ref], clone, task.depth + 1)), below)
    ensures TaskFits(heap, task, Parent(heap, task.source.ref, Reverse(below)))
  {
    var tasks := Tasks(heap[task.source.ref], clone, task.depth + 1);
    var children := Reverse(below);
    hide Keys, Items;
    forall i | 0 <= i < |children| ensures TaskFits(heap, tasks[i], children[i]) {
      var k := |children| - 1 - i;
      ReverseAt(tasks, k);
      ReverseAt(below, i);
      assert TaskFits(heap, Reverse(tasks)[k], below[k]);
    }
    ParentUnfolds(heap, task, clone, children);
  }

  lemma ParentUnfolds(heap: Heap, task: Task, clone: Ref, children: seq<Tree>)
    requires task.source.Reference? && task.source.ref in heap && Container(heap[task.source.ref])
        && task.depth <= MAX_DEPTH
    requires |children| == |Items(heap[task.source.ref])|
    requires forall i :: 0 <= i < |children| ==>
      TaskFits(heap, Tasks(heap[task.source.ref], clone, task.depth + 1)[i], children[i])
    ensures TaskFits(heap, task, Parent(heap, task.source.ref, children))
  {
    hide Keys, Items;
    var tasks := Tasks(heap[task.source.ref], clone, task.depth + 1);
    forall i | 0 <= i < |children|
      ensures Unfolds(heap, Items(heap[task.source.ref])[i], children[i])
          && Within(children[i], MAX_DEPTH - task.depth - 1)
    {
      assert TaskFits(heap, tasks[i], children[i]);
    }
    hide TaskFits, Tasks;
    var tree := Parent(heap, task.source.ref, children);
    assert Unfolds(heap, task.source, tree) && Within(tree, MAX_DEPTH - task.depth);
    TaskFitsOf(heap, task, tree);
  }

  lemma TaskFitsOf(heap: Heap, task: Task, tree: Tree)
    requires Unfolds(heap, task.source, tree) && Within(tree, MAX_DEPTH - task.depth)
    ensures TaskFits(heap, task, tree)
  {
    hide Unfolds, Within;
  }

  lemma ContainerBack(heap: Heap, pending: seq<Task>, seen: set<Ref>, nodes: nat, clone: Ref, forest: seq<Tree>)
    requires pending != [] && pending[|pending| - 1].source.Reference?
    requires var task := pending[|pending| - 1];
      task.source.ref in heap && Container(heap[task.source.ref]) && task.source.ref !in seen && task.depth <= MAX_DEPTH
    requires Fits(heap, Pushed(heap, pending, clone), seen + {pending[|pending| - 1].source.ref}, nodes + 1, forest)
    ensures Feasible(heap, pending, seen, nodes)
  {
    hide AllFit, TaskFits, Room, Items, Keys;
    var n, task := |pending| - 1, pending[|pending| - 1];
    AllFitLength(heap, Pushed(heap, pending, clone), forest);
    var tasks := Reverse(Tasks(heap[task.source.ref], clone, task.depth + 1));
    var rest, below := forest[..n], forest[n..];
    assert rest + below == forest;
    var tree := Parent(heap, task.source.ref, Reverse(below));
    AllFitAppend(heap, pending[..n], tasks, rest, below);
    ParentFits(heap, task, clone, below);
    ExchangeRoom(rest, tree, below, seen, nodes);
    assert (rest + [tree])[..n] == rest;
    AllFitSnoc(heap, pending, rest + [tree]);
    assert Fits(heap, pending, seen, nodes, rest + [tree]);
  }

  /**
    An object can be taken from the stack exactly when it is a new array or plain object,
    not too deep, and there is room; the early test of its length refuses nothing else.
   */
  lemma ContainerStepIff(heap: Heap, pending: seq<Task>, seen: set<Ref>, nodes: nat, clone: Ref)
    requires pending != [] && pending[|pending| - 1].source.Reference?
    ensures var n, task := |pending| - 1, pending[|pending| - 1];
      Feasible(heap, pending, seen, nodes)
      <==> && task.source.ref in heap && Container(heap[task.source.ref]) && task.source.ref !in seen
           && task.depth <= MAX_DEPTH && |Items(heap[task.source.ref])| <= MAX_NODES - (nodes + 1) - n
           && Feasible(heap, Pushed(heap, pending, clone), seen + {task.source.ref}, nodes + 1)
  {
    hide Fits, Items, Keys, Pushed, Container;
    if Feasible(heap, pending, seen, nodes) {
      var forest :| Fits(heap, pending, seen, nodes, forest);
      ContainerStep(heap, pending, seen, nodes, forest, clone);
    }
    var task := pending[|pending| - 1];
    if task.source.ref in heap && Container(heap[task.source.ref]) && task.source.ref !in seen
        && task.depth <= MAX_DEPTH
       && Feasible(heap, Pushed(heap, pending, clone), seen + {task.source.ref}, nodes + 1) {
      var forest :| Fits(heap, Pushed(heap, pending, clone), seen + {task.source.ref}, nodes + 1, forest);
      ContainerBack(heap, pending, seen, nodes, clone, forest);
    }
  }

  /** Beyond the bound nothing more fits. */
  lemma NoRoom(heap: Heap, pending: seq<Task>, seen: set<Ref>, nodes: nat)
    requires pending != [] && nodes + 1 > MAX_NODES
    ensures !Feasible(heap, pending, seen, nodes)
  {
    hide AllFit, Room;
    if Feasible(heap, pending, seen, nodes) {
      var forest :| Fits(heap, pending, seen, nodes, forest);
      SizeRoom(seen, nodes, forest);
    }
  }
}
