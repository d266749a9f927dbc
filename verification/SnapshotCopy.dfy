/**
  The loop of `snapshotNativeJSON` in node/binding.js, and the copy it leaves behind.
 */
module SnapshotCopy {
  import opened Sequences
  import opened JsGraph
  import opened Snapshot

  datatype Refusal = TooManyNodes | TooDeep | NotJson | Shared

  /** `new Array(length)` or `Object.create(null)`. */
  datatype CloneKind = ArrayClone(length: nat) | ObjectClone

  /** The clones, numbered as they are made, and what has been assigned to their properties. */
  datatype Copy = Copy(kinds: seq<CloneKind>, written: map<Address, Item>)

  function KindOf(node: Node): CloneKind
    requires Container(node)
  {
    if node.ListNode? then ArrayClone(|node.items|) else ObjectClone
  }

  /** An object has a property once. */
  ghost predicate NamesOnce(heap: Heap) {
    forall ref :: ref in heap && Container(heap[ref]) ==> KeysOnce(heap[ref])
  }

  ghost predicate KeysOnce(node: Node)
    requires Container(node)
  {
    forall i, j :: 0 <= i < j < |Keys(node)| ==> Keys(node)[i] != Keys(node)[j]
  }

  // ----- Slots -----

  /** A slot of a source object, at its address in the clone. */
  ghost predicate SlotAt(heap: Heap, made: map<Ref, Ref>, ref: Ref, i: int, address: Address, item: Item) {
    && ref in made && ref in heap && Container(heap[ref]) && 0 <= i < |Items(heap[ref])|
    && address == Address(Clone(made[ref]), Keys(heap[ref])[i]) && item == Items(heap[ref])[i]
  }

  ghost predicate IsSlot(heap: Heap, source: Item, made: map<Ref, Ref>, address: Address, item: Item) {
    (address == ROOT && item == source) || exists ref, i :: SlotAt(heap, made, ref, i, address, item)
  }

  /** A copied item: the scalar itself, or the clone of the object. */
  predicate Matches(made: map<Ref, Ref>, item: Item, copied: Item) {
    (item.Data? && copied == item) || (item.Reference? && item.ref in made && copied == Reference(made[item.ref]))
  }

  predicate Done(made: map<Ref, Ref>, written: map<Address, Item>, address: Address, item: Item) {
    address in written && Matches(made, item, written[address])
  }

  predicate IsTask(task: Task, address: Address, item: Item) {
    task.address == address && task.source == item
  }

  ghost predicate Waiting(pending: seq<Task>, address: Address, item: Item) {
    exists j :: 0 <= j < |pending| && IsTask(pending[j], address, item)
  }

  /** Different objects have different clones, each of its kind. */
  ghost predicate Cloned(heap: Heap, made: map<Ref, Ref>, kinds: seq<CloneKind>) {
    && (forall ref :: ref in made ==>
          ref in heap && Container(heap[ref]) && made[ref] < |kinds| && kinds[made[ref]] == KindOf(heap[ref]))
    && (forall r, s :: r in made && s in made && made[r] == made[s] ==> r == s)
  }

  ghost predicate Accounted(heap: Heap, source: Item, pending: seq<Task>, made: map<Ref, Ref>,
                            written: map<Address, Item>) {
    && (forall address, item :: IsSlot(heap, source, made, address, item) ==>
          Done(made, written, address, item) || Waiting(pending, address, item))
    && (forall j :: 0 <= j < |pending| ==> IsSlot(heap, source, made, pending[j].address, pending[j].source))
    && (forall address :: address in written ==> exists item :: IsSlot(heap, source, made, address, item))
  }

  /** An address belongs to one slot. */
  lemma OneSlot(
    heap: Heap, source: Item, made: map<Ref, Ref>, kinds: seq<CloneKind>, address: Address, x: Item, y: Item)
    requires NamesOnce(heap) && Cloned(heap, made, kinds)
    requires IsSlot(heap, source, made, address, x) && IsSlot(heap, source, made, address, y)
    ensures x == y
  {
    hide Items, Keys;
    if address != ROOT {
      var r, i :| SlotAt(heap, made, r, i, address, x);
      var s, j :| SlotAt(heap, made, s, j, address, y);
      assert r == s;
      assert KeysOnce(heap[r]);
      assert i == j;
    }
  }

  /** What the popped task was for is done now; nothing else changes. */
  lemma SettleSlot(heap: Heap, source: Item, pending: seq<Task>, made: map<Ref, Ref>, kinds: seq<CloneKind>,
                   made': map<Ref, Ref>, written: map<Address, Item>, copied: Item, address: Address, item: Item)
    requires NamesOnce(heap) && Cloned(heap, made, kinds) && pending != []
    requires Accounted(heap, source, pending, made, written) && IsSlot(heap, source, made, address, item)
    requires forall ref :: ref in made ==> ref in made' && made'[ref] == made[ref]
    requires Matches(made', pending[|pending| - 1].source, copied)
    ensures var task := pending[|pending| - 1];
      Done(made', written[task.address := copied], address, item) || Waiting(pending[..|pending| - 1], address, item)
  {
    hide IsSlot;
    var n, task := |pending| - 1, pending[|pending| - 1];
    if address == task.address {
      OneSlot(heap, source, made, kinds, address, item, task.source);
    } else if Waiting(pending, address, item) {
      var j :| 0 <= j < |pending| && IsTask(pending[j], address, item);
      assert IsTask(pending[..n][j], address, item);
    }
  }

  lemma ScalarAccounted(heap: Heap, source: Item, pending: seq<Task>, made: map<Ref, Ref>, kinds: seq<CloneKind>,
                        written: map<Address, Item>)
    requires NamesOnce(heap) && Cloned(heap, made, kinds) && pending != [] && pending[|pending| - 1].source.Data?
    requires Accounted(heap, source, pending, made, written)
    ensures var task := pending[|pending| - 1];
      Accounted(heap, source, pending[..|pending| - 1], made, written[task.address := task.source])
  {
    hide IsSlot, Done, Waiting;
    var n, task := |pending| - 1, pending[|pending| - 1];
    forall address, item | IsSlot(heap, source, made, address, item)
      ensures Done(made, written[task.address := task.source], address, item) || Waiting(pending[..n], address, item)
    {
      SettleSlot(heap, source, pending, made, kinds, made, written, task.source, address, item);
    }
  }

  ghost predicate SlotOf(heap: Heap, made: map<Ref, Ref>, ref: Ref, address: Address, item: Item) {
    exists i :: SlotAt(heap, made, ref, i, address, item)
  }

  // ----- A new clone -----

  lemma CloneMade(heap: Heap, made: map<Ref, Ref>, kinds: seq<CloneKind>, ref: Ref)
    requires Cloned(heap, made, kinds) && ref in heap && Container(heap[ref]) && ref !in made
    ensures Cloned(heap, made[ref := |kinds|], kinds + [KindOf(heap[ref])])
  {
    hide KindOf, Container;
  }

  /** The slots of the clones, once there is one more. */
  lemma SlotsGrow(heap: Heap, source: Item, made: map<Ref, Ref>, clone: Ref, ref: Ref, address: Address, item: Item)
    requires ref in heap && Container(heap[ref]) && ref !in made
    ensures IsSlot(heap, source, made, address, item) ==> IsSlot(heap, source, made[ref := clone], address, item)
    ensures IsSlot(heap, source, made[ref := clone], address, item) ==>
      || IsSlot(heap, source, made, address, item)
      || SlotOf(heap, made[ref := clone], ref, address, item)
  {
    hide Items, Keys, Container;
    var made' := made[ref := clone];
    if IsSlot(heap, source, made, address, item) && !(address == ROOT && item == source) {
      var r, i :| SlotAt(heap, made, r, i, address, item);
      assert SlotAt(heap, made', r, i, address, item);
    }
    if IsSlot(heap, source, made', address, item) && !(address == ROOT && item == source) {
      var r, i :| SlotAt(heap, made', r, i, address, item);
      if r != ref { assert SlotAt(heap, made, r, i, address, item); }
    }
  }

  lemma TasksWait(heap: Heap, pending: seq<Task>, made: map<Ref, Ref>, clone: Ref, i: int, address: Address, item: Item)
    requires pending != [] && pending[|pending| - 1].source.Reference?
    requires var ref := pending[|pending| - 1].source.ref;
      ref in heap && Container(heap[ref]) && SlotAt(heap, made[ref := clone], ref, i, address, item)
    ensures Waiting(Pushed(heap, pending, clone), address, item)
  {
    var n, task := |pending| - 1, pending[|pending| - 1];
    var tasks := Tasks(heap[task.source.ref], clone, task.depth + 1);
    hide Items, Keys, Container;
    ReverseAt(tasks, |tasks| - 1 - i);
    assert IsTask(Pushed(heap, pending, clone)[n + (|tasks| - 1 - i)], address, item);
  }

  lemma StillWaits(heap: Heap, pending: seq<Task>, clone: Ref, address: Address, item: Item)
    requires pending != [] && pending[|pending| - 1].source.Reference?
    requires var ref := pending[|pending| - 1].source.ref; ref in heap && Container(heap[ref])
    requires Waiting(pending[..|pending| - 1], address, item)
    ensures Waiting(Pushed(heap, pending, clone), address, item)
  {
    hide Tasks, Container;
    var n := |pending| - 1;
    var j :| 0 <= j < n && IsTask(pending[..n][j], address, item);
    assert IsTask(Pushed(heap, pending, clone)[j], address, item);
  }

  /** Everything on the new stack is a slot. */
  lemma PushedAreSlots(heap: Heap, source: Item, pending: seq<Task>, made: map<Ref, Ref>, clone: Ref, j: nat)
    requires pending != [] && pending[|pending| - 1].source.Reference?
    requires var ref := pending[|pending| - 1].source.ref; ref in heap && Container(heap[ref]) && ref !in made
    requires forall k :: 0 <= k < |pending| ==> IsSlot(heap, source, made, pending[k].address, pending[k].source)
    requires j < |Pushed(heap, pending, clone)|
    ensures var task := Pushed(heap, pending, clone)[j];
      IsSlot(heap, source, made[pending[|pending| - 1].source.ref := clone], task.address, task.source)
  {
    var n, top := |pending| - 1, pending[|pending| - 1];
    var ref := top.source.ref;
    var tasks := Tasks(heap[ref], clone, top.depth + 1);
    hide Items, Keys, Container;
    var task := Pushed(heap, pending, clone)[j];
    if j < n {
      assert task == pending[j];
      SlotsGrow(heap, source, made, clone, ref, task.address, task.source);
    } else {
      var i := |tasks| - 1 - (j - n);
      ReverseAt(tasks, j - n);
      assert task == tasks[i];
      assert SlotAt(heap, made[ref := clone], ref, i, task.address, task.source);
    }
  }

  lemma CloneAccounted(heap: Heap, source: Item, pending: seq<Task>, made: map<Ref, Ref>, kinds: seq<CloneKind>,
                       written: map<Address, Item>)
    requires NamesOnce(heap) && Cloned(heap, made, kinds) && pending != [] && pending[|pending| - 1].source.Reference?
    requires var ref := pending[|pending| - 1].source.ref; ref in heap && Container(heap[ref]) && ref !in made
    requires Accounted(heap, source, pending, made, written)
    ensures var task := pending[|pending| - 1];
      Accounted(heap, source, Pushed(heap, pending, |kinds|), made[task.source.ref := |kinds|],
                written[task.address := Reference(|kinds|)])
  {
    var n, task := |pending| - 1, pending[|pending| - 1];
    var ref := task.source.ref;
    var made', written' := made[ref := |kinds|], written[task.address := Reference(|kinds|)];
    hide IsSlot, Done, Waiting, Pushed, Container, NamesOnce, Cloned;
    assert Matches(made', task.source, Reference(|kinds|));
    forall address, item | IsSlot(heap, source, made', address, item)
      ensures Done(made', written', address, item) || Waiting(Pushed(heap, pending, |kinds|), address, item)
    {
      SlotsGrow(heap, source, made, |kinds|, ref, address, item);
      if IsSlot(heap, source, made, address, item) {
        SettleSlot(heap, source, pending, made, kinds, made', written, Reference(|kinds|), address, item);
        if Waiting(pending[..n], address, item) { StillWaits(heap, pending, |kinds|, address, item); }
      } else {
        var i :| SlotAt(heap, made', ref, i, address, item);
        TasksWait(heap, pending, made, |kinds|, i, address, item);
      }
    }
    forall j | 0 <= j < |Pushed(heap, pending, |kinds|)|
      ensures IsSlot(heap, source, made', Pushed(heap, pending, |kinds|)[j].address,
          Pushed(heap, pending, |kinds|)[j].source)
    {
      PushedAreSlots(heap, source, pending, made, |kinds|, j);
    }
    forall address | address in written' ensures exists item :: IsSlot(heap, source, made', address, item) {
      var item :| IsSlot(heap, source, made, address, item);
      SlotsGrow(heap, source, made, |kinds|, ref, address, item);
    }
  }

  // ----- The finished copy -----

  /** What a copied item unfolds to among the clones; the clone has these properties and no others. */
  ghost predicate CopyUnfolds(copy: Copy, item: Item, tree: Tree)
    decreases tree
  {
    match item
    case Absent => false
    case Data(js) => tree == Leaf(js)
    case Reference(ref) =>
      && tree.Branch? && tree.ref == ref && |tree.keys| == |tree.children|
      && ref < |copy.kinds| && copy.kinds[ref] == (if tree.isArray then ArrayClone(|tree.children|) else ObjectClone)
      && (forall key :: Address(Clone(ref), key) in copy.written ==> key in tree.keys)
      && forall i :: 0 <= i < |tree.children| ==>
           && Address(Clone(ref), tree.keys[i]) in copy.written
           && CopyUnfolds(copy, copy.written[Address(Clone(ref), tree.keys[i])], tree.children[i])
  }

  /** The same tree, each object replaced by its clone. */
  function Renamed(made: map<Ref, Ref>, tree: Tree): Tree {
    if tree.Leaf? then tree
    else
      Branch(if tree.ref in made then made[tree.ref] else tree.ref, tree.isArray, tree.keys,
             seq(|tree.children|, i requires 0 <= i < |tree.children| => Renamed(made, tree.children[i])))
  }

  /** The same data under the same keys in the same places. */
  predicate SameShape(a: Tree, b: Tree) {
    if a.Leaf? then a == b
    else
      && b.Branch? && a.isArray == b.isArray && a.keys == b.keys && |a.children| == |b.children|
      && forall i :: 0 <= i < |a.children| ==> SameShape(a.children[i], b.children[i])
  }

  lemma {:induction false} RenamedSameShape(made: map<Ref, Ref>, tree: Tree)
    ensures SameShape(tree, Renamed(made, tree))
  {
    if tree.Branch? {
      forall i | 0 <= i < |tree.children| ensures SameShape(tree.children[i], Renamed(made, tree).children[i]) {
        RenamedSameShape(made, tree.children[i]);
      }
    }
  }

  ghost predicate Finished(heap: Heap, source: Item, made: map<Ref, Ref>, copy: Copy) {
    && Cloned(heap, made, copy.kinds)
    && Accounted(heap, source, [], made, copy.written)
  }

  lemma SlotFinished(heap: Heap, source: Item, made: map<Ref, Ref>, copy: Copy, ref: Ref, i: nat)
    requires Finished(heap, source, made, copy) && ref in made && ref in heap && Container(heap[ref])
        && i < |Items(heap[ref])|
    ensures Done(made, copy.written, Address(Clone(made[ref]), Keys(heap[ref])[i]), Items(heap[ref])[i])
  {
    hide Items, Keys, Container, Done, Cloned;
    assert SlotAt(heap, made, ref, i, Address(Clone(made[ref]), Keys(heap[ref])[i]), Items(heap[ref])[i]);
    assert IsSlot(heap, source, made, Address(Clone(made[ref]), Keys(heap[ref])[i]), Items(heap[ref])[i]);
  }

  lemma OnlyKeys(heap: Heap, source: Item, made: map<Ref, Ref>, copy: Copy, ref: Ref, key: Key)
    requires Finished(heap, source, made, copy) && ref in made && ref in heap && Container(heap[ref])
    requires Address(Clone(made[ref]), key) in copy.written
    ensures key in Keys(heap[ref])
  {
    hide Items, Keys, Container, Done;
    var item :| IsSlot(heap, source, made, Address(Clone(made[ref]), key), item);
    var r, i :| SlotAt(heap, made, r, i, Address(Clone(made[ref]), key), item);
    assert r == ref;
  }

  /** A clone unfolds once what its properties hold does. */
  lemma BranchUnfolds(made: map<Ref, Ref>, copy: Copy, tree: Tree)
    requires tree.Branch? && tree.ref in made && |tree.keys| == |tree.children|
    requires made[tree.ref] < |copy.kinds|
    requires copy.kinds[made[tree.ref]] == if tree.isArray then ArrayClone(|tree.children|) else ObjectClone
    requires forall key :: Address(Clone(made[tree.ref]), key) in copy.written ==> key in tree.keys
    requires forall i :: 0 <= i < |tree.children| ==> ChildUnfolds(made, copy, tree, i)
    ensures CopyUnfolds(copy, Reference(made[tree.ref]), Renamed(made, tree))
  {
    var renamed := Renamed(made, tree);
    forall i | 0 <= i < |tree.children|
      ensures Address(Clone(renamed.ref), renamed.keys[i]) in copy.written
      ensures CopyUnfolds(copy, copy.written[Address(Clone(renamed.ref), renamed.keys[i])], renamed.children[i])
    {
      assert ChildUnfolds(made, copy, tree, i);
    }
  }

  ghost predicate ChildUnfolds(made: map<Ref, Ref>, copy: Copy, tree: Tree, i: int)
    requires tree.Branch? && tree.ref in made && 0 <= i < |tree.children| == |tree.keys|
  {
    var address := Address(Clone(made[tree.ref]), tree.keys[i]);
    address in copy.written && CopyUnfolds(copy, copy.written[address], Renamed(made, tree.children[i]))
  }

  lemma CloneOf(heap: Heap, made: map<Ref, Ref>, kinds: seq<CloneKind>, ref: Ref)
    requires Cloned(heap, made, kinds) && ref in made
    ensures ref in heap && Container(heap[ref]) && made[ref] < |kinds|
    ensures kinds[made[ref]] == if heap[ref].ListNode? then ArrayClone(|Items(heap[ref])|) else ObjectClone
  {
    ItemsOfKind(heap[ref]);
  }

  lemma {:induction false} FinishedUnfolds(
    heap: Heap, source: Item, made: map<Ref, Ref>, copy: Copy, item: Item, copied: Item, tree: Tree)
    requires Finished(heap, source, made, copy) && Matches(made, item, copied) && Unfolds(heap, item, tree)
    ensures CopyUnfolds(copy, copied, Renamed(made, tree))
    ensures forall ref :: ref in Objects(tree) ==> ref in made
    decreases tree
  {
    if item.Reference? {
      var ref := item.ref;
      CloneOf(heap, made, copy.kinds, ref);
      hide Finished, Accounted, Cloned, Container, Keys, Items, CopyUnfolds, Renamed;
      forall i | 0 <= i < |tree.children|
        ensures ChildUnfolds(made, copy, tree, i)
        ensures forall r :: r in Objects(tree.children[i]) ==> r in made
      {
        SlotFinished(heap, source, made, copy, ref, i);
        var slot := copy.written[Address(Clone(made[ref]), tree.keys[i])];
        FinishedUnfolds(heap, source, made, copy, Items(heap[ref])[i], slot, tree.children[i]);
      }
      forall key | Address(Clone(made[ref]), key) in copy.written ensures key in tree.keys {
        OnlyKeys(heap, source, made, copy, ref, key);
      }
      BranchUnfolds(made, copy, tree);
      AllIn(made, tree.children);
    }
  }

  lemma ItemsOfKind(node: Node)
    requires Container(node)
    ensures KindOf(node) == if node.ListNode? then ArrayClone(|Items(node)|) else ObjectClone
  {
  }

  lemma {:induction false} AllIn(made: map<Ref, Ref>, trees: seq<Tree>)
    requires forall i :: 0 <= i < |trees| ==> forall r :: r in Objects(trees[i]) ==> r in made
    ensures forall r :: r in ObjectsAll(trees) ==> r in made
    decreases |trees|
  {
    if trees != [] {
      hide Objects;
      AllIn(made, trees[..|trees| - 1]);
    }
  }

  // ----- No aliasing -----

  function RenamedAll(made: map<Ref, Ref>, trees: seq<Tree>): seq<Tree> {
    seq(|trees|, i requires 0 <= i < |trees| => Renamed(made, trees[i]))
  }

  /** A clone occurs as often as its source, and nothing but clones occurs. */
  ghost predicate Counted(made: map<Ref, Ref>, objects: multiset<Ref>, clones: multiset<Ref>) {
    && (forall ref :: ref in made ==> clones[made[ref]] == objects[ref])
    && (forall clone :: clone in clones ==> exists ref :: ref in made && made[ref] == clone)
  }

  lemma CountedSum(made: map<Ref, Ref>, a: multiset<Ref>, b: multiset<Ref>, x: multiset<Ref>, y: multiset<Ref>)
    requires Counted(made, a, x) && Counted(made, b, y)
    ensures Counted(made, a + b, x + y)
  {
    forall clone | clone in x + y ensures exists ref :: ref in made && made[ref] == clone {
      assert clone in x || clone in y;
    }
  }

  lemma CountedOne(heap: Heap, made: map<Ref, Ref>, kinds: seq<CloneKind>, ref: Ref)
    requires Cloned(heap, made, kinds) && ref in made
    ensures Counted(made, multiset{ref}, multiset{made[ref]})
  {
    hide KindOf, Container;
    forall r | r in made ensures multiset{made[ref]}[made[r]] == multiset{ref}[r] {
      if r != ref { assert made[r] != made[ref]; }
    }
  }

  lemma {:induction false} RenamedCounted(heap: Heap, made: map<Ref, Ref>, kinds: seq<CloneKind>, tree: Tree)
    requires Cloned(heap, made, kinds) && forall ref :: ref in Objects(tree) ==> ref in made
    ensures Counted(made, Objects(tree), Objects(Renamed(made, tree)))
    decreases tree, 0
  {
    hide Cloned, Counted;
    if tree.Branch? {
      assert tree.ref in Objects(tree);
      CountedOne(heap, made, kinds, tree.ref);
      assert forall ref :: ref in ObjectsAll(tree.children) ==> ref in Objects(tree);
      AllCounted(heap, made, kinds, tree.children);
      assert Renamed(made, tree).children == RenamedAll(made, tree.children);
      CountedSum(made, multiset{tree.ref}, ObjectsAll(tree.children),
                 multiset{made[tree.ref]}, ObjectsAll(RenamedAll(made, tree.children)));
    } else {
      NoneCounted(made);
    }
  }

  lemma NoneCounted(made: map<Ref, Ref>)
    ensures Counted(made, multiset{}, multiset{})
  {
  }

  lemma {:induction false} AllCounted(heap: Heap, made: map<Ref, Ref>, kinds: seq<CloneKind>, trees: seq<Tree>)
    requires Cloned(heap, made, kinds) && forall ref :: ref in ObjectsAll(trees) ==> ref in made
    ensures Counted(made, ObjectsAll(trees), ObjectsAll(RenamedAll(made, trees)))
    decreases trees, 1
  {
    hide Cloned, Counted, Objects, Renamed;
    if trees == [] {
      NoneCounted(made);
    } else {
      var n := |trees| - 1;
      assert forall ref :: ref in ObjectsAll(trees[..n]) ==> ref in ObjectsAll(trees);
      assert forall ref :: ref in Objects(trees[n]) ==> ref in ObjectsAll(trees);
      AllCounted(heap, made, kinds, trees[..n]);
      RenamedCounted(heap, made, kinds, trees[n]);
      assert RenamedAll(made, trees)[..n] == RenamedAll(made, trees[..n]);
      CountedSum(made, ObjectsAll(trees[..n]), Objects(trees[n]),
                 ObjectsAll(RenamedAll(made, trees[..n])), Objects(Renamed(made, trees[n])));
    }
  }

  lemma CountedUnshared(made: map<Ref, Ref>, objects: multiset<Ref>, clones: multiset<Ref>)
    requires Counted(made, objects, clones) && Unshared(objects, {})
    ensures Unshared(clones, {})
  {
    forall clone ensures clones[clone] <= 1 {
      if clone in clones {
        var ref :| ref in made && made[ref] == clone;
        assert objects[ref] <= if ref in {} then 0 else 1;
      }
    }
  }

  /**
    A copy of a tree: the same data in the same shape, made of clones only, each of which
    is the property of one object alone.
   */
  ghost predicate IsCopy(heap: Heap, source: Item, copy: Copy) {
    && ROOT in copy.written
    && forall tree :: Unfolds(heap, source, tree) && Unshared(Objects(tree), {}) ==> CopiedAs(copy, tree)
  }

  ghost predicate CopiedAs(copy: Copy, tree: Tree)
    requires ROOT in copy.written
  {
    exists cloned :: CopyUnfolds(copy, copy.written[ROOT], cloned) && SameShape(tree, cloned)
        && Unshared(Objects(cloned), {})
  }

  lemma FinishedIsCopy(heap: Heap, source: Item, made: map<Ref, Ref>, copy: Copy)
    requires Finished(heap, source, made, copy)
    ensures IsCopy(heap, source, copy)
  {
    hide Unfolds, CopyUnfolds, SameShape, Objects, Unshared, Renamed, Matches, Cloned, Counted;
    assert IsSlot(heap, source, made, ROOT, source);
    assert Done(made, copy.written, ROOT, source);
    forall tree | Unfolds(heap, source, tree) && Unshared(Objects(tree), {}) ensures CopiedAs(copy, tree) {
      FinishedUnfolds(heap, source, made, copy, source, copy.written[ROOT], tree);
      RenamedSameShape(made, tree);
      RenamedCounted(heap, made, copy.kinds, tree);
      CountedUnshared(made, Objects(tree), Objects(Renamed(made, tree)));
    }
  }

  // ----- The loop -----

  lemma SlotIn(heap: Heap, source: Item, made: map<Ref, Ref>, address: Address, item: Item)
    requires WellFormed(heap) && ItemIn(heap, source) && IsSlot(heap, source, made, address, item)
    ensures ItemIn(heap, item)
  {
    hide ItemIn;
    if !(address == ROOT && item == source) {
      var ref, i :| SlotAt(heap, made, ref, i, address, item);
      assert NodeIn(heap, heap[ref]);
    }
  }

  lemma PopIn(heap: Heap, source: Item, pending: seq<Task>, made: map<Ref, Ref>, written: map<Address, Item>)
    requires WellFormed(heap) && ItemIn(heap, source) && pending != []
        && Accounted(heap, source, pending, made, written)
    ensures ItemIn(heap, pending[|pending| - 1].source)
  {
    hide IsSlot, WellFormed, ItemIn;
    SlotIn(heap, source, made, pending[|pending| - 1].address, pending[|pending| - 1].source);
  }

  lemma StartAccounted(heap: Heap, source: Item)
    ensures Accounted(heap, source, [Task(source, ROOT, 0)], map[], map[])
  {
    assert IsTask([Task(source, ROOT, 0)][0], ROOT, source);
  }

  /** The slots of an object, pushed from the last to the first. */
  method PushSlots(waiting: seq<Task>, node: Node, clone: Ref, depth: nat) returns (pending: seq<Task>)
    requires Container(node)
    ensures pending == waiting + Reverse(Tasks(node, clone, depth))
  {
    var items, keys := Items(node), Keys(node);
    ghost var tasks := Tasks(node, clone, depth);
    pending := waiting;
    for i := |items| downto 0
      invariant pending == waiting + Reverse(tasks[i..])
    {
      var task := Task(items[i], Address(Clone(clone), keys[i]), depth);
      assert tasks[i..][0] == task && tasks[i..][1..] == tasks[i + 1..];
      pending := pending + [task];
    }
    assert tasks[0..] == tasks;
  }

  /**
    `snapshotNativeJSON`: accepts exactly the acceptable sources, whatever the early tests
    of lengths, and returns a copy.
   */
  method SnapshotNativeJson(heap: Heap, source: Item) returns (result: Result<Copy, Refusal>)
    requires WellFormed(heap) && ItemIn(heap, source) && NamesOnce(heap)
    ensures result.Ok? <==> Acceptable(heap, source)
    ensures result.Ok? ==> IsCopy(heap, source, result.value)
  {
    hide WellFormed, NamesOnce, Acceptable, Feasible, Accounted, Cloned, IsCopy, Container, KindOf, JsonScalar;
    var pending := [Task(source, ROOT, 0)];
    var seen: set<Ref> := {};
    var nodes := 0;
    var kinds: seq<CloneKind> := [];
    var written: map<Address, Item> := map[];
    ghost var made: map<Ref, Ref> := map[];
    StartFeasible(heap, source);
    StartAccounted(heap, source);
    assert Cloned(heap, made, kinds) by { NoneCloned(heap); }
    while pending != []
      invariant nodes <= MAX_NODES
      invariant Feasible(heap, pending, seen, nodes) <==> Acceptable(heap, source)
      invariant made.Keys == seen && Cloned(heap, made, kinds) && Accounted(heap, source, pending, made, written)
      decreases MAX_NODES + 1 - nodes
    {
      PopIn(heap, source, pending, made, written);
      ghost var before := pending;
      var task := pending[|pending| - 1];
      pending := pending[..|pending| - 1];
      nodes := nodes + 1;
      if nodes > MAX_NODES {
        NoRoom(heap, before, seen, nodes - 1);
        return Err(TooManyNodes);
      }
      if !task.source.Reference? {
        ScalarStep(heap, before, seen, nodes - 1);
        if task.depth > MAX_DEPTH { return Err(TooDeep); }
        if task.source.Absent? || !JsonScalar(task.source.js) { return Err(NotJson); }
        ScalarAccounted(heap, source, before, made, kinds, written);
        written := written[task.address := task.source];
      } else {
        var ref, clone := task.source.ref, |kinds|;
        var node := heap[ref];
        ContainerStepIff(heap, before, seen, nodes - 1, clone);
        if task.depth > MAX_DEPTH { return Err(TooDeep); }
        if ref in seen { return Err(Shared); }
        seen := seen + {ref};
        if !Container(node) { return Err(NotJson); }
        if |Items(node)| > MAX_NODES - nodes - |pending| { return Err(TooManyNodes); }
        CloneMade(heap, made, kinds, ref);
        CloneAccounted(heap, source, before, made, kinds, written);
        kinds := kinds + [KindOf(node)];
        written := written[task.address := Reference(clone)];
        made := made[ref := clone];
        pending := PushSlots(pending, node, clone, task.depth + 1);
        assert pending == Pushed(heap, before, clone);
      }
    }
    EmptyFeasible(heap, seen, nodes);
    result := Ok(Copy(kinds, written));
    FinishedIsCopy(heap, source, made, Copy(kinds, written));
  }

  lemma NoneCloned(heap: Heap)
    ensures Cloned(heap, map[], [])
  {
  }
}
