// The B-tree walk (src/fs.rs): a visitor sees the items of a key range in
// order until it refuses one. The visitor's captured variables are threaded
// through as an accumulator.
//
// On a well-formed tree the pruned walk is the plain scan of the tree's items;
// on any node graph it ends and shows nothing outside the range.

module Walks {
  import opened Bytes
  import opened Disk
  import opened Volumes

  const MAX_DEPTH: nat := 8

  datatype Item = Item(key: Key, data: seq<byte>)

  /** What a visitor answers: go on, stop the walk, or fail it. */
  datatype Visit<+A> = Go(acc: A) | Stop(acc: A) | Fail(acc: A, error: Error)

  /** How a walk ended: past its last item, before it, or in an error. */
  datatype Outcome = More | Done | Failed(error: Error)

  datatype Walked<+A> = Walked(acc: A, out: Outcome)

  type Visitor<!A> = (A, Key, seq<byte>) -> Visit<A>

  // ----- The walk -----

  function WalkItems<A>(n: Node, i: nat, min: Key, max: Key, visit: Visitor<A>, acc: A): Walked<A>
    decreases NrItems(n) - i
  {
    if i >= NrItems(n) then Walked(acc, More) else
      match ItemAt(n, i)
      case Err(e) => Walked(acc, Failed(e))
      case Ok((key, data)) =>
        if key.Less(min) then WalkItems(n, i + 1, min, max, visit, acc)
        else if max.Less(key) then Walked(acc, Done)
        else
          match visit(acc, key, data)
          case Go(a) => WalkItems(n, i + 1, min, max, visit, a)
          case Stop(a) => Walked(a, Done)
          case Fail(a, e) => Walked(a, Failed(e))
  }

  function WalkNode<A>(v: Volume, logical: nat, min: Key, max: Key, visit: Visitor<A>, acc: A,
                       depth: nat, want: Option<nat>): Walked<A>
    decreases if depth > MAX_DEPTH then 0 else MAX_DEPTH + 1 - depth, 1, 0
  {
    if depth > MAX_DEPTH then Walked(acc, Failed(TooDeep)) else
      match NodeOf(v, logical)
      case Err(e) => Walked(acc, Failed(e))
      case Ok(n) =>
        if want.Some? && Level(n) != want.value then Walked(acc, Failed(WrongLevel))
        else if Level(n) == 0 then WalkItems(n, 0, min, max, visit, acc)
        else WalkPtrs(v, n, 0, min, max, visit, acc, depth)
  }

  function WalkPtrs<A>(v: Volume, n: Node, i: nat, min: Key, max: Key, visit: Visitor<A>, acc: A,
                       depth: nat): Walked<A>
    requires Level(n) > 0 && depth <= MAX_DEPTH
    decreases MAX_DEPTH + 1 - depth, 0, NrItems(n) - i
  {
    if i >= NrItems(n) then Walked(acc, More) else
      match PtrAt(n, i)
      case Err(e) => Walked(acc, Failed(e))
      case Ok((key, child)) =>
        if max.Less(key) then Walked(acc, Done)
        else if i + 1 < NrItems(n) && PtrAt(n, i + 1).Err? then
          Walked(acc, Failed(PtrAt(n, i + 1).error))
        else if i + 1 < NrItems(n) && PtrAt(n, i + 1).value.0.Leq(min) then
          WalkPtrs(v, n, i + 1, min, max, visit, acc, depth)
        else
          var w := WalkNode(v, child, min, max, visit, acc, depth + 1, Some(Level(n) - 1));
          if w.out.More? then WalkPtrs(v, n, i + 1, min, max, visit, w.acc, depth) else w
  }

  function Walk<A>(v: Volume, root: nat, min: Key, max: Key, visit: Visitor<A>, acc: A): Walked<A> {
    WalkNode(v, root, min, max, visit, acc, 0, None)
  }

  /** A block deeper than a tree can be, or of another level than its parent expects, is
      an error wherever it is met. */
  lemma MisplacedBlockFails<A>(v: Volume, logical: nat, min: Key, max: Key, visit: Visitor<A>, acc: A, depth: nat,
                               want: Option<nat>)
    ensures depth <= 8 && NodeOf(v, logical).Err? ==>
              WalkNode(v, logical, min, max, visit, acc, depth, want) == Walked(acc, Failed(NodeOf(v, logical).error))
    ensures depth > 8 || (NodeOf(v, logical).Ok? && want.Some? && Level(NodeOf(v, logical).value) != want.value) ==>
              WalkNode(v, logical, min, max, visit, acc, depth, want)
              == Walked(acc, Failed(if depth > 8 then TooDeep else WrongLevel))
  {
  }

  lemma FirstScanned<A>(it: Item, rest: seq<Item>, min: Key, max: Key, visit: Visitor<A>, acc: A)
    requires !max.Less(it.key)
    ensures var f := Fold(InRange([it] + rest, min, max), visit, acc);
            var r := visit(acc, it.key, it.data);
            && (it.key.Less(min) ==> f == Fold(InRange(rest, min, max), visit, acc))
            && (!it.key.Less(min) && r.Go? ==> f == Fold(InRange(rest, min, max), visit, r.acc))
            && (!it.key.Less(min) && !r.Go? ==> !f.out.More?)
  {
    var items := [it] + rest;
    assert items[1..] == rest;
    KeyOrder(min, it.key);
    KeyOrder(it.key, max);
    assert !it.key.Less(min) ==> InRange(items, min, max)[1..] == InRange(rest, min, max);
  }

  lemma FirstWalked<A>(n: Node, i: nat, min: Key, max: Key, visit: Visitor<A>, acc: A)
    requires i < NrItems(n) && ItemAt(n, i).Ok? && !max.Less(ItemAt(n, i).value.0)
    ensures var (key, data) := ItemAt(n, i).value;
            var w := WalkItems(n, i, min, max, visit, acc);
            var r := visit(acc, key, data);
            && (key.Less(min) ==> w == WalkItems(n, i + 1, min, max, visit, acc))
            && (!key.Less(min) && r.Go? ==> w == WalkItems(n, i + 1, min, max, visit, r.acc))
  {
    hide ItemAt;
    hide NrItems;
  }

  lemma LeafFirst(n: Node, i: nat)
    requires i < NrItems(n) && ItemAt(n, i).Ok?
    ensures LeafItems(n, i) == [Item(ItemAt(n, i).value.0, ItemAt(n, i).value.1)] + LeafItems(n, i + 1)
  {
    hide ItemAt;
    hide NrItems;
  }

  lemma BadItemHere<A>(n: Node, i: nat, min: Key, max: Key, visit: Visitor<A>, acc: A)
    requires i < NrItems(n) && ItemAt(n, i).Err?
    ensures LeafItems(n, i) == [] && Fold(InRange([], min, max), visit, acc).acc == acc
    ensures WalkItems(n, i, min, max, visit, acc) == Walked(acc, Failed(ItemAt(n, i).error))
  {
    hide ItemAt;
    hide NrItems;
  }

  /** A leaf in which an item cannot be read fails the walk there, if nothing ended it
      before: what was readable was shown, what lies behind is not passed over. */
  lemma {:induction false} BadItemFails<A>(n: Node, i: nat, min: Key, max: Key, visit: Visitor<A>, acc: A)
    requires var items := LeafItems(n, i);
             && i + |items| < NrItems(n)
             && (forall it :: it in items ==> !max.Less(it.key))
             && Fold(InRange(items, min, max), visit, acc).out.More?
    ensures var items := LeafItems(n, i);
            && ItemAt(n, i + |items|).Err?
            && WalkItems(n, i, min, max, visit, acc)
               == Walked(Fold(InRange(items, min, max), visit, acc).acc, Failed(ItemAt(n, i + |items|).error))
    decreases NrItems(n) - i
  {
    hide ItemAt;
    hide NrItems;
    hide Fold;
    hide InRange;
    hide LeafItems;
    hide WalkItems;
    if ItemAt(n, i).Err? {
      BadItemHere(n, i, min, max, visit, acc);
    } else {
      var (key, data) := ItemAt(n, i).value;
      var rest := LeafItems(n, i + 1);
      LeafFirst(n, i);
      assert ([Item(key, data)] + rest)[0] == Item(key, data) && forall it :: it in rest ==> it in LeafItems(n, i);
      FirstWalked(n, i, min, max, visit, acc);
      FirstScanned(Item(key, data), rest, min, max, visit, acc);
      if key.Less(min) {
        BadItemFails(n, i + 1, min, max, visit, acc);
      } else {
        BadItemFails(n, i + 1, min, max, visit, visit(acc, key, data).acc);
      }
    }
  }

  lemma KeyOrder(a: Key, b: Key)
    ensures a.Leq(b) <==> !b.Less(a)
  {
  }

  /** So does a pointer that cannot be read, and one whose right sibling cannot. */
  lemma BadPtrFails<A>(v: Volume, n: Node, i: nat, min: Key, max: Key, visit: Visitor<A>, acc: A, depth: nat)
    requires Level(n) > 0 && depth <= 8 && i < NrItems(n)
    ensures PtrAt(n, i).Err? ==>
              WalkPtrs(v, n, i, min, max, visit, acc, depth) == Walked(acc, Failed(PtrAt(n, i).error))
    ensures PtrAt(n, i).Ok? && !max.Less(PtrAt(n, i).value.0) && i + 1 < NrItems(n) && PtrAt(n, i + 1).Err? ==>
              WalkPtrs(v, n, i, min, max, visit, acc, depth) == Walked(acc, Failed(PtrAt(n, i + 1).error))
  {
    hide PtrAt;
    hide NrItems;
    hide Level;
  }

  // ----- Any node graph -----

  /** Whatever the blocks say, cyclic or corrupt, the visitor is only shown keys
      of the range: what one in-range visit keeps, the walk keeps, also when it
      fails. */
  lemma {:induction false} WalkKeeps<A(!new)>(v: Volume, logical: nat, min: Key, max: Key, visit: Visitor<A>, acc: A,
                                              depth: nat, want: Option<nat>, kept: A -> bool)
    requires kept(acc)
    requires forall a, k, d :: kept(a) && min.Leq(k) && k.Leq(max) ==> kept(visit(a, k, d).acc)
    ensures kept(WalkNode(v, logical, min, max, visit, acc, depth, want).acc)
    decreases if depth > MAX_DEPTH then 0 else MAX_DEPTH + 1 - depth, 1, 0
  {
    hide NrItems;
    hide NodeOf;
    hide Level;
    if depth <= MAX_DEPTH && NodeOf(v, logical).Ok? {
      var n := NodeOf(v, logical).value;
      if Level(n) == 0 {
        ItemsKeep(n, 0, min, max, visit, acc, kept);
      } else {
        PtrsKeep(v, n, 0, min, max, visit, acc, depth, kept);
      }
    }
  }

  lemma {:induction false} ItemsKeep<A(!new)>(n: Node, i: nat, min: Key, max: Key, visit: Visitor<A>, acc: A,
                                              kept: A -> bool)
    requires kept(acc)
    requires forall a, k, d :: kept(a) && min.Leq(k) && k.Leq(max) ==> kept(visit(a, k, d).acc)
    ensures kept(WalkItems(n, i, min, max, visit, acc).acc)
    decreases NrItems(n) - i
  {
    hide ItemAt;
    hide NrItems;
    if i < NrItems(n) && ItemAt(n, i).Ok? {
      var (key, data) := ItemAt(n, i).value;
      if key.Less(min) {
        ItemsKeep(n, i + 1, min, max, visit, acc, kept);
      } else if !max.Less(key) {
        var r := visit(acc, key, data);
        if r.Go? {
          ItemsKeep(n, i + 1, min, max, visit, r.acc, kept);
        }
      }
    }
  }

  lemma {:induction false} PtrsKeep<A(!new)>(v: Volume, n: Node, i: nat, min: Key, max: Key, visit: Visitor<A>, acc: A,
                                             depth: nat, kept: A -> bool)
    requires Level(n) > 0 && depth <= MAX_DEPTH
    requires kept(acc)
    requires forall a, k, d :: kept(a) && min.Leq(k) && k.Leq(max) ==> kept(visit(a, k, d).acc)
    ensures kept(WalkPtrs(v, n, i, min, max, visit, acc, depth).acc)
    decreases MAX_DEPTH + 1 - depth, 0, NrItems(n) - i
  {
    hide PtrAt;
    hide NrItems;
    hide NodeOf;
    hide Level;
    if i < NrItems(n) && PtrAt(n, i).Ok? {
      var child := PtrAt(n, i).value.1;
      var w := WalkNode(v, child, min, max, visit, acc, depth + 1, Some(Level(n) - 1));
      WalkKeeps(v, child, min, max, visit, acc, depth + 1, Some(Level(n) - 1), kept);
      PtrsKeep(v, n, i + 1, min, max, visit, w.acc, depth, kept);
      PtrsKeep(v, n, i + 1, min, max, visit, acc, depth, kept);
    }
  }

  // ----- Well-formed trees -----

  /** All keys of a subtree lie in [lo, hi). */
  ghost predicate Below(k: Key, hi: Option<Key>) {
    hi.Some? ==> k.Less(hi.value)
  }

  ghost predicate Between(items: seq<Item>, lo: Key, hi: Option<Key>) {
    forall it :: it in items ==> lo.Leq(it.key) && Below(it.key, hi)
  }

  ghost predicate AscendingItems(items: seq<Item>) {
    forall i, j :: 0 <= i < j < |items| ==> items[i].key.Less(items[j].key)
  }

  /** The items of a leaf from the i-th on, as far as they can be read. */
  ghost function LeafItems(n: Node, i: nat): seq<Item>
    decreases NrItems(n) - i
  {
    if i >= NrItems(n) || ItemAt(n, i).Err? then [] else
      var (key, data) := ItemAt(n, i).value;
      [Item(key, data)] + LeafItems(n, i + 1)
  }

  ghost predicate WellFormedLeaf(n: Node, lo: Key, hi: Option<Key>) {
    && (forall i :: 0 <= i < NrItems(n) ==> ItemAt(n, i).Ok?)
    && AscendingItems(LeafItems(n, 0))
    && Between(LeafItems(n, 0), lo, hi)
  }

  /** The upper bound of the i-th child: its right sibling's key. */
  ghost function UpperBound(n: Node, i: nat, hi: Option<Key>): Option<Key> {
    if i + 1 < NrItems(n) && PtrAt(n, i + 1).Ok? then Some(PtrAt(n, i + 1).value.0) else hi
  }

  /** A readable tree of the given level whose keys lie in [lo, hi): every child
      one level lower, with keys from its pointer's key up to the next one's. */
  ghost predicate WellFormed(v: Volume, logical: nat, level: nat, lo: Key, hi: Option<Key>)
    decreases level, 1, 0
  {
    && NodeOf(v, logical).Ok?
    && var n := NodeOf(v, logical).value;
       && Level(n) == level
       && if level == 0 then WellFormedLeaf(n, lo, hi) else WellFormedInner(v, n, level, lo, hi)
  }

  ghost predicate WellFormedInner(v: Volume, n: Node, level: nat, lo: Key, hi: Option<Key>)
    requires level > 0
    decreases level, 0, 1
  {
    forall i :: 0 <= i < NrItems(n) ==> WellFormedChild(v, n, i, level, lo, hi)
  }

  ghost predicate WellFormedChild(v: Volume, n: Node, i: nat, level: nat, lo: Key, hi: Option<Key>)
    requires level > 0
    decreases level, 0, 0
  {
    && PtrAt(n, i).Ok?
    && var (key, child) := PtrAt(n, i).value;
       && lo.Leq(key) && Below(key, hi)
       && (i + 1 < NrItems(n) && PtrAt(n, i + 1).Ok? ==> key.Less(PtrAt(n, i + 1).value.0))
       && WellFormed(v, child, level - 1, key, UpperBound(n, i, hi))
  }

  /** The items of a tree, left to right. */
  ghost function ItemsOf(v: Volume, logical: nat, level: nat): seq<Item>
    decreases level, 1, 0
  {
    if NodeOf(v, logical).Err? then [] else
      var n := NodeOf(v, logical).value;
      if level == 0 then LeafItems(n, 0) else ChildItems(v, n, 0, level)
  }

  ghost function ChildItems(v: Volume, n: Node, i: nat, level: nat): seq<Item>
    requires level > 0
    decreases level, 0, NrItems(n) - i
  {
    if i >= NrItems(n) || PtrAt(n, i).Err? then [] else
      ItemsOf(v, PtrAt(n, i).value.1, level - 1) + ChildItems(v, n, i + 1, level)
  }

  // ----- The plain scan -----

  /** The visitor shown every item in turn. */
  ghost function Fold<A>(items: seq<Item>, visit: Visitor<A>, acc: A): Walked<A> {
    if items == [] then Walked(acc, More) else
      match visit(acc, items[0].key, items[0].data)
      case Go(a) => Fold(items[1..], visit, a)
      case Stop(a) => Walked(a, Done)
      case Fail(a, e) => Walked(a, Failed(e))
  }

  ghost function InRange(items: seq<Item>, min: Key, max: Key): seq<Item> {
    if items == [] then []
    else if min.Leq(items[0].key) && items[0].key.Leq(max)
    then [items[0]] + InRange(items[1..], min, max)
    else InRange(items[1..], min, max)
  }

  lemma {:induction false} FoldConcat<A>(a: seq<Item>, b: seq<Item>, visit: Visitor<A>, acc: A)
    ensures Fold(a + b, visit, acc) ==
            var w := Fold(a, visit, acc);
            if w.out.More? then Fold(b, visit, w.acc) else w
  {
    if a == [] {
      assert a + b == b;
    } else {
      assert (a + b)[1..] == a[1..] + b;
      var r := visit(acc, a[0].key, a[0].data);
      if r.Go? {
        FoldConcat(a[1..], b, visit, r.acc);
      }
    }
  }

  lemma {:induction false} InRangeConcat(a: seq<Item>, b: seq<Item>, min: Key, max: Key)
    ensures InRange(a + b, min, max) == InRange(a, min, max) + InRange(b, min, max)
  {
    if a == [] {
      assert a + b == b;
    } else {
      assert (a + b)[1..] == a[1..] + b;
      InRangeConcat(a[1..], b, min, max);
    }
  }

  lemma {:induction false} NothingInRange(items: seq<Item>, min: Key, max: Key)
    requires forall it :: it in items ==> it.key.Less(min) || max.Less(it.key)
    ensures InRange(items, min, max) == []
  {
    if items != [] {
      assert items[0] in items;
      NothingInRange(items[1..], min, max);
    }
  }

  lemma AllAbove(items: seq<Item>, min: Key, max: Key)
    requires AscendingItems(items) && items != [] && max.Less(items[0].key)
    ensures InRange(items, min, max) == []
  {
    forall it | it in items
      ensures max.Less(it.key)
    {
      var j :| 0 <= j < |items| && items[j] == it;
      assert j == 0 || items[0].key.Less(items[j].key);
    }
    NothingInRange(items, min, max);
  }

  lemma {:induction false} InRangeMembers(items: seq<Item>, min: Key, max: Key)
    ensures forall it :: it in InRange(items, min, max) <==> it in items && min.Leq(it.key) && it.key.Leq(max)
  {
    if items != [] {
      InRangeMembers(items[1..], min, max);
      assert forall it :: it in items <==> it == items[0] || it in items[1..];
    }
  }

  lemma {:induction false} InRangeAscends(items: seq<Item>, min: Key, max: Key)
    requires AscendingItems(items)
    ensures AscendingItems(InRange(items, min, max))
  {
    if items != [] {
      InRangeAscends(items[1..], min, max);
      InRangeMembers(items[1..], min, max);
      var rest := InRange(items[1..], min, max);
      forall j | 0 <= j < |rest|
        ensures items[0].key.Less(rest[j].key)
      {
        assert rest[j] in items[1..];
      }
    }
  }

  // ----- Bounds and order of a tree's items -----

  lemma {:induction false} TreeItemsOrdered(v: Volume, logical: nat, level: nat, lo: Key, hi: Option<Key>)
    requires WellFormed(v, logical, level, lo, hi)
    ensures Between(ItemsOf(v, logical, level), lo, hi) && AscendingItems(ItemsOf(v, logical, level))
    decreases level, 1, 0
  {
    hide NrItems;
    hide NodeOf;
    hide Level;
    if level > 0 {
      var n := NodeOf(v, logical).value;
      ChildItemsOrdered(v, n, 0, level, lo, hi);
    }
  }

  lemma {:induction false} ChildItemsOrdered(v: Volume, n: Node, i: nat, level: nat, lo: Key, hi: Option<Key>)
    requires level > 0 && WellFormedInner(v, n, level, lo, hi)
    ensures var items := ChildItems(v, n, i, level);
            && Between(items, lo, hi) && AscendingItems(items)
            && (i < NrItems(n) && PtrAt(n, i).Ok? ==> Between(items, PtrAt(n, i).value.0, hi))
    decreases level, 0, NrItems(n) - i
  {
    hide PtrAt;
    hide NrItems;
    hide NodeOf;
    hide Level;
    if i < NrItems(n) {
      assert WellFormedChild(v, n, i, level, lo, hi);
      assert i + 1 < NrItems(n) ==> WellFormedChild(v, n, i + 1, level, lo, hi);
      var (key, child) := PtrAt(n, i).value;
      var a, b := ItemsOf(v, child, level - 1), ChildItems(v, n, i + 1, level);
      TreeItemsOrdered(v, child, level - 1, key, UpperBound(n, i, hi));
      ChildItemsOrdered(v, n, i + 1, level, lo, hi);
      if i + 1 < NrItems(n) {
        var next := PtrAt(n, i + 1).value.0;
        assert Between(a, key, Some(next)) && Between(b, next, hi) && Below(next, hi);
        ConcatOrdered(a, b, key, next, hi);
      } else {
        assert b == [] && a + b == a;
      }
    }
  }

  lemma ConcatOrdered(a: seq<Item>, b: seq<Item>, lo: Key, mid: Key, hi: Option<Key>)
    requires Between(a, lo, Some(mid)) && Between(b, mid, hi) && lo.Less(mid) && Below(mid, hi)
    requires AscendingItems(a) && AscendingItems(b)
    ensures Between(a + b, lo, hi) && AscendingItems(a + b)
  {
    var c := a + b;
    forall i, j | 0 <= i < j < |c|
      ensures c[i].key.Less(c[j].key)
    {
      if i < |a| <= j {
        assert c[i] in a && c[j] in b;
      }
    }
  }

  // ----- The walk is the scan -----

  /** A walk `w` agrees with the scan `f` of the same items in range: the same
      visits to the same effect; where the scan ran out of items the walk may
      have stopped early, but only because the next keys exceed `max`. */
  ghost predicate Agrees<A>(w: Walked<A>, f: Walked<A>, max: Key, hi: Option<Key>) {
    if f.out.More?
    then w.acc == f.acc && (w.out.More? || (w.out.Done? && Below(max, hi)))
    else w == f
  }

  lemma {:induction false} LeafIsScanned<A>(n: Node, i: nat, min: Key, max: Key, visit: Visitor<A>, acc: A,
                                            hi: Option<Key>)
    requires forall j :: i <= j < NrItems(n) ==> ItemAt(n, j).Ok?
    requires AscendingItems(LeafItems(n, i))
    requires forall it :: it in LeafItems(n, i) ==> Below(it.key, hi)
    ensures Agrees(WalkItems(n, i, min, max, visit, acc), Fold(InRange(LeafItems(n, i), min, max), visit, acc), max, hi)
    decreases NrItems(n) - i
  {
    hide ItemAt;
    hide NrItems;
    if i < NrItems(n) {
      var items := LeafItems(n, i);
      var (key, data) := ItemAt(n, i).value;
      assert items[0] == Item(key, data) && items[0] in items;
      assert items[1..] == LeafItems(n, i + 1);
      if key.Less(min) {
        LeafIsScanned(n, i + 1, min, max, visit, acc, hi);
      } else if max.Less(key) {
        AllAbove(items, min, max);
      } else {
        var r := visit(acc, key, data);
        assert InRange(items, min, max)[1..] == InRange(items[1..], min, max);
        if r.Go? {
          LeafIsScanned(n, i + 1, min, max, visit, r.acc, hi);
        }
      }
    }
  }

  /** On a well-formed tree of level at most 8 the visitor sees exactly the items
      with min <= key <= max, in key order, up to its first refusal. */
  lemma {:induction false} NodeIsScanned<A>(v: Volume, logical: nat, level: nat, lo: Key, hi: Option<Key>, min: Key,
                                            max: Key,
                                            visit: Visitor<A>, acc: A, depth: nat, want: Option<nat>)
    requires WellFormed(v, logical, level, lo, hi)
    requires depth + level <= MAX_DEPTH && (want.Some? ==> want.value == level)
    ensures Agrees(WalkNode(v, logical, min, max, visit, acc, depth, want),
                   Fold(InRange(ItemsOf(v, logical, level), min, max), visit, acc), max, hi)
    decreases level, 1, 0
  {
    hide NrItems;
    hide NodeOf;
    hide Level;
    var n := NodeOf(v, logical).value;
    if level == 0 {
      LeafIsScanned(n, 0, min, max, visit, acc, hi);
    } else {
      PtrsAreScanned(v, n, 0, level, lo, hi, min, max, visit, acc, depth);
    }
  }

  /** Walking one child, and then its right siblings unless the walk stopped. */
  lemma ChildThenRest<A>(a: seq<Item>, b: seq<Item>, min: Key, max: Key, visit: Visitor<A>, acc: A,
                         wa: Walked<A>, wb: Walked<A>, up: Option<Key>, hi: Option<Key>)
    requires Agrees(wa, Fold(InRange(a, min, max), visit, acc), max, up)
    requires wa.out.More? ==> Agrees(wb, Fold(InRange(b, min, max), visit, wa.acc), max, hi)
    requires (b == [] && up == hi) || (up.Some? && Between(b, up.value, hi) && Below(up.value, hi))
    ensures Agrees(if wa.out.More? then wb else wa, Fold(InRange(a + b, min, max), visit, acc), max, hi)
  {
    InRangeConcat(a, b, min, max);
    FoldConcat(InRange(a, min, max), InRange(b, min, max), visit, acc);
    if wa.out.Done? && Fold(InRange(a, min, max), visit, acc).out.More? {
      NothingInRange(b, min, max);
    }
  }

  lemma {:induction false} PtrsAreScanned<A>(v: Volume, n: Node, i: nat, level: nat, lo: Key, hi: Option<Key>,
                                             min: Key, max: Key,
                                             visit: Visitor<A>, acc: A, depth: nat)
    requires level > 0 && Level(n) == level && WellFormedInner(v, n, level, lo, hi)
    requires depth + level <= MAX_DEPTH
    ensures Agrees(WalkPtrs(v, n, i, min, max, visit, acc, depth),
                   Fold(InRange(ChildItems(v, n, i, level), min, max), visit, acc), max, hi)
    decreases level, 0, NrItems(n) - i
  {
    hide PtrAt;
    hide NrItems;
    hide NodeOf;
    hide Level;
    hide Agrees;
    if i >= NrItems(n) {
      NothingWalked(acc, max, hi);
      return;
    }
    assert WellFormedChild(v, n, i, level, lo, hi);
    assert i + 1 < NrItems(n) ==> WellFormedChild(v, n, i + 1, level, lo, hi);
    var (key, child) := PtrAt(n, i).value;
    var a, b := ItemsOf(v, child, level - 1), ChildItems(v, n, i + 1, level);
    var up := UpperBound(n, i, hi);
    ChildItemsOrdered(v, n, i, level, lo, hi);
    if max.Less(key) {
      StoppedBefore(a + b, key, min, max, visit, acc, hi);
      return;
    }
    if i + 1 < NrItems(n) && PtrAt(n, i + 1).value.0.Leq(min) {
      TreeItemsOrdered(v, child, level - 1, key, up);
      SkippedChild(a, b, min, max, up);
      PtrsAreScanned(v, n, i + 1, level, lo, hi, min, max, visit, acc, depth);
      return;
    }
    NodeIsScanned(v, child, level - 1, key, up, min, max, visit, acc, depth + 1, Some(level - 1));
    ChildItemsOrdered(v, n, i + 1, level, lo, hi);
    var wa := WalkNode(v, child, min, max, visit, acc, depth + 1, Some(level - 1));
    var wb := WalkPtrs(v, n, i + 1, min, max, visit, wa.acc, depth);
    PtrsAreScanned(v, n, i + 1, level, lo, hi, min, max, visit, wa.acc, depth);
    ChildThenRest(a, b, min, max, visit, acc, wa, wb, up, hi);
  }

  /** A child below the range adds nothing to it. */
  lemma SkippedChild(a: seq<Item>, b: seq<Item>, min: Key, max: Key, up: Option<Key>)
    requires up.Some? && up.value.Leq(min) && forall it :: it in a ==> Below(it.key, up)
    ensures InRange(a + b, min, max) == InRange(b, min, max)
  {
    NothingInRange(a, min, max);
    InRangeConcat(a, b, min, max);
    assert [] + InRange(b, min, max) == InRange(b, min, max);
  }

  lemma NothingWalked<A>(acc: A, max: Key, hi: Option<Key>)
    ensures Agrees(Walked(acc, More), Walked(acc, More), max, hi)
  {
  }

  lemma StoppedBefore<A>(items: seq<Item>, key: Key, min: Key, max: Key, visit: Visitor<A>, acc: A, hi: Option<Key>)
    requires Between(items, key, hi) && max.Less(key) && Below(key, hi)
    ensures Agrees(Walked(acc, Done), Fold(InRange(items, min, max), visit, acc), max, hi)
  {
    NothingInRange(items, min, max);
  }

  /** A tree the reader can walk from its root. */
  ghost predicate Tree(v: Volume, root: nat, level: nat) {
    level <= MAX_DEPTH && WellFormed(v, root, level, Key(0, 0, 0), None)
  }

  lemma WalkIsScan<A>(v: Volume, root: nat, level: nat, min: Key, max: Key, visit: Visitor<A>, acc: A)
    requires Tree(v, root, level)
    ensures var w := Walk(v, root, min, max, visit, acc);
            var f := Fold(InRange(ItemsOf(v, root, level), min, max), visit, acc);
            w.acc == f.acc && (w.out.Failed? || f.out.Failed? ==> w == f)
    ensures AscendingItems(ItemsOf(v, root, level))
  {
    NodeIsScanned(v, root, level, Key(0, 0, 0), None, min, max, visit, acc, 0, None);
    TreeItemsOrdered(v, root, level, Key(0, 0, 0), None);
  }

  // ----- Looking one key up -----

  function KeepFirst(acc: Option<seq<byte>>, k: Key, d: seq<byte>): Visit<Option<seq<byte>>> {
    Stop(Some(d))
  }

  function GetOf(v: Volume, root: nat, key: Key): Result<Option<seq<byte>>> {
    var w := Walk(v, root, key, key, KeepFirst, None);
    match w.out
    case Failed(e) => Err(e)
    case _ => Ok(w.acc)
  }

  /** On a well-formed tree `get` is the lookup of a map from keys to data. */
  lemma GetIsLookup(v: Volume, root: nat, level: nat, key: Key)
    requires Tree(v, root, level)
    ensures GetOf(v, root, key).Ok?
    ensures forall d :: GetOf(v, root, key) == Ok(Some(d)) <==> Item(key, d) in ItemsOf(v, root, level)
    ensures GetOf(v, root, key) == Ok(None) <==> forall it :: it in ItemsOf(v, root, level) ==> it.key != key
  {
    hide WellFormed;
    hide ItemsOf;
    hide WalkNode;
    var items := ItemsOf(v, root, level);
    var hits := InRange(items, key, key);
    WalkIsScan(v, root, level, key, key, KeepFirst, None);
    InRangeMembers(items, key, key);
    InRangeAscends(items, key, key);
    AtMostOne(hits, key);
  }

  lemma AtMostOne(hits: seq<Item>, key: Key)
    requires AscendingItems(hits) && forall it :: it in hits ==> it.key == key
    ensures |hits| <= 1
  {
    assert |hits| > 1 ==> hits[0] in hits && hits[1] in hits;
    assert |hits| > 1 ==> hits[0].key.Less(hits[1].key);
  }
}
