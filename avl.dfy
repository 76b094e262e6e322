/**
 * Value-level model of the station index of avl.h: an AVL search tree keyed
 * by station id. Every operation of avl.h has a function here; the pointer
 * version in AvlHeap is proved to compute exactly these functions.
 */
module Avl {

  /** The `Station` record of avl.h: its key, the capacity fixed at creation,
      the running consumption total and the node's stored height. */
  datatype Station = Station(id: int, capacity: int, consumption: int, height: nat)

  /** The line `inorder` writes for one node: id, capacity and consumption. */
  datatype Entry = Entry(id: int, capacity: int, consumption: int)

  /** A NULL pointer is `Leaf`; a `Node` is a `Branch`. */
  datatype Tree = Leaf | Branch(st: Station, left: Tree, right: Tree)

  function EntryOf(st: Station): Entry {
    Entry(st.id, st.capacity, st.consumption)
  }

  // ---------------------------------------------------------------------------
  // The operations of avl.h
  // ---------------------------------------------------------------------------

  /** `height`: 0 for the empty tree, otherwise the height stored in the node. */
  function Height(t: Tree): nat {
    if t.Leaf? then 0 else t.st.height
  }

  /** `max` */
  function Max(a: int, b: int): (m: int)
    ensures m >= a && m >= b
    ensures m == a || m == b
  {
    if a > b then a else b
  }

  /** `newNode`: a single node with consumption 0 and height 1. */
  function NewNode(id: int, capacity: int): (t: Tree)
    ensures Keys(t) == {id} && Search(t, id) == t
    ensures t.st.capacity == capacity && t.st.consumption == 0
    ensures Height(t) == 1 && IsAvl(t)
  {
    Branch(Station(id, capacity, 0, 1), Leaf, Leaf)
  }

  /** `rightRotate`: the left child x becomes the root; x's right subtree
      moves under the old root y. y's height is recomputed first, then x's.
      avl.h dereferences y->left, so it is only called when both exist; the
      other shapes are returned unchanged here. */
  function RotateRight(y: Tree): Tree {
    match y
    case Branch(ys, Branch(xs, a, b), c) =>
      var y' := Branch(ys.(height := Max(Height(b), Height(c)) + 1), b, c);
      Branch(xs.(height := Max(Height(a), Height(y')) + 1), a, y')
    case _ => y
  }

  /** `leftRotate`: the mirror image of `rightRotate`. */
  function RotateLeft(x: Tree): Tree {
    match x
    case Branch(xs, a, Branch(ys, b, c)) =>
      var x' := Branch(xs.(height := Max(Height(a), Height(b)) + 1), a, b);
      Branch(ys.(height := Max(Height(x'), Height(c)) + 1), x', c)
    case _ => x
  }

  /** `getBalance`: height of the left subtree minus height of the right one. */
  function GetBalance(t: Tree): int {
    if t.Leaf? then 0 else Height(t.left) - Height(t.right)
  }

  /** `insert`: add `id` with `capacity` unless it is already present. */
  function Insert(t: Tree, id: int, capacity: int): Tree {
    match t
    case Leaf => NewNode(id, capacity)
    case Branch(st, l, r) =>
      if id < st.id then Rebalance(Branch(st, Insert(l, id, capacity), r), id)
      else if id > st.id then Rebalance(Branch(st, l, Insert(r, id, capacity)), id)
      else t
  }

  /** The tail of `insert` after the recursive call: refresh the height of
      the node, then pick one of the four rotation cases from the balance
      factor and the position of `id` relative to the heavy child. */
  function Rebalance(t: Tree, id: int): Tree
    requires t.Branch?
  {
    var n := t.(st := t.st.(height := 1 + Max(Height(t.left), Height(t.right))));
    var balance := GetBalance(n);
    if balance > 1 && id < n.left.st.id then RotateRight(n)
    else if balance < -1 && id > n.right.st.id then RotateLeft(n)
    else if balance > 1 && id > n.left.st.id then RotateRight(n.(left := RotateLeft(n.left)))
    else if balance < -1 && id < n.right.st.id then RotateLeft(n.(right := RotateRight(n.right)))
    else n
  }

  /** `search`: BST descent; `Leaf` plays the NULL result. */
  function Search(t: Tree, id: int): Tree {
    match t
    case Leaf => Leaf
    case Branch(st, l, r) =>
      if st.id == id then t
      else if id < st.id then Search(l, id)
      else Search(r, id)
  }

  /** `inorder`: left subtree, the node, right subtree. */
  function Inorder(t: Tree): seq<Entry> {
    match t
    case Leaf => []
    case Branch(st, l, r) => Inorder(l) + [EntryOf(st)] + Inorder(r)
  }

  // ---------------------------------------------------------------------------
  // Abstractions and invariants
  // ---------------------------------------------------------------------------

  function Keys(t: Tree): set<int> {
    match t
    case Leaf => {}
    case Branch(st, l, r) => Keys(l) + {st.id} + Keys(r)
  }

  function Size(t: Tree): nat {
    match t
    case Leaf => 0
    case Branch(_, l, r) => Size(l) + 1 + Size(r)
  }

  /** The real height: the number of nodes on a longest path from the root. */
  function Depth(t: Tree): nat {
    match t
    case Leaf => 0
    case Branch(_, l, r) => 1 + Max(Depth(l), Depth(r))
  }

  /** BST property: smaller ids to the left, larger ids to the right. */
  ghost predicate Ordered(t: Tree) {
    match t
    case Leaf => true
    case Branch(st, l, r) =>
      && Ordered(l) && Ordered(r)
      && (forall k :: k in Keys(l) ==> k < st.id)
      && (forall k :: k in Keys(r) ==> st.id < k)
  }

  /** Every stored height is 1 + the larger stored height of the children. */
  ghost predicate HeightsOk(t: Tree) {
    match t
    case Leaf => true
    case Branch(st, l, r) =>
      HeightsOk(l) && HeightsOk(r) && st.height == 1 + Max(Height(l), Height(r))
  }

  /** AVL balance: at every node the balance factor is -1, 0 or 1. */
  ghost predicate Balanced(t: Tree) {
    match t
    case Leaf => true
    case Branch(_, l, r) =>
      Balanced(l) && Balanced(r) && -1 <= Height(l) - Height(r) <= 1
  }

  ghost predicate IsAvl(t: Tree) {
    Ordered(t) && HeightsOk(t) && Balanced(t)
  }

  /** Ids of a sequence of lines strictly increase. */
  ghost predicate Ascending(s: seq<Entry>) {
    forall i, j :: 0 <= i < j < |s| ==> s[i].id < s[j].id
  }

  function IdSet(s: seq<Entry>): set<int> {
    set e | e in s :: e.id
  }

  /** The table a sequence of lines describes; a later line for the same id
      overrides an earlier one. */
  function Table(s: seq<Entry>): map<int, Entry>
    decreases |s|
  {
    if s == [] then map[]
    else Table(s[..|s| - 1])[s[|s| - 1].id := s[|s| - 1]]
  }

  /** The station table the tree stores: id to (id, capacity, consumption). */
  function Entries(t: Tree): map<int, Entry> {
    Table(Inorder(t))
  }

  // ---------------------------------------------------------------------------
  // Heights
  // ---------------------------------------------------------------------------

  /** In a tree whose heights are not stale, `height` is the real height. */
  lemma {:induction false} HeightIsDepth(t: Tree)
    requires HeightsOk(t)
    ensures Height(t) == Depth(t)
    ensures t.Branch? ==> Height(t) == 1 + Max(Height(t.left), Height(t.right))
  {
    if t.Branch? {
      HeightIsDepth(t.left);
      HeightIsDepth(t.right);
    }
  }

  // ---------------------------------------------------------------------------
  // Lines, tables and the in-order traversal
  // ---------------------------------------------------------------------------

  lemma {:induction false} TableAppend(s1: seq<Entry>, s2: seq<Entry>)
    ensures Table(s1 + s2) == Table(s1) + Table(s2)
    decreases |s2|
  {
    if s2 == [] {
      assert s1 + s2 == s1;
    } else {
      var s := s1 + s2;
      var last := s2[|s2| - 1];
      var init := s2[..|s2| - 1];
      assert s[..|s| - 1] == s1 + init;
      assert s[|s| - 1] == last;
      TableAppend(s1, init);
      assert Table(s) == (Table(s1) + Table(init))[last.id := last];
      assert Table(s2) == Table(init)[last.id := last];
    }
  }

  lemma {:induction false} TableKeys(s: seq<Entry>)
    ensures Table(s).Keys == IdSet(s)
    ensures forall k :: k in Table(s) ==> Table(s)[k].id == k
    decreases |s|
  {
    if s != [] {
      var init := s[..|s| - 1];
      TableKeys(init);
      assert s == init + [s[|s| - 1]];
      assert IdSet(s) == IdSet(init) + {s[|s| - 1].id};
    }
  }

  /** The table of a node is the left table, the node's line, the right table. */
  lemma EntriesBranch(st: Station, l: Tree, r: Tree)
    ensures Entries(Branch(st, l, r)) == Entries(l) + map[st.id := EntryOf(st)] + Entries(r)
  {
    TableAppend(Inorder(l) + [EntryOf(st)], Inorder(r));
    TableAppend(Inorder(l), [EntryOf(st)]);
    assert Table([EntryOf(st)]) == map[st.id := EntryOf(st)] by {
      assert [EntryOf(st)][..0] == [];
    }
  }

  lemma IdSetConcat(a: seq<Entry>, e: Entry, b: seq<Entry>)
    ensures IdSet(a + [e] + b) == IdSet(a) + {e.id} + IdSet(b)
  {
    var s := a + [e] + b;
    forall k | k in IdSet(s) ensures k in IdSet(a) + {e.id} + IdSet(b) {
      var x :| x in s && x.id == k;
      assert x in a || x == e || x in b;
    }
    forall k | k in IdSet(a) + {e.id} + IdSet(b) ensures k in IdSet(s) {
      if k in IdSet(a) {
        var x :| x in a && x.id == k;
        assert x in s;
      } else if k in IdSet(b) {
        var x :| x in b && x.id == k;
        assert x in s;
      } else {
        assert e in s;
      }
    }
  }

  /** `inorder` visits every node once: one line per node, and its ids are the keys. */
  lemma {:induction false} InorderVisitsAll(t: Tree)
    ensures |Inorder(t)| == Size(t)
    ensures IdSet(Inorder(t)) == Keys(t)
    ensures Entries(t).Keys == Keys(t)
  {
    if t.Branch? {
      InorderVisitsAll(t.left);
      InorderVisitsAll(t.right);
      IdSetConcat(Inorder(t.left), EntryOf(t.st), Inorder(t.right));
    }
    TableKeys(Inorder(t));
  }

  /** A sequence of lines with ascending ids lists its table: one line per
      station. */
  lemma {:induction false} AscendingTableSize(s: seq<Entry>)
    requires Ascending(s)
    ensures |Table(s)| == |s|
    decreases |s|
  {
    if s != [] {
      var init, last := s[..|s| - 1], s[|s| - 1];
      assert Ascending(init);
      AscendingTableSize(init);
      TableKeys(init);
      assert last.id !in IdSet(init);
    }
  }

  /** On a BST, `inorder` lists the table: ascending ids, one line per
      station, and the lines are exactly the table's entries. */
  lemma InorderListsEntries(t: Tree)
    requires Ordered(t)
    ensures Ascending(Inorder(t)) && Table(Inorder(t)) == Entries(t)
    ensures IdSet(Inorder(t)) == Entries(t).Keys && |Inorder(t)| == |Entries(t)|
  {
    OrderedIffAscending(t);
    InorderVisitsAll(t);
    AscendingTableSize(Inorder(t));
  }

  lemma AscendingSplit(a: seq<Entry>, e: Entry, b: seq<Entry>)
    requires Ascending(a + [e] + b)
    ensures Ascending(a) && Ascending(b)
    ensures forall k :: k in IdSet(a) ==> k < e.id
    ensures forall k :: k in IdSet(b) ==> e.id < k
  {
    var s := a + [e] + b;
    forall k | k in IdSet(a) ensures k < e.id {
      var i :| 0 <= i < |a| && a[i].id == k;
      assert s[i] == a[i] && s[|a|] == e;
    }
    forall k | k in IdSet(b) ensures e.id < k {
      var i :| 0 <= i < |b| && b[i].id == k;
      assert s[|a| + 1 + i] == b[i] && s[|a|] == e;
    }
    forall i, j | 0 <= i < j < |a| ensures a[i].id < a[j].id {
      assert s[i] == a[i] && s[j] == a[j];
    }
    forall i, j | 0 <= i < j < |b| ensures b[i].id < b[j].id {
      assert s[|a| + 1 + i] == b[i] && s[|a| + 1 + j] == b[j];
    }
  }

  lemma AscendingJoin(a: seq<Entry>, e: Entry, b: seq<Entry>)
    requires Ascending(a) && Ascending(b)
    requires forall k :: k in IdSet(a) ==> k < e.id
    requires forall k :: k in IdSet(b) ==> e.id < k
    ensures Ascending(a + [e] + b)
  {
    var s := a + [e] + b;
    forall i, j | 0 <= i < j < |s| ensures s[i].id < s[j].id {
      if j < |a| {
        assert s[i] == a[i] && s[j] == a[j];
      } else if i < |a| {
        assert s[i] == a[i] && a[i].id in IdSet(a);
        if j > |a| {
          assert s[j] == b[j - |a| - 1] && b[j - |a| - 1].id in IdSet(b);
        }
      } else if i == |a| {
        assert s[j] == b[j - |a| - 1] && b[j - |a| - 1].id in IdSet(b);
      } else {
        assert s[i] == b[i - |a| - 1] && s[j] == b[j - |a| - 1];
      }
    }
  }

  /** A tree is a BST exactly when `inorder` lists its ids in strictly
      ascending order. */
  lemma {:induction false} OrderedIffAscending(t: Tree)
    ensures Ordered(t) <==> Ascending(Inorder(t))
  {
    if t.Branch? {
      OrderedIffAscending(t.left);
      OrderedIffAscending(t.right);
      InorderVisitsAll(t.left);
      InorderVisitsAll(t.right);
      var a, e, b := Inorder(t.left), EntryOf(t.st), Inorder(t.right);
      if Ordered(t) {
        AscendingJoin(a, e, b);
      }
      if Ascending(a + [e] + b) {
        AscendingSplit(a, e, b);
      }
    }
  }

  // ---------------------------------------------------------------------------
  // Rotations
  // ---------------------------------------------------------------------------

  /** Both ways of grouping five pieces of an in-order listing agree. */
  lemma Regroup(a: seq<Entry>, x: Entry, b: seq<Entry>, y: Entry, c: seq<Entry>)
    ensures a + [x] + b + [y] + c == a + [x] + (b + [y] + c)
  {
  }

  /** `rightRotate` only relinks nodes: the in-order lines (keys, capacities,
      consumptions) are unchanged, so the BST property survives; when the
      three moved subtrees have correct heights, so does the result. */
  lemma RotateRightSpec(t: Tree)
    ensures Inorder(RotateRight(t)) == Inorder(t)
    ensures Keys(RotateRight(t)) == Keys(t) && Entries(RotateRight(t)) == Entries(t)
    ensures Ordered(t) ==> Ordered(RotateRight(t))
    ensures t.Branch? && t.left.Branch? &&
            HeightsOk(t.left.left) && HeightsOk(t.left.right) && HeightsOk(t.right) ==>
            HeightsOk(RotateRight(t))
  {
    RotateRightInorder(t);
    SameInorder(t, RotateRight(t));
  }

  lemma RotateRightInorder(t: Tree)
    ensures Inorder(RotateRight(t)) == Inorder(t)
  {
    match t
    case Branch(ys, Branch(xs, a, b), c) =>
      Regroup(Inorder(a), EntryOf(xs), Inorder(b), EntryOf(ys), Inorder(c));
    case _ =>
  }

  /** `leftRotate`, the mirror image of RotateRightSpec. */
  lemma RotateLeftSpec(t: Tree)
    ensures Inorder(RotateLeft(t)) == Inorder(t)
    ensures Keys(RotateLeft(t)) == Keys(t) && Entries(RotateLeft(t)) == Entries(t)
    ensures Ordered(t) ==> Ordered(RotateLeft(t))
    ensures t.Branch? && t.right.Branch? &&
            HeightsOk(t.right.left) && HeightsOk(t.right.right) && HeightsOk(t.left) ==>
            HeightsOk(RotateLeft(t))
  {
    RotateLeftInorder(t);
    SameInorder(t, RotateLeft(t));
  }

  lemma RotateLeftInorder(t: Tree)
    ensures Inorder(RotateLeft(t)) == Inorder(t)
  {
    match t
    case Branch(xs, a, Branch(ys, b, c)) =>
      Regroup(Inorder(a), EntryOf(xs), Inorder(b), EntryOf(ys), Inorder(c));
    case _ =>
  }

  /** Two trees with the same in-order lines have the same keys and table,
      and one is a BST exactly when the other is. */
  lemma SameInorder(t1: Tree, t2: Tree)
    requires Inorder(t1) == Inorder(t2)
    ensures Keys(t1) == Keys(t2) && Entries(t1) == Entries(t2)
    ensures Ordered(t1) <==> Ordered(t2)
  {
    InorderVisitsAll(t1);
    InorderVisitsAll(t2);
    OrderedIffAscending(t1);
    OrderedIffAscending(t2);
  }

  /** Refreshing a height and rotating never changes the in-order lines. */
  lemma RebalanceInorder(t: Tree, id: int)
    requires t.Branch?
    ensures Inorder(Rebalance(t, id)) == Inorder(t)
    ensures Keys(Rebalance(t, id)) == Keys(t) && Entries(Rebalance(t, id)) == Entries(t)
    ensures Ordered(t) ==> Ordered(Rebalance(t, id))
  {
    RebalanceKeepsInorder(t, id);
    SameInorder(t, Rebalance(t, id));
  }

  lemma RebalanceKeepsInorder(t: Tree, id: int)
    requires t.Branch?
    ensures Inorder(Rebalance(t, id)) == Inorder(t)
  {
    var n := t.(st := t.st.(height := 1 + Max(Height(t.left), Height(t.right))));
    var nl := n.(left := RotateLeft(n.left));
    var nr := n.(right := RotateRight(n.right));
    RotateLeftInorder(n.left);
    RotateRightInorder(n.right);
    assert Inorder(n) == Inorder(nl) == Inorder(nr) == Inorder(t);
    RotateRightInorder(n);
    RotateLeftInorder(n);
    RotateRightInorder(nl);
    RotateLeftInorder(nr);
    assert Rebalance(t, id) in {RotateRight(n), RotateLeft(n), RotateRight(nl), RotateLeft(nr), n};
  }

  // ---------------------------------------------------------------------------
  // search
  // ---------------------------------------------------------------------------

  /** On a BST, `search` finds a node exactly when the id is a key, and the
      node it finds carries that id and the line the table holds for it. */
  lemma {:induction false} SearchFinds(t: Tree, id: int)
    requires Ordered(t)
    ensures Search(t, id).Branch? <==> id in Keys(t)
    ensures Search(t, id).Branch? ==>
      && Search(t, id).st.id == id
      && id in Entries(t) && Entries(t)[id] == EntryOf(Search(t, id).st)
  {
    if t.Branch? {
      InorderVisitsAll(t.left);
      InorderVisitsAll(t.right);
      EntriesBranch(t.st, t.left, t.right);
      if id < t.st.id {
        SearchFinds(t.left, id);
      } else if id > t.st.id {
        SearchFinds(t.right, id);
      }
    }
  }

  // ---------------------------------------------------------------------------
  // insert: keys, order and stored stations
  // ---------------------------------------------------------------------------

  /** `insert` of a present id leaves the in-order lines as they were: the
      capacity and consumption of that station are not overwritten. */
  lemma {:induction false} InsertPresentInorder(t: Tree, id: int, capacity: int)
    requires Ordered(t) && id in Keys(t)
    ensures Inorder(Insert(t, id, capacity)) == Inorder(t)
  {
    var st, l, r := t.st, t.left, t.right;
    if id < st.id {
      InsertPresentInorder(l, id, capacity);
      RebalanceInorder(Branch(st, Insert(l, id, capacity), r), id);
    } else if id > st.id {
      InsertPresentInorder(r, id, capacity);
      RebalanceInorder(Branch(st, l, Insert(r, id, capacity)), id);
    }
  }

  /** A node with correct heights and balance is left as it is by Rebalance. */
  lemma RebalanceStable(t: Tree, id: int)
    requires t.Branch? && HeightsOk(t) && Balanced(t)
    ensures Rebalance(t, id) == t
  {
  }

  /** On an AVL tree, `insert` of a present id returns the very same tree:
      the heights refreshed on the way up are already correct and no
      rotation fires. */
  lemma {:induction false} InsertPresent(t: Tree, id: int, capacity: int)
    requires IsAvl(t) && id in Keys(t)
    ensures Insert(t, id, capacity) == t
  {
    var st, l, r := t.st, t.left, t.right;
    if id < st.id {
      InsertPresent(l, id, capacity);
      RebalanceStable(t, id);
    } else if id > st.id {
      InsertPresent(r, id, capacity);
      RebalanceStable(t, id);
    }
  }

  /** `insert` keeps a BST a BST and adds exactly `id` to its keys. */
  lemma {:induction false} InsertOrdered(t: Tree, id: int, capacity: int)
    requires Ordered(t)
    ensures Ordered(Insert(t, id, capacity))
    ensures Keys(Insert(t, id, capacity)) == Keys(t) + {id}
  {
    if t.Branch? {
      var st, l, r := t.st, t.left, t.right;
      if id < st.id {
        var l' := Insert(l, id, capacity);
        InsertOrdered(l, id, capacity);
        OrderedGrow(st, l, r, l', r, id);
        RebalanceInorder(Branch(st, l', r), id);
        assert Insert(t, id, capacity) == Rebalance(Branch(st, l', r), id);
      } else if id > st.id {
        var r' := Insert(r, id, capacity);
        InsertOrdered(r, id, capacity);
        OrderedGrow(st, l, r, l, r', id);
        RebalanceInorder(Branch(st, l, r'), id);
        assert Insert(t, id, capacity) == Rebalance(Branch(st, l, r'), id);
      }
    }
  }

  /** A BST node one of whose children gains the key `id`, on the side
      where `id` belongs, is still a BST. */
  lemma OrderedGrow(st: Station, l: Tree, r: Tree, l': Tree, r': Tree, id: int)
    requires Ordered(Branch(st, l, r)) && Ordered(l') && Ordered(r')
    requires (id < st.id && Keys(l') == Keys(l) + {id} && r' == r) ||
             (id > st.id && Keys(r') == Keys(r) + {id} && l' == l)
    ensures Ordered(Branch(st, l', r'))
    ensures Keys(Branch(st, l', r')) == Keys(Branch(st, l, r)) + {id}
  {
  }

  /** On a BST, `insert` adds the line (id, capacity, 0) when id is new and
      changes nothing otherwise: every station already present keeps its
      capacity and consumption. */
  lemma {:induction false} InsertEntries(t: Tree, id: int, capacity: int)
    requires Ordered(t)
    ensures Entries(Insert(t, id, capacity)) ==
      if id in Keys(t) then Entries(t) else Entries(t)[id := Entry(id, capacity, 0)]
  {
    if id in Keys(t) {
      InsertPresentInorder(t, id, capacity);
      SameInorder(t, Insert(t, id, capacity));
    } else if t.Leaf? {
      assert Inorder(Insert(t, id, capacity)) == [Entry(id, capacity, 0)];
      assert [Entry(id, capacity, 0)][..0] == [];
    } else {
      var st, l, r := t.st, t.left, t.right;
      if id < st.id {
        var l' := Insert(l, id, capacity);
        InsertEntries(l, id, capacity);
        RebalanceInorder(Branch(st, l', r), id);
        BranchUpdate(st, l, r, l', r, id, Entry(id, capacity, 0));
      } else {
        var r' := Insert(r, id, capacity);
        InsertEntries(r, id, capacity);
        RebalanceInorder(Branch(st, l, r'), id);
        BranchUpdate(st, l, r, l, r', id, Entry(id, capacity, 0));
      }
    }
  }

  /** Updating the table of one child at a key that is in neither the node
      nor the other child updates the node's table at that key. */
  lemma BranchUpdate(st: Station, l: Tree, r: Tree, l': Tree, r': Tree, k: int, v: Entry)
    requires k != st.id
    requires (Entries(l') == Entries(l)[k := v] && r' == r && k !in Keys(r)) ||
             (Entries(r') == Entries(r)[k := v] && l' == l)
    ensures Entries(Branch(st, l', r')) == Entries(Branch(st, l, r))[k := v]
  {
    InorderVisitsAll(r);
    EntriesBranch(st, l, r);
    EntriesBranch(st, l', r');
    var m := map[st.id := EntryOf(st)];
    if r' == r && k !in Keys(r) && Entries(l') == Entries(l)[k := v] {
      UpdateUnionLeft(Entries(l), m, k, v);
      UpdateUnionLeft(Entries(l) + m, Entries(r), k, v);
    } else {
      UpdateUnionRight(Entries(l) + m, Entries(r), k, v);
    }
  }

  lemma UpdateUnionLeft(a: map<int, Entry>, b: map<int, Entry>, k: int, v: Entry)
    requires k !in b
    ensures a[k := v] + b == (a + b)[k := v]
  {
  }

  lemma UpdateUnionRight(a: map<int, Entry>, b: map<int, Entry>, k: int, v: Entry)
    ensures a + b[k := v] == (a + b)[k := v]
  {
  }

  // ---------------------------------------------------------------------------
  // insert: balance and heights
  // ---------------------------------------------------------------------------

  /** How an insertion of `id` may change the height of `t` into `r`: by at
      most one, and when it grows, the root stays and the side `id` went
      into is taller than the other side by exactly one. */
  ghost predicate GrowsAtMostOne(t: Tree, r: Tree, id: int) {
    && r.Branch?
    && (Height(r) == Height(t) || Height(r) == Height(t) + 1)
    && (t.Branch? && Height(r) == Height(t) + 1 ==>
          && id != t.st.id && r.st.id == t.st.id
          && (id < t.st.id ==> Height(r.left) == Height(r) - 1 && Height(r.right) + 2 == Height(r))
          && (id > t.st.id ==> Height(r.right) == Height(r) - 1 && Height(r.left) + 2 == Height(r)))
  }

  /** Every child and grandchild `rebalance` dereferences on the way to
      its rotation exists: the C code follows these pointers unchecked. */
  ghost predicate RebalanceSafe(t: Tree, id: int) {
    && t.Branch?
    && var b := Height(t.left) - Height(t.right);
       && (b > 1 ==> t.left.Branch? && (id > t.left.st.id ==> t.left.right.Branch?))
       && (b < -1 ==> t.right.Branch? && (id < t.right.st.id ==> t.right.left.Branch?))
  }

  /** One upward step of `insert` after the left child grew from l to l2:
      the refreshed and possibly rotated node is balanced again. */
  lemma RebalanceLeft(st: Station, l: Tree, l2: Tree, r: Tree, id: int)
    requires id < st.id
    requires HeightsOk(Branch(st, l, r)) && Balanced(Branch(st, l, r))
    requires HeightsOk(l2) && Balanced(l2) && GrowsAtMostOne(l, l2, id)
    ensures HeightsOk(Rebalance(Branch(st, l2, r), id))
    ensures Balanced(Rebalance(Branch(st, l2, r), id))
    ensures GrowsAtMostOne(Branch(st, l, r), Rebalance(Branch(st, l2, r), id), id)
    ensures RebalanceSafe(Branch(st, l2, r), id)
  {
    var hr := Height(r);
    var n := Branch(st.(height := 1 + Max(Height(l2), hr)), l2, r);
    if Height(l2) == hr + 2 {
      assert l.Branch?;
      var a, b := l2.left, l2.right;
      if id < l.st.id {
        assert Rebalance(Branch(st, l2, r), id) == RotateRight(n);
        assert Height(a) == hr + 1 && Height(b) == hr;
      } else {
        assert Rebalance(Branch(st, l2, r), id) == RotateRight(n.(left := RotateLeft(l2)));
        assert Height(a) == hr && Height(b) == hr + 1;
        assert b.Branch?;
      }
    } else {
      assert Rebalance(Branch(st, l2, r), id) == n;
    }
  }

  /** The mirror image of RebalanceLeft, after the right child grew. */
  lemma RebalanceRight(st: Station, l: Tree, r: Tree, r2: Tree, id: int)
    requires id > st.id
    requires HeightsOk(Branch(st, l, r)) && Balanced(Branch(st, l, r))
    requires HeightsOk(r2) && Balanced(r2) && GrowsAtMostOne(r, r2, id)
    ensures HeightsOk(Rebalance(Branch(st, l, r2), id))
    ensures Balanced(Rebalance(Branch(st, l, r2), id))
    ensures GrowsAtMostOne(Branch(st, l, r), Rebalance(Branch(st, l, r2), id), id)
    ensures RebalanceSafe(Branch(st, l, r2), id)
  {
    var hl := Height(l);
    var n := Branch(st.(height := 1 + Max(hl, Height(r2))), l, r2);
    if Height(r2) == hl + 2 {
      assert r.Branch?;
      var b, c := r2.left, r2.right;
      if id > r.st.id {
        assert Rebalance(Branch(st, l, r2), id) == RotateLeft(n);
        assert Height(c) == hl + 1 && Height(b) == hl;
      } else {
        assert Rebalance(Branch(st, l, r2), id) == RotateLeft(n.(right := RotateRight(r2)));
        assert Height(c) == hl && Height(b) == hl + 1;
        assert b.Branch?;
      }
    } else {
      assert Rebalance(Branch(st, l, r2), id) == n;
    }
  }

  /** `insert` keeps an AVL tree balanced with correct, non-stale heights,
      and the height grows by at most one. */
  lemma {:induction false} InsertBalanced(t: Tree, id: int, capacity: int)
    requires HeightsOk(t) && Balanced(t)
    ensures HeightsOk(Insert(t, id, capacity)) && Balanced(Insert(t, id, capacity))
    ensures GrowsAtMostOne(t, Insert(t, id, capacity), id)
  {
    if t.Branch? {
      var st, l, r := t.st, t.left, t.right;
      if id < st.id {
        InsertBalanced(l, id, capacity);
        RebalanceLeft(st, l, Insert(l, id, capacity), r, id);
      } else if id > st.id {
        InsertBalanced(r, id, capacity);
        RebalanceRight(st, l, r, Insert(r, id, capacity), id);
      }
    }
  }

  /** After the recursive call of `insert` on a balanced tree with correct
      heights, every pointer the rotation step follows is non-NULL. */
  lemma InsertRebalanceSafe(t: Tree, id: int, capacity: int)
    requires t.Branch? && HeightsOk(t) && Balanced(t)
    ensures id < t.st.id ==> RebalanceSafe(Branch(t.st, Insert(t.left, id, capacity), t.right), id)
    ensures id > t.st.id ==> RebalanceSafe(Branch(t.st, t.left, Insert(t.right, id, capacity)), id)
  {
    if id < t.st.id {
      InsertBalanced(t.left, id, capacity);
      RebalanceLeft(t.st, t.left, Insert(t.left, id, capacity), t.right, id);
    } else if id > t.st.id {
      InsertBalanced(t.right, id, capacity);
      RebalanceRight(t.st, t.left, t.right, Insert(t.right, id, capacity), id);
    }
  }

  /** `insert` maps AVL trees to AVL trees. */
  lemma InsertIsAvl(t: Tree, id: int, capacity: int)
    requires IsAvl(t)
    ensures IsAvl(Insert(t, id, capacity))
    ensures Keys(Insert(t, id, capacity)) == Keys(t) + {id}
    ensures Height(Insert(t, id, capacity)) in {Height(t), Height(t) + 1}
  {
    InsertOrdered(t, id, capacity);
    InsertBalanced(t, id, capacity);
  }

  // ---------------------------------------------------------------------------
  // The consumption update of main.c
  // ---------------------------------------------------------------------------

  /** The tree after `existingNode->station.consumption += load` (main.c) on
      the node `search` finds for `id`; nothing changes when there is none. */
  function AddLoad(t: Tree, id: int, load: int): Tree {
    match t
    case Leaf => Leaf
    case Branch(st, l, r) =>
      if st.id == id then Branch(st.(consumption := st.consumption + load), l, r)
      else if id < st.id then Branch(st, AddLoad(l, id, load), r)
      else Branch(st, l, AddLoad(r, id, load))
  }

  /** The write touches no key, no height and no link, so an AVL tree stays
      an AVL tree. */
  lemma {:induction false} AddLoadShape(t: Tree, id: int, load: int)
    ensures Keys(AddLoad(t, id, load)) == Keys(t)
    ensures Height(AddLoad(t, id, load)) == Height(t)
    ensures IsAvl(t) ==> IsAvl(AddLoad(t, id, load))
  {
    if t.Branch? {
      AddLoadShape(t.left, id, load);
      AddLoadShape(t.right, id, load);
    }
  }

  /** On a BST the write adds `load` to the consumption of the line for `id`
      and leaves every other line, and every capacity, as it was. */
  lemma {:induction false} AddLoadEntries(t: Tree, id: int, load: int)
    requires Ordered(t)
    ensures Entries(AddLoad(t, id, load)) ==
      if id in Entries(t) then Credit(Entries(t), id, load) else Entries(t)
  {
    InorderVisitsAll(t);
    if t.Branch? {
      var st, l, r := t.st, t.left, t.right;
      if st.id == id {
        AddLoadHere(st, l, r, load);
      } else if id < st.id {
        AddLoadEntries(l, id, load);
        AddLoadBelow(st, l, r, AddLoad(l, id, load), r, id, load);
      } else {
        AddLoadEntries(r, id, load);
        AddLoadBelow(st, l, r, l, AddLoad(r, id, load), id, load);
      }
    }
  }

  /** The line for `id` with `load` added to its consumption. */
  function Credit(m: map<int, Entry>, id: int, load: int): (m': map<int, Entry>)
    requires id in m
    ensures m'.Keys == m.Keys && m'[id].consumption == m[id].consumption + load
    ensures m'[id].id == m[id].id && m'[id].capacity == m[id].capacity
    ensures forall k :: k in m && k != id ==> m'[k] == m[k]
  {
    m[id := m[id].(consumption := m[id].consumption + load)]
  }

  lemma AddLoadHere(st: Station, l: Tree, r: Tree, load: int)
    requires Ordered(Branch(st, l, r))
    ensures st.id in Entries(Branch(st, l, r))
    ensures Entries(Branch(st.(consumption := st.consumption + load), l, r)) ==
            Credit(Entries(Branch(st, l, r)), st.id, load)
  {
    var st' := st.(consumption := st.consumption + load);
    InorderVisitsAll(l);
    InorderVisitsAll(r);
    EntriesBranch(st, l, r);
    EntriesBranch(st', l, r);
    CreditMiddle(Entries(l), st, Entries(r), load);
  }

  /** Crediting the line between two tables that do not hold its id. */
  lemma CreditMiddle(a: map<int, Entry>, st: Station, b: map<int, Entry>, load: int)
    requires st.id !in a && st.id !in b
    ensures st.id in a + map[st.id := EntryOf(st)] + b
    ensures Credit(a + map[st.id := EntryOf(st)] + b, st.id, load) ==
            a + map[st.id := EntryOf(st.(consumption := st.consumption + load))] + b
  {
  }

  lemma AddLoadBelow(st: Station, l: Tree, r: Tree, l': Tree, r': Tree, id: int, load: int)
    requires Ordered(Branch(st, l, r)) && id != st.id
    requires id < st.id ==> r' == r && Entries(l') == if id in Entries(l) then Credit(Entries(l), id, load) else Entries(l)
    requires id > st.id ==> l' == l && Entries(r') == if id in Entries(r) then Credit(Entries(r), id, load) else Entries(r)
    ensures Entries(Branch(st, l', r')) ==
      if id in Entries(Branch(st, l, r)) then Credit(Entries(Branch(st, l, r)), id, load)
      else Entries(Branch(st, l, r))
  {
    InorderVisitsAll(l);
    InorderVisitsAll(r);
    EntriesBranch(st, l, r);
    EntriesBranch(st, l', r');
    CreditUnion(Entries(l), map[st.id := EntryOf(st)], Entries(r), id, load, id < st.id);
  }

  /** Crediting one part of a union of tables credits the union. */
  lemma CreditUnion(a: map<int, Entry>, m: map<int, Entry>, b: map<int, Entry>, id: int, load: int, inLeft: bool)
    requires id !in m && (inLeft ==> id !in b) && (!inLeft ==> id !in a)
    ensures id in a + m + b <==> (if inLeft then id in a else id in b)
    ensures id in a + m + b ==>
      (if inLeft then Credit(a, id, load) + m + b else a + m + Credit(b, id, load)) == Credit(a + m + b, id, load)
  {
  }
}
