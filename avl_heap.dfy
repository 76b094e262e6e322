/**
 * The pointer structure of avl.h: heap nodes with `left`/`right` links that
 * rotations and `insert` rewrite in place. Each node's ghost `Repr` is the
 * set of nodes of its subtree, and `Model` reads the subtree back as an
 * `Avl.Tree`; every operation is proved to compute the Avl function of the
 * same name.
 */
module AvlHeap {
  import opened Avl

  class Node {
    var station: Station
    var left: Node?
    var right: Node?
    /** The nodes of the subtree rooted here. */
    ghost var Repr: set<Node>
    /** The subtree rooted here, as a value. */
    ghost var Model: Tree

    /** The subtree is a finite tree (children own disjoint node sets and
        never contain their parent) and `Model` reads it back. */
    ghost predicate Valid()
      reads this, Repr
      decreases Repr, 0
    {
      && (left != null ==> left in Repr)
      && (right != null ==> right in Repr)
      && Repr == {this} + ReprOf(left) + ReprOf(right)
      && this !in ReprOf(left) && this !in ReprOf(right) && ReprOf(left) !! ReprOf(right)
      && ValidTree(left) && ValidTree(right)
      && Model == Branch(station, ModelOf(left), ModelOf(right))
    }

    /** `newNode`: a fresh node with consumption 0, height 1 and no children. */
    constructor (id: int, capacity: int)
      ensures Valid() && fresh(Repr) && Repr == {this}
      ensures Model == NewNode(id, capacity)
    {
      station := Station(id, capacity, 0, 1);
      left := null;
      right := null;
      Repr := {this};
      Model := Branch(station, Leaf, Leaf);
    }

    /** `height` on a possibly NULL pointer. */
    static function Height(n: Node?): (h: nat)
      reads n
      ensures n != null && n.Valid() ==> h == Avl.Height(n.Model)
    {
      if n == null then 0 else n.station.height
    }

    /** `getBalance` on a possibly NULL pointer. */
    static function GetBalance(n: Node?): (b: int)
      reads n, if n != null then {n.left, n.right} else {}
      ensures n != null && n.Valid() ==> b == Avl.GetBalance(n.Model)
    {
      if n == null then 0 else
        ValidChildren(n);
        Height(n.left) - Height(n.right)
    }

    /** The height refresh `node->height = max(height(left), height(right)) + 1`
        that `rightRotate`, `leftRotate` and `insert` perform on a node whose
        children they have just relinked. The ghost arguments name the
        children's node sets and values. */
    static method Refresh(n: Node, ghost ml: Tree, ghost mr: Tree, ghost rl: set<Node>, ghost rr: set<Node>)
      requires ValidTree(n.left) && ModelOf(n.left) == ml && ReprOf(n.left) == rl
      requires ValidTree(n.right) && ModelOf(n.right) == mr && ReprOf(n.right) == rr
      requires n !in rl && n !in rr && rl !! rr
      modifies n
      ensures n.left == old(n.left) && n.right == old(n.right)
      ensures ValidTree(n.left) && ModelOf(n.left) == ml && ReprOf(n.left) == rl
      ensures ValidTree(n.right) && ModelOf(n.right) == mr && ReprOf(n.right) == rr
      ensures n.Valid() && n.Repr == {n} + rl + rr
      ensures n.Model == Branch(old(n.station).(height := 1 + Max(Avl.Height(ml), Avl.Height(mr))), ml, mr)
    {
      n.station := n.station.(height := Max(Height(n.left), Height(n.right)) + 1);
      n.Repr, n.Model := {n} + rl + rr, Branch(n.station, ml, mr);
      Fold(n, n.left, n.right);
    }

    /** `rightRotate`: y's left child x becomes the local root and x's right
        subtree becomes y's left subtree; y's height is refreshed, then x's. */
    static method RightRotate(y: Node) returns (x: Node)
      requires y.Valid() && y.left != null
      modifies y, y.left
      ensures x.Valid() && x.Repr == old(y.Repr)
      ensures x.Model == RotateRight(old(y.Model))
    {
      x := y.left;
      var t2 := x.right;
      ghost var a, c := x.left, y.right;
      Unfold(y);
      ghost var ma, mb, mc := ModelOf(a), ModelOf(t2), ModelOf(c);
      ghost var ys, xs := y.station, x.station;
      ghost var ra, rb, rc := ReprOf(a), ReprOf(t2), ReprOf(c);
      ghost var before := Branch(ys, Branch(xs, ma, mb), mc);
      assert y.Model == before;
      assert y.Repr == {y, x} + ra + rb + rc;
      assert x !in rb + rc && y !in ra;

      x.right := y;
      y.left := t2;

      assert ValidTree(t2) && ModelOf(t2) == mb && ReprOf(t2) == rb;
      assert ValidTree(c) && ModelOf(c) == mc && ReprOf(c) == rc;
      Refresh(y, mb, mc, rb, rc);
      ghost var ym := Branch(ys.(height := Max(Avl.Height(mb), Avl.Height(mc)) + 1), mb, mc);
      assert ValidTree(a) && ReprOf(a) == ra && ModelOf(a) == ma;
      Refresh(x, ma, ym, ra, {y} + rb + rc);
      RegroupNodes(x, y, ra, rb, rc);
      RotateRightShape(ys, xs, ma, mb, mc);
    }

    /** `leftRotate`: x's right child y becomes the local root and y's left
        subtree becomes x's right subtree; x's height is refreshed, then y's. */
    static method LeftRotate(x: Node) returns (y: Node)
      requires x.Valid() && x.right != null
      modifies x, x.right
      ensures y.Valid() && y.Repr == old(x.Repr)
      ensures y.Model == RotateLeft(old(x.Model))
    {
      y := x.right;
      var t2 := y.left;
      ghost var a, c := x.left, y.right;
      Unfold(x);
      ghost var ma, mb, mc := ModelOf(a), ModelOf(t2), ModelOf(c);
      ghost var xs, ys := x.station, y.station;
      ghost var ra, rb, rc := ReprOf(a), ReprOf(t2), ReprOf(c);
      ghost var before := Branch(xs, ma, Branch(ys, mb, mc));
      assert x.Model == before;
      assert x.Repr == {x, y} + ra + rb + rc;
      assert y !in ra + rb && x !in rc;

      y.left := x;
      x.right := t2;

      assert ValidTree(a) && ModelOf(a) == ma && ReprOf(a) == ra;
      assert ValidTree(t2) && ModelOf(t2) == mb && ReprOf(t2) == rb;
      Refresh(x, ma, mb, ra, rb);
      ghost var xm := Branch(xs.(height := Max(Avl.Height(ma), Avl.Height(mb)) + 1), ma, mb);
      assert ValidTree(c) && ReprOf(c) == rc && ModelOf(c) == mc;
      Refresh(y, xm, mc, {x} + ra + rb, rc);
      RegroupNodes'(x, y, ra, rb, rc);
      RotateLeftShape(xs, ys, ma, mb, mc);
    }

    /** The tail of `insert` once `node->left` or `node->right` holds the
        result of the recursive call: refresh the height, compute the
        balance factor and apply the LL, RR, LR or RL case in that order. */
    static method Rebalance(node: Node, id: int) returns (r: Node)
      requires ValidTree(node.left) && ValidTree(node.right)
      requires node !in ReprOf(node.left) && node !in ReprOf(node.right)
      requires ReprOf(node.left) !! ReprOf(node.right)
      requires RebalanceSafe(Branch(node.station, ModelOf(node.left), ModelOf(node.right)), id)
      modifies node, ReprOf(node.left), ReprOf(node.right)
      ensures r.Valid() && r.Repr == {node} + old(ReprOf(node.left)) + old(ReprOf(node.right))
      ensures r.Model == Avl.Rebalance(old(Branch(node.station, ModelOf(node.left), ModelOf(node.right))), id)
    {
      ghost var t := Branch(node.station, ModelOf(node.left), ModelOf(node.right));
      ghost var n := t.(st := t.st.(height := 1 + Max(Avl.Height(t.left), Avl.Height(t.right))));
      Refresh(node, t.left, t.right, ReprOf(node.left), ReprOf(node.right));
      assert node.Model == n;
      var balance := GetBalance(node);
      if balance > 1 && id < node.left.station.id {
        assert Avl.Rebalance(t, id) == RotateRight(n);
        r := RightRotate(node);
      } else if balance < -1 && id > node.right.station.id {
        assert Avl.Rebalance(t, id) == RotateLeft(n);
        r := LeftRotate(node);
      } else if balance > 1 && id > node.left.station.id {
        assert Avl.Rebalance(t, id) == RotateRight(n.(left := RotateLeft(n.left)));
        r := LeftRightCase(node);
      } else if balance < -1 && id < node.right.station.id {
        assert Avl.Rebalance(t, id) == RotateLeft(n.(right := RotateRight(n.right)));
        r := RightLeftCase(node);
      } else {
        assert Avl.Rebalance(t, id) == n;
        r := node;
      }
    }

    /** The LR case: `node->left = leftRotate(node->left); return rightRotate(node);` */
    static method LeftRightCase(node: Node) returns (r: Node)
      requires node.Valid() && node.left != null && node.left.right != null
      modifies node.Repr
      ensures r.Valid() && r.Repr == old(node.Repr)
      ensures r.Model == RotateRight(old(node.Model).(left := RotateLeft(old(node.Model).left)))
    {
      Unfold(node);
      ghost var m, rl, rr := node.Model, ReprOf(node.left), ReprOf(node.right);
      ghost var x, z := node.left, node.left.right;
      assert x in rl && z in rl && rl !! rr && node !in rl;
      var l := LeftRotate(node.left);
      assert ValidTree(node.right) && ReprOf(node.right) == rr && ModelOf(node.right) == m.right;
      node.left := l;
      node.Model := Branch(node.station, l.Model, ModelOf(node.right));
      Fold(node, l, node.right);
      r := RightRotate(node);
    }

    /** The RL case: `node->right = rightRotate(node->right); return leftRotate(node);` */
    static method RightLeftCase(node: Node) returns (r: Node)
      requires node.Valid() && node.right != null && node.right.left != null
      modifies node.Repr
      ensures r.Valid() && r.Repr == old(node.Repr)
      ensures r.Model == RotateLeft(old(node.Model).(right := RotateRight(old(node.Model).right)))
    {
      Unfold(node);
      ghost var m, rl, rr := node.Model, ReprOf(node.left), ReprOf(node.right);
      ghost var y, z := node.right, node.right.left;
      assert y in rr && z in rr && rl !! rr && node !in rr;
      var rt := RightRotate(node.right);
      assert ValidTree(node.left) && ReprOf(node.left) == rl && ModelOf(node.left) == m.left;
      node.right := rt;
      node.Model := Branch(node.station, ModelOf(node.left), rt.Model);
      Fold(node, node.left, rt);
      r := LeftRotate(node);
    }

    /** `insert`: descend to the missing place, link the new node, and
        rebalance every node on the way back up. An id already present
        returns the node it was found at. */
    static method Insert(node: Node?, id: int, capacity: int) returns (r: Node, ghost created: Node?)
      requires ValidTree(node) && HeightsOk(ModelOf(node)) && Balanced(ModelOf(node))
      modifies ReprOf(node)
      ensures r.Valid() && r.Repr == old(ReprOf(node)) + Just(created)
      ensures (created != null ==> fresh(created)) && (created == null <==> !Avl.Search(old(ModelOf(node)), id).Leaf?)
      ensures r.Model == Avl.Insert(old(ModelOf(node)), id, capacity)
      decreases ReprOf(node), 1
    {
      if node == null {
        r := new Node(id, capacity);
        created := r;
        assert r.Repr == {r} && old(ReprOf(node)) == {};
      } else if id < node.station.id {
        Unfold(node);
        InsertRebalanceSafe(node.Model, id, capacity);
        r, created := InsertLeft(node, id, capacity);
        assert r.Repr == old(ReprOf(node)) + Just(created);
      } else if id > node.station.id {
        Unfold(node);
        InsertRebalanceSafe(node.Model, id, capacity);
        r, created := InsertRight(node, id, capacity);
        assert r.Repr == old(ReprOf(node)) + Just(created);
      } else {
        r, created := node, null;
        assert r.Repr == old(ReprOf(node)) + Just(created);
      }
    }

    /** `node->left = insert(node->left, id, capacity)`, then the rebalancing tail. */
    static method InsertLeft(node: Node, id: int, capacity: int) returns (r: Node, ghost created: Node?)
      requires node.Valid() && id < node.station.id
      requires HeightsOk(node.Model) && Balanced(node.Model)
      requires RebalanceSafe(Branch(node.station, Avl.Insert(node.Model.left, id, capacity), node.Model.right), id)
      modifies node.Repr
      ensures r.Valid() && r.Repr == old(node.Repr) + Just(created)
      ensures (created != null ==> fresh(created)) && (created == null <==> !Avl.Search(old(node.Model).left, id).Leaf?)
      ensures r.Model == Avl.Rebalance(Branch(old(node.station), Avl.Insert(old(node.Model).left, id, capacity), old(node.Model).right), id)
      decreases node.Repr, 0
    {
      Unfold(node);
      ghost var t, rl, rr, all := node.Model, ReprOf(node.left), ReprOf(node.right), node.Repr;
      var l;
      l, created := Insert(node.left, id, capacity);
      assert ValidTree(node.right) && ReprOf(node.right) == rr && ModelOf(node.right) == t.right;
      assert l.Repr == rl + Just(created) && node !in l.Repr && l.Repr !! rr;
      node.left := l;
      assert ValidTree(node.left) && ModelOf(node.left) == Avl.Insert(t.left, id, capacity);
      ghost var extra := Just(created);
      assert ReprOf(node.left) == rl + extra && ReprOf(node.right) == rr;
      assert Branch(node.station, ModelOf(node.left), ModelOf(node.right)) == Branch(t.st, Avl.Insert(t.left, id, capacity), t.right);
      r := Rebalance(node, id);
      assert r.Repr == {node} + (rl + extra) + rr;
      GrowNodes(node, rl, rr, extra);
    }

    /** `node->right = insert(node->right, id, capacity)`, then the rebalancing tail. */
    static method InsertRight(node: Node, id: int, capacity: int) returns (r: Node, ghost created: Node?)
      requires node.Valid() && id > node.station.id
      requires HeightsOk(node.Model) && Balanced(node.Model)
      requires RebalanceSafe(Branch(node.station, node.Model.left, Avl.Insert(node.Model.right, id, capacity)), id)
      modifies node.Repr
      ensures r.Valid() && r.Repr == old(node.Repr) + Just(created)
      ensures (created != null ==> fresh(created)) && (created == null <==> !Avl.Search(old(node.Model).right, id).Leaf?)
      ensures r.Model == Avl.Rebalance(Branch(old(node.station), old(node.Model).left, Avl.Insert(old(node.Model).right, id, capacity)), id)
      decreases node.Repr, 0
    {
      Unfold(node);
      ghost var t, rl, rr, all := node.Model, ReprOf(node.left), ReprOf(node.right), node.Repr;
      var rt;
      rt, created := Insert(node.right, id, capacity);
      assert ValidTree(node.left) && ReprOf(node.left) == rl && ModelOf(node.left) == t.left;
      assert rt.Repr == rr + Just(created) && node !in rt.Repr && rl !! rt.Repr;
      node.right := rt;
      assert ValidTree(node.right) && ModelOf(node.right) == Avl.Insert(t.right, id, capacity);
      ghost var extra := Just(created);
      assert ReprOf(node.left) == rl && ReprOf(node.right) == rr + extra;
      assert Branch(node.station, ModelOf(node.left), ModelOf(node.right)) == Branch(t.st, t.left, Avl.Insert(t.right, id, capacity));
      r := Rebalance(node, id);
      assert r.Repr == {node} + rl + (rr + extra);
      GrowNodes(node, rl, rr, extra);
    }

    /** `search`: BST descent from `root`; NULL when `id` is absent. */
    static function Search(root: Node?, id: int): (r: Node?)
      reads root, ReprOf(root)
      requires ValidTree(root)
      ensures r != null ==> r in ReprOf(root) && r.Valid()
      ensures ModelOf(r) == Avl.Search(ModelOf(root), id)
      decreases ReprOf(root)
    {
      if root == null then null
      else
        ValidChildren(root);
        if root.station.id == id then root
        else if id < root.station.id then Search(root.left, id)
        else Search(root.right, id)
    }

    /** `inorder`: the stations in visiting order, left subtree first. */
    static function Inorder(root: Node?): (s: seq<Entry>)
      reads root, ReprOf(root)
      requires ValidTree(root)
      ensures s == Avl.Inorder(ModelOf(root))
      decreases ReprOf(root)
    {
      if root == null then []
      else
        ValidChildren(root);
        Inorder(root.left) + [EntryOf(root.station)] + Inorder(root.right)
    }

    /** A valid node's children are valid. */
    static lemma ValidChildren(n: Node)
      ensures n.Valid() ==> ValidTree(n.left) && ValidTree(n.right)
      ensures n.Valid() ==> n.Repr == {n} + ReprOf(n.left) + ReprOf(n.right)
      ensures n.Valid() ==> n !in ReprOf(n.left) && n !in ReprOf(n.right)
      ensures n.Valid() ==> n.Model == Branch(n.station, ModelOf(n.left), ModelOf(n.right))
    {
    }

    /** What Valid() says about one node and its two children. */
    static lemma Unfold(n: Node)
      requires n.Valid()
      ensures ValidTree(n.left) && ValidTree(n.right)
      ensures n !in ReprOf(n.left) && n !in ReprOf(n.right)
      ensures ReprOf(n.left) !! ReprOf(n.right)
      ensures n.Repr == {n} + ReprOf(n.left) + ReprOf(n.right)
      ensures n.Model == Branch(n.station, ModelOf(n.left), ModelOf(n.right))
    {
    }

    /** A node over two valid, disjoint subtrees that do not contain it is valid. */
    static lemma Fold(n: Node, l: Node?, r: Node?)
      requires n.left == l && n.right == r
      requires ValidTree(l) && ValidTree(r)
      requires n !in ReprOf(l) && n !in ReprOf(r)
      requires ReprOf(l) !! ReprOf(r)
      requires n.Repr == {n} + ReprOf(l) + ReprOf(r)
      requires n.Model == Branch(n.station, ModelOf(l), ModelOf(r))
      ensures n.Valid()
    {
    }
  }

  /** The node sets before and after a rotation are the same set. */
  lemma GrowNodes(x: Node, ra: set<Node>, rb: set<Node>, extra: set<Node>)
    ensures {x} + (ra + extra) + rb == {x} + ra + rb + extra
    ensures {x} + ra + (rb + extra) == {x} + ra + rb + extra
  {
  }

  lemma RegroupNodes(x: Node, y: Node, ra: set<Node>, rb: set<Node>, rc: set<Node>)
    ensures {x} + ra + ({y} + rb + rc) == {y, x} + ra + rb + rc
  {
  }

  lemma RegroupNodes'(x: Node, y: Node, ra: set<Node>, rb: set<Node>, rc: set<Node>)
    ensures {y} + ({x} + ra + rb) + rc == {x, y} + ra + rb + rc
  {
  }

  /** RotateRight on a node whose left child is a branch, spelled out. */
  lemma RotateRightShape(ys: Station, xs: Station, ma: Tree, mb: Tree, mc: Tree)
    ensures var ym := Branch(ys.(height := Max(Avl.Height(mb), Avl.Height(mc)) + 1), mb, mc);
            RotateRight(Branch(ys, Branch(xs, ma, mb), mc))
              == Branch(xs.(height := Max(Avl.Height(ma), Avl.Height(ym)) + 1), ma, ym)
  {
  }

  /** RotateLeft on a node whose right child is a branch, spelled out. */
  lemma RotateLeftShape(xs: Station, ys: Station, ma: Tree, mb: Tree, mc: Tree)
    ensures var xm := Branch(xs.(height := Max(Avl.Height(ma), Avl.Height(mb)) + 1), ma, mb);
            RotateLeft(Branch(xs, ma, Branch(ys, mb, mc)))
              == Branch(ys.(height := Max(Avl.Height(xm), Avl.Height(mc)) + 1), xm, mc)
  {
  }

  /** The nodes of a possibly empty subtree. */
  /** The node set holding `n`, if any. */
  ghost function Just(n: Node?): set<Node> {
    if n == null then {} else {n}
  }

  ghost function ReprOf(n: Node?): set<Node>
    reads n
  {
    if n == null then {} else n.Repr
  }

  /** A NULL pointer or the root of a valid subtree. */
  ghost predicate ValidTree(n: Node?)
    reads n, ReprOf(n)
    decreases ReprOf(n), 1
  {
    n != null ==> n.Valid()
  }

  /** The value a possibly NULL pointer stands for. */
  ghost function ModelOf(n: Node?): Tree
    reads n
  {
    if n == null then Leaf else n.Model
  }
}
