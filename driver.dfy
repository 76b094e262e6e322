/**
 * The read loop of main.c on the pointer tree: each line is decoded into
 * local variables, the station of the requested tier is looked up, created
 * and credited in place, and the finished tree is listed in order.
 */
module Driver {
  import opened Avl
  import opened AvlHeap
  import opened Records

  // ---------------------------------------------------------------------------
  // The in-place write `existingNode->station.consumption += load`
  // ---------------------------------------------------------------------------

  /** The state right after the write: `n`'s subtree is well formed, but the
      ghost `Model` fields on the search path to `id` still describe the
      tree before the write, in which the node for `id` had `load` less
      consumption. */
  ghost predicate Stale(n: Node, id: int, load: int)
    reads n, n.Repr
    decreases n.Repr
  {
    && (n.left != null ==> n.left in n.Repr)
    && (n.right != null ==> n.right in n.Repr)
    && n.Repr == {n} + ReprOf(n.left) + ReprOf(n.right)
    && n !in ReprOf(n.left) && n !in ReprOf(n.right) && ReprOf(n.left) !! ReprOf(n.right)
    && if n.station.id == id then
         && ValidTree(n.left) && ValidTree(n.right)
         && n.Model == Branch(n.station.(consumption := n.station.consumption - load), ModelOf(n.left), ModelOf(n.right))
       else if id < n.station.id then
         && n.left != null && Stale(n.left, id, load) && ValidTree(n.right)
         && n.Model == Branch(n.station, n.left.Model, ModelOf(n.right))
       else
         && n.right != null && Stale(n.right, id, load) && ValidTree(n.left)
         && n.Model == Branch(n.station, ModelOf(n.left), n.right.Model)
  }

  /** Writing the consumption of the node `search` found, and nothing else,
      leaves the tree Stale. Every parameter but `n` is a `new` parameter,
      read in the state after the write. For `target`, this means its
      allocation before the write is a separate requirement: the first
      requires clause. For the integers `id` and `load`, `new` changes
      nothing, since an integer has no allocation state. They are marked
      anyway because Dafny 4.11's verifier fails on calls to a two-state
      lemma with more than one parameter in the old state when
      contradictory-assumption checking is on. */
  twostate lemma {:induction false} WriteMakesStale(n: Node, new target: Node, new id: int, new load: int)
    requires old(allocated(target)) && old(n.Valid()) && old(Node.Search(n, id)) == target
    requires unchanged(old(n.Repr) - {target})
    requires unchanged(target`left, target`right, target`Repr, target`Model)
    requires target.station == old(target.station).(consumption := old(target.station).consumption + load)
    ensures Stale(n, id, load) && n.Repr == old(n.Repr) && n.Model == old(n.Model)
    decreases old(n.Repr)
  {
    assert old(ValidTree(n.left) && ValidTree(n.right));
    if n.station.id == id {
      assert n == target;
    } else if id < n.station.id {
      assert n.left == old(n.left) && n.left != null;
      WriteMakesStale(n.left, target, id, load);
    } else {
      assert n.right == old(n.right) && n.right != null;
      WriteMakesStale(n.right, target, id, load);
    }
  }

  /** Brings the ghost `Model` fields on the search path up to date after
      the write; no real field changes. */
  ghost method Repair(n: Node, id: int, load: int)
    requires Stale(n, id, load)
    modifies n.Repr
    ensures n.Valid() && n.Repr == old(n.Repr)
    ensures n.Model == AddLoad(old(n.Model), id, load)
    decreases n.Repr
  {
    ghost var l, r := n.left, n.right;
    ghost var rl, rr := ReprOf(l), ReprOf(r);
    if n.station.id == id {
      n.Model := Branch(n.station, ModelOf(l), ModelOf(r));
      Node.Fold(n, l, r);
    } else if id < n.station.id {
      ghost var mr := ModelOf(r);
      if r != null { Node.Unfold(r); }
      assert ValidTree(r) && n !in rl + rr && rl !! rr;
      Repair(l, id, load);
      assert ValidTree(r) && ReprOf(r) == rr && ModelOf(r) == mr;
      n.Model := Branch(n.station, l.Model, mr);
      Node.Fold(n, l, r);
    } else {
      ghost var ml := ModelOf(l);
      if l != null { Node.Unfold(l); }
      assert ValidTree(l) && n !in rl + rr && rl !! rr;
      Repair(r, id, load);
      assert ValidTree(l) && ReprOf(l) == rl && ModelOf(l) == ml;
      n.Model := Branch(n.station, ml, r.Model);
      Node.Fold(n, l, r);
    }
  }

  /** `existingNode->station.consumption += load` on the node `search`
      returned for `id`: the tree becomes AddLoad of the old one. */
  method WriteConsumption(root: Node, existing: Node, id: int, load: int)
    requires root.Valid() && Node.Search(root, id) == existing
    modifies root.Repr
    ensures root.Valid() && root.Repr == old(root.Repr)
    ensures root.Model == AddLoad(old(root.Model), id, load)
  {
    label Before:
    existing.station := existing.station.(consumption := existing.station.consumption + load);
    WriteMakesStale@Before(root, existing, id, load);
    Repair(root, id, load);
  }

  // ---------------------------------------------------------------------------
  // One line of the input
  // ---------------------------------------------------------------------------

  /** Lines 94-105 of main.c for the selected station id: look the station
      up, create it when the capacity is positive and it is unknown, look it
      up again, and add a positive load to its consumption in place. */
  method Accumulate(root: Node?, id: int, capacity: int, load: int) returns (r: Node?)
    requires ValidTree(root) && IsAvl(ModelOf(root))
    modifies ReprOf(root)
    ensures ValidTree(r) && IsAvl(ModelOf(r))
    ensures fresh(ReprOf(r) - old(ReprOf(root)))
    ensures ModelOf(r) == ApplyTree(old(ModelOf(root)), Event(id, capacity, load))
    ensures Entries(ModelOf(r)) == Apply(old(Entries(ModelOf(root))), Event(id, capacity, load))
  {
    ghost var t := ModelOf(root);
    ApplyTreeSpec(t, Event(id, capacity, load));
    r := root;
    if id != -1 {
      var existing := Node.Search(r, id);
      if capacity > 0 {
        if existing == null {
          ghost var created;
          r, created := Node.Insert(r, id, capacity);
          existing := Node.Search(r, id);
        }
      }
      ghost var t1 := ModelOf(r);
      assert t1 == if capacity > 0 && Avl.Search(t, id).Leaf? then Avl.Insert(t, id, capacity) else t;
      if existing != null && load > 0 {
        WriteConsumption(r, existing, id, load);
      }
    }
  }

  /** The body of the read loop (main.c lines 42-105) on one line, given as
      its `strtok` tokens: the fields are decoded into locals initialised to
      -1 (ids) and 0 (capacity, load), the station id of `stationType` is
      selected, and the station table is updated as Apply says. */
  method ProcessRecord(root: Node?, fields: seq<string>, stationType: string) returns (r: Node?)
    requires ValidTree(root) && IsAvl(ModelOf(root))
    modifies ReprOf(root)
    ensures ValidTree(r) && IsAvl(ModelOf(r))
    ensures fresh(ReprOf(r) - old(ReprOf(root)))
    ensures ModelOf(r) == ApplyTree(old(ModelOf(root)), EventOf(fields, stationType))
    ensures Entries(ModelOf(r)) == Apply(old(Entries(ModelOf(root))), EventOf(fields, stationType))
  {
    if |fields| < 8 {
      // A missing token: `continue`.
      r := root;
      return;
    }
    var powerPlant: int, hvb: int, hva: int, lv: int, company: int, individual: int := -1, -1, -1, -1, -1, -1;
    var capacity: int, load: int := 0, 0;
    if Present(fields[0]) { powerPlant := Atoi(fields[0]); }
    if Present(fields[1]) { hvb := Atoi(fields[1]); }
    if Present(fields[2]) { hva := Atoi(fields[2]); }
    if Present(fields[3]) { lv := Atoi(fields[3]); }
    if Present(fields[4]) { company := Atoi(fields[4]); }
    if Present(fields[5]) { individual := Atoi(fields[5]); }
    if Present(fields[6]) { capacity := Atoi(fields[6]); }
    if Present(fields[7]) { load := Atoi(fields[7]); }
    assert Decode(fields) == Some(Record(powerPlant, hvb, hva, lv, company, individual, capacity, load));

    var stationId := -1;
    if stationType == "hvb" && hvb != -1 {
      stationId := hvb;
    } else if stationType == "hva" && hva != -1 {
      stationId := hva;
    } else if stationType == "lv" && lv != -1 {
      stationId := lv;
    }
    assert EventOf(fields, stationType) == Event(stationId, capacity, load);

    r := Accumulate(root, stationId, capacity, load);
  }

  // ---------------------------------------------------------------------------
  // The whole input
  // ---------------------------------------------------------------------------

  /** The read loop of main.c over the lines after the header, then
      `inorder`: the stations of the requested tier in ascending id order,
      one line each, holding what Run says the table holds. */
  method Aggregate(lines: seq<seq<string>>, stationType: string) returns (rows: seq<Entry>)
    ensures Ascending(rows)
    ensures Table(rows) == Run(lines, stationType)
    ensures IdSet(rows) == Run(lines, stationType).Keys && |rows| == |Run(lines, stationType)|
  {
    var root: Node? := null;
    var i := 0;
    while i < |lines|
      invariant 0 <= i <= |lines|
      invariant ValidTree(root) && IsAvl(ModelOf(root))
      invariant fresh(ReprOf(root))
      invariant Entries(ModelOf(root)) == Run(lines[..i], stationType)
    {
      root := ProcessRecord(root, lines[i], stationType);
      RunStep(lines, stationType, i);
      i := i + 1;
    }
    assert lines[..i] == lines;
    rows := Node.Inorder(root);
    InorderListsEntries(ModelOf(root));
  }
}
