/** How many objects a tree holds and how many bytes its files take, and that the
    reference traversal's records add up to both. */
module TreeTotals {
  import opened Bytes
  import opened Order
  import opened TreeDigest
  import opened TreeIdentity

  // ---------------------------------------------------------------- the tree

  /** The filesystem objects of a tree, its root included. */
  ghost function Objects(n: Node): nat
    decreases n
  {
    if n.Dir? then 1 + ObjectsIn(n.kids) else 1
  }

  ghost function ObjectsIn(kids: seq<Keyed<Node>>): nat
    decreases kids
  {
    if kids == [] then 0 else ObjectsIn(kids[..|kids| - 1]) + Objects(kids[|kids| - 1].value)
  }

  /** The sizes of all regular files of a tree together. */
  ghost function StoredBytes(n: Node): nat
    decreases n
  {
    match n
    case Dir(_, _, kids) => StoredIn(kids)
    case File(_, _, size, _) => size
    case _ => 0
  }

  ghost function StoredIn(kids: seq<Keyed<Node>>): nat
    decreases kids
  {
    if kids == [] then 0 else StoredIn(kids[..|kids| - 1]) + StoredBytes(kids[|kids| - 1].value)
  }

  // ------------------------------------------------------------- the records

  ghost function FileBytes(records: seq<Rec>): nat {
    if records == [] then 0 else
      var last := records[|records| - 1];
      FileBytes(records[..|records| - 1]) + if last.kind == F then last.size else 0
  }

  lemma {:induction false} FileBytesConcat(a: seq<Rec>, b: seq<Rec>)
    ensures FileBytes(a + b) == FileBytes(a) + FileBytes(b)
  {
    if b == [] {
      assert a + b == a;
    } else {
      assert (a + b)[..|a + b| - 1] == a + b[..|b| - 1];
      FileBytesConcat(a, b[..|b| - 1]);
    }
  }

  lemma LeafTotals(p: Bytes, k: Keyed<Node>)
    requires IsLeaf(p, k)
    ensures |LeafPart(p, k)| == Objects(k.value) && FileBytes(LeafPart(p, k)) == StoredBytes(k.value)
  {
    hide IsReceipt, Rel;
    var rec := LeafRec(Rel(p, k.key), k.value);
    assert LeafPart(p, k) == [rec] && [rec][..0] == [];
    assert FileBytes([]) == 0;
  }

  lemma LeavesLastPart(p: Bytes, kids: seq<Keyed<Node>>)
    requires kids != []
    ensures Leaves(p, kids) == LeafPart(p, kids[|kids| - 1]) + Leaves(p, kids[..|kids| - 1])
  {
    hide LeafPart;
  }

  lemma {:induction false} SubtreesLast(p: Bytes, kids: seq<Keyed<Node>>)
    requires kids != []
    ensures var k := kids[|kids| - 1];
            Subtrees(p, kids)
              == Subtrees(p, kids[..|kids| - 1]) + if IsSubtree(p, k) then Visit(Rel(p, k.key), k.value) else []
  {
    hide Visit, Subtrees, IsReceipt;
    var init, k := kids[..|kids| - 1], kids[|kids| - 1];
    assert kids == init + [k];
    SubtreesConcat(p, init, [k]);
    SubtreesNone(p, []);
    assert [k][1..] == [] && Subtrees(p, []) == [];
    if IsSubtree(p, k) {
      SubtreesHead(p, [k], []);
      assert Subtrees(p, [k]) + [] == Subtrees(p, [k]);
      assert Visit(Rel(p, k.key), k.value) + (Subtrees(p, []) + []) == Visit(Rel(p, k.key), k.value);
    } else {
      SubtreesSkip(p, [k]);
    }
  }

  /** One more child, of any kind. */
  lemma TotalsStep(p: Bytes, kids: seq<Keyed<Node>>)
    requires kids != []
    requires var k := kids[|kids| - 1];
             IsSubtree(p, k) ==>
               && |Visit(Rel(p, k.key), k.value)| == Objects(k.value)
               && FileBytes(Visit(Rel(p, k.key), k.value)) == StoredBytes(k.value)
    ensures var init, k := kids[..|kids| - 1], kids[|kids| - 1];
            && |Leaves(p, kids)| + |Subtrees(p, kids)|
               == |Leaves(p, init)| + |Subtrees(p, init)| + (if IsReceipt(p, k) then 0 else Objects(k.value))
            && FileBytes(Leaves(p, kids)) + FileBytes(Subtrees(p, kids))
               == FileBytes(Leaves(p, init)) + FileBytes(Subtrees(p, init))
                 + (if IsReceipt(p, k) then 0 else StoredBytes(k.value))
  {
    hide Visit, Subtrees, Leaves, LeafPart, IsReceipt, Rel, FileBytes, Objects, StoredBytes;
    var init, k := kids[..|kids| - 1], kids[|kids| - 1];
    LeavesLastPart(p, kids);
    SubtreesLast(p, kids);
    FileBytesConcat(LeafPart(p, k), Leaves(p, init));
    FileBytesConcat(Subtrees(p, init), if IsSubtree(p, k) then Visit(Rel(p, k.key), k.value) else []);
    NoBytes();
    if IsLeaf(p, k) {
      LeafTotals(p, k);
    } else {
      NoLeafPart(p, k);
    }
  }

  lemma NoBytes()
    ensures FileBytes([]) == 0
  {
  }

  lemma NoLeafPart(p: Bytes, k: Keyed<Node>)
    requires !IsLeaf(p, k)
    ensures LeafPart(p, k) == []
  {
    hide IsReceipt;
  }

  /** The records of a listing are as many as the objects in it, the receipt apart. */
  lemma {:induction false} ListingTotals(p: Bytes, kids: seq<Keyed<Node>>)
    requires forall i | 0 <= i < |kids| :: Legal(kids[i].key) && Valid(kids[i].value)
    ensures |Leaves(p, kids)| + |Subtrees(p, kids)| == ObjectsIn(Kept(p, kids))
    ensures FileBytes(Leaves(p, kids)) + FileBytes(Subtrees(p, kids)) == StoredIn(Kept(p, kids))
    decreases kids, 1
  {
    if kids == [] {
      NoBytes();
    } else {
      hide Visit, Subtrees, Leaves, IsReceipt, Rel, FileBytes, Objects, StoredBytes, Valid, Legal, Kept, ObjectsIn,
           StoredIn;
      var init, k := kids[..|kids| - 1], kids[|kids| - 1];
      ListingTotals(p, init);
      if IsSubtree(p, k) {
        RelUnder(p, k.key);
        SubtreeTotals(Rel(p, k.key), k.value);
      }
      TotalsStep(p, kids);
      KeptStep(p, kids);
    }
  }

  lemma KeptStep(p: Bytes, kids: seq<Keyed<Node>>)
    requires kids != []
    ensures var init, k := kids[..|kids| - 1], kids[|kids| - 1];
            && ObjectsIn(Kept(p, kids)) == ObjectsIn(Kept(p, init)) + (if IsReceipt(p, k) then 0 else Objects(k.value))
            && StoredIn(Kept(p, kids))
              == StoredIn(Kept(p, init)) + (if IsReceipt(p, k) then 0 else StoredBytes(k.value))
  {
    hide IsReceipt, Objects, StoredBytes;
    var kept, k := Kept(p, kids[..|kids| - 1]), kids[|kids| - 1];
    assert (kept + [k])[..|kept|] == kept;
    assert kept + [] == kept;
  }

  /** Below the root nothing is a receipt, so every object counts. */
  lemma {:induction false} SubtreeTotals(p: Bytes, n: Node)
    requires n.Dir? && Valid(n) && p != ROOT
    ensures |Visit(p, n)| == Objects(n) && FileBytes(Visit(p, n)) == StoredBytes(n)
    decreases n, 0
  {
    hide Leaves, Subtrees, Kept, FileBytes, Legal, IsReceipt, Rel;
    ListingTotals(p, n.kids);
    KeptBelowRoot(p, n.kids);
    VisitTotal(p, n);
  }

  lemma VisitTotal(p: Bytes, n: Node)
    requires n.Dir?
    ensures |Visit(p, n)| == 1 + |Leaves(p, n.kids)| + |Subtrees(p, n.kids)|
    ensures FileBytes(Visit(p, n)) == FileBytes(Leaves(p, n.kids)) + FileBytes(Subtrees(p, n.kids))
  {
    hide Leaves, Subtrees;
    var d, l, s := [DirRec(p, n)], Leaves(p, n.kids), Subtrees(p, n.kids);
    FileBytesConcat(d + l, s);
    FileBytesConcat(d, l);
    NoBytes();
    assert d[..0] == [];
  }

  /** The traversal of a whole environment makes one record for every object of the
      tree without its receipt, and the file sizes add up. */
  lemma RootTotals(n: Node)
    requires n.Dir? && Valid(n)
    ensures |Visit(ROOT, n)| == Objects(Pruned(n)) && FileBytes(Visit(ROOT, n)) == StoredBytes(Pruned(n))
  {
    hide Leaves, Subtrees, Kept, FileBytes, Legal, IsReceipt, Rel, Visit;
    ListingTotals(ROOT, n.kids);
    VisitTotal(ROOT, n);
  }
}
