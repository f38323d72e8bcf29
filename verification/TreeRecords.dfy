/** What the records of the reference traversal cover, and the order in which they come. */
module TreeRecords {
  import opened Bytes
  import opened Order
  import opened TreeDigest
  import opened TreeIdentity

  // -------------------------------------------------- what the records cover

  /** r carries the kind, path, mode, owner, size and content of the object n at path p. */
  ghost predicate Carries(p: Bytes, n: Node, r: Rec) {
    && r.path == p
    && match n
       case Dir(mode, uid, _) => r.kind == D && r.mode == mode && r.uid == uid && r.size == 0 && r.payload == []
       case File(mode, uid, size, digest) =>
         r.kind == F && r.mode == mode && r.uid == uid && r.size == size && r.payload == digest
       case Link(mode, uid, size, target) =>
         r.kind == L && r.mode == mode && r.uid == uid && r.size == size && r.payload == target
       case Other => r.kind == Unsupported && r.mode == r.uid == r.size == 0 && r.payload == []
  }

  /** r is the record of an object in the tree rooted at path p, the receipt excepted. */
  ghost predicate Describes(p: Bytes, n: Node, r: Rec)
    requires n.Dir?
    decreases n
  {
    || Carries(p, n, r)
    || exists k | k in n.kids ::
        var path := if p == ROOT then k.key else p + [SLASH] + k.key;
        path != RECEIPT && if k.value.Dir? then Describes(path, k.value, r) else Carries(path, k.value, r)
  }

  lemma CarriesIff(p: Bytes, n: Node, r: Rec)
    ensures Carries(p, n, r) <==> r == if n.Dir? then DirRec(p, n) else LeafRec(p, n)
  {
  }

  ghost predicate IsLeafRec(p: Bytes, k: Keyed<Node>, r: Rec) {
    IsLeaf(p, k) && r == LeafRec(Rel(p, k.key), k.value)
  }

  lemma LeavesLast(p: Bytes, kids: seq<Keyed<Node>>, r: Rec)
    requires kids != []
    ensures r in Leaves(p, kids) <==> IsLeafRec(p, kids[|kids| - 1], r) || r in Leaves(p, kids[..|kids| - 1])
  {
    hide LeafRec, IsReceipt;
  }

  lemma {:induction false} LeavesCover(p: Bytes, kids: seq<Keyed<Node>>, r: Rec)
    ensures r in Leaves(p, kids) <==> exists k :: k in kids && IsLeafRec(p, k, r)
  {
    hide IsLeafRec;
    if kids != [] {
      var init, last := kids[..|kids| - 1], kids[|kids| - 1];
      assert (exists k :: k in kids && IsLeafRec(p, k, r))
        <==> (exists k :: k in init && IsLeafRec(p, k, r)) || IsLeafRec(p, last, r) by {
        assert kids == init + [last];
      }
      LeavesCover(p, init, r);
      LeavesLast(p, kids, r);
    }
  }

  ghost predicate InSubtree(p: Bytes, k: Keyed<Node>, r: Rec) {
    IsSubtree(p, k) && r in Visit(Rel(p, k.key), k.value)
  }

  lemma SubtreesFirst(p: Bytes, kids: seq<Keyed<Node>>, r: Rec)
    requires kids != []
    ensures r in Subtrees(p, kids) <==> InSubtree(p, kids[0], r) || r in Subtrees(p, kids[1..])
  {
    hide Visit, IsReceipt;
  }

  lemma {:induction false} SubtreesCover(p: Bytes, kids: seq<Keyed<Node>>, r: Rec)
    ensures r in Subtrees(p, kids) <==> exists k :: k in kids && InSubtree(p, k, r)
  {
    hide InSubtree;
    if kids != [] {
      assert (exists k :: k in kids && InSubtree(p, k, r))
        <==> InSubtree(p, kids[0], r) || (exists k :: k in kids[1..] && InSubtree(p, k, r)) by {
        assert kids == [kids[0]] + kids[1..];
      }
      SubtreesCover(p, kids[1..], r);
      SubtreesFirst(p, kids, r);
    }
  }

  /** The records are exactly those of the objects in the tree. */
  lemma {:induction false} VisitCovers(p: Bytes, n: Node, r: Rec)
    requires n.Dir?
    ensures r in Visit(p, n) <==> Describes(p, n, r)
    decreases n
  {
    hide LeafRec, Leaves, Subtrees, Carries;
    LeavesCover(p, n.kids, r);
    SubtreesCover(p, n.kids, r);
    CarriesIff(p, n, r);
    forall k | k in n.kids && k.value.Dir?
      ensures r in Visit(Rel(p, k.key), k.value) <==> Describes(Rel(p, k.key), k.value, r)
    {
      VisitCovers(Rel(p, k.key), k.value, r);
    }
    assert r in Visit(p, n) <==> r == DirRec(p, n) || r in Leaves(p, n.kids) || r in Subtrees(p, n.kids);
    forall k | k in n.kids
      ensures IsLeafRec(p, k, r) || InSubtree(p, k, r) <==>
                var path := if p == ROOT then k.key else p + [SLASH] + k.key;
                path != RECEIPT && if k.value.Dir? then Describes(path, k.value, r) else Carries(path, k.value, r)
    {
      CarriesIff(Rel(p, k.key), k.value, r);
    }
  }

  ghost predicate DistinctPaths(records: seq<Rec>) {
    forall i, j | 0 <= i < j < |records| :: records[i].path != records[j].path
  }

  ghost predicate AtOrUnder(p: Bytes, x: Bytes) {
    x == p || Under(p, x)
  }

  ghost predicate Apart(a: seq<Rec>, b: seq<Rec>) {
    forall x, y | x in a && y in b :: x.path != y.path
  }

  lemma DistinctConcat(a: seq<Rec>, b: seq<Rec>)
    requires DistinctPaths(a) && DistinctPaths(b) && Apart(a, b)
    ensures DistinctPaths(a + b)
  {
    forall i, j | 0 <= i < j < |a + b| ensures (a + b)[i].path != (a + b)[j].path {
      if i < |a| <= j {
        assert a[i] in a && b[j - |a|] in b;
      }
    }
  }

  /** A path lies at or below at most one child of a directory. */
  lemma OneChild(p: Bytes, a: Bytes, b: Bytes, x: Bytes)
    requires Legal(a) && Legal(b) && AtOrUnder(Rel(p, a), x) && AtOrUnder(Rel(p, b), x)
    ensures a == b
  {
    RelUnder(p, a);
    RelUnder(p, b);
    if x == Rel(p, a) {
      SiblingsApart(p, b, a);
      RelInjectiveIf(p, a, b);
    } else if x == Rel(p, b) {
      SiblingsApart(p, a, b);
      RelInjectiveIf(p, a, b);
    } else {
      SameComponent(p, a, b, x);
    }
  }

  /** Component by component: below p, the path x continues with a slash after a and after b. */
  lemma SameComponent(p: Bytes, a: Bytes, b: Bytes, x: Bytes)
    requires SLASH !in a && SLASH !in b && Rel(p, a) + [SLASH] <= x && Rel(p, b) + [SLASH] <= x
    ensures a == b
  {
    hide Rel;
    var skip := if p == ROOT then 0 else |p| + 1;
    BelowAt(p, a, x, skip);
    BelowAt(p, b, x, skip);
    assert forall i | 0 <= i < |a| :: a[i] in a;
    assert forall i | 0 <= i < |b| :: b[i] in b;
    assert |a| == |b|;
  }

  lemma RelAt(p: Bytes, a: Bytes, skip: nat)
    requires skip == if p == ROOT then 0 else |p| + 1
    ensures var u := Rel(p, a) + [SLASH];
            |u| == skip + |a| + 1 && u[skip + |a|] == SLASH && u[skip..skip + |a|] == a
  {
  }

  lemma PrefixAt(u: Bytes, x: Bytes)
    requires u <= x
    ensures |u| <= |x| && forall i | 0 <= i < |u| :: x[i] == u[i]
  {
    assert u == x[..|u|];
  }

  lemma BelowAt(p: Bytes, a: Bytes, x: Bytes, skip: nat)
    requires Rel(p, a) + [SLASH] <= x && skip == if p == ROOT then 0 else |p| + 1
    ensures skip + |a| < |x| && x[skip..skip + |a|] == a && x[skip + |a|] == SLASH
  {
    RelAt(p, a, skip);
    PrefixAt(Rel(p, a) + [SLASH], x);
    hide Rel;
    SliceIs(Rel(p, a) + [SLASH], x, skip, a);
  }

  lemma SliceIs(u: Bytes, x: Bytes, skip: nat, a: Bytes)
    requires |u| == skip + |a| + 1 <= |x| && forall i | 0 <= i < |u| :: x[i] == u[i]
    requires u[skip..skip + |a|] == a
    ensures x[skip..skip + |a|] == a
  {
    assert x[skip..skip + |a|] == u[skip..skip + |a|];
  }

  lemma RelInjectiveIf(p: Bytes, a: Bytes, b: Bytes)
    ensures Rel(p, a) == Rel(p, b) ==> a == b
  {
    if Rel(p, a) == Rel(p, b) {
      RelInjective(p, a, b);
    }
  }

  lemma {:induction false} LeavesDistinct(p: Bytes, kids: seq<Keyed<Node>>)
    requires Listing(kids)
    ensures DistinctPaths(Leaves(p, kids))
  {
    if kids != [] {
      hide Valid, Less, DistinctPaths, LeafPart;
      var init, last := kids[..|kids| - 1], kids[|kids| - 1];
      LeavesDistinct(p, init);
      forall x, y | x in LeafPart(p, last) && y in Leaves(p, init) ensures x.path != y.path {
        LaterLeaf(p, kids, x, y);
      }
      OneLeaf(p, last);
      DistinctConcat(LeafPart(p, last), Leaves(p, init));
    }
  }

  lemma OneLeaf(p: Bytes, k: Keyed<Node>)
    ensures DistinctPaths(LeafPart(p, k))
  {
  }

  lemma LaterLeaf(p: Bytes, kids: seq<Keyed<Node>>, x: Rec, y: Rec)
    requires Listing(kids) && kids != []
    ensures x in LeafPart(p, kids[|kids| - 1]) && y in Leaves(p, kids[..|kids| - 1]) ==> x.path != y.path
  {
    hide Less, IsReceipt, Leaves, Valid;
    var init, last := kids[..|kids| - 1], kids[|kids| - 1];
    if y in Leaves(p, init) {
      var i := LeafPath(p, init, y);
      AscendingDistinct(kids);
      assert kids[i].key != last.key;
      RelInjectiveIf(p, init[i].key, last.key);
    }
  }

  lemma {:induction false} VisitBelow(p: Bytes, n: Node, r: Rec)
    requires n.Dir? && Valid(n) && r in Visit(p, n)
    ensures AtOrUnder(p, r.path)
    decreases n
  {
    hide IsReceipt, Leaves, Subtrees, Less;
    assert r == DirRec(p, n) || r in Leaves(p, n.kids) || r in Subtrees(p, n.kids);
    if r in Leaves(p, n.kids) {
      var i := LeafPath(p, n.kids, r);
      RelUnder(p, n.kids[i].key);
    } else if r in Subtrees(p, n.kids) {
      SubtreesCover(p, n.kids, r);
      var k :| k in n.kids && InSubtree(p, k, r);
      RelUnder(p, k.key);
      VisitBelow(Rel(p, k.key), k.value, r);
      if Under(Rel(p, k.key), r.path) {
        UnderChild(p, k.key, r.path);
      }
    }
  }

  lemma SubtreePath(p: Bytes, kids: seq<Keyed<Node>>, r: Rec) returns (i: nat)
    requires Listing(kids) && r in Subtrees(p, kids)
    ensures i < |kids| && IsSubtree(p, kids[i]) && AtOrUnder(Rel(p, kids[i].key), r.path)
  {
    hide IsReceipt, Subtrees, Visit, AtOrUnder;
    SubtreesCover(p, kids, r);
    var k :| k in kids && InSubtree(p, k, r);
    i :| 0 <= i < |kids| && kids[i] == k;
    VisitBelow(Rel(p, kids[i].key), kids[i].value, r);
  }

  lemma LeafPath(p: Bytes, kids: seq<Keyed<Node>>, r: Rec) returns (i: nat)
    requires r in Leaves(p, kids)
    ensures i < |kids| && IsLeaf(p, kids[i]) && r.path == Rel(p, kids[i].key)
  {
    hide Leaves, IsReceipt, Rel;
    LeavesCover(p, kids, r);
    var k :| k in kids && IsLeafRec(p, k, r);
    i :| 0 <= i < |kids| && kids[i] == k;
  }

  lemma {:induction false} SubtreesDistinct(p: Bytes, kids: seq<Keyed<Node>>)
    requires Listing(kids)
    ensures DistinctPaths(Subtrees(p, kids))
    decreases kids
  {
    hide IsReceipt, Visit, Less, AtOrUnder;
    if kids != [] {
      ListingTail(kids);
      SubtreesDistinct(p, kids[1..]);
      if IsSubtree(p, kids[0]) {
        var q := Rel(p, kids[0].key);
        VisitDistinct(q, kids[0].value);
        forall x, y | x in Visit(q, kids[0].value) && y in Subtrees(p, kids[1..]) ensures x.path != y.path {
          VisitBelow(q, kids[0].value, x);
          var j := SubtreePath(p, kids[1..], y);
          assert Less(kids[0].key, kids[j + 1].key);
          LessIrreflexive(kids[0].key);
          if x.path == y.path {
            OneChild(p, kids[0].key, kids[j + 1].key, x.path);
          }
        }
        DistinctConcat(Visit(q, kids[0].value), Subtrees(p, kids[1..]));
      } else {
        SubtreesSkip(p, kids);
      }
    }
  }

  lemma UnderIsBelow(p: Bytes, x: Bytes)
    requires Under(p, x)
    ensures x != p
  {
  }

  /** No path is recorded twice. */
  lemma {:induction false} VisitDistinct(p: Bytes, n: Node)
    requires n.Dir? && Valid(n)
    ensures DistinctPaths(Visit(p, n))
    decreases n
  {
    hide IsReceipt, Leaves, Subtrees, Less, AtOrUnder, Valid, Under;
    ValidListing(n);
    LeavesDistinct(p, n.kids);
    SubtreesDistinct(p, n.kids);
    var d, l, s := [DirRec(p, n)], Leaves(p, n.kids), Subtrees(p, n.kids);
    forall x, y | x in d && y in l ensures x.path != y.path {
      var i := LeafPath(p, n.kids, y);
      RelUnder(p, n.kids[i].key);
      UnderIsBelow(p, y.path);
    }
    DistinctConcat(d, l);
    forall x, y | x in d + l && y in s ensures x.path != y.path {
      var j := SubtreePath(p, n.kids, y);
      SubtreeBelow(p, n.kids[j].key, y.path);
      if x in l {
        var i := LeafPath(p, n.kids, x);
        LeafIsNotSubtree(p, n.kids, i, j, y.path);
      }
    }
    DistinctConcat(d + l, s);
  }

  lemma SubtreeBelow(p: Bytes, a: Bytes, x: Bytes)
    requires Legal(a) && AtOrUnder(Rel(p, a), x)
    ensures x != p
  {
    RelUnder(p, a);
    if x != Rel(p, a) {
      UnderChild(p, a, x);
    }
    UnderIsBelow(p, x);
  }

  lemma LeafIsNotSubtree(p: Bytes, kids: seq<Keyed<Node>>, i: nat, j: nat, x: Bytes)
    requires Listing(kids) && i < |kids| && j < |kids| && IsLeaf(p, kids[i]) && IsSubtree(p, kids[j])
    requires AtOrUnder(Rel(p, kids[j].key), x)
    ensures Rel(p, kids[i].key) != x
  {
    hide Less, IsReceipt;
    AscendingDistinct(kids);
    if Rel(p, kids[i].key) == x {
      OneChild(p, kids[i].key, kids[j].key, x);
    }
  }

  // --------------------------------------------------------------- the order

  /** Of two children of one directory, k comes before m: whatever is no directory
      before every directory, by descending name, and then directories by ascending name. */
  ghost predicate Earlier(k: Keyed<Node>, m: Keyed<Node>) {
    if k.value.Dir? then m.value.Dir? && Less(k.key, m.key) else m.value.Dir? || Less(m.key, k.key)
  }

  /** x and y lie at or below two children of which x's comes first. */
  ghost predicate SplitBy(p: Bytes, kids: seq<Keyed<Node>>, x: Bytes, y: Bytes) {
    exists i, j :: 0 <= i < |kids| && 0 <= j < |kids| && Earlier(kids[i], kids[j])
                   && AtOrUnder(Rel(p, kids[i].key), x) && AtOrUnder(Rel(p, kids[j].key), y)
  }

  /** The order of the stream on the paths of a tree: a directory before what is in it. */
  ghost predicate Before(p: Bytes, n: Node, x: Bytes, y: Bytes)
    requires n.Dir?
    decreases n
  {
    || (x == p && y != p)
    || SplitBy(p, n.kids, x, y)
    || exists k | k in n.kids :: k.value.Dir? && Before(Rel(p, k.key), k.value, x, y)
  }

  ghost predicate WithinOne(p: Bytes, kids: seq<Keyed<Node>>, x: Bytes, y: Bytes)
    decreases kids, 0
  {
    exists k | k in kids :: k.value.Dir? && Before(Rel(p, k.key), k.value, x, y)
  }

  lemma {:induction false} LeavesOrdered(p: Bytes, kids: seq<Keyed<Node>>, i: nat, j: nat)
    requires Listing(kids) && i < j < |Leaves(p, kids)|
    ensures SplitBy(p, kids, Leaves(p, kids)[i].path, Leaves(p, kids)[j].path)
  {
    hide Leaves, LeafPart, Less, Valid, Rel, IsReceipt, Under;
    LeavesSplit(p, kids);
    var all, init, last := Leaves(p, kids), kids[..|kids| - 1], kids[|kids| - 1];
    var skip := |LeafPart(p, last)|;
    ListingInit(kids);
    if i < skip {
      assert all[i] in LeafPart(p, last) && all[j] in Leaves(p, init);
      var b := LeafPath(p, init, all[j]);
      assert kids[b] == init[b] && Less(kids[b].key, last.key);
      assert Earlier(kids[|kids| - 1], kids[b]);
    } else {
      LeavesOrdered(p, init, i - skip, j - skip);
      SplitGrows(p, init, kids, 0, all[i].path, all[j].path);
    }
  }

  lemma LeavesSplit(p: Bytes, kids: seq<Keyed<Node>>)
    ensures kids == [] ==> Leaves(p, kids) == []
    ensures kids != [] ==>
              var init, last := kids[..|kids| - 1], kids[|kids| - 1];
              && Leaves(p, kids) == LeafPart(p, last) + Leaves(p, init)
              && |LeafPart(p, last)| <= 1
              && forall r | r in LeafPart(p, last) :: r.path == Rel(p, last.key) && !last.value.Dir?
  {
    hide IsReceipt;
  }

  lemma ListingInit(kids: seq<Keyed<Node>>)
    requires Listing(kids) && kids != []
    ensures Listing(kids[..|kids| - 1])
  {
    hide Less, Valid;
  }

  /** A pair of children stays a pair in a longer listing. */
  lemma SplitGrows(p: Bytes, part: seq<Keyed<Node>>, kids: seq<Keyed<Node>>, skip: nat, x: Bytes, y: Bytes)
    requires skip + |part| <= |kids| && forall i | 0 <= i < |part| :: kids[skip + i] == part[i]
    requires SplitBy(p, part, x, y)
    ensures SplitBy(p, kids, x, y)
  {
    hide Earlier, AtOrUnder, Rel;
    var i, j :| 0 <= i < |part| && 0 <= j < |part| && Earlier(part[i], part[j])
                && AtOrUnder(Rel(p, part[i].key), x) && AtOrUnder(Rel(p, part[j].key), y);
    assert Earlier(kids[skip + i], kids[skip + j]);
  }

  lemma {:induction false} SubtreesOrdered(p: Bytes, kids: seq<Keyed<Node>>, i: nat, j: nat)
    requires Listing(kids) && i < j < |Subtrees(p, kids)|
    ensures SplitBy(p, kids, Subtrees(p, kids)[i].path, Subtrees(p, kids)[j].path)
         || WithinOne(p, kids, Subtrees(p, kids)[i].path, Subtrees(p, kids)[j].path)
    decreases kids
  {
    hide Visit, Subtrees, Less, Valid, Rel, IsReceipt, AtOrUnder, Before;
    var all := Subtrees(p, kids);
    SubtreesEmpty(p);
    var first := kids[0];
    ListingTail(kids);
    if IsSubtree(p, first) {
      SubtreesStep(p, kids);
      var q := Rel(p, first.key);
      var v := Visit(q, first.value);
      if j < |v| {
        VisitOrdered(q, first.value, i, j);
      } else if i < |v| {
        assert all[i] in v && all[j] in Subtrees(p, kids[1..]);
        VisitBelow(q, first.value, all[i]);
        var b := SubtreePath(p, kids[1..], all[j]);
        assert kids[1..][b] == kids[b + 1] && Less(first.key, kids[b + 1].key);
        assert Earlier(kids[0], kids[b + 1]);
      } else {
        SubtreesOrdered(p, kids[1..], i - |v|, j - |v|);
        RestOrdered(p, kids, all[i].path, all[j].path);
      }
    } else {
      SubtreesSkip(p, kids);
      SubtreesOrdered(p, kids[1..], i, j);
      RestOrdered(p, kids, all[i].path, all[j].path);
    }
  }

  lemma SubtreesEmpty(p: Bytes)
    ensures Subtrees(p, []) == []
  {
  }

  lemma RestOrdered(p: Bytes, kids: seq<Keyed<Node>>, x: Bytes, y: Bytes)
    requires kids != [] && (SplitBy(p, kids[1..], x, y) || WithinOne(p, kids[1..], x, y))
    ensures SplitBy(p, kids, x, y) || WithinOne(p, kids, x, y)
  {
    hide Before, SplitBy;
    if SplitBy(p, kids[1..], x, y) {
      SplitGrows(p, kids[1..], kids, 1, x, y);
    }
  }

  /** The records come in the order that Before states, so with VisitCovers and
      VisitDistinct the whole stream is fixed without naming the traversal. */
  lemma {:induction false} VisitOrdered(p: Bytes, n: Node, i: nat, j: nat)
    requires n.Dir? && Valid(n) && i < j < |Visit(p, n)|
    ensures Before(p, n, Visit(p, n)[i].path, Visit(p, n)[j].path)
    decreases n
  {
    hide Leaves, Subtrees, Less, Valid, Rel, IsReceipt, AtOrUnder, SplitBy, DistinctPaths;
    ValidListing(n);
    var v, l, t := Visit(p, n), Leaves(p, n.kids), Subtrees(p, n.kids);
    assert v == [DirRec(p, n)] + l + t;
    if i == 0 {
      VisitDistinct(p, n);
      FirstApart(v, j);
    } else if j < 1 + |l| {
      LeavesOrdered(p, n.kids, i - 1, j - 1);
    } else if i < 1 + |l| {
      assert v[i] in l && v[j] in t;
      LeafBeforeSubtree(p, n.kids, v[i], v[j]);
    } else {
      SubtreesOrdered(p, n.kids, i - 1 - |l|, j - 1 - |l|);
    }
  }

  lemma FirstApart(v: seq<Rec>, j: nat)
    requires DistinctPaths(v) && 0 < j < |v|
    ensures v[0].path != v[j].path
  {
  }

  lemma LeafBeforeSubtree(p: Bytes, kids: seq<Keyed<Node>>, x: Rec, y: Rec)
    requires Listing(kids) && x in Leaves(p, kids) && y in Subtrees(p, kids)
    ensures SplitBy(p, kids, x.path, y.path)
  {
    hide Leaves, Subtrees, Less, Valid, Rel, IsReceipt, Under;
    var i := LeafPath(p, kids, x);
    var j := SubtreePath(p, kids, y);
    assert Earlier(kids[i], kids[j]);
  }
}
