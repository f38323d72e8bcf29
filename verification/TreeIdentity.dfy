/** The record stream determines the tree: reading the traversal back. */
module TreeIdentity {
  import opened Bytes
  import opened Order
  import opened TreeDigest

  /** x lies strictly below directory p. */
  ghost predicate Under(p: Bytes, x: Bytes) {
    if p == ROOT then x != ROOT else p + [SLASH] <= x
  }

  /** What can follow the records of directory p: nothing, or a directory elsewhere. */
  ghost predicate Foreign(p: Bytes, r: seq<Rec>) {
    r == [] || (r[0].kind == D && !Under(p, r[0].path))
  }

  lemma RelUnder(p: Bytes, a: Bytes)
    requires Legal(a)
    ensures Rel(p, a) != ROOT && Under(p, Rel(p, a))
    ensures p != ROOT ==> Rel(p, a) != RECEIPT
  {
    if p != ROOT {
      assert Rel(p, a)[|p|] == SLASH;
      assert SLASH !in RECEIPT;
    }
  }

  lemma RelInjective(p: Bytes, a: Bytes, b: Bytes)
    requires Rel(p, a) == Rel(p, b)
    ensures a == b
  {
    if p != ROOT {
      var n := |p| + 1;
      assert Rel(p, a)[n..] == a && Rel(p, b)[n..] == b;
    }
  }

  lemma SiblingsApart(p: Bytes, a: Bytes, b: Bytes)
    requires Legal(a) && Legal(b)
    ensures !Under(Rel(p, a), Rel(p, b))
  {
    RelUnder(p, a);
    var x, y := Rel(p, a), Rel(p, b);
    var skip := if p == ROOT then 0 else |p| + 1;
    assert forall i | skip <= i < |y| :: y[i] == b[i - skip];
    assert (x + [SLASH])[|x|] == SLASH;
  }

  lemma UnderChild(p: Bytes, a: Bytes, x: Bytes)
    requires Legal(a) && Under(Rel(p, a), x)
    ensures Under(p, x)
  {
    RelUnder(p, a);
    var c := Rel(p, a) + [SLASH];
    assert x[..|c|] == c;
    if p == ROOT {
      assert x[|a|] == c[|a|] == SLASH;
    } else {
      assert c[..|p| + 1] == p + [SLASH];
      assert x[..|p| + 1] == c[..|p| + 1];
    }
  }

  // ------------------------------------------------------------- the pieces

  /** A listing without the root receipt. */
  ghost function Kept(p: Bytes, kids: seq<Keyed<Node>>): seq<Keyed<Node>> {
    if kids == [] then [] else
      Kept(p, kids[..|kids| - 1]) + if IsReceipt(p, kids[|kids| - 1]) then [] else [kids[|kids| - 1]]
  }

  lemma {:induction false} KeptMembers(p: Bytes, kids: seq<Keyed<Node>>)
    ensures forall k :: k in Kept(p, kids) <==> k in kids && !IsReceipt(p, k)
  {
    if kids != [] {
      KeptMembers(p, kids[..|kids| - 1]);
      assert kids == kids[..|kids| - 1] + [kids[|kids| - 1]];
    }
  }

  lemma {:induction false} KeptAscending(p: Bytes, kids: seq<Keyed<Node>>)
    requires Ascending(kids)
    ensures Ascending(Kept(p, kids))
  {
    hide Less;
    if kids != [] {
      var init := kids[..|kids| - 1];
      KeptAscending(p, init);
      KeptMembers(p, init);
      var s := Kept(p, init);
      forall i | 0 <= i < |s| ensures Less(s[i].key, kids[|kids| - 1].key) {
        assert s[i] in s;
        var j :| 0 <= j < |init| && init[j] == s[i];
        assert kids[j] == s[i];
      }
    }
  }

  lemma NoReceiptBelow(p: Bytes, k: Keyed<Node>)
    requires p != ROOT && Legal(k.key)
    ensures !IsReceipt(p, k)
  {
    RelUnder(p, k.key);
  }

  lemma {:induction false} KeptBelowRoot(p: Bytes, kids: seq<Keyed<Node>>)
    requires p != ROOT && forall i | 0 <= i < |kids| :: Legal(kids[i].key)
    ensures Kept(p, kids) == kids
  {
    hide Legal, IsReceipt, Rel;
    if kids != [] {
      var init, last := kids[..|kids| - 1], kids[|kids| - 1];
      KeptBelowRoot(p, init);
      NoReceiptBelow(p, last);
      assert kids == init + [last];
    }
  }

  lemma {:induction false} LeavesAreLeaves(p: Bytes, kids: seq<Keyed<Node>>)
    ensures forall i | 0 <= i < |Leaves(p, kids)| :: Leaves(p, kids)[i].kind != D
  {
    if kids != [] {
      LeavesAreLeaves(p, kids[..|kids| - 1]);
    }
  }

  lemma {:induction false} SubtreesStart(p: Bytes, kids: seq<Keyed<Node>>, r: seq<Rec>)
    requires r == [] || r[0].kind == D
    ensures var s := Subtrees(p, kids) + r; s == [] || s[0].kind == D
  {
    if kids != [] {
      SubtreesStart(p, kids[1..], r);
    }
  }

  /** The run of non-directories ends where the first directory record begins. */
  lemma CutLeaves(l1: seq<Rec>, x: seq<Rec>, l2: seq<Rec>, y: seq<Rec>)
    requires l1 + x == l2 + y
    requires forall i | 0 <= i < |l1| :: l1[i].kind != D
    requires forall i | 0 <= i < |l2| :: l2[i].kind != D
    requires (x == [] || x[0].kind == D) && (y == [] || y[0].kind == D)
    ensures l1 == l2 && x == y
  {
    var s := l1 + x;
    assert x != [] ==> (l1 + x)[|l1|] == x[0];
    assert y != [] ==> (l2 + y)[|l2|] == y[0];
    assert forall i | 0 <= i < |l1| :: (l1 + x)[i] == l1[i];
    assert forall i | 0 <= i < |l2| :: (l2 + y)[i] == l2[i];
    assert |l1| == |l2|;
    assert s[..|l1|] == l1 && s[..|l1|] == l2;
    assert s[|l1|..] == x && s[|l1|..] == y;
  }

  ghost predicate IsLeaf(p: Bytes, k: Keyed<Node>) {
    !IsReceipt(p, k) && !k.value.Dir?
  }

  ghost predicate IsSubtree(p: Bytes, k: Keyed<Node>) {
    !IsReceipt(p, k) && k.value.Dir?
  }

  lemma LeafDetermines(p: Bytes, a: Keyed<Node>, b: Keyed<Node>)
    requires IsLeaf(p, a) && IsLeaf(p, b) && LeafRec(Rel(p, a.key), a.value) == LeafRec(Rel(p, b.key), b.value)
    ensures a == b
  {
    RelInjective(p, a.key, b.key);
  }

  lemma LastMember(kids: seq<Keyed<Node>>, k: Keyed<Node>)
    requires kids != []
    ensures k in kids <==> k in kids[..|kids| - 1] || k == kids[|kids| - 1]
  {
    assert kids == kids[..|kids| - 1] + [kids[|kids| - 1]];
  }

  lemma FirstMember(kids: seq<Keyed<Node>>, k: Keyed<Node>)
    requires kids != []
    ensures k in kids <==> k == kids[0] || k in kids[1..]
  {
    assert kids == [kids[0]] + kids[1..];
  }

  lemma {:induction false} LeavesDetermine(p: Bytes, a: seq<Keyed<Node>>, b: seq<Keyed<Node>>, k: Keyed<Node>)
    requires Leaves(p, a) == Leaves(p, b) && IsLeaf(p, k)
    ensures k in a <==> k in b
    decreases |a| + |b|
  {
    hide LeafRec, IsReceipt;
    if a != [] {
      LastMember(a, k);
    }
    if b != [] {
      LastMember(b, k);
    }
    if a != [] && !IsLeaf(p, a[|a| - 1]) {
      LeavesDetermine(p, a[..|a| - 1], b, k);
    } else if b != [] && !IsLeaf(p, b[|b| - 1]) {
      LeavesDetermine(p, a, b[..|b| - 1], k);
    } else if a != [] && b != [] {
      var x, y := a[|a| - 1], b[|b| - 1];
      assert Leaves(p, a)[0] == LeafRec(Rel(p, x.key), x.value);
      assert Leaves(p, b)[0] == LeafRec(Rel(p, y.key), y.value);
      LeafDetermines(p, x, y);
      assert Leaves(p, a)[1..] == Leaves(p, a[..|a| - 1]) && Leaves(p, b)[1..] == Leaves(p, b[..|b| - 1]);
      LeavesDetermine(p, a[..|a| - 1], b[..|b| - 1], k);
    }
  }

  // ---------------------------------------------------------------- the tree

  ghost predicate Listing(kids: seq<Keyed<Node>>) {
    && Ascending(kids)
    && forall i | 0 <= i < |kids| :: Legal(kids[i].key) && Valid(kids[i].value)
  }

  lemma ListingTail(kids: seq<Keyed<Node>>)
    requires Listing(kids) && kids != []
    ensures Listing(kids[1..])
  {
  }

  lemma SubtreesSkip(p: Bytes, kids: seq<Keyed<Node>>)
    requires kids != [] && !IsSubtree(p, kids[0])
    ensures Subtrees(p, kids) == Subtrees(p, kids[1..])
  {
    assert [] + Subtrees(p, kids[1..]) == Subtrees(p, kids[1..]);
  }

  /** What follows the first subtree of a listing is foreign to it. */
  lemma {:induction false} RestForeign(p: Bytes, name: Bytes, kids: seq<Keyed<Node>>, r: seq<Rec>)
    requires Legal(name) && Foreign(p, r) && forall i | 0 <= i < |kids| :: Legal(kids[i].key)
    ensures Foreign(Rel(p, name), Subtrees(p, kids) + r)
  {
    hide Rel, IsReceipt, Under;
    if kids == [] {
      assert Subtrees(p, kids) + r == r;
      if r != [] && Under(Rel(p, name), r[0].path) {
        UnderChild(p, name, r[0].path);
      }
    } else {
      RestForeign(p, name, kids[1..], r);
      if IsSubtree(p, kids[0]) {
        SiblingsApart(p, name, kids[0].key);
        SubtreesHead(p, kids, r);
        assert Subtrees(p, kids) + r != [];
      } else {
        SubtreesSkip(p, kids);
      }
    }
  }

  lemma SubtreesHead(p: Bytes, kids: seq<Keyed<Node>>, r: seq<Rec>)
    requires kids != [] && IsSubtree(p, kids[0])
    ensures Subtrees(p, kids) + r == Visit(Rel(p, kids[0].key), kids[0].value) + (Subtrees(p, kids[1..]) + r)
    ensures (Subtrees(p, kids) + r)[0] == DirRec(Rel(p, kids[0].key), kids[0].value)
  {
    hide Visit, Subtrees, IsReceipt, Rel, DirRec;
    var v, rest := Visit(Rel(p, kids[0].key), kids[0].value), Subtrees(p, kids[1..]);
    VisitHead(Rel(p, kids[0].key), kids[0].value);
    SubtreesStep(p, kids);
    assert (v + rest) + r == v + (rest + r);
  }

  lemma VisitHead(p: Bytes, n: Node)
    requires n.Dir?
    ensures Visit(p, n) != [] && Visit(p, n)[0] == DirRec(p, n)
  {
    hide Leaves, Subtrees, DirRec;
  }

  lemma SubtreesStep(p: Bytes, kids: seq<Keyed<Node>>)
    requires kids != [] && IsSubtree(p, kids[0])
    ensures Subtrees(p, kids) == Visit(Rel(p, kids[0].key), kids[0].value) + Subtrees(p, kids[1..])
  {
    hide Visit, Rel;
  }

  /** Equal record sequences from two directories at the same place come from
      equal directories, up to the root receipt. */
  lemma {:induction false} VisitDetermines(p: Bytes, a: Node, b: Node, x: seq<Rec>, y: seq<Rec>)
    requires a.Dir? && b.Dir? && Valid(a) && Valid(b) && Foreign(p, x) && Foreign(p, y)
    requires Visit(p, a) + x == Visit(p, b) + y
    ensures x == y && a.mode == b.mode && a.uid == b.uid && Kept(p, a.kids) == Kept(p, b.kids)
    decreases a, 0
  {
    hide Leaves, Subtrees, IsReceipt, Kept, Under, Valid;
    var l1, l2 := Leaves(p, a.kids), Leaves(p, b.kids);
    var s1, s2 := Subtrees(p, a.kids) + x, Subtrees(p, b.kids) + y;
    assert Visit(p, a) + x == [DirRec(p, a)] + (l1 + s1);
    assert Visit(p, b) + y == [DirRec(p, b)] + (l2 + s2);
    assert ([DirRec(p, a)] + (l1 + s1))[0] == DirRec(p, a) && ([DirRec(p, b)] + (l2 + s2))[0] == DirRec(p, b);
    assert ([DirRec(p, a)] + (l1 + s1))[1..] == l1 + s1 && ([DirRec(p, b)] + (l2 + s2))[1..] == l2 + s2;
    LeavesAreLeaves(p, a.kids);
    LeavesAreLeaves(p, b.kids);
    SubtreesStart(p, a.kids, x);
    SubtreesStart(p, b.kids, y);
    CutLeaves(l1, s1, l2, s2);
    ValidListing(a);
    ValidListing(b);
    SubtreesDetermine(p, a.kids, b.kids, x, y);
    forall k | IsLeaf(p, k) ensures k in a.kids <==> k in b.kids {
      LeavesDetermine(p, a.kids, b.kids, k);
    }
    KeptSame(p, a.kids, b.kids);
  }

  lemma ValidListing(n: Node)
    requires n.Dir?
    ensures Valid(n) <==> Listing(n.kids)
  {
  }

  lemma KeptSame(p: Bytes, a: seq<Keyed<Node>>, b: seq<Keyed<Node>>)
    requires Ascending(a) && Ascending(b)
    requires forall k | IsLeaf(p, k) :: k in a <==> k in b
    requires forall k | IsSubtree(p, k) :: k in a <==> k in b
    ensures Kept(p, a) == Kept(p, b)
  {
    hide IsReceipt, Kept, Ascending;
    KeptAscending(p, a);
    KeptAscending(p, b);
    KeptMembers(p, a);
    KeptMembers(p, b);
    forall k ensures k in Kept(p, a) <==> k in Kept(p, b) {
      assert IsLeaf(p, k) || IsSubtree(p, k) || IsReceipt(p, k);
    }
    AscendingUnique(Kept(p, a), Kept(p, b));
  }

  lemma {:induction false} SubtreesDetermine(p: Bytes, a: seq<Keyed<Node>>, b: seq<Keyed<Node>>, x: seq<Rec>,
                                             y: seq<Rec>)
    requires Listing(a) && Listing(b) && Foreign(p, x) && Foreign(p, y)
    requires Subtrees(p, a) + x == Subtrees(p, b) + y
    ensures x == y && forall k | IsSubtree(p, k) :: k in a <==> k in b
    decreases a, |b|
  {
    hide Visit, Subtrees, Listing, Foreign, Rel, IsReceipt;
    if a != [] && !IsSubtree(p, a[0]) {
      ListingTail(a);
      SubtreesSkip(p, a);
      SubtreesDetermine(p, a[1..], b, x, y);
      forall k | IsSubtree(p, k) ensures k in a <==> k in b {
        FirstMember(a, k);
      }
    } else if b != [] && !IsSubtree(p, b[0]) {
      ListingTail(b);
      SubtreesSkip(p, b);
      SubtreesDetermine(p, a, b[1..], x, y);
      forall k | IsSubtree(p, k) ensures k in a <==> k in b {
        FirstMember(b, k);
      }
    } else if a != [] && b != [] {
      SubtreesPair(p, a, b, x, y);
    } else {
      NoSubtreeLeft(p, a, x, y);
      NoSubtreeLeft(p, b, y, x);
      SubtreesNone(p, x);
      SubtreesNone(p, y);
    }
  }

  lemma SubtreesNone(p: Bytes, r: seq<Rec>)
    ensures Subtrees(p, []) + r == r
  {
  }

  lemma NoSubtreeLeft(p: Bytes, kids: seq<Keyed<Node>>, x: seq<Rec>, y: seq<Rec>)
    requires Listing(kids) && Foreign(p, y)
    requires kids != [] ==> IsSubtree(p, kids[0])
    ensures Subtrees(p, kids) + x == y ==> kids == []
  {
    if kids != [] {
      SubtreesHead(p, kids, x);
      RelUnder(p, kids[0].key);
    }
  }

  lemma {:induction false} SubtreesPair(p: Bytes, a: seq<Keyed<Node>>, b: seq<Keyed<Node>>, x: seq<Rec>, y: seq<Rec>)
    requires Listing(a) && Listing(b) && Foreign(p, x) && Foreign(p, y)
    requires Subtrees(p, a) + x == Subtrees(p, b) + y
    requires a != [] && b != [] && IsSubtree(p, a[0]) && IsSubtree(p, b[0])
    ensures x == y && forall k | IsSubtree(p, k) :: k in a <==> k in b
    decreases a, |b|, 0
  {
    hide Visit, Subtrees, Foreign, Rel, IsReceipt, Kept;
    var i, j := a[0], b[0];
    SubtreesHead(p, a, x);
    SubtreesHead(p, b, y);
    RelInjective(p, i.key, j.key);
    var q := Rel(p, i.key);
    RestForeign(p, i.key, a[1..], x);
    RestForeign(p, i.key, b[1..], y);
    VisitDetermines(q, i.value, j.value, Subtrees(p, a[1..]) + x, Subtrees(p, b[1..]) + y);
    RelUnder(p, i.key);
    ValidListing(i.value);
    ValidListing(j.value);
    KeptBelowRoot(q, i.value.kids);
    KeptBelowRoot(q, j.value.kids);
    assert i == j;
    ListingTail(a);
    ListingTail(b);
    SubtreesDetermine(p, a[1..], b[1..], x, y);
    forall k | IsSubtree(p, k) ensures k in a <==> k in b {
      FirstMember(a, k);
      FirstMember(b, k);
    }
  }

  // ------------------------------------------------------------ the theorem

  ghost function Pruned(n: Node): Node
    requires n.Dir?
  {
    Dir(n.mode, n.uid, Kept(ROOT, n.kids))
  }

  lemma {:induction false} LeavesOfKept(p: Bytes, kids: seq<Keyed<Node>>)
    ensures Leaves(p, Kept(p, kids)) == Leaves(p, kids)
  {
    hide IsReceipt, LeafRec;
    if kids != [] {
      var init, last := kids[..|kids| - 1], kids[|kids| - 1];
      LeavesOfKept(p, init);
      if IsReceipt(p, last) {
        assert Kept(p, kids) == Kept(p, init);
        assert LeafPart(p, last) + Leaves(p, init) == Leaves(p, init);
      } else {
        assert Kept(p, kids)[..|Kept(p, kids)| - 1] == Kept(p, init);
      }
    }
  }

  lemma {:induction false} SubtreesConcat(p: Bytes, a: seq<Keyed<Node>>, b: seq<Keyed<Node>>)
    ensures Subtrees(p, a + b) == Subtrees(p, a) + Subtrees(p, b)
  {
    hide Visit, IsReceipt;
    if a == [] {
      assert a + b == b;
    } else {
      assert (a + b)[1..] == a[1..] + b;
      SubtreesConcat(p, a[1..], b);
    }
  }

  lemma {:induction false} SubtreesOfKept(p: Bytes, kids: seq<Keyed<Node>>)
    ensures Subtrees(p, Kept(p, kids)) == Subtrees(p, kids)
  {
    hide Visit, IsReceipt, Subtrees;
    if kids != [] {
      var init, last := kids[..|kids| - 1], kids[|kids| - 1];
      SubtreesOfKept(p, init);
      SubtreesConcat(p, init, [last]);
      assert kids == init + [last];
      if IsReceipt(p, last) {
        assert Kept(p, kids) == Kept(p, init);
        SubtreesSkip(p, [last]);
        SubtreesNone(p, []);
        assert [last][1..] == [] && Subtrees(p, []) == [];
      } else {
        SubtreesConcat(p, Kept(p, init), [last]);
      }
    }
  }

  /** Two accepted trees give the same stream exactly when they are the same tree
      apart from the root receipt. */
  lemma StreamDeterminesTree(a: Node, b: Node)
    requires a.Dir? && b.Dir? && Valid(a) && Valid(b)
    requires AllEncodable(Visit(ROOT, a)) && AllEncodable(Visit(ROOT, b))
    ensures Encoded(Visit(ROOT, a)) == Encoded(Visit(ROOT, b)) <==> Pruned(a) == Pruned(b)
  {
    hide Leaves, Subtrees, Kept, Encoded, AllEncodable, Valid;
    if Encoded(Visit(ROOT, a)) == Encoded(Visit(ROOT, b)) {
      EncodedInjective(Visit(ROOT, a), Visit(ROOT, b));
      assert Visit(ROOT, a) + [] == Visit(ROOT, b) + [];
      VisitDetermines(ROOT, a, b, [], []);
    }
    LeavesOfKept(ROOT, a.kids);
    LeavesOfKept(ROOT, b.kids);
    SubtreesOfKept(ROOT, a.kids);
    SubtreesOfKept(ROOT, b.kids);
  }
}
