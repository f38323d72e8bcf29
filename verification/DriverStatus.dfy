/** Driver families of the HAL: roots under the underscore-bounded prefix order,
    and the attribution of headers and sources to them. */
module DriverStatus {
  import opened Bytes
  import opened Order
  import opened Outcomes

  const UNDERSCORE: Byte := 95
  /** "ra8_" */
  const RA8: Bytes := [114, 97, 56, 95]

  /** The family order: equal names, or root followed by an underscore and more. */
  predicate Extends(name: Bytes, root: Bytes) {
    name == root || root + [UNDERSCORE] <= name
  }

  // ------------------------------------------------------------ the order

  lemma ExtendsPrefix(name: Bytes, root: Bytes)
    requires Extends(name, root)
    ensures root <= name && (name == root || (|root| < |name| && name[|root|] == UNDERSCORE))
  {
    if name != root {
      var r := root + [UNDERSCORE];
      assert name[..|r|] == r;
      assert name[..|root|] == r[..|root|];
      assert name[|root|] == r[|root|];
    }
  }

  lemma PrefixExtends(name: Bytes, root: Bytes)
    requires root <= name && (name == root || (|root| < |name| && name[|root|] == UNDERSCORE))
    ensures Extends(name, root)
  {
    if name != root {
      assert name[..|root| + 1] == root + [UNDERSCORE];
    }
  }

  lemma ExtendsTransitive(a: Bytes, b: Bytes, c: Bytes)
    requires Extends(a, b) && Extends(b, c)
    ensures Extends(a, c)
  {
    ExtendsPrefix(a, b);
    ExtendsPrefix(b, c);
    assert c <= a;
    PrefixExtends(a, c);
  }

  /** Two roots of one name are comparable, the longer one extending the shorter. */
  lemma RootsComparable(name: Bytes, a: Bytes, b: Bytes)
    requires Extends(name, a) && Extends(name, b) && |a| <= |b|
    ensures Extends(b, a)
  {
    ExtendsPrefix(name, a);
    ExtendsPrefix(name, b);
    assert name[..|a|] == a && name[..|b|] == b;
    assert b[..|a|] == name[..|a|];
    PrefixExtends(b, a);
  }

  // ------------------------------------------------------------- families

  function FamilyRoots(names: set<Bytes>): set<Bytes> {
    set n | n in names && forall m | m in names :: m != n ==> !Extends(n, m)
  }

  /** No root of a family extends another. */
  lemma RootsAreAntichain(names: set<Bytes>, a: Bytes, b: Bytes)
    requires a in FamilyRoots(names) && b in FamilyRoots(names) && Extends(a, b)
    ensures a == b
  {
  }

  lemma {:induction false} RootExists(names: set<Bytes>, n: Bytes) returns (r: Bytes)
    requires n in names
    ensures r in FamilyRoots(names) && Extends(n, r)
    decreases |n|
  {
    if m :| m in names && m != n && Extends(n, m) {
      ExtendsPrefix(n, m);
      r := RootExists(names, m);
      ExtendsTransitive(n, m, r);
    } else {
      r := n;
    }
  }

  /** Every name has exactly one root, itself one of the names. */
  lemma OneRoot(names: set<Bytes>, n: Bytes) returns (r: Bytes)
    requires n in names
    ensures r in names
    ensures forall q :: q in FamilyRoots(names) && Extends(n, q) <==> q == r
  {
    r := RootExists(names, n);
    forall q | q in FamilyRoots(names) && Extends(n, q) ensures q == r {
      if |q| <= |r| {
        RootsComparable(n, q, r);
        RootsAreAntichain(names, r, q);
      } else {
        RootsComparable(n, r, q);
        RootsAreAntichain(names, q, r);
      }
    }
  }

  // --------------------------------------------------------------- owners

  function InsertByLength(x: Bytes, s: seq<Bytes>): seq<Bytes> {
    if s == [] || |s[0]| <= |x| then [x] + s else [s[0]] + InsertByLength(x, s[1..])
  }

  /** Longer roots before shorter ones, equally long ones in their given order. */
  function LongestFirst(roots: seq<Bytes>): seq<Bytes> {
    if roots == [] then [] else InsertByLength(roots[0], LongestFirst(roots[1..]))
  }

  ghost predicate ByLength(s: seq<Bytes>) {
    forall i, j | 0 <= i < j < |s| :: |s[j]| <= |s[i]|
  }

  lemma {:induction false} InsertByLengthFacts(x: Bytes, s: seq<Bytes>)
    requires ByLength(s)
    ensures ByLength(InsertByLength(x, s))
    ensures forall y :: y in InsertByLength(x, s) <==> y == x || y in s
  {
    if s != [] && |x| < |s[0]| {
      InsertByLengthFacts(x, s[1..]);
      assert s == [s[0]] + s[1..];
      var t := InsertByLength(x, s[1..]);
      forall j | 0 <= j < |t| ensures |t[j]| <= |s[0]| {
        assert t[j] in t;
      }
    }
  }

  lemma {:induction false} LongestFirstFacts(roots: seq<Bytes>)
    ensures ByLength(LongestFirst(roots))
    ensures forall y :: y in LongestFirst(roots) <==> y in roots
  {
    if roots != [] {
      LongestFirstFacts(roots[1..]);
      InsertByLengthFacts(roots[0], LongestFirst(roots[1..]));
      assert roots == [roots[0]] + roots[1..];
    }
  }

  /** The first root in the list that owns name. */
  function Owner(name: Bytes, ordered: seq<Bytes>): Option<Bytes> {
    if ordered == [] then None
    else if Extends(name, ordered[0]) then Some(ordered[0])
    else Owner(name, ordered[1..])
  }

  /** r is the longest member of roots that owns name. */
  ghost predicate IsLongestOwner(name: Bytes, roots: set<Bytes>, r: Bytes) {
    r in roots && Extends(name, r) && forall q | q in roots && Extends(name, q) :: |q| <= |r|
  }

  ghost predicate Orders(ordered: seq<Bytes>, roots: set<Bytes>) {
    ByLength(ordered) && forall y :: y in ordered <==> y in roots
  }

  lemma {:induction false} OwnerFirst(name: Bytes, ordered: seq<Bytes>)
    requires ByLength(ordered)
    ensures Owner(name, ordered) == None <==> forall q | q in ordered :: !Extends(name, q)
    ensures Owner(name, ordered).Some? ==>
              var r := Owner(name, ordered).value;
              r in ordered && Extends(name, r) && forall q | q in ordered && Extends(name, q) :: |q| <= |r|
  {
    hide Extends;
    if ordered != [] {
      OwnerFirst(name, ordered[1..]);
      assert forall q | q in ordered :: q == ordered[0] || q in ordered[1..];
      forall q | q in ordered ensures |q| <= |ordered[0]| {
        var j :| 0 <= j < |ordered| && ordered[j] == q;
      }
    }
  }

  lemma LongestOwnerUnique(name: Bytes, roots: set<Bytes>, a: Bytes, b: Bytes)
    requires IsLongestOwner(name, roots, a) && IsLongestOwner(name, roots, b)
    ensures a == b
  {
    ExtendsPrefix(name, a);
    ExtendsPrefix(name, b);
    assert name[..|a|] == a && name[..|b|] == b;
  }

  /** _owner is the longest owning root; no other answer is possible. */
  lemma OwnerIsLongest(name: Bytes, ordered: seq<Bytes>, roots: set<Bytes>, r: Bytes)
    requires Orders(ordered, roots)
    ensures Owner(name, ordered) == Some(r) <==> IsLongestOwner(name, roots, r)
    ensures Owner(name, ordered) == None <==> forall q | q in roots :: !Extends(name, q)
  {
    hide Extends, Owner;
    OwnerFirst(name, ordered);
    if Owner(name, ordered).Some? && IsLongestOwner(name, roots, r) {
      LongestOwnerUnique(name, roots, Owner(name, ordered).value, r);
    }
  }

  /** The owner of the bare name, else of the prefixed one; an empty root would count as no answer. */
  function SourceOwner(stem: Bytes, ordered: seq<Bytes>): Option<Bytes> {
    match Owner(stem, ordered)
    case Some(r) => if r != [] then Some(r) else Owner(RA8 + stem, ordered)
    case None => Owner(RA8 + stem, ordered)
  }

  // ---------------------------------------------------------- driver roots

  /** Sources that no header family owns. */
  function Orphans(sources: set<Bytes>, ordered: seq<Bytes>): set<Bytes> {
    set s | s in sources && SourceOwner(s, ordered) == None
  }

  /** The header families, and a family of its own for every source outside them. */
  method DriverRoots(headers: set<Bytes>, sources: set<Bytes>) returns (roots: seq<Bytes>, ghost byHeaders: seq<Bytes>)
    ensures Orders(byHeaders, FamilyRoots(headers))
    ensures forall r :: r in roots <==> r in FamilyRoots(headers) + FamilyRoots(Orphans(sources, byHeaders))
    ensures forall i, j | 0 <= i < j < |roots| :: Less(roots[i], roots[j])
  {
    var headerRoots := SortedNames(FamilyRoots(headers));
    var ordered := LongestFirst(headerRoots);
    LongestFirstFacts(headerRoots);
    byHeaders := ordered;
    roots := SortedNames(FamilyRoots(headers) + FamilyRoots(Orphans(sources, ordered)));
  }

  /** What the families are built from: byHeaders orders the header roots, ordered all roots. */
  ghost predicate Families(headers: set<Bytes>, sources: set<Bytes>, byHeaders: seq<Bytes>, ordered: seq<Bytes>) {
    && [] !in headers && [] !in sources
    && Orders(byHeaders, FamilyRoots(headers))
    && Orders(ordered, FamilyRoots(headers) + FamilyRoots(Orphans(sources, byHeaders)))
  }

  /** A longer orphan root owning the same name would extend its header root and
      so be no orphan: a name that a header family owns keeps that owner among all roots. */
  lemma HeaderOwnerStays(headers: set<Bytes>, sources: set<Bytes>, byHeaders: seq<Bytes>, ordered: seq<Bytes>,
                         name: Bytes)
    requires Families(headers, sources, byHeaders, ordered) && Owner(name, byHeaders).Some?
    ensures Owner(name, ordered) == Owner(name, byHeaders)
  {
    hide Owner, Extends, Orders;
    var h := Owner(name, byHeaders).value;
    OwnerIsLongest(name, byHeaders, FamilyRoots(headers), h);
    var orphans := Orphans(sources, byHeaders);
    forall q | q in FamilyRoots(headers) + FamilyRoots(orphans) && Extends(name, q) ensures |q| <= |h| {
      if q in FamilyRoots(orphans) && |h| < |q| {
        RootsComparable(name, h, q);
        OrphanUnowned(headers, sources, byHeaders, q, h);
      }
    }
    OwnerIsLongest(name, ordered, FamilyRoots(headers) + FamilyRoots(orphans), h);
  }

  lemma OrphanUnowned(headers: set<Bytes>, sources: set<Bytes>, byHeaders: seq<Bytes>, s: Bytes, h: Bytes)
    requires [] !in headers && Orders(byHeaders, FamilyRoots(headers))
    requires s in Orphans(sources, byHeaders) && h in FamilyRoots(headers)
    ensures !Extends(s, h) && !Extends(RA8 + s, h)
  {
    hide Owner, Extends, Orders;
    OwnerIsLongest(s, byHeaders, FamilyRoots(headers), h);
    OwnerIsLongest(RA8 + s, byHeaders, FamilyRoots(headers), h);
    if Owner(s, byHeaders).Some? {
      OwnerIsLongest(s, byHeaders, FamilyRoots(headers), Owner(s, byHeaders).value);
    }
  }

  /** Adding orphan roots never moves a header out of the family the headers give it. */
  lemma HeadersKeepTheirFamily(headers: set<Bytes>, sources: set<Bytes>, byHeaders: seq<Bytes>, ordered: seq<Bytes>,
                               h: Bytes)
    requires Families(headers, sources, byHeaders, ordered) && h in headers
    ensures Owner(h, ordered).Some? && Owner(h, ordered) == Owner(h, byHeaders)
    ensures Owner(h, ordered).value in FamilyRoots(headers)
  {
    hide Owner, Extends, Orders;
    var r := RootExists(headers, h);
    OwnerIsLongest(h, byHeaders, FamilyRoots(headers), r);
    OwnerIsLongest(h, byHeaders, FamilyRoots(headers), Owner(h, byHeaders).value);
    HeaderOwnerStays(headers, sources, byHeaders, ordered, h);
  }

  ghost predicate Antichain(roots: set<Bytes>) {
    forall a, b | a in roots && b in roots && Extends(a, b) :: a == b
  }

  /** All roots together form an antichain exactly when no header lies below an orphan. */
  lemma AllRootsAntichainIff(headers: set<Bytes>, sources: set<Bytes>, byHeaders: seq<Bytes>)
    requires [] !in headers && Orders(byHeaders, FamilyRoots(headers))
    ensures Antichain(FamilyRoots(headers) + FamilyRoots(Orphans(sources, byHeaders))) <==>
              forall h, o | h in headers && o in Orphans(sources, byHeaders) :: !Extends(h, o)
  {
    hide Owner, Extends, Orders;
    var orphans := Orphans(sources, byHeaders);
    var roots := FamilyRoots(headers) + FamilyRoots(orphans);
    if h, o :| h in headers && o in orphans && Extends(h, o) {
      var r := RootExists(headers, h);
      var q := RootExists(orphans, o);
      OrphanUnowned(headers, sources, byHeaders, o, r);
      OrphanUnowned(headers, sources, byHeaders, q, r);
      RootAbove(h, r, o);
      ExtendsTransitive(r, o, q);
      ExtendsItself(r);
      assert r in roots && q in roots && r != q;
    } else {
      forall a, b | a in roots && b in roots && Extends(a, b) ensures a == b {
        if a in FamilyRoots(headers) {
          if b in FamilyRoots(headers) {
            RootsAreAntichain(headers, a, b);
          }
        } else if b in FamilyRoots(headers) {
          OrphanUnowned(headers, sources, byHeaders, a, b);
        } else {
          RootsAreAntichain(orphans, a, b);
        }
      }
    }
  }

  lemma ExtendsItself(name: Bytes)
    ensures Extends(name, name)
  {
  }

  /** Of two roots of one name, the one that the other does not lie below is the lower one. */
  lemma RootAbove(name: Bytes, r: Bytes, o: Bytes)
    requires Extends(name, r) && Extends(name, o) && !Extends(o, r)
    ensures Extends(r, o)
  {
    hide Extends;
    if |r| <= |o| {
      RootsComparable(name, r, o);
    } else {
      RootsComparable(name, o, r);
    }
  }

  /** With the header a_b and the source a both names are roots, one below the other. */
  lemma HeaderBelowOrphan()
    ensures var a, ab: Bytes := [97], [97, 95, 98];
            && Families({ab}, {a}, [ab], [ab, a])
            && Extends(ab, a) && !Antichain(FamilyRoots({ab}) + FamilyRoots(Orphans({a}, [ab])))
  {
    var a, ab: Bytes := [97], [97, 95, 98];
    assert Extends(ab, a) by {
      PrefixExtends(ab, a);
    }
    OwnerOfTwo(a, ab, a);
    OwnerOfTwo(RA8 + a, ab, a);
    assert (RA8 + a)[0] == 114;
    assert Orphans({a}, [ab]) == {a};
    assert FamilyRoots({ab}) == {ab} && FamilyRoots({a}) == {a};
  }

  lemma RootNotEmpty(headers: set<Bytes>, sources: set<Bytes>, byHeaders: seq<Bytes>, ordered: seq<Bytes>, name: Bytes)
    requires Families(headers, sources, byHeaders, ordered)
    ensures Owner(name, ordered) != Some([]) && Owner(name, byHeaders) != Some([])
  {
    hide Owner, Extends, Orders, SourceOwner;
    OwnerIsLongest(name, byHeaders, FamilyRoots(headers), []);
    OwnerIsLongest(name, ordered, FamilyRoots(headers) + FamilyRoots(Orphans(sources, byHeaders)), []);
  }

  /** Every source ends up in exactly one family. */
  lemma SourcesAreOwned(headers: set<Bytes>, sources: set<Bytes>, byHeaders: seq<Bytes>, ordered: seq<Bytes>, s: Bytes)
    requires Families(headers, sources, byHeaders, ordered) && s in sources
    ensures SourceOwner(s, ordered).Some?
    ensures SourceOwner(s, ordered).value in FamilyRoots(headers) + FamilyRoots(Orphans(sources, byHeaders))
  {
    hide Owner, Extends, Orders, FamilyRoots;
    var roots := FamilyRoots(headers) + FamilyRoots(Orphans(sources, byHeaders));
    RootNotEmpty(headers, sources, byHeaders, ordered, s);
    RootNotEmpty(headers, sources, byHeaders, ordered, RA8 + s);
    if s in Orphans(sources, byHeaders) {
      var r := RootExists(Orphans(sources, byHeaders), s);
      OwnerIsLongest(s, ordered, roots, r);
    } else if Owner(s, byHeaders).Some? {
      HeaderOwnerStays(headers, sources, byHeaders, ordered, s);
    } else {
      HeaderOwnerStays(headers, sources, byHeaders, ordered, RA8 + s);
    }
    forall name ensures Owner(name, ordered).Some? ==> Owner(name, ordered).value in roots {
      if Owner(name, ordered).Some? {
        OwnerIsLongest(name, ordered, roots, Owner(name, ordered).value);
      }
    }
  }

  /** A source that the header families own keeps its family exactly when they own
      it under its bare name, or no orphan does. */
  lemma SourceKeepsFamilyIff(headers: set<Bytes>, sources: set<Bytes>, byHeaders: seq<Bytes>, ordered: seq<Bytes>,
                             s: Bytes)
    requires Families(headers, sources, byHeaders, ordered) && s in sources && SourceOwner(s, byHeaders).Some?
    ensures SourceOwner(s, ordered) == SourceOwner(s, byHeaders) <==>
              || (exists h :: h in FamilyRoots(headers) && Extends(s, h))
              || (forall o | o in Orphans(sources, byHeaders) :: !Extends(s, o))
  {
    hide Owner, Extends, Orders;
    var orphans := Orphans(sources, byHeaders);
    var roots := FamilyRoots(headers) + FamilyRoots(orphans);
    RootNotEmpty(headers, sources, byHeaders, ordered, s);
    RootNotEmpty(headers, sources, byHeaders, ordered, RA8 + s);
    if Owner(s, byHeaders).Some? {
      OwnerIsLongest(s, byHeaders, FamilyRoots(headers), Owner(s, byHeaders).value);
      HeaderOwnerStays(headers, sources, byHeaders, ordered, s);
    } else {
      OwnerIsLongest(s, byHeaders, FamilyRoots(headers), []);
      HeaderOwnerStays(headers, sources, byHeaders, ordered, RA8 + s);
      if o :| o in orphans && Extends(s, o) {
        MovedByOrphan(headers, sources, byHeaders, ordered, s, o);
      } else {
        OwnerIsLongest(s, ordered, roots, []);
      }
    }
  }

  lemma MovedByOrphan(headers: set<Bytes>, sources: set<Bytes>, byHeaders: seq<Bytes>, ordered: seq<Bytes>, s: Bytes,
                      o: Bytes)
    requires Families(headers, sources, byHeaders, ordered)
    requires o in Orphans(sources, byHeaders) && Extends(s, o) && Owner(s, byHeaders) == None
    requires Owner(RA8 + s, byHeaders).Some?
    ensures SourceOwner(s, ordered) != SourceOwner(s, byHeaders)
  {
    hide Owner, Extends, Orders;
    var orphans := Orphans(sources, byHeaders);
    var roots := FamilyRoots(headers) + FamilyRoots(orphans);
    var r := RootExists(orphans, o);
    ExtendsTransitive(s, o, r);
    OwnerIsLongest(s, ordered, roots, r);
    var got := Owner(s, ordered).value;
    OwnerIsLongest(s, ordered, roots, got);
    RootNotEmpty(headers, sources, byHeaders, ordered, s);
    OwnerIsLongest(s, byHeaders, FamilyRoots(headers), got);
    var was := Owner(RA8 + s, byHeaders).value;
    OwnerIsLongest(RA8 + s, byHeaders, FamilyRoots(headers), was);
  }

  /** Orphan roots can move a source: with the header ra8_adc_x and the sources adc_x
      and adc, the orphan adc takes adc_x away from the family ra8_adc_x. */
  lemma OrphanMovesSource()
    ensures var adc, adcX: Bytes := [97, 100, 99], [97, 100, 99, 95, 120];
            var byHeaders, ordered := [RA8 + adcX], [RA8 + adcX, adc];
            && Families({RA8 + adcX}, {adcX, adc}, byHeaders, ordered)
            && SourceOwner(adcX, byHeaders) == Some(RA8 + adcX)
            && SourceOwner(adcX, ordered) == Some(adc)
  {
    var adc, adcX: Bytes := [97, 100, 99], [97, 100, 99, 95, 120];
    var h: Bytes := RA8 + adcX;
    assert h == [114, 97, 56, 95, 97, 100, 99, 95, 120];
    assert RA8 + adc == [114, 97, 56, 95, 97, 100, 99];
    assert Extends(adcX, adc) by {
      PrefixExtends(adcX, adc);
    }
    OwnerOfTwo(adc, h, adc);
    OwnerOfTwo(adcX, h, adc);
    OwnerOfTwo(RA8 + adc, h, adc);
    OwnerOfTwo(h, h, adc);
    assert Orphans({adcX, adc}, [h]) == {adc};
    assert FamilyRoots({h}) == {h} && FamilyRoots({adc}) == {adc};
  }

  lemma OwnerOfTwo(name: Bytes, a: Bytes, b: Bytes)
    ensures Owner(name, [a]) == if Extends(name, a) then Some(a) else None
    ensures Owner(name, [a, b]) == if Extends(name, a) then Some(a) else if Extends(name, b) then Some(b) else None
  {
    hide Extends;
    assert [a, b][1..] == [b] && |[a][1..]| == 0 && |[b][1..]| == 0;
    assert Owner(name, [b]) == if Extends(name, b) then Some(b) else None;
  }

  // --------------------------------------------------------------- collect

  ghost function Owned(stems: seq<Bytes>, owner: Bytes -> Option<Bytes>, root: Bytes): seq<Bytes> {
    if stems == [] then [] else
      Owned(stems[..|stems| - 1], owner, root)
      + if owner(stems[|stems| - 1]) == Some(root) then [stems[|stems| - 1]] else []
  }

  lemma {:induction false} OwnedMembers(stems: seq<Bytes>, owner: Bytes -> Option<Bytes>, root: Bytes, x: Bytes)
    ensures x in Owned(stems, owner, root) <==> x in stems && owner(x) == Some(root)
  {
    if stems != [] {
      OwnedMembers(stems[..|stems| - 1], owner, root, x);
      assert stems == stems[..|stems| - 1] + [stems[|stems| - 1]];
    }
  }

  /** One attribution loop: every stem is appended to the list of its owner, if it has one. */
  method Attribute(stems: seq<Bytes>, owner: Bytes -> Option<Bytes>, roots: seq<Bytes>)
    returns (families: map<Bytes, seq<Bytes>>)
    requires forall x | x in stems && owner(x).Some? :: owner(x).value in roots
    ensures forall r :: r in families <==> r in roots
    ensures forall r | r in families :: families[r] == Owned(stems, owner, r)
  {
    families := map r | r in roots :: [];
    for i := 0 to |stems|
      invariant forall r :: r in families <==> r in roots
      invariant forall r | r in families :: families[r] == Owned(stems[..i], owner, r)
    {
      assert stems[i] in stems;
      assert stems[..i + 1][..i] == stems[..i];
      var o := owner(stems[i]);
      if o.Some? {
        families := families[o.value := families[o.value] + [stems[i]]];
      }
    }
    assert stems[..|stems|] == stems;
  }

  function OwnerIn(ordered: seq<Bytes>): Bytes -> Option<Bytes> {
    h => Owner(h, ordered)
  }

  function SourceOwnerIn(ordered: seq<Bytes>): Bytes -> Option<Bytes> {
    s => SourceOwner(s, ordered)
  }

  ghost predicate OnlyIn(x: Bytes, families: map<Bytes, seq<Bytes>>, r: Bytes) {
    r in families && forall q | q in families :: x in families[q] <==> q == r
  }

  ghost predicate InOneFamily(x: Bytes, families: map<Bytes, seq<Bytes>>) {
    exists r :: OnlyIn(x, families, r)
  }

  lemma OneFamily(x: Bytes, stems: seq<Bytes>, owner: Bytes -> Option<Bytes>, families: map<Bytes, seq<Bytes>>)
    requires x in stems && owner(x).Some? && owner(x).value in families
    requires forall r | r in families :: families[r] == Owned(stems, owner, r)
    ensures InOneFamily(x, families)
  {
    hide Owned;
    forall q | q in families ensures x in families[q] <==> q == owner(x).value {
      OwnedMembers(stems, owner, q, x);
    }
    assert OnlyIn(x, families, owner(x).value);
  }

  /** r belongs to names and extends no other of them. */
  ghost predicate Minimal(r: Bytes, names: set<Bytes>) {
    r in names && forall m | m in names && Extends(r, m) :: m == r
  }

  /** No header's family takes the source, under its bare or its prefixed name. */
  ghost predicate Unowned(s: Bytes, headers: set<Bytes>) {
    forall h | h in headers :: !Extends(s, h) && !Extends(RA8 + s, h)
  }

  /** The root that a source goes to: the longest owner of its bare name or, if no
      root owns that, of its prefixed name. */
  ghost predicate IsSourceOwner(s: Bytes, roots: set<Bytes>, r: Bytes) {
    || IsLongestOwner(s, roots, r)
    || ((forall q | q in roots :: !Extends(s, q)) && IsLongestOwner(RA8 + s, roots, r))
  }

  ghost predicate Rising(s: seq<Bytes>) {
    forall i, j | 0 <= i < j < |s| :: Less(s[i], s[j])
  }

  lemma OrphansAre(headers: set<Bytes>, sources: set<Bytes>, byHeaders: seq<Bytes>)
    requires [] !in headers && Orders(byHeaders, FamilyRoots(headers))
    ensures Orphans(sources, byHeaders) == set s | s in sources && Unowned(s, headers)
  {
    hide Owner, Extends, Orders;
    forall s | s in sources ensures s in Orphans(sources, byHeaders) <==> Unowned(s, headers) {
      if s in Orphans(sources, byHeaders) {
        forall h | h in headers ensures !Extends(s, h) && !Extends(RA8 + s, h) {
          var r := RootExists(headers, h);
          OrphanUnowned(headers, sources, byHeaders, s, r);
          if Extends(s, h) {
            ExtendsTransitive(s, h, r);
          }
          if Extends(RA8 + s, h) {
            ExtendsTransitive(RA8 + s, h, r);
          }
        }
      }
      if Unowned(s, headers) {
        OwnerIsLongest(s, byHeaders, FamilyRoots(headers), []);
        OwnerIsLongest(RA8 + s, byHeaders, FamilyRoots(headers), []);
      }
    }
  }

  lemma RootsAreMinimal(names: set<Bytes>, r: Bytes)
    ensures r in FamilyRoots(names) <==> Minimal(r, names)
  {
    hide Extends;
  }

  lemma SourceOwnerIs(s: Bytes, ordered: seq<Bytes>, roots: set<Bytes>, r: Bytes)
    requires Orders(ordered, roots) && [] !in roots
    ensures SourceOwner(s, ordered) == Some(r) <==> IsSourceOwner(s, roots, r)
  {
    hide Owner, Extends, Orders;
    OwnerIsLongest(s, ordered, roots, r);
    OwnerIsLongest(RA8 + s, ordered, roots, r);
    if Owner(s, ordered).Some? {
      OwnerIsLongest(s, ordered, roots, Owner(s, ordered).value);
    }
  }

  lemma {:induction false} OwnedRises(stems: seq<Bytes>, owner: Bytes -> Option<Bytes>, root: Bytes)
    requires Rising(stems)
    ensures Rising(Owned(stems, owner, root))
  {
    hide Less;
    if stems != [] {
      var init, last := stems[..|stems| - 1], stems[|stems| - 1];
      OwnedRises(init, owner, root);
      var part := Owned(init, owner, root);
      forall i | 0 <= i < |part| ensures Less(part[i], last) {
        OwnedMembers(init, owner, root, part[i]);
        var k :| 0 <= k < |init| && init[k] == part[i];
        assert stems[k] == part[i];
      }
    }
  }

  /** The families with their headers and sources. The roots are the minimal headers
      and the minimal sources outside all header families; every header lies in the
      family of its longest owner and in no other, every source in that of its source
      owner, and listings keep their order. */
  method Collect(headers: seq<Bytes>, sources: seq<Bytes>)
    returns (roots: seq<Bytes>, headersOf: map<Bytes, seq<Bytes>>, sourcesOf: map<Bytes, seq<Bytes>>)
    requires [] !in headers && [] !in sources
    ensures Rising(roots)
    ensures var known := set h | h in headers;
            var orphans := set s | s in sources && Unowned(s, known);
            forall r :: r in roots <==> Minimal(r, known) || Minimal(r, orphans)
    ensures forall r :: (r in headersOf <==> r in roots) && (r in sourcesOf <==> r in roots)
    ensures var all := set r | r in roots;
            && (forall r, h | r in headersOf :: h in headersOf[r] <==> h in headers && IsLongestOwner(h, all, r))
            && (forall r, s | r in sourcesOf :: s in sourcesOf[r] <==> s in sources && IsSourceOwner(s, all, r))
    ensures forall h | h in headers :: InOneFamily(h, headersOf)
    ensures forall s | s in sources :: InOneFamily(s, sourcesOf)
    ensures forall r | r in headersOf :: Rising(headers) ==> Rising(headersOf[r])
    ensures forall r | r in sourcesOf :: Rising(sources) ==> Rising(sourcesOf[r])
  {
    hide Owner, Extends, FamilyRoots, SourceOwner, LongestFirst, Less, ByLength, Orphans, InOneFamily, Owned;
    hide Minimal, Unowned, IsLongestOwner, IsSourceOwner, Rising;
    var headerSet, sourceSet := set h | h in headers, set s | s in sources;
    ghost var byHeaders;
    roots, byHeaders := DriverRoots(headerSet, sourceSet);
    var ordered := LongestFirst(roots);
    LongestFirstFacts(roots);
    assert Families(headerSet, sourceSet, byHeaders, ordered);
    RootsRaw(headerSet, sourceSet, byHeaders, roots);
    assert (set s | s in sourceSet && Unowned(s, headerSet)) == set s | s in sources && Unowned(s, headerSet);
    var ownerOf, sourceOwnerOf := OwnerIn(ordered), SourceOwnerIn(ordered);
    forall h | h in headers ensures ownerOf(h).Some? && ownerOf(h).value in roots {
      HeadersKeepTheirFamily(headerSet, sourceSet, byHeaders, ordered, h);
    }
    forall s | s in sources ensures sourceOwnerOf(s).Some? && sourceOwnerOf(s).value in roots {
      SourcesAreOwned(headerSet, sourceSet, byHeaders, ordered, s);
    }
    headersOf := Attribute(headers, ownerOf, roots);
    sourcesOf := Attribute(sources, sourceOwnerOf, roots);
    HeadersListed(headers, ordered, roots, headersOf);
    SourcesListed(sources, ordered, roots, sourcesOf);
    forall h | h in headers ensures InOneFamily(h, headersOf) {
      OneFamily(h, headers, ownerOf, headersOf);
    }
    forall s | s in sources ensures InOneFamily(s, sourcesOf) {
      OneFamily(s, sources, sourceOwnerOf, sourcesOf);
    }
  }

  lemma RootsRaw(headers: set<Bytes>, sources: set<Bytes>, byHeaders: seq<Bytes>, roots: seq<Bytes>)
    requires [] !in headers && [] !in sources && Orders(byHeaders, FamilyRoots(headers))
    requires forall r :: r in roots <==> r in FamilyRoots(headers) + FamilyRoots(Orphans(sources, byHeaders))
    requires forall i, j | 0 <= i < j < |roots| :: Less(roots[i], roots[j])
    ensures Rising(roots) && [] !in roots
    ensures var orphans := set s | s in sources && Unowned(s, headers);
            forall r :: r in roots <==> Minimal(r, headers) || Minimal(r, orphans)
  {
    hide Less, Orders, Extends, Orphans, Unowned;
    OrphansAre(headers, sources, byHeaders);
    forall r ensures r in roots <==> Minimal(r, headers) || Minimal(r, Orphans(sources, byHeaders)) {
      RootsAreMinimal(headers, r);
      RootsAreMinimal(Orphans(sources, byHeaders), r);
    }
    assert [] !in FamilyRoots(headers) && [] !in FamilyRoots(Orphans(sources, byHeaders));
  }

  lemma HeadersListed(headers: seq<Bytes>, ordered: seq<Bytes>, roots: seq<Bytes>, families: map<Bytes, seq<Bytes>>)
    requires ByLength(ordered) && forall y :: y in ordered <==> y in roots
    requires forall r | r in families :: families[r] == Owned(headers, OwnerIn(ordered), r)
    ensures var all := set r | r in roots;
            forall r, h | r in families :: h in families[r] <==> h in headers && IsLongestOwner(h, all, r)
    ensures forall r | r in families :: Rising(headers) ==> Rising(families[r])
  {
    hide Owner, Extends, Owned, IsLongestOwner, Rising, ByLength;
    var all := set r | r in roots;
    assert Orders(ordered, all);
    forall r, h | r in families ensures h in families[r] <==> h in headers && IsLongestOwner(h, all, r) {
      OwnedMembers(headers, OwnerIn(ordered), r, h);
      OwnerIsLongest(h, ordered, all, r);
    }
    forall r | r in families && Rising(headers) ensures Rising(families[r]) {
      OwnedRises(headers, OwnerIn(ordered), r);
    }
  }

  lemma SourcesListed(sources: seq<Bytes>, ordered: seq<Bytes>, roots: seq<Bytes>, families: map<Bytes, seq<Bytes>>)
    requires ByLength(ordered) && (forall y :: y in ordered <==> y in roots) && [] !in roots
    requires forall r | r in families :: families[r] == Owned(sources, SourceOwnerIn(ordered), r)
    ensures var all := set r | r in roots;
            forall r, s | r in families :: s in families[r] <==> s in sources && IsSourceOwner(s, all, r)
    ensures forall r | r in families :: Rising(sources) ==> Rising(families[r])
  {
    hide Owner, Extends, Owned, IsSourceOwner, SourceOwner, Rising, ByLength;
    var all := set r | r in roots;
    assert Orders(ordered, all);
    forall r, s | r in families ensures s in families[r] <==> s in sources && IsSourceOwner(s, all, r) {
      OwnedMembers(sources, SourceOwnerIn(ordered), r, s);
      SourceOwnerIs(s, ordered, all, r);
    }
    forall r | r in families && Rising(sources) ensures Rising(families[r]) {
      OwnedRises(sources, SourceOwnerIn(ordered), r);
    }
  }
}
