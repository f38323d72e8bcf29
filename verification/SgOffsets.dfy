/** The secure-gateway slot check: local per-veneer tests against one global
    statement about the region. Symbol names are byte strings. */
module SgOffsets {
  import opened Bytes
  import opened Order
  import opened Outcomes
  import opened Sums

  type Symbols = map<Bytes, int>

  /** "g_ra8_ls_sgstubs_start" and "g_ra8_ls_sgstubs_end" */
  const BASE: Bytes := [103, 95, 114, 97, 56, 95, 108, 115, 95, 115, 103, 115, 116, 117, 98, 115, 95, 115, 116, 97,
                        114, 116]
  const END: Bytes := [103, 95, 114, 97, 56, 95, 108, 115, 95, 115, 103, 115, 116, 117, 98, 115, 95, 101, 110, 100]
  /** "__acle_se_" */
  const ACLE_PREFIX: Bytes := [95, 95, 97, 99, 108, 101, 95, 115, 101, 95]
  const STUB := 8
  const REGION_ALIGN := 32

  /** The low 32 bits without the Thumb bit. */
  function Masked(addr: int): (m: int)
    ensures 0 <= m < 0x1_0000_0000 && m % 2 == 0 && (addr - m) % 0x1_0000_0000 <= 1
  {
    addr % 0x1_0000_0000 / 2 * 2
  }

  /** The name of the gateway that a secure body's name stands for. */
  function Gateway(body: Bytes): Bytes
    requires ACLE_PREFIX <= body
  {
    body[|ACLE_PREFIX|..]
  }

  /** Walks the secure bodies of the table and looks up the gateway of each. A
      symbol is a veneer exactly when its secure body is also in the table. */
  function VeneerSymbols(syms: Symbols): (veneers: Symbols)
    ensures forall name :: name in veneers <==> name in syms && ACLE_PREFIX + name in syms
    ensures forall name | name in veneers :: veneers[name] == syms[name]
  {
    assert forall body: Bytes | ACLE_PREFIX <= body :: ACLE_PREFIX + Gateway(body) == body;
    assert forall name: Bytes :: Gateway(ACLE_PREFIX + name) == name;
    map body | body in syms && ACLE_PREFIX <= body && Gateway(body) in syms :: Gateway(body) := syms[Gateway(body)]
  }

  datatype Finding =
    | NoVeneers
    | EndMissing
    | Outside(name: Bytes, off: int, size: int)
    | Misaligned(name: Bytes, off: int)
    | Shared(name: Bytes, off: int, other: Bytes)
    | TooSmall(size: int, count: nat)
    | TooLarge(size: int, count: nat)
    | EmptySlots(count: nat, first: int)

  // ------------------------------------------------------------ the property

  ghost function Offset(syms: Symbols, name: Bytes): (off: int)
    requires BASE in syms && name in syms
    ensures syms[BASE] + off == Masked(syms[name])
  {
    Masked(syms[name]) - syms[BASE]
  }

  ghost predicate Occupied(syms: Symbols, off: int)
    requires BASE in syms
  {
    exists v :: v in VeneerSymbols(syms) && Offset(syms, v) == off
  }

  /** One veneer per 8-byte slot from the start of the region, with less than one
      alignment unit of padding behind the last. */
  ghost predicate Packed(syms: Symbols)
    requires BASE in syms
  {
    var veneers := VeneerSymbols(syms);
    var n := |veneers|;
    && END in syms && n > 0
    && (forall v | v in veneers :: 0 <= Offset(syms, v) < STUB * n && Offset(syms, v) % STUB == 0)
    && (forall v, w | v in veneers && w in veneers && v != w :: Offset(syms, v) != Offset(syms, w))
    && (forall k | 0 <= k < n :: Occupied(syms, STUB * k))
    && STUB * n <= syms[END] - syms[BASE] < STUB * n + REGION_ALIGN
  }

  // -------------------------------------------------------------- the items

  ghost predicate ItemsOf(items: seq<Keyed<int>>, m: Symbols) {
    && Ascending(items) && |items| == |m|
    && (forall i | 0 <= i < |items| :: items[i].key in m && m[items[i].key] == items[i].value)
    && (forall name | name in m :: exists i :: 0 <= i < |items| && items[i].key == name)
  }

  /** The items of m in some order. */
  method ListItems(m: Symbols) returns (listed: seq<Keyed<int>>)
    ensures |listed| == |m| && DistinctKeys(listed)
    ensures forall i | 0 <= i < |listed| :: listed[i].key in m && m[listed[i].key] == listed[i].value
    ensures forall name | name in m :: Keyed(name, m[name]) in listed
  {
    var rest := m.Keys;
    listed := [];
    while rest != {}
      invariant rest <= m.Keys && |listed| + |rest| == |m.Keys|
      invariant DistinctKeys(listed)
      invariant forall i | 0 <= i < |listed| :: listed[i].key in m.Keys - rest && m[listed[i].key] == listed[i].value
      invariant forall name | name in m.Keys - rest :: Keyed(name, m[name]) in listed
      decreases rest
    {
      var name :| name in rest;
      rest := rest - {name};
      listed := listed + [Keyed(name, m[name])];
    }
  }

  /** The items of m by ascending name. */
  method SortedItems(m: Symbols) returns (items: seq<Keyed<int>>)
    ensures ItemsOf(items, m) && |items| == |m| && Ascending(items)
  {
    hide Less, Sort, Ascending, DistinctKeys, ItemsOf;
    var listed := ListItems(m);
    items := Sort(listed);
    SortAscending(listed);
    SortContents(listed);
    SortedCover(items, listed, m);
  }

  lemma SortedCover(items: seq<Keyed<int>>, listed: seq<Keyed<int>>, m: Symbols)
    requires multiset(items) == multiset(listed)
    requires Ascending(items) && |items| == |m|
    requires forall i | 0 <= i < |listed| :: listed[i].key in m && m[listed[i].key] == listed[i].value
    requires forall name | name in m :: Keyed(name, m[name]) in listed
    ensures ItemsOf(items, m)
  {
    forall i | 0 <= i < |items| ensures items[i].key in m && m[items[i].key] == items[i].value {
      assert items[i] in multiset(items);
      assert items[i] in listed;
    }
    forall name | name in m ensures exists i :: 0 <= i < |items| && items[i].key == name {
      assert Keyed(name, m[name]) in multiset(listed);
      assert Keyed(name, m[name]) in items;
    }
  }

  // --------------------------------------------------------------- the check

  function ItemOffset(item: Keyed<int>, base: int): int {
    Masked(item.value) - base
  }

  /** No local test has failed on any of the items. */
  ghost predicate Clean(items: seq<Keyed<int>>, base: int, size: int) {
    && (forall i | 0 <= i < |items| :: 0 <= ItemOffset(items[i], base) < size && ItemOffset(items[i], base) % STUB == 0)
    && (forall i, j | 0 <= i < j < |items| :: ItemOffset(items[i], base) != ItemOffset(items[j], base))
  }

  ghost predicate Hit(items: seq<Keyed<int>>, base: int, off: int) {
    exists i :: 0 <= i < |items| && ItemOffset(items[i], base) == off
  }

  ghost predicate SlotsOf(slots: map<int, Bytes>, items: seq<Keyed<int>>, base: int) {
    forall off :: off in slots <==> Hit(items, base, off)
  }

  /** Inside the region and on the stride. */
  ghost predicate Good(item: Keyed<int>, base: int, size: int) {
    0 <= ItemOffset(item, base) < size && ItemOffset(item, base) % STUB == 0
  }

  /** Item k takes its slot: no earlier good item has the same offset. */
  ghost predicate Takes(items: seq<Keyed<int>>, base: int, size: int, k: int)
    requires 0 <= k < |items|
  {
    Good(items[k], base, size)
    && forall j | 0 <= j < k && Good(items[j], base, size) :: ItemOffset(items[j], base) != ItemOffset(items[k], base)
  }

  /** What each finding of the loop says, about the first n items. */
  ghost predicate Wrong(f: Finding, items: seq<Keyed<int>>, base: int, size: int, n: nat)
    requires n <= |items|
  {
    match f
    case Outside(name, off, s) =>
      s == size && !(0 <= off < size) && exists j | 0 <= j < n ::
        items[j].key == name && ItemOffset(items[j], base) == off
    case Misaligned(name, off) =>
      0 <= off < size && off % STUB != 0 && exists j | 0 <= j < n ::
        items[j].key == name && ItemOffset(items[j], base) == off
    case Shared(name, off, other) =>
      exists j, k | 0 <= k < j < n :: Collides(items, base, size, j, k) && items[j].key == name && items[k].key == other
                                      && ItemOffset(items[j], base) == off
    case _ => false
  }

  /** Item j finds its slot taken by item k. */
  ghost predicate Collides(items: seq<Keyed<int>>, base: int, size: int, j: int, k: int)
    requires 0 <= k < j < |items|
  {
    Good(items[j], base, size) && Takes(items, base, size, k)
      && ItemOffset(items[j], base) == ItemOffset(items[k], base)
  }

  /** slots holds, for every taken slot, the name of the item that took it. */
  ghost predicate SlotMap(slots: map<int, Bytes>, items: seq<Keyed<int>>, base: int, size: int, n: nat)
    requires n <= |items|
  {
    && (forall k | 0 <= k < n && Takes(items, base, size, k) ::
          ItemOffset(items[k], base) in slots && slots[ItemOffset(items[k], base)] == items[k].key)
    && (forall off | off in slots :: exists k | 0 <= k < n ::
      Takes(items, base, size, k) && ItemOffset(items[k], base) == off)
  }

  /** The loop over the veneers: exactly the findings that hold, with the name that took a shared slot. */
  method PlaceVeneers(items: seq<Keyed<int>>, base: int, size: int)
    returns (findings: seq<Finding>, slots: map<int, Bytes>)
    ensures forall f :: f in findings <==> Wrong(f, items, base, size, |items|)
    ensures findings == [] <==> Clean(items, base, size)
    ensures findings == [] ==> SlotsOf(slots, items, base)
    ensures Ascending(items) ==> Arranged(findings)
  {
    hide ItemOffset, Wrong, SlotMap, Clean, SlotsOf, Arranged, Ascending;
    findings, slots := [], map[];
    NothingWrong(items, base, size);
    NothingArranged();
    for i := 0 to |items|
      invariant SlotMap(slots, items, base, size, i)
      invariant forall f :: f in findings <==> Wrong(f, items, base, size, i)
      invariant Ascending(items) ==> Arranged(findings)
    {
      var off := ItemOffset(items[i], base);
      PlaceStep(slots, items, base, size, i);
      ghost var slots' := slots;
      ghost var had, verdict := findings, Verdict(slots, items[i], base, size);
      if off < 0 || off >= size {
        findings := findings + [Outside(items[i].key, off, size)];
      } else if off % STUB != 0 {
        findings := findings + [Misaligned(items[i].key, off)];
      } else if off in slots {
        findings := findings + [Shared(items[i].key, off, slots[off])];
      } else {
        slots := slots[off := items[i].key];
      }
      assert findings == had + verdict;
      if Ascending(items) {
        VerdictArranged(had, slots', items, base, size, i);
      }
    }
    CleanIff(items, base, size, findings, slots);
  }

  /** A finding about one veneer. */
  predicate Named(f: Finding) {
    f.Outside? || f.Misaligned? || f.Shared?
  }

  /** Findings about veneers come by ascending name, and any other finding only at the end. */
  ghost predicate Arranged(findings: seq<Finding>) {
    forall i, j | 0 <= i < j < |findings| ::
      Named(findings[i]) && (Named(findings[j]) ==> Less(findings[i].name, findings[j].name))
  }

  lemma NothingArranged()
    ensures Arranged([])
  {
  }

  lemma ArrangedMore(findings: seq<Finding>, f: Finding)
    requires Arranged(findings) && forall g | g in findings :: Named(g) && (Named(f) ==> Less(g.name, f.name))
    ensures Arranged(findings + [f])
  {
    hide Less;
    assert forall i | 0 <= i < |findings| :: findings[i] in findings;
  }

  lemma VerdictArranged(findings: seq<Finding>, slots: map<int, Bytes>, items: seq<Keyed<int>>, base: int, size: int,
                        i: nat)
    requires i < |items| && Ascending(items) && Arranged(findings)
    requires forall f :: f in findings <==> Wrong(f, items, base, size, i)
    ensures Arranged(findings + Verdict(slots, items[i], base, size))
  {
    hide Less, ItemOffset, Arranged, Wrong;
    var verdict := Verdict(slots, items[i], base, size);
    if verdict == [] {
      assert findings + verdict == findings;
    } else {
      forall g | g in findings ensures Named(g) && Less(g.name, verdict[0].name) {
        var j := WrongName(g, items, base, size, i);
      }
      ArrangedMore(findings, verdict[0]);
      assert verdict == [verdict[0]];
    }
  }

  lemma WrongName(f: Finding, items: seq<Keyed<int>>, base: int, size: int, n: nat) returns (j: nat)
    requires n <= |items| && Wrong(f, items, base, size, n)
    ensures Named(f) && j < n && items[j].key == f.name
  {
    hide ItemOffset, Takes, Good;
    match f
    case Outside(name, off, s) => j :| 0 <= j < n && items[j].key == name && ItemOffset(items[j], base) == off;
    case Misaligned(name, off) => j :| 0 <= j < n && items[j].key == name && ItemOffset(items[j], base) == off;
    case Shared(name, off, other) =>
      var a, b :| 0 <= b < a < n && Collides(items, base, size, a, b) && items[a].key == name && items[b].key == other;
      j := a;
  }

  lemma NothingWrong(items: seq<Keyed<int>>, base: int, size: int)
    ensures SlotMap(map[], items, base, size, 0)
    ensures forall f :: !Wrong(f, items, base, size, 0)
  {
  }

  /** The outcome of the branches on item i. */
  ghost function Verdict(slots: map<int, Bytes>, item: Keyed<int>, base: int, size: int): seq<Finding> {
    var off := ItemOffset(item, base);
    if off < 0 || off >= size then [Outside(item.key, off, size)]
    else if off % STUB != 0 then [Misaligned(item.key, off)]
    else if off in slots then [Shared(item.key, off, slots[off])]
    else []
  }

  lemma PlaceStep(slots: map<int, Bytes>, items: seq<Keyed<int>>, base: int, size: int, i: nat)
    requires i < |items| && SlotMap(slots, items, base, size, i)
    ensures var off := ItemOffset(items[i], base);
            var taken := Good(items[i], base, size) && off !in slots;
            SlotMap(if taken then slots[off := items[i].key] else slots, items, base, size, i + 1)
    ensures forall f :: Wrong(f, items, base, size, i + 1) <==>
              Wrong(f, items, base, size, i) || f in Verdict(slots, items[i], base, size)
  {
    hide ItemOffset;
    var off := ItemOffset(items[i], base);
    TakesIff(slots, items, base, size, i);
    forall f
      ensures Wrong(f, items, base, size, i + 1) <==>
                Wrong(f, items, base, size, i) || f in Verdict(slots, items[i], base, size)
    {
      WrongStep(f, slots, items, base, size, i);
    }
  }

  lemma TakesIff(slots: map<int, Bytes>, items: seq<Keyed<int>>, base: int, size: int, i: nat)
    requires i < |items| && SlotMap(slots, items, base, size, i)
    ensures Takes(items, base, size, i) <==> Good(items[i], base, size) && ItemOffset(items[i], base) !in slots
  {
    hide ItemOffset;
    forall j | 0 <= j < i && Good(items[j], base, size) ensures ItemOffset(items[j], base) in slots {
      var k := Taker(items, base, size, j);
      assert Takes(items, base, size, k);
    }
  }

  lemma {:induction false} Taker(items: seq<Keyed<int>>, base: int, size: int, j: nat) returns (k: nat)
    requires j < |items| && Good(items[j], base, size)
    ensures k <= j && Takes(items, base, size, k) && ItemOffset(items[k], base) == ItemOffset(items[j], base)
  {
    hide ItemOffset;
    if Takes(items, base, size, j) {
      k := j;
    } else {
      var m :| 0 <= m < j && Good(items[m], base, size) && ItemOffset(items[m], base) == ItemOffset(items[j], base);
      k := Taker(items, base, size, m);
    }
  }

  lemma WrongStep(f: Finding, slots: map<int, Bytes>, items: seq<Keyed<int>>, base: int, size: int, i: nat)
    requires i < |items| && SlotMap(slots, items, base, size, i)
    ensures Wrong(f, items, base, size, i + 1) <==>
              Wrong(f, items, base, size, i) || f in Verdict(slots, items[i], base, size)
  {
    hide ItemOffset, Takes;
    var off := ItemOffset(items[i], base);
    if f.Shared? && f in Verdict(slots, items[i], base, size) {
      var k :| 0 <= k < i && Takes(items, base, size, k) && ItemOffset(items[k], base) == off;
      assert Collides(items, base, size, i, k);
    }
  }

  lemma CleanIff(items: seq<Keyed<int>>, base: int, size: int, findings: seq<Finding>, slots: map<int, Bytes>)
    requires forall f :: f in findings <==> Wrong(f, items, base, size, |items|)
    requires SlotMap(slots, items, base, size, |items|)
    ensures findings == [] <==> Clean(items, base, size)
    ensures findings == [] ==> SlotsOf(slots, items, base)
  {
    hide ItemOffset;
    if findings == [] {
      forall i | 0 <= i < |items| ensures Good(items[i], base, size) {
        var off := ItemOffset(items[i], base);
        assert !Wrong(Outside(items[i].key, off, size), items, base, size, |items|);
        assert !Wrong(Misaligned(items[i].key, off), items, base, size, |items|);
      }
      forall i, j | 0 <= i < j < |items| ensures ItemOffset(items[i], base) != ItemOffset(items[j], base) {
        var k := Taker(items, base, size, i);
        assert Collides(items, base, size, j, k) ==>
                 Wrong(Shared(items[j].key, ItemOffset(items[j], base), items[k].key), items, base, size, |items|);
      }
      forall i | 0 <= i < |items| ensures Takes(items, base, size, i) {
      }
    }
    if Clean(items, base, size) {
      forall f: Finding ensures f !in findings {
        assert !Wrong(f, items, base, size, |items|);
      }
      NoMembers(findings);
    }
  }

  ghost function Unused(slots: map<int, Bytes>, n: nat): set<int> {
    set k | 0 <= k < n && STUB * k !in slots
  }

  /** One offset per unused slot among the first n, the lowest in front. */
  ghost predicate Lists(empty: seq<int>, slots: map<int, Bytes>, n: nat) {
    && |empty| == |Unused(slots, n)|
    && (empty != [] ==> empty[0] % STUB == 0 && empty[0] / STUB in Unused(slots, n))
    && (empty != [] ==> forall k | k in Unused(slots, n) :: empty[0] <= STUB * k)
  }

  lemma ListsMore(empty: seq<int>, slots: map<int, Bytes>, n: nat)
    requires Lists(empty, slots, n)
    ensures Lists(if STUB * n in slots then empty else empty + [STUB * n], slots, n + 1)
  {
    var unused := Unused(slots, n);
    if STUB * n in slots {
      assert Unused(slots, n + 1) == unused;
    } else {
      assert Unused(slots, n + 1) == unused + {n} && n !in unused;
      if empty == [] {
        assert unused == {};
      } else {
        assert empty[0] <= STUB * n;
      }
    }
  }

  /** The slots of the occupied span that nothing took, in ascending order. */
  method EmptyOffsets(slots: map<int, Bytes>, n: nat) returns (empty: seq<int>)
    ensures Lists(empty, slots, n)
  {
    empty := [];
    for k := 0 to n
      invariant Lists(empty, slots, k)
    {
      hide Lists;
      ListsMore(empty, slots, k);
      if STUB * k !in slots {
        empty := empty + [STUB * k];
      }
    }
  }

  /** Reports exactly the findings that hold of the symbol table; none exactly
      when the region is packed. A missing base symbol is a KeyError. */
  method SlotFindings(syms: Symbols) returns (r: Result<seq<Finding>>)
    ensures r.Ok? <==> BASE in syms
    ensures r.Ok? ==> forall f :: f in r.value <==> Reported(syms, f)
    ensures r.Ok? ==> Arranged(r.value) && (r.value == [] <==> Packed(syms))
  {
    hide Clean, SlotsOf, ItemsOf, Packed, VeneerSymbols, Wrong, Lists, Less, Ascending, Reported;
    if BASE !in syms {
      return Err;
    }
    var base := syms[BASE];
    var veneers := VeneerSymbols(syms);
    PackedNeeds(syms);
    ReportedAlone(syms);
    if |veneers| == 0 {
      return Ok([NoVeneers]);
    }
    if END !in syms {
      return Ok([EndMissing]);
    }
    var size := syms[END] - base;
    var items := SortedItems(veneers);
    var findings, slots := PlaceVeneers(items, base, size);
    ghost var placed := findings;
    var want := |veneers| * STUB;
    if size < want {
      findings := findings + [TooSmall(size, |veneers|)];
    } else if size - want >= REGION_ALIGN {
      findings := findings + [TooLarge(size, |veneers|)];
    }
    var empty := EmptyOffsets(slots, |veneers|);
    if empty != [] && findings == [] {
      findings := findings + [EmptySlots(|empty|, empty[0])];
    }
    FindingsExact(syms, items, slots, placed, empty, findings);
    LastFinding(placed, findings, items, base, size);
    return Ok(findings);
  }

  /** A finding about the region as a whole comes after all those about veneers. */
  lemma LastFinding(placed: seq<Finding>, findings: seq<Finding>, items: seq<Keyed<int>>, base: int, size: int)
    requires Arranged(placed) && forall f :: f in placed <==> Wrong(f, items, base, size, |items|)
    requires placed <= findings && |findings| <= |placed| + 1
    requires |findings| > |placed| ==> !Named(findings[|placed|])
    ensures Arranged(findings)
  {
    hide Less, Wrong, Arranged;
    if |findings| == |placed| {
      assert findings == placed;
    } else {
      forall g | g in placed ensures Named(g) {
        var j := WrongName(g, items, base, size, |items|);
      }
      ArrangedMore(placed, findings[|placed|]);
      assert findings == placed + [findings[|placed|]];
    }
  }

  // ------------------------------------------- findings in terms of the table

  /** The veneer's gateway lies in the region, on the stride. */
  ghost predicate InSlot(syms: Symbols, v: Bytes)
    requires BASE in syms && END in syms && v in syms
  {
    0 <= Offset(syms, v) < syms[END] - syms[BASE] && Offset(syms, v) % STUB == 0
  }

  /** Of the veneers in one slot, the one with the lowest name. */
  ghost predicate Holds(syms: Symbols, v: Bytes)
    requires BASE in syms && END in syms
  {
    && v in VeneerSymbols(syms) && InSlot(syms, v)
    && forall w | w in VeneerSymbols(syms) && InSlot(syms, w) && Offset(syms, w) == Offset(syms, v) :: !Less(w, v)
  }

  /** Every veneer has a slot of its own in a region of the right size. */
  ghost predicate Spread(syms: Symbols)
    requires BASE in syms && END in syms
  {
    var veneers := VeneerSymbols(syms);
    && (forall v | v in veneers :: InSlot(syms, v))
    && (forall v, w | v in veneers && w in veneers && v != w :: Offset(syms, v) != Offset(syms, w))
    && STUB * |veneers| <= syms[END] - syms[BASE] < STUB * |veneers| + REGION_ALIGN
  }

  /** The slots, among as many as there are veneers, in which no veneer lies. */
  ghost function Vacant(syms: Symbols): set<int>
    requires BASE in syms
  {
    set k | 0 <= k < |VeneerSymbols(syms)| && !Occupied(syms, STUB * k)
  }

  /** What the findings say about the symbol table, without reference to any loop. */
  ghost predicate Reported(syms: Symbols, f: Finding)
    requires BASE in syms
  {
    var veneers := VeneerSymbols(syms);
    if |veneers| == 0 then f == NoVeneers
    else if END !in syms then f == EndMissing
    else
      var n, region := |veneers|, syms[END] - syms[BASE];
      match f
      case Outside(name, off, size) =>
        name in veneers && off == Offset(syms, name) && size == region && !(0 <= off < region)
      case Misaligned(name, off) =>
        name in veneers && off == Offset(syms, name) && 0 <= off < region && off % STUB != 0
      case Shared(name, off, other) =>
        && name in veneers && InSlot(syms, name) && off == Offset(syms, name)
        && Holds(syms, other) && off == Offset(syms, other) && other != name
      case TooSmall(size, count) => size == region < STUB * n && count == n
      case TooLarge(size, count) => size == region >= STUB * n + REGION_ALIGN && count == n
      case EmptySlots(count, first) =>
        && Spread(syms) && Vacant(syms) != {} && count == |Vacant(syms)|
        && first % STUB == 0 && first / STUB in Vacant(syms) && forall k | k in Vacant(syms) :: first <= STUB * k
      case _ => false
  }

  lemma ReportedAlone(syms: Symbols)
    requires BASE in syms
    ensures |VeneerSymbols(syms)| == 0 ==> forall f :: Reported(syms, f) <==> f == NoVeneers
    ensures |VeneerSymbols(syms)| > 0 && END !in syms ==> forall f :: Reported(syms, f) <==> f == EndMissing
  {
    hide VeneerSymbols;
  }

  lemma PackedNeeds(syms: Symbols)
    requires BASE in syms
    ensures Packed(syms) ==> |VeneerSymbols(syms)| > 0 && END in syms
  {
  }

  lemma GoodInSlot(syms: Symbols, items: seq<Keyed<int>>)
    requires BASE in syms && END in syms && ItemsOf(items, VeneerSymbols(syms))
    ensures forall i | 0 <= i < |items| ::
              && items[i].key in VeneerSymbols(syms)
              && Good(items[i], syms[BASE], syms[END] - syms[BASE]) == InSlot(syms, items[i].key)
  {
    ItemOffsets(syms, items);
  }

  /** The names of the items ascend with their positions. */
  lemma NameOrder(items: seq<Keyed<int>>, i: nat, j: nat)
    requires Ascending(items) && i < |items| && j < |items|
    ensures i < j <==> Less(items[i].key, items[j].key)
    ensures i == j <==> items[i].key == items[j].key
  {
    LessTotal(items[i].key, items[j].key);
  }

  /** The first good item at an offset is the veneer that holds the slot. */
  lemma TakesHolds(syms: Symbols, items: seq<Keyed<int>>, k: nat)
    requires BASE in syms && END in syms && ItemsOf(items, VeneerSymbols(syms)) && k < |items|
    ensures Takes(items, syms[BASE], syms[END] - syms[BASE], k) <==> Holds(syms, items[k].key)
  {
    hide ItemOffset, Offset, Less, Good, InSlot, VeneerSymbols, Ascending;
    ItemOffsets(syms, items);
    GoodInSlot(syms, items);
    var base, size := syms[BASE], syms[END] - syms[BASE];
    if Takes(items, base, size, k) {
      forall w | w in VeneerSymbols(syms) && InSlot(syms, w) && Offset(syms, w) == Offset(syms, items[k].key)
        ensures !Less(w, items[k].key)
      {
        var j := ItemAt(syms, items, w);
        NameOrder(items, j, k);
      }
    }
    if Holds(syms, items[k].key) {
      forall j | 0 <= j < k && Good(items[j], base, size)
        ensures ItemOffset(items[j], base) != ItemOffset(items[k], base)
      {
        NameOrder(items, j, k);
      }
    }
  }

  lemma SharedIs(syms: Symbols, items: seq<Keyed<int>>, name: Bytes, off: int, other: Bytes)
    requires BASE in syms && END in syms && ItemsOf(items, VeneerSymbols(syms)) && items != []
    ensures Wrong(Shared(name, off, other), items, syms[BASE], syms[END] - syms[BASE], |items|)
       <==> Reported(syms, Shared(name, off, other))
  {
    hide ItemOffset, Offset, Less, InSlot, Holds, Collides, VeneerSymbols, ItemsOf;
    ItemCount(syms, items);
    var base, size, f := syms[BASE], syms[END] - syms[BASE], Shared(name, off, other);
    if Wrong(f, items, base, size, |items|) {
      var j, k :| 0 <= k < j < |items| && Collides(items, base, size, j, k) && items[j].key == name
                  && items[k].key == other && ItemOffset(items[j], base) == off;
      CollisionShares(syms, items, j, k);
    }
    if Reported(syms, f) {
      HolderIsVeneer(syms, other);
      var j, k := ItemAt(syms, items, name), ItemAt(syms, items, other);
      ShareCollides(syms, items, j, k);
      assert Collides(items, base, size, j, k);
    }
  }

  lemma CollisionShares(syms: Symbols, items: seq<Keyed<int>>, j: nat, k: nat)
    requires BASE in syms && END in syms && ItemsOf(items, VeneerSymbols(syms)) && k < j < |items|
    requires Collides(items, syms[BASE], syms[END] - syms[BASE], j, k)
    ensures items[j].key in VeneerSymbols(syms) && InSlot(syms, items[j].key) && Holds(syms, items[k].key)
    ensures Offset(syms, items[j].key) == Offset(syms, items[k].key) == ItemOffset(items[j], syms[BASE])
    ensures items[j].key != items[k].key
  {
    hide ItemOffset, Offset, Less, Good, InSlot, Holds, Takes, VeneerSymbols, Ascending;
    ItemOffsets(syms, items);
    GoodInSlot(syms, items);
    TakesHolds(syms, items, k);
    NameOrder(items, k, j);
  }

  lemma ShareCollides(syms: Symbols, items: seq<Keyed<int>>, j: nat, k: nat)
    requires BASE in syms && END in syms && ItemsOf(items, VeneerSymbols(syms)) && j < |items| && k < |items|
    requires items[j].key in VeneerSymbols(syms) && InSlot(syms, items[j].key) && Holds(syms, items[k].key)
    requires Offset(syms, items[j].key) == Offset(syms, items[k].key) && items[j].key != items[k].key
    ensures k < j && Collides(items, syms[BASE], syms[END] - syms[BASE], j, k)
  {
    hide ItemOffset, Offset, Less, Good, InSlot, Holds, Takes, VeneerSymbols, Ascending;
    ItemOffsets(syms, items);
    GoodInSlot(syms, items);
    TakesHolds(syms, items, k);
    HolderIsLowest(syms, items[k].key, items[j].key);
    NameOrder(items, j, k);
  }

  lemma HolderIsVeneer(syms: Symbols, v: Bytes)
    requires BASE in syms && END in syms && Holds(syms, v)
    ensures v in VeneerSymbols(syms)
  {
  }

  lemma HolderIsLowest(syms: Symbols, v: Bytes, w: Bytes)
    requires BASE in syms && END in syms && Holds(syms, v)
    requires w in VeneerSymbols(syms) && InSlot(syms, w) && Offset(syms, w) == Offset(syms, v)
    ensures !Less(w, v)
  {
  }

  /** The loop's findings, read off the table. */
  lemma WrongIsReported(syms: Symbols, items: seq<Keyed<int>>, f: Finding)
    requires BASE in syms && END in syms && ItemsOf(items, VeneerSymbols(syms)) && items != []
    ensures Wrong(f, items, syms[BASE], syms[END] - syms[BASE], |items|)
       <==> (f.Outside? || f.Misaligned? || f.Shared?) && Reported(syms, f)
  {
    if f.Shared? {
      SharedIs(syms, items, f.name, f.off, f.other);
    } else if f.Outside? || f.Misaligned? {
      hide ItemOffset, Offset, VeneerSymbols, Ascending;
      ItemOffsets(syms, items);
      if Reported(syms, f) {
        var j := ItemAt(syms, items, f.name);
        assert items[j].key == f.name;
      }
    }
  }

  lemma CleanIsSpread(syms: Symbols, items: seq<Keyed<int>>)
    requires BASE in syms && END in syms && ItemsOf(items, VeneerSymbols(syms))
    ensures var base := syms[BASE];
            var size := syms[END] - base;
            Spread(syms) <==> Clean(items, base, size) && STUB * |items| <= size < STUB * |items| + REGION_ALIGN
  {
    hide ItemOffset, Offset, Less, Ascending, VeneerSymbols;
    ItemOffsets(syms, items);
    AscendingDistinct(items);
    var veneers := VeneerSymbols(syms);
    if Clean(items, syms[BASE], syms[END] - syms[BASE]) {
      forall v | v in veneers ensures InSlot(syms, v) {
        var i := ItemAt(syms, items, v);
      }
      forall v, w | v in veneers && w in veneers && v != w ensures Offset(syms, v) != Offset(syms, w) {
        var i, j := ItemAt(syms, items, v), ItemAt(syms, items, w);
        assert i != j;
      }
    }
    if Spread(syms) {
      forall i | 0 <= i < |items| ensures Good(items[i], syms[BASE], syms[END] - syms[BASE]) {
        assert InSlot(syms, items[i].key);
      }
    }
  }

  lemma UnusedIsVacant(syms: Symbols, items: seq<Keyed<int>>, slots: map<int, Bytes>)
    requires BASE in syms && ItemsOf(items, VeneerSymbols(syms)) && SlotsOf(slots, items, syms[BASE])
    ensures Unused(slots, |items|) == Vacant(syms)
  {
    hide ItemsOf, Hit, Occupied, VeneerSymbols;
    ItemCount(syms, items);
    forall k ensures STUB * k in slots <==> Occupied(syms, STUB * k) {
      HitVeneer(syms, items, STUB * k);
    }
  }

  lemma ItemCount(syms: Symbols, items: seq<Keyed<int>>)
    requires ItemsOf(items, VeneerSymbols(syms))
    ensures |items| == |VeneerSymbols(syms)|
  {
  }

  /** A region is packed exactly when it is spread without a vacant slot. */
  lemma PackedIsFull(syms: Symbols, items: seq<Keyed<int>>, slots: map<int, Bytes>)
    requires BASE in syms && END in syms && ItemsOf(items, VeneerSymbols(syms)) && items != []
    requires var base := syms[BASE]; Clean(items, base, syms[END] - base) ==> SlotsOf(slots, items, base)
    ensures Packed(syms) <==> Spread(syms) && Vacant(syms) == {}
  {
    hide Clean, SlotsOf, ItemsOf, Packed, VeneerSymbols, Spread, Vacant;
    PackedIff(syms, items, slots);
    CleanIsSpread(syms, items);
    ItemCount(syms, items);
    if Spread(syms) {
      UnusedIsVacant(syms, items, slots);
      assert Unused(slots, |items|) == {} <==> forall k | 0 <= k < |items| :: STUB * k in slots by {
        NothingUnused(slots, |items|);
      }
    }
  }

  lemma NothingUnused(slots: map<int, Bytes>, n: nat)
    ensures Unused(slots, n) == {} <==> forall k | 0 <= k < n :: STUB * k in slots
  {
    if Unused(slots, n) == {} {
      forall k | 0 <= k < n ensures STUB * k in slots {
        assert k !in Unused(slots, n);
      }
    }
  }

  /** The three groups of findings together are exactly the reported ones. */
  lemma FindingsExact(syms: Symbols, items: seq<Keyed<int>>, slots: map<int, Bytes>,
                      placed: seq<Finding>, empty: seq<int>, findings: seq<Finding>)
    requires BASE in syms && END in syms && ItemsOf(items, VeneerSymbols(syms)) && items != []
    requires var base := syms[BASE];
             var size := syms[END] - base;
             && (forall f :: f in placed <==> Wrong(f, items, base, size, |items|))
             && (placed == [] <==> Clean(items, base, size))
             && (placed == [] ==> SlotsOf(slots, items, base))
    requires Lists(empty, slots, |items|)
    requires findings
             == placed + SizeFindings(syms, |items|) + EmptyFindings(placed + SizeFindings(syms, |items|), empty)
    ensures forall f :: f in findings <==> Reported(syms, f)
    ensures findings == [] <==> Packed(syms)
  {
    hide Clean, SlotsOf, ItemsOf, Packed, VeneerSymbols, Spread, Vacant, Wrong, Unused;
    ItemCount(syms, items);
    CleanIsSpread(syms, items);
    PackedIsFull(syms, items, slots);
    if placed == [] {
      UnusedIsVacant(syms, items, slots);
    }
    forall f ensures f in findings <==> Reported(syms, f) {
      WrongIsReported(syms, items, f);
    }
  }

  ghost function SizeFindings(syms: Symbols, n: nat): seq<Finding>
    requires BASE in syms && END in syms
  {
    var size := syms[END] - syms[BASE];
    if size < STUB * n then [TooSmall(size, n)]
    else if size >= STUB * n + REGION_ALIGN then [TooLarge(size, n)]
    else []
  }

  ghost function EmptyFindings(sofar: seq<Finding>, empty: seq<int>): seq<Finding> {
    if sofar == [] && empty != [] then [EmptySlots(|empty|, empty[0])] else []
  }

  lemma Landmarks()
    ensures |BASE| == 22 && |END| == 20 && |ACLE_PREFIX| == 10
    ensures BASE[0] == END[0] == 103 && ACLE_PREFIX[0] == 95
  {
  }

  /** Moving the end of the region changes no veneer unless the end symbol has a secure body. */
  lemma SameVeneers(syms: Symbols, end: int)
    requires ACLE_PREFIX + END !in syms
    ensures VeneerSymbols(syms[END := end]) == VeneerSymbols(syms)
  {
    hide BASE, END, ACLE_PREFIX, VeneerSymbols;
    Landmarks();
    forall name: Bytes ensures name in VeneerSymbols(syms[END := end]) <==> name in VeneerSymbols(syms) {
      assert (ACLE_PREFIX + name)[0] == 95;
    }
  }

  /** A packed region stays packed with up to 31 bytes behind its last slot, and with no more. */
  lemma PaddingAccepted(syms: Symbols, padding: nat)
    requires BASE in syms && Packed(syms) && ACLE_PREFIX + END !in syms
    ensures Packed(syms[END := syms[BASE] + STUB * |VeneerSymbols(syms)| + padding]) <==> padding < REGION_ALIGN
  {
    hide BASE, END, ACLE_PREFIX, VeneerSymbols;
    Landmarks();
    var moved := syms[END := syms[BASE] + STUB * |VeneerSymbols(syms)| + padding];
    SameVeneers(syms, moved[END]);
    forall v | v in VeneerSymbols(syms) ensures v in moved && Offset(moved, v) == Offset(syms, v) {
      assert v != END;
    }
    forall k | 0 <= k < |VeneerSymbols(syms)| ensures Occupied(moved, STUB * k) {
      assert Occupied(syms, STUB * k);
    }
  }

  /** Gateway "a" in the only slot of a region of 32 bytes: one stride would be 8. */
  lemma PaddedRegion(base: int)
    requires 0 <= base < 0x8000_0000 && base % 2 == 0
    ensures var syms := map[BASE := base, END := base + 32, [97] := base + 1, ACLE_PREFIX + [97] := base];
            BASE in syms && Packed(syms)
  {
    hide BASE, END, ACLE_PREFIX, VeneerSymbols;
    Landmarks();
    var a: Bytes, body := [97], ACLE_PREFIX + [97];
    assert body[0] == 95;
    var syms := map[BASE := base, END := base + 32, a := base + 1, body := base];
    forall name ensures name in VeneerSymbols(syms) <==> name == a {
      assert (ACLE_PREFIX + name)[0] == 95;
      assert (ACLE_PREFIX + name)[|ACLE_PREFIX|..] == name && body[|ACLE_PREFIX|..] == a;
    }
    assert VeneerSymbols(syms).Keys == {a};
    assert Offset(syms, a) == 0;
    assert Occupied(syms, STUB * 0);
  }

  // ------------------------------------------------- local tests, global fact

  /** The offsets of n items are 0, 8, ..., 8(n-1), each once. */
  ghost predicate Bijective(items: seq<Keyed<int>>, base: int) {
    var n := |items|;
    && (forall i | 0 <= i < n :: 0 <= ItemOffset(items[i], base) < STUB * n && ItemOffset(items[i], base) % STUB == 0)
    && (forall i, j | 0 <= i < j < n :: ItemOffset(items[i], base) != ItemOffset(items[j], base))
    && (forall k | 0 <= k < n :: Hit(items, base, STUB * k))
  }

  /** n distinct slot offsets that include 0, 8, ..., 8(n-1) are exactly those. */
  lemma OffsetsExact(items: seq<Keyed<int>>, base: int, i: nat)
    requires i < |items|
    requires forall a, b | 0 <= a < b < |items| :: ItemOffset(items[a], base) != ItemOffset(items[b], base)
    requires forall k | 0 <= k < |items| :: Hit(items, base, STUB * k)
    ensures 0 <= ItemOffset(items[i], base) < STUB * |items|
  {
    hide ItemOffset;
    var offs := seq(|items|, j requires 0 <= j < |items| => ItemOffset(items[j], base));
    var image := set j | 0 <= j < |offs| :: offs[j];
    InjectiveImageSize(offs, image);
    var slots := seq(|items|, k => STUB * k);
    var wanted := set k | 0 <= k < |slots| :: slots[k];
    InjectiveImageSize(slots, wanted);
    forall x | x in wanted ensures x in image {
      var k :| 0 <= k < |slots| && slots[k] == x;
      assert Hit(items, base, STUB * k);
      var j :| 0 <= j < |items| && ItemOffset(items[j], base) == STUB * k;
      assert offs[j] == x;
    }
    SubsetSize(wanted, image);
    assert offs[i] in image;
    assert offs[i] in wanted;
  }

  /** The local tests and the size tests together say exactly that the offsets form a bijection. */
  lemma LocalIsGlobal(items: seq<Keyed<int>>, base: int, size: int, slots: map<int, Bytes>)
    requires Clean(items, base, size) ==> SlotsOf(slots, items, base)
    requires STUB * |items| <= size
    ensures Clean(items, base, size) && (forall k | 0 <= k < |items| :: STUB * k in slots) <==> Bijective(items, base)
  {
    hide ItemOffset;
    if Clean(items, base, size) && (forall k | 0 <= k < |items| :: STUB * k in slots) {
      assert forall k | 0 <= k < |items| :: Hit(items, base, STUB * k);
      forall i | 0 <= i < |items| ensures 0 <= ItemOffset(items[i], base) < STUB * |items| {
        OffsetsExact(items, base, i);
      }
    }
    if Bijective(items, base) {
      hide Hit;
      assert Clean(items, base, size);
    }
  }

  lemma PackedIff(syms: Symbols, items: seq<Keyed<int>>, slots: map<int, Bytes>)
    requires BASE in syms && END in syms && ItemsOf(items, VeneerSymbols(syms)) && items != []
    requires var base := syms[BASE]; Clean(items, base, syms[END] - base) ==> SlotsOf(slots, items, base)
    ensures var base, n := syms[BASE], |VeneerSymbols(syms)|;
            var size := syms[END] - base;
            Packed(syms) <==>
              && Clean(items, base, size) && STUB * n <= size < STUB * n + REGION_ALIGN
              && forall k | 0 <= k < n :: STUB * k in slots
  {
    hide Clean, SlotsOf, Bijective, Packed, VeneerSymbols, ItemsOf;
    ItemCount(syms, items);
    var base := syms[BASE];
    var size := syms[END] - base;
    if STUB * |items| <= size {
      LocalIsGlobal(items, base, size, slots);
    }
    BijectivePacked(syms, items);
  }

  lemma ItemOffsets(syms: Symbols, items: seq<Keyed<int>>)
    requires BASE in syms && ItemsOf(items, VeneerSymbols(syms))
    ensures forall i | 0 <= i < |items| ::
              items[i].key in VeneerSymbols(syms) && ItemOffset(items[i], syms[BASE]) == Offset(syms, items[i].key)
  {
  }

  /** Bijectivity read off the table of symbols is bijectivity read off its sorted items. */
  lemma BijectivePacked(syms: Symbols, items: seq<Keyed<int>>)
    requires BASE in syms && END in syms && ItemsOf(items, VeneerSymbols(syms)) && items != []
    ensures Packed(syms) <==>
              Bijective(items, syms[BASE]) && STUB * |items| <= syms[END] - syms[BASE] < STUB * |items| + REGION_ALIGN
  {
    hide Packed, Bijective;
    if Packed(syms) {
      PackedBijective(syms, items);
    }
    if Bijective(items, syms[BASE]) && STUB * |items| <= syms[END] - syms[BASE] < STUB * |items| + REGION_ALIGN {
      BijectiveImpliesPacked(syms, items);
    }
  }

  lemma PackedBijective(syms: Symbols, items: seq<Keyed<int>>)
    requires BASE in syms && ItemsOf(items, VeneerSymbols(syms)) && Packed(syms)
    ensures Bijective(items, syms[BASE]) && STUB * |items| <= syms[END] - syms[BASE] < STUB * |items| + REGION_ALIGN
  {
    hide ItemOffset, Offset, Less, Ascending, Hit, Occupied, VeneerSymbols;
    ItemOffsets(syms, items);
    AscendingDistinct(items);
    forall k | 0 <= k < |items| ensures Hit(items, syms[BASE], STUB * k) {
      HitVeneer(syms, items, STUB * k);
    }
  }

  lemma BijectiveImpliesPacked(syms: Symbols, items: seq<Keyed<int>>)
    requires BASE in syms && END in syms && ItemsOf(items, VeneerSymbols(syms)) && items != []
    requires Bijective(items, syms[BASE]) && STUB * |items| <= syms[END] - syms[BASE] < STUB * |items| + REGION_ALIGN
    ensures Packed(syms)
  {
    hide ItemOffset, Offset, Less, Ascending, Hit, Occupied, VeneerSymbols;
    var veneers := VeneerSymbols(syms);
    forall v, w | v in veneers && w in veneers && v != w ensures Offset(syms, v) != Offset(syms, w) {
      var i, j := ItemAt(syms, items, v), ItemAt(syms, items, w);
      assert i != j;
    }
    forall v | v in veneers ensures 0 <= Offset(syms, v) < STUB * |items| && Offset(syms, v) % STUB == 0 {
      var i := ItemAt(syms, items, v);
    }
    forall k | 0 <= k < |items| ensures Occupied(syms, STUB * k) {
      HitVeneer(syms, items, STUB * k);
    }
  }

  ghost function ItemAt(syms: Symbols, items: seq<Keyed<int>>, v: Bytes): (i: nat)
    requires BASE in syms && ItemsOf(items, VeneerSymbols(syms)) && v in VeneerSymbols(syms)
    ensures i < |items| && items[i].key == v && ItemOffset(items[i], syms[BASE]) == Offset(syms, v)
  {
    ItemOffsets(syms, items);
    var i :| 0 <= i < |items| && items[i].key == v;
    i
  }

  lemma HitVeneer(syms: Symbols, items: seq<Keyed<int>>, off: int)
    requires BASE in syms && ItemsOf(items, VeneerSymbols(syms))
    ensures Hit(items, syms[BASE], off) <==> Occupied(syms, off)
  {
    hide ItemOffset, Offset, Ascending;
    ItemOffsets(syms, items);
    if Hit(items, syms[BASE], off) {
      var i :| 0 <= i < |items| && ItemOffset(items[i], syms[BASE]) == off;
      assert Offset(syms, items[i].key) == off;
    }
    if v :| v in VeneerSymbols(syms) && Offset(syms, v) == off {
      var i :| 0 <= i < |items| && items[i].key == v;
      assert ItemOffset(items[i], syms[BASE]) == off;
    }
  }
}
