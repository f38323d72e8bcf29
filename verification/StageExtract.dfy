/** Extraction of an archive into an empty directory: when it succeeds, and what it leaves there. */
module StageExtract {
  import opened Bytes
  import opened Order
  import opened Outcomes
  import opened StageArchive

  // --------------------------------------------------------- onto the disk

  /** mkdir(parents=True) of the directories above name, created with the process's default mode. */
  function MakeParents(tree: Tree, name: Bytes, defaultMode: nat): Result<Tree>
    decreases |name|
  {
    match Parent(name)
    case None => Ok(tree)
    case Some(p) =>
      if p in tree then (if tree[p].Directory? then Ok(tree) else Err) else
        match MakeParents(tree, p, defaultMode)
        case Err => Err
        case Ok(above) => Ok(above[p := Directory(defaultMode)])
  }

  /** One member onto the disk; "." is the target itself. A link already in the way
      is refused rather than followed. */
  function Place(tree: Tree, name: Bytes, entry: Entry, defaultMode: nat): Result<Tree> {
    if entry.Special? then Err
    else if name == DOT then (if entry.Directory? then Ok(tree) else Err)
    else match MakeParents(tree, name, defaultMode)
    case Err => Err
    case Ok(ready) =>
      if name !in ready then Ok(ready[name := entry])
      else match (ready[name], entry)
        case (Directory(_), Directory(_)) => Ok(ready[name := entry])
        case (Regular(_, _), Regular(_, _)) => Ok(ready[name := entry])
        case _ => Err
  }

  /** _tree_entries over the objects below a directory: special objects are refused. */
  ghost predicate Walkable(tree: Tree) {
    forall name | name in tree :: !tree[name].Special?
  }

  /** What mkdir may have invented: a directory of the default mode above a member. */
  ghost predicate Invented(x: Bytes, entry: Entry, members: seq<Member>, defaultMode: nat) {
    entry == Directory(defaultMode) && IsParentOf(x, members)
  }

  /** Everything on the disk is a member or was invented above one, and as long as
      no two members have the same name every member is there as it was stored. */
  ghost predicate Extracted(tree: Tree, members: seq<Member>, defaultMode: nat) {
    && Walkable(tree)
    && (forall x | x in tree :: HasName(x, members) || Invented(x, tree[x], members, defaultMode))
    && (DistinctKeys(members) ==>
          forall i | 0 <= i < |members| && members[i].key != DOT ::
            members[i].key in tree && tree[members[i].key] == members[i].value)
  }

  ghost predicate HasName(x: Bytes, members: seq<Member>) {
    exists i :: 0 <= i < |members| && members[i].key == x
  }

  lemma {:induction false} MakeParentsKeeps(tree: Tree, name: Bytes, defaultMode: nat)
    ensures var made := MakeParents(tree, name, defaultMode);
            made.Ok? ==>
              && (forall x | x in tree :: x in made.value && made.value[x] == tree[x])
              && (forall x | x in made.value && x !in tree ::
                    made.value[x] == Directory(defaultMode) && x in Ancestors(name))
    decreases |name|
  {
    hide Parent;
    var p := Parent(name);
    if p.Some? && p.value !in tree {
      ParentShorter(name);
      MakeParentsKeeps(tree, p.value, defaultMode);
    }
  }

  lemma ParentShorter(name: Bytes)
    ensures Parent(name).Some? ==> |Parent(name).value| < |name|
  {
  }

  lemma PlaceKeeps(tree: Tree, name: Bytes, entry: Entry, defaultMode: nat)
    ensures var placed := Place(tree, name, entry, defaultMode);
            placed.Ok? ==>
              && (name != DOT ==> name in placed.value && placed.value[name] == entry)
              && (forall x | x in tree && x != name :: x in placed.value && placed.value[x] == tree[x])
              && (forall x | x in placed.value && x !in tree && x != name ::
                    placed.value[x] == Directory(defaultMode) && x in Ancestors(name))
              && (name == DOT ==> placed.value == tree)
  {
    hide MakeParents, Ancestors;
    MakeParentsKeeps(tree, name, defaultMode);
  }

  lemma ExtractStep(tree: Tree, members: seq<Member>, i: nat, placed: Tree, defaultMode: nat)
    requires i < |members| && Extracted(tree, members[..i], defaultMode)
    requires Place(tree, members[i].key, members[i].value, defaultMode) == Ok(placed)
    ensures Extracted(placed, members[..i + 1], defaultMode)
  {
    hide Place, Ancestors;
    PlacedIsOrdinary(tree, members[i].key, members[i].value, defaultMode);
    var before, more, last := members[..i], members[..i + 1], members[i];
    assert more == before + [last];
    PlaceKeeps(tree, last.key, last.value, defaultMode);
    assert more[i] == last;
    assert forall j | 0 <= j < i :: more[j] == before[j];
    forall x | x in placed ensures HasName(x, more) || Invented(x, placed[x], more, defaultMode) {
      if x in tree && x != last.key {
        GrowNames(x, members, i, defaultMode, tree[x]);
      } else if x != last.key {
        assert x in Ancestors(more[i].key);
      }
    }
    if DistinctKeys(more) {
      assert DistinctKeys(before);
    }
  }

  lemma GrowNames(x: Bytes, members: seq<Member>, i: nat, defaultMode: nat, entry: Entry)
    requires i < |members|
    requires HasName(x, members[..i]) || Invented(x, entry, members[..i], defaultMode)
    ensures HasName(x, members[..i + 1]) || Invented(x, entry, members[..i + 1], defaultMode)
  {
    hide Ancestors;
    assert forall j | 0 <= j < i :: members[..i + 1][j] == members[..i][j];
  }

  // ------------------------------------------------ when extraction succeeds

  /** Two members that one disk can hold under one name, the later written over the earlier. */
  predicate Rewrites(earlier: Entry, later: Entry) {
    (earlier.Directory? && later.Directory?) || (earlier.Regular? && later.Regular?)
  }

  /** No member is special, only a directory lies above another member or is the
      target itself, and a repeated name is a directory each time or a file each time. */
  ghost predicate Compatible(members: seq<Member>) {
    && (forall i | 0 <= i < |members| :: !members[i].value.Special?)
    && (forall i | 0 <= i < |members| && members[i].key == DOT :: members[i].value.Directory?)
    && (forall i, j | 0 <= i < |members| && 0 <= j < |members| && members[i].key in Ancestors(members[j].key) ::
          members[i].value.Directory?)
    && (forall i, j | 0 <= i < j < |members| && members[i].key == members[j].key :: SameTarget(members[i], members[j]))
  }

  ghost predicate SameTarget(a: Member, b: Member) {
    a.key == DOT || Rewrites(a.value, b.value)
  }

  /** With every object on the disk its parent directory is there too. */
  ghost predicate Closed(tree: Tree) {
    forall x | x in tree && Parent(x).Some? :: Parent(x).value in tree && tree[Parent(x).value].Directory?
  }

  /** What an object on the disk goes back to: a member of the same name and kind, or,
      for a directory, a member below it. */
  ghost predicate Stems(x: Bytes, entry: Entry, members: seq<Member>) {
    || (exists i :: 0 <= i < |members| && members[i].key == x && SameKind(members[i].value, entry))
    || (entry.Directory? && IsParentOf(x, members))
  }

  predicate SameKind(a: Entry, b: Entry) {
    (a.Directory? <==> b.Directory?) && (a.Regular? <==> b.Regular?) && (a.Symlink? <==> b.Symlink?)
  }

  /** The kinds of the objects on the disk are those of the members so far. */
  ghost predicate Mirrors(tree: Tree, members: seq<Member>) {
    && Closed(tree)
    && (forall x | x in tree :: Stems(x, tree[x], members))
    && (forall i | 0 <= i < |members| && members[i].key != DOT ::
          members[i].key in tree && SameKind(members[i].value, tree[members[i].key]))
  }

  lemma {:induction false} AncestorsClosed(tree: Tree, name: Bytes)
    requires Closed(tree) && name in tree
    ensures forall a | a in Ancestors(name) :: a in tree && tree[a].Directory?
    decreases |name|
  {
    hide Parent;
    ParentShorter(name);
    if Parent(name).Some? {
      AncestorsClosed(tree, Parent(name).value);
    }
  }

  lemma {:induction false} AncestorsShorter(name: Bytes, a: Bytes)
    requires a in Ancestors(name)
    ensures |a| < |name|
    decreases |name|
  {
    hide Parent;
    ParentShorter(name);
    if a != Parent(name).value {
      AncestorsShorter(Parent(name).value, a);
    }
  }

  /** mkdir fails exactly when something above the name is there and no directory. */
  lemma {:induction false} MakeParentsOk(tree: Tree, name: Bytes, defaultMode: nat)
    requires Closed(tree)
    ensures MakeParents(tree, name, defaultMode).Ok? <==>
              forall a | a in Ancestors(name) && a in tree :: tree[a].Directory?
    ensures MakeParents(tree, name, defaultMode).Ok? ==>
              && Closed(MakeParents(tree, name, defaultMode).value)
              && forall a | a in Ancestors(name) ::
                   && a in MakeParents(tree, name, defaultMode).value
                   && MakeParents(tree, name, defaultMode).value[a].Directory?
    decreases |name|
  {
    hide Parent;
    ParentShorter(name);
    var p := Parent(name);
    if p.Some? {
      if p.value in tree {
        AncestorsClosed(tree, p.value);
      } else {
        MakeParentsOk(tree, p.value, defaultMode);
        ParentStaysOut(tree, p.value, defaultMode);
      }
    }
  }

  lemma ParentStaysOut(tree: Tree, name: Bytes, defaultMode: nat)
    ensures MakeParents(tree, name, defaultMode).Ok? && name !in tree ==>
              name !in MakeParents(tree, name, defaultMode).value
    ensures Parent(name).Some? ==> Parent(name).value in Ancestors(name)
  {
    hide MakeParents, Parent;
    MakeParentsKeeps(tree, name, defaultMode);
    if name in Ancestors(name) {
      AncestorsShorter(name, name);
    }
  }

  /** One member goes onto the disk exactly when it suits the directories above it and
      whatever already has its name. */
  ghost predicate Suits(tree: Tree, m: Member) {
    && !m.value.Special?
    && if m.key == DOT then m.value.Directory? else
         && (forall a | a in Ancestors(m.key) && a in tree :: tree[a].Directory?)
         && (m.key in tree ==> Rewrites(tree[m.key], m.value))
  }

  lemma PlaceOk(tree: Tree, m: Member, defaultMode: nat)
    requires Closed(tree)
    ensures Place(tree, m.key, m.value, defaultMode).Ok? <==> Suits(tree, m)
    ensures Suits(tree, m) ==> Closed(Place(tree, m.key, m.value, defaultMode).value)
  {
    hide MakeParents, Parent, Ancestors;
    MakeParentsOk(tree, m.key, defaultMode);
    MakeParentsKeeps(tree, m.key, defaultMode);
    ParentStaysOut(tree, m.key, defaultMode);
    if Suits(tree, m) && m.key != DOT {
      StaysClosed(MakeParents(tree, m.key, defaultMode).value, m);
    }
  }

  /** Writing an object below its parent, over nothing or over its like, keeps the disk closed. */
  lemma StaysClosed(tree: Tree, m: Member)
    requires Closed(tree) && (m.key in tree ==> Rewrites(tree[m.key], m.value))
    requires Parent(m.key).Some? ==> Parent(m.key).value in tree && tree[Parent(m.key).value].Directory?
    ensures Closed(tree[m.key := m.value])
  {
    hide Parent;
    ParentShorter(m.key);
  }

  lemma MirrorsStep(tree: Tree, members: seq<Member>, i: nat, placed: Tree, defaultMode: nat)
    requires i < |members| && Mirrors(tree, members[..i])
    requires Place(tree, members[i].key, members[i].value, defaultMode) == Ok(placed)
    ensures Mirrors(placed, members[..i + 1])
  {
    hide Place, Ancestors, Parent, Closed, SameKind, Rewrites;
    var before, more, last := members[..i], members[..i + 1], members[i];
    assert more == before + [last] && more[i] == last;
    assert forall j | 0 <= j < i :: more[j] == before[j];
    assert Closed(placed) by {
      PlaceOk(tree, last, defaultMode);
    }
    PlaceKeeps(tree, last.key, last.value, defaultMode);
    SameKindFacts();
    forall x | x in placed ensures Stems(x, placed[x], more) {
      if x in tree && (x != last.key || last.key == DOT) {
        assert Stems(x, tree[x], before);
      } else if x != last.key {
        assert x in Ancestors(more[i].key);
      }
    }
    forall j | 0 <= j < |more| && more[j].key != DOT
      ensures more[j].key in placed && SameKind(more[j].value, placed[more[j].key])
    {
      if j < i && more[j].key == last.key {
        PlacedOver(tree, last, defaultMode);
        assert before[j] == more[j];
      }
    }
  }

  lemma SameKindFacts()
    ensures forall e :: SameKind(e, e)
    ensures forall a, b, c :: SameKind(a, b) && SameKind(b, c) ==> SameKind(a, c)
  {
  }

  lemma PlacedOver(tree: Tree, m: Member, defaultMode: nat)
    requires Closed(tree) && m.key in tree && m.key != DOT && Place(tree, m.key, m.value, defaultMode).Ok?
    ensures SameKind(tree[m.key], m.value)
  {
    hide Place;
    PlaceOk(tree, m, defaultMode);
  }

  /** The next member suits the disk exactly when the members stay compatible. */
  lemma SuitsIff(tree: Tree, members: seq<Member>, i: nat)
    requires i < |members| && Mirrors(tree, members[..i]) && Compatible(members[..i])
    ensures Suits(tree, members[i]) <==> Compatible(members[..i + 1])
  {
    hide Ancestors, Parent, Closed;
    var before, more, last := members[..i], members[..i + 1], members[i];
    assert more == before + [last] && more[i] == last;
    assert forall j | 0 <= j < i :: more[j] == before[j];
    if Suits(tree, last) {
      SuitsKeeps(tree, members, i);
    }
    if Compatible(more) {
      CompatibleSuits(tree, members, i);
    }
  }

  lemma SuitsKeeps(tree: Tree, members: seq<Member>, i: nat)
    requires i < |members| && Mirrors(tree, members[..i]) && Compatible(members[..i]) && Suits(tree, members[i])
    ensures Compatible(members[..i + 1])
  {
    hide Ancestors, SameTarget, Mirrors;
    var before, more, last := members[..i], members[..i + 1], members[i];
    assert more[i] == last && forall j | 0 <= j < i :: more[j] == before[j];
    forall j, k | 0 <= j < |more| && 0 <= k < |more| && more[j].key in Ancestors(more[k].key)
      ensures more[j].value.Directory?
    {
      SuitsAbove(tree, members, i, j, k);
    }
    forall j | 0 <= j < i && more[j].key == last.key ensures SameTarget(more[j], last) {
      SuitsOver(tree, members, i, j);
    }
  }

  lemma SuitsAbove(tree: Tree, members: seq<Member>, i: nat, j: nat, k: nat)
    requires i < |members| && Mirrors(tree, members[..i]) && Compatible(members[..i]) && Suits(tree, members[i])
    requires j <= i && k <= i && members[j].key in Ancestors(members[k].key)
    ensures members[j].value.Directory?
  {
    hide Ancestors, Closed, SameTarget, Stems;
    var before, last := members[..i], members[i];
    assert forall m | 0 <= m < i :: before[m] == members[m];
    if j < i && k < i {
      assert before[j].key in Ancestors(before[k].key);
    } else if j < i {
      DotHasNoParent();
    } else if k < i {
      MemberAbove(tree, before, k, last.key);
    } else {
      AncestorsShorter(last.key, last.key);
    }
  }

  lemma SuitsOver(tree: Tree, members: seq<Member>, i: nat, j: nat)
    requires i < |members| && Mirrors(tree, members[..i]) && Suits(tree, members[i])
    requires j < i && members[j].key == members[i].key
    ensures SameTarget(members[j], members[i])
  {
    hide Ancestors, Closed, Stems;
    assert members[..i][j] == members[j];
  }

  /** Whatever lies above a member is a directory on the disk. */
  lemma MemberAbove(tree: Tree, members: seq<Member>, k: nat, a: Bytes)
    requires Mirrors(tree, members) && k < |members| && a in Ancestors(members[k].key)
    ensures members[k].key != DOT && a in tree && tree[a].Directory?
  {
    hide Closed;
    DotHasNoParent();
    AncestorsClosed(tree, members[k].key);
  }

  lemma DotHasNoParent()
    ensures Ancestors(DOT) == {}
  {
    assert LastSlash(DOT) == -1;
  }

  lemma CompatibleSuits(tree: Tree, members: seq<Member>, i: nat)
    requires i < |members| && Mirrors(tree, members[..i]) && Compatible(members[..i + 1])
    ensures Suits(tree, members[i])
  {
    hide Ancestors, Parent, Closed;
    var before, more, last := members[..i], members[..i + 1], members[i];
    assert more[i] == last && forall j | 0 <= j < i :: more[j] == before[j];
    if last.key != DOT {
      forall a | a in Ancestors(last.key) && a in tree ensures tree[a].Directory? {
        assert Stems(a, tree[a], before);
        if j :| 0 <= j < |before| && before[j].key == a && SameKind(before[j].value, tree[a]) {
          assert more[j].key in Ancestors(more[i].key);
        }
      }
      if last.key in tree {
        OverLike(tree, members, i);
      }
    }
  }

  lemma OverLike(tree: Tree, members: seq<Member>, i: nat)
    requires i < |members| && Mirrors(tree, members[..i]) && Compatible(members[..i + 1])
    requires members[i].key in tree && members[i].key != DOT
    ensures Rewrites(tree[members[i].key], members[i].value)
  {
    hide Ancestors, Parent, Closed;
    var before, more, last := members[..i], members[..i + 1], members[i];
    assert more[i] == last && forall j | 0 <= j < i :: more[j] == before[j];
    assert Stems(last.key, tree[last.key], before);
    if j :| 0 <= j < |before| && before[j].key == last.key && SameKind(before[j].value, tree[last.key]) {
      assert SameTarget(more[j], more[i]);
    } else {
      var k :| 0 <= k < |before| && last.key in Ancestors(before[k].key);
      assert more[i].key in Ancestors(more[k].key);
    }
  }

  lemma CompatiblePrefix(members: seq<Member>, n: nat)
    requires n <= |members| && Compatible(members)
    ensures Compatible(members[..n])
  {
    hide Ancestors;
    assert forall j | 0 <= j < n :: members[..n][j] == members[j];
  }

  /** Extracts member by member. Extraction succeeds exactly when the names are safe
      and the members can lie on one disk; the disk then holds the members and
      invented parents only, and an archive that was created from candidates gives
      exactly its entries. */
  method Extract(members: seq<Member>, defaultMode: nat) returns (r: Result<Tree>)
    ensures r.Ok? <==> (forall i | 0 <= i < |members| :: SafeName(members[i].key).Ok?) && Compatible(Renamed(members))
    ensures r.Ok? ==> Extracted(r.value, Renamed(members), defaultMode)
    ensures forall files :: Candidates(files) && IsEntryList(members, files) ==> r == Ok(MapOf(members))
  {
    hide Candidates, IsEntryList, SafeName, Place, Extracted, Compatible, Mirrors, Suits;
    var tree: Tree := map[];
    ghost var renamed := Renamed(members);
    NothingExtracted(renamed, defaultMode);
    for i := 0 to |members|
      invariant forall j | 0 <= j < i :: SafeName(members[j].key).Ok?
      invariant Extracted(tree, renamed[..i], defaultMode)
      invariant Mirrors(tree, renamed[..i]) && Compatible(renamed[..i])
      invariant forall files :: Candidates(files) && IsEntryList(members, files) ==> tree == MapOf(members[..i])
    {
      forall files | Candidates(files) && IsEntryList(members, files)
        ensures SafeName(members[i].key) == Ok(members[i].key)
        ensures Place(MapOf(members[..i]), members[i].key, members[i].value, defaultMode) == Ok(MapOf(members[..i + 1]))
      {
        PlaceStep(members, files, i, defaultMode);
      }
      var name := SafeName(members[i].key);
      if name.Err? {
        return Err;
      }
      assert renamed[i] == Keyed(name.value, members[i].value);
      var next := Place(tree, name.value, members[i].value, defaultMode);
      PlacedIff(tree, renamed, i, defaultMode);
      if next.Err? {
        if Compatible(renamed) {
          CompatiblePrefix(renamed, i + 1);
        }
        return Err;
      }
      ExtractStep(tree, renamed, i, next.value, defaultMode);
      MirrorsStep(tree, renamed, i, next.value, defaultMode);
      tree := next.value;
    }
    assert members[..|members|] == members && renamed[..|renamed|] == renamed;
    return Ok(tree);
  }

  lemma PlacedIff(tree: Tree, members: seq<Member>, i: nat, defaultMode: nat)
    requires i < |members| && Mirrors(tree, members[..i]) && Compatible(members[..i])
    ensures Place(tree, members[i].key, members[i].value, defaultMode).Ok? <==> Compatible(members[..i + 1])
  {
    hide Place, Suits, Compatible, Closed;
    SuitsIff(tree, members, i);
    PlaceOk(tree, members[i], defaultMode);
  }

  lemma ExtractedWalkable(tree: Tree, members: seq<Member>, defaultMode: nat)
    requires Extracted(tree, members, defaultMode)
    ensures Walkable(tree)
  {
  }

  lemma NothingExtracted(members: seq<Member>, defaultMode: nat)
    ensures Extracted(map[], members[..0], defaultMode)
    ensures Mirrors(map[], members[..0]) && Compatible(members[..0])
  {
  }

  lemma PlacedIsOrdinary(tree: Tree, name: Bytes, entry: Entry, defaultMode: nat)
    ensures Place(tree, name, entry, defaultMode).Ok? ==> !entry.Special?
  {
    hide MakeParents;
  }

  /** Parents come first, so extraction never has to invent a directory. */
  lemma PlaceStep(entries: seq<Member>, files: seq<Member>, i: nat, defaultMode: nat)
    requires Candidates(files) && IsEntryList(entries, files) && i < |entries|
    ensures SafeName(entries[i].key) == Ok(entries[i].key)
    ensures Place(MapOf(entries[..i]), entries[i].key, entries[i].value, defaultMode) == Ok(MapOf(entries[..i + 1]))
  {
    hide Candidates, IsEntryList, Canonical, SafeName, MapOf;
    EntryNames(entries, files, i);
    CanonicalIsSafe(entries[i].key);
    NotPlacedYet(entries, files, i);
    if Parent(entries[i].key).Some? {
      ParentPlaced(entries, files, i);
    }
  }

  lemma NotPlacedYet(entries: seq<Member>, files: seq<Member>, i: nat)
    requires IsEntryList(entries, files) && i < |entries|
    ensures entries[i].key !in MapOf(entries[..i])
    ensures MapOf(entries[..i + 1]) == MapOf(entries[..i])[entries[i].key := entries[i].value]
  {
    hide Less, IsParentOf;
    AscendingDistinct(entries);
    assert entries[..i + 1][..i] == entries[..i];
    MapOfKeys(entries[..i], entries[i].key);
  }

  lemma ParentPlaced(entries: seq<Member>, files: seq<Member>, i: nat)
    requires Candidates(files) && IsEntryList(entries, files) && i < |entries| && Parent(entries[i].key).Some?
    ensures var p := Parent(entries[i].key).value;
            p in MapOf(entries[..i]) && MapOf(entries[..i])[p] == Directory(DIRECTORY_MODE)
  {
    hide Less, IsParentOf, Candidates, Parent;
    ParentComesFirst(entries, files, i);
    var p := Parent(entries[i].key).value;
    var j :| 0 <= j < i && entries[j] == Keyed(p, Directory(DIRECTORY_MODE));
    AscendingDistinct(entries);
    MapOfKeys(entries[..i], p);
    assert entries[..i][j] == entries[j];
  }
}
