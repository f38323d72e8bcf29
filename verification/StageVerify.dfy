/** The archive-versus-tree check, and the whole staging pipeline. */
module StageVerify {
  import opened Bytes
  import opened Order
  import opened Outcomes
  import opened StageArchive
  import opened StageExtract

  datatype Finding =
    | Missing(name: Bytes)
    | Unexpected(name: Bytes)
    | TypeMismatch(name: Bytes)
    | ModeMismatch(name: Bytes)
    | ContentMismatch(name: Bytes)
    | LinkMismatch(name: Bytes)

  function Compare(name: Bytes, wanted: Entry, got: Entry): (f: Option<Finding>)
    ensures f == None <==> wanted == got
  {
    match (wanted, got)
    case (Directory(m), Directory(n)) => if m != n then Some(ModeMismatch(name)) else None
    case (Regular(m, a), Regular(n, b)) =>
      if m != n then Some(ModeMismatch(name)) else if a != b then Some(ContentMismatch(name)) else None
    case (Symlink(a), Symlink(b)) => if a != b then Some(LinkMismatch(name)) else None
    case (Special, Special) => None
    case _ => Some(TypeMismatch(name))
  }

  /** What each finding claims about the two entry maps. */
  ghost predicate Holds(f: Finding, expected: Tree, actual: Tree) {
    || (f.Missing? && f.name in expected && f.name !in actual)
    || (f.Unexpected? && f.name in actual && f.name !in expected)
    || Mismatch(f, expected, actual)
  }

  ghost predicate Mismatch(f: Finding, expected: Tree, actual: Tree) {
    f.name in expected && f.name in actual && Differs(f, expected[f.name], actual[f.name])
  }

  /** Kinds first, then modes, then what the kind carries. */
  ghost predicate Differs(f: Finding, wanted: Entry, got: Entry) {
    var folders, files := wanted.Directory? && got.Directory?, wanted.Regular? && got.Regular?;
    var links := wanted.Symlink? && got.Symlink?;
    match f
    case TypeMismatch(_) => !folders && !files && !links && !(wanted.Special? && got.Special?)
    case ModeMismatch(_) => (folders || files) && wanted.mode != got.mode
    case ContentMismatch(_) => files && wanted.mode == got.mode && wanted.data != got.data
    case LinkMismatch(_) => links && wanted.link != got.link
    case _ => false
  }

  /** Missing names, then unexpected ones, then mismatches. */
  function Group(f: Finding): nat {
    match f case Missing(_) => 0 case Unexpected(_) => 1 case _ => 2
  }

  ghost predicate Precedes(f: Finding, g: Finding) {
    Group(f) < Group(g) || (Group(f) == Group(g) && Less(f.name, g.name))
  }

  /** The findings come group by group and within a group by ascending name. */
  ghost predicate Arranged(findings: seq<Finding>) {
    forall i, j | 0 <= i < j < |findings| :: Precedes(findings[i], findings[j])
  }

  lemma ArrangedMore(findings: seq<Finding>, f: Finding)
    requires Arranged(findings) && forall g | g in findings :: Precedes(g, f)
    ensures Arranged(findings + [f])
  {
    hide Precedes;
    assert forall i | 0 <= i < |findings| :: findings[i] in findings;
  }

  lemma EarlierName(names: seq<Bytes>, i: nat, name: Bytes)
    requires i < |names| && name in names[..i] && forall a, b | 0 <= a < b < |names| :: Less(names[a], names[b])
    ensures Less(name, names[i])
  {
    hide Less;
    var k :| 0 <= k < i && names[..i][k] == name;
  }

  /** Every mismatch between two entry maps, and nothing else, by kind and name. */
  method CompareTrees(expected: Tree, actual: Tree) returns (findings: seq<Finding>)
    ensures forall f :: f in findings <==> Holds(f, expected, actual)
    ensures Arranged(findings)
    ensures findings == [] <==> expected == actual
  {
    hide Less, Compare, Differs, Arranged;
    findings := [];
    NothingArranged();
    var missing := SortedNames(expected.Keys - actual.Keys);
    for i := 0 to |missing|
      invariant Arranged(findings)
      invariant forall f :: f in findings <==> f.Missing? && f.name in missing[..i]
    {
      forall g | g in findings ensures Precedes(g, Missing(missing[i])) {
        EarlierName(missing, i, g.name);
      }
      ArrangedMore(findings, Missing(missing[i]));
      findings := findings + [Missing(missing[i])];
    }
    assert missing[..|missing|] == missing;
    var unexpected := SortedNames(actual.Keys - expected.Keys);
    for i := 0 to |unexpected|
      invariant Arranged(findings)
      invariant forall f :: f in findings <==>
                  (f.Missing? && f.name in missing) || (f.Unexpected? && f.name in unexpected[..i])
    {
      forall g | g in findings ensures Precedes(g, Unexpected(unexpected[i])) {
        if g.Unexpected? {
          EarlierName(unexpected, i, g.name);
        }
      }
      ArrangedMore(findings, Unexpected(unexpected[i]));
      findings := findings + [Unexpected(unexpected[i])];
    }
    assert unexpected[..|unexpected|] == unexpected;
    var shared := SortedNames(expected.Keys * actual.Keys);
    for i := 0 to |shared|
      invariant Arranged(findings)
      invariant forall f :: f in findings <==>
                  || (f.Missing? && f.name in missing) || (f.Unexpected? && f.name in unexpected)
                  || (f.name in shared[..i] && Mismatch(f, expected, actual))
    {
      assert shared[i] in shared;
      var f := Compare(shared[i], expected[shared[i]], actual[shared[i]]);
      CompareNames(shared[i], expected, actual);
      if f.Some? {
        forall g | g in findings ensures Precedes(g, f.value) {
          if g.name in shared[..i] && Mismatch(g, expected, actual) {
            EarlierName(shared, i, g.name);
            MismatchGroup(g, expected, actual);
          }
        }
        ArrangedMore(findings, f.value);
        findings := findings + [f.value];
      }
    }
    assert shared[..|shared|] == shared;
    NothingFound(expected, actual, findings);
  }

  lemma NothingArranged()
    ensures Arranged([])
  {
  }

  lemma MismatchGroup(f: Finding, expected: Tree, actual: Tree)
    requires Mismatch(f, expected, actual)
    ensures Group(f) == 2
  {
  }

  lemma CompareNames(x: Bytes, expected: Tree, actual: Tree)
    requires x in expected && x in actual
    ensures var c := Compare(x, expected[x], actual[x]);
            forall f: Finding :: (f.name == x && Mismatch(f, expected, actual)) <==> c == Some(f)
    ensures forall f | Compare(x, expected[x], actual[x]) == Some(f) :: Group(f) == 2 && f.name == x
  {
  }

  /** Without findings the maps have the same names and the same entries. */
  lemma NothingFound(expected: Tree, actual: Tree, findings: seq<Finding>)
    requires forall f :: f in findings <==> Holds(f, expected, actual)
    ensures findings == [] <==> expected == actual
  {
    if findings == [] {
      forall x ensures x in expected <==> x in actual {
        assert !Holds(Missing(x), expected, actual) && !Holds(Unexpected(x), expected, actual);
      }
      forall x | x in expected ensures expected[x] == actual[x] {
        var c := Compare(x, expected[x], actual[x]);
        CompareNames(x, expected, actual);
        assert c.Some? ==> Holds(c.value, expected, actual);
      }
    }
    if expected == actual {
      forall f: Finding ensures f !in findings {
        assert !Mismatch(f, expected, actual);
      }
      NoMembers(findings);
    }
  }

  /** verify_archive: findings of an archive against an extracted tree. */
  method VerifyArchive(members: seq<Member>, tree: Tree) returns (r: Result<seq<Finding>>)
    ensures r.Ok? <==> Readable(members) && Walkable(tree)
    ensures r.Ok? ==> forall f :: f in r.value <==> Holds(f, MapOf(Renamed(members)), tree)
    ensures r.Ok? ==> Arranged(r.value) && (r.value == [] <==> tree == MapOf(Renamed(members)))
  {
    hide Holds, Arranged, Renamed, MapOf;
    var expected := ArchiveEntries(members);
    if expected.Err? || exists name | name in tree :: tree[name].Special? {
      return Err;
    }
    var findings := CompareTrees(expected.value, tree);
    return Ok(findings);
  }

  /** Of any readable archive, not only a created one, the extracted tree departs by
      nothing but directories that had to be invented above its members. */
  lemma ExtractionFindings(members: seq<Member>, tree: Tree, defaultMode: nat, f: Finding)
    requires Readable(members) && !HasName(DOT, Renamed(members)) && Extracted(tree, Renamed(members), defaultMode)
    ensures Holds(f, MapOf(Renamed(members)), tree) ==>
              f.Unexpected? && Invented(f.name, tree[f.name], Renamed(members), defaultMode)
  {
    hide MapOf, Renamed, SafeName, IsParentOf;
    MapOfKeys(Renamed(members), f.name);
  }

  /** The pipeline: what was created and extracted verifies without findings, under any default mode. */
  method StageAndVerify(files: seq<Member>, defaultMode: nat) returns (r: Result<seq<Finding>>)
    requires Candidates(files)
    ensures r == if files == [] then Err else Ok([])
  {
    hide Candidates, IsEntryList, Readable, Renamed, Walkable, Extracted;
    var archive := CreateArchive(files);
    if archive.Err? {
      return Err;
    }
    ArchiveIsClean(archive.value, files);
    var tree := Extract(archive.value, defaultMode);
    assert tree == Ok(MapOf(archive.value));
    ExtractedWalkable(tree.value, Renamed(archive.value), defaultMode);
    r := VerifyArchive(archive.value, tree.value);
  }

  lemma ArchiveIsClean(entries: seq<Member>, files: seq<Member>)
    requires Candidates(files) && IsEntryList(entries, files)
    ensures entries == [] <==> files == []
    ensures entries != [] ==> Readable(entries) && Renamed(entries) == entries
  {
    hide Candidates, Canonical, SafeName, Less;
    AscendingDistinct(entries);
    NoEntries(entries, files);
    forall i | 0 <= i < |entries| ensures SafeName(entries[i].key) == Ok(entries[i].key) && !entries[i].value.Special? {
      EntryNames(entries, files, i);
      CanonicalIsSafe(entries[i].key);
    }
  }
}
