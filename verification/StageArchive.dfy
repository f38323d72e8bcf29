/** Staging of candidate worktree files: member names, the sorted entry list with its
    parent directories, and reading an archive back. An archive is the list of its
    members; names are byte strings. */
module StageArchive {
  import opened Bytes
  import opened Order
  import opened Outcomes

  const DOT: Bytes := [46]
  const DOTDOT: Bytes := [46, 46]
  const DIRECTORY_MODE := 0x1ED  // 0o755

  /** The normalised content of a member. Symlinks all carry the same mode. Special
      is every other kind of object, which no step of the pipeline supports. */
  datatype Entry =
    | Directory(mode: nat)
    | Regular(mode: nat, data: Bytes)
    | Symlink(link: Bytes)
    | Special

  type Member = Keyed<Entry>
  type Tree = map<Bytes, Entry>

  // ------------------------------------------------------------------ names

  /** Index of the last slash, or -1. */
  function LastSlash(name: Bytes): (i: int)
    ensures -1 <= i < |name|
    ensures i >= 0 ==> name[i] == SLASH
    ensures forall j | i < j < |name| :: name[j] != SLASH
  {
    if name == [] then -1
    else if name[|name| - 1] == SLASH then |name| - 1
    else LastSlash(name[..|name| - 1])
  }

  /** PurePosixPath(name).parent of a canonical name; None stands for ".". */
  function Parent(name: Bytes): (p: Option<Bytes>)
    ensures p.Some? ==> |p.value| < |name|
  {
    var i := LastSlash(name);
    if i < 0 then None else Some(name[..i])
  }

  predicate LegalPart(part: Bytes) {
    part != [] && part != DOT && part != DOTDOT
  }

  /** Non-empty components other than "." and "..", joined by single slashes. */
  predicate Canonical(name: Bytes)
    decreases |name|
  {
    var i := LastSlash(name);
    LegalPart(name[i + 1..]) && (i < 0 || Canonical(name[..i]))
  }

  function StripSlashes(name: Bytes): Bytes {
    if name != [] && name[|name| - 1] == SLASH then StripSlashes(name[..|name| - 1]) else name
  }

  /** The canonical relative member name, or a refusal. PurePosixPath keeps "." as it is. */
  function SafeName(raw: Bytes): Result<Bytes> {
    var name := StripSlashes(raw);
    if name == DOT || Canonical(name) then Ok(name) else Err
  }

  lemma CanonicalIsSafe(name: Bytes)
    requires Canonical(name)
    ensures SafeName(name) == Ok(name)
  {
    var i := LastSlash(name);
    assert i < |name| - 1;
    assert name[|name| - 1] != SLASH;
  }

  /** name[i..j] lies between two slashes or ends of the name and holds no slash. */
  ghost predicate IsPart(name: Bytes, i: int, j: int) {
    && 0 <= i <= j <= |name|
    && (i == 0 || name[i - 1] == SLASH) && (j == |name| || name[j] == SLASH)
    && forall k | i <= k < j :: name[k] != SLASH
  }

  ghost predicate LegalParts(name: Bytes) {
    forall i, j | IsPart(name, i, j) :: LegalPart(name[i..j])
  }

  /** A name is canonical exactly when all its parts are legal. */
  lemma {:induction false} CanonicalIff(name: Bytes)
    ensures Canonical(name) <==> LegalParts(name)
    decreases |name|
  {
    hide LegalPart, LastSlash, LegalParts;
    var s := LastSlash(name);
    if s >= 0 {
      CanonicalIff(name[..s]);
      PartsSplit(name, s);
    } else {
      OnePart(name);
      assert name[0..] == name;
    }
  }

  lemma OnePart(name: Bytes)
    requires forall k | 0 <= k < |name| :: name[k] != SLASH
    ensures LegalParts(name) <==> LegalPart(name)
  {
    hide LegalPart;
    assert IsPart(name, 0, |name|) && name[0..|name|] == name;
    forall i, j | IsPart(name, i, j) ensures i == 0 && j == |name| {
    }
  }

  /** The parts of a name are those before its last slash and the one behind it. */
  lemma PartsSplit(name: Bytes, s: nat)
    requires s < |name| && name[s] == SLASH && forall k | s < k < |name| :: name[k] != SLASH
    ensures LegalParts(name) <==> LegalParts(name[..s]) && LegalPart(name[s + 1..])
  {
    hide LegalPart;
    var above := name[..s];
    assert IsPart(name, s + 1, |name|) && name[s + 1..|name|] == name[s + 1..];
    forall i, j | IsPart(name, i, j) ensures (i == s + 1 && j == |name|) || IsPart(above, i, j) {
      PartOfPrefix(name, s, i, j);
    }
    forall i, j | IsPart(above, i, j) ensures IsPart(name, i, j) && above[i..j] == name[i..j] {
      PartOfPrefix(name, s, i, j);
    }
  }

  lemma PartOfPrefix(name: Bytes, s: nat, i: int, j: int)
    requires s < |name| && name[s] == SLASH
    ensures IsPart(name[..s], i, j) <==> IsPart(name, i, j) && j <= s
  {
    var above := name[..s];
    assert forall k | 0 <= k < s :: above[k] == name[k];
  }

  /** A member name is accepted exactly when, without its trailing slashes, it is "."
      or all its parts are legal; so no absolute name, no empty part, no "..". */
  lemma SafeNameIff(raw: Bytes, name: Bytes)
    ensures SafeName(raw) == Ok(name) <==>
              && name <= raw && (forall k | |name| <= k < |raw| :: raw[k] == SLASH)
              && (name == [46] || forall i, j | IsPart(name, i, j) :: name[i..j] !in {[], [46], [46, 46]})
  {
    hide Canonical;
    StripsSlashes(raw);
    CanonicalIff(name);
    if name <= raw && (forall k | |name| <= k < |raw| :: raw[k] == SLASH) && (name == DOT || Canonical(name)) {
      LastIsNoSlash(name);
      StrippedUnique(raw, name);
    }
  }

  lemma {:induction false} StripsSlashes(raw: Bytes)
    ensures var name := StripSlashes(raw);
            && name <= raw && (forall k | |name| <= k < |raw| :: raw[k] == SLASH)
            && (name != [] ==> name[|name| - 1] != SLASH)
  {
    if raw != [] && raw[|raw| - 1] == SLASH {
      StripsSlashes(raw[..|raw| - 1]);
    }
  }

  lemma LastIsNoSlash(name: Bytes)
    requires name == DOT || Canonical(name)
    ensures name != [] && name[|name| - 1] != SLASH
  {
    hide LastSlash;
    var i := LastSlash(name);
    if name != DOT {
      assert name[i + 1..] != [];
    }
  }

  lemma StrippedUnique(raw: Bytes, name: Bytes)
    requires name <= raw && (forall k | |name| <= k < |raw| :: raw[k] == SLASH)
    requires name != [] && name[|name| - 1] != SLASH
    ensures StripSlashes(raw) == name
  {
    StripsSlashes(raw);
    var other := StripSlashes(raw);
    assert raw[|name| - 1] == name[|name| - 1];
    assert |other| == |name|;
  }

  lemma CanonicalIsNotDot(name: Bytes)
    ensures Canonical(name) ==> name != DOT
  {
    var i := LastSlash(name);
    assert i < 0 ==> name[i + 1..] == name;
  }

  /** Every directory above name. */
  ghost function Ancestors(name: Bytes): set<Bytes>
    decreases |name|
  {
    match Parent(name)
    case None => {}
    case Some(p) => {p} + Ancestors(p)
  }

  /** The directories above a name are its beginnings before a slash. */
  lemma {:induction false} AncestorsAre(name: Bytes, a: Bytes)
    ensures a in Ancestors(name) <==> |a| < |name| && a <= name && name[|a|] == SLASH
    decreases |name|
  {
    hide LastSlash;
    var i := LastSlash(name);
    if i >= 0 {
      var p := name[..i];
      AncestorsAre(p, a);
      assert |a| < |p| ==> p[|a|] == name[|a|];
      if a <= name && |a| < i {
        assert a <= p by {
          assert forall k | 0 <= k < |a| :: a[k] == name[k];
          assert a == p[..|a|];
        }
      }
      if a <= p {
        assert a == name[..|a|];
      }
      if a <= name && |a| == i {
        assert a == name[..|a|];
      }
    }
  }

  lemma ParentFacts(name: Bytes)
    requires Canonical(name) && Parent(name).Some?
    ensures Canonical(Parent(name).value) && Less(Parent(name).value, name)
  {
    hide Less, LastSlash, Canonical, Parent;
    ParentCut(name);
    var p := Parent(name).value;
    assert name == p + name[|p|..];
    PrefixLess(p, name[|p|..]);
  }

  lemma ParentCut(name: Bytes)
    requires Canonical(name) && Parent(name).Some?
    ensures Canonical(Parent(name).value)
    ensures |Parent(name).value| < |name| && Parent(name).value == name[..|Parent(name).value|]
  {
    hide LastSlash, LegalPart;
  }

  lemma {:induction false} AncestorFacts(name: Bytes, a: Bytes)
    requires Canonical(name) && a in Ancestors(name)
    ensures Canonical(a) && Less(a, name) && Ancestors(a) <= Ancestors(name)
    decreases |name|
  {
    hide Less, Canonical, Parent;
    var p := Parent(name).value;
    ParentFacts(name);
    if a != p {
      AncestorFacts(p, a);
      LessTransitive(a, p, name);
    }
  }

  lemma ParentIsAncestor(name: Bytes)
    requires Parent(name).Some?
    ensures Parent(name).value in Ancestors(name)
  {
  }

  // ------------------------------------------------------------ entry list

  /** Candidate files: distinct canonical names, none of which is a directory of another. */
  ghost predicate Candidates(files: seq<Member>) {
    && DistinctKeys(files)
    && (forall i | 0 <= i < |files| :: Canonical(files[i].key) && (files[i].value.Regular? || files[i].value.Symlink?))
    && (forall i, j | 0 <= i < |files| && 0 <= j < |files| :: files[i].key !in Ancestors(files[j].key))
  }

  ghost predicate IsParentOf(d: Bytes, files: seq<Member>) {
    exists i :: 0 <= i < |files| && d in Ancestors(files[i].key)
  }

  /** The entries are the files and one directory per ancestor, by ascending name. */
  ghost predicate IsEntryList(entries: seq<Member>, files: seq<Member>) {
    && Ascending(entries)
    && forall x :: x in entries <==> x in files || (x.value == Directory(DIRECTORY_MODE) && IsParentOf(x.key, files))
  }

  /** The upward loop from one file. */
  method AddParents(name: Bytes, directories: set<Bytes>) returns (all: set<Bytes>)
    ensures all == directories + Ancestors(name)
  {
    all := directories;
    var parent := Parent(name);
    while parent.Some?
      invariant all + (if parent.Some? then {parent.value} + Ancestors(parent.value) else {})
                == directories + Ancestors(name)
      decreases if parent.Some? then |parent.value| + 1 else 0
    {
      all := all + {parent.value};
      parent := Parent(parent.value);
    }
  }

  method ParentDirectories(files: seq<Member>) returns (directories: set<Bytes>)
    ensures forall d :: d in directories <==> IsParentOf(d, files)
  {
    hide Ancestors;
    directories := {};
    for i := 0 to |files|
      invariant forall d :: d in directories <==> exists j :: 0 <= j < i && d in Ancestors(files[j].key)
    {
      directories := AddParents(files[i].key, directories);
    }
  }

  /** Files and parent directories, sorted by the bytes of their names. */
  method CollectEntries(files: seq<Member>) returns (entries: seq<Member>)
    requires Candidates(files)
    ensures IsEntryList(entries, files)
  {
    hide Less, Sort, Ancestors, Canonical;
    var directories := ParentDirectories(files);
    var names := SortedNames(directories);
    var dirs := seq(|names|, i requires 0 <= i < |names| => Keyed(names[i], Directory(DIRECTORY_MODE)));
    entries := Sort(dirs + files);
    DirsApart(dirs, names, files);
    SortAscending(dirs + files);
    SortContents(dirs + files);
    EntriesCover(entries, dirs, names, files, directories);
  }

  lemma DirsApart(dirs: seq<Member>, names: seq<Bytes>, files: seq<Member>)
    requires Candidates(files) && |dirs| == |names|
    requires forall i | 0 <= i < |dirs| :: dirs[i].key == names[i] && IsParentOf(names[i], files)
    requires forall i, j | 0 <= i < j < |names| :: Less(names[i], names[j])
    ensures DistinctKeys(dirs + files)
  {
    hide Less, Ancestors, Canonical;
    var all := dirs + files;
    forall i, j | 0 <= i < j < |all| ensures all[i].key != all[j].key {
      if j < |dirs| {
        LessIrreflexive(names[i]);
      } else if i < |dirs| {
        var k :| 0 <= k < |files| && names[i] in Ancestors(files[k].key);
        assert all[j] == files[j - |dirs|];
      }
    }
  }

  lemma EntriesCover(entries: seq<Member>, dirs: seq<Member>, names: seq<Bytes>, files: seq<Member>,
                     directories: set<Bytes>)
    requires multiset(entries) == multiset(dirs + files) && Ascending(entries) && |dirs| == |names|
    requires forall i | 0 <= i < |dirs| :: dirs[i] == Keyed(names[i], Directory(DIRECTORY_MODE))
    requires forall d :: d in names <==> d in directories
    requires forall d :: d in directories <==> IsParentOf(d, files)
    ensures IsEntryList(entries, files)
  {
    hide Ascending, IsParentOf;
    forall x
      ensures x in entries <==> x in files || (x.value == Directory(DIRECTORY_MODE) && IsParentOf(x.key, files))
    {
      assert x in entries <==> x in multiset(entries);
      assert x in multiset(dirs + files) <==> x in dirs || x in files;
      if x.value == Directory(DIRECTORY_MODE) && IsParentOf(x.key, files) {
        assert x.key in names;
        var i :| 0 <= i < |names| && names[i] == x.key;
        assert dirs[i] == x;
      }
      if x in dirs {
        var i :| 0 <= i < |dirs| && dirs[i] == x;
        assert names[i] in names;
      }
    }
  }

  /** The list does not depend on the order in which the files were enumerated. */
  lemma EntryListUnique(a: seq<Member>, b: seq<Member>, files: seq<Member>, other: seq<Member>)
    requires IsEntryList(a, files) && IsEntryList(b, other) && multiset(files) == multiset(other)
    ensures a == b
  {
    hide Ascending, Ancestors;
    forall x ensures x in files <==> x in other {
      assert x in files <==> x in multiset(files);
      assert x in other <==> x in multiset(other);
    }
    forall d ensures IsParentOf(d, files) <==> IsParentOf(d, other) {
      SameParents(d, files, other);
      SameParents(d, other, files);
    }
    AscendingUnique(a, b);
  }

  lemma SameParents(d: Bytes, files: seq<Member>, other: seq<Member>)
    requires forall x :: x in files <==> x in other
    ensures IsParentOf(d, files) ==> IsParentOf(d, other)
  {
    hide Ancestors;
    if IsParentOf(d, files) {
      var i :| 0 <= i < |files| && d in Ancestors(files[i].key);
      assert files[i] in other;
      var j :| 0 <= j < |other| && other[j] == files[i];
    }
  }

  /** The parent of every entry is an entry, a directory, and comes earlier. */
  lemma ParentComesFirst(entries: seq<Member>, files: seq<Member>, i: nat)
    requires Candidates(files) && IsEntryList(entries, files) && i < |entries| && Parent(entries[i].key).Some?
    ensures exists j :: 0 <= j < i && entries[j] == Keyed(Parent(entries[i].key).value, Directory(DIRECTORY_MODE))
  {
    hide Less, Canonical;
    var x := entries[i];
    var p := Parent(x.key).value;
    ParentIsAncestor(x.key);
    assert x in entries;
    var k := FileBelow(x, files);
    assert p in Ancestors(files[k].key) && Canonical(x.key) by {
      if x.key != files[k].key {
        AncestorFacts(files[k].key, x.key);
      }
    }
    assert IsParentOf(p, files);
    var d := Keyed(p, Directory(DIRECTORY_MODE));
    assert d in entries;
    var j :| 0 <= j < |entries| && entries[j] == d;
    AncestorFacts(x.key, p);
    LessTotal(p, x.key);
  }

  /** Every entry is a file or a directory above one. */
  lemma FileBelow(x: Member, files: seq<Member>) returns (k: nat)
    requires x in files || IsParentOf(x.key, files)
    ensures k < |files| && (x.key == files[k].key || x.key in Ancestors(files[k].key))
  {
    if x in files {
      k :| 0 <= k < |files| && files[k] == x;
    } else {
      k :| 0 <= k < |files| && x.key in Ancestors(files[k].key);
    }
  }

  lemma EntryNames(entries: seq<Member>, files: seq<Member>, i: nat)
    requires Candidates(files) && IsEntryList(entries, files) && i < |entries|
    ensures Canonical(entries[i].key) && entries[i].key != DOT && !entries[i].value.Special?
  {
    hide Less;
    assert entries[i] in entries;
    var k := FileBelow(entries[i], files);
    CanonicalIsNotDot(entries[i].key);
    if entries[i].key != files[k].key {
      AncestorFacts(files[k].key, entries[i].key);
    }
  }

  // ---------------------------------------------------------------- archive

  ghost function MapOf(members: seq<Member>): Tree {
    if members == [] then map[] else
      var last := members[|members| - 1];
      MapOf(members[..|members| - 1])[last.key := last.value]
  }

  lemma {:induction false} MapOfKeys(members: seq<Member>, name: Bytes)
    ensures name in MapOf(members) <==> exists i :: 0 <= i < |members| && members[i].key == name
    ensures DistinctKeys(members) ==>
              forall i | 0 <= i < |members| ::
                members[i].key in MapOf(members) && MapOf(members)[members[i].key] == members[i].value
  {
    if members != [] {
      var init := members[..|members| - 1];
      MapOfKeys(init, name);
      assert forall i | 0 <= i < |init| :: init[i] == members[i];
      if i :| 0 <= i < |members| && members[i].key == name {
        assert i < |init| ==> init[i].key == name;
      }
    }
  }

  /** create_archive: the members of the archive; an empty census is an error. */
  method CreateArchive(files: seq<Member>) returns (r: Result<seq<Member>>)
    requires Candidates(files)
    ensures r.Ok? <==> files != []
    ensures r.Ok? ==> IsEntryList(r.value, files)
  {
    hide Candidates, Ascending;
    var entries := CollectEntries(files);
    NoEntries(entries, files);
    if entries == [] {
      return Err;
    }
    return Ok(entries);
  }

  lemma NoEntries(entries: seq<Member>, files: seq<Member>)
    requires IsEntryList(entries, files)
    ensures entries == [] <==> files == []
  {
    hide Ascending;
    if files != [] {
      assert files[0] in entries;
    }
    if entries != [] {
      assert entries[0] in entries;
    }
  }

  /** The members under their canonical names; an unsafe name stays as it is. */
  ghost function Renamed(members: seq<Member>): (r: seq<Member>)
    ensures |r| == |members|
  {
    seq(|members|, i requires 0 <= i < |members| =>
      var name := SafeName(members[i].key);
      if name.Ok? then Keyed(name.value, members[i].value) else members[i])
  }

  /** What _archive_entries accepts. */
  ghost predicate Readable(members: seq<Member>) {
    && members != []
    && (forall i | 0 <= i < |members| :: SafeName(members[i].key).Ok? && !members[i].value.Special?)
    && DistinctKeys(Renamed(members))
  }

  /** _archive_entries: refuses unsafe names, duplicates, special members and an empty archive. */
  method ArchiveEntries(members: seq<Member>) returns (r: Result<Tree>)
    ensures r == if Readable(members) then Ok(MapOf(Renamed(members))) else Err
  {
    hide SafeName, MapOf, DistinctKeys;
    var entries: Tree := map[];
    ghost var renamed := Renamed(members);
    MapStart(renamed);
    for i := 0 to |members|
      invariant forall j | 0 <= j < i :: SafeName(members[j].key).Ok? && !members[j].value.Special?
      invariant DistinctKeys(renamed[..i]) && entries == MapOf(renamed[..i])
    {
      var name := SafeName(members[i].key);
      if name.Err? {
        return Err;
      }
      assert renamed[i] == Keyed(name.value, members[i].value);
      MapStep(renamed, i);
      if name.value in entries || members[i].value.Special? {
        return Err;
      }
      entries := entries[name.value := members[i].value];
    }
    assert renamed[..|renamed|] == renamed;
    return if members == [] then Err else Ok(entries);
  }

  lemma MapStart(members: seq<Member>)
    ensures DistinctKeys(members[..0]) && MapOf(members[..0]) == map[]
  {
  }

  /** One more member: it is new to the map, or the names are not distinct. */
  lemma MapStep(members: seq<Member>, i: nat)
    requires i < |members| && DistinctKeys(members[..i])
    ensures MapOf(members[..i + 1]) == MapOf(members[..i])[members[i].key := members[i].value]
    ensures members[i].key !in MapOf(members[..i]) ==> DistinctKeys(members[..i + 1])
    ensures members[i].key in MapOf(members[..i]) ==> !DistinctKeys(members)
  {
    var before, more := members[..i], members[..i + 1];
    assert more[..i] == before;
    assert forall j | 0 <= j < i :: more[j] == before[j] == members[j];
    MapOfKeys(before, members[i].key);
  }
}
