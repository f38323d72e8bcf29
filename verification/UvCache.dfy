/** The two-file uv cache: installation that can be cut off before any step on the
    disk, and verification of what is there. */
module UvCache {
  import opened Bytes
  import opened Outcomes

  const MAX_ASSET := 128 * 1024 * 1024
  const MAX_BINARY := 96 * 1024 * 1024
  const PRIVATE_ARCHIVE := 0x180     // 0o600
  const PRIVATE_EXECUTABLE := 0x1C0  // 0o700
  const PUBLIC_ARCHIVE := 0x1A4      // 0o644
  const PUBLIC_EXECUTABLE := 0x1ED   // 0o755

  datatype File = File(bytes: Bytes, mode: nat)

  /** The release the manifest pins: its hash, and the one executable member of an archive. */
  datatype Release = Release(hash: Bytes -> Bytes, digest: Bytes, member: Bytes -> Result<Bytes>) {
    predicate Authentic(payload: Bytes) {
      hash(payload) == digest
    }

    /** require_bounded_executable refuses members outside 1..MAX_BINARY bytes. */
    ghost predicate Bounded() {
      forall payload :: member(payload).Ok? ==> 0 < |member(payload).value| <= MAX_BINARY
    }
  }

  /** One run's surroundings: what a download returns, whether the version probe
      passes, and how many steps on the disk happen before the run is cut off. */
  datatype Env = Env(download: Result<Bytes>, probe: bool, steps: nat)

  datatype Outcome = Verified | Failed | CutOff

  datatype Write = ArchiveWrite(bytes: Bytes) | ExecutableWrite(bytes: Bytes)

  /** The steps of one atomic write before its rename: create, fill, set the mode. */
  const STAGING := 3
  /** The steps of a complete installation: two atomic writes, two public modes. */
  const ALL_STEPS := 2 * (STAGING + 1) + 2

  ghost predicate Trusted(release: Release, payload: Bytes) {
    release.Authentic(payload) && 0 < |payload| <= MAX_ASSET
  }

  /** An installation can complete from this payload. */
  ghost predicate Installable(release: Release, payload: Bytes) {
    Trusted(release, payload) && release.member(payload).Ok?
  }

  /** The payload a run installs from: the retained archive if there is one, else the download. */
  ghost function Available(archive: Option<File>, download: Result<Bytes>): Result<Bytes> {
    if archive.Some? then Ok(archive.value.bytes) else download
  }

  /** What is missing can be brought in: the payload is within its bound and authentic
      and has its member, and a payload that has to be written is not empty. */
  ghost predicate CanInstall(release: Release, archive: Option<File>, download: Result<Bytes>) {
    && Available(archive, download).Ok?
    && var payload := Available(archive, download).value;
       && |payload| <= MAX_ASSET && release.Authentic(payload) && release.member(payload).Ok?
       && (archive == None ==> payload != [])
  }

  /** The two files are bounded and authentic and belong together. */
  ghost predicate Matching(release: Release, archive: Option<File>, executable: Option<File>) {
    && archive.Some? && executable.Some?
    && |archive.value.bytes| <= MAX_ASSET && release.Authentic(archive.value.bytes)
    && |executable.value.bytes| <= MAX_BINARY && executable.value.bytes != []
    && release.member(archive.value.bytes) == Ok(executable.value.bytes)
  }

  /** From these files an uninterrupted run can end verified: both there and matching,
      or no executable and something to install from. */
  ghost predicate CanSucceed(release: Release, archive: Option<File>, executable: Option<File>,
                             download: Result<Bytes>) {
    if archive.Some? && executable.Some? then Matching(release, archive, executable)
    else executable == None && CanInstall(release, archive, download)
  }

  /** A file that is there keeps its bytes. */
  ghost predicate Keeps(before: Option<File>, after: Option<File>) {
    before.Some? ==> after.Some? && after.value.bytes == before.value.bytes
  }

  /** Bytes that an interrupted write of authenticated contents can leave behind. */
  ghost predicate Scrap(release: Release, bytes: Bytes) {
    exists payload :: ScrapOf(release, payload, bytes)
  }

  ghost predicate ScrapOf(release: Release, payload: Bytes, bytes: Bytes) {
    && release.Authentic(payload)
    && (bytes <= payload || (release.member(payload).Ok? && bytes <= release.member(payload).value))
  }

  /** At most one temporary more than before, holding a beginning of the payload. */
  ghost predicate LeftBehind(before: seq<File>, after: seq<File>, payload: Bytes) {
    || after == before
    || (|after| == |before| + 1 && before <= after && after[|before|].bytes <= payload)
  }

  lemma ScrapsGrow(release: Release, before: seq<File>, after: seq<File>, payload: Bytes, part: Bytes)
    requires forall i | 0 <= i < |before| :: Scrap(release, before[i].bytes)
    requires LeftBehind(before, after, part)
    requires release.Authentic(payload) && (part == payload || release.member(payload) == Ok(part))
    ensures forall i | 0 <= i < |after| :: Scrap(release, after[i].bytes)
  {
    if after != before {
      assert ScrapOf(release, payload, after[|before|].bytes);
    }
  }

  class Cache {
    var archive: Option<File>
    var executable: Option<File>
    var strays: seq<File>      // temporaries that runs which were cut off left behind
    var left: nat              // steps until the current run is cut off
    ghost var log: seq<Write>  // every store of file contents, over all runs

    constructor ()
      ensures archive == None && executable == None && strays == [] && log == []
    {
      archive, executable, strays, left, log := None, None, [], 0, [];
    }

    /** A retained archive is authentic and installable, and an executable is present
        only beside such an archive, as its member. */
    ghost predicate Sound(release: Release)
      reads this
    {
      && (archive.Some? ==> Installable(release, archive.value.bytes))
      && (executable.Some? ==> archive.Some? && release.member(archive.value.bytes) == Ok(executable.value.bytes))
    }

    /** Both files authenticated, with the shared modes. */
    ghost predicate Complete(release: Release)
      reads this
    {
      && archive.Some? && executable.Some?
      && release.Authentic(archive.value.bytes)
      && release.member(archive.value.bytes) == Ok(executable.value.bytes)
      && archive.value.mode == PUBLIC_ARCHIVE && executable.value.mode == PUBLIC_EXECUTABLE
    }

    /** Every store so far was of authenticated bytes, what was left behind included. */
    ghost predicate Clean(release: Release)
      reads this
    {
      && (forall i | 0 <= i < |log| ::
            match log[i]
            case ArchiveWrite(b) => release.Authentic(b)
            case ExecutableWrite(b) => exists payload :: release.Authentic(payload) && release.member(payload) == Ok(b))
      && (forall i | 0 <= i < |strays| :: Scrap(release, strays[i].bytes))
    }

    /** Everything before the rename: a temporary is created, filled and given its
        mode. A run that is cut off here leaves it behind with whatever part of the
        payload had reached the disk. */
    method Stage(payload: Bytes) returns (staged: bool)
      modifies this
      ensures archive == old(archive) && executable == old(executable) && log == old(log)
      ensures staged <==> old(left) >= STAGING
      ensures staged ==> left == old(left) - STAGING && strays == old(strays)
      ensures !staged ==> left == 0 && LeftBehind(old(strays), strays, payload)
    {
      staged := false;
      if left == 0 {
        return;
      }
      left := left - 1;
      if left == 0 {
        var reached: int := *;
        reached := if 0 <= reached <= |payload| then reached else |payload|;
        strays := strays + [File(payload[..reached], PRIVATE_ARCHIVE)];
        return;
      }
      left := left - 1;
      if left == 0 {
        strays := strays + [File(payload, PRIVATE_ARCHIVE)];
        return;
      }
      left, staged := left - 1, true;
    }

    /** write_atomic of the archive: it appears whole and private, or not at all. */
    method WriteArchive(payload: Bytes) returns (r: Outcome)
      modifies this
      ensures executable == old(executable)
      ensures r == (if payload == [] then Failed else if old(left) <= STAGING then CutOff else Verified)
      ensures r == Verified ==> archive == Some(File(payload, PRIVATE_ARCHIVE)) && left == old(left) - (STAGING + 1)
                                && strays == old(strays) && log == old(log) + [ArchiveWrite(payload)]
      ensures r != Verified ==> archive == old(archive) && log == old(log) && LeftBehind(old(strays), strays, payload)
    {
      if payload == [] {
        return Failed;
      }
      var staged := Stage(payload);
      if !staged {
        return CutOff;
      }
      if left == 0 {
        strays := strays + [File(payload, PRIVATE_ARCHIVE)];
        return CutOff;
      }
      archive := Some(File(payload, PRIVATE_ARCHIVE));
      left, log := left - 1, log + [ArchiveWrite(payload)];
      return Verified;
    }

    /** write_atomic of the executable. */
    method WriteExecutable(binary: Bytes) returns (r: Outcome)
      modifies this
      ensures archive == old(archive)
      ensures r == (if binary == [] then Failed else if old(left) <= STAGING then CutOff else Verified)
      ensures r == Verified ==>
                executable == Some(File(binary, PRIVATE_EXECUTABLE)) && left == old(left) - (STAGING + 1)
                                && strays == old(strays) && log == old(log) + [ExecutableWrite(binary)]
      ensures r != Verified ==>
                executable == old(executable) && log == old(log) && LeftBehind(old(strays), strays, binary)
    {
      if binary == [] {
        return Failed;
      }
      var staged := Stage(binary);
      if !staged {
        return CutOff;
      }
      if left == 0 {
        strays := strays + [File(binary, PRIVATE_EXECUTABLE)];
        return CutOff;
      }
      executable := Some(File(binary, PRIVATE_EXECUTABLE));
      left, log := left - 1, log + [ExecutableWrite(binary)];
      return Verified;
    }

    /** Reads both files and compares the executable with the authenticated archive's member. */
    method Authenticate(release: Release) returns (ok: bool)
      ensures ok <==> Matching(release, archive, executable)
    {
      if archive == None || executable == None || |archive.value.bytes| > MAX_ASSET
         || !release.Authentic(archive.value.bytes) {
        return false;
      }
      var binary := release.member(archive.value.bytes);
      return binary.Ok? && |executable.value.bytes| <= MAX_BINARY && binary.value != []
             && executable.value.bytes == binary.value;
    }

    /** Makes two authenticated files shared; cut off before either mode change. */
    method NormalizeModes(release: Release) returns (r: Outcome)
      requires release.Bounded()
      modifies this
      ensures log == old(log) && strays == old(strays) && left <= old(left)
      ensures old(Sound(release)) ==> Sound(release)
      ensures Keeps(old(archive), archive) && Keeps(archive, old(archive))
      ensures Keeps(old(executable), executable) && Keeps(executable, old(executable))
      ensures r == Verified ==> Complete(release)
      ensures old(Complete(release)) ==> Complete(release)
      ensures old(left) >= 2 ==> (r == Verified <==> old(Matching(release, archive, executable)))
      ensures r == CutOff ==> old(left) < 2
    {
      var ok := Authenticate(release);
      if !ok {
        return Failed;
      }
      if left == 0 {
        return CutOff;
      }
      archive := Some(archive.value.(mode := PUBLIC_ARCHIVE));
      left := left - 1;
      if left == 0 {
        return CutOff;
      }
      executable := Some(executable.value.(mode := PUBLIC_EXECUTABLE));
      left := left - 1;
      return Verified;
    }

    /** Authenticates and probes what is there, without writing. */
    method VerifyCached(release: Release, probe: bool) returns (r: Outcome)
      ensures r != CutOff
      ensures r == Verified ==> Complete(release)
      ensures r == Verified <==>
                && probe && Matching(release, archive, executable)
                && archive.value.mode == PUBLIC_ARCHIVE && executable.value.mode == PUBLIC_EXECUTABLE
    {
      var ok := Authenticate(release);
      if !ok || archive.value.mode != PUBLIC_ARCHIVE || executable.value.mode != PUBLIC_EXECUTABLE || !probe {
        return Failed;
      }
      return Verified;
    }

    /** The payload to install from: the retained archive, or a fresh download; either is authenticated first. */
    method FetchPayload(release: Release, download: Result<Bytes>) returns (payload: Result<Bytes>)
      ensures payload.Ok? <==> && Available(archive, download).Ok?
                               && |Available(archive, download).value| <= MAX_ASSET
                               && release.Authentic(Available(archive, download).value)
      ensures payload.Ok? ==> payload == Available(archive, download)
    {
      payload := if archive.Some? then Ok(archive.value.bytes) else download;
      if payload.Ok? && (|payload.value| > MAX_ASSET || !release.Authentic(payload.value)) {
        payload := Err;
      }
    }

    /** Brings in whichever of the two files is missing. */
    method Install(release: Release, download: Result<Bytes>) returns (r: Outcome)
      requires executable == None && release.Bounded()
      modifies this
      ensures old(Sound(release)) ==> Sound(release)
      ensures old(Clean(release)) ==> Clean(release)
      ensures old(archive.Some?) ==> archive == old(archive)
      ensures old(archive) == None && archive.Some? ==> download == Ok(archive.value.bytes)
      ensures executable.Some? ==> Matching(release, archive, executable)
      ensures r == Verified ==> executable.Some? && left + 2 * (STAGING + 1) >= old(left)
      ensures r == CutOff ==> old(left) < 2 * (STAGING + 1)
      ensures old(left) >= 2 * (STAGING + 1) ==> (r == Verified <==> CanInstall(release, old(archive), download))
    {
      hide Scrap, LeftBehind;
      var payload := FetchPayload(release, download);
      if payload.Err? {
        return Failed;
      }
      var binary := release.member(payload.value);
      if binary.Err? || binary.value == [] {
        return Failed;
      }
      if archive == None {
        r := WriteArchive(payload.value);
        if r != Verified {
          if old(Clean(release)) {
            ScrapsGrow(release, old(strays), strays, payload.value, payload.value);
          }
          return;
        }
      }
      r := WriteExecutable(binary.value);
      if old(Clean(release)) {
        ScrapsGrow(release, old(strays), strays, payload.value, binary.value);
      }
    }

    /** One run: fetches what is missing, then shares the files' modes and verifies both. */
    method EnsureUv(release: Release, env: Env) returns (r: Outcome)
      requires release.Bounded()
      modifies this
      ensures old(Sound(release)) ==> Sound(release)
      ensures old(Clean(release)) ==> Clean(release)
      ensures r == Verified ==> Complete(release)
      ensures old(Complete(release)) ==> Complete(release)
      // nothing that is there changes, and what is new is the download and its member
      ensures Keeps(old(archive), archive) && Keeps(old(executable), executable)
      ensures old(archive) == None && archive.Some? ==> env.download == Ok(archive.value.bytes)
      ensures old(executable) == None && executable.Some? ==> Matching(release, archive, executable)
      ensures r == CutOff ==> env.steps < ALL_STEPS
      // an uninterrupted run succeeds exactly when it can, whatever it found
      ensures env.steps >= ALL_STEPS ==>
                (r == Verified <==> env.probe && old(CanSucceed(release, archive, executable, env.download)))
    {
      left := env.steps;
      if !(archive.Some? && executable.Some?) {
        if executable.Some? {
          return Failed;
        }
        r := Install(release, env.download);
        if r != Verified {
          return;
        }
      }
      r := NormalizeModes(release);
      if r != Verified {
        return;
      }
      r := VerifyCached(release, env.probe);
    }
  }

  /** A run that nothing interrupts, with a genuine download and a passing probe. */
  ghost predicate LeftAlone(release: Release, env: Env) {
    env.steps >= ALL_STEPS && env.probe && env.download.Ok? && Installable(release, env.download.value)
  }

  /** Any number of runs from an empty cache, each cut off wherever its environment
      says. The cache is sound after every run, only authenticated bytes were ever
      stored, and once a run is left alone the installation is complete for good. */
  method Replay(release: Release, runs: seq<Env>) returns (cache: Cache)
    requires release.Bounded()
    ensures fresh(cache) && cache.Sound(release) && cache.Clean(release)
    ensures (exists i | 0 <= i < |runs| :: LeftAlone(release, runs[i])) ==> cache.Complete(release)
  {
    cache := new Cache();
    for i := 0 to |runs|
      invariant fresh(cache) && cache.Sound(release) && cache.Clean(release)
      invariant (exists j | 0 <= j < i :: LeftAlone(release, runs[j])) ==> cache.Complete(release)
    {
      var r := cache.EnsureUv(release, runs[i]);
    }
  }
}
