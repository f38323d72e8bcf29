/** The prototype pattern, the ranking phases and the threshold texture. */
module BlueNoiseRanks {
  import opened Arithmetic
  import opened Sums
  import opened BlueNoiseKernel
  import opened BlueNoise

  const INIT_FRACTION := 10
  const BYTE_LEVELS := 256

  // ------------------------------------------------------------- prototype

  /** Of n cells exactly the chosen ones are set. */
  ghost predicate Seeded(n: nat, chosen: seq<int>, seed: seq<bool>) {
    |seed| == n && forall p | 0 <= p < n :: seed[p] <==> p in chosen
  }

  /** The prototype is what as many moves as cells make of the seeded pattern. */
  ghost predicate Homogenised(f: Filter, chosen: seq<int>, prototype: seq<bool>) {
    exists seed :: Seeded(f.Cells(), chosen, seed) && SwappedFrom(f, seed, prototype)
  }

  ghost predicate SwappedFrom(f: Filter, seed: seq<bool>, prototype: seq<bool>) {
    Pattern(f, seed) && Mixed(seed) && prototype == Swaps(f, seed, f.Cells())
  }

  /** What random.sample hands over: distinct cells, one in ten. */
  ghost predicate Sample(cells: nat, chosen: seq<int>) {
    && |chosen| == cells / INIT_FRACTION
    && (forall i | 0 <= i < |chosen| :: 0 <= chosen[i] < cells)
    && (forall i, j | 0 <= i < j < |chosen| :: chosen[i] != chosen[j])
  }

  lemma {:induction false} SeededCount(n: nat, chosen: seq<int>, seed: seq<bool>)
    requires Seeded(n, chosen, seed)
    requires forall i | 0 <= i < |chosen| :: 0 <= chosen[i] < n
    requires forall i, j | 0 <= i < j < |chosen| :: chosen[i] != chosen[j]
    ensures SetCount(seed) == |chosen|
    decreases |chosen|
  {
    if chosen == [] {
      SetCountExtremes(seed);
    } else {
      var rest, c := chosen[..|chosen| - 1], chosen[|chosen| - 1];
      assert chosen == rest + [c];
      var fewer := seed[c := false];
      SeededCount(n, rest, fewer);
      SetCountRemove(seed, c);
    }
  }

  /** Sets one clear cell and updates the field with it. */
  method Place(f: Filter, pattern: array<bool>, energy: array<int>, pos: int)
    requires Pattern(f, pattern[..]) && energy[..] == Field(f, pattern[..])
    requires 0 <= pos < pattern.Length && !pattern[pos]
    modifies pattern, energy
    ensures pattern[..] == old(pattern[..])[pos := true]
    ensures energy[..] == Field(f, pattern[..])
  {
    hide Energy, Reach;
    ghost var before := pattern[..];
    pattern[pos] := true;
    Toggle(f, energy, pos, 1);
    FieldPlace(f, before, pos, energy[..]);
  }

  /** Clears one set cell and updates the field with it. */
  method Remove(f: Filter, pattern: array<bool>, energy: array<int>, pos: int)
    requires Pattern(f, pattern[..]) && energy[..] == Field(f, pattern[..])
    requires 0 <= pos < pattern.Length && pattern[pos]
    modifies pattern, energy
    ensures pattern[..] == old(pattern[..])[pos := false]
    ensures energy[..] == Field(f, pattern[..])
  {
    hide Energy, Reach;
    ghost var before := pattern[..];
    pattern[pos] := false;
    Toggle(f, energy, pos, -1);
    FieldRemove(f, before, pos, energy[..]);
  }

  method SeedPattern(f: Filter, chosen: seq<int>) returns (pattern: array<bool>, energy: array<int>)
    requires f.Valid() && Sample(f.Cells(), chosen)
    ensures fresh(pattern) && fresh(energy)
    ensures pattern.Length == f.Cells() && forall p | 0 <= p < pattern.Length :: pattern[p] <==> p in chosen
    ensures energy[..] == Field(f, pattern[..])
  {
    hide Energy, Reach;
    pattern := new bool[f.Cells()](_ => false);
    energy := new int[f.Cells()](_ => 0);
    EmptyField(f, pattern[..]);
    for i := 0 to |chosen|
      invariant forall p | 0 <= p < pattern.Length :: pattern[p] <==> p in chosen[..i]
      invariant energy[..] == Field(f, pattern[..])
    {
      assert chosen[..i + 1] == chosen[..i] + [chosen[i]];
      assert forall j | 0 <= j < i :: chosen[..i][j] != chosen[i];
      assert !pattern[chosen[i]];
      ghost var before := pattern[..];
      Place(f, pattern, energy, chosen[i]);
      assert forall p | 0 <= p < pattern.Length :: pattern[p] == before[chosen[i] := true][p];
    }
    assert chosen[..|chosen|] == chosen;
  }

  lemma EmptyField(f: Filter, s: seq<bool>)
    requires f.dim > 0 && forall p | 0 <= p < |s| :: !s[p]
    ensures Field(f, s) == seq(|s|, _ => 0)
  {
    forall q | 0 <= q < |s| ensures Field(f, s)[q] == 0 {
      SumZero(EnergyTerm(f, s, q), |s|);
    }
  }

  /** Seeds one cell in ten, then moves the tightest pixel into the largest void
      until a move gives the pixel back, for at most as many moves as cells.
      Sizes too small to seed a single pixel do not occur. */
  method InitialPattern(f: Filter, chosen: seq<int>) returns (pattern: array<bool>, energy: array<int>)
    requires f.Valid() && f.Cells() >= INIT_FRACTION && Sample(f.Cells(), chosen)
    ensures fresh(pattern) && fresh(energy)
    ensures Pattern(f, pattern[..]) && Homogenised(f, chosen, pattern[..])
    ensures SetCount(pattern[..]) == f.Cells() / INIT_FRACTION
    ensures energy[..] == Field(f, pattern[..])
  {
    hide Energy, Reach, Swap, SetCount;
    pattern, energy := SeedPattern(f, chosen);
    ghost var seed := pattern[..];
    assert Seeded(f.Cells(), chosen, seed);
    SeededCount(f.Cells(), chosen, seed);
    for i := 0 to f.Cells()
      invariant pattern[..] == Swaps(f, seed, i)
      invariant energy[..] == Field(f, pattern[..])
    {
      var stays := SwapPixel(f, pattern, energy);
      if stays {
        StaysSettled(f, seed, i + 1, f.Cells());
        break;
      }
    }
    assert SwappedFrom(f, seed, pattern[..]);
  }

  /** The body of the swap loop. */
  method SwapPixel(f: Filter, pattern: array<bool>, energy: array<int>) returns (stays: bool)
    requires Pattern(f, pattern[..]) && Mixed(pattern[..]) && energy[..] == Field(f, pattern[..])
    modifies pattern, energy
    ensures pattern[..] == Swap(f, old(pattern[..]))
    ensures energy[..] == Field(f, pattern[..])
    ensures stays <==> pattern[..] == old(pattern[..])
  {
    hide Field, SetCount, IsTightest, IsVoid, Swap;
    ghost var before := pattern[..];
    SetCountExtremes(before);
    var cluster := TightestCluster(energy, pattern);
    InRange(energy[..], before, cluster);
    Remove(f, pattern, energy, cluster);
    ghost var thin := pattern[..];
    SetCountExtremes(thin);
    SetCountRemove(before, cluster);
    var void := LargestVoid(energy, pattern);
    InRange(energy[..], thin, void);
    Place(f, pattern, energy, void);
    stays := void == cluster;
    SwapIs(f, before, cluster, void);
  }

  lemma SwapIs(f: Filter, s: seq<bool>, c: int, v: int)
    requires Pattern(f, s) && Mixed(s) && IsTightest(Field(f, s), s, c)
    requires IsVoid(Field(f, s[c := false]), s[c := false], v)
    ensures Swap(f, s) == s[c := false][v := true]
    ensures Swap(f, s) == s <==> v == c
  {
    hide Field;
    PickUnique(Field(f, s), s, c, Cluster(Field(f, s), s));
    var thin := s[c := false];
    SetCountRemove(s, c);
    PickUnique(Field(f, thin), thin, v, Void(Field(f, thin), thin));
  }

  lemma {:induction false} StaysSettled(f: Filter, s: seq<bool>, i: nat, j: nat)
    requires Pattern(f, s) && Mixed(s) && 0 < i <= j
    requires Swaps(f, s, i) == Swaps(f, s, i - 1)
    ensures Swaps(f, s, j) == Swaps(f, s, i)
  {
    hide Swap;
    if i < j {
      StaysSettled(f, s, i, j - 1);
    }
  }

  // ----------------------------------------------------------------- ranks

  /** Distinct ranks below the number of cells. */
  ghost predicate Permutation(ranks: seq<int>) {
    && (forall p | 0 <= p < |ranks| :: 0 <= ranks[p] < |ranks|)
    && (forall p, q | 0 <= p < q < |ranks| :: ranks[p] != ranks[q])
  }

  /** The cells ranked below k. */
  ghost function Level(ranks: seq<int>, k: int): (s: seq<bool>)
    ensures |s| == |ranks|
  {
    seq(|ranks|, p requires 0 <= p < |ranks| => ranks[p] < k)
  }

  /** The ranks alone, with every energy recomputed from scratch: a cell ranked at
      or above ones is the largest void of the cells ranked before it, one ranked
      below ones the tightest cluster of the cells ranked up to it. */
  ghost predicate Greedy(f: Filter, ranks: seq<int>, ones: int)
    requires f.dim > 0
  {
    forall p | 0 <= p < |ranks| :: GreedyAt(f, ranks, ones, p)
  }

  ghost predicate GreedyAt(f: Filter, ranks: seq<int>, ones: int, p: int)
    requires f.dim > 0 && 0 <= p < |ranks|
  {
    var k := ranks[p];
    if k >= ones
    then IsVoid(Field(f, Level(ranks, k)), Level(ranks, k), p)
    else IsTightest(Field(f, Level(ranks, k + 1)), Level(ranks, k + 1), p)
  }

  ghost predicate DistinctOn(on: seq<bool>, ranks: seq<int>)
    requires |on| == |ranks|
  {
    forall p, q | 0 <= p < q < |on| && on[p] && on[q] :: ranks[p] != ranks[q]
  }

  /** The cells still set when rank k was given out, seen from a later point of phase 1. */
  ghost function Kept(prototype: seq<bool>, pattern: seq<bool>, ranks: seq<int>, k: int): seq<bool>
    requires |prototype| == |pattern| == |ranks|
  {
    seq(|ranks|, p requires 0 <= p < |ranks| => pattern[p] || (prototype[p] && ranks[p] <= k))
  }

  ghost function Taken(prototype: seq<bool>, pattern: seq<bool>): seq<bool>
    requires |prototype| == |pattern|
  {
    seq(|pattern|, p requires 0 <= p < |pattern| => prototype[p] && !pattern[p])
  }

  ghost function Plain(n: nat, value: bool): seq<bool> {
    seq(n, _ => value)
  }

  /** State of phase 1 when ranks lo and above have been given out. */
  ghost predicate Thinning(f: Filter, prototype: seq<bool>, pattern: seq<bool>, ranks: seq<int>, lo: int, ones: int) {
    && f.dim > 0 && |prototype| == |pattern| == |ranks|
    && (forall p | 0 <= p < |pattern| && pattern[p] :: prototype[p])
    && DistinctOn(Taken(prototype, pattern), ranks)
    && forall p | 0 <= p < |pattern| && prototype[p] && !pattern[p] ::
        && lo <= ranks[p] < ones
        && IsTightest(Field(f, Kept(prototype, pattern, ranks, ranks[p])), Kept(prototype, pattern, ranks, ranks[p]), p)
  }

  lemma ThinningStart(f: Filter, prototype: seq<bool>, ranks: seq<int>)
    requires f.dim > 0 && |prototype| == |ranks|
    ensures Thinning(f, prototype, prototype, ranks, SetCount(prototype), SetCount(prototype))
  {
  }

  lemma ThinningStep(f: Filter, prototype: seq<bool>, pattern: seq<bool>, ranks: seq<int>, lo: int, ones: int, c: int)
    requires Thinning(f, prototype, pattern, ranks, lo, ones) && lo <= ones
    requires IsTightest(Field(f, pattern), pattern, c)
    ensures Thinning(f, prototype, pattern[c := false], ranks[c := lo - 1], lo - 1, ones)
  {
    hide Field;
    var pattern', ranks' := pattern[c := false], ranks[c := lo - 1];
    forall p | 0 <= p < |pattern| && prototype[p] && !pattern'[p]
      ensures Kept(prototype, pattern', ranks', ranks'[p])
           == if p == c then pattern else Kept(prototype, pattern, ranks, ranks[p])
    {
    }
  }

  /** One turn of phase 1: the tightest pixel left gets the rank and goes. */
  method RankCluster(f: Filter, ghost prototype: seq<bool>, pattern: array<bool>, energy: array<int>, ranks: array<int>,
                     ghost ones: nat, rank: nat)
    requires Pattern(f, pattern[..]) && energy[..] == Field(f, pattern[..])
    requires ranks != energy && ranks.Length == pattern.Length && rank + 1 == SetCount(pattern[..]) <= ones
    requires Thinning(f, prototype, pattern[..], ranks[..], rank + 1, ones)
    modifies pattern, energy, ranks
    ensures Thinning(f, prototype, pattern[..], ranks[..], rank, ones)
    ensures energy[..] == Field(f, pattern[..]) && SetCount(pattern[..]) == rank
  {
    hide Field, SetCount, Thinning, IsTightest;
    ghost var before, given := pattern[..], ranks[..];
    SetCountExtremes(before);
    var cluster := TightestCluster(energy, pattern);
    assert exists p :: 0 <= p < |before| && before[p] && pattern[p];
    InRange(energy[..], before, cluster);
    ranks[cluster] := rank;
    assert ranks[..] == given[cluster := rank];
    Remove(f, pattern, energy, cluster);
    SetCountRemove(before, cluster);
    ThinningStep(f, prototype, before, given, rank + 1, ones, cluster);
  }

  /** Phase 1: ranks the prototype's own pixels downwards, tightest cluster first. */
  method RankMinority(f: Filter, prototype: seq<bool>, protoEnergy: seq<int>, ones: nat, ranks: array<int>)
    requires Pattern(f, prototype) && protoEnergy == Field(f, prototype)
    requires ranks.Length == |prototype| && ones == SetCount(prototype)
    modifies ranks
    ensures Thinning(f, prototype, Plain(|prototype|, false), ranks[..], 0, ones)
  {
    hide Field, SetCount, Thinning, IsTightest;
    var pattern := new bool[|prototype|](i requires 0 <= i < |prototype| => prototype[i]);
    var energy := new int[|protoEnergy|](i requires 0 <= i < |protoEnergy| => protoEnergy[i]);
    assert pattern[..] == prototype && energy[..] == protoEnergy;
    ThinningStart(f, prototype, ranks[..]);
    var rank := ones;
    while rank > 0
      invariant 0 <= rank == SetCount(pattern[..])
      invariant Thinning(f, prototype, pattern[..], ranks[..], rank, ones)
      invariant rank <= ones && energy[..] == Field(f, pattern[..])
    {
      rank := rank - 1;
      RankCluster(f, prototype, pattern, energy, ranks, ones, rank);
    }
    SetCountExtremes(pattern[..]);
    assert pattern[..] == Plain(|prototype|, false);
  }

  lemma InRange(e: seq<int>, s: seq<bool>, c: int)
    requires |e| == |s| && (IsTightest(e, s, c) || IsVoid(e, s, c))
    ensures 0 <= c < |s|
    ensures IsTightest(e, s, c) ==> s[c]
    ensures IsVoid(e, s, c) ==> !s[c]
  {
  }

  method CountCells(pattern: seq<bool>) returns (n: nat)
    ensures n == SetCount(pattern)
  {
    n := 0;
    for i := 0 to |pattern|
      invariant n == Count(p => 0 <= p < |pattern| && pattern[p], i)
    {
      if pattern[i] {
        n := n + 1;
      }
    }
  }

  /** The cells set when rank k was given out, seen from a later point of phase 2. */
  ghost function Filled(prototype: seq<bool>, pattern: seq<bool>, ranks: seq<int>, k: int): seq<bool>
    requires |prototype| == |pattern| == |ranks|
  {
    seq(|ranks|, p requires 0 <= p < |ranks| => prototype[p] || (pattern[p] && ranks[p] < k))
  }

  /** State of the filling loop when ranks below hi have been given out. */
  ghost predicate Filling(f: Filter, prototype: seq<bool>, pattern: seq<bool>, ranks: seq<int>, ones: int, hi: int) {
    && f.dim > 0 && |prototype| == |pattern| == |ranks|
    && (forall p | 0 <= p < |pattern| && prototype[p] :: pattern[p])
    && DistinctOn(Taken(pattern, prototype), ranks)
    && forall p | 0 <= p < |pattern| && pattern[p] && !prototype[p] ::
        && ones <= ranks[p] < hi
        && IsVoid(Field(f, Filled(prototype, pattern, ranks, ranks[p])), Filled(prototype, pattern, ranks, ranks[p]), p)
  }

  lemma FillingStart(f: Filter, prototype: seq<bool>, ranks: seq<int>, ones: int)
    requires f.dim > 0 && |prototype| == |ranks|
    ensures Filling(f, prototype, prototype, ranks, ones, ones)
  {
  }

  lemma FillingStep(f: Filter, prototype: seq<bool>, pattern: seq<bool>, ranks: seq<int>, ones: int, hi: int, v: int)
    requires Filling(f, prototype, pattern, ranks, ones, hi) && ones <= hi
    requires IsVoid(Field(f, pattern), pattern, v)
    ensures Filling(f, prototype, pattern[v := true], ranks[v := hi], ones, hi + 1)
    ensures !prototype[v]
  {
    hide Field;
    var pattern', ranks' := pattern[v := true], ranks[v := hi];
    forall p | 0 <= p < |pattern| && pattern'[p] && !prototype[p]
      ensures Filled(prototype, pattern', ranks', ranks'[p])
           == if p == v then pattern else Filled(prototype, pattern, ranks, ranks[p])
    {
    }
  }

  /** The cells of the pattern have the same ranks in a and b. */
  ghost predicate SameOn(on: seq<bool>, a: seq<int>, b: seq<int>) {
    |on| == |a| == |b| && forall p | 0 <= p < |on| && on[p] :: a[p] == b[p]
  }

  lemma SameOnChain(on: seq<bool>, a: seq<int>, b: seq<int>, c: seq<int>)
    requires SameOn(on, a, b) && SameOn(on, b, c)
    ensures SameOn(on, a, c)
  {
  }

  lemma SameOnItself(on: seq<bool>, a: seq<int>)
    requires |on| == |a|
    ensures SameOn(on, a, a)
  {
  }

  /** One turn of the filling loop: the largest void gets the rank and is filled. */
  method RankVoid(f: Filter, ghost prototype: seq<bool>, pattern: array<bool>, energy: array<int>, ranks: array<int>,
                  ghost ones: nat, rank: nat)
    requires Pattern(f, pattern[..]) && energy[..] == Field(f, pattern[..])
    requires ranks != energy && ranks.Length == pattern.Length == |prototype|
    requires ones <= rank == SetCount(pattern[..]) < pattern.Length
    requires Filling(f, prototype, pattern[..], ranks[..], ones, rank)
    modifies pattern, energy, ranks
    ensures Filling(f, prototype, pattern[..], ranks[..], ones, rank + 1)
    ensures energy[..] == Field(f, pattern[..]) && SetCount(pattern[..]) == rank + 1
    ensures SameOn(prototype, old(ranks[..]), ranks[..])
  {
    hide Field, SetCount, Filling, IsVoid;
    ghost var before, given := pattern[..], ranks[..];
    SetCountExtremes(before);
    var void := LargestVoid(energy, pattern);
    assert exists p :: 0 <= p < |before| && !before[p] && !pattern[p];
    InRange(energy[..], before, void);
    ranks[void] := rank;
    assert ranks[..] == given[void := rank];
    Place(f, pattern, energy, void);
    SetCountPlace(before, void);
    FillingStep(f, prototype, before, given, ones, rank, void);
  }

  /** Phases 2 and 3: fills every clear cell of the prototype, largest void first. */
  method FillVoids(f: Filter, prototype: seq<bool>, protoEnergy: seq<int>, ones: nat, ranks: array<int>)
    requires Pattern(f, prototype) && protoEnergy == Field(f, prototype)
    requires ranks.Length == |prototype| && ones == SetCount(prototype)
    modifies ranks
    ensures SameOn(prototype, old(ranks[..]), ranks[..])
    ensures Filling(f, prototype, Plain(|prototype|, true), ranks[..], ones, |prototype|)
  {
    hide Field, SetCount, Filling, IsVoid, SameOn;
    SetCountExtremes(prototype);
    var pattern := new bool[|prototype|](i requires 0 <= i < |prototype| => prototype[i]);
    var energy := new int[|protoEnergy|](i requires 0 <= i < |protoEnergy| => protoEnergy[i]);
    assert pattern[..] == prototype && energy[..] == protoEnergy;
    SameOnItself(prototype, ranks[..]);
    FillingStart(f, prototype, ranks[..], ones);
    for rank := ones to |prototype|
      invariant rank == SetCount(pattern[..])
      invariant Filling(f, prototype, pattern[..], ranks[..], ones, rank)
      invariant SameOn(prototype, old(ranks[..]), ranks[..])
      invariant energy[..] == Field(f, pattern[..])
    {
      ghost var given := ranks[..];
      RankVoid(f, prototype, pattern, energy, ranks, ones, rank);
      SameOnChain(prototype, old(ranks[..]), given, ranks[..]);
    }
    SetCountExtremes(pattern[..]);
    assert pattern[..] == Plain(|prototype|, true);
  }

  lemma ThinningAgrees(f: Filter, prototype: seq<bool>, pattern: seq<bool>, ranks: seq<int>, ranks': seq<int>,
                       lo: int, ones: int)
    requires Thinning(f, prototype, pattern, ranks, lo, ones) && |ranks'| == |ranks|
    requires SameOn(prototype, ranks, ranks')
    ensures Thinning(f, prototype, pattern, ranks', lo, ones)
  {
    hide Field;
    forall k ensures Kept(prototype, pattern, ranks, k) == Kept(prototype, pattern, ranks', k) {
    }
  }

  lemma PhasesMeet(f: Filter, prototype: seq<bool>, ranks: seq<int>, ones: int)
    requires Thinning(f, prototype, Plain(|prototype|, false), ranks, 0, ones)
    requires Filling(f, prototype, Plain(|prototype|, true), ranks, ones, |prototype|)
    requires 0 <= ones <= |prototype|
    ensures Permutation(ranks) && Greedy(f, ranks, ones) && Level(ranks, ones) == prototype
  {
    hide Field, IsTightest, IsVoid;
    var none, all := Plain(|prototype|, false), Plain(|prototype|, true);
    forall p | 0 <= p < |ranks| ensures GreedyAt(f, ranks, ones, p) {
      if prototype[p] {
        assert Kept(prototype, none, ranks, ranks[p]) == Level(ranks, ranks[p] + 1);
      } else {
        assert Filled(prototype, all, ranks, ranks[p]) == Level(ranks, ranks[p]);
      }
    }
    forall p, q | 0 <= p < q < |ranks| ensures ranks[p] != ranks[q] {
      assert Taken(prototype, none)[p] == prototype[p] && Taken(prototype, none)[q] == prototype[q];
      assert Taken(all, prototype)[p] == !prototype[p] && Taken(all, prototype)[q] == !prototype[q];
    }
  }

  /** All phases: the prototype is homogenised, its pixels are ranked downwards and the rest filled upwards. */
  method RankMatrix(f: Filter, chosen: seq<int>) returns (ranks: array<int>)
    requires f.Valid() && f.Cells() >= INIT_FRACTION && Sample(f.Cells(), chosen)
    ensures fresh(ranks) && ranks.Length == f.Cells()
    ensures Permutation(ranks[..])
    ensures Greedy(f, ranks[..], f.Cells() / INIT_FRACTION)
    ensures Homogenised(f, chosen, Level(ranks[..], f.Cells() / INIT_FRACTION))
  {
    hide Field, SetCount, Thinning, Filling, Greedy, Permutation, Level, Homogenised, SameOn;
    var pattern, energy := InitialPattern(f, chosen);
    var prototype, protoEnergy := pattern[..], energy[..];
    var ones := CountCells(prototype);
    SetCountExtremes(prototype);
    ranks := new int[f.Cells()](_ => 0);
    RankMinority(f, prototype, protoEnergy, ones, ranks);
    ghost var given := ranks[..];
    FillVoids(f, prototype, protoEnergy, ones, ranks);
    ThinningAgrees(f, prototype, Plain(|prototype|, false), given, ranks[..], 0, ones);
    PhasesMeet(f, prototype, ranks[..], ones);
  }

  // --------------------------------------------- the specification is exact

  lemma RankedCell(ranks: seq<int>, k: int) returns (p: int)
    requires Permutation(ranks) && 0 <= k < |ranks|
    ensures 0 <= p < |ranks| && ranks[p] == k
    ensures Level(ranks, k + 1) == Level(ranks, k)[p := true]
    ensures Level(ranks, k) == Level(ranks, k + 1)[p := false]
  {
    InjectionIsOnto(ranks, k);
    p :| 0 <= p < |ranks| && ranks[p] == k;
  }

  lemma LevelsStep(f: Filter, a: seq<int>, b: seq<int>, ones: int, k: int)
    requires f.dim > 0 && |a| == |b| && 0 <= k < |a|
    requires Permutation(a) && Greedy(f, a, ones) && Permutation(b) && Greedy(f, b, ones)
    ensures k >= ones && Level(a, k) == Level(b, k) ==> Level(a, k + 1) == Level(b, k + 1)
    ensures k < ones && Level(a, k + 1) == Level(b, k + 1) ==> Level(a, k) == Level(b, k)
  {
    hide Field, Level, Permutation, IsVoid, IsTightest;
    var p := RankedCell(a, k);
    var q := RankedCell(b, k);
    assert GreedyAt(f, a, ones, p) && GreedyAt(f, b, ones, q);
    if k >= ones && Level(a, k) == Level(b, k) {
      PickUnique(Field(f, Level(a, k)), Level(a, k), p, q);
    }
    if k < ones && Level(a, k + 1) == Level(b, k + 1) {
      PickUnique(Field(f, Level(a, k + 1)), Level(a, k + 1), p, q);
    }
  }

  lemma {:induction false} LevelsAgree(f: Filter, a: seq<int>, b: seq<int>, ones: int, k: int)
    requires f.dim > 0 && |a| == |b| && 0 <= k <= |a| && 0 <= ones <= |a|
    requires Permutation(a) && Greedy(f, a, ones) && Permutation(b) && Greedy(f, b, ones)
    requires Level(a, ones) == Level(b, ones)
    ensures Level(a, k) == Level(b, k)
    decreases if k < ones then ones - k else k - ones
  {
    hide Greedy, Level, Permutation;
    if k < ones {
      LevelsAgree(f, a, b, ones, k + 1);
      LevelsStep(f, a, b, ones, k);
    } else if ones < k {
      LevelsAgree(f, a, b, ones, k - 1);
      LevelsStep(f, a, b, ones, k - 1);
    }
  }

  /** The greedy specification leaves no freedom: prototype and filter determine every rank. */
  lemma GreedyDetermines(f: Filter, a: seq<int>, b: seq<int>, ones: int)
    requires f.dim > 0 && |a| == |b| && 0 <= ones <= |a|
    requires Permutation(a) && Greedy(f, a, ones) && Permutation(b) && Greedy(f, b, ones)
    requires Level(a, ones) == Level(b, ones)
    ensures a == b
  {
    hide Greedy;
    forall p | 0 <= p < |a| ensures a[p] == b[p] {
      var k := if a[p] < b[p] then a[p] + 1 else b[p] + 1;
      LevelsAgree(f, a, b, ones, k);
      assert Level(a, k)[p] == Level(b, k)[p];
    }
  }

  // ------------------------------------------------------------ thresholds

  function Threshold(rank: int, n: nat): int
    requires n > 0
  {
    var level := (2 * rank + 1) * BYTE_LEVELS / (2 * n);
    if level < BYTE_LEVELS - 1 then level else BYTE_LEVELS - 1
  }

  /** The clamp to 255 never changes a threshold, whatever the number of cells. */
  lemma ClampIdle(rank: int, n: nat)
    requires 0 <= rank < n
    ensures Threshold(rank, n) == (2 * rank + 1) * BYTE_LEVELS / (2 * n)
    ensures 0 <= Threshold(rank, n) < BYTE_LEVELS
  {
    QuotientBelow((2 * rank + 1) * BYTE_LEVELS, 2 * n, BYTE_LEVELS);
  }

  /** With 256 * m cells, each threshold covers exactly m consecutive ranks. */
  lemma ThresholdIsQuotient(rank: int, m: nat)
    requires m > 0 && 0 <= rank < BYTE_LEVELS * m
    ensures Threshold(rank, BYTE_LEVELS * m) == rank / m
  {
    ClampIdle(rank, BYTE_LEVELS * m);
    var q, r := rank / m, rank % m;
    calc {
      (2 * rank + 1) * BYTE_LEVELS;
      (2 * (q * m + r) + 1) * BYTE_LEVELS;
      q * (2 * (BYTE_LEVELS * m)) + (2 * r + 1) * BYTE_LEVELS;
    }
    CellSplit(2 * (BYTE_LEVELS * m), q, (2 * r + 1) * BYTE_LEVELS);
  }

  method ThresholdTexture(f: Filter, chosen: seq<int>) returns (texture: seq<int>, ranks: seq<int>)
    requires f.Valid() && f.Cells() >= INIT_FRACTION && Sample(f.Cells(), chosen)
    ensures |texture| == |ranks| == f.Cells()
    ensures Permutation(ranks) && Greedy(f, ranks, f.Cells() / INIT_FRACTION)
    ensures Homogenised(f, chosen, Level(ranks, f.Cells() / INIT_FRACTION))
    ensures forall p | 0 <= p < |ranks| :: texture[p] == Threshold(ranks[p], f.Cells())
  {
    hide Permutation, Greedy, Threshold, Level, Homogenised;
    var matrix := RankMatrix(f, chosen);
    ranks := matrix[..];
    texture := [];
    for i := 0 to matrix.Length
      invariant |texture| == i
      invariant forall p | 0 <= p < i :: texture[p] == Threshold(ranks[p], f.Cells())
    {
      texture := texture + [Threshold(matrix[i], f.Cells())];
    }
  }

  lemma {:induction false} RanksInInterval(ranks: seq<int>, lo: int, hi: int)
    requires Permutation(ranks) && 0 <= lo <= hi <= |ranks|
    ensures Count(p => 0 <= p < |ranks| && lo <= ranks[p] < hi, |ranks|) == hi - lo
    decreases hi - lo
  {
    var now := p => 0 <= p < |ranks| && lo <= ranks[p] < hi;
    if lo == hi {
      CountExtremes(now, |ranks|);
    } else {
      RanksInInterval(ranks, lo, hi - 1);
      var c := RankedCell(ranks, hi - 1);
      CountPoint(now, p => 0 <= p < |ranks| && lo <= ranks[p] < hi - 1, c, |ranks|);
    }
  }

  /** How many cells of the mask hold the value t. */
  ghost function Occurrences(texture: seq<int>, t: int): nat {
    Count(p => 0 <= p < |texture| && texture[p] == t, |texture|)
  }

  /** With 256 * m cells every byte value occurs m times in the mask, and the
      level set of the mask at t is the set of the first m * t ranks. */
  lemma MaskLevels(ranks: seq<int>, texture: seq<int>, m: nat, t: int)
    requires m > 0 && |texture| == |ranks| == BYTE_LEVELS * m && Permutation(ranks)
    requires forall p | 0 <= p < |ranks| :: texture[p] == Threshold(ranks[p], |ranks|)
    ensures 0 <= t < BYTE_LEVELS ==> Occurrences(texture, t) == m
    ensures forall p | 0 <= p < |ranks| :: texture[p] < t <==> ranks[p] < m * t
  {
    hide Threshold, Count;
    forall p | 0 <= p < |ranks|
      ensures (texture[p] < t <==> ranks[p] < m * t) && (texture[p] == t <==> m * t <= ranks[p] < m * t + m)
    {
      ThresholdIsQuotient(ranks[p], m);
      QuotientBounds(ranks[p], m, t);
    }
    if 0 <= t < BYTE_LEVELS {
      Scaled(t + 1, BYTE_LEVELS, m);
      assert m * t + m == (t + 1) * m && m * t >= 0;
      RanksInInterval(ranks, m * t, m * t + m);
      CountEq(p => 0 <= p < |texture| && texture[p] == t,
              p => 0 <= p < |ranks| && m * t <= ranks[p] < m * t + m, |ranks|);
    }
  }

  /** The ranks, seen from the mask alone: every byte value occurs m times and the
      mask's level sets grow by m ranks per level. */
  ghost predicate Uniform(texture: seq<int>, ranks: seq<int>, m: nat)
    requires |texture| == |ranks|
  {
    forall t | 0 <= t < BYTE_LEVELS ::
      && Occurrences(texture, t) == m
      && forall p | 0 <= p < |ranks| :: texture[p] < t <==> ranks[p] < m * t
  }

  /** The texture holds the thresholds of ranks that are greedy for the truncated
      square over the homogenised sample. */
  ghost predicate IsMask(weight: int -> int, radius: nat, dim: nat, chosen: seq<int>,
                         texture: seq<int>, ranks: seq<int>)
  {
    var f, ones := Filter(dim, Square(weight, radius)), dim * dim / INIT_FRACTION;
    && f.Valid() && |texture| == |ranks| == dim * dim && Permutation(ranks) && Greedy(f, ranks, ones)
    && Homogenised(f, chosen, Level(ranks, ones))
    && forall p | 0 <= p < |ranks| :: texture[p] == Threshold(ranks[p], dim * dim)
  }

  /** The whole generator: from the weight function, the truncation radius, the
      torus edge and the random sample to the emitted thresholds. */
  method GenerateMask(weight: int -> int, radius: nat, dim: nat, chosen: seq<int>)
    returns (kernel: seq<Offset>, texture: seq<int>, ranks: seq<int>)
    requires dim * dim >= INIT_FRACTION && Sample(dim * dim, chosen)
    ensures kernel == Square(weight, radius) && forall o :: o in kernel <==> InSquare(weight, radius, o)
    ensures IsMask(weight, radius, dim, chosen, texture, ranks)
    ensures forall m: nat | dim * dim == BYTE_LEVELS * m :: Uniform(texture, ranks, m)
  {
    hide Mirror, Permutation, Greedy, Threshold, Uniform, Level, Homogenised, Sample, InSquare, Square;
    kernel := BuildKernel(weight, radius);
    PositiveWeights(weight, radius, kernel);
    var f := Filter(dim, kernel);
    texture, ranks := ThresholdTexture(f, chosen);
    forall m: nat | dim * dim == BYTE_LEVELS * m ensures Uniform(texture, ranks, m) {
      MaskUniform(ranks, texture, m);
    }
  }

  lemma OnePrototype(f: Filter, chosen: seq<int>, a: seq<bool>, b: seq<bool>)
    requires Homogenised(f, chosen, a) && Homogenised(f, chosen, b)
    ensures a == b
  {
    hide Swaps, Mixed;
    var s :| Seeded(f.Cells(), chosen, s) && SwappedFrom(f, s, a);
    var t :| Seeded(f.Cells(), chosen, t) && SwappedFrom(f, t, b);
    assert s == t;
  }

  /** Weight, radius, edge and sample determine the mask byte for byte, and so do its ranks. */
  lemma MaskDetermined(weight: int -> int, radius: nat, dim: nat, chosen: seq<int>,
                       a: seq<int>, ranksA: seq<int>, b: seq<int>, ranksB: seq<int>)
    requires IsMask(weight, radius, dim, chosen, a, ranksA) && IsMask(weight, radius, dim, chosen, b, ranksB)
    ensures a == b && ranksA == ranksB
  {
    hide Permutation, Greedy, Threshold, Level, Homogenised, Square;
    var f, ones := Filter(dim, Square(weight, radius)), dim * dim / INIT_FRACTION;
    OnePrototype(f, chosen, Level(ranksA, ones), Level(ranksB, ones));
    GreedyDetermines(f, ranksA, ranksB, ones);
  }

  lemma PositiveWeights(weight: int -> int, radius: int, kernel: seq<Offset>)
    requires forall o :: o in kernel <==> InSquare(weight, radius, o)
    ensures forall o | o in kernel :: o.weight > 0
  {
  }

  lemma MaskUniform(ranks: seq<int>, texture: seq<int>, m: nat)
    requires m > 0 && |texture| == |ranks| == BYTE_LEVELS * m && Permutation(ranks)
    requires forall p | 0 <= p < |ranks| :: texture[p] == Threshold(ranks[p], |ranks|)
    ensures Uniform(texture, ranks, m)
  {
    hide Permutation, Threshold, Occurrences;
    forall t | 0 <= t < BYTE_LEVELS
      ensures Occurrences(texture, t) == m
      ensures forall p | 0 <= p < |ranks| :: texture[p] < t <==> ranks[p] < m * t
    {
      MaskLevels(ranks, texture, m, t);
    }
  }
}
