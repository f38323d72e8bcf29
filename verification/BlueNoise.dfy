/** The void-and-cluster mask generator up to its swaps: the energy field and how
    one pixel changes it, the two argument scans, and the homogenising moves with
    their descent. Patterns and fields are row-major over the torus. */
module BlueNoise {
  import opened Arithmetic
  import opened Sums
  import opened BlueNoiseKernel

  // ---------------------------------------------------------------- energy

  ghost predicate Pattern(f: Filter, s: seq<bool>) {
    f.Valid() && |s| == f.Cells()
  }

  ghost function EnergyTerm(f: Filter, s: seq<bool>, q: int): int -> int
    requires f.dim > 0
  {
    p => if 0 <= p < |s| && s[p] then Reach(f, p, q) else 0
  }

  /** The direct convolution: total weight with which the set cells reach q. */
  ghost function Energy(f: Filter, s: seq<bool>, q: int): int
    requires f.dim > 0
  {
    Sum(EnergyTerm(f, s, q), |s|)
  }

  ghost function Field(f: Filter, s: seq<bool>): (e: seq<int>)
    requires f.dim > 0
    ensures |e| == |s|
  {
    seq(|s|, q => Energy(f, s, q))
  }

  lemma EnergyPlace(f: Filter, s: seq<bool>, c: int, q: int)
    requires f.dim > 0 && 0 <= c < |s| && !s[c]
    ensures Energy(f, s[c := true], q) == Energy(f, s, q) + Reach(f, c, q)
  {
    hide Sum, Reach;
    SumPoint(EnergyTerm(f, s[c := true], q), EnergyTerm(f, s, q), c, |s|);
  }

  /** Placing a pixel and splatting its kernel keeps the field equal to the convolution. */
  lemma FieldPlace(f: Filter, s: seq<bool>, c: int, e: seq<int>)
    requires f.dim > 0 && 0 <= c < |s| && !s[c] && |e| == |s|
    requires forall q | 0 <= q < |s| :: e[q] == Field(f, s)[q] + Reach(f, c, q)
    ensures e == Field(f, s[c := true])
  {
    forall q | 0 <= q < |s| ensures e[q] == Field(f, s[c := true])[q] {
      EnergyPlace(f, s, c, q);
    }
  }

  lemma FieldRemove(f: Filter, s: seq<bool>, c: int, e: seq<int>)
    requires f.dim > 0 && 0 <= c < |s| && s[c] && |e| == |s|
    requires forall q | 0 <= q < |s| :: e[q] == Field(f, s)[q] - Reach(f, c, q)
    ensures e == Field(f, s[c := false])
  {
    assert s[c := false][c := true] == s;
    forall q | 0 <= q < |s| ensures e[q] == Field(f, s[c := false])[q] {
      EnergyPlace(f, s[c := false], c, q);
    }
  }

  ghost function Complement(s: seq<bool>): seq<bool> {
    seq(|s|, p requires 0 <= p < |s| => !s[p])
  }

  /** Every kernel weight that reaches q comes from a set cell or from a clear one. */
  lemma ComplementEnergy(f: Filter, s: seq<bool>, q: int)
    requires Pattern(f, s) && 0 <= q < |s|
    ensures Energy(f, s, q) + Energy(f, Complement(s), q) == KernelWeight(f)
  {
    hide Sum, Reach;
    SumAdd(EnergyTerm(f, s, q), EnergyTerm(f, Complement(s), q), ReachOf(f, q), |s|);
    ReachTotal(f, q);
  }

  /** Adds or removes one pixel by splatting the wrapped kernel onto the field. */
  method Toggle(f: Filter, energy: array<int>, pos: int, sign: int)
    requires f.dim > 0 && energy.Length == f.Cells() && 0 <= pos < f.Cells()
    modifies energy
    ensures forall q | 0 <= q < energy.Length :: energy[q] == old(energy[q]) + sign * Reach(f, pos, q)
  {
    var px, py := pos % f.dim, pos / f.dim;
    for i := 0 to |f.kernel|
      invariant forall q | 0 <= q < energy.Length ::
                  energy[q] == old(energy[q]) + sign * Sum(ReachTerm(f, pos, q), i)
    {
      var o := f.kernel[i];
      var qx, qy := (px + o.dx) % f.dim, (py + o.dy) % f.dim;
      TargetInRange(f.dim, pos, o);
      SplatStep(f, energy[..], pos, i, sign, old(energy[..]));
      energy[qy * f.dim + qx] := energy[qy * f.dim + qx] + sign * o.weight;
    }
  }

  lemma SplatStep(f: Filter, now: seq<int>, pos: int, i: nat, sign: int, before: seq<int>)
    requires f.dim > 0 && i < |f.kernel| && |now| == |before|
    requires forall q | 0 <= q < |now| :: now[q] == before[q] + sign * Sum(ReachTerm(f, pos, q), i)
    ensures forall q | 0 <= q < |now| ::
              now[q] + (if q == Target(f.dim, pos, f.kernel[i]) then sign * f.kernel[i].weight else 0)
              == before[q] + sign * Sum(ReachTerm(f, pos, q), i + 1)
  {
    hide Target;
    forall q | 0 <= q < |now|
      ensures now[q] + (if q == Target(f.dim, pos, f.kernel[i]) then sign * f.kernel[i].weight else 0)
              == before[q] + sign * Sum(ReachTerm(f, pos, q), i + 1)
    {
      var term := ReachTerm(f, pos, q);
      assert sign * (Sum(term, i) + term(i)) == sign * Sum(term, i) + sign * term(i);
    }
  }

  // ----------------------------------------------------------------- picks

  /** c is the first of the set cells with the highest energy. */
  ghost predicate IsTightest(e: seq<int>, s: seq<bool>, c: int)
    requires |e| == |s|
  {
    && 0 <= c < |s| && s[c]
    && (forall p | 0 <= p < |s| && s[p] :: e[p] <= e[c])
    && (forall p | 0 <= p < c && s[p] :: e[p] < e[c])
  }

  /** v is the first of the clear cells with the lowest energy. */
  ghost predicate IsVoid(e: seq<int>, s: seq<bool>, v: int)
    requires |e| == |s|
  {
    && 0 <= v < |s| && !s[v]
    && (forall p | 0 <= p < |s| && !s[p] :: e[v] <= e[p])
    && (forall p | 0 <= p < v && !s[p] :: e[v] < e[p])
  }

  method TightestCluster(energy: array<int>, pattern: array<bool>) returns (best: int)
    requires energy.Length == pattern.Length
    ensures best == -1 <==> forall p | 0 <= p < pattern.Length :: !pattern[p]
    ensures best != -1 ==> IsTightest(energy[..], pattern[..], best)
  {
    best := -1;
    var bestEnergy := 0;
    for pos := 0 to pattern.Length
      invariant -1 <= best < pos
      invariant best == -1 <==> forall p | 0 <= p < pos :: !pattern[p]
      invariant best >= 0 ==> pattern[best] && bestEnergy == energy[best]
      invariant forall p | 0 <= p < pos && pattern[p] :: energy[p] <= bestEnergy
      invariant forall p | 0 <= p < best && pattern[p] :: energy[p] < bestEnergy
    {
      if pattern[pos] && (best < 0 || energy[pos] > bestEnergy) {
        best := pos;
        bestEnergy := energy[pos];
      }
    }
  }

  method LargestVoid(energy: array<int>, pattern: array<bool>) returns (best: int)
    requires energy.Length == pattern.Length
    ensures best == -1 <==> forall p | 0 <= p < pattern.Length :: pattern[p]
    ensures best != -1 ==> IsVoid(energy[..], pattern[..], best)
  {
    best := -1;
    var bestEnergy := 0;
    for pos := 0 to pattern.Length
      invariant -1 <= best < pos
      invariant best == -1 <==> forall p | 0 <= p < pos :: pattern[p]
      invariant best >= 0 ==> !pattern[best] && bestEnergy == energy[best]
      invariant forall p | 0 <= p < pos && !pattern[p] :: bestEnergy <= energy[p]
      invariant forall p | 0 <= p < best && !pattern[p] :: bestEnergy < energy[p]
    {
      if !pattern[pos] && (best < 0 || energy[pos] < bestEnergy) {
        best := pos;
        bestEnergy := energy[pos];
      }
    }
  }

  lemma TightestExists(e: seq<int>, s: seq<bool>, n: nat) returns (c: int)
    requires |e| == |s| && n <= |s| && exists p :: 0 <= p < n && s[p]
    ensures IsTightest(e[..n], s[..n], c)
  {
    if exists p :: 0 <= p < n - 1 && s[p] {
      c := TightestExists(e, s, n - 1);
      if s[n - 1] && e[n - 1] > e[c] {
        c := n - 1;
      }
    } else {
      c := n - 1;
    }
  }

  lemma VoidExists(e: seq<int>, s: seq<bool>, n: nat) returns (v: int)
    requires |e| == |s| && n <= |s| && exists p :: 0 <= p < n && !s[p]
    ensures IsVoid(e[..n], s[..n], v)
  {
    if exists p :: 0 <= p < n - 1 && !s[p] {
      v := VoidExists(e, s, n - 1);
      if !s[n - 1] && e[n - 1] < e[v] {
        v := n - 1;
      }
    } else {
      v := n - 1;
    }
  }

  /** The largest void is the same pick as the tightest cluster of the majority,
      ties included, so one filling loop covers both halves. */
  lemma VoidIsMajorityCluster(f: Filter, s: seq<bool>, v: int)
    requires Pattern(f, s)
    ensures IsVoid(Field(f, s), s, v) <==> IsTightest(Field(f, Complement(s)), Complement(s), v)
  {
    hide Energy;
    forall q | 0 <= q < |s|
      ensures Field(f, Complement(s))[q] == KernelWeight(f) - Field(f, s)[q]
    {
      ComplementEnergy(f, s, q);
    }
  }

  // ----------------------------------------------------------------- swaps

  ghost function SetCount(s: seq<bool>): nat {
    Count(p => 0 <= p < |s| && s[p], |s|)
  }

  lemma SetCountPlace(s: seq<bool>, c: int)
    requires 0 <= c < |s| && !s[c]
    ensures SetCount(s[c := true]) == SetCount(s) + 1
  {
    var t := s[c := true];
    CountPoint(p => 0 <= p < |t| && t[p], p => 0 <= p < |s| && s[p], c, |s|);
  }

  lemma SetCountRemove(s: seq<bool>, c: int)
    requires 0 <= c < |s| && s[c]
    ensures SetCount(s[c := false]) + 1 == SetCount(s)
  {
    assert s[c := false][c := true] == s;
    SetCountPlace(s[c := false], c);
  }

  lemma SetCountExtremes(s: seq<bool>)
    ensures SetCount(s) <= |s|
    ensures SetCount(s) == 0 <==> forall p | 0 <= p < |s| :: !s[p]
    ensures SetCount(s) == |s| <==> forall p | 0 <= p < |s| :: s[p]
  {
    var isSet := p => 0 <= p < |s| && s[p];
    CountExtremes(isSet, |s|);
    assert forall p | 0 <= p < |s| :: isSet(p) == s[p];
  }

  ghost function PairTerm(f: Filter, s: seq<bool>): int -> int
    requires f.dim > 0
  {
    q => if 0 <= q < |s| && s[q] then Energy(f, s, q) else 0
  }

  /** Pairwise energy of the set cells, each cell counted with itself. */
  ghost function PairEnergy(f: Filter, s: seq<bool>): int
    requires f.dim > 0
  {
    Sum(PairTerm(f, s), |s|)
  }

  ghost function IndexTerm(s: seq<bool>): int -> int {
    p => if 0 <= p < |s| && s[p] then p else 0
  }

  ghost function IndexSum(s: seq<bool>): int {
    Sum(IndexTerm(s), |s|)
  }

  lemma EnergyNonNegative(f: Filter, s: seq<bool>, q: int)
    requires f.Valid()
    ensures 0 <= Energy(f, s, q)
  {
    forall p | 0 <= p < |s| ensures 0 <= EnergyTerm(f, s, q)(p) {
      ReachNonNegative(f, p, q);
    }
    SumNonNegative(EnergyTerm(f, s, q), |s|);
  }

  lemma MeasureNonNegative(f: Filter, s: seq<bool>)
    requires f.Valid()
    ensures 0 <= PairEnergy(f, s) && 0 <= IndexSum(s)
  {
    hide Energy;
    forall q | 0 <= q < |s| ensures 0 <= PairTerm(f, s)(q) {
      EnergyNonNegative(f, s, q);
    }
    SumNonNegative(PairTerm(f, s), |s|);
    SumNonNegative(IndexTerm(s), |s|);
  }

  lemma IndexPlace(s: seq<bool>, c: int)
    requires 0 <= c < |s| && !s[c]
    ensures IndexSum(s[c := true]) == IndexSum(s) + c
  {
    SumPoint(IndexTerm(s[c := true]), IndexTerm(s), c, |s|);
  }

  /** By symmetry of the filter a new pixel adds its energy once as a target and once as a source. */
  lemma PairPlace(f: Filter, s: seq<bool>, c: int)
    requires Pattern(f, s) && 0 <= c < |s| && !s[c]
    ensures PairEnergy(f, s[c := true]) == PairEnergy(f, s) + 2 * Energy(f, s, c) + Reach(f, c, c)
  {
    hide Sum, Reach, Energy;
    var t := s[c := true];
    var kept := (q: int) => if 0 <= q < |t| && t[q] then Energy(f, s, q) else 0;
    var added := (q: int) => if 0 <= q < |t| && t[q] then Reach(f, c, q) else 0;
    forall q | 0 <= q < |t| ensures PairTerm(f, t)(q) == kept(q) + added(q) {
      EnergyPlace(f, s, c, q);
    }
    SumAdd(kept, added, PairTerm(f, t), |t|);
    SumPoint(kept, PairTerm(f, s), c, |s|);
    forall q | 0 <= q < |t| ensures added(q) == EnergyTerm(f, t, c)(q) {
      ReachSymmetric(f, c, q);
    }
    SumEq(added, EnergyTerm(f, t, c), |t|);
    EnergyPlace(f, s, c, c);
    AddedIsEnergy(f, t, c);
  }

  lemma AddedIsEnergy(f: Filter, t: seq<bool>, c: int)
    requires f.dim > 0
    ensures Sum(EnergyTerm(f, t, c), |t|) == Energy(f, t, c)
  {
  }

  ghost predicate Mixed(s: seq<bool>) {
    0 < SetCount(s) < |s|
  }

  /** The pick of the cluster scan over a field, as a function of field and pattern. */
  ghost function Cluster(e: seq<int>, s: seq<bool>): (c: int)
    requires |e| == |s| && SetCount(s) > 0
    ensures IsTightest(e, s, c)
  {
    SetCountExtremes(s);
    assert e[..|s|] == e && s[..|s|] == s;
    assert exists c :: IsTightest(e, s, c) by {
      var c := TightestExists(e, s, |s|);
    }
    var c :| IsTightest(e, s, c);
    c
  }

  /** The pick of the void scan. */
  ghost function Void(e: seq<int>, s: seq<bool>): (v: int)
    requires |e| == |s| && SetCount(s) < |s|
    ensures IsVoid(e, s, v)
  {
    SetCountExtremes(s);
    assert e[..|s|] == e && s[..|s|] == s;
    assert exists v :: IsVoid(e, s, v) by {
      var v := VoidExists(e, s, |s|);
    }
    var v :| IsVoid(e, s, v);
    v
  }

  lemma PickUnique(e: seq<int>, s: seq<bool>, a: int, b: int)
    requires |e| == |s|
    ensures IsTightest(e, s, a) && IsTightest(e, s, b) ==> a == b
    ensures IsVoid(e, s, a) && IsVoid(e, s, b) ==> a == b
  {
  }

  /** The pattern without its tightest pixel. */
  ghost function Thinned(f: Filter, s: seq<bool>): (t: seq<bool>)
    requires Pattern(f, s) && Mixed(s)
    ensures |t| == |s| && SetCount(t) + 1 == SetCount(s)
  {
    var c := Cluster(Field(f, s), s);
    SetCountRemove(s, c);
    s[c := false]
  }

  /** One homogenising move: the tightest pixel goes to the largest void it leaves behind. */
  ghost function Swap(f: Filter, s: seq<bool>): (t: seq<bool>)
    requires Pattern(f, s) && Mixed(s)
    ensures |t| == |s| && SetCount(t) == SetCount(s)
  {
    var thin := Thinned(f, s);
    var v := Void(Field(f, thin), thin);
    SetCountPlace(thin, v);
    thin[v := true]
  }

  /** Every move that changes the pattern lowers (pairwise energy, index sum) lexicographically. */
  lemma SwapDescends(f: Filter, s: seq<bool>)
    requires Pattern(f, s) && Mixed(s)
    ensures var t := Swap(f, s);
            || t == s
            || PairEnergy(f, t) < PairEnergy(f, s)
            || (PairEnergy(f, t) == PairEnergy(f, s) && IndexSum(t) < IndexSum(s))
  {
    hide Energy, PairEnergy, IndexSum, Reach;
    var c := Cluster(Field(f, s), s);
    var thin := Thinned(f, s);
    var v := Void(Field(f, thin), thin);
    assert thin[c := true] == s;
    PairPlace(f, thin, c);
    PairPlace(f, thin, v);
    IndexPlace(thin, c);
    IndexPlace(thin, v);
    ReachSelf(f, c, v);
    assert Field(f, thin)[v] == Energy(f, thin, v) && Field(f, thin)[c] == Energy(f, thin, c);
  }

  /** n moves in a row. */
  ghost function Swaps(f: Filter, s: seq<bool>, n: nat): (t: seq<bool>)
    requires Pattern(f, s) && Mixed(s)
    ensures |t| == |s| && SetCount(t) == SetCount(s)
  {
    if n == 0 then s else Swap(f, Swaps(f, s, n - 1))
  }

  /** Moving until nothing changes: the loop without its bound. */
  ghost function Settle(f: Filter, s: seq<bool>): (t: seq<bool>)
    requires Pattern(f, s) && Mixed(s)
    ensures |t| == |s| && SetCount(t) == SetCount(s) && Swap(f, t) == t
    decreases PairEnergy(f, s), IndexSum(s)
  {
    MeasureNonNegative(f, s);
    SwapDescends(f, s);
    if Swap(f, s) == s then s else Settle(f, Swap(f, s))
  }

  lemma {:induction false} SettleOfSwaps(f: Filter, s: seq<bool>, n: nat)
    requires Pattern(f, s) && Mixed(s)
    ensures Settle(f, Swaps(f, s, n)) == Settle(f, s)
  {
    hide Swap, PairEnergy, IndexSum;
    if n > 0 {
      SettleOfSwaps(f, s, n - 1);
    }
  }

  lemma {:induction false} SwapsFront(f: Filter, s: seq<bool>, n: nat)
    requires Pattern(f, s) && Mixed(s)
    ensures Swaps(f, Swap(f, s), n) == Swaps(f, s, n + 1)
  {
    hide Swap;
    if n > 0 {
      SwapsFront(f, s, n - 1);
    } else {
      assert Swaps(f, s, 0) == s;
    }
  }

  // ------------------------------------------------------- number of moves

  lemma IndexSumBound(s: seq<bool>)
    requires s != []
    ensures 0 <= IndexSum(s) < |s| * |s|
  {
    SumNonNegative(IndexTerm(s), |s|);
    SumAtMost(IndexTerm(s), |s| - 1, |s|);
  }

  /** The lexicographic measure as one number. */
  ghost function Potential(f: Filter, s: seq<bool>): int
    requires f.dim > 0
  {
    PairEnergy(f, s) * (|s| * |s|) + IndexSum(s)
  }

  lemma PotentialNonNegative(f: Filter, s: seq<bool>)
    requires f.Valid()
    ensures 0 <= Potential(f, s)
  {
    MeasureNonNegative(f, s);
    Scaled(0, PairEnergy(f, s), |s| * |s|);
  }

  lemma PotentialDrops(f: Filter, s: seq<bool>)
    requires Pattern(f, s) && Mixed(s) && Swap(f, s) != s
    ensures Potential(f, Swap(f, s)) < Potential(f, s)
  {
    hide Swap, PairEnergy, IndexSum;
    var t, k := Swap(f, s), |s| * |s|;
    SwapDescends(f, s);
    IndexSumBound(s);
    IndexSumBound(t);
    if PairEnergy(f, t) < PairEnergy(f, s) {
      Scaled(PairEnergy(f, t), PairEnergy(f, s) - 1, k);
      assert (PairEnergy(f, s) - 1) * k == PairEnergy(f, s) * k - k;
    }
  }

  /** How many moves change the pattern before it settles. */
  ghost function Moves(f: Filter, s: seq<bool>): (n: nat)
    requires Pattern(f, s) && Mixed(s)
    ensures n <= Potential(f, s)
    decreases Potential(f, s)
  {
    PotentialNonNegative(f, s);
    if Swap(f, s) == s then 0 else
      PotentialDrops(f, s);
      PotentialNonNegative(f, Swap(f, s));
      Moves(f, Swap(f, s)) + 1
  }

  lemma EnergyAtMost(f: Filter, s: seq<bool>, q: int)
    requires Pattern(f, s) && 0 <= q < |s|
    ensures Energy(f, s, q) <= KernelWeight(f)
  {
    ComplementEnergy(f, s, q);
    var rest := EnergyTerm(f, Complement(s), q);
    forall p | 0 <= p < |s| ensures 0 <= rest(p) {
      ReachNonNegative(f, p, q);
    }
    SumNonNegative(rest, |s|);
  }

  /** A bound that does not depend on the pattern. */
  lemma MovesBounded(f: Filter, s: seq<bool>)
    requires Pattern(f, s) && Mixed(s)
    ensures Moves(f, s) < (KernelWeight(f) * |s| + 1) * (|s| * |s|)
  {
    hide Moves, Energy, KernelWeight, Sum, IndexSum;
    forall q | 0 <= q < |s| ensures PairTerm(f, s)(q) <= KernelWeight(f) {
      EnergyAtMost(f, s, q);
      EnergyNonNegative(f, s, q);
    }
    SumAtMost(PairTerm(f, s), KernelWeight(f), |s|);
    Scaled(PairEnergy(f, s), KernelWeight(f) * |s|, |s| * |s|);
    IndexSumBound(s);
    assert (KernelWeight(f) * |s| + 1) * (|s| * |s|) == KernelWeight(f) * |s| * (|s| * |s|) + |s| * |s|;
  }

  lemma {:induction false} SettledStays(f: Filter, s: seq<bool>, n: nat)
    requires Pattern(f, s) && Mixed(s) && Swap(f, s) == s
    ensures Swaps(f, s, n) == s
  {
    hide Swap;
    if n > 0 {
      SettledStays(f, s, n - 1);
    }
  }

  /** n moves reach the settled pattern exactly when n is at least the number of
      changing moves, which is at most the starting potential. */
  lemma {:induction false} SwapsSettle(f: Filter, s: seq<bool>, n: nat)
    requires Pattern(f, s) && Mixed(s)
    ensures Swaps(f, s, n) == Settle(f, s) <==> Moves(f, s) <= n
    ensures Moves(f, s) <= Potential(f, s)
    decreases n
  {
    hide Swap, PairEnergy, IndexSum, Potential;
    if Swap(f, s) == s {
      SettledStays(f, s, n);
    } else if n > 0 {
      SwapsFront(f, s, n - 1);
      SwapsSettle(f, Swap(f, s), n - 1);
    } else {
      assert Swaps(f, s, 0) == s;
    }
  }

  ghost predicate Lower(f: Filter, t: seq<bool>, s: seq<bool>)
    requires f.dim > 0
  {
    || PairEnergy(f, t) < PairEnergy(f, s)
    || (PairEnergy(f, t) == PairEnergy(f, s) && IndexSum(t) < IndexSum(s))
  }

  lemma {:induction false} SwapsBelow(f: Filter, s: seq<bool>, i: nat, j: nat)
    requires Pattern(f, s) && Mixed(s) && i < j
    ensures || Swaps(f, s, j) == Swaps(f, s, i) == Swap(f, Swaps(f, s, i))
            || Lower(f, Swaps(f, s, j), Swaps(f, s, i))
  {
    hide PairEnergy, IndexSum, Swap;
    if i < j - 1 {
      SwapsBelow(f, s, i, j - 1);
    }
    SwapDescends(f, Swaps(f, s, j - 1));
  }

  /** A pattern is seen again only if it has already settled. */
  lemma NoPatternRepeats(f: Filter, s: seq<bool>, i: nat, j: nat)
    requires Pattern(f, s) && Mixed(s) && i < j
    ensures Swaps(f, s, i) == Swaps(f, s, j) ==> Swaps(f, s, i) == Settle(f, s)
  {
    SwapsBelow(f, s, i, j);
    SettleOfSwaps(f, s, i);
  }

  /** A loop bounded by n moves ends in the settled pattern exactly when one more
      move would change nothing, and always when n is at least the starting potential. */
  lemma BoundReachesSettled(f: Filter, s: seq<bool>, n: nat)
    requires Pattern(f, s) && Mixed(s)
    ensures Swaps(f, s, n) == Settle(f, s) <==> Swap(f, Swaps(f, s, n)) == Swaps(f, s, n)
    ensures Potential(f, s) <= n ==> Swaps(f, s, n) == Settle(f, s)
  {
    hide Swap, Swaps, Moves, Potential, PairEnergy, IndexSum;
    SettleOfSwaps(f, s, n);
    SwapsSettle(f, s, n);
  }
}
