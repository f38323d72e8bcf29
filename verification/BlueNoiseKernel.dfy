/** The toroidal integer filter of the blue-noise mask generator: the kernel as a
    list of weighted offsets, the cell an offset reaches, and the weight with
    which one cell reaches another. */
module BlueNoiseKernel {
  import opened Arithmetic
  import opened Sums

  datatype Offset = Offset(dx: int, dy: int, weight: int)

  /** A kernel together with the edge length of the square torus it is applied on. */
  datatype Filter = Filter(dim: nat, kernel: seq<Offset>) {
    function Cells(): nat {
      dim * dim
    }

    /** What _build_kernel guarantees, over any edge length. */
    ghost predicate Valid() {
      && dim > 0
      && (forall o | o in kernel :: o.weight > 0)
      && Mirror(kernel) == kernel
    }
  }

  // ---------------------------------------------------------------- kernel

  function Negate(o: Offset): Offset {
    Offset(-o.dx, -o.dy, o.weight)
  }

  /** The kernel read backwards with every offset negated. */
  ghost function Mirror(kernel: seq<Offset>): seq<Offset> {
    if kernel == [] then [] else Mirror(kernel[1..]) + [Negate(kernel[0])]
  }

  lemma {:induction false} MirrorAt(kernel: seq<Offset>, i: nat)
    requires i < |kernel|
    ensures |Mirror(kernel)| == |kernel|
    ensures Mirror(kernel)[i] == Negate(kernel[|kernel| - 1 - i])
  {
    if |kernel| > 1 {
      MirrorAt(kernel[1..], if i < |kernel| - 1 then i else 0);
    }
  }

  lemma MirrorNone()
    ensures Mirror([]) == []
  {
  }

  lemma {:induction false} MirrorConcat(a: seq<Offset>, b: seq<Offset>)
    ensures Mirror(a + b) == Mirror(b) + Mirror(a)
  {
    if a == [] {
      assert a + b == b;
    } else {
      assert (a + b)[1..] == a[1..] + b;
      MirrorConcat(a[1..], b);
    }
  }

  /** One cell of the truncated square; weights of zero are dropped. */
  function Tap(tap: (int, int) -> int, dx: int, dy: int): seq<Offset> {
    if tap(dx, dy) > 0 then [Offset(dx, dy, tap(dx, dy))] else []
  }

  ghost function Row(tap: (int, int) -> int, dy: int, lo: int, hi: int): seq<Offset>
    decreases hi - lo
  {
    if hi <= lo then [] else Row(tap, dy, lo, hi - 1) + Tap(tap, hi - 1, dy)
  }

  ghost function Rows(tap: (int, int) -> int, radius: int, lo: int, hi: int): seq<Offset>
    decreases hi - lo
  {
    if hi <= lo then [] else Rows(tap, radius, lo, hi - 1) + Row(tap, hi - 1, -radius, radius + 1)
  }

  lemma RowStep(tap: (int, int) -> int, dy: int, lo: int, hi: int)
    ensures Row(tap, dy, lo, hi) == if hi <= lo then [] else Row(tap, dy, lo, hi - 1) + Tap(tap, hi - 1, dy)
  {
  }

  lemma RowsStep(tap: (int, int) -> int, radius: int, lo: int, hi: int)
    ensures Rows(tap, radius, lo, hi)
         == if hi <= lo then [] else Rows(tap, radius, lo, hi - 1) + Row(tap, hi - 1, -radius, radius + 1)
  {
    hide Row;
  }

  lemma {:induction false} RowFront(tap: (int, int) -> int, dy: int, lo: int, hi: int)
    requires lo < hi
    ensures Row(tap, dy, lo, hi) == Tap(tap, lo, dy) + Row(tap, dy, lo + 1, hi)
    decreases hi - lo
  {
    hide Row, Tap;
    RowStep(tap, dy, lo, hi);
    RowStep(tap, dy, lo + 1, hi);
    if lo + 1 < hi {
      RowFront(tap, dy, lo, hi - 1);
    } else {
      RowStep(tap, dy, lo, lo);
    }
  }

  lemma {:induction false} RowsFront(tap: (int, int) -> int, radius: int, lo: int, hi: int)
    requires lo < hi
    ensures Rows(tap, radius, lo, hi) == Row(tap, lo, -radius, radius + 1) + Rows(tap, radius, lo + 1, hi)
    decreases hi - lo
  {
    hide Row, Rows;
    RowsStep(tap, radius, lo, hi);
    RowsStep(tap, radius, lo + 1, hi);
    if lo + 1 < hi {
      RowsFront(tap, radius, lo, hi - 1);
    } else {
      RowsStep(tap, radius, lo, lo);
    }
  }

  ghost predicate EvenAt(tap: (int, int) -> int, dx: int, dy: int) {
    tap(-dx, -dy) == tap(dx, dy)
  }

  ghost predicate Even(tap: (int, int) -> int) {
    forall dx, dy :: EvenAt(tap, dx, dy)
  }

  lemma MirrorTap(tap: (int, int) -> int, dx: int, dy: int)
    requires EvenAt(tap, dx, dy)
    ensures Mirror(Tap(tap, dx, dy)) == Tap(tap, -dx, -dy)
  {
  }

  /** For a weight that does not change under negation, mirroring a row gives the opposite row. */
  lemma {:induction false} MirrorRow(tap: (int, int) -> int, dy: int, lo: int, hi: int)
    requires Even(tap)
    ensures Mirror(Row(tap, dy, lo, hi)) == Row(tap, -dy, 1 - hi, 1 - lo)
    decreases hi - lo
  {
    MirrorNone();
    hide Mirror, Row, Tap;
    RowStep(tap, dy, lo, hi);
    if lo < hi {
      var rest, last := Row(tap, dy, lo, hi - 1), Tap(tap, hi - 1, dy);
      calc {
        Mirror(Row(tap, dy, lo, hi));
        { MirrorConcat(rest, last); }
        Mirror(last) + Mirror(rest);
        { assert EvenAt(tap, hi - 1, dy); MirrorTap(tap, hi - 1, dy); MirrorRow(tap, dy, lo, hi - 1); }
        Tap(tap, 1 - hi, -dy) + Row(tap, -dy, 1 - hi + 1, 1 - lo);
        { RowFront(tap, -dy, 1 - hi, 1 - lo); }
        Row(tap, -dy, 1 - hi, 1 - lo);
      }
    } else {
      RowStep(tap, -dy, 1 - hi, 1 - lo);
    }
  }

  lemma {:induction false} MirrorRows(tap: (int, int) -> int, radius: int, lo: int, hi: int)
    requires Even(tap)
    ensures Mirror(Rows(tap, radius, lo, hi)) == Rows(tap, radius, 1 - hi, 1 - lo)
    decreases hi - lo
  {
    MirrorNone();
    hide Mirror, Row, Rows;
    RowsStep(tap, radius, lo, hi);
    if lo < hi {
      var rest, last := Rows(tap, radius, lo, hi - 1), Row(tap, hi - 1, -radius, radius + 1);
      calc {
        Mirror(Rows(tap, radius, lo, hi));
        { MirrorConcat(rest, last); }
        Mirror(last) + Mirror(rest);
        { MirrorRow(tap, hi - 1, -radius, radius + 1); MirrorRows(tap, radius, lo, hi - 1); }
        Row(tap, 1 - hi, -radius, radius + 1) + Rows(tap, radius, 1 - hi + 1, 1 - lo);
        { RowsFront(tap, radius, 1 - hi, 1 - lo); }
        Rows(tap, radius, 1 - hi, 1 - lo);
      }
    } else {
      RowsStep(tap, radius, 1 - hi, 1 - lo);
    }
  }

  ghost function Radial(weight: int -> int): (int, int) -> int {
    (dx, dy) => weight(dx * dx + dy * dy)
  }

  lemma RadialAt(weight: int -> int, dx: int, dy: int)
    ensures Radial(weight)(dx, dy) == weight(dx * dx + dy * dy)
  {
  }

  ghost predicate InSquare(weight: int -> int, radius: int, o: Offset) {
    && -radius <= o.dx <= radius && -radius <= o.dy <= radius
    && o.weight == weight(o.dx * o.dx + o.dy * o.dy) && o.weight > 0
  }

  /** The truncated square, row by row, every offset of positive weight once. */
  ghost function Square(weight: int -> int, radius: int): seq<Offset> {
    Rows(Radial(weight), radius, -radius, radius + 1)
  }

  lemma KernelSquare(weight: int -> int, radius: int)
    ensures Mirror(Square(weight, radius)) == Square(weight, radius)
    ensures forall o :: o in Square(weight, radius) <==> InSquare(weight, radius, o)
  {
    hide Mirror, Rows;
    forall dx, dy ensures EvenAt(Radial(weight), dx, dy) {
      assert (-dx) * (-dx) == dx * dx && (-dy) * (-dy) == dy * dy;
    }
    MirrorRows(Radial(weight), radius, -radius, radius + 1);
    RowsMembers(Radial(weight), radius, -radius, radius + 1);
  }

  /** The truncated kernel square, scanned row by row. The exponential is any
      function of the squared distance. */
  method BuildKernel(weight: int -> int, radius: int) returns (kernel: seq<Offset>)
    requires radius >= 0
    ensures kernel == Square(weight, radius)
    ensures forall o :: o in kernel <==> InSquare(weight, radius, o)
    ensures Scanned(kernel)
    ensures Mirror(kernel) == kernel
  {
    hide Mirror, InSquare, Radial, Row, Rows;
    ghost var tap := Radial(weight);
    kernel := [];
    var dy := -radius;
    RowsStep(tap, radius, -radius, dy);
    while dy < radius + 1
      invariant -radius <= dy <= radius + 1
      invariant kernel == Rows(tap, radius, -radius, dy)
    {
      var dx := -radius;
      ghost var above := kernel;
      RowStep(tap, dy, -radius, dx);
      while dx < radius + 1
        invariant -radius <= dx <= radius + 1
        invariant kernel == above + Row(tap, dy, -radius, dx)
      {
        var w := weight(dx * dx + dy * dy);
        RadialAt(weight, dx, dy);
        RowStep(tap, dy, -radius, dx + 1);
        if w > 0 {
          kernel := kernel + [Offset(dx, dy, w)];
        }
        dx := dx + 1;
      }
      RowsStep(tap, radius, -radius, dy + 1);
      dy := dy + 1;
    }
    KernelSquare(weight, radius);
    SquareScanned(weight, radius);
  }

  lemma {:induction false} RowMembers(tap: (int, int) -> int, dy: int, lo: int, hi: int)
    ensures forall o :: o in Row(tap, dy, lo, hi) <==>
              lo <= o.dx < hi && o.dy == dy && o.weight == tap(o.dx, dy) && o.weight > 0
    decreases hi - lo
  {
    if lo < hi {
      RowMembers(tap, dy, lo, hi - 1);
    }
  }

  lemma {:induction false} RowsMembers(tap: (int, int) -> int, radius: int, lo: int, hi: int)
    ensures forall o :: o in Rows(tap, radius, lo, hi) <==>
              -radius <= o.dx <= radius && lo <= o.dy < hi && o.weight == tap(o.dx, o.dy) && o.weight > 0
    decreases hi - lo
  {
    if lo < hi {
      RowsMembers(tap, radius, lo, hi - 1);
      RowMembers(tap, hi - 1, -radius, radius + 1);
    }
  }

  /** Row by row and from left to right, so that no offset occurs twice. */
  ghost predicate Scanned(kernel: seq<Offset>) {
    forall i, j | 0 <= i < j < |kernel| :: Precedes(kernel[i], kernel[j])
  }

  ghost predicate Precedes(a: Offset, b: Offset) {
    a.dy < b.dy || (a.dy == b.dy && a.dx < b.dx)
  }

  lemma ScannedConcat(a: seq<Offset>, b: seq<Offset>)
    requires Scanned(a) && Scanned(b) && forall x, y | x in a && y in b :: Precedes(x, y)
    ensures Scanned(a + b)
  {
    hide Precedes;
    forall i, j | 0 <= i < j < |a + b| ensures Precedes((a + b)[i], (a + b)[j]) {
      if i < |a| <= j {
        assert a[i] in a && b[j - |a|] in b;
      }
    }
  }

  lemma {:induction false} RowScanned(tap: (int, int) -> int, dy: int, lo: int, hi: int)
    ensures Scanned(Row(tap, dy, lo, hi))
    decreases hi - lo
  {
    hide Row;
    RowStep(tap, dy, lo, hi);
    if lo < hi {
      RowScanned(tap, dy, lo, hi - 1);
      RowMembers(tap, dy, lo, hi - 1);
      ScannedConcat(Row(tap, dy, lo, hi - 1), Tap(tap, hi - 1, dy));
    }
  }

  lemma {:induction false} RowsScanned(tap: (int, int) -> int, radius: int, lo: int, hi: int)
    ensures Scanned(Rows(tap, radius, lo, hi))
    decreases hi - lo
  {
    hide Row, Rows;
    RowsStep(tap, radius, lo, hi);
    if lo < hi {
      RowsScanned(tap, radius, lo, hi - 1);
      RowScanned(tap, hi - 1, -radius, radius + 1);
      RowsMembers(tap, radius, lo, hi - 1);
      RowMembers(tap, hi - 1, -radius, radius + 1);
      ScannedConcat(Rows(tap, radius, lo, hi - 1), Row(tap, hi - 1, -radius, radius + 1));
    }
  }

  lemma SquareScanned(weight: int -> int, radius: int)
    ensures Scanned(Square(weight, radius))
  {
    RowsScanned(Radial(weight), radius, -radius, radius + 1);
  }

  // ----------------------------------------------------------------- torus

  /** The cell that offset o reaches from cell pos, wrapped on both axes. */
  function Target(d: nat, pos: int, o: Offset): int
    requires d > 0
  {
    (pos / d + o.dy) % d * d + (pos % d + o.dx) % d
  }

  lemma TargetInRange(d: nat, pos: int, o: Offset)
    requires d > 0
    ensures 0 <= Target(d, pos, o) < d * d
    ensures Target(d, pos, o) / d == (pos / d + o.dy) % d
    ensures Target(d, pos, o) % d == (pos % d + o.dx) % d
  {
    CellInBounds(d, d, (pos / d + o.dy) % d, (pos % d + o.dx) % d);
    CellSplit(d, (pos / d + o.dy) % d, (pos % d + o.dx) % d);
  }

  /** Shifting forward and back around a ring of d cells is the identity. */
  lemma WrapBack(d: nat, a: int, shift: int)
    requires d > 0 && 0 <= a < d
    ensures ((a + shift) % d - shift) % d == a
  {
    var m := (a + shift) / d;
    assert (a + shift) % d - shift == a - m * d;
    assert (a - m * d) % d == a by {
      CellSplit(d, -m, a);
    }
  }

  /** A cell reaches another by an offset exactly when it is reached back by the negated offset. */
  lemma TargetNegate(d: nat, p: int, q: int, o: Offset)
    requires d > 0 && 0 <= p < d * d && 0 <= q < d * d
    ensures Target(d, p, o) == q <==> Target(d, q, Negate(o)) == p
  {
    TargetBack(d, p, o);
    TargetBack(d, q, Negate(o));
  }

  lemma TargetBack(d: nat, p: int, o: Offset)
    requires d > 0 && 0 <= p < d * d
    ensures Target(d, Target(d, p, o), Negate(o)) == p
  {
    TargetInRange(d, p, o);
    RowOfCell(d, p);
    WrapBack(d, p / d, o.dy);
    WrapBack(d, p % d, o.dx);
  }

  // ----------------------------------------------------------------- reach

  ghost function ReachTerm(f: Filter, p: int, q: int): int -> int
    requires f.dim > 0
  {
    i => if 0 <= i < |f.kernel| && Target(f.dim, p, f.kernel[i]) == q then f.kernel[i].weight else 0
  }

  /** The total kernel weight with which a pixel at p reaches cell q. */
  ghost function Reach(f: Filter, p: int, q: int): int
    requires f.dim > 0
  {
    Sum(ReachTerm(f, p, q), |f.kernel|)
  }

  lemma ReachSymmetric(f: Filter, p: int, q: int)
    requires f.Valid() && 0 <= p < f.Cells() && 0 <= q < f.Cells()
    ensures Reach(f, p, q) == Reach(f, q, p)
  {
    var n := |f.kernel|;
    forall i | 0 <= i < n ensures ReachTerm(f, q, p)(i) == ReachTerm(f, p, q)(n - 1 - i) {
      MirrorAt(f.kernel, i);
      TargetNegate(f.dim, p, q, f.kernel[n - 1 - i]);
    }
    SumReverse(ReachTerm(f, p, q), ReachTerm(f, q, p), n);
  }

  /** Every cell reaches itself with the same weight: the filter is translation invariant. */
  lemma ReachSelf(f: Filter, p: int, q: int)
    requires f.dim > 0 && 0 <= p < f.Cells() && 0 <= q < f.Cells()
    ensures Reach(f, p, p) == Reach(f, q, q)
  {
    forall i | 0 <= i < |f.kernel| ensures ReachTerm(f, p, p)(i) == ReachTerm(f, q, q)(i) {
      SelfTarget(f.dim, p, f.kernel[i]);
      SelfTarget(f.dim, q, f.kernel[i]);
    }
    SumEq(ReachTerm(f, p, p), ReachTerm(f, q, q), |f.kernel|);
  }

  lemma SelfTarget(d: nat, p: int, o: Offset)
    requires d > 0 && 0 <= p < d * d
    ensures Target(d, p, o) == p <==> o.dx % d == 0 && o.dy % d == 0
  {
    TargetInRange(d, p, o);
    RowOfCell(d, p);
    WrapFixes(d, p / d, o.dy);
    WrapFixes(d, p % d, o.dx);
  }

  lemma WrapFixes(d: nat, a: int, shift: int)
    requires d > 0 && 0 <= a < d
    ensures (a + shift) % d == a <==> shift % d == 0
  {
    if shift % d == 0 {
      CellSplit(d, shift / d, a);
      assert a + shift == shift / d * d + a;
    }
    if (a + shift) % d == a {
      CellSplit(d, (a + shift) / d, 0);
      assert shift == (a + shift) / d * d + 0;
    }
  }

  lemma ReachNonNegative(f: Filter, p: int, q: int)
    requires f.Valid()
    ensures 0 <= Reach(f, p, q)
  {
    SumNonNegative(ReachTerm(f, p, q), |f.kernel|);
  }

  ghost function WeightTerm(f: Filter): int -> int {
    i => if 0 <= i < |f.kernel| then f.kernel[i].weight else 0
  }

  ghost function KernelWeight(f: Filter): int {
    Sum(WeightTerm(f), |f.kernel|)
  }

  ghost function ColumnTerm(f: Filter, q: int, i: int): int -> int
    requires f.dim > 0
  {
    p => ReachTerm(f, p, q)(i)
  }

  lemma ColumnAt(f: Filter, q: int, i: int, p: int)
    requires f.dim > 0 && 0 <= q < f.Cells() && 0 <= i < |f.kernel| && 0 <= p < f.Cells()
    ensures ColumnTerm(f, q, i)(p) == if p == Target(f.dim, q, Negate(f.kernel[i])) then f.kernel[i].weight else 0
  {
    hide Target;
    TargetNegate(f.dim, p, q, f.kernel[i]);
    assert ColumnTerm(f, q, i)(p) == ReachTerm(f, p, q)(i);
  }

  /** Offset i reaches q from exactly one cell. */
  lemma OneSource(f: Filter, q: int, i: int)
    requires f.dim > 0 && 0 <= q < f.Cells() && 0 <= i < |f.kernel|
    ensures Sum(ColumnTerm(f, q, i), f.Cells()) == f.kernel[i].weight
  {
    hide Target, Sum, ColumnTerm;
    var source := Target(f.dim, q, Negate(f.kernel[i]));
    TargetInRange(f.dim, q, Negate(f.kernel[i]));
    forall p | 0 <= p < f.Cells()
      ensures ColumnTerm(f, q, i)(p) == if p == source then f.kernel[i].weight else 0
    {
      ColumnAt(f, q, i, p);
    }
    SumSingle(ColumnTerm(f, q, i), source, f.Cells());
  }

  ghost function ReachOf(f: Filter, q: int): int -> int
    requires f.dim > 0
  {
    p => Reach(f, p, q)
  }

  /** So all cells together reach q with the whole kernel weight. */
  lemma ReachTotal(f: Filter, q: int)
    requires f.dim > 0 && 0 <= q < f.Cells()
    ensures Sum(ReachOf(f, q), f.Cells()) == KernelWeight(f)
  {
    var term := (p: int, i: int) => ReachTerm(f, p, q)(i);
    forall i | 0 <= i < |f.kernel| ensures WeightTerm(f)(i) == Sum(p => term(p, i), f.Cells()) {
      OneSource(f, q, i);
      SumEq(ColumnTerm(f, q, i), p => term(p, i), f.Cells());
    }
    forall p | 0 <= p < f.Cells() ensures ReachOf(f, q)(p) == Sum(i => term(p, i), |f.kernel|) {
      SumEq(ReachTerm(f, p, q), i => term(p, i), |f.kernel|);
    }
    SumSwap(term, ReachOf(f, q), WeightTerm(f), f.Cells(), |f.kernel|);
  }
}
