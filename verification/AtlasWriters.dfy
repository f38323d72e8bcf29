/** The two atlas writers, over an arbitrary rasteriser. */
module AtlasWriters {
  import opened Arithmetic
  import opened Atlas
  import opened Bytes
  import opened Outcomes
  import opened RunLength

  // ------------------------------------------------ laying the fill over a stroke

  /** A glyph whose stroke buffer covers its bounding box. */
  ghost predicate Covered(g: Rendered) {
    && g.box.Width() >= 0 && g.box.Height() >= 0
    && |g.mask.pixels| == g.box.Width() * g.box.Height()
  }

  lemma CoordinatesOf(width: int, height: nat, t: int)
    requires 0 <= t < width * height && width >= 0
    ensures width > 0 && 0 <= t % width < width && 0 <= t / width < height && t == t / width * width + t % width
  {
    if width > 0 {
      assert t < height * width;
      QuotientBelow(t, width, height);
    }
  }

  /** Position in the fill bitmap of pixel t of the stroked mask; it may lie outside. */
  function FillX(g: Rendered, t: int): int
    requires g.box.Width() > 0
  {
    t % g.box.Width() + g.box.left - g.fillBox.left
  }

  function FillY(g: Rendered, t: int): int
    requires g.box.Width() > 0
  {
    t / g.box.Width() + g.box.top - g.fillBox.top
  }

  function Max(a: Byte, b: Byte): (m: Byte)
    ensures a <= m && b <= m && (m == a || m == b)
  {
    if a < b then b else a
  }

  /** The fill bitmap, where it lies over the stroked mask, has a pixel for t. */
  ghost predicate Overlaid(g: Rendered, t: int)
    requires Covered(g) && 0 <= t < |g.mask.pixels|
  {
    CoordinatesOf(g.box.Width(), g.box.Height(), t);
    0 <= FillX(g, t) < g.fill.width && 0 <= FillY(g, t) < g.fill.height
  }

  /** Index of that pixel in the fill buffer. */
  ghost function Source(g: Rendered, t: int): (source: nat)
    requires Covered(g) && 0 <= t < |g.mask.pixels| && Overlaid(g, t)
  {
    CoordinatesOf(g.box.Width(), g.box.Height(), t);
    CellInBounds(g.fill.width, g.fill.height, FillY(g, t), FillX(g, t));
    FillY(g, t) * g.fill.width + FillX(g, t)
  }

  /** The fill buffer is long enough for t. */
  ghost predicate Readable(g: Rendered, t: int)
    requires Covered(g) && 0 <= t < |g.mask.pixels|
  {
    Overlaid(g, t) ==> Source(g, t) < |g.fill.pixels|
  }

  /** The fill can be laid over the stroke without reading past its buffer. */
  ghost predicate Blendable(g: Rendered) {
    Covered(g) && forall t | 0 <= t < |g.mask.pixels| :: Readable(g, t)
  }

  /** Pixel t after blending: the brighter of stroke and fill where both have it. */
  ghost function Blended(g: Rendered, t: int): Byte
    requires Covered(g) && 0 <= t < |g.mask.pixels| && Readable(g, t)
  {
    if Overlaid(g, t) then Max(g.mask.pixels[t], g.fill.pixels[Source(g, t)]) else g.mask.pixels[t]
  }

  ghost function BlendedMask(g: Rendered): (mask: Bytes)
    requires Blendable(g)
    ensures |mask| == |g.mask.pixels|
  {
    seq(|g.mask.pixels|, t requires 0 <= t < |g.mask.pixels| => Blended(g, t))
  }

  ghost predicate Visited(g: Rendered, t: int, fx: int, fy: int)
    requires Covered(g) && 0 <= t < |g.mask.pixels|
  {
    CoordinatesOf(g.box.Width(), g.box.Height(), t);
    FillY(g, t) < fy || (FillY(g, t) == fy && FillX(g, t) < fx)
  }

  /** Pixel t of the mask when the scan of the fill has reached (fx, fy). */
  ghost predicate PixelAt(g: Rendered, t: int, value: Byte, fx: int, fy: int)
    requires Covered(g) && 0 <= t < |g.mask.pixels|
  {
    if Visited(g, t, fx, fy) then Readable(g, t) && value == Blended(g, t) else value == g.mask.pixels[t]
  }

  ghost predicate Progress(g: Rendered, now: Bytes, fx: int, fy: int) {
    && Covered(g) && |now| == |g.mask.pixels|
    && forall t | 0 <= t < |now| :: PixelAt(g, t, now[t], fx, fy)
  }

  lemma TargetPixel(g: Rendered, t: int, x: int, y: int)
    requires Covered(g) && 0 <= x < g.box.Width() && 0 <= y < g.box.Height() && 0 <= t < |g.mask.pixels|
    ensures 0 <= y * g.box.Width() + x < |g.mask.pixels|
    ensures t == y * g.box.Width() + x <==>
              FillX(g, t) == x + g.box.left - g.fillBox.left && FillY(g, t) == y + g.box.top - g.fillBox.top
  {
    CellInBounds(g.box.Width(), g.box.Height(), y, x);
    CellSplit(g.box.Width(), y, x);
    CoordinatesOf(g.box.Width(), g.box.Height(), t);
  }

  /** One turn of the inner loop over the fill. */
  lemma BlendStep(g: Rendered, now: Bytes, fx: int, fy: int)
    requires Progress(g, now, fx, fy) && 0 <= fx < g.fill.width && 0 <= fy < g.fill.height
    ensures var x, y := g.fillBox.left - g.box.left + fx, g.fillBox.top - g.box.top + fy;
            var source := fy * g.fill.width + fx;
            0 <= source &&
            if 0 <= x < g.box.Width() && 0 <= y < g.box.Height()
            then var target := y * g.box.Width() + x;
                 && 0 <= target < |now|
                 && if source < |g.fill.pixels|
                    then Progress(g, now[target := Max(now[target], g.fill.pixels[source])], fx + 1, fy)
                    else !Blendable(g)
            else Progress(g, now, fx + 1, fy)
  {
    hide Progress, Blendable;
    var x, y := g.fillBox.left - g.box.left + fx, g.fillBox.top - g.box.top + fy;
    CellInBounds(g.fill.width, g.fill.height, fy, fx);
    if 0 <= x < g.box.Width() && 0 <= y < g.box.Height() {
      TargetReads(g, now, fx, fy, x, y);
      if fy * g.fill.width + fx < |g.fill.pixels| {
        BlendInside(g, now, fx, fy, x, y);
      }
    } else {
      BlendOutside(g, now, fx, fy, x, y);
    }
  }

  lemma TargetReads(g: Rendered, now: Bytes, fx: int, fy: int, x: int, y: int)
    requires Progress(g, now, fx, fy) && 0 <= fx < g.fill.width && 0 <= fy < g.fill.height
    requires x == g.fillBox.left - g.box.left + fx && y == g.fillBox.top - g.box.top + fy
    requires 0 <= x < g.box.Width() && 0 <= y < g.box.Height()
    ensures var target := y * g.box.Width() + x;
            && 0 <= target < |now| && Overlaid(g, target) && Source(g, target) == fy * g.fill.width + fx
            && !Visited(g, target, fx, fy)
            && (|g.fill.pixels| <= fy * g.fill.width + fx ==> !Blendable(g))
  {
    hide FillX, FillY;
    var target := y * g.box.Width() + x;
    CellInBounds(g.box.Width(), g.box.Height(), y, x);
    TargetPixel(g, target, x, y);
    assert Readable(g, target) <==> fy * g.fill.width + fx < |g.fill.pixels|;
  }

  lemma BlendInside(g: Rendered, now: Bytes, fx: int, fy: int, x: int, y: int)
    requires Progress(g, now, fx, fy) && 0 <= fx < g.fill.width && 0 <= fy < g.fill.height
    requires x == g.fillBox.left - g.box.left + fx && y == g.fillBox.top - g.box.top + fy
    requires 0 <= x < g.box.Width() && 0 <= y < g.box.Height()
    requires 0 <= y * g.box.Width() + x < |now| && 0 <= fy * g.fill.width + fx < |g.fill.pixels|
    ensures var target := y * g.box.Width() + x;
            Progress(g, now[target := Max(now[target], g.fill.pixels[fy * g.fill.width + fx])], fx + 1, fy)
  {
    hide FillX, FillY;
    var target := y * g.box.Width() + x;
    var next := now[target := Max(now[target], g.fill.pixels[fy * g.fill.width + fx])];
    TargetReads(g, now, fx, fy, x, y);
    forall t | 0 <= t < |next| ensures PixelAt(g, t, next[t], fx + 1, fy) {
      TargetPixel(g, t, x, y);
      assert PixelAt(g, t, now[t], fx, fy);
    }
  }

  lemma BlendOutside(g: Rendered, now: Bytes, fx: int, fy: int, x: int, y: int)
    requires Progress(g, now, fx, fy) && 0 <= fx < g.fill.width && 0 <= fy < g.fill.height
    requires x == g.fillBox.left - g.box.left + fx && y == g.fillBox.top - g.box.top + fy
    requires !(0 <= x < g.box.Width() && 0 <= y < g.box.Height())
    ensures Progress(g, now, fx + 1, fy)
  {
    hide Blended, Readable;
    forall t | 0 <= t < |now| ensures PixelAt(g, t, now[t], fx + 1, fy) {
      CoordinatesOf(g.box.Width(), g.box.Height(), t);
      assert PixelAt(g, t, now[t], fx, fy);
    }
  }

  lemma BlendRow(g: Rendered, now: Bytes, fy: int)
    requires Progress(g, now, g.fill.width, fy)
    ensures Progress(g, now, 0, fy + 1)
  {
    hide FillX, FillY, Source;
    forall t | 0 <= t < |now| ensures PixelAt(g, t, now[t], 0, fy + 1) {
      CoordinatesOf(g.box.Width(), g.box.Height(), t);
      assert PixelAt(g, t, now[t], g.fill.width, fy);
    }
  }

  lemma BlendStart(g: Rendered)
    requires Covered(g)
    ensures Progress(g, g.mask.pixels, 0, 0)
  {
    hide FillX, FillY, Source;
  }

  lemma BlendDone(g: Rendered, now: Bytes)
    requires Progress(g, now, 0, g.fill.height)
    ensures Blendable(g) && now == BlendedMask(g)
  {
    hide FillX, FillY, Source;
    forall t | 0 <= t < |now| ensures Readable(g, t) && now[t] == Blended(g, t) {
      CoordinatesOf(g.box.Width(), g.box.Height(), t);
      assert PixelAt(g, t, now[t], 0, g.fill.height);
    }
  }

  /** Lays the plain glyph over its stroked mask in place; fails where it would
      read past the fill's buffer. */
  method BlendFill(g: Rendered, mask: array<Byte>) returns (ok: bool)
    requires Covered(g) && mask[..] == g.mask.pixels
    modifies mask
    ensures ok <==> Blendable(g)
    ensures ok ==> mask[..] == BlendedMask(g)
  {
    hide Covered, Blendable, Progress, BlendedMask;
    var offsetX, offsetY := g.fillBox.left - g.box.left, g.fillBox.top - g.box.top;
    BlendStart(g);
    for fy := 0 to g.fill.height
      invariant Progress(g, mask[..], 0, fy)
    {
      for fx := 0 to g.fill.width
        invariant Progress(g, mask[..], fx, fy)
      {
        var x, y := offsetX + fx, offsetY + fy;
        ghost var before := mask[..];
        BlendStep(g, mask[..], fx, fy);
        if 0 <= x < g.box.Width() && 0 <= y < g.box.Height() {
          var target, source := y * g.box.Width() + x, fy * g.fill.width + fx;
          if source >= |g.fill.pixels| {
            return false;
          }
          mask[target] := Max(mask[target], g.fill.pixels[source]);
          assert mask[..] == before[target := mask[target]];
        }
      }
      BlendRow(g, mask[..], fy);
    }
    BlendDone(g, mask[..]);
    return true;
  }

  // -------------------------------------------------------- one-pass writer

  const MAX_CODEPOINT := 0x10FFFF

  /** The checks make_atlas performs on one glyph before packing its record. */
  ghost predicate StrokeOk(g: Rendered, stroke: nat) {
    && g.cp <= MAX_CODEPOINT
    && g.mask.width == g.box.Width() <= 255 && g.mask.height == g.box.Height() <= 255
    && (stroke > 0 ==> g.fill.width == g.fillBox.Width() && g.fill.height == g.fillBox.Height() && Blendable(g))
    && |g.mask.pixels| == g.box.Width() * g.box.Height()
    && -32768 <= g.box.left <= 32767 && -32768 <= g.box.top <= 32767
    && g.length + 2 * stroke <= 32767
  }

  ghost function StrokedCell(g: Rendered, stroke: nat): Cell {
    Cell(g.cp, g.box.left, g.box.top, g.length + 2 * stroke, g.box.Width(), g.box.Height(),
         if stroke > 0 && Blendable(g) then BlendedMask(g) else g.mask.pixels)
  }

  ghost function StrokedCells(font: Font, stroke: nat): (cells: seq<Cell>)
    ensures |cells| == |font.glyphs|
  {
    seq(|font.glyphs|, i requires 0 <= i < |font.glyphs| => StrokedCell(font.glyphs[i], stroke))
  }

  ghost predicate MakeAccepts(font: Font, stroke: nat) {
    && font.ascent + font.descent + 2 * stroke <= 255
    && HeaderFits(font.ascent + stroke, font.descent + stroke, |font.glyphs|)
    && GlyphsAccepted(font, stroke)
  }

  /** One glyph of the loop: its checks, and its mask with the fill laid over it. */
  method LayOut(g: Rendered, stroke: nat) returns (cell: Result<Cell>)
    ensures cell == if StrokeOk(g, stroke) then Ok(StrokedCell(g, stroke)) else Err
  {
    hide BlendedMask, Blendable;
    var width, height := g.box.Width(), g.box.Height();
    if MAX_CODEPOINT < g.cp
    || g.mask.width != width || g.mask.height != height || width > 255 || height > 255
    || |g.mask.pixels| != width * height
    || (stroke > 0 && (g.fill.width != g.fillBox.Width() || g.fill.height != g.fillBox.Height())) {
      return Err;
    }
    var mask := g.mask.pixels;
    if stroke > 0 {
      var buffer := new Byte[|mask|](i requires 0 <= i < |mask| => mask[i]);
      assert buffer[..] == mask;
      var blended := BlendFill(g, buffer);
      if !blended {
        return Err;
      }
      mask := buffer[..];
    }
    if g.box.left < -32768 || g.box.top < -32768 || g.box.left > 32767 || g.box.top > 32767 {
      return Err;
    }
    var advance := g.length + 2 * stroke;
    if advance > 32767 {
      return Err;
    }
    return Ok(Cell(g.cp, g.box.left, g.box.top, advance, width, height, mask));
  }

  lemma RecordsStep(cells: seq<Cell>, n: nat)
    requires n < |cells| && AllFit(cells[..n])
    ensures AllFit(cells[..n + 1]) <==> RecordAt(cells, n).Fits()
    ensures RecordAt(cells, n).Fits() ==>
              Records(cells[..n + 1]) == Records(cells[..n]) + RecordBytes(RecordAt(cells, n))
    ensures Coverage(cells[..n + 1]) == Coverage(cells[..n]) + cells[n].Packed()
  {
    var more := cells[..n + 1];
    assert more[..n] == cells[..n];
    InitFits(more);
    CoverageStep(more);
  }

  ghost predicate GlyphsAccepted(font: Font, stroke: nat) {
    && (forall i | 0 <= i < |font.glyphs| :: StrokeOk(font.glyphs[i], stroke))
    && AllFit(StrokedCells(font, stroke))
  }

  lemma GlyphRefused(font: Font, stroke: nat, i: nat)
    requires i < |font.glyphs|
    requires !StrokeOk(font.glyphs[i], stroke) || !RecordAt(StrokedCells(font, stroke), i).Fits()
    ensures !GlyphsAccepted(font, stroke)
  {
  }

  /** One turn of the loop: the record and the packed coverage of one glyph. */
  method WriteGlyph(g: Rendered, stroke: nat, offset: nat, ghost cells: seq<Cell>, ghost i: nat)
    returns (step: Result<(Bytes, Bytes)>)
    requires i < |cells| && cells[i] == StrokedCell(g, stroke) && offset == |Coverage(cells[..i])|
    ensures step == if StrokeOk(g, stroke) && RecordAt(cells, i).Fits()
                    then Ok((RecordBytes(RecordAt(cells, i)), cells[i].Packed())) else Err
  {
    hide Coverage, RecordBytes, StrokeOk, StrokedCell, Greedy, Levels, Unpack;
    var cell := LayOut(g, stroke);
    if cell.Err? {
      return Err;
    }
    var record := cell.value.At(offset);
    if !record.Fits() {
      return Err;
    }
    var packed := PackedCoverage(cell.value.mask);
    return Ok((RecordBytes(record), packed));
  }

  /** The glyph loop: writes records and coverage side by side. */
  method WriteGlyphs(font: Font, stroke: nat) returns (ok: bool, records: Bytes, coverage: Bytes)
    ensures ok <==> GlyphsAccepted(font, stroke)
    ensures ok ==> records == Records(StrokedCells(font, stroke)) && coverage == Coverage(StrokedCells(font, stroke))
  {
    hide AllFit, Records, Coverage, RecordAt, RecordBytes, StrokeOk, StrokedCell, Greedy, Levels, Unpack;
    hide GlyphsAccepted;
    ghost var cells := StrokedCells(font, stroke);
    ok, records, coverage := false, [], [];
    NothingYet(cells);
    for i := 0 to |font.glyphs|
      invariant forall j | 0 <= j < i :: StrokeOk(font.glyphs[j], stroke)
      invariant AllFit(cells[..i])
      invariant records == Records(cells[..i]) && coverage == Coverage(cells[..i])
    {
      RecordsStep(cells, i);
      var step := WriteGlyph(font.glyphs[i], stroke, |coverage|, cells, i);
      if step.Err? {
        GlyphRefused(font, stroke, i);
        return;
      }
      records := records + step.value.0;
      coverage := coverage + step.value.1;
    }
    ok := true;
    GlyphsTaken(font, stroke);
  }

  lemma GlyphsTaken(font: Font, stroke: nat)
    requires forall i | 0 <= i < |font.glyphs| :: StrokeOk(font.glyphs[i], stroke)
    requires var cells := StrokedCells(font, stroke); AllFit(cells[..|cells|])
    ensures GlyphsAccepted(font, stroke)
    ensures var cells := StrokedCells(font, stroke); cells[..|cells|] == cells
  {
    assert var cells := StrokedCells(font, stroke); cells[..|cells|] == cells;
  }

  /** One pass over the glyphs, then the header in front. */
  method MakeAtlas(font: Font, stroke: nat) returns (r: Result<Bytes>)
    ensures r.Ok? <==> MakeAccepts(font, stroke)
    ensures r.Ok? ==> r.value == AtlasBytes(font.ascent + stroke, font.descent + stroke, StrokedCells(font, stroke))
  {
    hide AllFit, Records, Coverage, StrokeOk, StrokedCell;
    var ascent, descent := font.ascent + stroke, font.descent + stroke;
    if ascent + descent > 255 {
      return Err;
    }
    var ok, records, coverage := WriteGlyphs(font, stroke);
    if !ok || !HeaderFits(ascent, descent, |font.glyphs|) {
      return Err;
    }
    return Ok(Header(ascent, descent, |font.glyphs|) + records + coverage);
  }

  lemma RecordAtIs(cells: seq<Cell>, i: nat)
    requires i < |cells|
    ensures RecordAt(cells, i) == cells[i].At(|Coverage(cells[..i])|)
  {
  }

  lemma NothingYet(cells: seq<Cell>)
    ensures AllFit(cells[..0]) && Records(cells[..0]) == [] && Coverage(cells[..0]) == []
  {
  }

  lemma Misfit(cells: seq<Cell>, i: nat)
    requires i < |cells| && !RecordAt(cells, i).Fits()
    ensures !AllFit(cells)
  {
  }

  // -------------------------------------------------------- two-pass writer

  function PlainCell(g: Rendered): Cell {
    Cell(g.cp, g.box.left, g.box.top, g.length, g.mask.width, g.mask.height, g.mask.pixels)
  }

  ghost function PlainCells(font: Font): (cells: seq<Cell>)
    ensures |cells| == |font.glyphs|
  {
    seq(|font.glyphs|, i requires 0 <= i < |font.glyphs| => PlainCell(font.glyphs[i]))
  }

  predicate PlainOk(g: Rendered) {
    g.cp <= MAX_CODEPOINT && g.mask.width == g.box.Width() && g.mask.height == g.box.Height()
  }

  ghost predicate GenerateAccepts(font: Font) {
    && HeaderFits(font.ascent, font.descent, |font.glyphs|)
    && (forall i | 0 <= i < |font.glyphs| :: PlainOk(font.glyphs[i]))
    && AllFit(PlainCells(font))
  }

  /** First pass: glyph tuples with their offsets, and all pixels. */
  method CollectGlyphs(font: Font) returns (ok: bool, glyphs: seq<Record>, pixels: Bytes)
    ensures ok <==> forall i | 0 <= i < |font.glyphs| :: PlainOk(font.glyphs[i])
    ensures ok ==> |glyphs| == |font.glyphs| && pixels == Coverage(PlainCells(font))
    ensures ok ==> forall i | 0 <= i < |glyphs| :: glyphs[i] == RecordAt(PlainCells(font), i)
  {
    hide Coverage, RecordAt, Greedy, Levels, Unpack, PlainOk, PlainCell;
    ghost var cells := PlainCells(font);
    ok, glyphs, pixels := false, [], [];
    NothingYet(cells);
    for i := 0 to |font.glyphs|
      invariant forall j | 0 <= j < i :: PlainOk(font.glyphs[j])
      invariant |glyphs| == i && forall j | 0 <= j < i :: glyphs[j] == RecordAt(cells, j)
      invariant pixels == Coverage(cells[..i])
    {
      if !PlainOk(font.glyphs[i]) {
        return;
      }
      var cell := PlainCell(font.glyphs[i]);
      var packed := PackedCoverage(cell.mask);
      RecordAtIs(cells, i);
      CoverageSlice(cells, i);
      glyphs := glyphs + [cell.At(|pixels|)];
      pixels := pixels + packed;
    }
    assert cells[..|cells|] == cells;
    ok := true;
  }

  /** Second pass: the tuples become records. */
  method PackRecords(glyphs: seq<Record>, ghost cells: seq<Cell>) returns (r: Result<Bytes>)
    requires |glyphs| == |cells| && forall i | 0 <= i < |glyphs| :: glyphs[i] == RecordAt(cells, i)
    ensures r == if AllFit(cells) then Ok(Records(cells)) else Err
  {
    hide AllFit, Records, Coverage, RecordAt, RecordBytes;
    var records: Bytes := [];
    NothingYet(cells);
    for i := 0 to |glyphs|
      invariant AllFit(cells[..i]) && records == Records(cells[..i])
    {
      RecordsStep(cells, i);
      if !glyphs[i].Fits() {
        Misfit(cells, i);
        return Err;
      }
      records := records + RecordBytes(glyphs[i]);
    }
    assert cells[..|cells|] == cells;
    return Ok(records);
  }

  /** Collects all glyphs first and packs their records afterwards. */
  method Generate(font: Font) returns (r: Result<Bytes>)
    ensures r.Ok? <==> GenerateAccepts(font)
    ensures r.Ok? ==> r.value == AtlasBytes(font.ascent, font.descent, PlainCells(font))
  {
    hide AllFit, Records, Coverage, PlainOk, RecordAt;
    var ok, glyphs, pixels := CollectGlyphs(font);
    if !ok {
      return Err;
    }
    var records := PackRecords(glyphs, PlainCells(font));
    if records.Err? || !HeaderFits(font.ascent, font.descent, |glyphs|) {
      return Err;
    }
    return Ok(Header(font.ascent, font.descent, |glyphs|) + records.value + pixels);
  }

  // ------------------------------------------------------------- agreement

  /** Without a stroke the two writers lay out the same cells and so write the same
      bytes. make_atlas accepts exactly the fonts generate accepts whose line height
      fits one byte and whose masks are complete. */
  lemma WritersAgree(font: Font)
    ensures MakeAccepts(font, 0) <==>
              && GenerateAccepts(font) && font.ascent + font.descent <= 255
              && forall i | 0 <= i < |font.glyphs| :: Complete(PlainCell(font.glyphs[i]))
    ensures GenerateAccepts(font) ==> StrokedCells(font, 0) == PlainCells(font)
    ensures MakeAccepts(font, 0) ==>
              AtlasBytes(font.ascent + 0, font.descent + 0, StrokedCells(font, 0))
              == AtlasBytes(font.ascent, font.descent, PlainCells(font))
  {
    hide AllFit;
    if forall i | 0 <= i < |font.glyphs| :: PlainOk(font.glyphs[i]) {
      assert StrokedCells(font, 0) == PlainCells(font);
      if AllFit(PlainCells(font)) {
        forall i | 0 <= i < |font.glyphs|
          ensures StrokeOk(font.glyphs[i], 0) <==> Complete(PlainCell(font.glyphs[i]))
        {
          FitsAt(PlainCells(font), i);
        }
      }
    }
    if forall i | 0 <= i < |font.glyphs| :: StrokeOk(font.glyphs[i], 0) {
      assert forall i | 0 <= i < |font.glyphs| :: PlainOk(font.glyphs[i]);
    }
  }

  lemma FitsAt(cells: seq<Cell>, i: nat)
    requires i < |cells| && AllFit(cells)
    ensures cells[i].At(0).Fits()
  {
    assert RecordAt(cells, i).Fits();
  }

  /** One pixel of full coverage. */
  ghost function Dot(cp: nat): Rendered {
    Rendered(cp, Box(0, 0, 1, 1), Bitmap(1, 1, [255]), 1, Box(0, 0, 1, 1), Bitmap(1, 1, [255]))
  }

  /** A line height of 300 pixels, and a dot for the space character. */
  ghost function TallFont(): Font {
    Font(200, 100, [Dot(0x20)])
  }

  /** A font whose line height exceeds one byte: generate writes it, make_atlas does not. */
  lemma TallFontDisagreement()
    ensures GenerateAccepts(TallFont()) && !MakeAccepts(TallFont(), 0)
  {
    hide AllFit, GlyphsAccepted, RecordAt, Coverage, PlainCells;
    DotFits(TallFont());
  }

  lemma DotFits(font: Font)
    requires font.glyphs == [Dot(0x20)]
    ensures AllFit(PlainCells(font))
  {
    hide Coverage, RecordAt;
    var cells := PlainCells(font);
    NothingYet(cells);
    RecordAtIs(cells, 0);
    assert RecordAt(cells, 0) == Record(0x20, 0, 0, 1, 1, 1, 0);
  }

  /** The level at pixel t of a glyph's box is the nearest to the brighter of the
      stroked mask and, with a stroke, the plain bitmap where that covers the pixel. */
  ghost predicate Shows(g: Rendered, stroke: nat, t: int, level: int) {
    var width := g.box.right - g.box.left;
    && width > 0 && 0 <= t < |g.mask.pixels|
    && var x, y := t % width + g.box.left - g.fillBox.left, t / width + g.box.top - g.fillBox.top;
       var source := y * g.fill.width + x;
       var covered := stroke > 0 && 0 <= x < g.fill.width && 0 <= y < g.fill.height;
       && (covered ==> 0 <= source < |g.fill.pixels|)
       && var coverage := if covered
         && g.fill.pixels[source] > g.mask.pixels[t] then g.fill.pixels[source] else g.mask.pixels[t];
          -42 <= 85 * level - coverage <= 42
  }

  /** What a reader should find for glyph g. */
  ghost predicate Read(g: Rendered, stroke: nat, p: Glyph) {
    && p.record.cp == g.cp && p.record.left == g.box.left && p.record.top == g.box.top
    && p.record.advance == g.length + 2 * stroke
    && p.record.width == g.box.right - g.box.left && p.record.height == g.box.bottom - g.box.top
    && |p.levels| == |g.mask.pixels| == p.record.width * p.record.height
    && forall t | 0 <= t < |p.levels| :: Shows(g, stroke, t, p.levels[t])
  }

  lemma PixelShows(g: Rendered, stroke: nat, t: int)
    requires StrokeOk(g, stroke) && 0 <= t < |g.mask.pixels|
    ensures t < |Levels(StrokedCell(g, stroke).mask)| && Shows(g, stroke, t, Levels(StrokedCell(g, stroke).mask)[t])
  {
    CoordinatesOf(g.box.Width(), g.box.Height(), t);
    if stroke > 0 {
      assert Readable(g, t);
      assert BlendedMask(g)[t] == Blended(g, t);
    }
  }

  lemma GlyphRead(font: Font, stroke: nat, i: nat)
    requires i < |font.glyphs| && StrokeOk(font.glyphs[i], stroke)
    ensures Read(font.glyphs[i], stroke, Expected(StrokedCells(font, stroke), i))
  {
    hide Shows, Levels, Coverage, BlendedMask;
    var g, p := font.glyphs[i], Expected(StrokedCells(font, stroke), i);
    forall t | 0 <= t < |p.levels| ensures Shows(g, stroke, t, p.levels[t]) {
      PixelShows(g, stroke, t);
    }
  }

  /** Whatever make_atlas writes, a reader recovers every record and every quantised pixel from it. */
  lemma WrittenAtlasReads(font: Font, stroke: nat)
    requires MakeAccepts(font, stroke)
    ensures var read := ParseAtlas(AtlasBytes(font.ascent + stroke, font.descent + stroke, StrokedCells(font, stroke)));
            && read.Ok? && read.value.ascent == font.ascent + stroke && read.value.descent == font.descent + stroke
            && |read.value.glyphs| == |font.glyphs|
            && forall i | 0 <= i < |font.glyphs| :: Read(font.glyphs[i], stroke, read.value.glyphs[i])
  {
    hide AllFit, ParseAtlas, AtlasBytes, Expected, BlendedMask, Read;
    var cells := StrokedCells(font, stroke);
    forall i | 0 <= i < |cells| ensures Complete(cells[i]) {
      assert font.glyphs[i] in font.glyphs && StrokeOk(font.glyphs[i], stroke);
    }
    AtlasRoundTrip(font.ascent + stroke, font.descent + stroke, cells);
    forall i | 0 <= i < |font.glyphs| ensures Read(font.glyphs[i], stroke, Expected(cells, i)) {
      GlyphRead(font, stroke, i);
    }
  }
}
