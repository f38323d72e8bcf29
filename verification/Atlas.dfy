/** The R8LA v2 glyph atlas: its byte layout, a reader, and the round trip. */
module Atlas {
  import opened Bytes
  import opened Outcomes
  import opened RunLength

  const MAGIC: Bytes := [82, 56, 76, 65, 2, 1]  // "R8LA", version 2, RLE2 flag
  const HEADER := 10
  const RECORD := 16

  // -------------------------------------------------------- what a font gives

  datatype Box = Box(left: int, top: int, right: int, bottom: int) {
    function Width(): int { right - left }
    function Height(): int { bottom - top }
  }

  datatype Bitmap = Bitmap(width: nat, height: nat, pixels: Bytes)

  /** One rasterised character: stroked and plain bounding box and mask, and the rounded advance. */
  datatype Rendered = Rendered(cp: nat, box: Box, mask: Bitmap, length: int, fillBox: Box, fill: Bitmap)

  datatype Font = Font(ascent: int, descent: int, glyphs: seq<Rendered>)

  // -------------------------------------------------------------- the layout

  datatype Record = Record(cp: int, left: int, top: int, advance: int, width: int, height: int, offset: int) {
    /** What struct.pack("<IhhhBBI") accepts. */
    predicate Fits() {
      && 0 <= cp < 0x1_0000_0000
      && -32768 <= left <= 32767 && -32768 <= top <= 32767 && -32768 <= advance <= 32767
      && 0 <= width < 256 && 0 <= height < 256
      && 0 <= offset < 0x1_0000_0000
    }
  }

  function RecordBytes(r: Record): (b: Bytes)
    requires r.Fits()
    ensures |b| == RECORD
  {
    LE(r.cp, 4) + SignedLE16(r.left) + SignedLE16(r.top) + SignedLE16(r.advance) + [r.width, r.height] + LE(r.offset, 4)
  }

  function ParseRecord(b: Bytes): Record
    requires |b| == RECORD
  {
    Record(FromLE(b[..4]), FromSignedLE16(b[4..6]), FromSignedLE16(b[6..8]), FromSignedLE16(b[8..10]),
           b[10], b[11], FromLE(b[12..]))
  }

  lemma RecordRoundTrip(r: Record)
    requires r.Fits()
    ensures ParseRecord(RecordBytes(r)) == r
  {
    hide LE, FromLE, SignedLE16, FromSignedLE16, Limit;
    Limits();
    ReadLE(r.cp, 4);
    ReadLE(r.offset, 4);
    ReadSignedLE16(r.left);
    ReadSignedLE16(r.top);
    ReadSignedLE16(r.advance);
    var b := RecordBytes(r);
    assert b[..4] == LE(r.cp, 4) && b[4..6] == SignedLE16(r.left) && b[6..8] == SignedLE16(r.top);
    assert b[8..10] == SignedLE16(r.advance) && b[12..] == LE(r.offset, 4);
  }

  /** The sixteen bytes of a record, one by one; signed fields in two's complement. */
  lemma RecordLayout(r: Record)
    requires r.Fits()
    ensures RecordBytes(r)
         == [r.cp % 256, r.cp / 256 % 256, r.cp / 65536 % 256, r.cp / 16777216 % 256,
             r.left % 256, r.left / 256 % 256, r.top % 256, r.top / 256 % 256,
             r.advance % 256, r.advance / 256 % 256, r.width, r.height,
             r.offset % 256, r.offset / 256 % 256, r.offset / 65536 % 256, r.offset / 16777216 % 256]
  {
    hide LE, SignedLE16;
    LittleEndian(r.cp);
    LittleEndian(r.offset);
    SignedLittleEndian(r.left);
    SignedLittleEndian(r.top);
    SignedLittleEndian(r.advance);
  }

  lemma SignedLittleEndian(v: int)
    requires -32768 <= v <= 32767
    ensures SignedLE16(v) == [v % 256, v / 256 % 256]
  {
    LittleEndian(if v < 0 then v + 65536 else v);
  }

  /** A glyph as an atlas stores it, before its coverage is packed. */
  datatype Cell = Cell(cp: int, left: int, top: int, advance: int, width: int, height: int, mask: Bytes) {
    ghost function Packed(): Bytes {
      Greedy(Levels(mask))
    }

    function At(offset: int): Record {
      Record(cp, left, top, advance, width, height, offset)
    }
  }

  ghost function Coverage(cells: seq<Cell>): Bytes {
    if cells == [] then [] else Coverage(cells[..|cells| - 1]) + cells[|cells| - 1].Packed()
  }

  ghost function RecordAt(cells: seq<Cell>, i: nat): Record
    requires i < |cells|
  {
    cells[i].At(|Coverage(cells[..i])|)
  }

  ghost predicate AllFit(cells: seq<Cell>) {
    forall i | 0 <= i < |cells| :: RecordAt(cells, i).Fits()
  }

  ghost function Records(cells: seq<Cell>): (b: Bytes)
    requires AllFit(cells)
    ensures |b| == RECORD * |cells|
  {
    if cells == [] then [] else
      var init := cells[..|cells| - 1];
      InitFits(cells);
      Records(init) + RecordBytes(RecordAt(cells, |cells| - 1))
  }

  lemma InitFits(cells: seq<Cell>)
    requires cells != []
    ensures AllFit(cells) <==> AllFit(cells[..|cells| - 1]) && RecordAt(cells, |cells| - 1).Fits()
  {
    var init := cells[..|cells| - 1];
    forall i | 0 <= i < |init| ensures RecordAt(init, i) == RecordAt(cells, i) {
      assert init[..i] == cells[..i];
    }
  }

  predicate HeaderFits(ascent: int, descent: int, count: nat) {
    0 <= ascent < 256 && 0 <= descent < 256 && count < 0x1_0000
  }

  function Header(ascent: int, descent: int, count: nat): (b: Bytes)
    requires HeaderFits(ascent, descent, count)
    ensures |b| == HEADER
  {
    MAGIC + LE(count, 2) + [ascent, descent]
  }

  /** "R8LA", version 2, run-length flag, glyph count, ascent, descent. */
  lemma HeaderLayout(ascent: int, descent: int, count: nat)
    requires HeaderFits(ascent, descent, count)
    ensures Header(ascent, descent, count) == [82, 56, 76, 65, 2, 1, count % 256, count / 256, ascent, descent]
  {
    LittleEndian(count);
  }

  ghost function AtlasBytes(ascent: int, descent: int, cells: seq<Cell>): Bytes
    requires HeaderFits(ascent, descent, |cells|) && AllFit(cells)
  {
    Header(ascent, descent, |cells|) + Records(cells) + Coverage(cells)
  }

  /** A ten-byte header, sixteen bytes per glyph, then the coverage of all glyphs. */
  lemma AtlasLayout(ascent: int, descent: int, cells: seq<Cell>, i: nat)
    requires HeaderFits(ascent, descent, |cells|) && AllFit(cells) && i < |cells|
    ensures var data := AtlasBytes(ascent, descent, cells);
            && 26 + 16 * i <= 10 + 16 * |cells| <= |data|
            && data[..10] == Header(ascent, descent, |cells|)
            && data[10 + 16 * i..26 + 16 * i] == RecordBytes(RecordAt(cells, i))
            && data[10 + 16 * |cells|..] == Coverage(cells)
  {
    hide RecordBytes, Coverage, Records, RecordAt, Header;
    RecordSlice(cells, i);
    var data, lo := AtlasBytes(ascent, descent, cells), 16 * i;
    assert data[10 + lo..26 + lo] == Records(cells)[lo..lo + 16];
  }

  // -------------------------------------------------------------- the reader

  /** A glyph read back: its record, its pixels, and the coverage offset just past them. */
  datatype Glyph = Glyph(record: Record, levels: seq<Level>, end: nat)

  datatype Parsed = Parsed(ascent: int, descent: int, glyphs: seq<Glyph>)

  function ReadGlyph(data: Bytes, base: nat, i: nat): Result<Glyph>
    requires HEADER + RECORD * i + RECORD <= base <= |data|
  {
    var record := ParseRecord(data[HEADER + RECORD * i..HEADER + RECORD * i + RECORD]);
    if |data| - base < record.offset || record.offset < 0 then Err else
      var coverage := data[base + record.offset..];
      match Consumed(coverage, record.width * record.height)
      case Err => Err
      case Ok(n) => if |coverage| < n then Err else Ok(Glyph(record, Unpack(coverage[..n]), record.offset + n))
  }

  function ReadGlyphs(data: Bytes, base: nat, n: nat): Result<seq<Glyph>>
    requires HEADER + RECORD * n <= base <= |data|
  {
    if n == 0 then Ok([]) else
      match ReadGlyphs(data, base, n - 1)
      case Err => Err
      case Ok(glyphs) =>
        match ReadGlyph(data, base, n - 1)
        case Err => Err
        case Ok(g) => Ok(glyphs + [g])
  }

  function ParseAtlas(data: Bytes): Result<Parsed> {
    if |data| < HEADER || data[..6] != MAGIC then Err else
      var count := FromLE(data[6..8]);
      var base := HEADER + RECORD * count;
      if |data| < base then Err else
        match ReadGlyphs(data, base, count)
        case Err => Err
        case Ok(glyphs) => Ok(Parsed(data[8], data[9], glyphs))
  }

  // -------------------------------------------------------------- round trip

  lemma {:induction false} CoverageSlice(cells: seq<Cell>, i: nat)
    requires i < |cells|
    ensures Coverage(cells[..i]) + cells[i].Packed() == Coverage(cells[..i + 1])
    ensures Coverage(cells[..i + 1]) <= Coverage(cells)
    decreases |cells|
  {
    hide *;
    CoverageStep(cells[..i + 1]);
    assert cells[..i + 1][..i] == cells[..i];
    if i + 1 < |cells| {
      var init := cells[..|cells| - 1];
      CoverageSlice(init, i);
      CoverageStep(cells);
      assert init[..i + 1] == cells[..i + 1];
    } else {
      assert cells[..i + 1] == cells;
    }
  }

  lemma CoverageStep(cells: seq<Cell>)
    requires cells != []
    ensures Coverage(cells) == Coverage(cells[..|cells| - 1]) + cells[|cells| - 1].Packed()
  {
  }

  lemma {:induction false} RecordSlice(cells: seq<Cell>, i: nat)
    requires i < |cells| && AllFit(cells)
    ensures Records(cells)[RECORD * i..RECORD * i + RECORD] == RecordBytes(RecordAt(cells, i))
    decreases |cells|
  {
    hide RecordBytes, Coverage;
    var init := cells[..|cells| - 1];
    InitFits(cells);
    if i < |init| {
      RecordSlice(init, i);
      assert init[..i] == cells[..i];
      assert Records(cells)[RECORD * i..RECORD * i + RECORD] == Records(init)[RECORD * i..RECORD * i + RECORD];
    }
  }

  /** What a reader should see of cell i. */
  ghost function Expected(cells: seq<Cell>, i: nat): Glyph
    requires i < |cells|
  {
    Glyph(RecordAt(cells, i), Levels(cells[i].mask), |Coverage(cells[..i + 1])|)
  }

  ghost predicate Complete(c: Cell) {
    |c.mask| == c.width * c.height
  }

  lemma GlyphRoundTrip(ascent: int, descent: int, cells: seq<Cell>, i: nat)
    requires HeaderFits(ascent, descent, |cells|) && AllFit(cells) && i < |cells| && Complete(cells[i])
    ensures var data := AtlasBytes(ascent, descent, cells);
            ReadGlyph(data, HEADER + RECORD * |cells|, i) == Ok(Expected(cells, i))
  {
    hide RecordBytes, ParseRecord, Coverage, Records, Header, Consumed, Unpack, Greedy, Levels;
    var data, base := AtlasBytes(ascent, descent, cells), HEADER + RECORD * |cells|;
    var record, offset, packed := RecordAt(cells, i), |Coverage(cells[..i])|, cells[i].Packed();
    RecordSlice(cells, i);
    assert data[HEADER + RECORD * i..HEADER + RECORD * i + RECORD] == Records(cells)[RECORD * i..RECORD * i + RECORD];
    RecordRoundTrip(record);
    CoverageSlice(cells, i);
    var all := Coverage(cells);
    var rest := all[offset + |packed|..];
    assert data[base + offset..] == all[offset..];
    assert all[offset..] == packed + rest;
    GreedyUnpacks(Levels(cells[i].mask));
    ConsumedExactly(packed, rest);
    assert (packed + rest)[..|packed|] == packed;
  }

  ghost function ExpectedGlyphs(cells: seq<Cell>, n: nat): (glyphs: seq<Glyph>)
    requires n <= |cells|
    ensures |glyphs| == n && forall i | 0 <= i < n :: glyphs[i] == Expected(cells, i)
  {
    seq(n, i requires 0 <= i < n => Expected(cells, i))
  }

  lemma {:induction false} GlyphsRoundTrip(ascent: int, descent: int, cells: seq<Cell>, n: nat)
    requires HeaderFits(ascent, descent, |cells|) && AllFit(cells) && n <= |cells|
    requires forall i | 0 <= i < |cells| :: Complete(cells[i])
    ensures ReadGlyphs(AtlasBytes(ascent, descent, cells), HEADER + RECORD * |cells|, n)
         == Ok(ExpectedGlyphs(cells, n))
  {
    hide AllFit, Expected, ExpectedGlyphs, Complete, AtlasBytes, ReadGlyph, HeaderFits;
    BytesLength(ascent, descent, cells);
    if n > 0 {
      GlyphsRoundTrip(ascent, descent, cells, n - 1);
      GlyphRoundTrip(ascent, descent, cells, n - 1);
      assert ExpectedGlyphs(cells, n) == ExpectedGlyphs(cells, n - 1) + [Expected(cells, n - 1)];
    } else {
      assert ExpectedGlyphs(cells, n) == [];
    }
  }

  lemma BytesLength(ascent: int, descent: int, cells: seq<Cell>)
    requires HeaderFits(ascent, descent, |cells|) && AllFit(cells)
    ensures HEADER + RECORD * |cells| <= |AtlasBytes(ascent, descent, cells)|
  {
  }

  /** Parsing an atlas recovers every record and every glyph's pixels, and each
      glyph's coverage ends exactly where the next one's begins. */
  lemma AtlasRoundTrip(ascent: int, descent: int, cells: seq<Cell>)
    requires HeaderFits(ascent, descent, |cells|) && AllFit(cells)
    requires forall i | 0 <= i < |cells| :: Complete(cells[i])
    ensures ParseAtlas(AtlasBytes(ascent, descent, cells))
         == Ok(Parsed(ascent, descent, ExpectedGlyphs(cells, |cells|)))
    ensures forall i | 0 <= i < |cells| - 1 :: Expected(cells, i).end == Expected(cells, i + 1).record.offset
    ensures cells != [] ==> Expected(cells, |cells| - 1).end == |Coverage(cells)|
  {
    hide LE, FromLE, Records, Coverage, ReadGlyphs, Limit, RecordAt, Levels, Complete, AllFit;
    var data := AtlasBytes(ascent, descent, cells);
    Limits();
    ReadLE(|cells|, 2);
    assert data[..6] == MAGIC && data[6..8] == LE(|cells|, 2) && data[8] == ascent && data[9] == descent;
    GlyphsRoundTrip(ascent, descent, cells, |cells|);
    assert cells[..|cells|] == cells;
    forall i | 0 <= i < |cells| - 1 ensures Expected(cells, i).end == Expected(cells, i + 1).record.offset {
      EndMeetsNext(cells, i);
    }
  }

  lemma EndMeetsNext(cells: seq<Cell>, i: nat)
    requires i + 1 < |cells|
    ensures Expected(cells, i).end == Expected(cells, i + 1).record.offset
  {
  }
}
