/** The grayscale PNG encoder of the comic fixture, and a reader for its chunks. */
module ComicPng {
  import opened Bytes
  import opened Outcomes

  const SIGNATURE: Bytes := [0x89, 0x50, 0x4E, 0x47, 0x0D, 0x0A, 0x1A, 0x0A]
  const IHDR: Bytes := [73, 72, 68, 82]
  const IDAT: Bytes := [73, 68, 65, 84]
  const IEND: Bytes := [73, 69, 78, 68]

  /** zlib streams and CRC-32. */
  datatype Zlib = Zlib(compress: Bytes -> Bytes, decompress: Bytes -> Result<Bytes>, crc: Bytes -> nat) {
    ghost predicate Lawful() {
      && (forall data :: decompress(compress(data)) == Ok(data))
      && (forall data :: crc(data) < 0x1_0000_0000)
    }
  }

  // ----------------------------------------------------------------- writer

  /** Length, type, data, and the CRC of type and data; the CRC leaves the length out. */
  function Chunk(z: Zlib, tag: Bytes, data: Bytes): (b: Bytes)
    ensures |b| == 4 + |tag| + |data| + 4
  {
    BE(|data|, 4) + tag + data + BE(z.crc(tag + data), 4)
  }

  function Ihdr(width: nat, height: nat): (b: Bytes)
    ensures |b| == 13
  {
    BE(width, 4) + BE(height, 4) + [8, 0, 0, 0, 0]
  }

  function Least(a: nat, b: nat): nat {
    if a < b then a else b
  }

  /** Each scanline behind a filter byte of 0; a short buffer gives short scanlines. */
  ghost function Scanlines(gray: Bytes, width: nat, rows: nat): (raw: Bytes)
    ensures |raw| == rows + Least(width * rows, |gray|)
    decreases rows
  {
    if rows == 0 then [] else
      RowFits(width, rows);
      Scanlines(gray, width, rows - 1) + [0] + Slice(gray, width * (rows - 1), width * rows)
  }

  /** Line y of a full canvas: behind the lines above it its filter byte, then its pixels. */
  lemma {:induction false} ScanlineAt(gray: Bytes, width: nat, rows: nat, y: nat)
    requires y < rows && width * rows <= |gray|
    ensures var above, start := Scanlines(gray, width, y), width * y;
            && |above| == (width + 1) * y && 0 <= start && start + width <= |gray|
            && above + [0] + gray[start..start + width] <= Scanlines(gray, width, rows)
    decreases rows
  {
    ScanlineStep(gray, width, rows);
    hide Scanlines;
    if y < rows - 1 {
      ScanlineAt(gray, width, rows - 1, y);
    }
  }

  lemma ScanlineStep(gray: Bytes, width: nat, rows: nat)
    requires 0 < rows && width * rows <= |gray|
    ensures var above, start := Scanlines(gray, width, rows - 1), width * (rows - 1);
            && 0 <= start && start + width == width * rows && |above| == (width + 1) * (rows - 1)
            && Scanlines(gray, width, rows) == above + [0] + gray[start..start + width]
  {
    RowFits(width, rows);
    assert (width + 1) * (rows - 1) == rows - 1 + width * (rows - 1);
  }

  /** Width, height, eight bits, grayscale, and zero for the three methods. */
  lemma IhdrLayout(width: nat, height: nat)
    ensures Ihdr(width, height)
         == [width / 16777216 % 256, width / 65536 % 256, width / 256 % 256, width % 256,
             height / 16777216 % 256, height / 65536 % 256, height / 256 % 256, height % 256, 8, 0, 0, 0, 0]
  {
    hide BE;
    BigEndian4(width);
    BigEndian4(height);
  }

  lemma RowFits(width: nat, rows: nat)
    requires rows > 0
    ensures 0 <= width * (rows - 1) && width * (rows - 1) + width == width * rows
    ensures (width + 1) * (rows - 1) + width + 1 == (width + 1) * rows
  {
  }

  ghost function PngBytes(z: Zlib, width: nat, height: nat, gray: Bytes): Bytes {
    SIGNATURE + Chunk(z, IHDR, Ihdr(width, height))
    + Chunk(z, IDAT, z.compress(Scanlines(gray, width, height))) + Chunk(z, IEND, [])
  }

  /** Every number that the file stores in four bytes. */
  ghost predicate Encodable(z: Zlib, width: nat, height: nat, gray: Bytes) {
    && width < 0x1_0000_0000 && height < 0x1_0000_0000
    && |z.compress(Scanlines(gray, width, height))| < 0x1_0000_0000
  }

  /** Encodes a canvas; fails when a dimension or the compressed stream exceeds its field. */
  method EncodePng(z: Zlib, width: nat, height: nat, gray: Bytes) returns (r: Result<Bytes>)
    ensures r == if Encodable(z, width, height, gray) then Ok(PngBytes(z, width, height, gray)) else Err
  {
    hide Chunk, Ihdr;
    if width >= 0x1_0000_0000 || height >= 0x1_0000_0000 {
      return Err;
    }
    var raw: Bytes := [];
    for y := 0 to height
      invariant raw == Scanlines(gray, width, y)
    {
      RowFits(width, y + 1);
      raw := raw + [0] + Slice(gray, y * width, (y + 1) * width);
    }
    var idat := z.compress(raw);
    if |idat| >= 0x1_0000_0000 {
      return Err;
    }
    return Ok(SIGNATURE + Chunk(z, IHDR, Ihdr(width, height)) + Chunk(z, IDAT, idat) + Chunk(z, IEND, []));
  }

  // ----------------------------------------------------------------- reader

  /** The data of the chunk at pos, if it has the given type and a matching CRC, and the position past it. */
  function ReadChunk(z: Zlib, file: Bytes, pos: nat, tag: Bytes): Result<(Bytes, nat)>
    requires |tag| == 4
  {
    if |file| < pos + 12 then Err else
      var n := FromBE(file[pos..pos + 4]);
      if |file| < pos + 12 + n then Err
      else if file[pos + 4..pos + 8] != tag then Err
      else
        var data := file[pos + 8..pos + 8 + n];
        if FromBE(file[pos + 8 + n..pos + 12 + n]) != z.crc(tag + data) then Err else Ok((data, pos + 12 + n))
  }

  /** Strips the filter byte of every scanline; only filter 0 is understood. */
  function Unfilter(raw: Bytes, width: nat, rows: nat): Result<Bytes>
    requires |raw| == (width + 1) * rows
    decreases rows
  {
    if rows == 0 then Ok([]) else
      RowFits(width, rows);
      var at := (width + 1) * (rows - 1);
      if raw[at] != 0 then Err else
        match Unfilter(raw[..at], width, rows - 1)
        case Err => Err
        case Ok(above) => Ok(above + raw[at + 1..])
  }

  datatype Image = Image(width: nat, height: nat, gray: Bytes)

  function ReadPng(z: Zlib, file: Bytes): Result<Image> {
    if |file| < 8 || file[..8] != SIGNATURE then Err else
      match ReadChunk(z, file, 8, IHDR)
      case Err => Err
      case Ok((ihdr, atIdat)) =>
        if |ihdr| != 13 || ihdr[8..] != [8, 0, 0, 0, 0] then Err else
          match ReadChunk(z, file, atIdat, IDAT)
          case Err => Err
          case Ok((idat, atIend)) =>
            var width, height := FromBE(ihdr[..4]), FromBE(ihdr[4..8]);
            if ReadChunk(z, file, atIend, IEND) != Ok(([], |file|)) then Err else
              match z.decompress(idat)
              case Err => Err
              case Ok(raw) =>
                if |raw| != (width + 1) * height then Err else
                  match Unfilter(raw, width, height)
                  case Err => Err
                  case Ok(gray) => Ok(Image(width, height, gray))
  }

  // -------------------------------------------------------------- round trip

  /** The file written out: the signature, and three chunks of length, type, data and CRC. */
  lemma PngLayout(z: Zlib, width: nat, height: nat, gray: Bytes)
    ensures var ihdr, idat := Ihdr(width, height), z.compress(Scanlines(gray, width, height));
            PngBytes(z, width, height, gray)
            == [137, 80, 78, 71, 13, 10, 26, 10]
             + (BE(13, 4) + [73, 72, 68, 82] + ihdr + BE(z.crc([73, 72, 68, 82] + ihdr), 4))
             + (BE(|idat|, 4) + [73, 68, 65, 84] + idat + BE(z.crc([73, 68, 65, 84] + idat), 4))
             + (BE(0, 4) + [73, 69, 78, 68] + [] + BE(z.crc([73, 69, 78, 68] + []), 4))
  {
    hide BE, Ihdr, Scanlines;
  }

  lemma ChunkReads(z: Zlib, before: Bytes, tag: Bytes, data: Bytes, after: Bytes)
    requires z.Lawful() && |tag| == 4 && |data| < 0x1_0000_0000
    ensures ReadChunk(z, before + Chunk(z, tag, data) + after, |before|, tag)
         == Ok((data, |before| + |Chunk(z, tag, data)|))
  {
    hide BE, FromBE, Limit;
    Limits();
    ReadBE(|data|, 4);
    ReadBE(z.crc(tag + data), 4);
    var file, pos, n := before + Chunk(z, tag, data) + after, |before|, |data|;
    assert file[pos..pos + 4] == BE(n, 4);
    assert file[pos + 4..pos + 8] == tag && file[pos + 8..pos + 8 + n] == data;
    assert file[pos + 8 + n..pos + 12 + n] == BE(z.crc(tag + data), 4);
  }

  lemma {:induction false} UnfilterScanlines(gray: Bytes, width: nat, rows: nat)
    requires width * rows <= |gray|
    ensures Unfilter(Scanlines(gray, width, rows), width, rows) == Ok(gray[..width * rows])
    decreases rows
  {
    if rows > 0 {
      RowFits(width, rows);
      var at, raw := (width + 1) * (rows - 1), Scanlines(gray, width, rows);
      UnfilterScanlines(gray, width, rows - 1);
      assert at == rows - 1 + width * (rows - 1) && width * (rows - 1) <= |gray|;
      assert raw[..at] == Scanlines(gray, width, rows - 1);
      assert raw[at] == 0 && raw[at + 1..] == gray[width * (rows - 1)..width * rows];
      assert gray[..width * (rows - 1)] + gray[width * (rows - 1)..width * rows] == gray[..width * rows];
    }
  }

  /** A canvas reads back as its first width * height bytes, and a buffer that is
      too short for the declared size makes a file that the reader refuses. */
  lemma PngRoundTrip(z: Zlib, width: nat, height: nat, gray: Bytes)
    requires z.Lawful() && Encodable(z, width, height, gray)
    ensures ReadPng(z, PngBytes(z, width, height, gray))
         == if width * height <= |gray| then Ok(Image(width, height, gray[..width * height])) else Err
  {
    hide BE, FromBE, Limit, Chunk, ReadChunk, Scanlines, Unfilter;
    var ihdr, raw := Ihdr(width, height), Scanlines(gray, width, height);
    var idat := z.compress(raw);
    var c1, c2, c3 := Chunk(z, IHDR, ihdr), Chunk(z, IDAT, idat), Chunk(z, IEND, []);
    var file := PngBytes(z, width, height, gray);
    ChunkReads(z, SIGNATURE, IHDR, ihdr, c2 + c3);
    assert file == SIGNATURE + c1 + (c2 + c3);
    ChunkReads(z, SIGNATURE + c1, IDAT, idat, c3);
    ChunkReads(z, SIGNATURE + c1 + c2, IEND, [], []);
    assert file == SIGNATURE + c1 + c2 + c3 + [];
    Limits();
    ReadBE(width, 4);
    ReadBE(height, 4);
    assert ihdr[..4] == BE(width, 4) && ihdr[4..8] == BE(height, 4);
    assert (width + 1) * height == height + width * height;
    if width * height <= |gray| {
      UnfilterScanlines(gray, width, height);
    }
  }
}
