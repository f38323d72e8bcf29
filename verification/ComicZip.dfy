/** The minimal ZIP writer of the comic fixture, and a strict reader following
    sections 4.3.7, 4.3.12 and 4.3.16 of the PKWARE APPNOTE. */
module ComicZip {
  import opened Bytes
  import opened Outcomes

  const LOCAL_MAGIC := 0x04034B50
  const CENTRAL_MAGIC := 0x02014B50
  const EOCD_MAGIC := 0x06054B50
  const VERSION := 20
  const DEFLATE := 8

  const LOCAL: seq<nat> := [4, 2, 2, 2, 2, 2, 4, 4, 4, 2, 2]
  const CENTRAL: seq<nat> := [4, 2, 2, 2, 2, 2, 2, 4, 4, 4, 2, 2, 2, 2, 2, 4, 4]
  const EOCD: seq<nat> := [4, 2, 2, 2, 2, 4, 4, 2]

  /** Raw deflate and CRC-32. */
  datatype Codec = Codec(deflate: Bytes -> Bytes, inflate: Bytes -> Result<Bytes>, crc: Bytes -> nat) {
    ghost predicate Lawful() {
      && (forall data :: inflate(deflate(data)) == Ok(data))
      && (forall data :: crc(data) < 0x1_0000_0000)
    }
  }

  /** page01.png, page02.png, ..., with at least two digits. */
  function PageName(idx: nat): Bytes {
    var digits := Decimal(idx + 1);
    [112, 97, 103, 101] + (if |digits| < 2 then [48] + digits else digits) + [46, 112, 110, 103]
  }

  /** "page", the page's number from 1 in two digits or more, ".png". */
  lemma PageNameIs(i: nat)
    ensures var name := PageName(i);
            && |name| >= 10 && name[..4] == [112, 97, 103, 101] && name[|name| - 4..] == [46, 112, 110, 103]
            && var digits := name[4..|name| - 4];
               && (forall k | 0 <= k < |digits| :: 48 <= digits[k] <= 57)
               && FromDecimal(digits) == i + 1
               && (|digits| > 2 ==> digits[0] != 48)
  {
    hide FromDecimal, Decimal;
    ReadDecimal(i + 1);
    var name, digits := PageName(i), Decimal(i + 1);
    if |digits| < 2 {
      assert name[4..|name| - 4] == [48] + digits;
      LeadingZero(digits[0]);
      assert digits == [digits[0]];
    } else {
      assert name[4..|name| - 4] == digits;
    }
  }

  lemma LeadingZero(digit: Byte)
    ensures FromDecimal([48] + [digit]) == FromDecimal([digit])
  {
    hide FromDecimal;
    DecimalPlaces([], 48);
    DecimalPlaces([48], digit);
    DecimalPlaces([], digit);
    assert [] + [48] == [48] && [] + [digit] == [digit];
  }

  lemma PageNamesDistinct(i: nat, j: nat)
    requires PageName(i) == PageName(j)
    ensures i == j
  {
    hide PageName, FromDecimal;
    PageNameIs(i);
    PageNameIs(j);
  }

  datatype Entry = Entry(name: Bytes, crc: nat, csize: nat, usize: nat, offset: nat)

  function EntryFor(codec: Codec, idx: nat, data: Bytes, offset: nat): Entry {
    Entry(PageName(idx), codec.crc(data), |codec.deflate(data)|, |data|, offset)
  }

  function LocalFields(e: Entry): seq<nat> {
    [LOCAL_MAGIC, VERSION, 0, DEFLATE, 0, 0, e.crc, e.csize, e.usize, |e.name|, 0]
  }

  function CentralFields(e: Entry): seq<nat> {
    [CENTRAL_MAGIC, VERSION, VERSION, 0, DEFLATE, 0, 0, e.crc, e.csize, e.usize, |e.name|, 0, 0, 0, 0, 0, e.offset]
  }

  function EocdFields(count: nat, centralLength: nat, centralOffset: nat): seq<nat> {
    [EOCD_MAGIC, 0, 0, count, count, centralLength, centralOffset, 0]
  }

  /** Where the fields of the three structs begin. */
  lemma LocalOffsets()
    ensures SizeTo(LOCAL, 0) == 0 && SizeTo(LOCAL, 1) == 4 && SizeTo(LOCAL, 2) == 6 && SizeTo(LOCAL, 3) == 8
    ensures SizeTo(LOCAL, 4) == 10 && SizeTo(LOCAL, 5) == 12 && SizeTo(LOCAL, 6) == 14 && SizeTo(LOCAL, 7) == 18
    ensures SizeTo(LOCAL, 8) == 22 && SizeTo(LOCAL, 9) == 26 && SizeTo(LOCAL, 10) == 28 && Size(LOCAL) == 30
  {
    assert SizeTo(LOCAL, 4) == 10 && SizeTo(LOCAL, 7) == 18;
  }

  lemma CentralOffsets()
    ensures SizeTo(CENTRAL, 0) == 0 && SizeTo(CENTRAL, 1) == 4 && SizeTo(CENTRAL, 2) == 6 && SizeTo(CENTRAL, 3) == 8
    ensures SizeTo(CENTRAL, 4) == 10 && SizeTo(CENTRAL, 5) == 12 && SizeTo(CENTRAL, 6) == 14
    ensures SizeTo(CENTRAL, 7) == 16 && SizeTo(CENTRAL, 8) == 20 && SizeTo(CENTRAL, 9) == 24
    ensures SizeTo(CENTRAL, 10) == 28 && SizeTo(CENTRAL, 11) == 30 && SizeTo(CENTRAL, 12) == 32
    ensures SizeTo(CENTRAL, 13) == 34 && SizeTo(CENTRAL, 14) == 36 && SizeTo(CENTRAL, 15) == 38
    ensures SizeTo(CENTRAL, 16) == 42 && Size(CENTRAL) == 46
  {
    assert SizeTo(CENTRAL, 4) == 10 && SizeTo(CENTRAL, 7) == 16;
    assert SizeTo(CENTRAL, 10) == 28 && SizeTo(CENTRAL, 13) == 34;
  }

  lemma EocdOffsets()
    ensures SizeTo(EOCD, 0) == 0 && SizeTo(EOCD, 1) == 4 && SizeTo(EOCD, 2) == 6 && SizeTo(EOCD, 3) == 8
    ensures SizeTo(EOCD, 4) == 10 && SizeTo(EOCD, 5) == 12 && SizeTo(EOCD, 6) == 16 && SizeTo(EOCD, 7) == 20
    ensures Size(EOCD) == 22
  {
    assert SizeTo(EOCD, 4) == 10;
  }

  /** Every packed field can be read at its offset. */
  lemma FieldsRead(values: seq<nat>, widths: seq<nat>)
    requires Fits(values, widths)
    ensures var h := Pack(values, widths);
            && (forall i | 0 <= i < |values| && widths[i] == 2 ::
                  SizeTo(widths, i) + 2 <= |h| && U16(h, SizeTo(widths, i)) == values[i])
            && (forall i | 0 <= i < |values| && widths[i] == 4 ::
                  SizeTo(widths, i) + 4 <= |h| && U32(h, SizeTo(widths, i)) == values[i])
  {
    hide LE, U16, U32, Pack;
    Limits();
    var h := Pack(values, widths);
    forall i | 0 <= i < |values| && widths[i] == 2
      ensures SizeTo(widths, i) + 2 <= |h| && U16(h, SizeTo(widths, i)) == values[i]
    {
      FieldSlice(values, widths, i);
      U16Reads(h, SizeTo(widths, i), values[i]);
    }
    forall i | 0 <= i < |values| && widths[i] == 4
      ensures SizeTo(widths, i) + 4 <= |h| && U32(h, SizeTo(widths, i)) == values[i]
    {
      FieldSlice(values, widths, i);
      U32Reads(h, SizeTo(widths, i), values[i]);
    }
  }

  lemma FieldSlice(values: seq<nat>, widths: seq<nat>, i: nat)
    requires i < |values| == |widths|
    ensures var h, at := Pack(values, widths), SizeTo(widths, i);
            at + widths[i] <= |h| && h[at..at + widths[i]] == LE(values[i], widths[i])
  {
    hide LE;
    PackedField(values, widths, i, |widths|);
  }

  // ----------------------------------------------------------------- writer

  function LocalRecord(e: Entry, body: Bytes): Bytes {
    Pack(LocalFields(e), LOCAL) + e.name + body
  }

  function CentralRecord(e: Entry): Bytes {
    Pack(CentralFields(e), CENTRAL) + e.name
  }

  function EocdRecord(count: nat, centralLength: nat, centralOffset: nat): (b: Bytes)
    ensures |b| == Size(EOCD)
  {
    Pack(EocdFields(count, centralLength, centralOffset), EOCD)
  }

  ghost function Locals(codec: Codec, pages: seq<Bytes>): (records: seq<Bytes>)
    ensures |records| == |pages|
  {
    seq(|pages|, i requires 0 <= i < |pages| =>
      LocalRecord(EntryFor(codec, i, pages[i], 0), codec.deflate(pages[i])))
  }

  /** The directory entry of page i: its offset is the length of the local records before it. */
  ghost function EntryAt(codec: Codec, pages: seq<Bytes>, i: nat): Entry
    requires i < |pages|
  {
    EntryFor(codec, i, pages[i], |Join(Locals(codec, pages)[..i])|)
  }

  ghost function Centrals(codec: Codec, pages: seq<Bytes>): (records: seq<Bytes>)
    ensures |records| == |pages|
  {
    seq(|pages|, i requires 0 <= i < |pages| => CentralRecord(EntryAt(codec, pages, i)))
  }

  /** Every field of every record fits its struct slot. */
  ghost predicate ZipFits(codec: Codec, pages: seq<Bytes>) {
    && (forall i | 0 <= i < |pages| ::
         Fits(LocalFields(EntryAt(codec, pages, i)), LOCAL) && Fits(CentralFields(EntryAt(codec, pages, i)), CENTRAL))
    && Fits(EocdFields(|pages|, |Join(Centrals(codec, pages))|, |Join(Locals(codec, pages))|), EOCD)
  }

  ghost function ZipBytes(codec: Codec, pages: seq<Bytes>): Bytes {
    var local, central := Join(Locals(codec, pages)), Join(Centrals(codec, pages));
    local + central + EocdRecord(|pages|, |central|, |local|)
  }

  lemma JoinStep(parts: seq<Bytes>, i: nat)
    requires i < |parts|
    ensures Join(parts[..i + 1]) == Join(parts[..i]) + parts[i]
  {
    assert parts[..i + 1][..i] == parts[..i];
  }

  lemma JoinStart(parts: seq<Bytes>)
    ensures Join(parts[..0]) == [] && parts[..|parts|] == parts
  {
  }

  /** First loop: local records, and directory entries with the running offset. */
  method WriteLocals(codec: Codec, pages: seq<Bytes>) returns (ok: bool, files: seq<Entry>, local: Bytes)
    ensures ok <==> forall i | 0 <= i < |pages| :: Fits(LocalFields(EntryAt(codec, pages, i)), LOCAL)
    ensures ok ==> local == Join(Locals(codec, pages)) && |files| == |pages|
    ensures ok ==> forall i | 0 <= i < |pages| :: files[i] == EntryAt(codec, pages, i)
  {
    hide Join, Pack, PageName, Fits;
    ok, files, local := false, [], [];
    ghost var locals := Locals(codec, pages);
    JoinStart(locals);
    for idx := 0 to |pages|
      invariant forall i | 0 <= i < idx :: Fits(LocalFields(EntryAt(codec, pages, i)), LOCAL)
      invariant local == Join(locals[..idx]) && |files| == idx
      invariant forall i | 0 <= i < idx :: files[i] == EntryAt(codec, pages, i)
    {
      JoinStep(locals, idx);
      var body := codec.deflate(pages[idx]);
      var entry := EntryFor(codec, idx, pages[idx], |local|);
      assert LocalFields(entry) == LocalFields(EntryFor(codec, idx, pages[idx], 0));
      assert entry == EntryAt(codec, pages, idx);
      if !Fits(LocalFields(entry), LOCAL) {
        return;
      }
      local := local + LocalRecord(entry, body);
      files := files + [entry];
    }
    ok := true;
  }

  /** Second loop: one central record per entry. */
  method WriteCentral(files: seq<Entry>) returns (r: Result<Bytes>)
    ensures r.Ok? <==> forall i | 0 <= i < |files| :: Fits(CentralFields(files[i]), CENTRAL)
    ensures r.Ok? ==> r.value == Join(seq(|files|, i requires 0 <= i < |files| => CentralRecord(files[i])))
  {
    hide Join, Pack, Fits;
    var central: Bytes := [];
    ghost var records := seq(|files|, i requires 0 <= i < |files| => CentralRecord(files[i]));
    JoinStart(records);
    for i := 0 to |files|
      invariant forall j | 0 <= j < i :: Fits(CentralFields(files[j]), CENTRAL)
      invariant central == Join(records[..i])
    {
      JoinStep(records, i);
      if !Fits(CentralFields(files[i]), CENTRAL) {
        return Err;
      }
      central := central + CentralRecord(files[i]);
    }
    return Ok(central);
  }

  method BuildCbz(codec: Codec, pages: seq<Bytes>) returns (r: Result<Bytes>)
    ensures r.Ok? <==> ZipFits(codec, pages)
    ensures r.Ok? ==> r.value == ZipBytes(codec, pages)
  {
    hide Join, Fits, LocalFields, CentralFields, CentralRecord, EntryAt;
    var ok, files, local := WriteLocals(codec, pages);
    if !ok {
      return Err;
    }
    var central := WriteCentral(files);
    assert seq(|files|, i requires 0 <= i < |files| => CentralRecord(files[i])) == Centrals(codec, pages);
    if central.Err? || !Fits(EocdFields(|files|, |central.value|, |local|), EOCD) {
      return Err;
    }
    return Ok(local + central.value + EocdRecord(|files|, |central.value|, |local|));
  }

  // ----------------------------------------------------------------- reader

  datatype Member = Member(name: Bytes, data: Bytes)

  /** The 30 bytes in front of a member, section 4.3.7: version 2.0, no flags, deflated. */
  predicate IsLocalHeader(h: Bytes, e: Entry) {
    && |h| == 30
    && U32(h, 0) == 0x04034B50 && U16(h, 4) == 20 && U16(h, 6) == 0 && U16(h, 8) == 8
    && U16(h, 10) == 0 && U16(h, 12) == 0
    && U32(h, 14) == e.crc && U32(h, 18) == e.csize && U32(h, 22) == e.usize
    && U16(h, 26) == |e.name| && U16(h, 28) == 0
  }

  /** The 46 bytes in front of a directory entry's name, section 4.3.12. */
  predicate IsCentralHeader(h: Bytes, e: Entry) {
    && |h| == 46
    && U32(h, 0) == 0x02014B50 && U16(h, 4) == 20 && U16(h, 6) == 20 && U16(h, 8) == 0 && U16(h, 10) == 8
    && U16(h, 12) == 0 && U16(h, 14) == 0
    && U32(h, 16) == e.crc && U32(h, 20) == e.csize && U32(h, 24) == e.usize
    && U16(h, 28) == |e.name| && U16(h, 30) == 0 && U16(h, 32) == 0 && U16(h, 34) == 0 && U16(h, 36) == 0
    && U32(h, 38) == 0 && U32(h, 42) == e.offset
  }

  /** The last 22 bytes, section 4.3.16: one disk, the count twice, no comment. */
  predicate IsEnd(h: Bytes, count: nat, length: nat, offset: nat) {
    && |h| == 22
    && U32(h, 0) == 0x06054B50 && U16(h, 4) == 0 && U16(h, 6) == 0 && U16(h, 8) == count && U16(h, 10) == count
    && U32(h, 12) == length && U32(h, 16) == offset && U16(h, 20) == 0
  }

  /** The local record at an entry's offset: its member, and the position just past it. */
  function ReadLocal(codec: Codec, data: Bytes, e: Entry): Result<(Member, nat)> {
    var body := e.offset + 30 + |e.name|;
    if |data| < body + e.csize then Err
    else if !IsLocalHeader(data[e.offset..e.offset + 30], e) then Err
    else if data[e.offset + 30..body] != e.name then Err
    else match codec.inflate(data[body..body + e.csize])
      case Err => Err
      case Ok(page) =>
        if |page| != e.usize || codec.crc(page) != e.crc then Err else Ok((Member(e.name, page), body + e.csize))
  }

  /** The central record at pos, and the position just past it. */
  function ReadCentral(data: Bytes, pos: nat): Result<(Entry, nat)> {
    if |data| < pos + 46 then Err else
      var h := data[pos..pos + 46];
      var end := pos + 46 + U16(h, 28);
      if |data| < end then Err else
        var e := Entry(data[pos + 46..end], U32(h, 16), U32(h, 20), U32(h, 24), U32(h, 42));
        if !IsCentralHeader(h, e) then Err else Ok((e, end))
  }

  /** n members: central records back to back from pos, local records back to back
      from next, the two meeting their ends exactly. */
  function ReadMembers(codec: Codec, data: Bytes, pos: nat, end: nat, next: nat, stop: nat, n: nat): Result<seq<Member>>
    decreases n
  {
    if n == 0 then (if pos == end && next == stop then Ok([]) else Err) else
      match ReadCentral(data, pos)
      case Err => Err
      case Ok((e, pos')) =>
        if e.offset != next then Err else
          match ReadLocal(codec, data, e)
          case Err => Err
          case Ok((member, next')) =>
            match ReadMembers(codec, data, pos', end, next', stop, n - 1)
            case Err => Err
            case Ok(members) => Ok([member] + members)
  }

  /** Starts from the fixed-size record at the end of the file. */
  function ReadZip(codec: Codec, data: Bytes): Result<seq<Member>> {
    if |data| < 22 then Err else
      var end := |data| - 22;
      var h := data[end..];
      var count, length, offset := U16(h, 8), U32(h, 12), U32(h, 16);
      if !IsEnd(h, count, length, offset) || offset + length != end then Err
      else ReadMembers(codec, data, offset, end, 0, offset, count)
  }

  // -------------------------------------------------------------- round trip

  ghost function Members(pages: seq<Bytes>, i: nat): seq<Member>
    requires i <= |pages|
    decreases |pages| - i
  {
    if i == |pages| then [] else [Member(PageName(i), pages[i])] + Members(pages, i + 1)
  }

  /** A part of a record that sits at offset at in data. */
  lemma SubSlice(data: Bytes, at: nat, record: Bytes, lo: nat, hi: nat)
    requires at + |record| <= |data| && data[at..at + |record|] == record && lo <= hi <= |record|
    ensures data[at + lo..at + hi] == record[lo..hi]
  {
    var part := data[at + lo..at + hi];
    forall k | 0 <= k < hi - lo ensures part[k] == record[lo..hi][k] {
      assert record[lo + k] == data[at..at + |record|][lo + k];
    }
  }

  lemma LocalHeader(e: Entry)
    requires Fits(LocalFields(e), LOCAL)
    ensures IsLocalHeader(Pack(LocalFields(e), LOCAL), e)
  {
    hide Pack, Fits, SizeTo, Size, U16, U32;
    LocalOffsets();
    FieldsRead(LocalFields(e), LOCAL);
  }

  lemma CentralHeader(e: Entry)
    requires Fits(CentralFields(e), CENTRAL)
    ensures IsCentralHeader(Pack(CentralFields(e), CENTRAL), e)
  {
    hide Pack, Fits, SizeTo, Size, U16, U32;
    CentralOffsets();
    FieldsRead(CentralFields(e), CENTRAL);
  }

  lemma EndHeader(count: nat, length: nat, offset: nat)
    requires Fits(EocdFields(count, length, offset), EOCD)
    ensures IsEnd(EocdRecord(count, length, offset), count, length, offset)
  {
    hide Pack, Fits, SizeTo, Size, U16, U32;
    EocdOffsets();
    FieldsRead(EocdFields(count, length, offset), EOCD);
  }

  lemma LocalReads(codec: Codec, pages: seq<Bytes>, i: nat)
    requires codec.Lawful() && ZipFits(codec, pages) && i < |pages|
    ensures ReadLocal(codec, ZipBytes(codec, pages), EntryAt(codec, pages, i))
         == Ok((Member(PageName(i), pages[i]), |Join(Locals(codec, pages)[..i + 1])|))
  {
    hide Join, Pack, PageName, LocalFields, CentralFields, Fits, Size, EocdRecord, IsLocalHeader;
    LocalOffsets();
    var data, e := ZipBytes(codec, pages), EntryAt(codec, pages, i);
    var locals, body := Locals(codec, pages), codec.deflate(pages[i]);
    JoinSlice(locals, i);
    LocalFieldsSame(codec, pages, i);
    var record := LocalRecord(e, body);
    assert data[e.offset..e.offset + |record|] == record;
    LocalHeader(e);
    var head := 30;
    SubSlice(data, e.offset, record, 0, head);
    SubSlice(data, e.offset, record, head, head + |e.name|);
    SubSlice(data, e.offset, record, head + |e.name|, |record|);
    assert record[0..head] == Pack(LocalFields(e), LOCAL);
    assert record[head..head + |e.name|] == e.name;
    assert record[head + |e.name|..|record|] == body;
  }

  lemma LocalFieldsSame(codec: Codec, pages: seq<Bytes>, i: nat)
    requires i < |pages|
    ensures Locals(codec, pages)[i] == LocalRecord(EntryAt(codec, pages, i), codec.deflate(pages[i]))
    ensures |LocalFields(EntryAt(codec, pages, i))| == |LOCAL|
  {
    assert LocalFields(EntryAt(codec, pages, i)) == LocalFields(EntryFor(codec, i, pages[i], 0));
  }

  lemma CentralReads(codec: Codec, pages: seq<Bytes>, i: nat)
    requires ZipFits(codec, pages) && i < |pages|
    ensures var base := |Join(Locals(codec, pages))|;
            var centrals := Centrals(codec, pages);
            ReadCentral(ZipBytes(codec, pages), base + |Join(centrals[..i])|)
            == Ok((EntryAt(codec, pages, i), base + |Join(centrals[..i + 1])|))
  {
    hide Join, Pack, PageName, LocalFields, Fits, Size, EocdRecord, EntryAt, Locals, U16, U32;
    CentralOffsets();
    var data, e := ZipBytes(codec, pages), EntryAt(codec, pages, i);
    var centrals := Centrals(codec, pages);
    var pos := |Join(Locals(codec, pages))| + |Join(centrals[..i])|;
    JoinSlice(centrals, i);
    var record := CentralRecord(e);
    assert data[pos..pos + |record|] == record;
    CentralHeader(e);
    SubSlice(data, pos, record, 0, 46);
    SubSlice(data, pos, record, 46, |record|);
    assert record[0..46] == Pack(CentralFields(e), CENTRAL);
    assert record[46..|record|] == e.name;
  }

  lemma {:induction false} MembersRead(codec: Codec, pages: seq<Bytes>, i: nat)
    requires codec.Lawful() && ZipFits(codec, pages) && i <= |pages|
    ensures var locals, centrals := Locals(codec, pages), Centrals(codec, pages);
            var base := |Join(locals)|;
            ReadMembers(codec, ZipBytes(codec, pages), base + |Join(centrals[..i])|, base + |Join(centrals)|,
                        |Join(locals[..i])|, base, |pages| - i)
            == Ok(Members(pages, i))
    decreases |pages| - i
  {
    hide Join, ZipFits, ZipBytes, ReadLocal, ReadCentral, Locals, Centrals;
    if i == |pages| {
      JoinStart(Locals(codec, pages));
      JoinStart(Centrals(codec, pages));
    } else {
      MembersRead(codec, pages, i + 1);
      LocalReads(codec, pages, i);
      CentralReads(codec, pages, i);
    }
  }

  lemma {:induction false} MembersAt(pages: seq<Bytes>, i: nat)
    requires i <= |pages|
    ensures |Members(pages, i)| == |pages| - i
    ensures forall k | i <= k < |pages| :: Members(pages, i)[k - i] == Member(PageName(k), pages[k])
    decreases |pages| - i
  {
    hide PageName;
    if i < |pages| {
      MembersAt(pages, i + 1);
      var rest, all := Members(pages, i + 1), Members(pages, i);
      assert all == [Member(PageName(i), pages[i])] + rest;
      forall k | i <= k < |pages| ensures all[k - i] == Member(PageName(k), pages[k]) {
        if k > i {
          assert all[k - i] == rest[k - (i + 1)];
        }
      }
    }
  }

  /** Reading what was written gives back every page, named and in order. */
  lemma ZipRoundTrip(codec: Codec, pages: seq<Bytes>)
    requires codec.Lawful() && ZipFits(codec, pages)
    ensures var read := ReadZip(codec, ZipBytes(codec, pages));
            && read.Ok? && |read.value| == |pages|
            && forall i | 0 <= i < |pages| :: read.value[i] == Member(PageName(i), pages[i])
  {
    hide Join, Pack, Fits, Size, ReadMembers, Locals, Centrals, Members, PageName, U16, U32;
    EocdOffsets();
    var local, central := Join(Locals(codec, pages)), Join(Centrals(codec, pages));
    var data := ZipBytes(codec, pages);
    assert data[|local| + |central|..] == EocdRecord(|pages|, |central|, |local|);
    EndHeader(|pages|, |central|, |local|);
    JoinStart(Locals(codec, pages));
    JoinStart(Centrals(codec, pages));
    MembersRead(codec, pages, 0);
    MembersAt(pages, 0);
  }
}
