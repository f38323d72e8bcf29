/** The byte stream that the managed-environment check feeds to its hash: one
    length-delimited record per filesystem object, and the tree it stands for.
    A directory lists its children by ascending name; the order in which the
    operating system enumerates them is a separate input of the walk. */
module TreeDigest {
  import opened Bytes
  import opened Order
  import opened Outcomes

  const ROOT: Bytes := [46]  // "."
  /** ".ra8-managed-python-v1.json" */
  const RECEIPT: Bytes := [46, 114, 97, 56, 45, 109, 97, 110, 97, 103, 101, 100, 45, 112, 121, 116, 104, 111, 110,
                           45, 118, 49, 46, 106, 115, 111, 110]

  datatype Node =
    | Dir(mode: nat, uid: nat, kids: seq<Keyed<Node>>)
    | File(mode: nat, uid: nat, size: nat, digest: Bytes)
    | Link(mode: nat, uid: nat, size: nat, target: Bytes)
    | Other

  /** A single path component. */
  ghost predicate Legal(name: Bytes) {
    name != [] && SLASH !in name && name != ROOT
  }

  ghost predicate Valid(n: Node) {
    n.Dir? ==>
      && Ascending(n.kids)
      && forall i | 0 <= i < |n.kids| :: Legal(n.kids[i].key) && Valid(n.kids[i].value)
  }

  function Rel(parent: Bytes, name: Bytes): Bytes {
    if parent == ROOT then name else parent + [SLASH] + name
  }

  // ---------------------------------------------------------------- records

  datatype Kind = D | F | L | Unsupported

  datatype Rec = Rec(kind: Kind, path: Bytes, mode: nat, uid: nat, size: nat, payload: Bytes)

  function DirRec(path: Bytes, n: Node): Rec
    requires n.Dir?
  {
    Rec(D, path, n.mode, n.uid, 0, [])
  }

  function LeafRec(path: Bytes, n: Node): Rec
    requires !n.Dir?
  {
    match n
    case File(mode, uid, size, digest) => Rec(F, path, mode, uid, size, digest)
    case Link(mode, uid, size, target) => Rec(L, path, mode, uid, size, target)
    case Other => Rec(Unsupported, path, 0, 0, 0, [])
  }

  predicate IsReceipt(p: Bytes, k: Keyed<Node>) {
    Rel(p, k.key) == RECEIPT
  }

  function LeafPart(p: Bytes, k: Keyed<Node>): seq<Rec> {
    if IsReceipt(p, k) || k.value.Dir? then [] else [LeafRec(Rel(p, k.key), k.value)]
  }

  /** The non-directories of a listing, last name first. */
  ghost function Leaves(p: Bytes, kids: seq<Keyed<Node>>): seq<Rec> {
    if kids == [] then [] else LeafPart(p, kids[|kids| - 1]) + Leaves(p, kids[..|kids| - 1])
  }

  /** The reference traversal: a directory, its non-directories, then its subtrees by ascending name. */
  ghost function Visit(p: Bytes, n: Node): seq<Rec>
    requires n.Dir?
    decreases n
  {
    [DirRec(p, n)] + Leaves(p, n.kids) + Subtrees(p, n.kids)
  }

  ghost function Subtrees(p: Bytes, kids: seq<Keyed<Node>>): seq<Rec>
    decreases kids
  {
    if kids == [] then [] else
      (if IsReceipt(p, kids[0]) || !kids[0].value.Dir? then [] else Visit(Rel(p, kids[0].key), kids[0].value))
      + Subtrees(p, kids[1..])
  }

  // ---------------------------------------------------------------- framing

  function Frame(field: Bytes): Bytes {
    BE(|field|, 8) + field
  }

  function KindBytes(kind: Kind): Bytes {
    match kind case D => [100] case F => [102] case L => [108] case Unsupported => []
  }

  const FIELD_LIMIT := 0x1_0000_0000_0000_0000

  /** to_bytes raises when a number does not fit its width. */
  predicate Encodable(r: Rec) {
    && r.kind != Unsupported
    && |r.path| < FIELD_LIMIT && |r.payload| < FIELD_LIMIT
    && r.mode < 0x1_0000_0000 && r.uid < FIELD_LIMIT && r.size < FIELD_LIMIT
  }

  function RecordBytes(r: Rec): Bytes {
    Frame(KindBytes(r.kind)) + Frame(r.path) + Frame(BE(r.mode, 4)) + Frame(BE(r.uid, 8)) + Frame(BE(r.size, 8))
    + Frame(r.payload)
  }

  ghost function Encoded(records: seq<Rec>): Bytes {
    if records == [] then [] else Encoded(records[..|records| - 1]) + RecordBytes(records[|records| - 1])
  }

  lemma BEInjective(m: nat, n: nat, k: nat)
    requires m < Limit(k) && n < Limit(k) && BE(m, k) == BE(n, k)
    ensures m == n
  {
    ReadBE(m, k);
    ReadBE(n, k);
  }

  /** A framed field can be told apart from whatever follows it. */
  lemma FrameInjective(f: Bytes, g: Bytes, x: Bytes, y: Bytes)
    requires |f| < FIELD_LIMIT && |g| < FIELD_LIMIT
    requires Frame(f) + x == Frame(g) + y
    ensures f == g && x == y
  {
    hide BE, Limit;
    var s := Frame(f) + x;
    assert s[..8] == BE(|f|, 8) && s[..8] == BE(|g|, 8);
    Limits();
    BEInjective(|f|, |g|, 8);
    assert s[8..8 + |f|] == f && s[8..8 + |f|] == g;
    assert s[8 + |f|..] == x && s[8 + |f|..] == y;
  }

  lemma RecordInjective(a: Rec, b: Rec, x: Bytes, y: Bytes)
    requires Encodable(a) && Encodable(b)
    ensures RecordBytes(a) + x == RecordBytes(b) + y ==> a == b && x == y
  {
    hide Frame, Limit, BE;
    var a5, b5 := Frame(a.payload) + x, Frame(b.payload) + y;
    var a4, b4 := Frame(BE(a.size, 8)) + a5, Frame(BE(b.size, 8)) + b5;
    var a3, b3 := Frame(BE(a.uid, 8)) + a4, Frame(BE(b.uid, 8)) + b4;
    var a2, b2 := Frame(BE(a.mode, 4)) + a3, Frame(BE(b.mode, 4)) + b3;
    var a1, b1 := Frame(a.path) + a2, Frame(b.path) + b2;
    assert RecordBytes(a) + x == Frame(KindBytes(a.kind)) + a1;
    assert RecordBytes(b) + y == Frame(KindBytes(b.kind)) + b1;
    if RecordBytes(a) + x == RecordBytes(b) + y {
      FrameInjective(KindBytes(a.kind), KindBytes(b.kind), a1, b1);
      FrameInjective(a.path, b.path, a2, b2);
      FrameInjective(BE(a.mode, 4), BE(b.mode, 4), a3, b3);
      FrameInjective(BE(a.uid, 8), BE(b.uid, 8), a4, b4);
      FrameInjective(BE(a.size, 8), BE(b.size, 8), a5, b5);
      FrameInjective(a.payload, b.payload, x, y);
      Limits();
      BEInjective(a.mode, b.mode, 4);
      BEInjective(a.uid, b.uid, 8);
      BEInjective(a.size, b.size, 8);
    }
  }

  ghost predicate AllEncodable(records: seq<Rec>) {
    forall i | 0 <= i < |records| :: Encodable(records[i])
  }

  lemma {:induction false} EncodedFront(records: seq<Rec>)
    requires records != []
    ensures Encoded(records) == RecordBytes(records[0]) + Encoded(records[1..])
  {
    hide RecordBytes;
    if |records| > 1 {
      var init := records[..|records| - 1];
      EncodedFront(init);
      assert init[1..] == records[1..][..|records| - 2];
    }
  }

  /** The stream of records determines the records. */
  lemma {:induction false} EncodedInjective(a: seq<Rec>, b: seq<Rec>)
    requires AllEncodable(a) && AllEncodable(b) && Encoded(a) == Encoded(b)
    ensures a == b
  {
    hide Encoded;
    EncodedEmpty(a);
    EncodedEmpty(b);
    if a != [] && b != [] {
      EncodedFront(a);
      EncodedFront(b);
      RecordInjective(a[0], b[0], Encoded(a[1..]), Encoded(b[1..]));
      EncodedInjective(a[1..], b[1..]);
      assert a == [a[0]] + a[1..] && b == [b[0]] + b[1..];
    }
  }

  lemma EncodedEmpty(records: seq<Rec>)
    ensures Encoded(records) == [] <==> records == []
  {
    if records != [] {
      assert |RecordBytes(records[|records| - 1])| > 0;
    }
  }

  // ----------------------------------------------------------------- reader

  /** A field behind its 8-byte big-endian length, and what follows it. */
  function ReadField(b: Bytes): Result<(Bytes, Bytes)> {
    if |b| < 8 then Err else
      var n := FromBE(b[..8]);
      if |b| - 8 < n then Err else Ok((b[8..8 + n], b[8 + n..]))
  }

  /** The letters d, f and l. */
  function ReadKind(field: Bytes): Result<Kind> {
    if field == [100] then Ok(D) else if field == [102] then Ok(F) else if field == [108] then Ok(L) else Err
  }

  /** A field of exactly k bytes, as a number. */
  function ReadNumber(b: Bytes, k: nat): Result<(nat, Bytes)> {
    match ReadField(b)
    case Err => Err
    case Ok((field, rest)) => if |field| == k then Ok((FromBE(field), rest)) else Err
  }

  /** Kind, path, mode, owner, size and payload, in this order, and what follows. */
  function ReadRecord(b: Bytes): Result<(Rec, Bytes)> {
    match ReadField(b)
    case Err => Err
    case Ok((letter, b1)) =>
      match (ReadKind(letter), ReadField(b1))
      case (Ok(kind), Ok((path, b2))) =>
        (match ReadNumber(b2, 4)
         case Err => Err
         case Ok((mode, b3)) =>
           match ReadNumber(b3, 8)
           case Err => Err
           case Ok((uid, b4)) =>
             match ReadNumber(b4, 8)
             case Err => Err
             case Ok((size, b5)) =>
               match ReadField(b5)
               case Err => Err
               case Ok((payload, rest)) => Ok((Rec(kind, path, mode, uid, size, payload), rest)))
      case _ => Err
  }

  lemma FieldReads(field: Bytes, x: Bytes)
    requires |field| < FIELD_LIMIT
    ensures ReadField(Frame(field) + x) == Ok((field, x))
  {
    hide BE, FromBE, Limit;
    var b := Frame(field) + x;
    Limits();
    ReadBE(|field|, 8);
    assert b[..8] == BE(|field|, 8) && b[8..8 + |field|] == field && b[8 + |field|..] == x;
  }

  lemma NumberReads(n: nat, k: nat, x: Bytes)
    requires n < Limit(k) && k < FIELD_LIMIT
    ensures ReadNumber(Frame(BE(n, k)) + x, k) == Ok((n, x))
  {
    hide BE, FromBE, Limit, Frame, ReadField;
    FieldReads(BE(n, k), x);
    ReadBE(n, k);
  }

  /** The reader gets back the record that was written, whatever follows it. */
  lemma RecordReads(r: Rec, x: Bytes)
    requires Encodable(r)
    ensures ReadRecord(RecordBytes(r) + x) == Ok((r, x))
  {
    hide Frame, Limit, BE, FromBE, ReadField, ReadNumber;
    var b5 := Frame(r.payload) + x;
    var b4 := Frame(BE(r.size, 8)) + b5;
    var b3 := Frame(BE(r.uid, 8)) + b4;
    var b2 := Frame(BE(r.mode, 4)) + b3;
    var b1 := Frame(r.path) + b2;
    assert RecordBytes(r) + x == Frame(KindBytes(r.kind)) + b1;
    Limits();
    FieldReads(KindBytes(r.kind), b1);
    FieldReads(r.path, b2);
    NumberReads(r.mode, 4, b3);
    NumberReads(r.uid, 8, b4);
    NumberReads(r.size, 8, b5);
    FieldReads(r.payload, x);
  }

  /** The bytes of a record, written out. */
  lemma RecordLayout(r: Rec)
    requires Encodable(r)
    ensures RecordBytes(r)
         == BE(1, 8) + [if r.kind == D then 100 else if r.kind == F then 102 else 108]
          + BE(|r.path|, 8) + r.path + BE(4, 8) + BE(r.mode, 4) + BE(8, 8) + BE(r.uid, 8)
          + BE(8, 8) + BE(r.size, 8) + BE(|r.payload|, 8) + r.payload
  {
    hide BE;
  }

  /** A whole stream, record by record. */
  function ReadStream(b: Bytes): Result<seq<Rec>>
    decreases |b|
  {
    if b == [] then Ok([]) else
      match ReadRecord(b)
      case Err => Err
      case Ok((rec, rest)) =>
        if |rest| >= |b| then Err else
          match ReadStream(rest)
          case Err => Err
          case Ok(records) => Ok([rec] + records)
  }

  lemma {:induction false} StreamReads(records: seq<Rec>)
    requires AllEncodable(records)
    ensures ReadStream(Encoded(records)) == Ok(records)
  {
    hide Encoded, ReadRecord, RecordBytes;
    EncodedEmpty(records);
    if records != [] {
      EncodedFront(records);
      RecordReads(records[0], Encoded(records[1..]));
      StreamReads(records[1..]);
      NotEmpty(records[0]);
      assert records == [records[0]] + records[1..];
    }
  }

  lemma NotEmpty(r: Rec)
    ensures |RecordBytes(r)| > 0
  {
  }
}
