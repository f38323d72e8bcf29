/** Bytes and fixed-width integer fields, as struct.pack and int.to_bytes write them. */
module Bytes {

  type Byte = x: int | 0 <= x < 256
  type Bytes = seq<Byte>

  const SLASH: Byte := 47

  /** Python's b[lo:hi], cut off at the end of the string. */
  function Slice(b: Bytes, lo: nat, hi: nat): Bytes
    requires lo <= hi
  {
    if |b| <= lo then [] else if |b| <= hi then b[lo..] else b[lo..hi]
  }

  /** 256 to the power k: the first number that does not fit k bytes. */
  function Limit(k: nat): nat {
    if k == 0 then 1 else 256 * Limit(k - 1)
  }

  /** Little-endian: least significant byte first. */
  function LE(n: nat, k: nat): (b: Bytes)
    ensures |b| == k
    decreases k
  {
    if k == 0 then [] else [n % 256] + LE(n / 256, k - 1)
  }

  function FromLE(b: Bytes): nat {
    if b == [] then 0 else b[0] + 256 * FromLE(b[1..])
  }

  lemma {:induction false} ReadLE(n: nat, k: nat)
    requires n < Limit(k)
    ensures FromLE(LE(n, k)) == n
    decreases k
  {
    if k > 0 {
      ReadLE(n / 256, k - 1);
      assert LE(n, k)[1..] == LE(n / 256, k - 1);
    }
  }

  /** Big-endian: most significant byte first. */
  function BE(n: nat, k: nat): (b: Bytes)
    ensures |b| == k
    decreases k
  {
    if k == 0 then [] else BE(n / 256, k - 1) + [n % 256]
  }

  function FromBE(b: Bytes): nat {
    if b == [] then 0 else 256 * FromBE(b[..|b| - 1]) + b[|b| - 1]
  }

  lemma {:induction false} ReadBE(n: nat, k: nat)
    requires n < Limit(k)
    ensures FromBE(BE(n, k)) == n
    decreases k
  {
    if k > 0 {
      ReadBE(n / 256, k - 1);
      assert BE(n, k)[..k - 1] == BE(n / 256, k - 1);
    }
  }

  /** The bytes of the fields in use, one by one. */
  lemma LittleEndian(n: nat)
    ensures LE(n, 2) == [n % 256, n / 256 % 256]
    ensures LE(n, 4) == [n % 256, n / 256 % 256, n / 65536 % 256, n / 16777216 % 256]
  {
    var n1 := n / 256;
    var n2 := n1 / 256;
    assert n2 == n / 65536 && n2 / 256 == n / 16777216;
    assert LE(n2 / 256, 1) == [n2 / 256 % 256] && LE(n1, 1) == [n1 % 256];
    assert LE(n2, 2) == [n2 % 256, n2 / 256 % 256];
    assert LE(n1, 3) == [n1 % 256] + LE(n2, 2);
  }

  lemma BigEndian(n: nat)
    ensures BE(n, 4) == [n / 16777216 % 256, n / 65536 % 256, n / 256 % 256, n % 256]
    ensures BE(n, 8) == BE(n / 0x1_0000_0000, 4) + BE(n, 4)
  {
    hide BE;
    BigEndian4(n);
    var n1 := n / 256;
    var n2 := n1 / 256;
    var n3 := n2 / 256;
    assert n2 == n / 65536 && n3 == n / 16777216 && n3 / 256 == n / 0x1_0000_0000;
    BigEndianStep(n, 7);
    BigEndianStep(n1, 6);
    BigEndianStep(n2, 5);
    BigEndianStep(n3, 4);
  }

  lemma BigEndianStep(n: nat, k: nat)
    ensures BE(n, k + 1) == BE(n / 256, k) + [n % 256]
  {
  }

  lemma BigEndian4(n: nat)
    ensures BE(n, 4) == [n / 16777216 % 256, n / 65536 % 256, n / 256 % 256, n % 256]
  {
    var n1 := n / 256;
    var n2 := n1 / 256;
    assert n2 == n / 65536 && n2 / 256 == n / 16777216;
    assert BE(n2 / 256, 1) == [n2 / 256 % 256];
    assert BE(n2, 2) == BE(n2 / 256, 1) + [n2 % 256];
    assert BE(n1, 3) == BE(n2, 2) + [n1 % 256];
  }

  /** Two's complement of a signed 16-bit field. */
  function SignedLE16(v: int): (b: Bytes)
    requires -32768 <= v <= 32767
    ensures |b| == 2
  {
    LE(if v < 0 then v + 65536 else v, 2)
  }

  function FromSignedLE16(b: Bytes): int {
    var n := FromLE(b);
    if n < 32768 then n else n - 65536
  }

  lemma ReadSignedLE16(v: int)
    requires -32768 <= v <= 32767
    ensures FromSignedLE16(SignedLE16(v)) == v
  {
    ReadLE(if v < 0 then v + 65536 else v, 2);
    Limits();
  }

  lemma Limits()
    ensures Limit(1) == 0x100 && Limit(2) == 0x1_0000 && Limit(4) == 0x1_0000_0000
    ensures Limit(8) == 0x1_0000_0000_0000_0000
  {
    assert Limit(3) == 0x100_0000;
    assert Limit(5) == 0x100_0000_0000 && Limit(6) == 0x1_0000_0000_0000;
  }

  // ------------------------------------------------- unsigned struct formats

  /** Byte size of the first n fields of a little-endian struct format, given as its field widths. */
  function SizeTo(widths: seq<nat>, n: nat): nat
    requires n <= |widths|
  {
    if n == 0 then 0 else SizeTo(widths, n - 1) + widths[n - 1]
  }

  function Size(widths: seq<nat>): nat {
    SizeTo(widths, |widths|)
  }

  predicate Fits(values: seq<nat>, widths: seq<nat>) {
    |values| == |widths| && forall i | 0 <= i < |values| :: values[i] < Limit(widths[i])
  }

  function PackTo(values: seq<nat>, widths: seq<nat>, n: nat): (b: Bytes)
    requires n <= |values| == |widths|
    ensures |b| == SizeTo(widths, n)
  {
    if n == 0 then [] else PackTo(values, widths, n - 1) + LE(values[n - 1], widths[n - 1])
  }

  function Pack(values: seq<nat>, widths: seq<nat>): (b: Bytes)
    requires |values| == |widths|
    ensures |b| == Size(widths)
  {
    PackTo(values, widths, |widths|)
  }

  /** Field i of a packed struct sits behind the fields before it. */
  lemma {:induction false} PackedField(values: seq<nat>, widths: seq<nat>, i: nat, n: nat)
    requires i < n <= |values| == |widths|
    ensures SizeTo(widths, i) + widths[i] == SizeTo(widths, i + 1) <= SizeTo(widths, n)
    ensures PackTo(values, widths, n)[SizeTo(widths, i)..SizeTo(widths, i + 1)] == LE(values[i], widths[i])
    decreases n
  {
    hide LE;
    if i < n - 1 {
      PackedField(values, widths, i, n - 1);
      var lo, hi := SizeTo(widths, i), SizeTo(widths, i + 1);
      assert PackTo(values, widths, n)[lo..hi] == PackTo(values, widths, n - 1)[lo..hi];
    }
  }

  /** The two-byte number at a position. */
  function U16(b: Bytes, at: nat): nat
    requires at + 2 <= |b|
  {
    b[at] as int + 256 * (b[at + 1] as int)
  }

  /** The four-byte number at a position. */
  function U32(b: Bytes, at: nat): nat
    requires at + 4 <= |b|
  {
    b[at] as int + 256 * (b[at + 1] as int) + 65536 * (b[at + 2] as int) + 16777216 * (b[at + 3] as int)
  }

  lemma U16Reads(b: Bytes, at: nat, n: nat)
    requires at + 2 <= |b| && b[at..at + 2] == LE(n, 2) && n < 0x1_0000
    ensures U16(b, at) == n
  {
    LittleEndian(n);
    assert b[at] == b[at..at + 2][0] && b[at + 1] == b[at..at + 2][1];
  }

  lemma U32Reads(b: Bytes, at: nat, n: nat)
    requires at + 4 <= |b| && b[at..at + 4] == LE(n, 4) && n < 0x1_0000_0000
    ensures U32(b, at) == n
  {
    LittleEndian(n);
    var f := b[at..at + 4];
    assert b[at] == f[0] && b[at + 1] == f[1] && b[at + 2] == f[2] && b[at + 3] == f[3];
  }

  // ------------------------------------------------------------ concatenation

  ghost function Join(parts: seq<Bytes>): Bytes {
    if parts == [] then [] else Join(parts[..|parts| - 1]) + parts[|parts| - 1]
  }

  /** Part i of a concatenation sits right after the parts before it. */
  lemma {:induction false} JoinSlice(parts: seq<Bytes>, i: nat)
    requires i < |parts|
    ensures |Join(parts[..i])| + |parts[i]| == |Join(parts[..i + 1])| <= |Join(parts)|
    ensures Join(parts)[|Join(parts[..i])|..|Join(parts[..i + 1])|] == parts[i]
  {
    var init := parts[..|parts| - 1];
    assert parts[..i + 1][..i] == parts[..i];
    if i < |init| {
      JoinSlice(init, i);
      assert init[..i] == parts[..i] && init[..i + 1] == parts[..i + 1];
    } else {
      assert parts[..i + 1] == parts;
    }
  }

  // ------------------------------------------------------------------ decimal

  /** Decimal ASCII digits without leading zeros. */
  function Decimal(n: nat): (b: Bytes)
    ensures b != [] && (n > 0 ==> b[0] != 48) && (n == 0 ==> b == [48])
    ensures forall i | 0 <= i < |b| :: 48 <= b[i] <= 57
  {
    if n < 10 then [48 + n] else Decimal(n / 10) + [48 + n % 10]
  }

  function FromDecimal(b: Bytes): int {
    if b == [] then 0 else 10 * FromDecimal(b[..|b| - 1]) + (b[|b| - 1] as int - 48)
  }

  lemma DecimalPlaces(b: Bytes, digit: Byte)
    ensures FromDecimal([]) == 0 && FromDecimal(b + [digit]) == 10 * FromDecimal(b) + (digit as int - 48)
  {
    assert (b + [digit])[..|b|] == b;
  }

  lemma {:induction false} ReadDecimal(n: nat)
    ensures FromDecimal(Decimal(n)) == n
  {
    if n >= 10 {
      ReadDecimal(n / 10);
      var b := Decimal(n);
      assert b[..|b| - 1] == Decimal(n / 10);
    }
  }
}
