/** The P6 reader and the panel crop of the e-reader golden images. */
module Ppm {
  import opened Arithmetic
  import opened Bytes
  import opened Outcomes

  const SIDEBAR := 520

  predicate IsBlank(b: Byte) {
    b == 32 || b == 9 || b == 10 || b == 13
  }

  // --------------------------------------------- integers as Python spells them

  predicate IsDigit(b: Byte) {
    48 <= b <= 57
  }

  /** int() also strips vertical tab and form feed. */
  predicate IsStripped(b: Byte) {
    IsBlank(b) || b == 11 || b == 12
  }

  function StripLeft(b: Bytes): Bytes {
    if b != [] && IsStripped(b[0]) then StripLeft(b[1..]) else b
  }

  function StripRight(b: Bytes): Bytes {
    if b != [] && IsStripped(b[|b| - 1]) then StripRight(b[..|b| - 1]) else b
  }

  /** Digits, with single underscores allowed between two of them. */
  function DigitRun(b: Bytes): Result<nat> {
    if b == [] || !IsDigit(b[|b| - 1]) then Err else
      var last := b[|b| - 1] - 48;
      if |b| == 1 then Ok(last) else
        match DigitRun(if b[|b| - 2] == 95 then b[..|b| - 2] else b[..|b| - 1])
        case Err => Err
        case Ok(n) => Ok(10 * n + last)
  }

  /** int(token) of a byte string. */
  function ParseInt(token: Bytes): Result<int> {
    var b := StripRight(StripLeft(token));
    if b == [] then Err
    else if b[0] == 45 then
      match DigitRun(b[1..])
      case Err => Err
      case Ok(n) => Ok(-(n as int))
    else
      match DigitRun(if b[0] == 43 then b[1..] else b)
      case Err => Err
      case Ok(n) => Ok(n)
  }

  /** "%d" % n */
  function FormatInt(n: int): (b: Bytes)
    ensures b != []
    ensures forall i | 0 <= i < |b| :: IsDigit(b[i]) || (i == 0 && b[i] == 45)
    // a sign exactly for negative numbers, and no leading zero
    ensures b[0] == 45 <==> n < 0
    ensures n >= 0 && b[0] == 48 ==> n == 0 && b == [48]
    ensures n < 0 ==> |b| > 1 && b[1] != 48
  {
    if n < 0 then [45] + Decimal(-n) else Decimal(n)
  }

  lemma {:induction false} DigitRunDecimal(n: nat)
    ensures DigitRun(Decimal(n)) == Ok(n)
  {
    if n >= 10 {
      DigitRunDecimal(n / 10);
      var b := Decimal(n);
      assert b[..|b| - 1] == Decimal(n / 10);
      assert b[|b| - 2] == Decimal(n / 10)[|b| - 2];
    }
  }

  lemma IntRoundTrip(n: int)
    ensures ParseInt(FormatInt(n)) == Ok(n)
  {
    hide Decimal, DigitRun;
    var b := FormatInt(n);
    assert StripLeft(b) == b && StripRight(b) == b;
    if n < 0 {
      DigitRunDecimal(-n);
      assert b[1..] == Decimal(-n);
    } else {
      DigitRunDecimal(n);
    }
  }

  // ------------------------------------------------ which tokens are integers

  ghost predicate AllStripped(b: Bytes) {
    forall i | 0 <= i < |b| :: IsStripped(b[i])
  }

  /** Digits, and single underscores between two digits. */
  ghost predicate Grouped(b: Bytes) {
    && b != [] && IsDigit(b[0]) && IsDigit(b[|b| - 1])
    && (forall i | 0 <= i < |b| :: IsDigit(b[i]) || b[i] == 95)
    && (forall i | 0 <= i < |b| - 1 :: !(b[i] == 95 && b[i + 1] == 95))
  }

  ghost function DigitsOf(b: Bytes): Bytes {
    if b == [] then [] else DigitsOf(b[..|b| - 1]) + if b[|b| - 1] == 95 then [] else [b[|b| - 1]]
  }

  lemma {:induction false} DigitRunIff(b: Bytes)
    ensures DigitRun(b).Ok? <==> Grouped(b)
    ensures DigitRun(b).Ok? ==> DigitRun(b).value == FromDecimal(DigitsOf(b))
    decreases |b|
  {
    hide FromDecimal, DigitsOf;
    DigitsStep(b);
    if b != [] && IsDigit(b[|b| - 1]) {
      DecimalPlaces(DigitsOf(b[..|b| - 1]), b[|b| - 1]);
      if |b| > 1 && b[|b| - 2] == 95 {
        var c := b[..|b| - 2];
        DigitRunIff(c);
        assert b[..|b| - 1][..|b| - 2] == c;
        DigitsStep(b[..|b| - 1]);
        GroupedUnderscore(b);
      } else if |b| > 1 {
        DigitRunIff(b[..|b| - 1]);
        GroupedDigit(b);
      } else {
        assert b[..0] == [];
        DigitsStep([]);
      }
    }
  }

  lemma DigitsStep(b: Bytes)
    ensures b == [] ==> DigitsOf(b) == []
    ensures b != [] && b[|b| - 1] != 95 ==> DigitsOf(b) == DigitsOf(b[..|b| - 1]) + [b[|b| - 1]]
    ensures b != [] && b[|b| - 1] == 95 ==> DigitsOf(b) == DigitsOf(b[..|b| - 1])
  {
  }

  lemma GroupedUnderscore(b: Bytes)
    requires |b| > 1 && IsDigit(b[|b| - 1]) && b[|b| - 2] == 95
    ensures Grouped(b) <==> Grouped(b[..|b| - 2])
  {
    var c := b[..|b| - 2];
    assert forall i | 0 <= i < |c| :: c[i] == b[i];
    if Grouped(b) {
      assert b[0] != 95 && |b| > 2;
      var k := |b| - 3;
      assert b[k] != 95;
    }
  }

  lemma GroupedDigit(b: Bytes)
    requires |b| > 1 && IsDigit(b[|b| - 1]) && b[|b| - 2] != 95
    ensures Grouped(b) <==> Grouped(b[..|b| - 1])
  {
    var c := b[..|b| - 1];
    assert forall i | 0 <= i < |c| :: c[i] == b[i];
  }

  /** A token in pieces: blanks, a sign or none, digits in groups, blanks. */
  datatype Numeral = Numeral(left: Bytes, sign: Bytes, digits: Bytes, right: Bytes) {
    function Text(): Bytes {
      left + (sign + digits + right)
    }

    ghost predicate Valid() {
      AllStripped(left) && AllStripped(right) && (sign == [] || sign == [43] || sign == [45]) && Grouped(digits)
    }

    ghost function Value(): int {
      var n := FromDecimal(DigitsOf(digits));
      if sign == [45] then -n else n
    }
  }

  lemma {:induction false} StripLeftIs(blanks: Bytes, rest: Bytes)
    requires AllStripped(blanks) && (rest == [] || !IsStripped(rest[0]))
    ensures StripLeft(blanks + rest) == rest
  {
    if blanks == [] {
      assert blanks + rest == rest;
    } else {
      assert (blanks + rest)[1..] == blanks[1..] + rest;
      StripLeftIs(blanks[1..], rest);
    }
  }

  lemma {:induction false} StripRightIs(rest: Bytes, blanks: Bytes)
    requires AllStripped(blanks) && (rest == [] || !IsStripped(rest[|rest| - 1]))
    ensures StripRight(rest + blanks) == rest
  {
    if blanks == [] {
      assert rest + blanks == rest;
    } else {
      assert (rest + blanks)[..|rest + blanks| - 1] == rest + blanks[..|blanks| - 1];
      StripRightIs(rest, blanks[..|blanks| - 1]);
    }
  }

  lemma {:induction false} StripLeftSplits(b: Bytes) returns (blanks: Bytes)
    ensures b == blanks + StripLeft(b) && AllStripped(blanks)
  {
    if b != [] && IsStripped(b[0]) {
      var rest := StripLeftSplits(b[1..]);
      blanks := [b[0]] + rest;
    } else {
      blanks := [];
    }
  }

  lemma {:induction false} StripRightSplits(b: Bytes) returns (blanks: Bytes)
    ensures b == StripRight(b) + blanks && AllStripped(blanks)
  {
    if b != [] && IsStripped(b[|b| - 1]) {
      var rest := StripRightSplits(b[..|b| - 1]);
      blanks := rest + [b[|b| - 1]];
    } else {
      blanks := [];
    }
  }

  lemma NumeralReads(t: Numeral)
    requires t.Valid()
    ensures ParseInt(t.Text()) == Ok(t.Value())
  {
    hide StripLeft, StripRight, FromDecimal, DigitsOf, DigitRun, AllStripped;
    var core := t.sign + t.digits;
    DigitRunIff(t.digits);
    assert core[|core| - 1] == t.digits[|t.digits| - 1] && !IsStripped(core[0]);
    assert (core + t.right)[0] == core[0];
    StripLeftIs(t.left, core + t.right);
    StripRightIs(core, t.right);
    hide Grouped;
    SignedRun(t.sign, t.digits);
  }

  lemma SignedRun(sign: Bytes, digits: Bytes)
    requires (sign == [] || sign == [43] || sign == [45]) && digits != [] && IsDigit(digits[0])
    ensures var core := sign + digits;
            && (core[0] == 45 <==> sign == [45]) && (core[0] == 43 <==> sign == [43])
            && (if sign == [] then core else core[1..]) == digits
  {
  }

  lemma ReadsNumeral(token: Bytes) returns (t: Numeral)
    requires ParseInt(token).Ok?
    ensures t.Valid() && t.Text() == token && ParseInt(token).value == t.Value()
  {
    hide StripLeft, StripRight, FromDecimal, DigitsOf, DigitRun;
    var left := StripLeftSplits(token);
    var right := StripRightSplits(StripLeft(token));
    var core := StripRight(StripLeft(token));
    var sign: Bytes := if core[0] == 45 || core[0] == 43 then [core[0]] else [];
    var digits := core[|sign|..];
    assert core == sign + digits;
    DigitRunIff(digits);
    t := Numeral(left, sign, digits, right);
  }

  /** int() accepts exactly the tokens that are numerals, with their decimal value. */
  lemma IntegerExactly(token: Bytes, v: int)
    ensures ParseInt(token) == Ok(v) <==> exists t: Numeral :: t.Valid() && t.Text() == token && t.Value() == v
  {
    hide ParseInt;
    if ParseInt(token) == Ok(v) {
      var t := ReadsNumeral(token);
    }
    if t: Numeral :| t.Valid() && t.Text() == token && t.Value() == v {
      NumeralReads(t);
    }
  }

  // ----------------------------------------------------------------- reader

  datatype Image = Image(width: int, height: int, maxval: int, pixels: Bytes)

  function SkipBlanks(data: Bytes, idx: nat): (end: nat)
    requires idx <= |data|
    ensures idx <= end <= |data| && (end == |data| || !IsBlank(data[end]))
    ensures forall i | idx <= i < end :: IsBlank(data[i])
    decreases |data| - idx
  {
    if idx < |data| && IsBlank(data[idx]) then SkipBlanks(data, idx + 1) else idx
  }

  function SkipWord(data: Bytes, idx: nat): (end: nat)
    requires idx <= |data|
    ensures idx <= end <= |data| && (end == |data| || IsBlank(data[end]))
    ensures forall i | idx <= i < end :: !IsBlank(data[i])
    decreases |data| - idx
  {
    if idx < |data| && !IsBlank(data[idx]) then SkipWord(data, idx + 1) else idx
  }

  /** The next n header integers from idx, and where the last one ends. */
  function Header(data: Bytes, idx: nat, n: nat): Result<(seq<int>, nat)>
    requires idx <= |data|
    decreases n
  {
    if n == 0 then Ok(([], idx)) else
      var start := SkipBlanks(data, idx);
      var end := SkipWord(data, start);
      match ParseInt(data[start..end])
      case Err => Err
      case Ok(value) =>
        match Header(data, end, n - 1)
        case Err => Err
        case Ok((values, stop)) => Ok(([value] + values, stop))
  }

  /** The raster behind the header, if it is complete. A negative size never is. */
  function Raster(data: Bytes, idx: nat, width: int, height: int, maxval: int): Result<Image> {
    var size := width * height * 3;
    if size < 0 || |Slice(data, idx, idx + size)| != size then Err
    else Ok(Image(width, height, maxval, Slice(data, idx, idx + size)))
  }

  function ParsePpm(data: Bytes): Result<Image> {
    if |data| < 2 || data[..2] != [80, 54] then Err else
      match Header(data, 2, 3)
      case Err => Err
      case Ok((tokens, idx)) => if |tokens| == 3 then Raster(data, idx + 1, tokens[0], tokens[1], tokens[2]) else Err
  }

  function Prepend(tokens: seq<int>, rest: Result<(seq<int>, nat)>): Result<(seq<int>, nat)> {
    match rest
    case Err => Err
    case Ok((values, stop)) => Ok((tokens + values, stop))
  }

  lemma PrependStep(tokens: seq<int>, value: int, rest: Result<(seq<int>, nat)>)
    ensures Prepend(tokens, Prepend([value], rest)) == Prepend(tokens + [value], rest)
    ensures Prepend([], rest) == rest
  {
    if rest.Ok? {
      assert tokens + ([value] + rest.value.0) == (tokens + [value]) + rest.value.0;
      assert [] + rest.value.0 == rest.value.0;
    }
  }

  lemma HeaderStep(data: Bytes, idx: nat, n: nat)
    requires idx <= |data| && 0 < n
    ensures var start := SkipBlanks(data, idx);
            var end := SkipWord(data, start);
            Header(data, idx, n) == match ParseInt(data[start..end])
                                    case Err => Err
                                    case Ok(value) => Prepend([value], Header(data, end, n - 1))
  {
  }

  method ReadPpm(data: Bytes) returns (r: Result<Image>)
    ensures r == ParsePpm(data)
  {
    hide ParseInt, Raster, Header, Prepend;
    if |data| < 2 || data[..2] != [80, 54] {
      return Err;
    }
    var idx: nat, tokens: seq<int> := 2, [];
    PrependStep([], 0, Header(data, 2, 3));
    while |tokens| < 3
      invariant |tokens| <= 3 && idx <= |data|
      invariant Header(data, 2, 3) == Prepend(tokens, Header(data, idx, 3 - |tokens|))
      decreases 3 - |tokens|
    {
      HeaderStep(data, idx, 3 - |tokens|);
      var token, end := NextToken(data, idx);
      idx := end;
      var value := ParseInt(token);
      if value.Err? {
        PrependErr(tokens);
        return Err;
      }
      PrependStep(tokens, value.value, Header(data, idx, 2 - |tokens|));
      tokens := tokens + [value.value];
    }
    HeaderNone(data, idx);
    PrependNone(tokens, idx);
    idx := idx + 1;
    return Raster(data, idx, tokens[0], tokens[1], tokens[2]);
  }

  lemma HeaderNone(data: Bytes, idx: nat)
    requires idx <= |data|
    ensures Header(data, idx, 0) == Ok(([], idx))
  {
  }

  lemma PrependErr(tokens: seq<int>)
    ensures Prepend(tokens, Err) == Err
  {
  }

  lemma PrependNone(tokens: seq<int>, stop: nat)
    ensures Prepend(tokens, Ok(([], stop))) == Ok((tokens, stop))
  {
    assert tokens + [] == tokens;
  }

  /** The two inner loops: skip blanks, then take everything up to the next blank. */
  method NextToken(data: Bytes, from: nat) returns (token: Bytes, idx: nat)
    requires from <= |data|
    ensures idx == SkipWord(data, SkipBlanks(data, from))
    ensures token == data[SkipBlanks(data, from)..idx]
  {
    idx := from;
    while idx < |data| && IsBlank(data[idx])
      invariant from <= idx <= |data| && SkipBlanks(data, idx) == SkipBlanks(data, from)
    {
      idx := idx + 1;
    }
    var start := idx;
    while idx < |data| && !IsBlank(data[idx])
      invariant start <= idx <= |data| && SkipWord(data, idx) == SkipWord(data, start)
    {
      idx := idx + 1;
    }
    token := data[start..idx];
  }

  // ------------------------------------------------------ the header grammar

  ghost predicate Blanks(b: Bytes) {
    forall i | 0 <= i < |b| :: IsBlank(b[i])
  }

  ghost predicate Word(b: Bytes) {
    b != [] && forall i | 0 <= i < |b| :: !IsBlank(b[i])
  }

  /** Whatever follows a word: nothing, or something that begins with a blank. */
  ghost predicate Separated(rest: Bytes) {
    rest == [] || IsBlank(rest[0])
  }

  /** A file cut into its magic number, three words behind their blanks, and the rest. */
  datatype Layout = Layout(gap1: Bytes, word1: Bytes, gap2: Bytes, word2: Bytes, gap3: Bytes, word3: Bytes,
                           rest: Bytes) {
    function Text(): Bytes {
      [80, 54] + (gap1 + word1 + (gap2 + word2 + (gap3 + word3 + rest)))
    }

    /** Only the first gap may be empty. */
    ghost predicate Valid() {
      && Blanks(gap1) && Blanks(gap2) && Blanks(gap3) && gap2 != [] && gap3 != []
      && Word(word1) && Word(word2) && Word(word3) && Separated(rest)
    }

    /** The words spell the dimensions, and the raster lies behind one separating byte;
        an image without pixels needs neither. */
    ghost predicate Denotes(img: Image) {
      && ParseInt(word1) == Ok(img.width) && ParseInt(word2) == Ok(img.height) && ParseInt(word3) == Ok(img.maxval)
      && var size := img.width * img.height * 3;
         && 0 <= size && (size == 0 || size < |rest|)
         && img.pixels == if size == 0 then [] else rest[1..1 + size]
    }
  }

  /** Blanks, a word and the end of the word, as the two scans find them. */
  lemma TokenSplit(data: Bytes, idx: nat, gap: Bytes, word: Bytes, rest: Bytes)
    requires idx <= |data| && data[idx..] == gap + word + rest && Blanks(gap) && Word(word) && Separated(rest)
    ensures SkipBlanks(data, idx) == idx + |gap|
    ensures SkipWord(data, idx + |gap|) == idx + |gap| + |word| <= |data|
    ensures data[idx + |gap|..idx + |gap| + |word|] == word && data[idx + |gap| + |word|..] == rest
  {
    hide SkipBlanks, SkipWord;
    var tail, at, end := gap + word + rest, idx + |gap|, idx + |gap| + |word|;
    assert forall i | 0 <= i < |tail| :: data[idx + i] == tail[i];
    assert forall i | 0 <= i < |gap| :: data[idx + i] == gap[i];
    assert forall i | 0 <= i < |word| :: data[at + i] == word[i];
    assert rest != [] ==> data[end] == rest[0];
    assert data[at..end] == word && data[end..] == rest;
    assert forall i | idx <= i < at :: IsBlank(data[i]) by {
      assert forall i | idx <= i < at :: data[i] == gap[i - idx];
    }
    assert forall i | at <= i < end :: !IsBlank(data[i]) by {
      assert forall i | at <= i < end :: data[i] == word[i - at];
    }
    assert !IsBlank(data[at]);
  }

  ghost predicate Tail(data: Bytes, idx: int, rest: Bytes) {
    0 <= idx <= |data| && data[idx..] == rest
  }

  /** A gap, a word and something separated from it. */
  ghost predicate Token(text: Bytes, gap: Bytes, word: Bytes, rest: Bytes) {
    text == gap + word + rest && Blanks(gap) && Word(word) && Separated(rest)
  }

  /** Each header step takes one gap and one word off the text. */
  lemma StepOverToken(data: Bytes, idx: nat, n: nat, text: Bytes, gap: Bytes, word: Bytes, rest: Bytes)
    returns (end: nat)
    requires Tail(data, idx, text) && Token(text, gap, word, rest) && ParseInt(word).Ok?
    ensures idx <= end <= |data| && Tail(data, end, rest)
    ensures Header(data, idx, n + 1) == Prepend([ParseInt(word).value], Header(data, end, n))
  {
    hide SkipBlanks, SkipWord, ParseInt, Header, Prepend;
    TokenSplit(data, idx, gap, word, rest);
    HeaderStep(data, idx, n + 1);
    end := idx + |gap| + |word|;
  }

  /** Three words in a row, one step after the other. */
  lemma HeaderOfWords(data: Bytes, l: Layout, r0: Bytes, r1: Bytes, r2: Bytes) returns (k: nat)
    requires Tail(data, 2, r0) && Token(r0, l.gap1, l.word1, r1)
    requires Token(r1, l.gap2, l.word2, r2) && Token(r2, l.gap3, l.word3, l.rest)
    requires ParseInt(l.word1).Ok? && ParseInt(l.word2).Ok? && ParseInt(l.word3).Ok?
    ensures Tail(data, k, l.rest) && k <= |data| && 2 <= |data|
    ensures Header(data, 2, 3)
         == Ok(([ParseInt(l.word1).value, ParseInt(l.word2).value, ParseInt(l.word3).value], k))
  {
    assert 2 <= |data|;
    hide ParseInt, Header, Prepend, Token, Tail;
    var i := StepOverToken(data, 2, 2, r0, l.gap1, l.word1, r1);
    var j := StepOverToken(data, i, 1, r1, l.gap2, l.word2, r2);
    k := StepOverToken(data, j, 0, r2, l.gap3, l.word3, l.rest);
    HeaderNone(data, k);
    ThreeTokens(ParseInt(l.word1).value, ParseInt(l.word2).value, ParseInt(l.word3).value, k);
  }

  lemma ThreeTokens(a: int, b: int, c: int, k: nat)
    ensures Prepend([a], Prepend([b], Prepend([c], Ok(([], k))))) == Ok(([a, b, c], k))
  {
    assert [a] + ([b] + ([c] + [])) == [a, b, c];
  }

  lemma BehindMagic(rest: Bytes)
    ensures ([80, 54] + rest)[..2] == [80, 54] && ([80, 54] + rest)[2..] == rest
  {
  }

  lemma GapSeparates(gap: Bytes, word: Bytes, rest: Bytes)
    requires gap != [] && Blanks(gap)
    ensures Separated(gap + word + rest)
  {
    assert (gap + word + rest)[0] == gap[0];
  }

  lemma LayoutReads(l: Layout, img: Image)
    requires l.Valid() && l.Denotes(img)
    ensures ParsePpm(l.Text()) == Ok(img)
  {
    hide ParseInt, Header, Raster, Blanks, Word, Separated;
    var r2 := l.gap3 + l.word3 + l.rest;
    var r1 := l.gap2 + l.word2 + r2;
    var r0 := l.gap1 + l.word1 + r1;
    GapSeparates(l.gap2, l.word2, r2);
    GapSeparates(l.gap3, l.word3, l.rest);
    BehindMagic(r0);
    var data := l.Text();
    var k := HeaderOfWords(data, l, r0, r1, r2);
    RasterOf(data, k, l.rest, img);
  }

  lemma RasterOf(data: Bytes, at: nat, rest: Bytes, img: Image)
    requires at <= |data| && data[at..] == rest
    ensures var size := img.width * img.height * 3;
            Raster(data, at + 1, img.width, img.height, img.maxval) == Ok(img) <==>
              && 0 <= size && (size == 0 || size < |rest|)
              && img.pixels == if size == 0 then [] else rest[1..1 + size]
  {
    hide Slice;
    var size := img.width * img.height * 3;
    if 0 <= size {
      SliceBehind(data, at, rest, size);
    }
  }

  /** The bytes from one past the separator on. */
  lemma SliceBehind(data: Bytes, at: nat, rest: Bytes, size: nat)
    requires at <= |data| && data[at..] == rest
    ensures |Slice(data, at + 1, at + 1 + size)| == size <==> size == 0 || size < |rest|
    ensures size < |rest| ==> Slice(data, at + 1, at + 1 + size) == rest[1..1 + size]
    ensures size == 0 ==> Slice(data, at + 1, at + 1 + size) == []
  {
    if size < |rest| {
      assert forall i | 0 <= i < |rest| :: rest[i] == data[at + i];
      assert data[at + 1..at + 1 + size] == rest[1..1 + size];
    }
  }

  /** The next word of a header that reads. */
  lemma TakeToken(data: Bytes, idx: nat, n: nat, text: Bytes)
    returns (gap: Bytes, word: Bytes, rest: Bytes, end: nat)
    requires Tail(data, idx, text) && Header(data, idx, n + 1).Ok?
    ensures Token(text, gap, word, rest) && ParseInt(word).Ok? && end <= |data| && Tail(data, end, rest)
    ensures text != [] && (IsBlank(text[0]) ==> gap != [])
    ensures Header(data, end, n).Ok?
    ensures Header(data, idx, n + 1) == Prepend([ParseInt(word).value], Header(data, end, n))
  {
    hide SkipBlanks, SkipWord, ParseInt, Header;
    HeaderStep(data, idx, n + 1);
    var start := SkipBlanks(data, idx);
    end := SkipWord(data, start);
    gap, word, rest := data[idx..start], data[start..end], data[end..];
    NoEmptyInt();
    assert text == gap + word + rest;
    assert text[0] == data[idx];
  }

  lemma NoEmptyInt()
    ensures ParseInt([]).Err?
  {
  }

  lemma ReadsLayout(data: Bytes) returns (l: Layout)
    requires ParsePpm(data).Ok?
    ensures l.Valid() && l.Text() == data && l.Denotes(ParsePpm(data).value)
  {
    hide ParseInt, Header, Raster, Prepend, Token, Tail;
    var r0 := data[2..];
    assert Tail(data, 2, r0) by {
      TailOf(data, 2);
    }
    var g1, w1, r1, i := TakeToken(data, 2, 2, r0);
    var g2, w2, r2, j := TakeToken(data, i, 1, r1);
    var g3, w3, r3, k := TakeToken(data, j, 0, r2);
    HeaderNone(data, k);
    l := Layout(g1, w1, g2, w2, g3, w3, r3);
    TokensMake(data, l, r0, r1, r2);
    TokensRead(data, l, k, ParsePpm(data).value);
  }

  lemma TailOf(data: Bytes, idx: nat)
    requires idx <= |data|
    ensures Tail(data, idx, data[idx..])
  {
  }

  lemma TokensMake(data: Bytes, l: Layout, r0: Bytes, r1: Bytes, r2: Bytes)
    requires |data| >= 2 && data[..2] == [80, 54] && r0 == data[2..] && Token(r0, l.gap1, l.word1, r1)
    requires Token(r1, l.gap2, l.word2, r2) && Token(r2, l.gap3, l.word3, l.rest) && r1 != [] && r2 != []
    requires IsBlank(r1[0]) ==> l.gap2 != []
    requires IsBlank(r2[0]) ==> l.gap3 != []
    ensures l.Valid() && l.Text() == data
  {
    hide Blanks, Word;
    assert data == data[..2] + data[2..];
  }

  lemma TokensRead(data: Bytes, l: Layout, k: nat, img: Image)
    requires Tail(data, k, l.rest) && ParsePpm(data) == Ok(img)
    requires ParseInt(l.word1).Ok? && ParseInt(l.word2).Ok? && ParseInt(l.word3).Ok?
    requires var a, b, c := ParseInt(l.word1).value, ParseInt(l.word2).value, ParseInt(l.word3).value;
             Header(data, 2, 3) == Prepend([a], Prepend([b], Prepend([c], Ok(([], k)))))
    ensures l.Denotes(img)
  {
    hide ParseInt, Header, Raster, Prepend;
    var a, b, c := ParseInt(l.word1).value, ParseInt(l.word2).value, ParseInt(l.word3).value;
    ThreeTokens(a, b, c, k);
    RasterFields(data, k + 1, a, b, c, img);
    RasterOf(data, k, l.rest, img);
  }

  lemma RasterFields(data: Bytes, at: nat, width: int, height: int, maxval: int, img: Image)
    requires Raster(data, at, width, height, maxval) == Ok(img)
    ensures img.width == width && img.height == height && img.maxval == maxval
  {
  }

  /** A file reads as an image exactly when it can be cut into a layout that denotes it. */
  lemma ReadsExactly(data: Bytes, img: Image)
    ensures ParsePpm(data) == Ok(img) <==> exists l: Layout :: l.Valid() && l.Text() == data && l.Denotes(img)
  {
    hide ParsePpm;
    if ParsePpm(data) == Ok(img) {
      var l := ReadsLayout(data);
    }
    if l: Layout :| l.Valid() && l.Text() == data && l.Denotes(img) {
      LayoutReads(l, img);
    }
  }

  // ------------------------------------------------------------------- crop

  ghost function CropRows(pixels: Bytes, width: nat, panel: nat, rows: nat): Bytes
    requires panel <= width
    decreases rows
  {
    if rows == 0 then [] else
      CropRows(pixels, width, panel, rows - 1)
      + Slice(pixels, (rows - 1) * width * 3, (rows - 1) * width * 3 + panel * 3)
  }

  function CropHeader(panel: int, height: int, maxval: int): Bytes {
    [80, 54, 10] + FormatInt(panel) + [32] + FormatInt(height) + [10] + FormatInt(maxval) + [10]
  }

  /** The left width - 520 columns as a P6 image of their own. */
  method CropPanel(img: Image) returns (r: Result<Bytes>)
    ensures r.Ok? <==> SIDEBAR < img.width
    ensures r.Ok? ==> r.value == [80, 54, 10] + FormatInt(img.width - SIDEBAR) + [32] + FormatInt(img.height)
                               + [10] + FormatInt(img.maxval) + [10]
                               + CropRows(img.pixels, img.width, img.width - SIDEBAR,
                                          if img.height < 0 then 0 else img.height)
  {
    hide FormatInt, Slice;
    var panel := img.width - SIDEBAR;
    if panel <= 0 {
      return Err;
    }
    var out: Bytes := [];
    var row := 0;
    while row < img.height
      invariant 0 <= row && (row <= img.height || row == 0)
      invariant out == CropRows(img.pixels, img.width, panel, row)
    {
      var off := row * img.width * 3;
      out := out + Slice(img.pixels, off, off + panel * 3);
      row := row + 1;
    }
    return Ok(CropHeader(panel, img.height, img.maxval) + out);
  }

  // -------------------------------------------------------------- round trip

  lemma RowSlice(pixels: Bytes, width: nat, panel: nat, height: nat, row: nat)
    requires panel <= width && row < height && |pixels| == width * height * 3
    ensures var start := row * width * 3;
            0 <= start && start + panel * 3 <= |pixels|
              && Slice(pixels, start, start + panel * 3) == pixels[start..start + panel * 3]
  {
    Scaled(row + 1, height, width);
    Scaled(0, row, width);
    assert (row + 1) * width == row * width + width;
  }

  lemma Triple(a: nat, b: nat)
    ensures (a + 1) * b * 3 == a * b * 3 + b * 3
  {
  }

  lemma {:induction false} CropLength(pixels: Bytes, width: nat, panel: nat, height: nat, rows: nat)
    requires panel <= width && rows <= height && |pixels| == width * height * 3
    ensures |CropRows(pixels, width, panel, rows)| == rows * panel * 3
    decreases rows
  {
    hide Slice;
    if rows > 0 {
      CropLength(pixels, width, panel, height, rows - 1);
      RowSlice(pixels, width, panel, height, rows - 1);
      Triple(rows - 1, panel);
    }
  }

  /** Byte i of row r of the crop is byte i of row r of the source, so pixels keep their place. */
  lemma {:induction false} CropPixel(pixels: Bytes, width: nat, panel: nat, height: nat, rows: nat, r: nat, i: nat)
    requires panel <= width && rows <= height && |pixels| == width * height * 3
    requires r < rows && i < panel * 3
    ensures 0 <= r * panel * 3 + i < |CropRows(pixels, width, panel, rows)|
    ensures 0 <= r * width * 3 + i < |pixels|
    ensures CropRows(pixels, width, panel, rows)[r * panel * 3 + i] == pixels[r * width * 3 + i]
    decreases rows
  {
    hide Slice;
    RowSlice(pixels, width, panel, height, r);
    CropLength(pixels, width, panel, height, rows - 1);
    CropLength(pixels, width, panel, height, rows);
    Triple(rows - 1, panel);
    if r < rows - 1 {
      CropPixel(pixels, width, panel, height, rows - 1, r, i);
    }
  }

  /** A cropped file cut into its words: single separators everywhere. */
  ghost function CropLayout(panel: int, height: int, maxval: int, raster: Bytes): Layout {
    Layout([10], FormatInt(panel), [32], FormatInt(height), [10], FormatInt(maxval), [10] + raster)
  }

  lemma CropText(panel: int, height: int, maxval: int, raster: Bytes)
    ensures CropLayout(panel, height, maxval, raster).Text() == CropHeader(panel, height, maxval) + raster
  {
    hide FormatInt;
    Regroup([80, 54], [10], FormatInt(panel), [32], FormatInt(height), [10], FormatInt(maxval), [10], raster);
    assert [80, 54] + [10] == [80, 54, 10];
  }

  lemma CropValid(panel: int, height: int, maxval: int, raster: Bytes)
    ensures CropLayout(panel, height, maxval, raster).Valid()
  {
    hide FormatInt, Word;
    FormatsAreWords(panel, height, maxval);
    assert ([10] + raster)[0] == 10;
  }

  lemma FormatsAreWords(a: int, b: int, c: int)
    ensures Word(FormatInt(a)) && Word(FormatInt(b)) && Word(FormatInt(c))
  {
  }

  lemma Regroup(m: Bytes, a: Bytes, b: Bytes, c: Bytes, d: Bytes, e: Bytes, f: Bytes, g: Bytes, h: Bytes)
    ensures m + (a + b + (c + d + (e + f + (g + h)))) == (m + a) + b + c + d + e + f + g + h
  {
  }

  /** Re-reading a cropped image gives the reduced width, the same height and
      maxval, and exactly the cropped raster, whatever bytes that raster begins with. */
  lemma CropReadsBack(width: int, height: nat, maxval: int, pixels: Bytes)
    requires SIDEBAR < width && |pixels| == width * height * 3
    ensures var panel := width - SIDEBAR;
            var raster := CropRows(pixels, width, panel, height);
            ParsePpm(CropHeader(panel, height, maxval) + raster) == Ok(Image(panel, height, maxval, raster))
  {
    hide FormatInt, CropRows, ParsePpm, ParseInt, CropHeader;
    var panel := width - SIDEBAR;
    var raster := CropRows(pixels, width, panel, height);
    CropLength(pixels, width, panel, height, height);
    assert panel * height * 3 == |raster| by {
      assert panel * height == height * panel;
    }
    CropText(panel, height, maxval, raster);
    CropValid(panel, height, maxval, raster);
    var l := CropLayout(panel, height, maxval, raster);
    IntRoundTrip(panel);
    IntRoundTrip(height);
    IntRoundTrip(maxval);
    assert l.rest[1..1 + |raster|] == raster;
    hide Blanks, Word, Separated;
    LayoutReads(l, Image(panel, height, maxval, raster));
  }

  ghost predicate CropsAndReads(img: Image)
    requires SIDEBAR < img.width
  {
    && img.height >= 0
    && var panel := img.width - SIDEBAR;
       var raster := CropRows(img.pixels, img.width, panel, img.height);
       ParsePpm(CropHeader(panel, img.height, img.maxval) + raster) == Ok(Image(panel, img.height, img.maxval, raster))
  }

  /** Any file the reader accepts with a panel beside its sidebar can be cropped and read again. */
  lemma CropOfRead(data: Bytes)
    ensures ParsePpm(data).Ok? && SIDEBAR < ParsePpm(data).value.width ==> CropsAndReads(ParsePpm(data).value)
  {
    hide Header, CropRows, CropHeader;
    if ParsePpm(data).Ok? && SIDEBAR < ParsePpm(data).value.width {
      var img := ParsePpm(data).value;
      assert |img.pixels| == img.width * img.height * 3;
      Scaled(img.height, -1, img.width);
      CropReadsBack(img.width, img.height, img.maxval, img.pixels);
    }
  }
}
