/** The 2-bit run-length coverage coding of the R8LA v2 glyph atlas. */
module RunLength {
  import opened Bytes
  import opened Outcomes

  const LONGEST_RUN := 64

  type Level = x: int | 0 <= x < 4

  // --------------------------------------------------------------- decoder

  function Repeat(level: Level, run: nat): seq<Level> {
    seq(run, _ => level)
  }

  function LevelOf(b: Byte): Level {
    b / LONGEST_RUN
  }

  function RunOf(b: Byte): nat {
    b % LONGEST_RUN + 1
  }

  /** The specification of the format: each byte stands for 1 to 64 pixels of one level. */
  function Unpack(packed: Bytes): seq<Level> {
    if packed == [] then [] else Repeat(LevelOf(packed[0]), RunOf(packed[0])) + Unpack(packed[1..])
  }

  /** How many bytes a reader consumes to obtain exactly count pixels. */
  function Consumed(data: Bytes, count: int): Result<nat>
    decreases |data|
  {
    if count == 0 then Ok(0)
    else if count < 0 || data == [] then Err
    else match Consumed(data[1..], count - RunOf(data[0]))
      case Ok(n) => Ok(n + 1)
      case Err => Err
  }

  /** The coding is self-delimiting once the pixel count is known. */
  lemma {:induction false} ConsumedExactly(packed: Bytes, rest: Bytes)
    ensures Consumed(packed + rest, |Unpack(packed)|) == Ok(|packed|)
  {
    if packed != [] {
      assert (packed + rest)[1..] == packed[1..] + rest;
      ConsumedExactly(packed[1..], rest);
    }
  }

  // --------------------------------------------------------------- encoder

  function Quantise(coverage: Byte): (level: Level)
    ensures -42 <= 85 * level - coverage <= 42
  {
    var q := (coverage * 3 + 127) / 255;
    if q < 3 then q else 3
  }

  function Levels(values: Bytes): (levels: seq<Level>)
    ensures |levels| == |values|
  {
    seq(|values|, i requires 0 <= i < |values| => Quantise(values[i]))
  }

  /** Length of the leading run, stopped at 64. */
  ghost function RunFrom(s: seq<Level>, k: nat): (run: nat)
    requires 1 <= k <= |s| && k <= LONGEST_RUN && forall i | 0 <= i < k :: s[i] == s[0]
    ensures k <= run <= |s| && run <= LONGEST_RUN
    ensures forall i | 0 <= i < run :: s[i] == s[0]
    ensures run == LONGEST_RUN || run == |s| || s[run] != s[0]
    decreases |s| - k
  {
    if k < |s| && s[k] == s[0] && k < LONGEST_RUN then RunFrom(s, k + 1) else k
  }

  ghost function Run(s: seq<Level>): (run: nat)
    requires s != []
    ensures 1 <= run <= |s| && run <= LONGEST_RUN
    ensures forall i | 0 <= i < run :: s[i] == s[0]
    ensures run == LONGEST_RUN || run == |s| || s[run] != s[0]
  {
    RunFrom(s, 1)
  }

  /** The level in the top two bits, the run less one below them. */
  function ByteFor(level: Level, run: nat): (b: Byte)
    requires 1 <= run <= LONGEST_RUN
    ensures LevelOf(b) == level && RunOf(b) == run
  {
    level * LONGEST_RUN + (run - 1)
  }

  ghost function Greedy(s: seq<Level>): Bytes {
    if s == [] then [] else [ByteFor(s[0], Run(s))] + Greedy(s[Run(s)..])
  }

  /** The format of one byte: its top two bits are the level, its low six the run less one. */
  lemma UnpackByte(b: Byte, rest: Bytes)
    ensures var run, all := b % 64 + 1, Unpack([b] + rest);
            && |all| == run + |Unpack(rest)| && all[run..] == Unpack(rest)
            && forall i | 0 <= i < run :: all[i] == b / 64
    ensures Unpack([]) == []
  {
    UnpackFront(b, rest);
  }

  lemma UnpackFront(b: Byte, rest: Bytes)
    ensures Unpack([b] + rest) == Repeat(LevelOf(b), RunOf(b)) + Unpack(rest)
  {
    assert ([b] + rest)[1..] == rest;
  }

  lemma GreedyStep(s: seq<Level>)
    requires s != []
    ensures Greedy(s) == [ByteFor(s[0], Run(s))] + Greedy(s[Run(s)..])
  {
  }

  lemma GreedyOfNone()
    ensures Greedy([]) == []
  {
  }

  lemma {:induction false} GreedyUnpacks(s: seq<Level>)
    ensures Unpack(Greedy(s)) == s
  {
    GreedyOfNone();
    if s != [] {
      hide Run, Unpack, Greedy, LevelOf, RunOf, ByteFor;
      GreedyUnpacks(s[Run(s)..]);
      GreedyStep(s);
      UnpackFront(ByteFor(s[0], Run(s)), Greedy(s[Run(s)..]));
      assert s == s[..Run(s)] + s[Run(s)..];
      assert Repeat(s[0], Run(s)) == s[..Run(s)];
    }
  }

  /** Dropping pixels from the front never makes the greedy code longer. */
  lemma {:induction false} GreedyShrinks(s: seq<Level>, k: nat)
    requires k <= |s|
    ensures |Greedy(s[k..])| <= |Greedy(s)|
    decreases |s|, k
  {
    if k == 0 {
      assert s[0..] == s;
    } else if k > 1 {
      GreedyShrinks(s, k - 1);
      var t := s[k - 1..];
      assert t[1..] == s[k..];
      GreedyShrinks(t, 1);
    } else {
      var t := s[1..];
      if Run(s) > 1 {
        var r := Run(t);
        assert forall i | 0 <= i < r :: t[i] == s[i + 1];
        if r == Run(s) - 1 {
          assert t[r..] == s[Run(s)..];
        } else {
          assert r == LONGEST_RUN == Run(s) by {
            RunOfTail(s);
          }
          var u := s[Run(s)..];
          assert t[r..] == u[1..];
          GreedyShrinks(u, 1);
        }
      }
    }
  }

  lemma RunOfTail(s: seq<Level>)
    requires |s| > 1 && Run(s) > 1
    ensures Run(s[1..]) == Run(s) - 1 || (Run(s[1..]) == Run(s) == LONGEST_RUN)
  {
    assert forall i | 0 <= i < |s[1..]| :: s[1..][i] == s[i + 1];
  }

  lemma UnpackHead(packed: Bytes)
    requires packed != []
    ensures var s, n := Unpack(packed), RunOf(packed[0]);
            1 <= n <= LONGEST_RUN && n <= |s| && s[n..] == Unpack(packed[1..]) && forall i | 0 <= i < n :: s[i] == s[0]
  {
    hide LevelOf;
  }

  /** No byte string that unpacks to the same pixels is shorter than the greedy one. */
  lemma {:induction false} GreedyIsShortest(packed: Bytes)
    ensures |Greedy(Unpack(packed))| <= |packed|
  {
    GreedyOfNone();
    if packed != [] {
      hide Unpack, Run, Greedy, RunOf;
      var s, n := Unpack(packed), RunOf(packed[0]);
      UnpackHead(packed);
      GreedyIsShortest(packed[1..]);
      GreedyStep(s);
      assert n <= Run(s);
      GreedyShrinks(s[n..], Run(s) - n);
      assert s[n..][Run(s) - n..] == s[Run(s)..];
    }
  }

  lemma GreedyIsBest(s: seq<Level>)
    ensures Unpack(Greedy(s)) == s
    ensures forall other | Unpack(other) == s :: |Greedy(s)| <= |other|
  {
    GreedyUnpacks(s);
    forall other | Unpack(other) == s ensures |Greedy(s)| <= |other| {
      GreedyIsShortest(other);
    }
  }

  /** The inner loop: how far the run that starts at index extends. */
  method MeasureRun(levels: seq<Level>, index: nat) returns (run: nat)
    requires index < |levels|
    ensures run == Run(levels[index..])
  {
    run := 1;
    ghost var s := levels[index..];
    while index + run < |levels| && levels[index + run] == levels[index] && run < LONGEST_RUN
      invariant 1 <= run <= LONGEST_RUN && index + run <= |levels|
      invariant forall i | 0 <= i < run :: s[i] == s[0]
      invariant RunFrom(s, run) == Run(s)
    {
      run := run + 1;
    }
  }

  /** Quantises to four levels and packs runs of up to 64 equal levels. */
  method PackedCoverage(values: Bytes) returns (packed: Bytes)
    ensures packed == Greedy(Levels(values))
    ensures Unpack(packed) == Levels(values)
    ensures forall other | Unpack(other) == Levels(values) :: |packed| <= |other|
  {
    hide Unpack, Levels, Run, Greedy;
    var levels := Levels(values);
    packed := [];
    var index := 0;
    assert levels[0..] == levels;
    while index < |levels|
      invariant 0 <= index <= |levels|
      invariant packed + Greedy(levels[index..]) == Greedy(levels)
    {
      var level := levels[index];
      var run := MeasureRun(levels, index);
      GreedyStep(levels[index..]);
      assert levels[index..][run..] == levels[index + run..];
      packed := packed + [ByteFor(level, run)];
      index := index + run;
    }
    GreedyOfNone();
    assert levels[index..] == [] && packed + [] == packed;
    GreedyIsBest(levels);
  }
}
