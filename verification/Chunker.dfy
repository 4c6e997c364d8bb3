/** Content-defined chunking: the loop of Repository::uploadFile that cuts a file into blocks. */
module Chunker {
  import opened Arithmetic
  import opened Bytes
  import opened Rolling

  /** The cut rule of one upload: hashBits low bits of the rolling hash must be zero. */
  datatype Rule = Rule(table: SubTable, hashBits: nat, minBlockSize: nat, maxBlockSize: nat)

  /** Where a run stands: blocks cut, the rolling window, and the block being filled. */
  datatype Run = Run(blocks: seq<seq<byte>>, window: seq<byte>, buffer: seq<byte>)

  predicate IsCut(rule: Rule, window: seq<byte>, size: nat) {
    LowBits(Wrap(WindowSum(rule.table, window)), rule.hashBits) == 0 || size >= rule.maxBlockSize
  }

  /** One byte. The hash is rolled only once the block has its minimum size. */
  function Step(rule: Rule, r: Run, b: byte): (r': Run)
    requires r.window != []
    ensures |r'.window| == |r.window|
  {
    var buffer := r.buffer + [b];
    if |buffer| < rule.minBlockSize then Run(r.blocks, r.window, buffer)
    else
      var window := Slide(r.window, b);
      if IsCut(rule, window, |buffer|) then Run(r.blocks + [buffer], window, [])
      else Run(r.blocks, window, buffer)
  }

  function Steps(rule: Rule, r: Run, input: seq<byte>): (r': Run)
    requires r.window != []
    ensures |r'.window| == |r.window|
  {
    if input == [] then r else Step(rule, Steps(rule, r, input[..|input| - 1]), input[|input| - 1])
  }

  /** What is uploaded: the blocks cut, then the last one if bytes are left. */
  function AllBlocks(r: Run): seq<seq<byte>> {
    if r.buffer == [] then r.blocks else r.blocks + [r.buffer]
  }

  function Start(windowSize: nat): Run {
    Run([], Zeros(windowSize), [])
  }

  /** The blocks of a file. */
  function Blocks(rule: Rule, windowSize: nat, file: seq<byte>): seq<seq<byte>>
    requires windowSize > 0
  {
    AllBlocks(Steps(rule, Start(windowSize), file))
  }

  // ----- bounds -----

  /** What every moment of a run satisfies, for the input consumed so far. */
  ghost predicate Sound(rule: Rule, r: Run, consumed: seq<byte>) {
    && Flatten(r.blocks) + r.buffer == consumed
    && (forall i :: 0 <= i < |r.blocks| ==>
          rule.minBlockSize <= |r.blocks[i]| <= Max(rule.minBlockSize, rule.maxBlockSize))
    && (forall i :: 0 <= i < |r.blocks| ==> r.blocks[i] != [])
    && (|r.buffer| < rule.minBlockSize || |r.buffer| < rule.maxBlockSize)
    && |r.blocks| * rule.minBlockSize <= |Flatten(r.blocks)|
  }

  lemma StepSound(rule: Rule, r: Run, consumed: seq<byte>, b: byte)
    requires r.window != [] && rule.minBlockSize > 0 && Sound(rule, r, consumed)
    ensures Sound(rule, Step(rule, r, b), consumed + [b])
  {
    hide LowBits, Wrap, WindowSum, Slide, Flatten;
    var buffer := r.buffer + [b];
    assert Flatten(r.blocks) + buffer == consumed + [b];
    var r' := Step(rule, r, b);
    if r'.buffer == [] {
      FlattenSnoc(r.blocks, buffer);
      NextMultiple(|r.blocks|, rule.minBlockSize);
      assert r'.blocks == r.blocks + [buffer];
      assert Flatten(r'.blocks) + [] == Flatten(r'.blocks);
    }
  }

  lemma NextMultiple(n: nat, m: nat)
    ensures (n + 1) * m == n * m + m
  {
  }

  lemma {:induction false} StepsSound(rule: Rule, windowSize: nat, input: seq<byte>)
    requires windowSize > 0 && rule.minBlockSize > 0
    ensures Sound(rule, Steps(rule, Start(windowSize), input), input)
    decreases |input|
  {
    if input != [] {
      var front := input[..|input| - 1];
      StepsSound(rule, windowSize, front);
      StepSound(rule, Steps(rule, Start(windowSize), front), front, input[|input| - 1]);
      assert input == front + [input[|input| - 1]];
    }
  }

  const MAX_BLOCKS := 65535

  /** The minimum block size chosen for a file of this length. */
  function MinBlockSize(fileLength: nat): nat {
    Max(4096, ToInt32((fileLength + 65534) / 65535))
  }

  /** The blocks spell the file; all but the last are at least the minimum, none exceeds the
      larger of minimum and maximum; and there are never more than a 16-bit count can hold,
      provided the file is no longer than it was said to be. */
  lemma BlockBounds(rule: Rule, windowSize: nat, file: seq<byte>, fileLength: nat)
    requires windowSize > 0 && rule.minBlockSize == MinBlockSize(fileLength)
    requires |file| <= fileLength && (fileLength + 65534) / 65535 < 0x8000_0000
    ensures var blocks := Blocks(rule, windowSize, file);
            && Flatten(blocks) == file
            && (forall i :: 0 <= i < |blocks| ==> 0 < |blocks[i]| <= Max(rule.minBlockSize, rule.maxBlockSize))
            && (forall i :: 0 <= i < |blocks| - 1 ==> |blocks[i]| >= rule.minBlockSize)
            && |blocks| <= 65535
  {
    hide Steps;
    var r := Steps(rule, Start(windowSize), file);
    StepsSound(rule, windowSize, file);
    FlattenSnoc(r.blocks, r.buffer);
    MinBlockLeast(fileLength);
    CountBound(|r.blocks|, rule.minBlockSize, |r.buffer|);
  }

  /** The minimum is the least size from 4096 on of which 65535 blocks cover the file. */
  lemma MinBlockLeast(fileLength: nat)
    requires (fileLength + 65534) / 65535 < 0x8000_0000
    ensures MinBlockSize(fileLength) >= 4096 && 65535 * MinBlockSize(fileLength) >= fileLength
    ensures forall m: nat :: m >= 4096 && 65535 * m >= fileLength ==> m >= MinBlockSize(fileLength)
  {
    var q := (fileLength + 65534) / 65535;
    assert 65535 * q >= fileLength && 65535 * (q - 1) < fileLength;
    assert ToInt32(q) == q;
  }

  lemma CountBound(n: nat, m: nat, last: nat)
    requires m > 0 && n * m + last <= MAX_BLOCKS * m
    ensures n <= MAX_BLOCKS && (n == MAX_BLOCKS ==> last == 0)
  {
    if n > MAX_BLOCKS {
      MulStrict(MAX_BLOCKS, n, m);
    }
  }

  // ----- resynchronisation -----

  lemma {:induction false} StepsAppend(rule: Rule, r: Run, a: seq<byte>, b: seq<byte>)
    requires r.window != []
    ensures Steps(rule, r, a + b) == Steps(rule, Steps(rule, r, a), b)
    decreases |b|
  {
    if b == [] {
      assert a + b == a;
    } else {
      assert (a + b)[..|a + b| - 1] == a + b[..|b| - 1];
      StepsAppend(rule, r, a, b[..|b| - 1]);
    }
  }

  /** Blocks already cut do not influence what follows. */
  lemma {:induction false} StepsIgnoreHistory(rule: Rule, r: Run, input: seq<byte>)
    requires r.window != []
    ensures var s := Steps(rule, Run([], r.window, r.buffer), input);
            Steps(rule, r, input) == Run(r.blocks + s.blocks, s.window, s.buffer)
    decreases |input|
  {
    if input != [] {
      StepsIgnoreHistory(rule, r, input[..|input| - 1]);
      var s := Steps(rule, Run([], r.window, r.buffer), input[..|input| - 1]);
      var block := s.buffer + [input[|input| - 1]];
      assert r.blocks + s.blocks + [block] == r.blocks + (s.blocks + [block]);
    } else {
      assert r.blocks + [] == r.blocks;
    }
  }

  /** The blocks that the rest of the input will give, from just after a cut. */
  function BlocksAfterCut(rule: Rule, window: seq<byte>, rest: seq<byte>): seq<seq<byte>>
    requires window != []
  {
    AllBlocks(Steps(rule, Run([], window, []), rest))
  }

  /** Two runs just after a cut, with the same last bytes rolled and the same input to come,
      cut that input into the same blocks. */
  lemma Resynchronised(rule: Rule, windowSize: nat, file: seq<byte>, rest: seq<byte>)
    requires windowSize > 0 && Steps(rule, Start(windowSize), file).buffer == []
    ensures var r := Steps(rule, Start(windowSize), file);
            Blocks(rule, windowSize, file + rest) == r.blocks + BlocksAfterCut(rule, r.window, rest)
  {
    var r := Steps(rule, Start(windowSize), file);
    StepsAppend(rule, Start(windowSize), file, rest);
    StepsIgnoreHistory(rule, r, rest);
    var s := Steps(rule, Run([], r.window, []), rest);
    if s.buffer != [] {
      assert r.blocks + s.blocks + [s.buffer] == r.blocks + (s.blocks + [s.buffer]);
    }
  }

  function DropFirst(s: seq<byte>, n: nat): seq<byte> {
    if |s| <= n then [] else s[n..]
  }

  /** A block that is still growing has not been cut before its end. */
  lemma NotCutEarlier(rule: Rule, r: Run, x: seq<byte>, k: nat)
    requires r.window != [] && k < |x| && Steps(rule, r, x).blocks == r.blocks + [x]
    ensures Steps(rule, r, x[..k]).blocks != r.blocks + [x[..k]]
  {
    hide IsCut, Step;
    var s := Steps(rule, r, x[..k]);
    assert x == x[..k] + x[k..];
    StepsAppend(rule, r, x[..k], x[k..]);
    StepsIgnoreHistory(rule, s, x[k..]);
    var more := Steps(rule, Run([], s.window, s.buffer), x[k..]).blocks;
    assert (r.blocks + [x[..k]] + more)[|r.blocks|] == x[..k];
    assert (r.blocks + [x])[|r.blocks|] == x;
  }

  /** One more rolled or unrolled byte of a block that is not cut there. */
  lemma FillOne(rule: Rule, r: Run, window: seq<byte>, front: seq<byte>, b: byte)
    requires r.window != [] && window != [] && rule.minBlockSize > 0
    requires r == Run(r.blocks, SlideAll(window, DropFirst(front, rule.minBlockSize - 1)), front)
    ensures var r' := Step(rule, r, b);
            && (r'.blocks != r.blocks + [front + [b]] ==> r'.blocks == r.blocks && r'.buffer == front + [b])
            && (r'.blocks == r.blocks + [front + [b]] ==> r'.buffer == [] && |front| + 1 >= rule.minBlockSize)
            && r'.window == SlideAll(window, DropFirst(front + [b], rule.minBlockSize - 1))
  {
    hide IsCut;
    var m := rule.minBlockSize - 1;
    assert |r.blocks + [front + [b]]| == |r.blocks| + 1;
    if |front| >= m {
      var dropped, dropped' := DropFirst(front, m), DropFirst(front + [b], m);
      assert dropped' == dropped + [b];
      assert dropped'[..|dropped'| - 1] == dropped;
    }
  }

  /** While the next block is being filled, exactly the bytes from the minimum size on are rolled. */
  lemma {:induction false} WhileFilling(rule: Rule, r: Run, x: seq<byte>, k: nat)
    requires r.window != [] && r.buffer == [] && rule.minBlockSize > 0 && k < |x|
    requires Steps(rule, r, x).blocks == r.blocks + [x]
    ensures Steps(rule, r, x[..k])
         == Run(r.blocks, SlideAll(r.window, DropFirst(x[..k], rule.minBlockSize - 1)), x[..k])
    decreases k
  {
    hide Step, IsCut, SlideAll, DropFirst;
    if k == 0 {
      NothingDropped(r.window, rule.minBlockSize - 1);
    } else {
      var front, b := x[..k - 1], x[k - 1];
      WhileFilling(rule, r, x, k - 1);
      assert x[..k][..k - 1] == front && x[..k] == front + [b];
      NotCutEarlier(rule, r, x, k);
      FillOne(rule, Steps(rule, r, front), r.window, front, b);
    }
  }

  lemma NothingDropped(window: seq<byte>, m: nat)
    requires window != []
    ensures SlideAll(window, DropFirst([], m)) == window
  {
  }

  /** After a block with a whole window of rolled bytes, the window is the end of that block. */
  lemma WindowAfterBlock(rule: Rule, r: Run, x: seq<byte>)
    requires r.window != [] && r.buffer == [] && rule.minBlockSize > 0
    requires Steps(rule, r, x).blocks == r.blocks + [x] && |x| >= rule.minBlockSize - 1 + |r.window|
    ensures Steps(rule, r, x) == Run(r.blocks + [x], x[|x| - |r.window|..], [])
  {
    hide Step, IsCut, SlideAll;
    var n, m := |x| - 1, rule.minBlockSize - 1;
    WhileFilling(rule, r, x, n);
    FillOne(rule, Steps(rule, r, x[..n]), r.window, x[..n], x[n]);
    assert x[..n] + [x[n]] == x;
    SlideAllIsSuffix(r.window, x[m..]);
    assert (r.window + x[m..])[|x| - m..] == x[|x| - |r.window|..];
  }

  /** Deduplication after an edit: once two files have one sufficiently long block in common,
      cut by both and followed by the same bytes, every later block is in common too. */
  lemma SharedBlockResynchronises(rule: Rule, windowSize: nat, p: seq<byte>, q: seq<byte>, x: seq<byte>,
                                  rest: seq<byte>)
    requires windowSize > 0 && rule.minBlockSize > 0 && |x| >= rule.minBlockSize - 1 + windowSize
    requires Steps(rule, Start(windowSize), p).buffer == [] && Steps(rule, Start(windowSize), q).buffer == []
    requires Steps(rule, Start(windowSize), p + x).blocks == Steps(rule, Start(windowSize), p).blocks + [x]
    requires Steps(rule, Start(windowSize), q + x).blocks == Steps(rule, Start(windowSize), q).blocks + [x]
    ensures var tail := BlocksAfterCut(rule, x[|x| - windowSize..], rest);
            && Blocks(rule, windowSize, p + x + rest) == Steps(rule, Start(windowSize), p).blocks + [x] + tail
            && Blocks(rule, windowSize, q + x + rest) == Steps(rule, Start(windowSize), q).blocks + [x] + tail
  {
    hide Steps, AllBlocks, BlocksAfterCut, Blocks;
    StepsAppend(rule, Start(windowSize), p, x);
    WindowAfterBlock(rule, Steps(rule, Start(windowSize), p), x);
    Resynchronised(rule, windowSize, p + x, rest);
    StepsAppend(rule, Start(windowSize), q, x);
    WindowAfterBlock(rule, Steps(rule, Start(windowSize), q), x);
    Resynchronised(rule, windowSize, q + x, rest);
  }

  // ----- the blocks by their content -----

  /** The window after a block that began with this one: what is before the minimum size is not
      rolled, and only the last bytes count. */
  function WindowAfter(rule: Rule, window: seq<byte>, x: seq<byte>): (w: seq<byte>)
    requires rule.minBlockSize > 0
    ensures |w| == |window|
  {
    var rolled := DropFirst(x, rule.minBlockSize - 1);
    (window + rolled)[|rolled|..]
  }

  /** Whether a block ends here: it has its minimum size, and its hash is divisible by 2^hashBits or
      it has its maximum size. */
  predicate EndsHere(rule: Rule, window: seq<byte>, x: seq<byte>)
    requires rule.minBlockSize > 0
  {
    && |x| >= rule.minBlockSize
    && (DividesHash(rule, WindowAfter(rule, window, x)) || |x| >= rule.maxBlockSize)
  }

  predicate DividesHash(rule: Rule, window: seq<byte>) {
    PowPositive(2, rule.hashBits);
    WindowSum(rule.table, window) % 0x1_0000_0000_0000_0000 % Pow(2, rule.hashBits) == 0
  }

  /** Every block but the last ends at its end, and none ends earlier. */
  ghost predicate CutRightly(rule: Rule, window: seq<byte>, blocks: seq<seq<byte>>)
    requires rule.minBlockSize > 0
    decreases |blocks|
  {
    blocks != [] ==>
      && blocks[0] != []
      && (forall k :: 0 < k < |blocks[0]| ==> !EndsHere(rule, window, blocks[0][..k]))
      && (|blocks| > 1 ==> EndsHere(rule, window, blocks[0]))
      && CutRightly(rule, WindowAfter(rule, window, blocks[0]), blocks[1..])
  }

  lemma WindowNext(rule: Rule, window: seq<byte>, front: seq<byte>, b: byte)
    requires window != [] && rule.minBlockSize > 0
    ensures WindowAfter(rule, window, front + [b])
         == if |front| + 1 < rule.minBlockSize then WindowAfter(rule, window, front)
            else Slide(WindowAfter(rule, window, front), b)
  {
    hide Slide;
    var m := rule.minBlockSize - 1;
    if |front| >= m {
      assert DropFirst(front + [b], m) == DropFirst(front, m) + [b];
      SlideEnd(window, DropFirst(front, m), b);
    }
  }

  lemma SlideEnd(window: seq<byte>, rolled: seq<byte>, b: byte)
    requires window != []
    ensures (window + (rolled + [b]))[|rolled| + 1..] == Slide((window + rolled)[|rolled|..], b)
  {
    assert window + (rolled + [b]) == (window + rolled) + [b];
    assert (window + rolled)[|rolled|..][1..] == (window + rolled)[|rolled| + 1..];
  }

  lemma CutMeans(rule: Rule, window: seq<byte>, size: nat)
    ensures IsCut(rule, window, size) <==> DividesHash(rule, window) || size >= rule.maxBlockSize
  {
    hide WindowSum, LowBits, Pow;
    LowBitsIsRemainder(Wrap(WindowSum(rule.table, window)), rule.hashBits);
    WrapIsRemainder(WindowSum(rule.table, window));
  }

  /** One byte of a block, by what the block is with it. */
  lemma StepMeans(rule: Rule, blocks: seq<seq<byte>>, window: seq<byte>, front: seq<byte>, b: byte)
    requires window != [] && rule.minBlockSize > 0
    ensures var x, w := front + [b], WindowAfter(rule, window, front + [b]);
            Step(rule, Run(blocks, WindowAfter(rule, window, front), front), b)
            == if EndsHere(rule, window, x) then Run(blocks + [x], w, []) else Run(blocks, w, x)
  {
    hide IsCut, DividesHash, WindowAfter, Slide;
    WindowNext(rule, window, front, b);
    CutMeans(rule, WindowAfter(rule, window, front + [b]), |front| + 1);
  }

  ghost predicate NoEndBefore(rule: Rule, window: seq<byte>, x: seq<byte>, n: nat)
    requires rule.minBlockSize > 0 && n <= |x|
  {
    forall k :: 0 < k < n ==> !EndsHere(rule, window, x[..k])
  }

  /** While a block grows, it is the whole input so far. */
  lemma {:induction false} Grows(rule: Rule, window: seq<byte>, x: seq<byte>, k: nat)
    requires window != [] && rule.minBlockSize > 0 && k < |x| && NoEndBefore(rule, window, x, k + 1)
    ensures Steps(rule, Run([], window, []), x[..k]) == Run([], WindowAfter(rule, window, x[..k]), x[..k])
    decreases k
  {
    hide Step, EndsHere, WindowAfter;
    if k == 0 {
      NothingRolled(rule, window);
    } else {
      Grows(rule, window, x, k - 1);
      assert x[..k][..k - 1] == x[..k - 1] && x[..k] == x[..k - 1] + [x[k - 1]];
      StepMeans(rule, [], window, x[..k - 1], x[k - 1]);
    }
  }

  lemma NothingRolled(rule: Rule, window: seq<byte>)
    requires rule.minBlockSize > 0
    ensures WindowAfter(rule, window, []) == window
  {
  }

  /** The run over a block that has not ended before. */
  lemma UpToHere(rule: Rule, window: seq<byte>, x: seq<byte>, n: nat)
    requires window != [] && rule.minBlockSize > 0 && 0 < n <= |x| && NoEndBefore(rule, window, x, n)
    ensures var w := WindowAfter(rule, window, x[..n]);
            Steps(rule, Run([], window, []), x[..n])
            == if EndsHere(rule, window, x[..n]) then Run([x[..n]], w, []) else Run([], w, x[..n])
  {
    hide Step, EndsHere, WindowAfter;
    Grows(rule, window, x, n - 1);
    assert x[..n][..n - 1] == x[..n - 1] && x[..n] == x[..n - 1] + [x[n - 1]];
    StepMeans(rule, [], window, x[..n - 1], x[n - 1]);
    assert [] + [x[..n]] == [x[..n]];
  }

  /** Where a block ends, and what the rest is cut into; or the last block. */
  lemma FirstBlock(rule: Rule, window: seq<byte>, x: seq<byte>, n: nat)
    requires window != [] && rule.minBlockSize > 0 && 0 < n <= |x| && NoEndBefore(rule, window, x, n)
    ensures EndsHere(rule, window, x[..n]) ==>
      BlocksAfterCut(rule, window, x)
      == [x[..n]] + BlocksAfterCut(rule, WindowAfter(rule, window, x[..n]), x[n..])
    ensures !EndsHere(rule, window, x[..n]) && n == |x| ==> BlocksAfterCut(rule, window, x) == [x]
  {
    hide Steps, EndsHere, WindowAfter, NoEndBefore;
    UpToHere(rule, window, x, n);
    var start, w := Run([], window, []), WindowAfter(rule, window, x[..n]);
    if EndsHere(rule, window, x[..n]) {
      assert x[..n] + x[n..] == x;
      StepsAppend(rule, start, x[..n], x[n..]);
      StepsIgnoreHistory(rule, Run([x[..n]], w, []), x[n..]);
      var s := Steps(rule, Run([], w, []), x[n..]);
      assert [x[..n]] + s.blocks + [s.buffer] == [x[..n]] + (s.blocks + [s.buffer]);
    } else if n == |x| {
      assert x[..n] == x;
    }
  }

  /** From just after a cut, the blocks of the rest are cut by their content. */
  lemma {:induction false} CutFrom(rule: Rule, window: seq<byte>, x: seq<byte>, n: nat)
    requires window != [] && rule.minBlockSize > 0 && 0 < n <= |x| && NoEndBefore(rule, window, x, n)
    ensures CutRightly(rule, window, BlocksAfterCut(rule, window, x))
    decreases |x|, |x| - n
  {
    hide EndsHere, WindowAfter, BlocksAfterCut;
    FirstBlock(rule, window, x, n);
    var first, blocks := x[..n], BlocksAfterCut(rule, window, x);
    assert forall k :: 0 < k < n ==> first[..k] == x[..k];
    if EndsHere(rule, window, first) {
      var w, rest := WindowAfter(rule, window, first), x[n..];
      if rest == [] {
        NothingToCut(rule, w);
      } else {
        CutFrom(rule, w, rest, 1);
      }
      assert blocks[0] == first && blocks[1..] == BlocksAfterCut(rule, w, rest);
    } else if n < |x| {
      CutFrom(rule, window, x, n + 1);
    } else {
      LastBlock(rule, window, x);
    }
  }

  lemma NothingToCut(rule: Rule, window: seq<byte>)
    requires window != [] && rule.minBlockSize > 0
    ensures BlocksAfterCut(rule, window, []) == [] && CutRightly(rule, window, [])
  {
  }

  lemma LastBlock(rule: Rule, window: seq<byte>, x: seq<byte>)
    requires window != [] && rule.minBlockSize > 0 && x != [] && NoEndBefore(rule, window, x, |x|)
    ensures CutRightly(rule, window, [x])
  {
    hide EndsHere, WindowAfter;
    assert [x][1..] == [];
    assert CutRightly(rule, WindowAfter(rule, window, x), []);
  }

  /** The blocks of a file are the pieces of it that end where their content says, and no others. */
  lemma BlocksByContent(rule: Rule, windowSize: nat, file: seq<byte>)
    requires windowSize > 0 && rule.minBlockSize > 0
    ensures CutRightly(rule, Zeros(windowSize), Blocks(rule, windowSize, file))
    ensures Flatten(Blocks(rule, windowSize, file)) == file
  {
    hide Steps, CutRightly;
    if file == [] {
      NothingToCut(rule, Zeros(windowSize));
    } else {
      CutFrom(rule, Zeros(windowSize), file, 1);
    }
    var r := Steps(rule, Start(windowSize), file);
    StepsSound(rule, windowSize, file);
    FlattenSnoc(r.blocks, r.buffer);
    assert r.buffer == [] ==> Flatten(r.blocks) + [] == Flatten(r.blocks);
  }

  lemma FlattenHead(blocks: seq<seq<byte>>)
    requires blocks != []
    ensures Flatten(blocks) == blocks[0] + Flatten(blocks[1..])
  {
    hide Flatten;
    assert blocks == [blocks[0]] + blocks[1..];
    FlattenAppend([blocks[0]], blocks[1..]);
    OnePart(blocks[0]);
  }

  /** There is only one way to cut a file so. */
  lemma {:induction false} OneWayToCut(rule: Rule, window: seq<byte>, a: seq<seq<byte>>, b: seq<seq<byte>>)
    requires rule.minBlockSize > 0 && CutRightly(rule, window, a) && CutRightly(rule, window, b)
    requires Flatten(a) == Flatten(b)
    ensures a == b
    decreases |a|
  {
    hide EndsHere, WindowAfter, Flatten;
    if a == [] || b == [] {
      NothingFlattened();
      if a != [] { FlattenHead(a); }
      if b != [] { FlattenHead(b); }
    } else {
      FlattenHead(a);
      FlattenHead(b);
      SameFirst(rule, window, a, b);
      var first := a[0];
      assert Flatten(a)[|first|..] == Flatten(a[1..]) && Flatten(b)[|first|..] == Flatten(b[1..]);
      OneWayToCut(rule, WindowAfter(rule, window, first), a[1..], b[1..]);
      assert a == [first] + a[1..] && b == [first] + b[1..];
    }
  }

  lemma SameFirst(rule: Rule, window: seq<byte>, a: seq<seq<byte>>, b: seq<seq<byte>>)
    requires rule.minBlockSize > 0 && CutRightly(rule, window, a) && CutRightly(rule, window, b)
    requires a != [] && b != [] && a[0] + Flatten(a[1..]) == b[0] + Flatten(b[1..])
    ensures a[0] == b[0]
  {
    hide EndsHere, WindowAfter, Flatten;
    if |a[0]| < |b[0]| {
      NotShorter(rule, window, a, b);
    } else if |b[0]| < |a[0]| {
      NotShorter(rule, window, b, a);
    } else {
      assert a[0] == (a[0] + Flatten(a[1..]))[..|a[0]|] == b[0];
    }
  }

  lemma NotShorter(rule: Rule, window: seq<byte>, a: seq<seq<byte>>, b: seq<seq<byte>>)
    requires rule.minBlockSize > 0 && CutRightly(rule, window, a) && CutRightly(rule, window, b)
    requires a != [] && b != [] && a[0] + Flatten(a[1..]) == b[0] + Flatten(b[1..])
    ensures |a[0]| >= |b[0]|
  {
    hide EndsHere, WindowAfter, Flatten;
    NothingFlattened();
    assert |a| == 1 ==> a[1..] == [];
    PrefixOfEither(a[0], Flatten(a[1..]), b[0], Flatten(b[1..]));
  }

  lemma PrefixOfEither(x: seq<byte>, xs: seq<byte>, y: seq<byte>, ys: seq<byte>)
    requires x + xs == y + ys
    ensures |x| < |y| ==> x == y[..|x|] && xs != []
  {
    if |x| < |y| {
      assert x == (x + xs)[..|x|] == y[..|x|];
      assert |x + xs| >= |y|;
    }
  }
}
