/** The keyed rolling hash over the last bytes seen: a ring buffer and one multiplication per byte,
    against the weighted sum it stands for. Unsigned 64-bit arithmetic wraps modulo 2^64. */
module Rolling {
  import opened Arithmetic
  import opened Bytes

  const MODULUS := 0x1_0000_0000_0000_0000

  /** The byte substitution drawn from the key: 256 unsigned 32-bit values. */
  type SubTable = t: seq<uint32> | |t| == 256 witness seq(256, _ => 0)

  function Wrap(n: int): (r: int)
    ensures 0 <= r < 0x1_0000_0000_0000_0000 && (n - r) % 0x1_0000_0000_0000_0000 == 0
  {
    n % MODULUS
  }

  lemma WrapIsRemainder(n: int)
    ensures Wrap(n) == n % 0x1_0000_0000_0000_0000
  {
  }

  /** The number a window stands for: the oldest byte has the highest power of 33. */
  function WindowSum(t: SubTable, w: seq<byte>): int {
    if w == [] then 0 else t[w[0]] * Pow(33, |w| - 1) + WindowSum(t, w[1..])
  }

  /** What the last bytes become when one more arrives. */
  function Slide(w: seq<byte>, c: byte): (w': seq<byte>)
    requires w != []
    ensures |w'| == |w|
  {
    w[1..] + [c]
  }

  /** Only the last |w| bytes ever rolled matter. */
  function SlideAll(w: seq<byte>, s: seq<byte>): (w': seq<byte>)
    requires w != []
    ensures |w'| == |w|
  {
    if s == [] then w else Slide(SlideAll(w, s[..|s| - 1]), s[|s| - 1])
  }

  lemma {:induction false} SlideAllIsSuffix(w: seq<byte>, s: seq<byte>)
    requires w != []
    ensures SlideAll(w, s) == (w + s)[|s|..]
    decreases |s|
  {
    if s != [] {
      var front := s[..|s| - 1];
      SlideAllIsSuffix(w, front);
      assert w + s == (w + front) + [s[|s| - 1]];
    }
  }

  // ----- arithmetic of one roll -----

  lemma {:induction false} SumSnoc(t: SubTable, w: seq<byte>, c: byte)
    ensures WindowSum(t, w + [c]) == WindowSum(t, w) * 33 + t[c]
    decreases |w|
  {
    if w == [] {
      assert Pow(33, 0) == 1;
    } else {
      SumSnoc(t, w[1..], c);
      assert (w + [c])[1..] == w[1..] + [c];
      MulAssoc(t[w[0]], 33, Pow(33, |w| - 1));
      assert (t[w[0]] * Pow(33, |w| - 1)) * 33 == t[w[0]] * (33 * Pow(33, |w| - 1));
    }
  }

  /** Sliding the window: shift every weight up, drop the oldest byte, add the newest. */
  lemma SumSlide(t: SubTable, w: seq<byte>, c: byte)
    requires w != []
    ensures WindowSum(t, Slide(w, c)) == WindowSum(t, w) * 33 + t[c] - Pow(33, |w|) * t[w[0]]
  {
    SumSnoc(t, w[1..], c);
    Weight(t[w[0]], Pow(33, |w| - 1), WindowSum(t, w[1..]));
  }

  lemma Weight(x: int, p: int, rest: int)
    ensures (x * p + rest) * 33 - (33 * p) * x == rest * 33
  {
    MulAssoc(33, p, x);
  }

  lemma WrapShift(a: int, k: int)
    ensures Wrap(a + k * MODULUS) == Wrap(a)
  {
    DivideShifted(a / MODULUS + k, MODULUS, a % MODULUS);
  }

  lemma WrapProduct(a: int, b: int)
    ensures Wrap(Wrap(a) * Wrap(b)) == Wrap(a * b)
  {
    var qa, qb, x, y := a / MODULUS, b / MODULUS, Wrap(a), Wrap(b);
    assert a == qa * MODULUS + x && b == qb * MODULUS + y;
    ProductResidue(qa, x, qb, y);
    WrapShift(x * y, qa * b + x * qb);
  }

  lemma ProductResidue(qa: int, x: int, qb: int, y: int)
    ensures (qa * MODULUS + x) * (qb * MODULUS + y) == x * y + (qa * (qb * MODULUS + y) + x * qb) * MODULUS
  {
    var b := qb * MODULUS + y;
    assert (qa * MODULUS + x) * b == (qa * b) * MODULUS + x * b;
    assert x * b == (x * qb) * MODULUS + x * y;
  }

  /** The wrapped update agrees with the unwrapped one. */
  lemma WrapRoll(h: int, p: int, x: int, c: int)
    ensures Wrap(Wrap(h) * 33 + c - Wrap(Wrap(p) * x)) == Wrap(h * 33 + c - p * x)
  {
    var q, r := h / MODULUS, p / MODULUS;
    assert h == q * MODULUS + Wrap(h) && p == r * MODULUS + Wrap(p);
    var k := (Wrap(p) * x) / MODULUS;
    assert Wrap(p) * x == k * MODULUS + Wrap(Wrap(p) * x);
    assert p * x == (r * x) * MODULUS + Wrap(p) * x;
    WrapShift(Wrap(h) * 33 + c - Wrap(Wrap(p) * x), q * 33 - r * x - k);
  }

  lemma {:induction false} PowSquare(b: nat, k: nat)
    ensures Pow(b, 2 * k) == Pow(b * b, k)
    decreases k
  {
    if k > 0 {
      PowSquare(b, k - 1);
      assert Pow(b, 2 * k) == b * (b * Pow(b, 2 * (k - 1)));
      MulAssoc(b, b, Pow(b, 2 * (k - 1)));
    }
  }

  /** Square and multiply, keeping only residues modulo 2^64. */
  method PowerWrapped(b: nat, e: nat) returns (power: int)
    ensures power == Wrap(Pow(b, e))
  {
    power := 1;
    var base, u := Wrap(b), e;
    ghost var b': nat, acc: nat := b, 1;
    while u > 0
      invariant base == Wrap(b') && power == Wrap(acc)
      invariant acc * Pow(b', u) == Pow(b, e)
    {
      SquareStep(b', acc, u);
      if u % 2 == 1 {
        WrapProduct(b', acc);
        power := Wrap(base * power);
        acc := b' * acc;
      }
      WrapProduct(b', b');
      base, b' := Wrap(base * base), b' * b';
      u := u / 2;
    }
    assert Pow(b', 0) == 1;
  }

  lemma SquareStep(b: nat, acc: nat, u: nat)
    requires u > 0
    ensures (if u % 2 == 1 then b * acc else acc) * Pow(b * b, u / 2) == acc * Pow(b, u)
  {
    PowSquare(b, u / 2);
    var p := Pow(b * b, u / 2);
    if u % 2 == 1 {
      assert Pow(b, u) == b * Pow(b, 2 * (u / 2));
      MulAssoc(b, acc, p);
      MulAssoc(acc, b, p);
    } else {
      assert u == 2 * (u / 2);
    }
  }

  function Zeros(n: nat): seq<byte> {
    seq(n, _ => 0)
  }

  lemma ZeroSum(t: SubTable)
    ensures Wrap(WindowSum(t, Zeros(0))) == 0
  {
  }

  lemma NextZero(t: SubTable, i: nat)
    ensures Wrap(WindowSum(t, Zeros(i + 1))) == Wrap(Wrap(WindowSum(t, Zeros(i))) * 33 + t[0])
  {
    assert Zeros(i + 1) == Zeros(i) + [0];
    SumSnoc(t, Zeros(i), 0);
    WrapRoll(WindowSum(t, Zeros(i)), 0, 0, t[0]);
  }

  lemma NextIndex(i: nat, n: nat)
    requires i < n
    ensures (i + 1) % n == if i + 1 == n then 0 else i + 1
  {
    if i + 1 == n {
      DivideShifted(1, n, 0);
    } else {
      DivideShifted(0, n, i + 1);
    }
  }

  /** The ring after writing over its oldest byte. */
  lemma RingSlide(ring: seq<byte>, index: nat, next: nat, c: byte)
    requires index < |ring| && next == (if index + 1 == |ring| then 0 else index + 1)
    ensures (ring[index + 1..] + ring[..index + 1])[0] == ring[next]
    ensures var after := ring[next := c];
            after[next + 1..] + after[..next + 1] == Slide(ring[index + 1..] + ring[..index + 1], c)
  {
  }

  class RollingHash {
    const table: SubTable
    const windowSize: nat
    var constantPowWinSize: int
    var hash: int
    var index: nat
    const window: array<byte>

    /** The last windowSize bytes rolled, oldest first, whatever the rotation of the ring. */
    ghost function Window(): (w: seq<byte>)
      requires index < window.Length
      reads this, window
      ensures |w| == window.Length
    {
      window[index + 1..] + window[..index + 1]
    }

    ghost predicate Valid()
      reads this, window
    {
      && windowSize > 0 && window.Length == windowSize && index < windowSize
      && constantPowWinSize == Wrap(Pow(33, windowSize))
      && hash == Wrap(WindowSum(table, Window()))
    }

    constructor (table: SubTable, windowSize: nat)
      requires windowSize > 0
      ensures Valid() && fresh(window)
      ensures this.table == table && Window() == Zeros(windowSize)
    {
      this.table, this.windowSize := table, windowSize;
      index := windowSize - 1;
      window := new byte[windowSize](_ => 0);
      constantPowWinSize := 1;
      hash := 0;
      new;
      hide Pow, Wrap, WindowSum;
      ZeroSum(table);
      constantPowWinSize := PowerWrapped(33, windowSize);
      for i := 0 to windowSize
        invariant hash == Wrap(WindowSum(table, Zeros(i)))
        invariant constantPowWinSize == Wrap(Pow(33, windowSize))
        invariant index == windowSize - 1 && window[..] == Zeros(windowSize)
      {
        NextZero(table, i);
        hash := Wrap(hash * 33 + table[0]);
      }
      assert Window() == Zeros(windowSize);
    }

    /** One more byte: the window slides and the hash follows it. */
    method Roll(c: byte) returns (h: int)
      requires Valid()
      modifies this`index, this`hash, window
      ensures Valid() && Window() == Slide(old(Window()), c)
      ensures h == hash == Wrap(WindowSum(table, Slide(old(Window()), c)))
    {
      hide WindowSum, Pow, Wrap, Slide;
      ghost var w, ring := Window(), window[..];
      SumSlide(table, w, c);
      NextIndex(index, windowSize);
      var next := (index + 1) % windowSize;
      RingSlide(ring, index, next, c);
      var sub := Wrap(constantPowWinSize * table[window[next]]);
      WrapRoll(WindowSum(table, w), Pow(33, windowSize), table[window[next]], table[c]);
      index := next;
      window[index] := c;
      assert window[..] == ring[next := c];
      hash := Wrap(hash * 33 + table[c] - sub);
      return hash;
    }
  }
}
