/** Bytes, results and positional numerals: the vocabulary of every format in the system. */
module Bytes {
  import opened Arithmetic

  /** Where unsigned 32-bit numbers wrap around. */
  const TWO_TO_THE_32 := 0x1_0000_0000

  type byte = b: int | 0 <= b < 256
  type uint32 = n: int | 0 <= n < 0x1_0000_0000

  datatype Option<+T> = None | Some(value: T)

  datatype Result<+T, +E> = Ok(value: T) | Err(error: E) {
    predicate IsFailure() {
      Err?
    }

    function PropagateFailure<U>(): Result<U, E>
      requires Err?
    {
      Err(error)
    }

    function Extract(): T
      requires Ok?
    {
      value
    }
  }

  function Min(a: int, b: int): int {
    if a < b then a else b
  }

  function Max(a: int, b: int): int {
    if a > b then a else b
  }

  /** A C conversion to a 32-bit signed integer. */
  function ToInt32(n: int): (r: int)
    ensures -0x8000_0000 <= r < 0x8000_0000 && (n - r) % 0x1_0000_0000 == 0
  {
    var m := n % 0x1_0000_0000;
    if m < 0x8000_0000 then m else m - 0x1_0000_0000
  }

  function Pow(b: nat, e: nat): nat {
    if e == 0 then 1 else b * Pow(b, e - 1)
  }

  lemma {:induction false} PowPositive(b: nat, e: nat)
    requires b > 0
    ensures Pow(b, e) > 0
  {
    if e > 0 {
      PowPositive(b, e - 1);
    }
  }

  // ----- shifts -----

  function ShiftLeft(v: int, k: nat): int {
    if k == 0 then v else 2 * ShiftLeft(v, k - 1)
  }

  function ShiftRight(v: int, k: nat): int
    decreases k
  {
    if k == 0 then v else ShiftRight(v / 2, k - 1)
  }

  /** The k lowest bits: what a mask of k ones keeps. */
  function LowBits(v: int, k: nat): int
    decreases k
  {
    if k == 0 then 0 else v % 2 + 2 * LowBits(v / 2, k - 1)
  }

  lemma {:induction false} ShiftLeftSum(a: int, b: int, k: nat)
    ensures ShiftLeft(a + b, k) == ShiftLeft(a, k) + ShiftLeft(b, k)
  {
    if k > 0 {
      ShiftLeftSum(a, b, k - 1);
    }
  }

  lemma {:induction false} ShiftLeftDouble(a: int, k: nat)
    ensures ShiftLeft(2 * a, k) == 2 * ShiftLeft(a, k)
  {
    if k > 0 {
      ShiftLeftDouble(a, k - 1);
    }
  }

  /** A number is its high bits in place plus its low bits. */
  lemma {:induction false} SplitBits(v: int, k: nat)
    ensures v == ShiftLeft(ShiftRight(v, k), k) + LowBits(v, k)
    ensures 0 <= LowBits(v, k) < Pow(2, k)
    decreases k
  {
    if k > 0 {
      SplitBits(v / 2, k - 1);
    }
  }

  lemma {:induction false} ShiftRightBound(v: nat, m: nat, k: nat)
    requires v < Pow(2, m + k)
    ensures 0 <= ShiftRight(v, k) < Pow(2, m)
    decreases k
  {
    if k > 0 {
      ShiftRightBound(v / 2, m, k - 1);
    }
  }

  lemma {:induction false} ShiftLeftBound(v: nat, m: nat, k: nat)
    requires v < Pow(2, m)
    ensures 0 <= ShiftLeft(v, k) < Pow(2, m + k)
    decreases k
  {
    if k > 0 {
      ShiftLeftBound(v, m, k - 1);
    }
  }

  /** Shifting back and forth; a low part below 2^k is shifted out. */
  lemma {:induction false} ShiftBack(v: int, low: int, k: nat)
    requires 0 <= low < Pow(2, k)
    ensures ShiftRight(ShiftLeft(v, k) + low, k) == v
    ensures LowBits(ShiftLeft(v, k) + low, k) == low
    decreases k
  {
    if k > 0 {
      ShiftBack(v, low / 2, k - 1);
      assert (ShiftLeft(v, k) + low) / 2 == ShiftLeft(v, k - 1) + low / 2;
    }
  }

  lemma {:induction false} ShiftLeftIsProduct(v: int, k: nat)
    ensures ShiftLeft(v, k) == v * Pow(2, k)
  {
    if k > 0 {
      ShiftLeftIsProduct(v, k - 1);
    }
  }

  /** A mask of k ones keeps the remainder by 2^k. */
  lemma LowBitsIsRemainder(v: int, k: nat)
    ensures Pow(2, k) > 0 && LowBits(v, k) == v % Pow(2, k)
  {
    hide LowBits, ShiftLeft, ShiftRight, Pow;
    SplitBits(v, k);
    ShiftLeftIsProduct(ShiftRight(v, k), k);
    DivideShifted(ShiftRight(v, k), Pow(2, k), LowBits(v, k));
  }

  // ----- big-endian numerals -----

  predicate IsDigits(base: int, s: seq<int>) {
    forall k :: 0 <= k < |s| ==> 0 <= s[k] < base
  }

  /** The number whose digits, most significant first, are s. */
  function Value(base: int, s: seq<int>): int {
    if s == [] then 0 else Value(base, s[..|s| - 1]) * base + s[|s| - 1]
  }

  /** The lowest `width` digits of v, most significant first. */
  function Digits(base: int, width: nat, v: int): (s: seq<int>)
    requires base > 0
    ensures |s| == width && IsDigits(base, s)
    decreases width
  {
    if width == 0 then [] else Digits(base, width - 1, v / base) + [v % base]
  }

  lemma ValueSnoc(base: int, s: seq<int>, d: int)
    ensures Value(base, s + [d]) == Value(base, s) * base + d
  {
    assert (s + [d])[..|s|] == s;
  }

  lemma {:induction false} DigitsOfValue(base: nat, s: seq<int>)
    requires base > 0 && IsDigits(base, s)
    ensures Digits(base, |s|, Value(base, s)) == s
    decreases |s|
  {
    if s != [] {
      var front, last := s[..|s| - 1], s[|s| - 1];
      DigitsOfValue(base, front);
      DivideShifted(Value(base, front), base, last);
      assert s == front + [last];
    }
  }

  lemma {:induction false} ValueOfDigits(base: int, width: nat, v: int)
    requires base > 0 && 0 <= v < Pow(base, width)
    ensures Value(base, Digits(base, width, v)) == v
    decreases width
  {
    if width > 0 {
      PopDigit(v, base, Pow(base, width - 1));
      ValueOfDigits(base, width - 1, v / base);
      ValueSnoc(base, Digits(base, width - 1, v / base), v % base);
    }
  }

  lemma PopDigit(v: int, base: int, p: int)
    requires base > 0 && p >= 0 && 0 <= v < base * p
    ensures 0 <= v / base < p && (v / base) * base + v % base == v
  {
    assert base * p == p * base;
    QuotientBelow(v, base, p);
  }

  lemma {:induction false} ValueBound(base: nat, s: seq<int>)
    requires base > 0 && IsDigits(base, s)
    ensures 0 <= Value(base, s) < Pow(base, |s|)
    decreases |s|
  {
    if s != [] {
      var front := s[..|s| - 1];
      ValueBound(base, front);
      AppendDigitBound(Value(base, front), Pow(base, |front|), base, s[|s| - 1]);
    }
  }

  // ----- byte numerals -----

  function BigEndian(width: nat, v: int): (s: seq<byte>)
    ensures |s| == width
    decreases width
  {
    if width == 0 then [] else BigEndian(width - 1, v / 256) + [v % 256]
  }

  function LittleEndian(width: nat, v: int): (s: seq<byte>)
    ensures |s| == width
    decreases width
  {
    if width == 0 then [] else [v % 256] + LittleEndian(width - 1, v / 256)
  }

  function FromBigEndian(s: seq<byte>): nat {
    if s == [] then 0 else FromBigEndian(s[..|s| - 1]) * 256 + s[|s| - 1]
  }

  function FromLittleEndian(s: seq<byte>): nat {
    if s == [] then 0 else s[0] + 256 * FromLittleEndian(s[1..])
  }

  lemma {:induction false} FromLittleEndianBound(s: seq<byte>)
    ensures FromLittleEndian(s) < Pow(256, |s|)
    decreases |s|
  {
    if s != [] {
      FromLittleEndianBound(s[1..]);
    }
  }

  /** Byte k of a little-endian numeral counts the powers 256^k. */
  lemma {:induction false} LittleEndianByte(width: nat, v: nat, k: nat)
    requires k < width
    ensures Pow(256, k) > 0 && LittleEndian(width, v)[k] == v / Pow(256, k) % 256
    decreases width
  {
    PowPositive(256, k);
    if k > 0 {
      LittleEndianByte(width - 1, v / 256, k - 1);
      PowPositive(256, k - 1);
      DivideTwice(v, 256, Pow(256, k - 1));
    }
  }

  /** Byte k of a big-endian numeral counts them from the other end. */
  lemma {:induction false} BigEndianByte(width: nat, v: nat, k: nat)
    requires k < width
    ensures Pow(256, width - 1 - k) > 0 && BigEndian(width, v)[k] == v / Pow(256, width - 1 - k) % 256
    decreases width
  {
    PowPositive(256, width - 1 - k);
    if k < width - 1 {
      BigEndianByte(width - 1, v / 256, k);
      PowPositive(256, width - 2 - k);
      DivideTwice(v, 256, Pow(256, width - 2 - k));
    }
  }

  lemma {:induction false} LittleEndianRoundTrip(width: nat, v: nat)
    requires v < Pow(256, width)
    ensures FromLittleEndian(LittleEndian(width, v)) == v
    decreases width
  {
    if width > 0 {
      LittleEndianRoundTrip(width - 1, v / 256);
    }
  }

  lemma {:induction false} BigEndianRoundTrip(width: nat, v: nat)
    requires v < Pow(256, width)
    ensures FromBigEndian(BigEndian(width, v)) == v
    decreases width
  {
    if width > 0 {
      BigEndianRoundTrip(width - 1, v / 256);
    }
  }

  /** Every string of `width` bytes is the big-endian form of its own value. */
  lemma {:induction false} BigEndianOfValue(s: seq<byte>)
    ensures BigEndian(|s|, FromBigEndian(s)) == s
    ensures FromBigEndian(s) < Pow(256, |s|)
    decreases |s|
  {
    if s != [] {
      BigEndianOfValue(s[..|s| - 1]);
      assert s == s[..|s| - 1] + [s[|s| - 1]];
    }
  }

  lemma PowersOf256()
    ensures Pow(256, 1) == 0x100 && Pow(256, 2) == 0x1_0000 && Pow(256, 4) == 0x1_0000_0000
    ensures Pow(256, 8) == 0x1_0000_0000_0000_0000
  {
    assert Pow(256, 3) == 0x100_0000;
    assert Pow(256, 5) == 0x100_0000_0000;
    assert Pow(256, 6) == 0x1_0000_0000_0000;
    assert Pow(256, 7) == 0x100_0000_0000_0000;
  }

  // ----- concatenation -----

  function Flatten(parts: seq<seq<byte>>): seq<byte> {
    if parts == [] then [] else Flatten(parts[..|parts| - 1]) + parts[|parts| - 1]
  }

  lemma FlattenSnoc(parts: seq<seq<byte>>, part: seq<byte>)
    ensures Flatten(parts + [part]) == Flatten(parts) + part
  {
    assert (parts + [part])[..|parts|] == parts;
  }

  lemma NothingFlattened()
    ensures Flatten([]) == []
  {
  }

  lemma OnePart(part: seq<byte>)
    ensures [] + [part] == [part] && Flatten([part]) == part
  {
    FlattenSnoc([], part);
    assert [] + [part] == [part] && [] + part == part;
  }

  lemma FlattenNext(parts: seq<seq<byte>>, i: nat)
    requires i < |parts|
    ensures Flatten(parts[..i + 1]) == Flatten(parts[..i]) + parts[i]
  {
    assert parts[..i + 1] == parts[..i] + [parts[i]];
    FlattenSnoc(parts[..i], parts[i]);
  }

  lemma {:induction false} FlattenAppend(a: seq<seq<byte>>, b: seq<seq<byte>>)
    ensures Flatten(a + b) == Flatten(a) + Flatten(b)
    decreases |b|
  {
    if b == [] {
      assert a + b == a;
    } else {
      var front, last := b[..|b| - 1], b[|b| - 1];
      FlattenAppend(a, front);
      assert a + b == (a + front) + [last];
      FlattenSnoc(a + front, last);
      assert Flatten(b) == Flatten(front) + last;
    }
  }

  /** Part k of a concatenation lies where the parts before it end. */
  lemma FlattenSpan(parts: seq<seq<byte>>, k: nat)
    requires k < |parts|
    ensures |Flatten(parts[..k + 1])| == |Flatten(parts[..k])| + |parts[k]| <= |Flatten(parts)|
    ensures Flatten(parts)[|Flatten(parts[..k])|..|Flatten(parts[..k + 1])|] == parts[k]
  {
    FlattenSnoc(parts[..k], parts[k]);
    assert parts[..k + 1] == parts[..k] + [parts[k]];
    FlattenAppend(parts[..k + 1], parts[k + 1..]);
    assert parts == parts[..k + 1] + parts[k + 1..];
  }
}
