/** Base32 object names: section 6 of RFC 4648 in lower case and without padding.
    `<<`, `>>` and a mask of low bits are ShiftLeft, ShiftRight and LowBits. */
module Base32 {
  import opened Arithmetic
  import opened Bytes

  datatype Error = InvalidArgument | InsufficientBufferSize

  /** The alphabet: a to z, then 2 to 7. */
  function DigitToChar(d: int): char
    requires 0 <= d < 32
  {
    if d < 26 then 'a' + d as char else '2' + (d - 26) as char
  }

  function ToLower(c: char): char {
    if 'A' <= c <= 'Z' then c + 32 as char else c
  }

  /** The digit a character stands for, in either case. */
  function CharToDigit(ch: char): (d: Option<int>)
    ensures d.Some? ==> 0 <= d.value < 32 && DigitToChar(d.value) == ToLower(ch)
  {
    var c := ToLower(ch);
    if 'a' <= c <= 'z' then Some((c - 'a') as int)
    else if '2' <= c <= '7' then Some((c - '2') as int + 26)
    else None
  }

  lemma CharToDigitOfAlphabet(d: int)
    requires 0 <= d < 32
    ensures CharToDigit(DigitToChar(d)) == Some(d)
  {
  }

  function Chars(digits: seq<int>): (s: string)
    requires IsDigits(32, digits)
    ensures |s| == |digits|
  {
    seq(|digits|, k requires 0 <= k < |digits| => DigitToChar(digits[k]))
  }

  predicate AllDigits(s: string) {
    forall k :: 0 <= k < |s| ==> CharToDigit(s[k]).Some?
  }

  function ToDigits(s: string): (d: seq<int>)
    requires AllDigits(s)
    ensures |d| == |s| && IsDigits(32, d)
  {
    seq(|s|, k requires 0 <= k < |s| => CharToDigit(s[k]).value)
  }

  // ----- what the two operations mean -----

  function EncodedLength(n: nat): nat {
    (8 * n + 4) / 5
  }

  /** The bytes read as one number, shifted left to a whole number of 5-bit digits. */
  function Encoded(data: seq<byte>): (s: string)
    ensures |s| == EncodedLength(|data|)
  {
    var width := EncodedLength(|data|);
    LengthsOfEncoding(|data|);
    Chars(Digits(32, width, ShiftLeft(Value(256, data), 5 * width - 8 * |data|)))
  }

  predicate DecodableLength(n: nat) {
    TailLength(n % 8)
  }

  /** Lengths a last, incomplete group can have. */
  predicate TailLength(r: nat) {
    r == 0 || r == 2 || r == 4 || r == 5 || r == 7
  }

  function DecodedLength(n: nat): nat {
    (n / 8) * 5 + Extra(n % 8)
  }

  /** Bytes given by the characters after the last whole group. */
  function Extra(r: nat): nat {
    if r == 2 then 1 else if r == 4 then 2 else if r == 5 then 3 else if r == 7 then 4 else 0
  }

  /** Low bits of the last character that belong to no byte. */
  function SpareBits(n: nat): nat {
    var r := n % 8;
    if r == 2 then 2 else if r == 4 then 4 else if r == 5 then 1 else if r == 7 then 3 else 0
  }

  /** The digits read as one number, shifted right to a whole number of bytes. */
  function Decoded(s: string): (data: seq<byte>)
    requires DecodableLength(|s|) && AllDigits(s)
    ensures |data| == DecodedLength(|s|)
  {
    BigEndian(DecodedLength(|s|), ShiftRight(Value(32, ToDigits(s)), SpareBits(|s|)))
  }

  lemma LengthsOfEncoding(n: nat)
    ensures DecodableLength(EncodedLength(n)) && DecodedLength(EncodedLength(n)) == n
    ensures 0 <= 5 * EncodedLength(n) - 8 * n < 5
  {
    var q, r := n / 5, n % 5;
    assert n == 5 * q + r;
    var t := if r == 0 then 0 else if r == 1 then 2 else if r == 2 then 4 else if r == 3 then 5 else 7;
    DivideShifted(8 * q + t, 5, 8 * r + 4 - 5 * t);
    DivideShifted(q, 8, t);
  }

  lemma LengthsOfDecoding(n: nat)
    requires DecodableLength(n)
    ensures EncodedLength(DecodedLength(n)) == n && SpareBits(n) == 5 * n - 8 * DecodedLength(n)
  {
  }

  /** The 32 characters in the order of what they stand for. */
  lemma Alphabet(d: int)
    requires 0 <= d < 32
    ensures DigitToChar(d) == "abcdefghijklmnopqrstuvwxyz234567"[d]
  {
  }

  /** Exactly these characters stand for a digit, in upper case as in lower. */
  lemma AcceptedCharacters(c: char)
    ensures CharToDigit(c).Some? <==> 'a' <= c <= 'z' || 'A' <= c <= 'Z' || '2' <= c <= '7'
    ensures 'A' <= c <= 'Z' ==> CharToDigit(c) == CharToDigit((c as int + 32) as char)
  {
  }

  lemma DecodableExactly(n: nat)
    ensures DecodableLength(n) <==> exists m: nat :: EncodedLength(m) == n
  {
    if DecodableLength(n) {
      LengthsOfDecoding(n);
    } else {
      forall m: nat
        ensures EncodedLength(m) != n
      {
        LengthsOfEncoding(m);
      }
    }
  }

  // ----- encoding -----

  /** The emitted digits, followed by the bits still held back, spell the bytes consumed. */
  ghost predicate Accumulated(data: seq<byte>, digits: seq<int>, value: int, validBits: nat) {
    && 5 * |digits| + validBits == 8 * |data|
    && 0 <= value < Pow(2, validBits)
    && ShiftLeft(Value(32, digits), validBits) + value == Value(256, data)
  }

  lemma ShiftEight(v: int, k: nat)
    ensures ShiftLeft(v, k + 8) == 256 * ShiftLeft(v, k) && Pow(2, k + 8) == 256 * Pow(2, k)
  {
    ShiftFive(v, k);
    assert ShiftLeft(v, k + 8) == 2 * ShiftLeft(v, k + 7) == 4 * ShiftLeft(v, k + 6) == 8 * ShiftLeft(v, k + 5);
    assert Pow(2, k + 8) == 2 * Pow(2, k + 7) == 4 * Pow(2, k + 6) == 8 * Pow(2, k + 5);
  }

  lemma ShiftFive(v: int, k: nat)
    ensures ShiftLeft(v, k + 5) == 32 * ShiftLeft(v, k) && Pow(2, k + 5) == 32 * Pow(2, k)
  {
    assert ShiftLeft(v, k + 5) == 2 * ShiftLeft(v, k + 4) == 4 * ShiftLeft(v, k + 3) == 8 * ShiftLeft(v, k + 2)
        == 16 * ShiftLeft(v, k + 1);
    assert Pow(2, k + 5) == 2 * Pow(2, k + 4) == 4 * Pow(2, k + 3) == 8 * Pow(2, k + 2) == 16 * Pow(2, k + 1);
  }

  lemma ShiftThirtyTwo(v: int, k: nat)
    ensures ShiftLeft(32 * v, k) == 32 * ShiftLeft(v, k)
  {
    ShiftLeftDouble(v, k); ShiftLeftDouble(2 * v, k); ShiftLeftDouble(4 * v, k);
    ShiftLeftDouble(8 * v, k); ShiftLeftDouble(16 * v, k);
  }

  lemma TakeByte(data: seq<byte>, digits: seq<int>, value: int, validBits: nat, b: byte)
    requires Accumulated(data, digits, value, validBits)
    ensures Accumulated(data + [b], digits, value * 256 + b, validBits + 8)
  {
    ShiftEight(Value(32, digits), validBits);
    ValueSnoc(256, data, b);
  }

  lemma EmitDigit(data: seq<byte>, digits: seq<int>, value: int, validBits: nat)
    requires Accumulated(data, digits, value, validBits) && validBits >= 5 && IsDigits(32, digits)
    ensures 0 <= ShiftRight(value, validBits - 5) < 32
    ensures IsDigits(32, digits + [ShiftRight(value, validBits - 5)])
    ensures Chars(digits + [ShiftRight(value, validBits - 5)])
         == Chars(digits) + [DigitToChar(ShiftRight(value, validBits - 5))]
    ensures |digits| < EncodedLength(|data|)
    ensures Accumulated(data, digits + [ShiftRight(value, validBits - 5)], LowBits(value, validBits - 5), validBits - 5)
  {
    var shift := validBits - 5;
    var idx, v := ShiftRight(value, shift), Value(32, digits);
    ShiftRightBound(value, 5, shift);
    assert Pow(2, 5) == 2 * Pow(2, 4) == 4 * Pow(2, 3) == 8 * Pow(2, 2) == 16 * Pow(2, 1) == 32;
    SplitBits(value, shift);
    ShiftFive(v, shift);
    ShiftThirtyTwo(v, shift);
    ShiftLeftSum(32 * v, idx, shift);
    ValueSnoc(32, digits, idx);
  }

  lemma EncodedByValue(data: seq<byte>, digits: seq<int>, pad: nat)
    requires IsDigits(32, digits) && 5 * |digits| == 8 * |data| + pad && pad < 5
    requires Value(32, digits) == ShiftLeft(Value(256, data), pad)
    ensures Chars(digits) == Encoded(data)
  {
    LengthsOfEncoding(|data|);
    assert |digits| == EncodedLength(|data|);
    DigitsOfValue(32, digits);
  }

  lemma EmitLast(data: seq<byte>, digits: seq<int>, value: int, validBits: nat)
    requires Accumulated(data, digits, value, validBits) && 0 < validBits < 5 && IsDigits(32, digits)
    ensures 0 <= ShiftLeft(value, 5 - validBits) < 32
    ensures Chars(digits) + [DigitToChar(ShiftLeft(value, 5 - validBits))] == Encoded(data)
  {
    var pad, v := 5 - validBits, Value(32, digits);
    var d := ShiftLeft(value, pad);
    ShiftLeftBound(value, validBits, pad);
    assert Pow(2, 5) == 2 * Pow(2, 4) == 4 * Pow(2, 3) == 8 * Pow(2, 2) == 16 * Pow(2, 1) == 32;
    ValueSnoc(32, digits, d);
    ShiftLeftSum(ShiftLeft(v, validBits), value, pad);
    ShiftTwice(v, validBits, pad);
    ShiftFive(v, 0);
    assert ShiftLeft(Value(256, data), pad) == Value(32, digits + [d]);
    EncodedByValue(data, digits + [d], pad);
    assert Chars(digits + [d]) == Chars(digits) + [DigitToChar(d)];
  }

  lemma {:induction false} ShiftTwice(v: int, j: nat, k: nat)
    ensures ShiftLeft(ShiftLeft(v, j), k) == ShiftLeft(v, j + k)
    decreases k
  {
    if k > 0 {
      ShiftTwice(v, j, k - 1);
    }
  }

  lemma StartAccumulating()
    ensures Accumulated([], [], 0, 0) && IsDigits(32, []) && Chars([]) == []
  {
    assert Pow(2, 0) == 1;
  }

  lemma EmitNone(data: seq<byte>, digits: seq<int>, value: int)
    requires Accumulated(data, digits, value, 0) && IsDigits(32, digits)
    ensures Chars(digits) == Encoded(data)
  {
    assert Pow(2, 0) == 1;
    EncodedByValue(data, digits, 0);
  }

  /** base32encode: a streaming accumulator of at most 12 bits. It succeeds exactly when the
      buffer takes every digit and the terminator; otherwise the buffer is filled first. */
  method Encode(data: seq<byte>, out: array<char>) returns (r: Result<nat, Error>)
    modifies out
    ensures out.Length >= EncodedLength(|data|) + 1 ==>
              r == Ok(EncodedLength(|data|))
              && out[..EncodedLength(|data|)] == Encoded(data)
              && out[EncodedLength(|data|)] == '\0'
              && out[EncodedLength(|data|) + 1..] == old(out[..])[EncodedLength(|data|) + 1..]
    ensures out.Length <= EncodedLength(|data|) ==> r == Err(InsufficientBufferSize)
  {
    hide Accumulated, IsDigits, Chars, Encoded, ShiftLeft, ShiftRight, LowBits, DigitToChar;
    var value: int, validBits: int, k: int := 0, 0, 0;
    ghost var digits: seq<int> := [];
    StartAccumulating();
    for i := 0 to |data|
      invariant k == |digits| <= out.Length && k <= EncodedLength(|data|)
      invariant 0 <= validBits < 5 && Accumulated(data[..i], digits, value, validBits)
      invariant IsDigits(32, digits) && out[..k] == Chars(digits)
      invariant forall j :: k <= j < out.Length ==> out[j] == old(out[j])
    {
      TakeByte(data[..i], digits, value, validBits, data[i]);
      assert data[..i] + [data[i]] == data[..i + 1];
      value, validBits := value * 256 + data[i], validBits + 8;
      while validBits >= 5
        invariant k == |digits| <= out.Length && k <= EncodedLength(|data|)
        invariant 0 <= validBits < 13 && Accumulated(data[..i + 1], digits, value, validBits)
        invariant IsDigits(32, digits) && out[..k] == Chars(digits)
        invariant forall j :: k <= j < out.Length ==> out[j] == old(out[j])
      {
        EmitDigit(data[..i + 1], digits, value, validBits);
        assert EncodedLength(i + 1) <= EncodedLength(|data|);
        var shift := validBits - 5;
        var idx := ShiftRight(value, shift);
        if k >= out.Length {
          return Err(InsufficientBufferSize);
        }
        out[k] := DigitToChar(idx);
        assert out[..k + 1] == out[..k] + [DigitToChar(idx)];
        k, digits := k + 1, digits + [idx];
        value, validBits := LowBits(value, shift), shift;
      }
    }
    assert data[..|data|] == data;
    if validBits > 0 {
      EmitLast(data, digits, value, validBits);
      if k >= out.Length {
        return Err(InsufficientBufferSize);
      }
      var last := DigitToChar(ShiftLeft(value, 5 - validBits));
      out[k] := last;
      assert out[..k + 1] == Chars(digits) + [last];
      k := k + 1;
    } else {
      EmitNone(data, digits, value);
    }
    if k >= out.Length {
      return Err(InsufficientBufferSize);
    }
    out[k] := '\0';
    assert out[..k] == Encoded(data);
    return Ok(k);
  }

  // ----- decoding -----

  lemma AppendTwo(s: seq<byte>, a: byte, b: byte)
    ensures Value(256, s + [a, b]) == Value(256, s) * 0x1_0000 + a * 0x100 + b
  {
    ValueSnoc(256, s, a);
    ValueSnoc(256, s + [a], b);
    assert s + [a] + [b] == s + [a, b];
  }

  lemma AppendThree(s: seq<byte>, a: byte, b: byte, c: byte)
    ensures Value(256, s + [a, b, c]) == Value(256, s) * 0x100_0000 + a * 0x1_0000 + b * 0x100 + c
  {
    AppendTwo(s, a, b);
    ValueSnoc(256, s + [a, b], c);
    assert s + [a, b] + [c] == s + [a, b, c];
  }

  lemma AppendFour(s: seq<byte>, a: byte, b: byte, c: byte, d: byte)
    ensures Value(256, s + [a, b, c, d])
         == Value(256, s) * 0x1_0000_0000 + a * 0x100_0000 + b * 0x1_0000 + c * 0x100 + d
  {
    AppendTwo(s, a, b);
    AppendTwo(s + [a, b], c, d);
    assert s + [a, b] + [c, d] == s + [a, b, c, d];
  }

  lemma AppendFive(s: seq<byte>, a: byte, b: byte, c: byte, d: byte, e: byte)
    ensures Value(256, s + [a, b, c, d, e])
         == Value(256, s) * 0x100_0000_0000 + a * 0x1_0000_0000 + b * 0x100_0000 + c * 0x1_0000 + d * 0x100 + e
  {
    AppendFour(s, a, b, c, d);
    ValueSnoc(256, s + [a, b, c, d], e);
    assert s + [a, b, c, d] + [e] == s + [a, b, c, d, e];
  }

  /** Reading the last `k` digits of a prefix off one at a time. */
  lemma PrefixDigits(s: seq<int>, i: nat, k: nat)
    requires i + k <= |s| && 0 < k
    ensures Value(32, s[..i + k]) == Value(32, s[..i + k - 1]) * 32 + s[i + k - 1]
  {
    assert s[..i + k][..i + k - 1] == s[..i + k - 1];
  }

  lemma TwoDigits(s: seq<int>, i: nat)
    requires i + 2 <= |s|
    ensures Value(32, s[..i + 2]) == Value(32, s[..i]) * 0x400 + s[i] * 0x20 + s[i + 1]
  {
    PrefixDigits(s, i, 1);
    PrefixDigits(s, i, 2);
  }

  lemma FourDigits(s: seq<int>, i: nat)
    requires i + 4 <= |s|
    ensures Value(32, s[..i + 4])
         == Value(32, s[..i]) * 0x10_0000 + s[i] * 0x8000 + s[i + 1] * 0x400 + s[i + 2] * 0x20 + s[i + 3]
  {
    TwoDigits(s, i);
    TwoDigits(s, i + 2);
  }

  lemma FiveDigits(s: seq<int>, i: nat)
    requires i + 5 <= |s|
    ensures Value(32, s[..i + 5]) == Value(32, s[..i]) * 0x200_0000 + s[i] * 0x10_0000 + s[i + 1] * 0x8000
                                   + s[i + 2] * 0x400 + s[i + 3] * 0x20 + s[i + 4]
  {
    FourDigits(s, i);
    PrefixDigits(s, i, 5);
  }

  lemma SevenDigits(s: seq<int>, i: nat)
    requires i + 7 <= |s|
    ensures Value(32, s[..i + 7]) == Value(32, s[..i]) * 0x8_0000_0000 + s[i] * 0x4000_0000 + s[i + 1] * 0x200_0000
                                   + s[i + 2] * 0x10_0000 + s[i + 3] * 0x8000 + s[i + 4] * 0x400
                                   + s[i + 5] * 0x20 + s[i + 6]
  {
    FiveDigits(s, i);
    TwoDigits(s, i + 5);
  }

  lemma EightDigits(s: seq<int>, i: nat)
    requires i + 8 <= |s|
    ensures Value(32, s[..i + 8])
         == Value(32, s[..i]) * 0x100_0000_0000 + s[i] * 0x8_0000_0000 + s[i + 1] * 0x4000_0000 + s[i + 2] * 0x200_0000
          + s[i + 3] * 0x10_0000 + s[i + 4] * 0x8000 + s[i + 5] * 0x400 + s[i + 6] * 0x20 + s[i + 7]
  {
    SevenDigits(s, i);
    PrefixDigits(s, i, 8);
  }

  /** The bytes assembled from five-bit digits, as the shifts and masks of base32decode give them. */
  function Byte0(a: int, b: int): byte
    requires 0 <= a < 32 && 0 <= b < 32
  {
    a * 8 + b / 4
  }

  function Byte1(b: int, c: int, d: int): byte
    requires 0 <= b < 32 && 0 <= c < 32 && 0 <= d < 32
  {
    (b % 4) * 64 + c * 2 + d / 16
  }

  function Byte2(d: int, e: int): byte
    requires 0 <= d < 32 && 0 <= e < 32
  {
    (d % 16) * 16 + e / 2
  }

  function Byte3(e: int, f: int, g: int): byte
    requires 0 <= e < 32 && 0 <= f < 32 && 0 <= g < 32
  {
    (e % 2) * 128 + f * 4 + g / 8
  }

  function Byte4(g: int, h: int): byte
    requires 0 <= g < 32 && 0 <= h < 32
  {
    (g % 8) * 32 + h
  }

  lemma DecodeGroup(s: seq<int>, i: nat, done: seq<byte>)
    requires IsDigits(32, s) && i + 8 <= |s| && Value(256, done) == Value(32, s[..i])
    ensures Value(256, done + [Byte0(s[i], s[i+1]), Byte1(s[i+1], s[i+2], s[i+3]), Byte2(s[i+3], s[i+4]),
                               Byte3(s[i+4], s[i+5], s[i+6]), Byte4(s[i+6], s[i+7])])
         == Value(32, s[..i + 8])
  {
    EightDigits(s, i);
    AppendFive(done, Byte0(s[i], s[i+1]), Byte1(s[i+1], s[i+2], s[i+3]), Byte2(s[i+3], s[i+4]),
               Byte3(s[i+4], s[i+5], s[i+6]), Byte4(s[i+6], s[i+7]));
  }

  function GroupBytes(t: seq<int>): (s: seq<byte>)
    requires IsDigits(32, t) && |t| == 8
    ensures |s| == 5
  {
    [Byte0(t[0], t[1]), Byte1(t[1], t[2], t[3]), Byte2(t[3], t[4]), Byte3(t[4], t[5], t[6]), Byte4(t[6], t[7])]
  }

  lemma DecodeNextGroup(front: seq<int>, t: seq<int>, done: seq<byte>)
    requires IsDigits(32, front) && IsDigits(32, t) && |t| == 8 && Value(256, done) == Value(32, front)
    ensures Value(256, done + GroupBytes(t)) == Value(32, front + t)
  {
    var s, i := front + t, |front|;
    assert s[..i] == front && s[..i + 8] == s;
    DecodeGroup(s, i, done);
  }

  /** The bytes of the last, incomplete group: 2, 4, 5 or 7 digits give 1, 2, 3 or 4 bytes. */
  function TailBytes(t: seq<int>): (s: seq<byte>)
    requires IsDigits(32, t) && TailLength(|t|)
    ensures |s| == DecodedLength(|t|)
  {
    if |t| == 0 then []
    else if |t| == 2 then [Byte0(t[0], t[1])]
    else if |t| == 4 then [Byte0(t[0], t[1]), Byte1(t[1], t[2], t[3])]
    else if |t| == 5 then [Byte0(t[0], t[1]), Byte1(t[1], t[2], t[3]), Byte2(t[3], t[4])]
    else [Byte0(t[0], t[1]), Byte1(t[1], t[2], t[3]), Byte2(t[3], t[4]), Byte3(t[4], t[5], t[6])]
  }

  lemma ShiftOut(v: int)
    ensures ShiftRight(v, 0) == v && ShiftRight(v, 1) == v / 2 && ShiftRight(v, 2) == v / 4
    ensures ShiftRight(v, 3) == v / 8 && ShiftRight(v, 4) == v / 16
  {
    assert ShiftRight(v, 4) == ShiftRight(v / 2, 3) == ShiftRight(v / 2 / 2, 2) == ShiftRight(v / 2 / 2 / 2, 1);
    assert ShiftRight(v, 3) == ShiftRight(v / 2, 2) == ShiftRight(v / 2 / 2, 1);
  }

  lemma DecodeTail(s: seq<int>, i: nat, done: seq<byte>)
    requires IsDigits(32, s) && i <= |s| && TailLength(|s| - i)
    requires Value(256, done) == Value(32, s[..i])
    ensures Value(256, done + TailBytes(s[i..])) == ShiftRight(Value(32, s), SpareBits(|s| - i))
  {
    var t, n := s[i..], |s| - i;
    assert s[..i + n] == s;
    if n == 0 {
      assert done + [] == done;
    } else if n == 2 {
      DecodeTwo(s, i, done);
    } else if n == 4 {
      DecodeFour(s, i, done);
    } else if n == 5 {
      DecodeFive(s, i, done);
    } else {
      DecodeSeven(s, i, done);
    }
  }

  lemma DecodeTwo(s: seq<int>, i: nat, done: seq<byte>)
    requires IsDigits(32, s) && i + 2 == |s| && Value(256, done) == Value(32, s[..i])
    ensures Value(256, done + [Byte0(s[i], s[i+1])]) == ShiftRight(Value(32, s), 2)
  {
    assert s[..i + 2] == s;
    ShiftOut(Value(32, s));
    TwoDigits(s, i);
    ValueSnoc(256, done, Byte0(s[i], s[i+1]));
  }

  lemma DecodeFour(s: seq<int>, i: nat, done: seq<byte>)
    requires IsDigits(32, s) && i + 4 == |s| && Value(256, done) == Value(32, s[..i])
    ensures Value(256, done + [Byte0(s[i], s[i+1]), Byte1(s[i+1], s[i+2], s[i+3])]) == ShiftRight(Value(32, s), 4)
  {
    assert s[..i + 4] == s;
    ShiftOut(Value(32, s));
    FourDigits(s, i);
    AppendTwo(done, Byte0(s[i], s[i+1]), Byte1(s[i+1], s[i+2], s[i+3]));
  }

  lemma DecodeFive(s: seq<int>, i: nat, done: seq<byte>)
    requires IsDigits(32, s) && i + 5 == |s| && Value(256, done) == Value(32, s[..i])
    ensures Value(256, done + [Byte0(s[i], s[i+1]), Byte1(s[i+1], s[i+2], s[i+3]), Byte2(s[i+3], s[i+4])])
         == ShiftRight(Value(32, s), 1)
  {
    assert s[..i + 5] == s;
    ShiftOut(Value(32, s));
    FiveDigits(s, i);
    AppendThree(done, Byte0(s[i], s[i+1]), Byte1(s[i+1], s[i+2], s[i+3]), Byte2(s[i+3], s[i+4]));
  }

  lemma DecodeSeven(s: seq<int>, i: nat, done: seq<byte>)
    requires IsDigits(32, s) && i + 7 == |s| && Value(256, done) == Value(32, s[..i])
    ensures Value(256, done + [Byte0(s[i], s[i+1]), Byte1(s[i+1], s[i+2], s[i+3]), Byte2(s[i+3], s[i+4]),
                               Byte3(s[i+4], s[i+5], s[i+6])])
         == ShiftRight(Value(32, s), 3)
  {
    assert s[..i + 7] == s;
    ShiftOut(Value(32, s));
    SevenDigits(s, i);
    AppendFour(done, Byte0(s[i], s[i+1]), Byte1(s[i+1], s[i+2], s[i+3]),
               Byte2(s[i+3], s[i+4]), Byte3(s[i+4], s[i+5], s[i+6]));
  }

  lemma {:induction false} BytesAreDigits(s: seq<byte>)
    ensures IsDigits(256, s) && BigEndian(|s|, Value(256, s)) == s
    decreases |s|
  {
    if s != [] {
      BytesAreDigits(s[..|s| - 1]);
      assert s == s[..|s| - 1] + [s[|s| - 1]];
    }
  }

  /** The next `k` characters as digits; None if one of them is not in the alphabet. */
  method ReadDigits(s: string, i: nat, k: nat) returns (t: Option<seq<int>>)
    requires i + k <= |s|
    ensures t.Some? <==> AllDigits(s[i..i + k])
    ensures t.Some? ==> t.value == ToDigits(s[i..i + k])
  {
    var digits: seq<int> := [];
    for j := 0 to k
      invariant AllDigits(s[i..i + j]) && digits == ToDigits(s[i..i + j])
    {
      var d := CharToDigit(s[i + j]);
      if d.None? {
        assert s[i..i + k][j] == s[i + j];
        return None;
      }
      assert s[i..i + j + 1] == s[i..i + j] + [s[i + j]];
      digits := digits + [d.value];
    }
    return Some(digits);
  }

  lemma SplitToDigits(s: string, t: string)
    ensures AllDigits(s + t) <==> AllDigits(s) && AllDigits(t)
    ensures AllDigits(s + t) ==> ToDigits(s + t) == ToDigits(s) + ToDigits(t)
  {
    assert forall k :: 0 <= k < |s| ==> (s + t)[k] == s[k];
    assert forall k :: 0 <= k < |t| ==> (s + t)[|s| + k] == t[k];
  }

  /** The first `groups` groups of eight characters have become these bytes. */
  ghost predicate GroupsDecoded(s: string, groups: nat, bytes: seq<byte>) {
    && 8 * groups <= |s| && |bytes| == 5 * groups
    && AllDigits(s[..8 * groups])
    && Value(256, bytes) == Value(32, ToDigits(s[..8 * groups]))
  }

  lemma NoGroupDecoded(s: string)
    ensures GroupsDecoded(s, 0, [])
  {
  }

  lemma NextGroupDecoded(s: string, g: nat, bytes: seq<byte>)
    requires GroupsDecoded(s, g, bytes) && 8 * (g + 1) <= |s| && AllDigits(s[8 * g..8 * g + 8])
    ensures GroupsDecoded(s, g + 1, bytes + GroupBytes(ToDigits(s[8 * g..8 * g + 8])))
  {
    var front, group := s[..8 * g], s[8 * g..8 * g + 8];
    assert s[..8 * (g + 1)] == front + group;
    SplitToDigits(front, group);
    DecodeNextGroup(ToDigits(front), ToDigits(group), bytes);
  }

  lemma BadSlice(s: string, i: nat, j: nat)
    requires i <= j <= |s| && !AllDigits(s[i..j])
    ensures !AllDigits(s)
  {
    assert s == s[..i] + s[i..j] + s[j..];
    SplitToDigits(s[..i], s[i..j]);
    SplitToDigits(s[..i] + s[i..j], s[j..]);
  }

  /** The loop over whole groups: eight characters give five bytes. */
  method DecodeGroups(s: string, groups: nat, out: array<byte>) returns (ok: bool)
    requires 8 * groups <= |s| && 5 * groups <= out.Length
    modifies out
    ensures ok ==> GroupsDecoded(s, groups, out[..5 * groups])
    ensures !ok ==> !AllDigits(s)
    ensures forall j :: 5 * groups <= j < out.Length ==> out[j] == old(out[j])
  {
    hide GroupsDecoded, GroupBytes;
    NoGroupDecoded(s);
    assert out[..0] == [];
    for g := 0 to groups
      invariant GroupsDecoded(s, g, out[..5 * g])
      invariant forall j :: 5 * g <= j < out.Length ==> out[j] == old(out[j])
    {
      var i, n := 8 * g, 5 * g;
      var group := ReadDigits(s, i, 8);
      if group.None? {
        BadSlice(s, i, i + 8);
        return false;
      }
      NextGroupDecoded(s, g, out[..n]);
      PutBytes(out, n, GroupBytes(group.value));
    }
    return true;
  }

  lemma LengthSplit(n: nat, q: nat, r: nat)
    requires n == 8 * q + r && r < 8
    ensures DecodedLength(n) == 5 * q + DecodedLength(r) && SpareBits(n) == SpareBits(r)
    ensures DecodableLength(n) <==> TailLength(r)
  {
    DivideShifted(q, 8, r);
  }

  /** base32decode: whole groups of eight characters, then the tail. */
  method Decode(s: string, out: array<byte>) returns (r: Result<nat, Error>)
    modifies out
    ensures r.Ok? <==> DecodableLength(|s|) && DecodedLength(|s|) <= out.Length && AllDigits(s)
    ensures r.Ok? ==> r.value == DecodedLength(|s|) && out[..r.value] == Decoded(s)
    ensures r.Ok? ==> out[r.value..] == old(out[..])[r.value..]
    ensures r.Err? ==> r.error == if DecodableLength(|s|) && out.Length < DecodedLength(|s|)
                                  then InsufficientBufferSize else InvalidArgument
  {
    hide GroupsDecoded, TailBytes, Decoded, ToDigits;
    if !DecodableLength(|s|) {
      return Err(InvalidArgument);
    }
    if out.Length < DecodedLength(|s|) {
      return Err(InsufficientBufferSize);
    }
    var groups, extra := |s| / 8, |s| % 8;
    LengthSplit(|s|, groups, extra);
    var i, n := 8 * groups, 5 * groups;
    var whole := DecodeGroups(s, groups, out);
    if !whole {
      return Err(InvalidArgument);
    }
    var tail := ReadDigits(s, i, extra);
    if tail.None? {
      BadSlice(s, i, i + extra);
      return Err(InvalidArgument);
    }
    FinishDecoding(s, groups, extra, out[..n]);
    PutBytes(out, n, TailBytes(tail.value));
    return Ok(n + DecodedLength(extra));
  }

  /** The bytes of the whole groups followed by those of the tail are the decoded string. */
  lemma FinishDecoding(s: string, groups: nat, extra: nat, done: seq<byte>)
    requires |s| == 8 * groups + extra && extra < 8 && DecodableLength(|s|)
    requires GroupsDecoded(s, groups, done) && AllDigits(s[8 * groups..8 * groups + extra])
    ensures AllDigits(s) && TailLength(extra)
    ensures done + TailBytes(ToDigits(s[8 * groups..8 * groups + extra])) == Decoded(s)
  {
    hide Value, Digits, ShiftLeft, ShiftRight, CharToDigit, IsDigits, TailBytes, Decoded;
    var i := 8 * groups;
    LengthSplit(|s|, groups, extra);
    assert s == s[..i] + s[i..i + extra];
    SplitToDigits(s[..i], s[i..i + extra]);
    var tail := ToDigits(s[i..i + extra]);
    DecodeLast(ToDigits(s[..i]), tail, done);
    DecodedByValue(s, done + TailBytes(tail));
  }

  lemma DecodeLast(front: seq<int>, t: seq<int>, done: seq<byte>)
    requires IsDigits(32, front) && IsDigits(32, t) && TailLength(|t|)
    requires Value(256, done) == Value(32, front)
    ensures Value(256, done + TailBytes(t)) == ShiftRight(Value(32, front + t), SpareBits(|t|))
  {
    var s, i := front + t, |front|;
    assert s[..i] == front && s[i..] == t;
    DecodeTail(s, i, done);
  }

  lemma DecodedByValue(s: string, bytes: seq<byte>)
    requires DecodableLength(|s|) && AllDigits(s) && |bytes| == DecodedLength(|s|)
    requires Value(256, bytes) == ShiftRight(Value(32, ToDigits(s)), SpareBits(|s|))
    ensures bytes == Decoded(s)
  {
    BytesAreDigits(bytes);
  }

  /** Stores bytes at consecutive positions of the output. */
  method PutBytes(out: array<byte>, n: nat, bytes: seq<byte>)
    requires n + |bytes| <= out.Length
    modifies out
    ensures out[..n + |bytes|] == old(out[..n]) + bytes
    ensures forall j :: n + |bytes| <= j < out.Length ==> out[j] == old(out[j])
  {
    for j := 0 to |bytes|
      invariant out[..n] == old(out[..n]) && out[n..n + j] == bytes[..j]
      invariant forall m :: n + j <= m < out.Length ==> out[m] == old(out[m])
    {
      out[n + j] := bytes[j];
    }
    assert out[..n + |bytes|] == out[..n] + out[n..n + |bytes|];
  }

  // ----- round trips -----

  lemma CharsAreDigits(digits: seq<int>)
    requires IsDigits(32, digits)
    ensures AllDigits(Chars(digits)) && ToDigits(Chars(digits)) == digits
  {
    forall k | 0 <= k < |digits|
      ensures CharToDigit(Chars(digits)[k]) == Some(digits[k])
    {
      CharToDigitOfAlphabet(digits[k]);
    }
  }

  lemma {:induction false} PowOfTwo(n: nat)
    ensures Pow(32, n) == Pow(2, 5 * n) && Pow(256, n) == Pow(2, 8 * n)
    decreases n
  {
    if n > 0 {
      PowOfTwo(n - 1);
      ShiftFive(0, 5 * (n - 1));
      ShiftEight(0, 8 * (n - 1));
    }
  }

  /** Decoding an encoding returns the bytes. */
  lemma DecodeEncode(data: seq<byte>)
    ensures DecodableLength(|Encoded(data)|) && AllDigits(Encoded(data))
    ensures Decoded(Encoded(data)) == data
  {
    hide Digits, Value, ShiftLeft, ShiftRight, Pow, BigEndian, IsDigits, DigitToChar, CharToDigit;
    var width := EncodedLength(|data|);
    LengthsOfEncoding(|data|);
    var pad := 5 * width - 8 * |data|;
    var v := ShiftLeft(Value(256, data), pad);
    var digits := Digits(32, width, v);
    assert Value(32, digits) == v by {
      EncodedFits(data, pad, width);
      ValueOfDigits(32, width, v);
    }
    CharsAreDigits(digits);
    assert ShiftRight(v, pad) == Value(256, data) by {
      PowPositive(2, pad);
      ShiftBack(Value(256, data), 0, pad);
    }
    BytesAreDigits(data);
  }

  lemma EncodedFits(data: seq<byte>, pad: nat, width: nat)
    requires 8 * |data| + pad == 5 * width
    ensures 0 <= ShiftLeft(Value(256, data), pad) < Pow(32, width)
  {
    BytesAreDigits(data);
    ValueBound(256, data);
    PowOfTwo(|data|);
    PowOfTwo(width);
    ShiftLeftBound(Value(256, data), 8 * |data|, pad);
  }

  lemma DecodedFits(digits: seq<int>, n: nat, pad: nat)
    requires IsDigits(32, digits) && 8 * n + pad == 5 * |digits|
    ensures 0 <= ShiftRight(Value(32, digits), pad) < Pow(256, n)
  {
    ValueBound(32, digits);
    PowOfTwo(n);
    PowOfTwo(|digits|);
    ShiftRightBound(Value(32, digits), 8 * n, pad);
  }

  /** Encoding a decoded string returns it in lower case exactly when its spare low bits are zero. */
  lemma EncodeDecode(s: string)
    requires DecodableLength(|s|) && AllDigits(s)
    ensures Encoded(Decoded(s)) == Chars(ToDigits(s)) <==> LowBits(Value(32, ToDigits(s)), SpareBits(|s|)) == 0
  {
    var n, digits := DecodedLength(|s|), ToDigits(s);
    LengthsOfDecoding(|s|);
    var pad, v := SpareBits(|s|), Value(32, digits);
    var w := ShiftLeft(ShiftRight(v, pad), pad);
    ValueOfDecoded(s, n, pad);
    EncodedOf(Decoded(s), |s|, pad);
    SplitBits(v, pad);
    EncodedFits(Decoded(s), pad, |s|);
    SameCharacters(digits, w, LowBits(v, pad));
  }

  lemma DigitsOfAb()
    ensures AllDigits("ab") && ToDigits("ab") == [0, 1] && Chars([0, 1]) == "ab"
  {
  }

  lemma LowBitsOfAb()
    ensures Value(32, [0, 1]) == 1 && LowBits(1, 2) == 1 && SpareBits(2) == 2 && DecodableLength(2)
  {
    var none: seq<int> := [];
    assert [0, 1][..1] == [0] && [0][..0] == none;
    assert Value(32, [0]) == 0;
    assert LowBits(0, 1) == 0;
  }

  /** A string that is decoded but not encoded back. */
  lemma SpareBitsLost()
    ensures DecodableLength(|"ab"|) && AllDigits("ab") && Encoded(Decoded("ab")) != "ab"
  {
    hide *;
    DigitsOfAb();
    LowBitsOfAb();
    EncodeDecode("ab");
  }

  lemma EncodedOf(data: seq<byte>, width: nat, pad: nat)
    requires width == EncodedLength(|data|) && pad == 5 * width - 8 * |data|
    ensures Encoded(data) == Chars(Digits(32, width, ShiftLeft(Value(256, data), pad)))
  {
    assert 5 * EncodedLength(|data|) - 8 * |data| == pad;
  }

  lemma ValueOfDecoded(s: string, n: nat, pad: nat)
    requires DecodableLength(|s|) && AllDigits(s)
    requires n == DecodedLength(|s|) && pad == SpareBits(|s|)
    ensures Value(256, Decoded(s)) == ShiftRight(Value(32, ToDigits(s)), pad)
  {
    LengthsOfDecoding(|s|);
    DecodedFits(ToDigits(s), n, pad);
    BigEndianValue(n, ShiftRight(Value(32, ToDigits(s)), pad));
  }

  lemma SameCharacters(digits: seq<int>, w: int, low: int)
    requires IsDigits(32, digits) && Value(32, digits) == w + low && 0 <= w < Pow(32, |digits|)
    ensures Chars(Digits(32, |digits|, w)) == Chars(digits) <==> low == 0
  {
    ValueOfDigits(32, |digits|, w);
    CharsAreDigits(Digits(32, |digits|, w));
    CharsAreDigits(digits);
    DigitsOfValue(32, digits);
  }

  lemma {:induction false} BigEndianValue(n: nat, v: int)
    requires 0 <= v < Pow(256, n)
    ensures Value(256, BigEndian(n, v)) == v
    decreases n
  {
    if n > 0 {
      BigEndianValue(n - 1, v / 256);
      ValueSnoc(256, BigEndian(n - 1, v / 256), v % 256);
    }
  }

  // ----- what they are, in numbers -----

  /** An encoding has a character for every five bits begun. It spells the number that the bytes are,
      most significant first, with zero bits added at its end. */
  lemma EncodedValue(data: seq<byte>)
    ensures var s, spare := Encoded(data), 5 * |Encoded(data)| - 8 * |data|;
            && 0 <= spare < 5 && AllDigits(s)
            && Value(32, ToDigits(s)) == Value(256, data) * Pow(2, spare)
  {
    hide Value, Digits, ShiftLeft, DigitToChar, CharToDigit, IsDigits;
    LengthsOfEncoding(|data|);
    var width := EncodedLength(|data|);
    var spare := 5 * width - 8 * |data|;
    var v := ShiftLeft(Value(256, data), spare);
    EncodedFits(data, spare, width);
    CharsAreDigits(Digits(32, width, v));
    ValueOfDigits(32, width, v);
    ShiftLeftIsProduct(Value(256, data), spare);
  }

  /** A string can be decoded if it is as long as some encoding. What it spells, without the bits at
      its end that belong to no byte, is the number that the bytes are. */
  lemma DecodedValue(s: string)
    requires DecodableLength(|s|) && AllDigits(s)
    ensures 0 <= SpareBits(|s|) == 5 * |s| - 8 * |Decoded(s)| < 5 && Pow(2, SpareBits(|s|)) > 0
    ensures Value(256, Decoded(s)) == Value(32, ToDigits(s)) / Pow(2, SpareBits(|s|))
  {
    hide Value, BigEndian, ShiftRight, CharToDigit, ToDigits, IsDigits;
    LengthsOfDecoding(|s|);
    var v, spare, n := Value(32, ToDigits(s)), SpareBits(|s|), DecodedLength(|s|);
    ValueBound(32, ToDigits(s));
    DecodedFits(ToDigits(s), n, spare);
    BigEndianValue(n, ShiftRight(v, spare));
    SplitBits(v, spare);
    ShiftLeftIsProduct(ShiftRight(v, spare), spare);
    DivideShifted(ShiftRight(v, spare), Pow(2, spare), LowBits(v, spare));
  }

  // ----- object names -----

  /** Repository::objectIdToString: two characters, a slash, the other fifty. */
  function ObjectName(id: seq<byte>): (s: string)
    requires |id| == 32
  {
    var e := Encoded(id);
    e[..2] + "/" + e[2..]
  }

  /** A name has 53 characters with a slash after the second; without it, it is decoded to the id. */
  lemma ObjectNameDecodes(id: seq<byte>)
    requires |id| == 32
    ensures var name := ObjectName(id);
            && |name| == 53 && name[2] == '/'
            && var e := name[..2] + name[3..];
               DecodableLength(|e|) && AllDigits(e) && Decoded(e) == id
  {
    var e := Encoded(id);
    assert ObjectName(id)[..2] + ObjectName(id)[3..] == e;
    DecodeEncode(id);
  }

  /** Different object ids have different names in the store. */
  lemma ObjectNameInjective(id: seq<byte>, id': seq<byte>)
    requires |id| == 32 && |id'| == 32 && ObjectName(id) == ObjectName(id')
    ensures id == id'
  {
    var e, e' := Encoded(id), Encoded(id');
    assert e == ObjectName(id)[..2] + ObjectName(id)[3..];
    assert e' == ObjectName(id')[..2] + ObjectName(id')[3..];
    DecodeEncode(id);
    DecodeEncode(id');
  }

  method ObjectIdToString(id: seq<byte>) returns (s: string)
    requires |id| == 32
    ensures s == ObjectName(id)
  {
    var outStr := new char[53];
    var r := Encode(id, outStr);
    assert EncodedLength(32) == 52;
    s := outStr[..2] + "/" + outStr[2..52];
    assert outStr[..52][2..] == outStr[2..52];
  }
}
