/** Base64 VLQ digits: how the playground server writes and reads the numbers of a source map. */
module Vlq {
  import opened Options

  type Byte = b: int | 0 <= b < 256

  const SEMICOLON: Byte := 59
  const COMMA: Byte := 44

  /** JavaScript's conversion to a 32-bit signed integer. */
  function ToInt32(x: int): int {
    var m := x % 0x1_0000_0000;
    if m >= 0x8000_0000 then m - 0x1_0000_0000 else m
  }

  /** It is the number of that range which is the same modulo 2^32. */
  lemma Int32Exact(x: int)
    ensures -0x8000_0000 <= ToInt32(x) < 0x8000_0000 && (x - ToInt32(x)) % 0x1_0000_0000 == 0
  {
  }

  function Pow2(n: nat): (r: nat)
    ensures r > 0
  {
    if n == 0 then 1 else 2 * Pow2(n - 1)
  }

  /** `x << n` for a small non-negative x: the shift count is taken modulo 32. */
  function ShiftLeft(x: nat, n: nat): int {
    ToInt32(x * Pow2(n % 32))
  }

  // ---- the alphabet of section 4 of RFC 4648 ----

  const UPPER: string := "ABCDEFGHIJKLMNOPQRSTUVWXYZ"
  const LOWER: string := "abcdefghijklmnopqrstuvwxyz"
  const DIGITS: string := "0123456789"
  const SPECIAL: string := "+/="

  /** The characters by digit, and the padding character behind them. */
  const ALPHABET: string := UPPER + LOWER + DIGITS + SPECIAL

  function IntegerToChar(d: int): Byte
    requires 0 <= d < 64
  {
    if d < 26 then 65 + d
    else if d < 52 then 97 + (d - 26)
    else if d < 62 then 48 + (d - 52)
    else if d == 62 then 43 else 47
  }

  /** 255 marks an invalid character; the padding character '=' is in the table, as 64. */
  function CharToInteger(b: Byte): Byte {
    if 65 <= b < 91 then b - 65
    else if 97 <= b < 123 then b - 97 + 26
    else if 48 <= b < 58 then b - 48 + 52
    else if b == 43 then 62
    else if b == 47 then 63
    else if b == 61 then 64
    else 255
  }

  /** The tables are those of the alphabet: no other character is in them. */
  lemma AlphabetExact(d: nat, b: Byte)
    requires d <= 64
    ensures |ALPHABET| == 65
    ensures d < 64 ==> IntegerToChar(d) == ALPHABET[d] as int
    ensures 0 <= ALPHABET[d] as int < 256 && CharToInteger(ALPHABET[d] as int) == d
    ensures CharToInteger(b) != 255 ==> CharToInteger(b) <= 64 && ALPHABET[CharToInteger(b)] as int == b
  {
    AlphabetAt(d);
    if CharToInteger(b) <= 64 {
      AlphabetAt(CharToInteger(b));
    }
  }

  lemma UpperAt(d: nat)
    requires d < 26
    ensures |UPPER| == 26 && UPPER[d] as int == 65 + d
  {
  }

  lemma LowerAt(d: nat)
    requires d < 26
    ensures |LOWER| == 26 && LOWER[d] as int == 97 + d
  {
  }

  lemma DigitAt(d: nat)
    requires d < 10
    ensures |DIGITS| == 10 && DIGITS[d] as int == 48 + d
  {
  }

  lemma SpecialAt()
    ensures |SPECIAL| == 3 && SPECIAL[0] as int == 43 && SPECIAL[1] as int == 47 && SPECIAL[2] as int == 61
  {
  }

  lemma Spliced(upper: string, lower: string, digits: string, special: string, d: nat)
    requires |upper| == |lower| == 26 && |digits| == 10 && |special| == 3 && d < 65
    ensures |upper + lower + digits + special| == 65
    ensures (upper + lower + digits + special)[d] ==
      if d < 26 then upper[d] else if d < 52 then lower[d - 26] else if d < 62 then digits[d - 52] else special[d - 62]
  {
  }

  lemma AlphabetAt(d: nat)
    requires d <= 64
    ensures |ALPHABET| == 65
    ensures ALPHABET[d] as int == if d == 64 then 61 else IntegerToChar(d)
  {
    hide UPPER, LOWER, DIGITS, SPECIAL;
    UpperAt(if d < 26 then d else 0);
    LowerAt(if 26 <= d < 52 then d - 26 else 0);
    DigitAt(if 52 <= d < 62 then d - 52 else 0);
    SpecialAt();
    Spliced(UPPER, LOWER, DIGITS, SPECIAL, d);
  }

  /** The two tables are inverse to each other on the 64 digits, and no digit is a separator. */
  lemma AlphabetRoundTrip(d: int, b: Byte)
    requires 0 <= d < 64
    ensures CharToInteger(IntegerToChar(d)) == d
    ensures IntegerToChar(d) != SEMICOLON && IntegerToChar(d) != COMMA
    ensures CharToInteger(b) < 64 ==> IntegerToChar(CharToInteger(b)) == b
  {
  }

  // ---- writing ----

  /** The number from which addVLQ takes its digits: the sign in the lowest bit. */
  function SignFolded(n: int): int {
    if n < 0 then ToInt32(-2 * n) + 1 else ToInt32(2 * n)
  }

  /** The digits of the do-while loop of addVLQ; a non-positive remainder ends it. */
  function Digits(v: int): (ds: seq<int>)
    ensures ds != [] && forall i :: 0 <= i < |ds| ==> 0 <= ds[i] < 64
    decreases if v > 0 then v else 0
  {
    if v / 32 > 0 then [v % 32 + 32] + Digits(v / 32) else [v % 32]
  }

  function Chars(ds: seq<int>): (bs: seq<Byte>)
    requires forall i :: 0 <= i < |ds| ==> 0 <= ds[i] < 64
    ensures |bs| == |ds|
  {
    seq(|ds|, i requires 0 <= i < |ds| => IntegerToChar(ds[i]))
  }

  function EncodeVlq(n: int): seq<Byte> {
    Chars(Digits(SignFolded(n)))
  }

  lemma LongDigits()
    ensures Digits(0) == [0] && Digits(3) == [3] && Digits(32) == [32, 1] && Digits(3067) == [59, 63, 2]
  {
    assert Digits(1) == [1] && Digits(2) == [2];
    assert Digits(95) == [63, 2];
  }

  lemma CharsOf(ds: seq<int>, bs: seq<Byte>)
    requires |bs| == |ds| && forall i :: 0 <= i < |ds| ==> 0 <= ds[i] < 64 && bs[i] == IntegerToChar(ds[i])
    ensures Chars(ds) == bs
  {
  }

  /** "A", "D", "gB" and "7/C". */
  lemma WrittenNumbers()
    ensures EncodeVlq(0) == [65] && EncodeVlq(-1) == [68] && EncodeVlq(16) == [103, 66]
    ensures EncodeVlq(-1533) == [55, 47, 67]
  {
    hide Chars, Digits;
    LongDigits();
    CharsOf([0], [65]);
    CharsOf([3], [68]);
    CharsOf([32, 1], [103, 66]);
    CharsOf([59, 63, 2], [55, 47, 67]);
  }

  // ---- reading, as the format defines it ----

  datatype Read<+T> = Read(value: T, used: nat)

  /** Little-endian groups of five bits; the sixth bit says that another digit follows. */
  function ReadDigits(bs: seq<Byte>): (r: Option<Read<nat>>)
    ensures r.Some? ==> 0 < r.value.used <= |bs|
  {
    if bs == [] || CharToInteger(bs[0]) >= 64 then None else
      var d := CharToInteger(bs[0]);
      if d < 32 then Some(Read(d, 1)) else
        match ReadDigits(bs[1..])
        case None => None
        case Some(r) => Some(Read(d - 32 + 32 * r.value, r.used + 1))
  }

  function Unfold(raw: nat): int {
    if raw % 2 == 1 then -(raw / 2) else raw / 2
  }

  /** One number at the front of `bs`; it must fit 31 bits, and zero has no sign. */
  function ReadVlq(bs: seq<Byte>): (r: Option<Read<int>>)
    ensures r.Some? ==> 0 < r.value.used <= |bs|
  {
    match ReadDigits(bs)
    case None => None
    case Some(Read(raw, used)) =>
      if raw < 0x8000_0000 && raw != 1 then Some(Read(Unfold(raw), used)) else None
  }

  // ---- round trip ----

  lemma CharsCons(d: int, ds: seq<int>)
    requires 0 <= d < 64 && forall i :: 0 <= i < |ds| ==> 0 <= ds[i] < 64
    ensures Chars([d] + ds) == [IntegerToChar(d)] + Chars(ds)
  {
  }

  lemma {:induction false} DigitsRoundTrip(v: nat, rest: seq<Byte>)
    ensures ReadDigits(Chars(Digits(v)) + rest) == Some(Read(v, |Digits(v)|))
    decreases v
  {
    hide Chars, IntegerToChar, CharToInteger;
    var d := if v / 32 > 0 then v % 32 + 32 else v % 32;
    var ds := if v / 32 > 0 then Digits(v / 32) else [];
    assert Digits(v) == [d] + ds;
    CharsCons(d, ds);
    AlphabetRoundTrip(d, 0);
    var bs := Chars(Digits(v)) + rest;
    assert bs[0] == IntegerToChar(d) && bs[1..] == Chars(ds) + rest;
    if v / 32 > 0 {
      DigitsRoundTrip(v / 32, rest);
    }
  }

  lemma SignFoldedRange(n: int)
    requires -0x4000_0000 < n < 0x4000_0000
    ensures SignFolded(n) == (if n < 0 then -2 * n + 1 else 2 * n)
  {
  }

  /** A number strictly between -2^30 and 2^30 is read back, whatever follows it. */
  lemma VlqRoundTrip(n: int, rest: seq<Byte>)
    requires -0x4000_0000 < n < 0x4000_0000
    ensures ReadVlq(EncodeVlq(n) + rest) == Some(Read(n, |EncodeVlq(n)|))
  {
    hide SignFolded, Digits, Chars, ReadDigits;
    SignFoldedRange(n);
    DigitsRoundTrip(SignFolded(n), rest);
  }

  /** And no other number is: the bound is exact. */
  lemma VlqBoundExact(n: int, rest: seq<Byte>)
    ensures ReadVlq(EncodeVlq(n) + rest) == Some(Read(n, |EncodeVlq(n)|)) <==> -0x4000_0000 < n < 0x4000_0000
  {
    if -0x4000_0000 < n < 0x4000_0000 {
      VlqRoundTrip(n, rest);
    } else {
      var v := SignFolded(n);
      if v >= 0 {
        DigitsRoundTrip(v, rest);
      } else {
        assert Digits(v) == [v % 32];
        AlphabetRoundTrip(v % 32, 0);
        assert (EncodeVlq(n) + rest)[0] == IntegerToChar(v % 32);
      }
    }
  }

  // ---- reading, as addSource does it ----

  /** The loop variables of the number being read. */
  datatype Partial = Partial(value: int, shift: nat)

  function Accumulate(p: Partial, digit: nat): Partial {
    Partial(p.value + ShiftLeft(digit % 32, p.shift), p.shift)
  }

  function HasMore(digit: nat): bool {
    (digit / 32) % 2 == 1
  }

  /** `value & 1`, `value >>= 1` and the negation. */
  function Finished(value: int): int {
    var half := ToInt32(value) / 2;
    if value % 2 == 1 then -half else half
  }

  /** The number that addSource holds after reading the digits `bs` from the state p. */
  function Absorb(p: Partial, bs: seq<Byte>): Partial
    decreases |bs|
  {
    if bs == [] then p else
      var q := Accumulate(p, CharToInteger(bs[0]));
      Absorb(if HasMore(CharToInteger(bs[0])) then q.(shift := q.shift + 5) else q, bs[1..])
  }

  lemma {:induction false} Pow2Add(a: nat, b: nat)
    ensures Pow2(a + b) == Pow2(a) * Pow2(b)
    decreases b
  {
    if b > 0 {
      Pow2Add(a, b - 1);
      TwiceProduct(Pow2(a), Pow2(b - 1));
    }
  }

  lemma TwiceProduct(x: nat, y: nat)
    ensures 2 * (x * y) == x * (2 * y)
  {
  }

  lemma Pow2Small()
    ensures Pow2(0) == 1 && Pow2(1) == 2 && Pow2(5) == 32
  {
  }

  lemma {:induction false} Pow2Large(n: nat)
    requires n >= 31
    ensures Pow2(n) >= 0x8000_0000
    decreases n
  {
    if n == 31 {
      hide Pow2;
      Pow2Small();
      Pow2Add(5, 5);
      Pow2Add(10, 10);
      Pow2Add(20, 10);
      Pow2Add(30, 1);
    } else {
      Pow2Large(n - 1);
    }
  }

  lemma Int32Small(x: int)
    requires 0 <= x < 0x8000_0000
    ensures ToInt32(x) == x
  {
  }

  /** No bit is lost while the contribution stays below 2^31. */
  lemma ShiftExact(d: nat, shift: nat)
    requires d < 32 && d * Pow2(shift) < 0x8000_0000
    ensures ShiftLeft(d, shift) == d * Pow2(shift)
  {
    hide Pow2, ToInt32;
    if d == 0 {
      Int32Small(0);
    } else {
      AtLeast(d, Pow2(shift));
      if shift >= 31 {
        Pow2Large(shift);
      }
      Int32Small(d * Pow2(shift));
    }
  }

  lemma AtLeast(d: nat, w: nat)
    requires d > 0
    ensures w <= d * w
  {
  }

  lemma MoreDigits(d: nat)
    requires d <= 64
    ensures HasMore(d) <==> 32 <= d < 64
  {
  }

  /** The first digit of a number that takes up all of bs. */
  lemma FirstDigit(bs: seq<Byte>, rest: seq<Byte>)
    requires ReadDigits(bs + rest).Some? && ReadDigits(bs + rest).value.used == |bs|
    ensures bs != [] && CharToInteger(bs[0]) < 64
    ensures CharToInteger(bs[0]) < 32 ==> |bs| == 1 && ReadDigits(bs + rest).value.value == CharToInteger(bs[0])
    ensures CharToInteger(bs[0]) >= 32 ==>
      && ReadDigits(bs[1..] + rest).Some?
      && ReadDigits(bs[1..] + rest).value.used == |bs| - 1
      && ReadDigits(bs + rest).value.value == CharToInteger(bs[0]) - 32 + 32 * ReadDigits(bs[1..] + rest).value.value
  {
    hide CharToInteger;
    assert bs != [] && (bs + rest)[0] == bs[0] && (bs + rest)[1..] == bs[1..] + rest;
  }

  /** The loop adds up exactly the value that the format gives to the digits. */
  lemma {:induction false} AbsorbDigits(p: Partial, bs: seq<Byte>, rest: seq<Byte>)
    requires ReadDigits(bs + rest).Some? && ReadDigits(bs + rest).value.used == |bs|
    requires ReadDigits(bs + rest).value.value * Pow2(p.shift) < 0x8000_0000
    ensures Absorb(p, bs).value == p.value + ReadDigits(bs + rest).value.value * Pow2(p.shift)
    decreases |bs|
  {
    hide ReadDigits, CharToInteger, HasMore, Pow2, ShiftLeft;
    FirstDigit(bs, rest);
    var d := CharToInteger(bs[0]);
    MoreDigits(d);
    if d < 32 {
      assert bs[1..] == [];
      ShiftExact(d, p.shift);
    } else {
      Pow2Small();
      Pow2Add(p.shift, 5);
      SplitProduct(d - 32, ReadDigits(bs[1..] + rest).value.value, Pow2(p.shift));
      ShiftExact(d - 32, p.shift);
      AbsorbDigits(Accumulate(p, d).(shift := p.shift + 5), bs[1..], rest);
    }
  }

  lemma SplitProduct(d: nat, tail: nat, w: nat)
    ensures (d + 32 * tail) * w == d * w + tail * (w * 32)
    ensures d * w <= (d + 32 * tail) * w && tail * (w * 32) <= (d + 32 * tail) * w
  {
  }

  /** Half of the number as a 32-bit one, negated if it is odd. */
  lemma FinishedExact(value: int)
    ensures value % 2 == 0 ==> 2 * Finished(value) == ToInt32(value)
    ensures value % 2 == 1 ==> 1 - 2 * Finished(value) == ToInt32(value)
  {
  }

  /** The shift works on 32 bits, and counts modulo 32. */
  lemma ShiftWraps(x: nat, n: nat)
    ensures -0x8000_0000 <= ShiftLeft(x, n) < 0x8000_0000
    ensures n < 32 ==> (x * Pow2(n) - ShiftLeft(x, n)) % 0x1_0000_0000 == 0
    ensures ShiftLeft(x, n + 32) == ShiftLeft(x, n)
  {
    hide ToInt32, Pow2;
    Int32Exact(x * Pow2(n % 32));
    assert (n + 32) % 32 == n % 32;
  }

  /** The folded number is twice the number, or one more than twice its negation, as a 32-bit one. */
  lemma SignFoldedExact(n: int)
    ensures -0x8000_0000 <= SignFolded(n) < 0x8000_0000
    ensures ((if n < 0 then 1 - 2 * n else 2 * n) - SignFolded(n)) % 0x1_0000_0000 == 0
  {
    hide ToInt32;
    var m := if n < 0 then -n else n;
    Int32Exact(2 * m);
    Int32Even(m);
  }

  lemma Int32Even(m: int)
    ensures ToInt32(2 * m) % 2 == 0
  {
    assert (2 * m) % 0x1_0000_0000 == 2 * (m % 0x8000_0000);
  }

  lemma FinishedIsUnfold(raw: nat)
    requires raw < 0x8000_0000
    ensures Finished(raw) == Unfold(raw)
  {
  }

  lemma SignFoldedSmall(n: int)
    ensures SignFolded(n) < 0x8000_0000
  {
  }

  /** The loop reads back the number from which the digits were taken; of a negative one, the last digit. */
  lemma LoopReads(v: int)
    requires v < 0x8000_0000
    ensures Absorb(Partial(0, 0), Chars(Digits(v))).value == if v >= 0 then v else v % 32
  {
    hide Pow2, Chars, ReadDigits, Absorb;
    var bs := Chars(Digits(v));
    assert bs + [] == bs;
    Pow2Small();
    if v >= 0 {
      DigitsRoundTrip(v, []);
      AbsorbDigits(Partial(0, 0), bs, []);
    } else {
      assert Digits(v) == Digits(v % 32) == [v % 32];
      DigitsRoundTrip(v % 32, []);
      AbsorbDigits(Partial(0, 0), bs, []);
    }
  }

  /** Reading with addSource's loop what addVLQ wrote gives the number back if and only if it is in range. */
  lemma LoopRoundTrip(n: int)
    ensures Finished(Absorb(Partial(0, 0), EncodeVlq(n)).value) == n <==> -0x4000_0000 < n < 0x4000_0000
  {
    hide Digits, Chars, Absorb, Finished, SignFolded;
    var v := SignFolded(n);
    SignFoldedSmall(n);
    LoopReads(v);
    if v >= 0 {
      FinishedIsUnfold(v);
      assert -0x4000_0000 < Unfold(v) < 0x4000_0000;
    } else {
      FinishedIsUnfold(v % 32);
    }
    if -0x4000_0000 < n < 0x4000_0000 {
      SignFoldedRange(n);
    }
  }
}
