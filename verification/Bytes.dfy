/**
 Bytes, big-endian numbers and lowercase hex strings: the alphabets in which the
 repository's encodings, ids and addresses are written.
 */
module Bytes {
  type byte = b: int | 0 <= b < 256
  type Bytes = seq<byte>
  type Bytes32 = b: Bytes | |b| == 32 witness seq(32, i => 0)

  /** `h` separates the values of `s`: no two of them collide. */
  ghost predicate CollisionFree<X(!new), Y>(h: X -> Y, s: set<X>) {
    forall x, y :: x in s && y in s && h(x) == h(y) ==> x == y
  }

  // ---- Positional notation ----

  ghost predicate IsDigits(base: nat, s: seq<int>) {
    forall i :: 0 <= i < |s| ==> 0 <= s[i] < base
  }

  function Pow(base: nat, e: nat): nat {
    if e == 0 then 1 else base * Pow(base, e - 1)
  }

  lemma PowPositive(base: nat, e: nat)
    requires base > 0
    ensures Pow(base, e) > 0
  {
  }

  /** Big-endian value of a digit sequence. */
  function Value(base: nat, s: seq<int>): int {
    if s == [] then 0 else Value(base, s[..|s| - 1]) * base + s[|s| - 1]
  }

  lemma {:induction false} ValueBounds(base: nat, s: seq<int>)
    requires base > 0 && IsDigits(base, s)
    ensures 0 <= Value(base, s) < Pow(base, |s|)
  {
    if s != [] {
      ValueBounds(base, s[..|s| - 1]);
      var v, p := Value(base, s[..|s| - 1]), Pow(base, |s| - 1);
      assert v * base + base <= p * base by { MulMonotone(v + 1, p, base); }
    }
  }

  lemma MulMonotone(a: int, b: int, c: nat)
    requires a <= b
    ensures a * c <= b * c
  {
  }

  /** `width` big-endian bytes of `n`. */
  function ToBE(n: nat, width: nat): (b: Bytes)
    ensures |b| == width
  {
    if width == 0 then [] else ToBE(n / 256, width - 1) + [n % 256]
  }

  lemma {:induction false} ValueOfToBE(n: nat, width: nat)
    requires n < Pow(256, width)
    ensures Value(256, ToBE(n, width)) == n
  {
    if width > 0 {
      ValueOfToBE(n / 256, width - 1);
      assert ToBE(n, width)[..width - 1] == ToBE(n / 256, width - 1);
    }
  }

  lemma {:induction false} PowSum(base: nat, a: nat, b: nat)
    ensures Pow(base, a + b) == Pow(base, a) * Pow(base, b)
  {
    if a > 0 {
      PowSum(base, a - 1, b);
      MulAssociates(base, Pow(base, a - 1), Pow(base, b));
    }
  }

  lemma MulAssociates(a: int, b: int, c: int)
    ensures a * (b * c) == (a * b) * c
  {
  }

  lemma PowOf256(e: nat)
    ensures Pow(256, e) == Pow(2, 8 * e)
  {
    if e > 0 {
      PowOf256(e - 1);
      PowSum(2, 8, 8 * (e - 1));
      PowEight();
    }
  }

  lemma PowEight()
    ensures Pow(2, 8) == 256
  {
    assert Pow(2, 4) == 16;
    PowSum(2, 4, 4);
  }

  /** A number in two parts is the bytes of the one followed by those of the other. */
  lemma {:induction false} ToBEInTwo(high: nat, low: nat, m: nat, n: nat)
    requires low < Pow(256, n)
    ensures ToBE(high * Pow(256, n) + low, m + n) == ToBE(high, m) + ToBE(low, n)
  {
    if n == 0 {
      assert high * Pow(256, 0) + low == high;
    } else {
      ShiftByte(high, Pow(256, n - 1), low);
      ToBEInTwo(high, low / 256, m, n - 1);
    }
  }

  lemma ShiftByte(high: nat, p: nat, low: nat)
    ensures (high * (256 * p) + low) / 256 == high * p + low / 256
    ensures (high * (256 * p) + low) % 256 == low % 256
  {
    assert high * (256 * p) == 256 * (high * p);
  }

  // ---- Hex ----

  predicate IsHexDigit(c: char) {
    '0' <= c <= '9' || 'a' <= c <= 'f' || 'A' <= c <= 'F'
  }

  predicate IsLowerHex(c: char) {
    '0' <= c <= '9' || 'a' <= c <= 'f'
  }

  /** What each hex digit is worth. */
  lemma HexDigitValues(d: nat)
    ensures d < 10 ==> HexValue('0' + d as char) == d
    ensures d < 6 ==> HexValue('a' + d as char) == 10 + d == HexValue('A' + d as char)
  {
  }

  function LowerDigit(d: int): (c: char)
    requires 0 <= d < 16
    ensures IsHexDigit(c) && HexValue(c) == d && IsLowerHex(c)
  {
    if d < 10 then '0' + d as char else 'a' + (d - 10) as char
  }

  function HexValue(c: char): (d: int)
    requires IsHexDigit(c)
    ensures 0 <= d < 16
  {
    if c <= '9' then c as int - '0' as int
    else if c <= 'F' then c as int - 'A' as int + 10
    else c as int - 'a' as int + 10
  }

  /** Two lowercase digits per byte, no prefix. */
  function ToHex(b: Bytes): (s: string)
    ensures |s| == 2 * |b|
  {
    if b == [] then "" else [LowerDigit(b[0] / 16), LowerDigit(b[0] % 16)] + ToHex(b[1..])
  }

  /** `Buffer.from(s, 'hex')`: whole pairs up to the first one that is not hex. */
  function FromHex(s: string): Bytes {
    if |s| < 2 || !IsHexDigit(s[0]) || !IsHexDigit(s[1]) then []
    else [16 * HexValue(s[0]) + HexValue(s[1])] + FromHex(s[2..])
  }

  function StripHexPrefix(s: string): string {
    if |s| >= 2 && s[0] == '0' && s[1] == 'x' then s[2..] else s
  }

  /** Only the prefix is stripped, and only once. */
  lemma StripMeaning(s: string)
    ensures StripHexPrefix(s) == if |s| >= 2 && s[..2] == "0x" then s[2..] else s
  {
  }

  /** Two lowercase digits per byte, the high one first. */
  lemma {:induction false} ToHexAt(b: Bytes, i: nat)
    requires i < |b|
    ensures ToHex(b)[2 * i] == LowerDigit(b[i] / 16) && ToHex(b)[2 * i + 1] == LowerDigit(b[i] % 16)
  {
    if i > 0 {
      ToHexAt(b[1..], i - 1);
      assert ToHex(b)[2..] == ToHex(b[1..]);
      assert ToHex(b)[2 * i] == ToHex(b[1..])[2 * (i - 1)];
      assert ToHex(b)[2 * i + 1] == ToHex(b[1..])[2 * (i - 1) + 1];
    }
  }

  /** The values of the digits of a hex string. */
  function HexValues(s: string): (d: seq<int>)
    ensures |d| == |s| && forall i :: 0 <= i < |s| ==> d[i] == if IsHexDigit(s[i]) then HexValue(s[i]) else 0
  {
    seq(|s|, i requires 0 <= i < |s| => if IsHexDigit(s[i]) then HexValue(s[i]) else 0)
  }

  /** The hex string of bytes denotes the same number as the bytes. */
  lemma {:induction false} ToHexKeepsValue(b: Bytes)
    ensures Value(16, HexValues(ToHex(b))) == Value(256, b)
  {
    if b != [] {
      var init, last := b[..|b| - 1], b[|b| - 1];
      var s, d := ToHex(b), HexValues(ToHex(b));
      assert b == init + [last];
      ToHexConcat(init, [last]);
      ToHexKeepsValue(init);
      ToHexOfByte(last);
      assert s == ToHex(init) + [LowerDigit(last / 16), LowerDigit(last % 16)];
      assert d[..|d| - 1][..|d| - 2] == HexValues(ToHex(init));
      assert d[|d| - 2] == last / 16 && d[|d| - 1] == last % 16;
      assert Value(16, d[..|d| - 1]) == Value(16, HexValues(ToHex(init))) * 16 + last / 16;
    }
  }

  lemma ToHexOfByte(x: byte)
    ensures ToHex([x]) == [LowerDigit(x / 16), LowerDigit(x % 16)]
  {
    assert [x][1..] == [];
  }

  /** Pairs of digits in either case are bytes, the first digit the high one. */
  lemma {:induction false} FromHexAt(s: string, i: nat)
    requires |s| % 2 == 0 && 2 * i < |s| && forall j :: 0 <= j < |s| ==> IsHexDigit(s[j])
    ensures |FromHex(s)| == |s| / 2
    ensures FromHex(s)[i] == 16 * HexValue(s[2 * i]) + HexValue(s[2 * i + 1])
  {
    if |s| > 2 {
      FromHexAt(s[2..], if i > 0 then i - 1 else 0);
    }
  }

  lemma StripUndoesPrefix(s: string)
    ensures StripHexPrefix("0x" + s) == s
  {
  }

  lemma {:induction false} HexRoundTrip(b: Bytes)
    ensures FromHex(ToHex(b)) == b
  {
    if b != [] {
      HexRoundTrip(b[1..]);
      assert ToHex(b)[2..] == ToHex(b[1..]);
    }
  }

  lemma {:induction false} ToHexConcat(a: Bytes, b: Bytes)
    ensures ToHex(a + b) == ToHex(a) + ToHex(b)
  {
    if a == [] {
      assert a + b == b;
    } else {
      ToHexConcat(a[1..], b);
      assert (a + b)[0] == a[0] && (a + b)[1..] == a[1..] + b;
      AppendAssociates([LowerDigit(a[0] / 16), LowerDigit(a[0] % 16)], ToHex(a[1..]), ToHex(b));
    }
  }

  lemma ToHexInjective(a: Bytes, b: Bytes)
    requires ToHex(a) == ToHex(b)
    ensures a == b
  {
    HexRoundTrip(a);
    HexRoundTrip(b);
  }

  // ---- Decimal ----

  /** `n.toString()`. */
  function Decimal(n: nat): (s: string)
    ensures |s| > 0 && forall c :: c in s ==> '0' <= c <= '9'
  {
    if n < 10 then ['0' + n as char] else Decimal(n / 10) + ['0' + (n % 10) as char]
  }

  lemma {:induction false} DecimalInjective(m: nat, n: nat)
    requires Decimal(m) == Decimal(n)
    ensures m == n
  {
    var s := Decimal(m);
    assert s[|s| - 1] as int - '0' as int == m % 10 == n % 10;
    if m >= 10 && n >= 10 {
      assert s[..|s| - 1] == Decimal(m / 10) == Decimal(n / 10);
      DecimalInjective(m / 10, n / 10);
    }
  }

  /** The digits of a decimal string as numbers. */
  ghost function DecimalDigits(s: string): (d: seq<int>)
    ensures |d| == |s| && forall i :: 0 <= i < |s| ==> d[i] == s[i] as int - '0' as int
  {
    seq(|s|, i requires 0 <= i < |s| => s[i] as int - '0' as int)
  }

  /** The decimal string denotes the number, without leading zeros. */
  lemma {:induction false} DecimalMeaning(n: nat)
    ensures Value(10, DecimalDigits(Decimal(n))) == n
    ensures Decimal(n)[0] == '0' <==> n == 0
    ensures |Decimal(n)| == 1 <==> n < 10
  {
    var s := Decimal(n);
    if n >= 10 {
      DecimalMeaning(n / 10);
      assert s[..|s| - 1] == Decimal(n / 10) && s[|s| - 1] as int - '0' as int == n % 10;
      assert DecimalDigits(s)[..|s| - 1] == DecimalDigits(Decimal(n / 10));
    } else {
      assert DecimalDigits(s)[..0] == [];
    }
  }

  // ---- Mapping and joining ----

  /** `s.map(f)`. */
  function Map<S, T>(f: S -> T, s: seq<S>): (r: seq<T>)
    ensures |r| == |s| && forall i :: 0 <= i < |s| ==> r[i] == f(s[i])
  {
    if s == [] then [] else [f(s[0])] + Map(f, s[1..])
  }

  lemma {:induction false} MapSnoc<S, T>(f: S -> T, s: seq<S>)
    requires s != []
    ensures var n := |s| - 1; Map(f, s) == Map(f, s[..n]) + [f(s[n])]
  {
    var n := |s| - 1;
    var a, b := Map(f, s), Map(f, s[..n]) + [f(s[n])];
    assert forall i :: 0 <= i < n ==> a[i] == f(s[i]) == b[i];
    assert a[n] == b[n];
  }

  lemma {:induction false} MapCons<S, T>(f: S -> T, s: seq<S>)
    requires s != []
    ensures Map(f, s)[0] == f(s[0]) && Map(f, s)[1..] == Map(f, s[1..])
  {
  }

  lemma {:induction false} MapAppends<S, T>(f: S -> T, a: seq<S>, b: seq<S>)
    ensures Map(f, a + b) == Map(f, a) + Map(f, b)
  {
  }

  /** `parts.join('')`. */
  function Concat(parts: seq<string>): string {
    if parts == [] then "" else parts[0] + Concat(parts[1..])
  }

  lemma {:induction false} ConcatAppends(a: seq<string>, b: seq<string>)
    ensures Concat(a + b) == Concat(a) + Concat(b)
  {
    if a == [] {
      assert a + b == b;
    } else {
      ConcatAppends(a[1..], b);
      assert (a + b)[0] == a[0] && (a + b)[1..] == a[1..] + b;
      AppendAssociates(a[0], Concat(a[1..]), Concat(b));
    }
  }

  lemma ConcatOfOne(s: string)
    ensures Concat([s]) == s && Concat([]) == ""
  {
    assert Concat([s][1..]) == "";
  }

  lemma AppendAssociates<T>(a: seq<T>, b: seq<T>, c: seq<T>)
    ensures a + (b + c) == a + b + c
  {
  }
}
