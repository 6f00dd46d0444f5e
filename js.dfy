/**
 * The parts of ECMAScript value semantics that the extension's code leans on:
 * strings that may be `undefined`, calls that may throw, `parseInt`, number to
 * string conversion, and the 32-bit integer view behind `>>`, `<<` and `&`.
 */
module Js {

  /** A byte as stored in a `Uint8Array` or handed out by the SHA-256 library's `array()`. */
  type Byte = b: int | 0 <= b < 256

  /** The 32 bytes of a SHA-256 digest (FIPS 180-4); the hash itself is a parameter of the model. */
  type Digest = d: seq<Byte> | |d| == 32 witness seq(32, _ => 0)

  /** A value that is a string or `undefined` (`null` behaves the same wherever the code meets it). */
  datatype Val = Undefined | Str(s: string)

  /** A value that may be `null` or absent. */
  datatype Option<+T> = None | Some(value: T)

  /** What a call that may throw comes back with. */
  datatype Outcome<+T> = Threw | Returned(value: T)

  /** A number as `parseInt` returns it: an integer, or NaN. (-0 is folded into 0.) */
  datatype JsNum = Int(n: int) | NaN

  /** What the `URL` parser reports about a URL it accepts. */
  datatype Url = Url(protocol: string, hostname: string)

  /** `s.indexOf(c)` for one character: its first position, or -1. */
  function IndexOf(s: string, c: char): (k: int)
    ensures -1 <= k < |s|
    ensures k == -1 <==> c !in s
    ensures k >= 0 ==> s[k] == c && c !in s[..k]
  {
    if |s| == 0 then -1
    else if s[0] == c then 0
    else
      var k := IndexOf(s[1..], c);
      if k < 0 then -1 else k + 1
  }

  /** `s.startsWith(p)`. */
  predicate StartsWith(s: string, p: string)
  {
    |p| <= |s| && s[..|p|] == p
  }

  /** `s.indexOf(t) != -1`. */
  predicate Contains(s: string, t: string)
  {
    StartsWith(s, t) || (|s| > 0 && Contains(s[1..], t))
  }

  /** `StrWhiteSpaceChar` of ECMAScript: white space and line terminators. */
  predicate IsWhiteSpace(c: char)
  {
    c == '\t' || c == '\n' || c == '\U{000B}' || c == '\U{000C}' || c == '\r' || c == ' ' ||
    c == '\U{00A0}' || c == '\U{1680}' || ('\U{2000}' <= c <= '\U{200A}') || c == '\U{2028}' ||
    c == '\U{2029}' || c == '\U{202F}' || c == '\U{205F}' || c == '\U{3000}' || c == '\U{FEFF}'
  }

  /** Drops leading white space, as `parseInt` does first. */
  function TrimStart(s: string): string
  {
    if s != [] && IsWhiteSpace(s[0]) then TrimStart(s[1..]) else s
  }

  /** `TrimStart` removes exactly the leading run of white space. */
  lemma {:induction false} TrimStartDrops(s: string)
    ensures var t := TrimStart(s);
      |t| <= |s| && t == s[|s| - |t|..]
      && (t == [] || !IsWhiteSpace(t[0]))
      && forall i :: 0 <= i < |s| - |t| ==> IsWhiteSpace(s[i])
    decreases |s|
  {
    if s != [] && IsWhiteSpace(s[0]) {
      TrimStartDrops(s[1..]);
      var t := TrimStart(s);
      forall i | 0 <= i < |s| - |t|
        ensures IsWhiteSpace(s[i])
      {
        if i > 0 {
          assert s[i] == s[1..][i - 1];
        }
      }
    }
  }

  /** The value of `c` as a digit in radices up to 36; 36 when `c` is no digit at all. */
  function DigitValue(c: char): (d: nat)
    ensures d <= 36
  {
    if '0' <= c <= '9' then c as nat - '0' as nat
    else if 'a' <= c <= 'z' then c as nat - 'a' as nat + 10
    else if 'A' <= c <= 'Z' then c as nat - 'A' as nat + 10
    else 36
  }

  /** The longest prefix of `s` made of digits of radix `radix`. */
  function DigitPrefix(s: string, radix: nat): (z: string)
    ensures |z| <= |s| && z == s[..|z|]
    ensures forall i :: 0 <= i < |z| ==> DigitValue(z[i]) < radix
    ensures |z| < |s| ==> DigitValue(s[|z|]) >= radix
  {
    if s != [] && DigitValue(s[0]) < radix then [s[0]] + DigitPrefix(s[1..], radix) else []
  }

  /** The value of a string of digits, most significant first. */
  function DigitsValue(z: string, radix: nat): nat
  {
    if z == [] then 0
    else DigitsValue(z[..|z| - 1], radix) * radix + (if DigitValue(z[|z| - 1]) < 36 then DigitValue(z[|z| - 1]) else 0)
  }

  /**
   * `parseInt(s, radix)`, with radix 0 standing for an absent radix: leading white space
   * is skipped, one sign is read, then the digits are read by ParseMagnitude.
   */
  function ParseInt(s: string, radix: int): JsNum
  {
    var t := TrimStart(s);
    if radix != 0 && (radix < 2 || radix > 36) then NaN
    else if t != [] && t[0] == '-' then Negate(ParseMagnitude(t[1..], radix))
    else ParseMagnitude(if t != [] && t[0] == '+' then t[1..] else t, radix)
  }

  /**
   * The unsigned part of `parseInt`: a `0x`/`0X` prefix switches to radix 16 when the
   * radix is absent or 16, then the longest run of digits is read; no digits give NaN.
   */
  function ParseMagnitude(u: string, radix: int): JsNum
    requires radix == 0 || 2 <= radix <= 36
  {
    if (radix == 0 || radix == 16) && HasHexPrefix(u) then ReadDigits(u[2..], 16)
    else ReadDigits(u, if radix == 0 then 10 else radix)
  }

  /** `u` starts with `0x` or `0X`. */
  predicate HasHexPrefix(u: string)
  {
    |u| >= 2 && u[0] == '0' && (u[1] == 'x' || u[1] == 'X')
  }

  /** The value of the longest run of radix-`base` digits at the start of `u`; NaN when there is none. */
  function ReadDigits(u: string, base: nat): JsNum
  {
    var z := DigitPrefix(u, base);
    if z == [] then NaN else Int(DigitsValue(z, base))
  }

  /** The sign applied by `parseInt` after a leading minus. */
  function Negate(x: JsNum): JsNum
  {
    match x
    case Int(n) => Int(-n)
    case NaN => NaN
  }

  /** The decimal digit for `d`. */
  function DecimalDigit(d: nat): (c: char)
    requires d < 10
    ensures DigitValue(c) == d
  {
    ('0' as nat + d) as char
  }

  /** `String(n)` for an integer `n`: its decimal representation. */
  function Decimal(n: int): (s: string)
    decreases if n < 0 then -n + 1 else n
  {
    if n < 0 then "-" + Decimal(-n)
    else if n < 10 then [DecimalDigit(n)]
    else Decimal(n / 10) + [DecimalDigit(n % 10)]
  }

  /** `String(x)` for a number that `parseInt` can produce. */
  function NumberToString(x: JsNum): string
  {
    match x
    case Int(n) => Decimal(n)
    case NaN => "NaN"
  }

  /** The decimal representation of a non-negative number is a non-empty run of decimal digits. */
  lemma {:induction false} DecimalDigits(n: nat)
    ensures Decimal(n) != []
    ensures forall i :: 0 <= i < |Decimal(n)| ==> DigitValue(Decimal(n)[i]) < 10
    ensures DigitsValue(Decimal(n), 10) == n
    decreases n
  {
    if n >= 10 {
      DecimalDigits(n / 10);
      var s := Decimal(n);
      assert s[..|s| - 1] == Decimal(n / 10);
    }
  }

  /** The digit prefix of digits followed by a non-digit (or nothing) is those digits. */
  lemma {:induction false} DigitPrefixStops(d: string, rest: string, radix: nat)
    requires forall i :: 0 <= i < |d| ==> DigitValue(d[i]) < radix
    requires rest == [] || DigitValue(rest[0]) >= radix
    ensures DigitPrefix(d + rest, radix) == d
    decreases |d|
  {
    if d != [] {
      assert (d + rest)[1..] == d[1..] + rest;
      DigitPrefixStops(d[1..], rest, radix);
    } else {
      assert d + rest == rest;
    }
  }

  /** Text that can follow a run of decimal digits without being read with them or making a hex prefix. */
  predicate StopsDecimal(rest: string)
  {
    rest == [] || (DigitValue(rest[0]) >= 10 && rest[0] != 'x' && rest[0] != 'X')
  }

  /** A decimal digit or a minus sign is not white space, so `parseInt` skips nothing before it. */
  lemma NoLeadingSpace(s: string)
    requires s != [] && (s[0] == '-' || DigitValue(s[0]) < 10)
    ensures TrimStart(s) == s
  {
    assert s[0] == '-' || '0' <= s[0] <= '9';
    assert !IsWhiteSpace(s[0]);
  }

  /** A run of decimal digits, followed by text that stops it, is read as its value. */
  lemma MagnitudeOfDigits(d: string, rest: string)
    requires d != [] && forall i :: 0 <= i < |d| ==> DigitValue(d[i]) < 10
    requires StopsDecimal(rest)
    ensures ParseMagnitude(d + rest, 0) == Int(DigitsValue(d, 10))
  {
    var s := d + rest;
    DigitPrefixStops(d, rest, 10);
    assert !HasHexPrefix(s) by {
      if |s| >= 2 {
        if |d| >= 2 {
          assert s[1] == d[1] && DigitValue(d[1]) < 10;
        } else {
          assert s[1] == rest[0];
        }
      }
    }
  }

  /** `parseInt` reads a run of decimal digits, followed by text that stops it, as its value. */
  lemma ParseDigits(d: string, rest: string)
    requires d != [] && forall i :: 0 <= i < |d| ==> DigitValue(d[i]) < 10
    requires StopsDecimal(rest)
    ensures ParseInt(d + rest, 0) == Int(DigitsValue(d, 10))
  {
    var s := d + rest;
    MagnitudeOfDigits(d, rest);
    assert s[0] == d[0];
    NoLeadingSpace(s);
    assert '0' <= s[0] <= '9' by { assert DigitValue(d[0]) < 10; }
  }

  /** `parseInt` reads a minus sign and a run of decimal digits as the negated value. */
  lemma ParseNegativeDigits(d: string)
    requires d != [] && forall i :: 0 <= i < |d| ==> DigitValue(d[i]) < 10
    ensures ParseInt("-" + d, 0) == Int(-(DigitsValue(d, 10) as int))
  {
    var s := "-" + d;
    assert ParseMagnitude(d, 0) == Int(DigitsValue(d, 10)) by {
      MagnitudeOfDigits(d, []);
      assert d + [] == d;
    }
    assert ParseInt(s, 0) == Negate(ParseMagnitude(d, 0)) by {
      NoLeadingSpace(s);
      assert s[0] == '-' && s[1..] == d;
    }
  }

  /** `parseInt(String(n))` gives back `n`: decimal rendering and parsing are a round trip. */
  lemma ParseDecimal(n: int)
    ensures ParseInt(Decimal(n), 0) == Int(n)
  {
    var m: nat := if n < 0 then -n else n;
    DecimalDigits(m);
    if n < 0 {
      ParseNegativeDigits(Decimal(m));
    } else {
      ParseDecimalPrefix(m, []);
      assert Decimal(m) + [] == Decimal(m);
    }
  }

  /** `parseInt` of a non-negative number's decimal form followed by text that stops it reads the number. */
  lemma ParseDecimalPrefix(n: nat, rest: string)
    requires StopsDecimal(rest)
    ensures ParseInt(Decimal(n) + rest, 0) == Int(n)
  {
    DecimalDigits(n);
    ParseDigits(Decimal(n), rest);
  }

  // ECMAScript's 32-bit integer operators, stated on integers.

  /** 2^k. */
  function Pow2(k: nat): (p: nat)
    ensures p >= 1
  {
    if k == 0 then 1 else 2 * Pow2(k - 1)
  }

  /** ToInt32: the integer in [-2^31, 2^31) that agrees with `x` modulo 2^32. */
  function ToInt32(x: int): (r: int)
    ensures -0x8000_0000 <= r < 0x8000_0000
    ensures (r - x) % 0x1_0000_0000 == 0
  {
    var m := x % 0x1_0000_0000;
    if m < 0x8000_0000 then m else m - 0x1_0000_0000
  }

  /**
   * `x >> y`: ToInt32(x) shifted right by `y` modulo 32, copying the sign bit;
   * on the two's complement value that is division by 2^(y mod 32), rounded down.
   */
  function ShiftRight(x: int, y: int): int
  {
    ToInt32(x) / Pow2(y % 32)
  }

  /** `x << y`: ToInt32(x) times 2^(y mod 32), wrapped to 32 bits. */
  function ShiftLeft(x: int, y: int): int
  {
    ToInt32(ToInt32(x) * Pow2(y % 32))
  }

  /** The bitwise AND of two naturals, bit by bit from the least significant end. */
  function BitAnd(a: nat, b: nat): nat
  {
    if a == 0 || b == 0 then 0 else 2 * BitAnd(a / 2, b / 2) + (if a % 2 == 1 && b % 2 == 1 then 1 else 0)
  }

  /** The bitwise OR of two naturals. */
  function BitOr(a: nat, b: nat): nat
  {
    if a == 0 then b else if b == 0 then a else 2 * BitOr(a / 2, b / 2) + (if a % 2 == 1 || b % 2 == 1 then 1 else 0)
  }

  /** `x & y` on integers: both operands taken as 32-bit patterns, the result read back as signed. */
  function And(x: int, y: int): int
  {
    ToInt32(BitAnd(x % 0x1_0000_0000, y % 0x1_0000_0000))
  }

  /** Bit `i` of a natural. */
  predicate Bit(a: nat, i: nat)
  {
    (a / Pow2(i)) % 2 == 1
  }

  /** JavaScript's `%` on integers: the remainder takes the sign of the dividend. */
  function Rem(a: int, b: int): (r: int)
    requires b != 0
    ensures a >= 0 && b > 0 ==> r == a % b
  {
    var m := (if a >= 0 then a else -a) % (if b >= 0 then b else -b);
    if a >= 0 then m else -m
  }

  /** Exponents add. */
  lemma {:induction false} Pow2Add(a: nat, b: nat)
    ensures Pow2(a + b) == Pow2(a) * Pow2(b)
    decreases a
  {
    if a > 0 {
      Pow2Add(a - 1, b);
    }
  }

  /** 2^32, the modulus of ToInt32. */
  lemma Pow2Of32()
    ensures Pow2(32) == 0x1_0000_0000 && Pow2(31) == 0x8000_0000
  {
    assert Pow2(4) == 16;
    Pow2Add(4, 4);
    Pow2Add(8, 8);
    Pow2Add(16, 15);
    Pow2Add(16, 16);
  }

  /** The small powers the byte arithmetic needs. */
  lemma Pow2Small()
    ensures Pow2(3) == 8 && Pow2(8) == 256
  {
    assert Pow2(4) == 16;
    Pow2Add(4, 4);
  }

  /** Every shift amount below 32 gives a power of at most 2^31. */
  lemma Pow2AtMost31(k: nat)
    requires k < 32
    ensures Pow2(k) <= 0x8000_0000
  {
    Pow2Monotone(k, 31);
    Pow2Of32();
  }

  /** Larger exponents give larger powers. */
  lemma {:induction false} Pow2Monotone(a: nat, b: nat)
    requires a <= b
    ensures Pow2(a) <= Pow2(b)
  {
    Pow2Add(a, b - a);
  }

  /** Euclidean division is determined by its quotient and remainder. */
  lemma DivModUnique(x: int, p: int, q: int, r: int)
    requires p > 0 && 0 <= r < p && x == q * p + r
    ensures x / p == q && x % p == r
  {
    var d := q - x / p;
    assert d * p == x % p - r;
  }

  /** Subtracting a multiple of the divisor lowers the quotient and keeps the remainder. */
  lemma DivSubMultiple(x: int, p: int, c: int)
    requires p > 0
    ensures (x - c * p) / p == x / p - c && (x - c * p) % p == x % p
  {
    var q := x / p;
    var r := x % p;
    assert x - c * p == (q - c) * p + r;
    DivModUnique(x - c * p, p, q - c, r);
  }

  /** 2^32 splits into 2^s, 2^k and the rest. */
  lemma Pow2Split(s: nat, k: nat)
    requires s + k <= 32
    ensures 0x1_0000_0000 == (Pow2(32 - s - k) * Pow2(k)) * Pow2(s)
  {
    Pow2Add(k, 32 - s - k);
    Pow2SplitOnce(s);
    Regroup(0x1_0000_0000, Pow2(s), Pow2(32 - s), Pow2(32 - s - k), Pow2(k));
  }

  lemma Pow2SplitOnce(s: nat)
    requires s <= 32
    ensures 0x1_0000_0000 == Pow2(s) * Pow2(32 - s)
  {
    Pow2Add(s, 32 - s);
    Pow2Of32();
  }

  lemma Regroup(x: int, p: int, q: int, c: int, d: int)
    requires x == p * q && q == d * c
    ensures x == (c * d) * p
  {
  }

  /** A remainder is no larger than a non-negative dividend. */
  lemma ModAtMost(x: int, p: int)
    requires 0 <= x && p > 0
    ensures x % p <= x
  {
    if x >= p {
      DivModUnique(x, p, x / p, x % p);
      assert x / p >= 1;
      assert (x / p) * p >= p;
    }
  }

  /** Taking the remainder by 2P after halving: the low bits of `a`. */
  lemma HalfMod(a: nat, p: nat)
    requires p >= 1
    ensures 2 * ((a / 2) % p) + a % 2 == a % (2 * p)
  {
    var q := (a / 2) / p;
    var r := (a / 2) % p;
    assert a == q * (2 * p) + (2 * r + a % 2);
    DivModUnique(a, 2 * p, q, 2 * r + a % 2);
  }

  /** ANDing with 2^k - 1 keeps the low `k` bits. */
  lemma {:induction false} BitAndLowMask(a: nat, k: nat)
    ensures BitAnd(a, Pow2(k) - 1) == a % Pow2(k)
    decreases k
  {
    if k == 0 {
      assert Pow2(k) == 1;
    } else if a == 0 {
      assert BitAnd(a, Pow2(k) - 1) == 0;
    } else {
      var p := Pow2(k - 1);
      var m := 2 * p - 1;
      assert Pow2(k) == 2 * p;
      assert BitAnd(a, m) == 2 * BitAnd(a / 2, p - 1) + a % 2 by {
        assert m != 0 && m / 2 == p - 1 && m % 2 == 1;
      }
      BitAndLowMask(a / 2, k - 1);
      HalfMod(a, p);
    }
  }

  /** A remainder by a divisor of the modulus survives reducing by the modulus first. */
  lemma ModOfMod(x: int, p: nat, q: nat)
    requires p >= 1 && q >= 1
    ensures (x % (p * q)) % p == x % p
  {
    var a := x / (p * q);
    var b := x % (p * q);
    var c := b / p;
    var d := b % p;
    assert x == (a * q + c) * p + d;
    DivModUnique(x, p, a * q + c, d);
  }

  /** `x & y` where `y` is, as a 32-bit pattern, 2^k - 1 with k < 32: the low `k` bits of `x`. */
  lemma AndLowMask(x: int, y: int, k: nat)
    requires k < 32 && y % 0x1_0000_0000 == Pow2(k) - 1
    ensures And(x, y) == x % Pow2(k)
  {
    Pow2Of32();
    Pow2Monotone(k, 31);
    Pow2Add(k, 32 - k);
    BitAndLowMask(x % 0x1_0000_0000, k);
    ModOfMod(x, Pow2(k), Pow2(32 - k));
  }

  /** `(1 << n) - 1` is, as a 32-bit pattern, 2^(n mod 32) - 1 (for n mod 32 = 31 the wrap-around makes it 2^31 - 1). */
  lemma ShiftLeftOneMinusOne(n: int)
    ensures (ShiftLeft(1, n) - 1) % 0x1_0000_0000 == Pow2(n % 32) - 1
  {
    var k := n % 32;
    Pow2Of32();
    assert ShiftLeft(1, n) == ToInt32(Pow2(k)) by {
      assert ToInt32(1) == 1;
    }
    if k < 31 {
      assert Pow2(k) <= 0x4000_0000 by {
        Pow2Monotone(k, 30);
      }
      ToInt32Small(Pow2(k));
    } else {
      assert ToInt32(Pow2(k)) == -0x8000_0000;
    }
  }

  /** `x >> y` for `0 <= x < 2^31` is floor division by 2^(y mod 32). */
  lemma ShiftRightOfSmall(x: int, y: int)
    requires 0 <= x < 0x8000_0000
    ensures ShiftRight(x, y) == x / Pow2(y % 32)
  {
  }

  /** `1 << k` for `k < 31` is 2^k. */
  lemma ShiftLeftOne(k: int)
    requires 0 <= k < 31
    ensures ShiftLeft(1, k) == Pow2(k)
  {
    ShiftLeftOneWraps(k);
    assert Pow2(k) < 0x8000_0000 by {
      Pow2Monotone(k, 30);
      Pow2Of32();
    }
    ToInt32Small(Pow2(k));
  }

  lemma ShiftLeftOneWraps(k: int)
    requires 0 <= k < 32
    ensures ShiftLeft(1, k) == ToInt32(Pow2(k))
  {
    assert ToInt32(1) == 1;
    assert k % 32 == k;
    assert ToInt32(1) * Pow2(k % 32) == Pow2(k);
  }

  /** ToInt32 leaves a value that is already a 32-bit signed integer unchanged. */
  lemma ToInt32Small(x: int)
    requires -0x8000_0000 <= x < 0x8000_0000
    ensures ToInt32(x) == x
  {
  }

  /** `x >> 3` and `x & 7` of a non-negative 32-bit value: its byte and its bit within the byte. */
  lemma ByteAndBit(x: int)
    requires 0 <= x < 0x8000_0000
    ensures ShiftRight(x, 3) == x / 8 && And(x, 7) == x % 8
  {
    var p := Pow2(3);
    assert p == 8 by {
      Pow2Small();
    }
    assert ShiftRight(x, 3) == x / p by {
      assert 3 % 32 == 3;
      ShiftRightOfSmall(x, 3);
    }
    assert And(x, 7) == x % p by {
      assert 7 % 0x1_0000_0000 == p - 1;
      AndLowMask(x, 7, 3);
    }
  }
}
