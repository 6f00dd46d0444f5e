// Hexadecimal encoding of byte arrays, as the client uses it to turn
// SHA-256 digests into the hash strings stored in the database.
module Hex {
  import opened Js

  /** A digit as `toString(16)` writes it. */
  predicate LowerHex(c: char)
  {
    '0' <= c <= '9' || 'a' <= c <= 'f'
  }

  /** The lower-case hexadecimal digit for `d`. */
  function HexDigit(d: nat): (c: char)
    requires d < 16
    ensures DigitValue(c) == d && LowerHex(c)
  {
    if d < 10 then DecimalDigit(d) else ('a' as nat + d - 10) as char
  }

  /** `n.toString(16)` for a non-negative integer. */
  function Radix16(n: nat): (s: string)
    decreases n
  {
    if n < 16 then [HexDigit(n)] else Radix16(n / 16) + [HexDigit(n % 16)]
  }

  /** `s.padStart(len, c)`. */
  function PadStart(s: string, len: nat, c: char): string
  {
    if |s| < len then seq(len - |s|, _ => c) + s else s
  }

  /** One array element as `bin2hex` writes it. */
  function ByteHex(b: Byte): string
  {
    PadStart(Radix16(b), 2, '0')
  }

  /** `bin2hex`: the concatenation of the elements' two-digit forms. */
  function Encode(a: seq<Byte>): string
  {
    if a == [] then [] else ByteHex(a[0]) + Encode(a[1..])
  }

  /** `hex2bin` on a string: `parseInt` of each complete pair of characters, in radix 16. */
  function Decode(s: string): seq<JsNum>
  {
    if |s| < 2 then [] else [ParseInt(s[..2], 16)] + Decode(s[2..])
  }

  /** A byte is written as its high and low hexadecimal digit. */
  lemma ByteHexDigits(b: Byte)
    ensures ByteHex(b) == [HexDigit(b / 16), HexDigit(b % 16)]
  {
    if b < 16 {
      assert Radix16(b) == [HexDigit(b % 16)];
      assert b / 16 == 0 && HexDigit(0) == '0';
    } else {
      assert Radix16(b / 16) == [HexDigit(b / 16)];
    }
  }

  /** `parseInt(_, 16)` reads two hexadecimal digits as their value. */
  lemma ParseTwoDigits(h: nat, l: nat)
    requires h < 16 && l < 16
    ensures ParseInt([HexDigit(h), HexDigit(l)], 16) == Int(h * 16 + l)
  {
    var s := [HexDigit(h), HexDigit(l)];
    assert TrimStart(s) == s by {
      assert !IsWhiteSpace(s[0]);
    }
    assert s[0] != '-' && s[0] != '+';
    assert ParseMagnitude(s, 16) == ReadDigits(s, 16) by {
      assert !HasHexPrefix(s);
    }
    assert DigitPrefix(s, 16) == s by {
      assert DigitPrefix(s[1..], 16) == s[1..];
    }
    assert DigitsValue(s, 16) == h * 16 + l by {
      assert s[..1] == [s[0]] && s[..1][..0] == [];
      assert DigitsValue(s[..1], 16) == h;
    }
  }

  /** `parseInt(_, 16)` reads a byte's two digits back as the byte. */
  lemma ParseByteHex(b: Byte)
    ensures ParseInt(ByteHex(b), 16) == Int(b)
  {
    ByteHexDigits(b);
    ParseTwoDigits(b / 16, b % 16);
  }

  /** Appending a byte appends its two digits. */
  lemma {:induction false} EncodeAppend(a: seq<Byte>, b: Byte)
    ensures Encode(a + [b]) == Encode(a) + ByteHex(b)
    decreases |a|
  {
    if a != [] {
      assert (a + [b])[1..] == a[1..] + [b];
      EncodeAppend(a[1..], b);
    }
  }

  /** `bin2hex` writes two characters per element. */
  lemma {:induction false} EncodeLength(a: seq<Byte>)
    ensures |Encode(a)| == 2 * |a|
    decreases |a|
  {
    if a != [] {
      ByteHexDigits(a[0]);
      EncodeLength(a[1..]);
    }
  }

  /** Every character `bin2hex` writes is a lower-case hexadecimal digit. */
  lemma {:induction false} EncodeDigits(a: seq<Byte>)
    ensures forall i :: 0 <= i < |Encode(a)| ==> LowerHex(Encode(a)[i])
    decreases |a|
  {
    if a != [] {
      ByteHexDigits(a[0]);
      EncodeDigits(a[1..]);
      var h, t := ByteHex(a[0]), Encode(a[1..]);
      assert Encode(a) == h + t;
      forall i | 0 <= i < |h + t|
        ensures LowerHex((h + t)[i])
      {
        if i >= 2 {
          assert (h + t)[i] == t[i - 2];
        }
      }
    }
  }

  /** `hex2bin(bin2hex(a))` gives back the elements of `a`. */
  lemma {:induction false} DecodeEncode(a: seq<Byte>)
    ensures |Decode(Encode(a))| == |a|
    ensures forall i :: 0 <= i < |a| ==> Decode(Encode(a))[i] == Int(a[i])
    decreases |a|
  {
    if a != [] {
      ByteHexDigits(a[0]);
      EncodeLength(a[1..]);
      var s := Encode(a);
      assert s[..2] == ByteHex(a[0]);
      assert s[2..] == Encode(a[1..]);
      ParseByteHex(a[0]);
      DecodeEncode(a[1..]);
      assert Decode(s) == [Int(a[0])] + Decode(Encode(a[1..]));
      ConsNumbers(a, Decode(Encode(a[1..])));
    }
  }

  /** Prepending the number of the first byte to the numbers of the rest gives the numbers of all bytes. */
  lemma ConsNumbers(a: seq<Byte>, rest: seq<JsNum>)
    requires a != [] && |rest| == |a| - 1
    requires forall i :: 0 <= i < |a| - 1 ==> rest[i] == Int(a[1..][i])
    ensures forall i :: 0 <= i < |a| ==> ([Int(a[0])] + rest)[i] == Int(a[i])
  {
    forall i | 0 < i < |a|
      ensures ([Int(a[0])] + rest)[i] == Int(a[i])
    {
      assert a[1..][i - 1] == a[i];
    }
  }

  /** `hex2bin` yields one number per complete pair; a trailing odd character is ignored. */
  lemma {:induction false} DecodeLength(s: string)
    ensures |Decode(s)| == |s| / 2
    decreases |s|
  {
    if |s| >= 2 {
      DecodeLength(s[2..]);
    }
  }

  /** Reading the pair at `i` and then the rest. */
  lemma DecodeStep(s: string, i: nat)
    requires i + 2 <= |s|
    ensures Decode(s[i..]) == [ParseInt(s[i..i + 2], 16)] + Decode(s[i + 2..])
  {
    assert s[i..][2..] == s[i + 2..];
    assert s[i..][..2] == s[i..i + 2];
  }

  /** Fewer than two characters decode to nothing. */
  lemma DecodeShort(s: string)
    requires |s| < 2
    ensures Decode(s) == []
  {
  }

  /** `bin2hex(array)`. */
  method Bin2Hex(bytes: seq<Byte>) returns (s: string)
    ensures s == Encode(bytes)
  {
    s := "";
    for i := 0 to |bytes|
      invariant s == Encode(bytes[..i])
    {
      assert bytes[..i + 1] == bytes[..i] + [bytes[i]];
      EncodeAppend(bytes[..i], bytes[i]);
      s := s + PadStart(Radix16(bytes[i]), 2, '0');
    }
    assert bytes[..|bytes|] == bytes;
  }

  /** `hex2bin(s)`: `null` when reading the length of `s` throws. */
  method Hex2Bin(s: Val) returns (b: Option<seq<JsNum>>)
    ensures s.Undefined? ==> b == None
    ensures s.Str? ==> b == Some(Decode(s.s))
  {
    if s.Undefined? {
      return None;
    }
    var out := DecodePairs(s.s);
    return Some(out);
  }

  /** The loop of `hex2bin`: one `parseInt` per complete pair, left to right. */
  method DecodePairs(str: string) returns (out: seq<JsNum>)
    ensures out == Decode(str)
  {
    out := [];
    var i := 0;
    while i < |str| - 1
      invariant 0 <= i <= |str|
      invariant Decode(str) == out + Decode(str[i..])
    {
      DecodeStep(str, i);
      out := out + [ParseInt(str[i..i + 2], 16)];
      i := i + 2;
    }
    DecodeShort(str[i..]);
    assert out + [] == out;
  }
}
