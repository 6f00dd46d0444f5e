// The index derivation shared by both copies of the Bloom filter: 64 bytes
// of hash material per entry, one bit field of `numIdxBits` bits per index,
// reduced modulo the filter size, and the byte/bit location of an index.
// All arithmetic follows the ECMAScript operators the source uses.
module BloomIndex {
  import opened Js

  /** The hash material of an entry: SHA-256 of the entry, then SHA-256 of the entry written twice. */
  function Material(sha256: string -> Digest, entry: string): (m: seq<Byte>)
    ensures |m| == 64
  {
    sha256(entry) + sha256(entry + entry)
  }

  /** Reading `totalIdx[k]`: zero for a negative `k` (the source's guard), undefined past the end. */
  function ByteAt(m: seq<Byte>, k: int): JsNum
  {
    if k < 0 then Int(0) else if k < |m| then Int(m[k]) else NaN
  }

  /** `256 * v + x` on numbers, where an undefined byte makes the sum NaN. */
  function Append(v: JsNum, x: JsNum): JsNum
  {
    match (v, x)
    case (Int(a), Int(b)) => Int(256 * a + b)
    case _ => NaN
  }

  /** The value after `n` rounds of the inner loop at byte position `pos`. */
  function Word(m: seq<Byte>, pos: int, n: nat): JsNum
  {
    if n == 0 then Int(0) else Append(Word(m, pos, n - 1), ByteAt(m, |m| - 4 - pos + (n - 1)))
  }

  /** A byte string read as a big-endian number. */
  function BigEndian(s: seq<Byte>): nat
  {
    if |s| == 0 then 0 else 256 * BigEndian(s[..|s| - 1]) + s[|s| - 1]
  }

  /** NaN reads as 0 under the 32-bit operators. */
  function NumberBits(x: JsNum): int
  {
    match x
    case Int(n) => n
    case NaN => 0
  }

  /** `a % b` on numbers: NaN when `b` is 0. */
  function RemNum(a: int, b: int): JsNum
  {
    if b == 0 then NaN else Int(Rem(a, b))
  }

  /** The masked bit field an index is cut from, at bit offset `offset` (`i * numIdxBits`). */
  function Field(m: seq<Byte>, numIdxBits: int, offset: int): int
  {
    var v := Word(m, ShiftRight(offset, 3), 4);
    var mask := ShiftLeft(1, numIdxBits) - 1;
    And(ShiftRight(NumberBits(v), And(offset, 7)), mask)
  }

  /** The `i`-th index of an entry with hash material `m`. */
  function Index(m: seq<Byte>, numBits: int, numIdxBits: int, i: int): JsNum
  {
    RemNum(Field(m, numIdxBits, i * numIdxBits), numBits)
  }

  function Count(numIdx: int): nat
  {
    if numIdx > 0 then numIdx else 0
  }

  /** The index list of an entry: one index per `i` with `0 <= i < numIdx`. */
  function Indices(m: seq<Byte>, numBits: int, numIdx: int, numIdxBits: int): seq<JsNum>
  {
    seq(Count(numIdx), i => Index(m, numBits, numIdxBits, i))
  }

  /** One more round of the index loop appends the next index. */
  lemma IndicesNext(m: seq<Byte>, numBits: int, i: nat, numIdxBits: int)
    ensures Indices(m, numBits, i + 1, numIdxBits) == Indices(m, numBits, i, numIdxBits) + [Index(m, numBits, numIdxBits, i)]
  {
  }

  /** A bit number within a byte. */
  type BitNumber = b: int | 0 <= b < 8

  /** The byte position and bit number an index selects. */
  datatype Loc = Loc(pos: int, bit: BitNumber)

  /** `resolve`: `idx >> 3` and `idx & 7`. */
  function Resolve(idx: JsNum): Loc
  {
    var x := NumberBits(idx);
    AndLowMask(x, 7, 3);
    Loc(ShiftRight(x, 3), And(x, 7))
  }

  /** The locations of all indices of an entry. */
  function Locations(m: seq<Byte>, numBits: int, numIdx: int, numIdxBits: int): seq<Loc>
  {
    var list := Indices(m, numBits, numIdx, numIdxBits);
    seq(|list|, i requires 0 <= i < |list| => Resolve(list[i]))
  }

  /** `1 << bit` stored into a byte. */
  function Mask(bit: BitNumber): bv8
  {
    (1 as bv8) << bit
  }

  /** The number of bytes that hold `numBits` bits: the legacy copy's `(numBits + 7) / 8`. */
  function ByteCount(numBits: int): int
  {
    (numBits + 7) / 8
  }

  /** The extension copy's `(numBits + 7) >> 3`, which wraps at 2^31. */
  function ShiftedByteCount(numBits: int): int
  {
    ShiftRight(numBits + 7, 3)
  }

  /** `Math.ceil(Math.log2(n))` for a positive integer `n`. */
  function CeilLog2(n: int): (k: nat)
    requires n >= 1
    ensures n <= Pow2(k) && (k == 0 || Pow2(k - 1) < n)
  {
    if n == 1 then 0 else 1 + CeilLog2((n + 1) / 2)
  }

  // ---------------------------------------------------------------------
  // Properties
  // ---------------------------------------------------------------------

  /** Some round of the inner loop reads past the end exactly when the byte position is negative. */
  lemma {:induction false} WordDefined(m: seq<Byte>, pos: int, n: nat)
    requires |m| >= 4 && n <= 4
    ensures Word(m, pos, n).Int? <==> n == 0 || n <= pos + 4
  {
    if n > 0 {
      WordDefined(m, pos, n - 1);
    }
  }

  function Clamp(x: int): nat
  {
    if x < 0 then 0 else x
  }

  /** For a non-negative position the loop reads the big-endian value of the (clamped) four bytes. */
  lemma {:induction false} WordValue(m: seq<Byte>, pos: int, n: nat)
    requires |m| >= 4 && 0 <= pos && n <= 4
    ensures Word(m, pos, n) == Int(BigEndian(m[Clamp(|m| - 4 - pos) .. Clamp(|m| - 4 - pos + n)]))
  {
    if n > 0 {
      WordValue(m, pos, n - 1);
      var k := |m| - 4 - pos + (n - 1);
      if k < 0 {
        assert Clamp(|m| - 4 - pos) == Clamp(k + 1) == 0;
      } else {
        BigEndianSnoc(m, Clamp(|m| - 4 - pos), k);
      }
    }
  }

  /** One more byte on the right of a big-endian slice multiplies by 256 and adds it. */
  lemma BigEndianSnoc(m: seq<Byte>, lo: nat, k: nat)
    requires lo <= k < |m|
    ensures BigEndian(m[lo .. k + 1]) == 256 * BigEndian(m[lo .. k]) + m[k]
  {
    var s := m[lo .. k + 1];
    assert s[..|s| - 1] == m[lo .. k];
  }

  /** A big-endian number of `n` bytes is below 256^n, here 2^(8n). */
  lemma {:induction false} BigEndianBound(s: seq<Byte>)
    ensures BigEndian(s) < Pow2(8 * |s|)
  {
    if |s| > 0 {
      var init := s[..|s| - 1];
      BigEndianBound(init);
      var p := Pow2(8 * |init|);
      Pow2Add(8, 8 * |init|);
      Pow2Of32();
      assert Pow2(8 * |s|) == 256 * p;
      assert BigEndian(s) == 256 * BigEndian(init) + s[|s| - 1];
    }
  }

  /** The field is the low `numIdxBits mod 32` bits of the shifted word, so it is below 2^31. */
  lemma FieldRange(m: seq<Byte>, numIdxBits: int, offset: int)
    ensures Field(m, numIdxBits, offset)
      == ShiftRight(NumberBits(Word(m, ShiftRight(offset, 3), 4)), And(offset, 7)) % Pow2(numIdxBits % 32)
    ensures 0 <= Field(m, numIdxBits, offset) < Pow2(numIdxBits % 32) <= 0x8000_0000
  {
    var v := Word(m, ShiftRight(offset, 3), 4);
    var x := ShiftRight(NumberBits(v), And(offset, 7));
    ShiftLeftOneMinusOne(numIdxBits);
    AndLowMask(x, ShiftLeft(1, numIdxBits) - 1, numIdxBits % 32);
    Pow2AtMost31(numIdxBits % 32);
  }

  /** Every index of a filter with at least one bit lies in `0 .. numBits - 1` (and below 2^31). */
  lemma IndexInRange(m: seq<Byte>, numBits: int, numIdxBits: int, i: int)
    requires numBits >= 1
    ensures Index(m, numBits, numIdxBits, i).Int?
    ensures 0 <= Index(m, numBits, numIdxBits, i).n < numBits
    ensures Index(m, numBits, numIdxBits, i).n < 0x8000_0000
  {
    var f := Field(m, numIdxBits, i * numIdxBits);
    FieldRange(m, numIdxBits, i * numIdxBits);
    ModAtMost(f, numBits);
    assert Index(m, numBits, numIdxBits, i) == Int(f % numBits);
  }

  /** `indexList` yields exactly `numIdx` indices (none for a non-positive count), each a bit of the filter. */
  lemma IndicesShape(m: seq<Byte>, numBits: int, numIdx: int, numIdxBits: int)
    requires numBits >= 1
    ensures var list := Indices(m, numBits, numIdx, numIdxBits);
      |list| == (if numIdx > 0 then numIdx else 0)
      && forall i :: 0 <= i < |list| ==> list[i].Int? && 0 <= list[i].n < numBits
  {
    var list := Indices(m, numBits, numIdx, numIdxBits);
    forall i | 0 <= i < |list|
      ensures list[i].Int? && 0 <= list[i].n < numBits
    {
      IndexInRange(m, numBits, numIdxBits, i);
    }
  }

  /** An arithmetic right shift and a logical one agree on the low `k` bits when `s + k <= 32`. */
  lemma FieldOfWord(w: int, s: nat, k: nat)
    requires 0 <= w < 0x1_0000_0000 && s + k <= 32
    ensures (ToInt32(w) / Pow2(s)) % Pow2(k) == (w / Pow2(s)) % Pow2(k)
  {
    if w < 0x8000_0000 {
      assert ToInt32(w) == w;
    } else {
      assert ToInt32(w) == w - 0x1_0000_0000;
      FieldOfHighWord(w, s, k);
    }
  }

  lemma FieldOfHighWord(w: int, s: nat, k: nat)
    requires s + k <= 32
    ensures ((w - 0x1_0000_0000) / Pow2(s)) % Pow2(k) == (w / Pow2(s)) % Pow2(k)
  {
    Pow2Split(s, k);
    DropMultiple(w, Pow2(s), Pow2(32 - s - k), Pow2(k));
  }

  /** Removing a multiple of `p * d` changes neither `(w / p) % d`. */
  lemma DropMultiple(w: int, p: nat, c: nat, d: nat)
    requires p > 0 && d > 0
    ensures ((w - (c * d) * p) / p) % d == (w / p) % d
  {
    DivSubMultiple(w, p, c * d);
    DivSubMultiple(w / p, d, c);
  }

  /**
   * The meaning of an index for the offsets of a valid filter: the
   * `numIdxBits`-bit field that starts `offset mod 8` bits above the low end
   * of the four bytes ending `offset / 8` bytes before the end of the
   * material, taken modulo `numBits`.
   */
  lemma IndexIsField(m: seq<Byte>, numBits: int, numIdxBits: int, i: int)
    requires |m| == 64 && numBits >= 1 && 0 <= numIdxBits <= 25
    requires 0 <= i * numIdxBits < 512
    ensures var offset := i * numIdxBits;
      var pos := offset / 8;
      Index(m, numBits, numIdxBits, i)
      == Int(((BigEndian(m[Clamp(60 - pos) .. 64 - pos]) / Pow2(offset % 8)) % Pow2(numIdxBits)) % numBits)
  {
    var offset := i * numIdxBits;
    var f := Field(m, numIdxBits, offset);
    assert f == (BigEndian(m[Clamp(60 - offset / 8) .. 64 - offset / 8]) / Pow2(offset % 8)) % Pow2(numIdxBits) by {
      FieldValue(m, numIdxBits, offset);
    }
    assert Index(m, numBits, numIdxBits, i) == Int(Rem(f, numBits));
  }

  lemma FieldValue(m: seq<Byte>, numIdxBits: int, offset: int)
    requires |m| == 64 && 0 <= numIdxBits <= 25 && 0 <= offset < 512
    ensures var pos := offset / 8;
      Field(m, numIdxBits, offset)
      == (BigEndian(m[Clamp(60 - pos) .. 64 - pos]) / Pow2(offset % 8)) % Pow2(numIdxBits)
  {
    assert numIdxBits % 32 == numIdxBits;
    var pos, b := offset / 8, offset % 8;
    assert 0 <= b < 8 && b % 32 == b;
    var s := m[Clamp(60 - pos) .. 64 - pos];
    var w := BigEndian(s);
    assert ShiftRight(offset, 3) == pos && And(offset, 7) == b by {
      ByteAndBit(offset);
    }
    assert Word(m, pos, 4) == Int(w) by {
      WordValue(m, pos, 4);
      assert Clamp(|m| - 4 - pos + 4) == 64 - pos;
    }
    assert Field(m, numIdxBits, offset) == ShiftRight(w, b) % Pow2(numIdxBits) by {
      FieldRange(m, numIdxBits, offset);
    }
    assert w < 0x1_0000_0000 by {
      WordBelow32(s);
    }
    assert ShiftRight(w, b) == ToInt32(w) / Pow2(b);
    FieldOfWord(w, b, numIdxBits);
  }

  /** At most four bytes make a value below 2^32. */
  lemma WordBelow32(s: seq<Byte>)
    requires |s| <= 4
    ensures BigEndian(s) < 0x1_0000_0000
  {
    BigEndianBound(s);
    Pow2Monotone(8 * |s|, 32);
    Pow2Of32();
  }

  /** An index of a filter with at least one bit resolves to its byte `idx / 8` and bit `idx mod 8`. */
  lemma ResolveInRange(m: seq<Byte>, numBits: int, numIdxBits: int, i: int)
    requires numBits >= 1
    ensures var idx := Index(m, numBits, numIdxBits, i).n;
      Resolve(Index(m, numBits, numIdxBits, i)) == Loc(idx / 8, idx % 8)
  {
    IndexInRange(m, numBits, numIdxBits, i);
    ByteAndBit(Index(m, numBits, numIdxBits, i).n);
  }

  /** Every location of an entry lies inside a storage of `(numBits + 7) / 8` bytes. */
  lemma LocationsInside(m: seq<Byte>, numBits: int, numIdx: int, numIdxBits: int, size: int)
    requires numBits >= 1 && size >= ByteCount(numBits)
    ensures var ls := Locations(m, numBits, numIdx, numIdxBits);
      forall j :: 0 <= j < |ls| ==> 0 <= ls[j].pos < size
  {
    var ls := Locations(m, numBits, numIdx, numIdxBits);
    forall j | 0 <= j < |ls|
      ensures 0 <= ls[j].pos < size
    {
      ResolveInRange(m, numBits, numIdxBits, j);
      IndexInRange(m, numBits, numIdxBits, j);
      var idx := Index(m, numBits, numIdxBits, j).n;
      assert ls[j] == Loc(idx / 8, idx % 8);
      ByteOfBit(idx, numBits);
    }
  }

  /** Bit `idx` of a filter of `numBits` bits lies in one of its `(numBits + 7) / 8` bytes. */
  lemma ByteOfBit(idx: int, numBits: int)
    requires 0 <= idx < numBits
    ensures 0 <= idx / 8 < ByteCount(numBits)
  {
  }

  /** The two allocation rules agree for every filter size below 2^31 - 7. */
  lemma ByteCountsAgree(numBits: int)
    requires -7 <= numBits < 0x8000_0000 - 7
    ensures ShiftedByteCount(numBits) == ByteCount(numBits)
  {
    var p := Pow2(3);
    assert p == 8 by { Pow2Small(); }
    assert ShiftRight(numBits + 7, 3) == (numBits + 7) / p by {
      assert 3 % 32 == 3;
      ShiftRightOfSmall(numBits + 7, 3);
    }
  }

  /** At 2^32 bits the extension's rule allocates no byte at all although every index is stored in byte 0. */
  lemma ShiftedByteCountWraps()
    ensures ShiftedByteCount(0x1_0000_0000) == 0
    ensures ByteCount(0x1_0000_0000) == 0x2000_0000
  {
    Pow2Small();
  }
}
