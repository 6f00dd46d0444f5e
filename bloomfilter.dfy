// The Bloom filter object: its fields, `initDirect`, `add`, `contains` and
// `indexList`, with the bit storage (a Uint8Array) as an array of bytes.
// Typed-array semantics apply: a write outside the array is ignored and a
// read outside it gives `undefined`, which behaves as 0 under `&`.
module Bloom {
  import opened Js
  import opened BloomIndex

  /** A serialised filter (the `obj` argument), with `bits` already decoded from base64. */
  datatype Stored = Stored(numBits: int, numIdx: int, numIdxBits: int, bits: seq<bv8>)

  /** `bits[pos] |= mask` on a typed array. */
  function SetBit(b: seq<bv8>, l: Loc): (r: seq<bv8>)
    ensures |r| == |b|
  {
    if 0 <= l.pos < |b| then b[l.pos := b[l.pos] | Mask(l.bit)] else b
  }

  /** The storage after setting the locations `ls` in order. */
  function SetAll(b: seq<bv8>, ls: seq<Loc>): (r: seq<bv8>)
    ensures |r| == |b|
  {
    if |ls| == 0 then b else SetBit(SetAll(b, ls[..|ls| - 1]), ls[|ls| - 1])
  }

  /** Setting one more location of the list. */
  lemma SetAllNext(b: seq<bv8>, ls: seq<Loc>, i: nat)
    requires i < |ls|
    ensures SetAll(b, ls[..i + 1]) == SetBit(SetAll(b, ls[..i]), ls[i])
  {
    assert ls[..i + 1][..i] == ls[..i];
  }

  /** `(bits[pos] & mask) != 0`, where a read past the end gives 0. */
  predicate IsSet(b: seq<bv8>, l: Loc)
  {
    0 <= l.pos < |b| && b[l.pos] & Mask(l.bit) != 0
  }

  /** Every location is set: the answer of `contains`. */
  predicate AllSet(b: seq<bv8>, ls: seq<Loc>)
  {
    forall i :: 0 <= i < |ls| ==> IsSet(b, ls[i])
  }

  /** The byte `contains` reads for `l` (0 past the end) has the mask bit exactly when the bit is set. */
  lemma ByteHasBit(b: seq<bv8>, l: Loc, byte: bv8)
    requires byte == if 0 <= l.pos < |b| then b[l.pos] else 0
    ensures IsSet(b, l) <==> byte & Mask(l.bit) != 0
  {
  }

  /** A prefix whose locations are all set stays so with the next one set. */
  lemma AllSetNext(b: seq<bv8>, ls: seq<Loc>, i: nat)
    requires i < |ls| && AllSet(b, ls[..i]) && IsSet(b, ls[i])
    ensures AllSet(b, ls[..i + 1])
  {
    assert forall k :: 0 <= k < i ==> ls[..i + 1][k] == ls[..i][k];
  }

  /** Two locations that name the same bit. */
  predicate SameBit(l: Loc, l': Loc)
  {
    l.pos == l'.pos && l.bit == l'.bit
  }

  /** Some location of `ls` names the bit `l`. */
  predicate Hits(ls: seq<Loc>, l: Loc)
  {
    exists i :: 0 <= i < |ls| && SameBit(ls[i], l)
  }

  /** The mask of `resolve` is `1 << (idx & 7)`. */
  lemma MaskIsShift(bit: BitNumber)
    ensures Mask(bit) as int == ShiftLeft(1, bit)
  {
    if bit == 0 {
      ShiftLeftOne(0);
      assert Pow2(0) == 1 && Mask(0) == 1;
    } else if bit == 1 {
      ShiftLeftOne(1);
      assert Pow2(1) == 2 && Mask(1) == 2;
    } else if bit == 2 {
      ShiftLeftOne(2);
      assert Pow2(2) == 4 && Mask(2) == 4;
    } else if bit == 3 {
      ShiftLeftOne(3);
      assert Pow2(3) == 8 && Mask(3) == 8;
    } else if bit == 4 {
      ShiftLeftOne(4);
      assert Pow2(4) == 16 && Mask(4) == 16;
    } else if bit == 5 {
      ShiftLeftOne(5);
      assert Pow2(5) == 32 && Mask(5) == 32;
    } else if bit == 6 {
      ShiftLeftOne(6);
      assert Pow2(6) == 64 && Mask(6) == 64;
    } else {
      ShiftLeftOne(7);
      assert Pow2(7) == 128 && Mask(7) == 128;
    }
  }

  /** Setting one bit in a byte: bit `y` is set afterwards exactly when it was set before or `y` is the bit set. */
  lemma OrMask(v: bv8, x: BitNumber, y: BitNumber)
    ensures ((v | Mask(x)) & Mask(y) != 0) <==> (v & Mask(y) != 0 || x == y)
  {
  }

  /** A bit is set after one write exactly when it was set before or the write named it. */
  lemma SetBitExact(b: seq<bv8>, l: Loc, l': Loc)
    ensures IsSet(SetBit(b, l), l') <==> IsSet(b, l') || (SameBit(l, l') && 0 <= l.pos < |b|)
  {
    if 0 <= l.pos < |b| && l.pos == l'.pos {
      OrMask(b[l.pos], l.bit, l'.bit);
    }
  }

  /**
   * `add` only sets bits: after setting `ls`, a bit is set exactly when it
   * was set before or some location of `ls` inside the storage names it.
   */
  lemma {:induction false} SetAllExact(b: seq<bv8>, ls: seq<Loc>, l: Loc)
    ensures IsSet(SetAll(b, ls), l)
      <==> IsSet(b, l) || (Hits(ls, l) && 0 <= l.pos < |b|)
  {
    if |ls| > 0 {
      var init := ls[..|ls| - 1];
      SetAllExact(b, init, l);
      SetBitExact(SetAll(b, init), ls[|ls| - 1], l);
      if Hits(ls, l) && !Hits(init, l) {
        assert SameBit(ls[|ls| - 1], l);
      }
      if Hits(init, l) {
        var i :| 0 <= i < |init| && SameBit(init[i], l);
        assert SameBit(ls[i], l);
      }
    }
  }

  /** Setting bits changes only the bytes that some location names. */
  lemma {:induction false} SetAllOnlyNamedBytes(b: seq<bv8>, ls: seq<Loc>, k: int)
    requires 0 <= k < |b| && forall i :: 0 <= i < |ls| ==> ls[i].pos != k
    ensures SetAll(b, ls)[k] == b[k]
  {
    if |ls| > 0 {
      SetAllOnlyNamedBytes(b, ls[..|ls| - 1], k);
    }
  }

  /** No false negatives: once an entry's locations lie inside the storage, setting them makes `contains` true. */
  lemma AddThenContains(b: seq<bv8>, ls: seq<Loc>)
    requires forall i :: 0 <= i < |ls| ==> 0 <= ls[i].pos < |b|
    ensures AllSet(SetAll(b, ls), ls)
  {
    forall i | 0 <= i < |ls|
      ensures IsSet(SetAll(b, ls), ls[i])
    {
      assert SameBit(ls[i], ls[i]);
      SetAllExact(b, ls, ls[i]);
    }
  }

  /** Later adds keep every entry that was already contained. */
  lemma AddKeepsContained(b: seq<bv8>, ls: seq<Loc>, ls': seq<Loc>)
    requires AllSet(b, ls')
    ensures AllSet(SetAll(b, ls), ls')
  {
    forall i | 0 <= i < |ls'|
      ensures IsSet(SetAll(b, ls), ls'[i])
    {
      SetAllExact(b, ls, ls'[i]);
    }
  }

  /** A storage of zero bytes contains no entry that has at least one location. */
  lemma ZeroContainsNothing(b: seq<bv8>, ls: seq<Loc>)
    requires forall k :: 0 <= k < |b| ==> b[k] == 0
    requires |ls| > 0
    ensures !AllSet(b, ls)
  {
    assert !IsSet(b, ls[0]);
  }

  /**
   * No false negatives for a filter whose storage holds `(numBits + 7) / 8`
   * bytes: after adding an entry, looking it up succeeds, and it keeps
   * succeeding whatever is added later.
   */
  lemma NoFalseNegatives(sha256: string -> Digest, numBits: int, numIdx: int, numIdxBits: int,
                         b: seq<bv8>, entry: string, later: seq<seq<Loc>>)
    requires numBits >= 1 && |b| >= ByteCount(numBits)
    ensures var ls := Locations(Material(sha256, entry), numBits, numIdx, numIdxBits);
      AllSet(SetEach(SetAll(b, ls), later), ls)
  {
    var ls := Locations(Material(sha256, entry), numBits, numIdx, numIdxBits);
    LocationsInside(Material(sha256, entry), numBits, numIdx, numIdxBits, |b|);
    AddThenContains(b, ls);
    SetEachKeeps(SetAll(b, ls), later, ls);
  }

  /** The storage after several adds, each setting one list of locations. */
  function SetEach(b: seq<bv8>, adds: seq<seq<Loc>>): seq<bv8>
    decreases |adds|
  {
    if |adds| == 0 then b else SetEach(SetAll(b, adds[0]), adds[1..])
  }

  lemma {:induction false} SetEachKeeps(b: seq<bv8>, adds: seq<seq<Loc>>, ls: seq<Loc>)
    requires AllSet(b, ls)
    ensures AllSet(SetEach(b, adds), ls)
    decreases |adds|
  {
    if |adds| > 0 {
      AddKeepsContained(b, adds[0], ls);
      SetEachKeeps(SetAll(b, adds[0]), adds[1..], ls);
    }
  }

  /**
   * With the extension's `(numBits + 7) >> 3` a filter of 2^32 bits gets an
   * empty storage, so an entry just added is not found.
   */
  lemma WrappedAllocationLosesEntries(sha256: string -> Digest, numIdx: int, numIdxBits: int, entry: string)
    requires numIdx >= 1
    ensures var b := seq(ShiftedByteCount(0x1_0000_0000), _ => 0 as bv8);
      var ls := Locations(Material(sha256, entry), 0x1_0000_0000, numIdx, numIdxBits);
      !AllSet(SetAll(b, ls), ls)
  {
    ShiftedByteCountWraps();
    var ls := Locations(Material(sha256, entry), 0x1_0000_0000, numIdx, numIdxBits);
    assert |ls| == numIdx;
    assert !IsSet(SetAll([], ls), ls[0]);
  }

  /** The inner loop of `getIndices`: four bytes of `totalIdx` from `pos`, counted back from the end, read big-endian. */
  method ReadWord(totalIdx: array<Byte>, pos: int) returns (v: JsNum)
    ensures v == Word(totalIdx[..], pos, 4)
  {
    var totalSize := totalIdx.Length;
    v := Int(0);
    for j := 0 to 4
      invariant v == Word(totalIdx[..], pos, j)
    {
      var k := totalSize - 4 - pos + j;
      var m := if k < 0 then Int(0) else if k < totalSize then Int(totalIdx[k]) else NaN;
      v := Append(v, m);
    }
  }

  class BloomFilter {
    /** SHA-256, a foreign function here. */
    const sha256: string -> Digest
    var numBits: int
    var numIdx: int
    var numIdxBits: int
    var bits: array?<bv8>
    var valid: bool

    /** `NewBloomFilter()` without a serialised object: an empty, invalid filter. */
    constructor Empty(sha256: string -> Digest)
      ensures this.sha256 == sha256 && bits == null && !valid
      ensures numBits == 0 && numIdx == 0 && numIdxBits == 0
    {
      this.sha256 := sha256;
      numBits, numIdx, numIdxBits := 0, 0, 0;
      bits := null;
      valid := false;
    }

    /** `NewBloomFilter(obj)`: copies the parameters and storage, and marks the filter valid without checking. */
    constructor FromStored(sha256: string -> Digest, obj: Stored)
      ensures this.sha256 == sha256 && valid
      ensures numBits == obj.numBits && numIdx == obj.numIdx && numIdxBits == obj.numIdxBits
      ensures bits != null && fresh(bits) && bits[..] == obj.bits
    {
      this.sha256 := sha256;
      numBits, numIdx, numIdxBits := obj.numBits, obj.numIdx, obj.numIdxBits;
      bits := new bv8[|obj.bits|](i requires 0 <= i < |obj.bits| => obj.bits[i]);
      valid := true;
    }

    /**
     * `initDirect(numBits, numIdx)`: `numIdxBits` is the ceiling of
     * log2(numBits), the storage is `(numBits + 7) / 8` zero bytes, and the
     * filter is valid when it needs at most 512 bits of hash material.
     */
    method InitDirect(numBits: int, numIdx: int)
      requires numBits >= 1
      modifies this
      ensures this.numBits == numBits && this.numIdx == numIdx && numIdxBits == CeilLog2(numBits)
      ensures bits != null && fresh(bits) && bits[..] == seq(ByteCount(numBits), _ => 0)
      ensures valid <==> numIdxBits * numIdx <= 512
    {
      this.numBits := numBits;
      this.numIdx := numIdx;
      numIdxBits := CeilLog2(numBits);
      bits := new bv8[ByteCount(numBits)](_ => 0);
      valid := numIdxBits * numIdx <= 512;
    }

    /** The hash material of `entry`: `sha256(entry)` then `sha256(entry + entry)`, copied into a 64-byte array. */
    method HashMaterial(entry: string) returns (totalIdx: array<Byte>)
      ensures fresh(totalIdx)
      ensures totalIdx[..] == Material(sha256, entry)
    {
      totalIdx := new Byte[64](_ => 0);
      var x := sha256(entry);
      for j := 0 to 32
        invariant totalIdx[..j] == x[..j]
      {
        totalIdx[j] := x[j];
      }
      ghost var first := x;
      x := sha256(entry + entry);
      for j := 0 to 32
        invariant totalIdx[..32] == first && totalIdx[32..32 + j] == x[..j]
      {
        totalIdx[32 + j] := x[j];
      }
      assert totalIdx[..] == totalIdx[..32] + totalIdx[32..64];
    }

    /** The hash material and index list of `entry`. */
    method IndexList(entry: string) returns (list: seq<JsNum>)
      ensures list == Indices(Material(sha256, entry), numBits, numIdx, numIdxBits)
    {
      var totalIdx := HashMaterial(entry);
      var totalSize := totalIdx.Length;
      ghost var material, bitCount, idxBits := totalIdx[..], numBits, numIdxBits;
      list := [];
      var mask := ShiftLeft(1, numIdxBits) - 1;
      var i := 0;
      while i < numIdx
        invariant 0 <= i && (i <= numIdx || i == 0)
        invariant totalIdx[..] == material
        invariant list == Indices(material, bitCount, i, idxBits)
      {
        var offset := i * numIdxBits;
        var pos := ShiftRight(offset, 3);
        var v := ReadWord(totalIdx, pos);
        var idx := RemNum(And(ShiftRight(NumberBits(v), And(offset, 7)), mask), numBits);
        IndicesNext(material, bitCount, i, idxBits);
        list := list + [idx];
        i := i + 1;
      }
    }

    /** `add(entry)`: sets the bit of every index of the entry; on a filter without storage it throws. */
    method Add(entry: string) returns (threw: bool)
      modifies bits
      ensures var ls := Locations(Material(sha256, entry), numBits, numIdx, numIdxBits);
        if bits == null then threw <==> |ls| > 0
        else !threw && bits[..] == SetAll(old(bits[..]), ls)
    {
      var list := IndexList(entry);
      ghost var ls := Locations(Material(sha256, entry), numBits, numIdx, numIdxBits);
      if bits == null {
        return |list| > 0;
      }
      for i := 0 to |list|
        invariant bits[..] == SetAll(old(bits[..]), ls[..i])
      {
        var r := Resolve(list[i]);
        assert r == ls[i];
        SetAllNext(old(bits[..]), ls, i);
        if 0 <= r.pos < bits.Length {
          bits[r.pos] := bits[r.pos] | Mask(r.bit);
        }
      }
      assert ls[..|list|] == ls;
      return false;
    }

    /** `contains(entry)`: whether every index of the entry has its bit set; on a filter without storage it throws unless there is no index. */
    method Contains(entry: string) returns (r: Outcome<bool>)
      ensures var ls := Locations(Material(sha256, entry), numBits, numIdx, numIdxBits);
        if bits == null then (if |ls| > 0 then r == Threw else r == Returned(true))
        else r == Returned(AllSet(bits[..], ls))
    {
      var list := IndexList(entry);
      ghost var ls := Locations(Material(sha256, entry), numBits, numIdx, numIdxBits);
      if bits == null {
        return if |list| > 0 then Threw else Returned(true);
      }
      ghost var b := bits[..];
      for i := 0 to |list|
        invariant AllSet(b, ls[..i])
      {
        var l := Resolve(list[i]);
        assert l == ls[i];
        var byte: bv8 := if 0 <= l.pos < bits.Length then bits[l.pos] else 0;
        ByteHasBit(b, l, byte);
        if byte & Mask(l.bit) == 0 {
          return Returned(false);
        }
        AllSetNext(b, ls, i);
      }
      assert ls[..|list|] == ls;
      return Returned(true);
    }
  }
}
