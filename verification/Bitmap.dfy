/** The packed page bitmap of kernel/lib/bitmap.h, read as a sequence of bits. */
module Bitmap {

  /** Whether bit k of one byte is set. */
  predicate BitOf(b: bv8, k: nat)
    requires k < 8
  {
    b & (1 << k) != 0
  }

  /** `bitmap[bit / 8] & (1 << (bit % 8))`. */
  predicate Get(bytes: seq<bv8>, bit: nat)
    requires bit < 8 * |bytes|
  {
    BitOf(bytes[bit / 8], bit % 8)
  }

  /** The bits a packed bitmap stands for, in page order. */
  function Bits(bytes: seq<bv8>): (bits: seq<bool>)
    ensures |bits| == 8 * |bytes|
  {
    seq(8 * |bytes|, i requires 0 <= i < 8 * |bytes| => Get(bytes, i))
  }

  /** A one-bit mask written out, which lets the solver decide each bit position. */
  function Mask(k: nat): bv8
    requires k < 8
  {
    if k == 0 then 0x01 else if k == 1 then 0x02 else if k == 2 then 0x04 else if k == 3 then 0x08
    else if k == 4 then 0x10 else if k == 5 then 0x20 else if k == 6 then 0x40 else 0x80
  }

  lemma ShiftIsMask(k: nat)
    requires k < 8
    ensures (1 as bv8) << k == Mask(k)
  {
    if k == 0 {} else if k == 1 {} else if k == 2 {} else if k == 3 {}
    else if k == 4 {} else if k == 5 {} else if k == 6 {} else { assert k == 7; }
  }

  lemma OneByte(b: bv8, k: nat, j: nat)
    requires k < 8 && j < 8
    ensures BitOf(b | (1 << k), j) == (j == k || BitOf(b, j))
    ensures BitOf(b & !(1 << k), j) == (j != k && BitOf(b, j))
  {
    ShiftIsMask(k);
    ShiftIsMask(j);
    var m, n := Mask(k), Mask(j);
    if j != k {
      assert m & n == 0;
    } else {
      assert m != 0;
    }
  }

  /** Replacing one byte changes the bits of that byte only. */
  lemma ReplaceByte(bytes: seq<bv8>, bit: nat, b: bv8, v: bool)
    requires bit < 8 * |bytes|
    requires forall j :: 0 <= j < 8 ==>
      BitOf(b, j) == if j == bit % 8 then v else BitOf(bytes[bit / 8], j)
    ensures Bits(bytes[bit / 8 := b]) == Bits(bytes)[bit := v]
  {
    var after := bytes[bit / 8 := b];
    forall i | 0 <= i < 8 * |bytes|
      ensures Get(after, i) == (if i == bit then v else Get(bytes, i))
    {
      var j := i % 8;
      assert 0 <= j < 8;
      if i / 8 != bit / 8 {
        assert after[i / 8] == bytes[i / 8];
      }
    }
  }

  /** Bit 0 of a byte is its least significant one. */
  lemma BitMeaning(bytes: seq<bv8>, i: nat)
    requires i < |bytes|
    ensures var bits, b := Bits(bytes), bytes[i];
      && (bits[8 * i] <==> b & 0x01 != 0) && (bits[8 * i + 1] <==> b & 0x02 != 0)
      && (bits[8 * i + 2] <==> b & 0x04 != 0) && (bits[8 * i + 3] <==> b & 0x08 != 0)
      && (bits[8 * i + 4] <==> b & 0x10 != 0) && (bits[8 * i + 5] <==> b & 0x20 != 0)
      && (bits[8 * i + 6] <==> b & 0x40 != 0) && (bits[8 * i + 7] <==> b & 0x80 != 0)
  {
    hide Bits, BitOf;
    BitAt(bytes, i, 0); BitAt(bytes, i, 1); BitAt(bytes, i, 2); BitAt(bytes, i, 3);
    BitAt(bytes, i, 4); BitAt(bytes, i, 5); BitAt(bytes, i, 6); BitAt(bytes, i, 7);
  }

  lemma BitAt(bytes: seq<bv8>, i: nat, k: nat)
    requires i < |bytes| && k < 8
    ensures Bits(bytes)[8 * i + k] <==> bytes[i] & Mask(k) != 0
  {
    assert (8 * i + k) / 8 == i && (8 * i + k) % 8 == k;
    ShiftIsMask(k);
  }

  method BitmapSet(bitmap: array<bv8>, bit: nat)
    requires bit < 8 * bitmap.Length
    modifies bitmap
    ensures Bits(bitmap[..]) == Bits(old(bitmap[..]))[bit := true]
  {
    forall j | 0 <= j < 8 { OneByte(bitmap[bit / 8], bit % 8, j); }
    ReplaceByte(bitmap[..], bit, bitmap[bit / 8] | (1 << (bit % 8)), true);
    bitmap[bit / 8] := bitmap[bit / 8] | (1 << (bit % 8));
    assert bitmap[..] == old(bitmap[..])[bit / 8 := old(bitmap[bit / 8]) | (1 << (bit % 8))];
  }

  method BitmapClear(bitmap: array<bv8>, bit: nat)
    requires bit < 8 * bitmap.Length
    modifies bitmap
    ensures Bits(bitmap[..]) == Bits(old(bitmap[..]))[bit := false]
  {
    forall j | 0 <= j < 8 { OneByte(bitmap[bit / 8], bit % 8, j); }
    ReplaceByte(bitmap[..], bit, bitmap[bit / 8] & !(1 << (bit % 8)), false);
    bitmap[bit / 8] := bitmap[bit / 8] & !(1 << (bit % 8));
    assert bitmap[..] == old(bitmap[..])[bit / 8 := old(bitmap[bit / 8]) & !(1 << (bit % 8))];
  }

  method BitmapGet(bitmap: array<bv8>, bit: nat) returns (isSet: bool)
    requires bit < 8 * bitmap.Length
    ensures isSet == Bits(bitmap[..])[bit]
  {
    isSet := bitmap[bit / 8] & (1 << (bit % 8)) != 0;
  }

  /** A fresh bitmap of 0xFF bytes has every bit set. */
  lemma AllOnes(bytes: seq<bv8>)
    requires forall i :: 0 <= i < |bytes| ==> bytes[i] == 0xFF
    ensures forall i :: 0 <= i < 8 * |bytes| ==> Bits(bytes)[i]
  {
    forall i | 0 <= i < 8 * |bytes| ensures Bits(bytes)[i] {
      ShiftIsMask(i % 8);
    }
  }

  /** The number of set bits. */
  function Count(bits: seq<bool>): (n: nat)
    ensures n <= |bits|
  {
    if bits == [] then 0 else Count(bits[..|bits| - 1]) + if bits[|bits| - 1] then 1 else 0
  }

  /** The bits in [lo, hi) overwritten with v. */
  function Mark(bits: seq<bool>, lo: nat, hi: nat, v: bool): (r: seq<bool>)
    ensures |r| == |bits|
  {
    seq(|bits|, i requires 0 <= i < |bits| => if lo <= i < hi then v else bits[i])
  }

  lemma {:induction false} CountAppend(a: seq<bool>, b: seq<bool>)
    ensures Count(a + b) == Count(a) + Count(b)
  {
    if b == [] {
      assert a + b == a;
    } else {
      var c := b[..|b| - 1];
      assert (a + b)[..|a + b| - 1] == a + c;
      CountAppend(a, c);
    }
  }

  lemma {:induction false} CountConstant(bits: seq<bool>, v: bool)
    requires forall i :: 0 <= i < |bits| ==> bits[i] == v
    ensures Count(bits) == if v then |bits| else 0
  {
    if bits != [] {
      CountConstant(bits[..|bits| - 1], v);
    }
  }

  lemma {:induction false} CountSplice(a: seq<bool>, m: seq<bool>, z: seq<bool>)
    ensures Count(a + m + z) == Count(a) + Count(m) + Count(z)
  {
    CountAppend(a + m, z);
    CountAppend(a, m);
  }

  lemma {:induction false} MarkIsSplice(bits: seq<bool>, lo: nat, hi: nat, v: bool)
    requires lo <= hi <= |bits|
    ensures Mark(bits, lo, hi, v) == bits[..lo] + seq(hi - lo, i => v) + bits[hi..]
  {
  }

  /** Flipping a range that was wholly the other way moves the count by the range's length. */
  lemma {:induction false} CountMark(bits: seq<bool>, lo: nat, hi: nat, v: bool)
    requires lo <= hi <= |bits|
    requires forall i :: lo <= i < hi ==> bits[i] == !v
    ensures Count(Mark(bits, lo, hi, v)) == if v then Count(bits) + (hi - lo) else Count(bits) - (hi - lo)
  {
    var m, marked := bits[lo..hi], seq(hi - lo, i => v);
    assert bits == bits[..lo] + m + bits[hi..];
    MarkIsSplice(bits, lo, hi, v);
    CountSplice(bits[..lo], m, bits[hi..]);
    CountSplice(bits[..lo], marked, bits[hi..]);
    CountConstant(m, !v);
    CountConstant(marked, v);
  }
}
