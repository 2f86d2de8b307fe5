/** Growing a dynamically allocated array while a packed field is decoded (PB_ENABLE_MALLOC). */
module PointerArrays {
  import opened Wire
  import opened Schema
  import opened DecodeSpec
  import opened Decoder

  const SIZE_MAX: nat := 0xFFFF_FFFF_FFFF_FFFF
  const CHECK_LIMIT: nat := 0x1_0000_0000

  /** The test in allocate_field that avoids a division when both sizes have only their lower half set. */
  predicate SizeTooLarge(dataSize: nat, arraySize: nat)
    requires arraySize > 0
  {
    (dataSize >= CHECK_LIMIT || arraySize >= CHECK_LIMIT) && SIZE_MAX / arraySize < dataSize
  }

  /** It rejects a pair of positive sizes exactly when their product overflows size_t. */
  lemma {:induction false} GuardExact(dataSize: nat, arraySize: nat)
    requires dataSize > 0 && arraySize > 0
    ensures SizeTooLarge(dataSize, arraySize) <==> dataSize * arraySize > SIZE_MAX
  {
    if dataSize < CHECK_LIMIT && arraySize < CHECK_LIMIT {
      ProductBelow(dataSize, arraySize);
    } else {
      QuotientBelow(SIZE_MAX, arraySize, dataSize);
    }
  }

  lemma {:induction false} ProductBelow(a: nat, b: nat)
    requires a < CHECK_LIMIT && b < CHECK_LIMIT
    ensures a * b <= SIZE_MAX
  {
    MulLe(a, 0xFFFF_FFFF, b);
  }

  lemma {:induction false} MulLe(a: nat, c: nat, b: nat)
    requires a <= c
    ensures a * b <= c * b
  {
  }

  lemma {:induction false} QuotientBelow(m: nat, a: nat, d: nat)
    requires a > 0
    ensures m / a < d <==> d * a > m
  {
    var q, r := m / a, m % a;
    assert m == q * a + r && 0 <= r < a;
    if q < d {
      assert d * a >= (q + 1) * a;
    } else {
      assert d * a <= q * a;
    }
  }

  /** Bytes taken by `n` entries. */
  function Extent(n: nat, dataSize: nat): nat {
    n * dataSize
  }

  lemma {:induction false} ExtentMono(a: nat, b: nat, dataSize: nat)
    requires a <= b
    ensures Extent(a, dataSize) <= Extent(b, dataSize)
    ensures Extent(a + 1, dataSize) == Extent(a, dataSize) + dataSize
  {
    MulLe(a, b, dataSize);
  }

  lemma {:induction false} ExtentFits(n: nat, dataSize: nat)
    requires n <= PB_SIZE_MAX && dataSize <= PB_SIZE_MAX
    ensures Extent(n, dataSize) <= SIZE_MAX
  {
    ProductBelow(n, dataSize);
  }

  /** A heap block, of which only the size matters. */
  class Block {
    var bytes: nat

    constructor (bytes: nat)
      ensures this.bytes == bytes
    {
      this.bytes := bytes;
    }

    /** allocate_field: `granted` says which sizes realloc can serve. */
    method Allocate(dataSize: nat, arraySize: nat, granted: nat -> bool) returns (ok: bool)
      modifies this
      ensures ok <==> && dataSize > 0 && arraySize > 0 && Extent(arraySize, dataSize) <= SIZE_MAX
                      && granted(Extent(arraySize, dataSize))
      ensures bytes == if ok then Extent(arraySize, dataSize) else old(bytes)
    {
      if dataSize == 0 || arraySize == 0 { return false; }
      GuardExact(dataSize, arraySize);
      if SizeTooLarge(dataSize, arraySize) { return false; }
      if !granted(arraySize * dataSize) { return false; }
      bytes := arraySize * dataSize;
      return true;
    }
  }

  /** A guess at the number of entries that are still to come, rounded up. */
  function Grown(reserved: nat, bytesLeft: nat, dataSize: nat): nat
    requires bytesLeft > 0 && dataSize > 0
  {
    var remain := (bytesLeft - 1) / dataSize + 1;
    if reserved + remain < PB_SIZE_MAX then reserved + remain else reserved + 1
  }

  lemma {:induction false} GrownBounds(reserved: nat, bytesLeft: nat, dataSize: nat)
    requires bytesLeft > 0 && dataSize > 0 && reserved < PB_SIZE_MAX
    ensures reserved < Grown(reserved, bytesLeft, dataSize) <= PB_SIZE_MAX
  {
    assert (bytesLeft - 1) / dataSize >= 0;
  }

  /** Entries take as many bytes in memory as in the input. */
  predicate SameWidth(f: Field) {
    (f.ltype.LFixed32? && f.dataSize == 4) || (f.ltype.LFixed64? && f.dataSize == 8)
  }

  /** The room for `count` entries is enough for the rest of the input, or the array will be full. */
  predicate Enough(f: Field, reserved: nat, count: nat, bytesLeft: nat) {
    bytesLeft <= (reserved - count) * f.dataSize || WillFill(f, count, bytesLeft)
  }

  predicate WillFill(f: Field, count: nat, bytesLeft: nat) {
    PB_SIZE_MAX * f.dataSize < (count + 1) * f.dataSize + bytesLeft
  }

  lemma {:induction false} GrownIsEnough(f: Field, count: nat, bytesLeft: nat)
    requires SameWidth(f) && bytesLeft > 0
    ensures Enough(f, Grown(count, bytesLeft, f.dataSize), count, bytesLeft)
  {
    if f.dataSize == 4 { assert bytesLeft <= 4 * ((bytesLeft - 1) / 4 + 1) < bytesLeft + 4; }
    else { assert bytesLeft <= 8 * ((bytesLeft - 1) / 8 + 1) < bytesLeft + 8; }
  }

  lemma {:induction false} ScalarWidth(f: Field, s: seq<Byte>)
    requires SameWidth(f) && DecScalar(f, s).Ok?
    ensures |DecScalar(f, s).rest| == |s| - f.dataSize
  {
  }

  lemma {:induction false} StillEnough(f: Field, reserved: nat, count: nat, bytesLeft: nat)
    requires SameWidth(f) && bytesLeft >= f.dataSize && count < reserved && Enough(f, reserved, count, bytesLeft)
    ensures Enough(f, reserved, count + 1, bytesLeft - f.dataSize)
    ensures WillFill(f, count, bytesLeft) ==> WillFill(f, count + 1, bytesLeft - f.dataSize)
  {
  }

  lemma {:induction false} NoRoomLeft(f: Field, count: nat, bytesLeft: nat)
    requires Enough(f, count, count, bytesLeft) && bytesLeft > 0
    ensures WillFill(f, count, bytesLeft)
  {
  }

  lemma {:induction false} NotFilled(f: Field, count: nat)
    requires SameWidth(f) && count < PB_SIZE_MAX
    ensures !WillFill(f, count, 0)
  {
  }

  datatype Write = Write(offset: nat, block: nat)

  /** The packed branch of decode_pointer_field on its substream. The count never passes the reserved
      entries, those never pass PB_SIZE_MAX, and every entry is written inside the block as last
      allocated. Entries as wide in memory as in the input are allocated at once. Unless realloc refuses, the
      result is that of the packed decoder. */
  method DecodePackedPointer(sub: IStream, f: Field, items0: seq<Value>, block: Block, granted: nat -> bool)
    returns (ok: bool, refused: bool, items: seq<Value>, ghost writes: seq<Write>, ghost growths: nat)
    requires sub.Valid() && f.atype.Pointer? && f.htype.Repeated? && !FixedCount(f) && Packable(f.ltype)
    requires 0 < f.dataSize <= PB_SIZE_MAX && |items0| <= PB_SIZE_MAX
    requires Extent(|items0|, f.dataSize) <= block.bytes
    modifies sub, block
    ensures forall i :: 0 <= i < |writes| ==> writes[i].offset + f.dataSize <= writes[i].block
    ensures |items| <= PB_SIZE_MAX && Extent(|items|, f.dataSize) <= block.bytes
    ensures ok ==> |writes| == |items| - |items0|
    ensures ok && SameWidth(f) && |items| < PB_SIZE_MAX ==> growths <= 1
    ensures !refused ==>
              if ok then DecPacked(f, items0, |items0|, old(sub.Rest())) == Filled(items, |items|)
              else DecPacked(f, items0, |items0|, old(sub.Rest())).Overflow?
    // the overflow test never refuses here: only realloc can
    ensures refused ==> !ok && exists n: nat :: n <= PB_SIZE_MAX && !granted(Extent(n, f.dataSize))
  {
    hide DecScalar, Extent, Grown, Enough, WillFill;
    items, writes, refused, growths := items0, [], false, 0;
    var reserved := |items0|;
    while sub.bytesLeft > 0
      invariant sub.Valid()
      invariant |items| <= reserved <= PB_SIZE_MAX && Extent(reserved, f.dataSize) <= block.bytes
      invariant |writes| == |items| - |items0|
      invariant forall i :: 0 <= i < |writes| ==> writes[i].offset + f.dataSize <= writes[i].block
      invariant DecPacked(f, items0, |items0|, old(sub.Rest())) == DecPacked(f, items, |items|, sub.Rest())
      invariant growths == 0 ==> reserved == |items|
      invariant SameWidth(f) ==> growths <= 1 || WillFill(f, |items|, sub.bytesLeft)
      invariant SameWidth(f) && growths > 0 ==> Enough(f, reserved, |items|, sub.bytesLeft)
      decreases sub.bytesLeft
    {
      ExtentMono(|items|, reserved, f.dataSize);
      if |items| == PB_SIZE_MAX { return false, false, items, writes, growths; }
      if |items| + 1 > reserved {
        GrownBounds(reserved, sub.bytesLeft, f.dataSize);
        if SameWidth(f) && growths > 0 { NoRoomLeft(f, reserved, sub.bytesLeft); }
        if SameWidth(f) { GrownIsEnough(f, reserved, sub.bytesLeft); }
        reserved := Grown(reserved, sub.bytesLeft, f.dataSize);
        ExtentMono(|items|, reserved, f.dataSize);
        ExtentFits(reserved, f.dataSize);
        ok := block.Allocate(f.dataSize, reserved, granted);
        if !ok { return false, true, items, writes, growths; }
        growths := growths + 1;
      }
      ExtentMono(|items| + 1, reserved, f.dataSize);
      ghost var left, before := sub.bytesLeft, sub.Rest();
      ghost var at := Write(Extent(|items|, f.dataSize), block.bytes);
      var v;
      ok, v := sub.DecodeScalar(f);
      if !ok { return false, false, items, writes, growths; }
      if SameWidth(f) {
        ScalarWidth(f, before);
        StillEnough(f, reserved, |items|, left);
      }
      items, writes := items + [v], writes + [at];
    }
    ExtentMono(|items|, reserved, f.dataSize);
    if SameWidth(f) && |items| < PB_SIZE_MAX { NotFilled(f, |items|); }
    ok := true;
  }
}
