/** The field iterator of pb_common.c: a cursor over a descriptor that keeps the address of the
    current field's data and count incrementally. The array of a descriptor ends with an entry of
    tag 0, which here is the position `|fields|`. */
module FieldIteration {
  import opened Schema

  const POINTER_SIZE: nat := 8

  /** Bytes that a field occupies in the structure. */
  function StructSize(f: Field): nat {
    if f.atype.Static? && f.htype.Repeated? then f.dataSize * f.arraySize
    else if f.atype.Pointer? then POINTER_SIZE
    else f.dataSize
  }

  /** How far field `k` lies behind field `k-1`: the previous field and the padding, or nothing inside
      a union. */
  function Advance(fields: Fields, k: nat): nat
    requires k < |fields|
  {
    if SharesUnion(fields, k) then 0
    else fields[k].dataOffset + (if k == 0 then 0 else StructSize(fields[k - 1]))
  }

  /** Address of field `k` in a structure at `base`, as the sum of all advances up to it. */
  function DataAddress(fields: Fields, base: int, k: nat): int
    requires k < |fields|
  {
    base + SumAdvances(fields, k + 1)
  }

  function SumAdvances(fields: Fields, n: nat): nat
    requires n <= |fields|
  {
    if n == 0 then 0 else SumAdvances(fields, n - 1) + Advance(fields, n - 1)
  }

  /** First member of the union that field `k` belongs to, or `k` itself. */
  function UnionHead(fields: Fields, k: nat): (h: nat)
    requires k < |fields|
    ensures h <= k
  {
    if SharesUnion(fields, k) then UnionHead(fields, k - 1) else k
  }

  /** Address of the count, `has_` flag or `which_` tag of field `k`. */
  function SizeAddress(fields: Fields, base: int, k: nat): int
    requires k < |fields|
  {
    DataAddress(fields, base, k) + fields[UnionHead(fields, k)].sizeOffset
  }

  lemma {:induction false} FirstAddress(fields: Fields, base: int)
    requires fields != []
    ensures DataAddress(fields, base, 0) == base + fields[0].dataOffset
  {
    assert SumAdvances(fields, 1) == SumAdvances(fields, 0) + Advance(fields, 0);
  }

  /** Addresses and slots grow together. Two fields have the same slot exactly when those after the first
      share its union, and the same address exactly when those after the first share a union or follow a
      field of no size without padding: fields in one slot always have one address, and without such empty
      fields only they do. */
  lemma {:induction false} AddressIsSlot(fields: Fields, base: int, j: nat, k: nat)
    requires j <= k < |fields|
    ensures SlotOf(fields, j) <= SlotOf(fields, k) && DataAddress(fields, base, j) <= DataAddress(fields, base, k)
    ensures SlotOf(fields, j) == SlotOf(fields, k) <==> forall i :: j < i <= k ==> SharesUnion(fields, i)
    ensures DataAddress(fields, base, j) == DataAddress(fields, base, k)
            <==> forall i :: j < i <= k ==> SharesUnion(fields, i) || FollowsEmpty(fields, i)
  {
    if j < k { AddressIsSlot(fields, base, j, k - 1); }
  }

  predicate FollowsEmpty(fields: Fields, i: nat)
    requires 0 < i < |fields|
  {
    StructSize(fields[i - 1]) == 0 && fields[i].dataOffset == 0
  }

  // ---------------------------------------------------------------- layout

  /** A static array holds arraySize entries, any other field one. */
  function Entries(f: Field): nat {
    if f.atype.Static? && f.htype.Repeated? then f.arraySize else 1
  }

  function EntrySize(f: Field): nat {
    if f.atype.Pointer? then 8 else f.dataSize
  }

  lemma {:induction false} SizeIsEntries(f: Field)
    ensures StructSize(f) == Entries(f) * EntrySize(f)
  {
  }

  /** Each field lies right behind all entries of the one before, after the padding, unless it is marked as a
      further member of the same union: those share the address of their data and of their tag. */
  lemma {:induction false} NextAddress(fields: Fields, base: int, k: nat)
    requires 0 < k < |fields|
    ensures SlotOf(fields, k) == SlotOf(fields, k - 1) <==>
              fields[k - 1].htype.OneOf? && fields[k].htype.OneOf? && fields[k].dataOffset == 0xFFFF_FFFF
    ensures SlotOf(fields, k) == SlotOf(fields, k - 1) ==>
              DataAddress(fields, base, k) == DataAddress(fields, base, k - 1)
              && SizeAddress(fields, base, k) == SizeAddress(fields, base, k - 1)
    ensures SlotOf(fields, k) != SlotOf(fields, k - 1) ==>
              && DataAddress(fields, base, k) == DataAddress(fields, base, k - 1)
                                                + Entries(fields[k - 1]) * EntrySize(fields[k - 1])
                                                + fields[k].dataOffset
              && SizeAddress(fields, base, k) == DataAddress(fields, base, k) + fields[k].sizeOffset
  {
    SizeIsEntries(fields[k - 1]);
  }

  /** If field `k` is the first behind the union of field `j`, that has room for `j`. */
  predicate MemberFits(fields: Fields, j: nat, k: nat)
    requires j < k < |fields|
  {
    SlotOf(fields, k - 1) == SlotOf(fields, j) < SlotOf(fields, k) ==>
      StructSize(fields[j]) <= StructSize(fields[k - 1]) + fields[k].dataOffset
  }

  /** The members of a union are no larger than the room up to the next field. */
  predicate UnionsFit(fields: Fields) {
    forall j, k :: 0 <= j < k < |fields| ==> MemberFits(fields, j, k)
  }

  /** All entries of field `j` end before field `k` begins, unless they are in one union. */
  predicate EndsBefore(fields: Fields, base: int, j: nat, k: nat)
    requires j < |fields| && k < |fields|
  {
    SlotOf(fields, j) == SlotOf(fields, k)
    || DataAddress(fields, base, j) + Entries(fields[j]) * EntrySize(fields[j]) <= DataAddress(fields, base, k)
  }

  lemma {:induction false} FirstBehind(fields: Fields, j: nat, k: nat) returns (i: nat)
    requires j < k < |fields| && SlotOf(fields, j) < SlotOf(fields, k)
    ensures j < i <= k && SlotOf(fields, i - 1) == SlotOf(fields, j) < SlotOf(fields, i)
    decreases k
  {
    if j == k - 1 || SlotOf(fields, j) >= SlotOf(fields, k - 1) {
      SlotStep(fields, j, k - 1);
      i := k;
    } else {
      i := FirstBehind(fields, j, k - 1);
    }
  }

  lemma {:induction false} EndsBeforeAll(fields: Fields, base: int, j: nat, k: nat)
    requires UnionsFit(fields) && j < k < |fields| && SlotOf(fields, j) < SlotOf(fields, k)
    ensures EndsBefore(fields, base, j, k)
  {
    hide SlotOf, DataAddress, StructSize;
    var i := FirstBehind(fields, j, k);
    assert MemberFits(fields, j, i);
    BehindUnion(fields, base, j, i);
    AddressGrows(fields, base, i, k);
  }

  lemma {:induction false} AddressGrows(fields: Fields, base: int, j: nat, k: nat)
    requires j <= k < |fields|
    ensures DataAddress(fields, base, j) <= DataAddress(fields, base, k)
  {
    AddressIsSlot(fields, base, j, k);
  }

  /** The storage of fields that are not in one union does not overlap, exactly when no member of a union is
      larger than the room up to the next field. */
  lemma {:induction false} StorageIsDisjoint(fields: Fields, base: int)
    ensures UnionsFit(fields) <==> forall j, k :: 0 <= j < k < |fields| ==> EndsBefore(fields, base, j, k)
  {
    hide SlotOf, StructSize, EndsBefore, MemberFits;
    if UnionsFit(fields) {
      forall j, k | 0 <= j < k < |fields| ensures EndsBefore(fields, base, j, k) {
        SlotsDiffer(fields, base, j, k);
        if SlotOf(fields, j) < SlotOf(fields, k) { EndsBeforeAll(fields, base, j, k); }
      }
    } else {
      var j, k :| 0 <= j < k < |fields| && !MemberFits(fields, j, k);
      SlotsDiffer(fields, base, j, k);
      BehindUnion(fields, base, j, k);
    }
  }

  lemma {:induction false} SlotsDiffer(fields: Fields, base: int, j: nat, k: nat)
    requires j < k < |fields|
    ensures SlotOf(fields, j) < SlotOf(fields, k) || EndsBefore(fields, base, j, k)
    ensures !MemberFits(fields, j, k) ==>
              && SlotOf(fields, k - 1) == SlotOf(fields, j) < SlotOf(fields, k)
              && StructSize(fields[j]) > StructSize(fields[k - 1]) + fields[k].dataOffset
  {
    hide StructSize;
    SlotStep(fields, j, k);
  }

  lemma {:induction false} BehindUnion(fields: Fields, base: int, j: nat, k: nat)
    requires j < k < |fields| && SlotOf(fields, k - 1) == SlotOf(fields, j) < SlotOf(fields, k)
    ensures DataAddress(fields, base, k)
         == DataAddress(fields, base, j) + StructSize(fields[k - 1]) + fields[k].dataOffset
    ensures EndsBefore(fields, base, j, k)
            <==> StructSize(fields[j]) <= StructSize(fields[k - 1]) + fields[k].dataOffset
  {
    hide SlotOf, DataAddress, StructSize, Entries, EntrySize;
    NextAddress(fields, base, k);
    SizeIsEntries(fields[j]);
    SizeIsEntries(fields[k - 1]);
    AddressIsSlot(fields, base, j, k - 1);
  }

  class FieldIter {
    const fields: Fields
    const base: int
    var pos: nat
    var requiredFieldIndex: nat
    var pData: int
    var pSize: int

    /** Everything the iterator caches agrees with its position. */
    ghost predicate Valid()
      reads this
    {
      if fields == [] then pos == 0 && requiredFieldIndex == 0
      else
        && pos < |fields|
        && requiredFieldIndex == RequiredIndex(fields, pos)
        && pData == DataAddress(fields, base, pos)
        && pSize == SizeAddress(fields, base, pos)
    }

    /** pb_field_iter_begin. */
    constructor (fields: Fields, base: int)
      ensures Valid() && this.fields == fields && this.base == base && pos == 0
    {
      this.fields := fields;
      this.base := base;
      pos := 0;
      requiredFieldIndex := 0;
      pData := base + if fields == [] then 0 else fields[0].dataOffset;
      pSize := base + if fields == [] then 0 else fields[0].dataOffset + fields[0].sizeOffset;
      if fields != [] { FirstAddress(fields, base); }
    }

    method Rewind()
      modifies this
      ensures Valid() && pos == 0
    {
      pos := 0;
      requiredFieldIndex := 0;
      pData := base + if fields == [] then 0 else fields[0].dataOffset;
      pSize := pData + if fields == [] then 0 else fields[0].sizeOffset;
      if fields != [] { FirstAddress(fields, base); }
    }

    /** pb_field_iter_next: one field on, or back to the first field with `false`. */
    method Next() returns (more: bool)
      requires Valid()
      modifies this
      ensures Valid()
      ensures more <==> old(pos) + 1 < |fields|
      ensures pos == if more then old(pos) + 1 else 0
    {
      if fields == [] { return false; }
      if pos + 1 == |fields| {
        Rewind();
        return false;
      }
      var prev := fields[pos];
      pos := pos + 1;
      if prev.htype.OneOf? && fields[pos].htype.OneOf? && fields[pos].dataOffset == PB_SIZE_MAX {
        return true;
      }
      var prevSize := prev.dataSize;
      if prev.atype.Static? && prev.htype.Repeated? {
        prevSize := prevSize * prev.arraySize;
      } else if prev.atype.Pointer? {
        prevSize := POINTER_SIZE;
      }
      if prev.htype.Required? {
        requiredFieldIndex := requiredFieldIndex + 1;
      }
      pData := pData + prevSize + fields[pos].dataOffset;
      pSize := pData + fields[pos].sizeOffset;
      return true;
    }

    /** The end of pb_decode_noinit: seek to the last field to learn how many fields are required. */
    method CountRequired() returns (count: nat)
      requires Valid()
      modifies this
      ensures Valid() && count == RequiredIndex(fields, |fields|)
    {
      var lastRequired := false;
      while true
        invariant Valid()
        decreases |fields| - pos
      {
        count := requiredFieldIndex;
        lastRequired := fields != [] && fields[pos].htype.Required?;
        var more := Next();
        if !more { break; }
      }
      if lastRequired { count := count + 1; }
    }

    /** pb_field_iter_find: searches all the way round from the current position. The terminator of an
        empty descriptor has tag 0 and is found by it. */
    method Find(tag: nat) returns (found: bool)
      requires Valid()
      modifies this
      ensures Valid()
      ensures fields != [] ==> (found <==> exists k :: 0 <= k < |fields| && fields[k].tag == tag)
      ensures fields == [] ==> (found <==> tag == 0)
      ensures found && fields != [] ==> fields[pos].tag == tag
      ensures !found ==> pos == old(pos)
    {
      var start, n := pos, |fields|;
      ghost var i := 0;
      while true
        invariant Valid()
        invariant 0 <= i && (n > 0 ==> i < n)
        invariant n == 0 ==> i == 0
        invariant n > 0 ==> pos == Around(start, i, n)
        invariant forall j :: 0 <= j < i && n > 0 ==> fields[Around(start, j, n)].tag != tag
        decreases n - i
      {
        if (if fields == [] then 0 else fields[pos].tag) == tag { return true; }
        var _ := Next();
        i := i + 1;
        if pos == start {
          if n > 0 { AllVisited(fields, start, i, tag); }
          return false;
        }
      }
    }
  }

  /** The position `i` steps after `start` in a ring of `n`. */
  function Around(start: nat, i: nat, n: nat): nat
    requires start < n && i <= n
  {
    if start + i < n then start + i else start + i - n
  }

  lemma {:induction false} AllVisited(fields: Fields, start: nat, i: nat, tag: nat)
    requires start < |fields| && 1 <= i <= |fields| && Around(start, i, |fields|) == start
    requires forall j :: 0 <= j < i ==> fields[Around(start, j, |fields|)].tag != tag
    ensures forall k :: 0 <= k < |fields| ==> fields[k].tag != tag
  {
    var n := |fields|;
    forall k | 0 <= k < n ensures fields[k].tag != tag {
      var j := if k >= start then k - start else k + n - start;
      assert Around(start, j, n) == k;
    }
  }
}
