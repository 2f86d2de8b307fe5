/** Whatever bytes are decoded, the structure stays within its descriptor: counts within their arrays,
    byte arrays and strings within their buffers, integers within their width, oneof tags among the
    members of the oneof.

    In a tidy structure, moreover, absent optional fields still hold their default and an unset oneof
    holds nothing, as after initialisation. */
module Bounds {
  import opened Bits
  import opened Wire
  import opened Schema
  import opened DecodeSpec

  predicate ItemFits(table: Table, f: Field, v: Value, tidy: bool)
    decreases v, 3
  {
    match f.ltype
    case LBool => v.VBool?
    case LVarint | LSVarint => v.VInt? && FitsSigned(f.dataSize, v.n)
    case LUVarint => v.VInt? && FitsUnsigned(f.dataSize, v.n)
    case LFixed32 => v.VInt? && FitsUnsigned(4, v.n)
    case LFixed64 => v.VInt? && FitsUnsigned(8, v.n)
    case LBytes | LString => v.VBytes? && BlobFits(f, |v.bs|)
    case LFixedLengthBytes => v.VBytes? && |v.bs| == f.dataSize
    case LSubmessage => v.VMsg? && StructFits(table, f.sub, v.slots, tidy)
  }

  predicate SlotFits(table: Table, d: nat, k: nat, slot: Slot, tidy: bool)
    requires k < |Descriptor(table, d)|
    decreases slot, 1
  {
    var f := Descriptor(table, d)[k];
    match slot
    case One(v) =>
      && f.atype.Static? && (f.htype.Required? || (f.htype.Optional? && f.sizeOffset == 0))
      && ItemFits(table, f, v, tidy)
    case Opt(has, v) =>
      && f.atype.Static? && f.htype.Optional? && f.sizeOffset != 0 && ItemFits(table, f, v, tidy)
      && (tidy && !has ==> v == DefaultValue(table, d, f))
    case Many(items) =>
      && f.htype.Repeated?
      && (if FixedCount(f) then |items| == f.arraySize else |items| <= Capacity(f))
      && forall i :: 0 <= i < |items| ==> (FixedCount(f) && items[i] == Unset) || ItemFits(table, f, items[i], tidy)
    case Union(which, v) =>
      && f.atype.Static? && f.htype.OneOf?
      && UnionMember(Descriptor(table, d), k, slot)
      && (which == f.tag ==> ItemFits(table, f, v, tidy))
      && (tidy && which == 0 ==> v == Unset)
    case Ptr(p) =>
      && f.atype.Pointer? && (f.htype.Required? || f.htype.Optional?)
      && (p.Some? ==> ItemFits(table, f, p.value, tidy))
  }

  predicate StructFits(table: Table, d: nat, slots: seq<Slot>, tidy: bool)
    decreases slots, 2
  {
    var fields := Descriptor(table, d);
    && |slots| == SlotCount(fields)
    && forall k :: 0 <= k < |fields| ==>
         SlotOf(fields, k) < |slots| && SlotFits(table, d, k, slots[SlotOf(fields, k)], tidy)
  }

  lemma {:induction false} FitsAt(table: Table, d: nat, slots: seq<Slot>, k: nat, tidy: bool)
    requires StructFits(table, d, slots, tidy) && k < |Descriptor(table, d)|
    ensures SlotOf(Descriptor(table, d), k) < |slots|
    ensures SlotFits(table, d, k, slots[SlotOf(Descriptor(table, d), k)], tidy)
  {
    hide SlotFits;
  }

  /** Default values fit the fields they belong to. */
  ghost predicate DefaultsFit(table: Table) {
    forall d, k :: 0 <= d < |table| && 0 <= k < |table[d]| && table[d][k].dflt.Some? ==>
      ItemFits(table, table[d][k], table[d][k].dflt.value, true)
  }

  /** A tidy structure is one within bounds. */
  lemma {:induction false} TidyItemFits(table: Table, f: Field, v: Value)
    requires ItemFits(table, f, v, true)
    ensures ItemFits(table, f, v, false)
    decreases v, 1
  {
    if f.ltype.LSubmessage? { TidyFits(table, f.sub, v.slots); }
  }

  lemma {:induction false} TidyFits(table: Table, d: nat, slots: seq<Slot>)
    requires StructFits(table, d, slots, true)
    ensures StructFits(table, d, slots, false)
    decreases slots, 0
  {
    var fields := Descriptor(table, d);
    forall k | 0 <= k < |fields|
      ensures SlotOf(fields, k) < |slots| && SlotFits(table, d, k, slots[SlotOf(fields, k)], false)
    {
      assert SlotFits(table, d, k, slots[SlotOf(fields, k)], true);
      TidySlotFits(table, d, k, slots[SlotOf(fields, k)]);
    }
  }

  lemma {:induction false} TidySlotFits(table: Table, d: nat, k: nat, slot: Slot)
    requires k < |Descriptor(table, d)| && SlotFits(table, d, k, slot, true)
    ensures SlotFits(table, d, k, slot, false)
    decreases slot, 2
  {
    var f := Descriptor(table, d)[k];
    match slot
    case One(v) => TidyItemFits(table, f, v);
    case Opt(_, v) => TidyItemFits(table, f, v);
    case Many(items) =>
      forall i | 0 <= i < |items| && ItemFits(table, f, items[i], true) ensures ItemFits(table, f, items[i], false) {
        TidyItemFits(table, f, items[i]);
      }
    case Union(which, v) => if which == f.tag { TidyItemFits(table, f, v); }
    case Ptr(p) => if p.Some? { TidyItemFits(table, f, p.value); }
  }

  // ---------------------------------------------------------------- defaults

  lemma {:induction false} DefaultValueFits(table: Table, d: nat, k: nat, tidy: bool)
    requires ValidTable(table) && DefaultsFit(table) && d < |table| && k < |table[d]|
    requires var f := table[d][k]; f.atype.Static? && (f.htype.Required? || f.htype.Optional?)
    ensures ItemFits(table, table[d][k], DefaultValue(table, d, table[d][k]), tidy)
    decreases d, 0
  {
    ValidAt(table, d, k);
    var f := table[d][k];
    if f.ltype.LSubmessage? {
      DefaultsFitStruct(table, f.sub, tidy);
    } else if f.dflt.Some? && !tidy {
      TidyItemFits(table, f, f.dflt.value);
    }
  }

  lemma {:induction false} DefaultsFitStruct(table: Table, d: nat, tidy: bool)
    requires ValidTable(table) && DefaultsFit(table) && d < |table|
    ensures StructFits(table, d, DefaultSlots(table, d), tidy)
    decreases d, 1
  {
    var fields := Descriptor(table, d);
    forall k | 0 <= k < |fields|
      ensures SlotOf(fields, k) < |DefaultSlots(table, d)|
      ensures SlotFits(table, d, k, DefaultSlots(table, d)[SlotOf(fields, k)], tidy)
    {
      ValidAt(table, d, k);
      DefaultSlotAt(table, d, k);
      var f := fields[k];
      if f.atype.Static? && (f.htype.Required? || f.htype.Optional?) { DefaultValueFits(table, d, k, tidy); }
    }
  }

  // ---------------------------------------------------------------- items

  lemma {:induction false} OrBytesBound(bs: seq<Byte>, shift: nat, acc: nat)
    requires acc < Shl(1, shift)
    ensures OrBytes(bs, shift, acc) < Shl(1, shift + 8 * |bs|)
    decreases |bs|
  {
    hide Shl, BitOr;
    if bs != [] {
      var b: int := bs[0];
      BitOrDisjoint(acc, b, shift);
      ShlAdd(b, 1, shift);
      ShlMono(b + 1, 256, shift);
      ShlSmall(1);
      ShlShl(1, 8, shift);
      OrBytesBound(bs[1..], shift + 8, BitOr(acc, Shl(b, shift)));
    }
  }

  lemma {:induction false} ScalarFits(table: Table, f: Field, s: seq<Byte>, tidy: bool)
    requires DecScalar(f, s).Ok?
    ensures ItemFits(table, f, DecScalar(f, s).v, tidy)
  {
    hide Varint32, Varint64, OrBytes, UnZigZag, Shl;
    if f.ltype.LFixed32? || f.ltype.LFixed64? {
      var k := if f.ltype.LFixed32? then 4 else 8;
      ShlWords();
      ShlSmall(1);
      OrBytesBound(s[..k], 0, 0);
    }
  }

  lemma {:induction false} ItemKeepsBounds(table: Table, d: nat, f: Field, cur: Value, s: seq<Byte>, tidy: bool)
    requires ValidTable(table) && DefaultsFit(table) && ValidField(table, d, f)
    requires f.ltype.LSubmessage? ==> ItemFits(table, f, cur, tidy)
    requires DecItem(table, f, cur, s).Ok?
    ensures ItemFits(table, f, DecItem(table, f, cur, s).v, tidy)
    decreases |s|, 3
  {
    hide DecScalar, StructFits, Noinit, Substream, ValidTable, DefaultsFit;
    if Packable(f.ltype) {
      ScalarFits(table, f, s, tidy);
    } else if f.ltype.LSubmessage? {
      var sub := Substream(s);
      var start := if f.htype.Repeated? then DefaultSlots(table, f.sub) else cur.slots;
      DefaultsFitStruct(table, f.sub, tidy);
      NoinitKeepsBounds(table, f.sub, start, sub.v, tidy);
    }
  }

  lemma {:induction false} FreshFits(table: Table, d: nat, f: Field, tidy: bool)
    requires ValidTable(table) && DefaultsFit(table) && ValidField(table, d, f) && f.ltype.LSubmessage?
    ensures ItemFits(table, f, FreshItem(table, f), tidy)
  {
    DefaultsFitStruct(table, f.sub, tidy);
  }

  lemma {:induction false} PackedKeepsBounds(table: Table, d: nat, k: nat, items: seq<Value>, count: nat,
          s: seq<Byte>, tidy: bool)
    requires k < |Descriptor(table, d)| && SlotFits(table, d, k, Many(items), tidy)
    requires var f := Descriptor(table, d)[k];
             && (if FixedCount(f) then f.atype.Static? else count == |items|)
             && DecPacked(f, items, count, s).Filled?
    ensures SlotFits(table, d, k, Many(DecPacked(Descriptor(table, d)[k], items, count, s).items), tidy)
    decreases |s|
  {
    hide DecScalar, ItemFits;
    if s != [] {
      var f := Descriptor(table, d)[k];
      var r := DecScalar(f, s);
      ScalarFits(table, f, s, tidy);
      PutFits(table, d, k, items, count, r.v, tidy);
      PackedKeepsBounds(table, d, k, Put(items, count, r.v), count + 1, r.rest, tidy);
    }
  }

  lemma {:induction false} PutFits(table: Table, d: nat, k: nat, items: seq<Value>, count: nat, v: Value, tidy: bool)
    requires k < |Descriptor(table, d)| && SlotFits(table, d, k, Many(items), tidy)
    requires var f := Descriptor(table, d)[k];
             && count < Capacity(f) && ItemFits(table, f, v, tidy)
             && (if FixedCount(f) then f.atype.Static? else count == |items|)
    ensures SlotFits(table, d, k, Many(Put(items, count, v)), tidy)
    ensures |Put(items, count, v)| == if FixedCount(Descriptor(table, d)[k]) then |items| else count + 1
  {
    hide ItemFits;
  }

  // ---------------------------------------------------------------- fields

  /** Fields that share a slot are members of one oneof. */
  lemma {:induction false} SharedSlot(fields: Fields, j: nat, k: nat)
    requires j < k < |fields| && SlotOf(fields, j) == SlotOf(fields, k)
    ensures fields[j].htype.OneOf? && fields[k].htype.OneOf?
    decreases k
  {
    SlotStep(fields, j, k - 1);
    if j < k - 1 { SharedSlot(fields, j, k - 1); }
  }

  /** Replacing a slot by contents that fit the field, where a oneof is set to this member. */
  lemma {:induction false} UpdateFits(table: Table, d: nat, slots: seq<Slot>, k: nat, slot: Slot, tidy: bool)
    requires ValidTable(table) && d < |table| && k < |table[d]| && StructFits(table, d, slots, tidy)
    requires SlotOf(table[d], k) < |slots| && SlotFits(table, d, k, slot, tidy)
    requires slot.Union? ==> slot.which == table[d][k].tag
    ensures StructFits(table, d, slots[SlotOf(table[d], k) := slot], tidy)
  {
    hide ItemFits, ValidTable, SlotFits;
    var fields, i := Descriptor(table, d), SlotOf(table[d], k);
    var slots' := slots[i := slot];
    forall j | 0 <= j < |fields|
      ensures SlotOf(fields, j) < |slots'| && SlotFits(table, d, j, slots'[SlotOf(fields, j)], tidy)
    {
      assert SlotOf(fields, j) < |slots| && SlotFits(table, d, j, slots[SlotOf(fields, j)], tidy);
      if SlotOf(fields, j) == i && j != k { UpdateShared(table, d, j, k, slots[i], slot, tidy); }
    }
  }

  /** The other members of a oneof that is set to member `k`. */
  lemma {:induction false} UpdateShared(table: Table, d: nat, j: nat, k: nat, before: Slot, slot: Slot, tidy: bool)
    requires ValidTable(table) && d < |table| && j < |table[d]| && k < |table[d]| && j != k
    requires SlotOf(table[d], j) == SlotOf(table[d], k) && SlotFits(table, d, j, before, tidy)
    requires SlotFits(table, d, k, slot, tidy) && (slot.Union? ==> slot.which == table[d][k].tag)
    ensures SlotFits(table, d, j, slot, tidy)
  {
    hide ItemFits, ValidTable;
    var fields := table[d];
    if j < k { SharedSlot(fields, j, k); } else { SharedSlot(fields, k, j); }
    ValidAt(table, d, k);
    assert DistinctTags(fields);
    assert fields[j].tag != fields[k].tag;
  }

  /** On a structure that fits, the decoder always finds storage for a singular field. The tag of a oneof
      that is to be replaced is found, and names a member of that oneof, so that what is released is the
      oneof's own contents: a structure that does not match its descriptor and "invalid union tag" are
      unreachable. */
  lemma {:induction false} TargetFits(table: Table, d: nat, slots: seq<Slot>, k: nat, tidy: bool)
    requires ValidTable(table) && DefaultsFit(table) && d < |table| && k < |table[d]|
    requires StructFits(table, d, slots, tidy) && !table[d][k].htype.Repeated?
    ensures SlotOf(table[d], k) < |slots|
    ensures var cur := Target(table, table[d], table[d][k], slots[SlotOf(table[d], k)]);
            cur.Some? && (table[d][k].ltype.LSubmessage? ==> ItemFits(table, table[d][k], cur.value, tidy))
    ensures var slot := slots[SlotOf(table[d], k)];
            slot.Union? && slot.which != 0 ==>
              var j := FindField(table[d], slot.which);
              j.Some? && table[d][j.value].htype.OneOf? && SlotOf(table[d], j.value) == SlotOf(table[d], k)
  {
    hide ItemFits;
    ValidAt(table, d, k);
    var fields := Descriptor(table, d);
    var slot := slots[SlotOf(fields, k)];
    assert SlotFits(table, d, k, slot, tidy);
    if fields[k].ltype.LSubmessage? { FreshFits(table, d, fields[k], tidy); }
    if slot.Union? && slot.which != 0 { ReplacedMember(table, d, slots, k, tidy); }
  }

  lemma {:induction false} ReplacedMember(table: Table, d: nat, slots: seq<Slot>, k: nat, tidy: bool)
    requires ValidTable(table) && d < |table| && k < |table[d]| && StructFits(table, d, slots, tidy)
    requires SlotOf(table[d], k) < |slots|
    requires var slot := slots[SlotOf(table[d], k)]; slot.Union? && slot.which != 0
    ensures var j := FindField(table[d], slots[SlotOf(table[d], k)].which);
            j.Some? && table[d][j.value].htype.OneOf? && SlotOf(table[d], j.value) == SlotOf(table[d], k)
  {
    hide ItemFits, ValidTable, FindField, StructFits;
    var fields, slot := Descriptor(table, d), slots[SlotOf(table[d], k)];
    FitsAt(table, d, slots, k, tidy);
    var j :| 0 <= j < |fields| && SlotOf(fields, j) == SlotOf(fields, k) && fields[j].tag == slot.which;
    ValidAt(table, d, j);
    FindOwnTag(fields, j);
    FitsAt(table, d, slots, j, tidy);
  }

  lemma {:induction false} StoredFits(table: Table, d: nat, k: nat, v: Value, tidy: bool)
    requires ValidTable(table) && d < |table| && k < |table[d]| && ItemFits(table, table[d][k], v, tidy)
    requires !table[d][k].htype.Repeated?
    ensures SlotFits(table, d, k, Stored(table[d][k], v), tidy)
  {
    hide ItemFits;
    ValidAt(table, d, k);
    assert UnionMember(table[d], k, Stored(table[d][k], v));
  }

  lemma {:induction false} FieldKeepsBounds(table: Table, d: nat, k: nat, st: LoopState, wt: nat, s: seq<Byte>,
          tidy: bool)
    requires ValidTable(table) && DefaultsFit(table) && d < |table| && k < |table[d]|
    requires StructFits(table, d, st.slots, tidy) && DecField(table, d, k, st, wt, s).Ok?
    ensures StructFits(table, d, DecField(table, d, k, st, wt, s).v.slots, tidy)
    decreases |s|, 5
  {
    hide StructFits, ItemFits, DecItem, DefaultsFit, DecRepeated;
    var f, i := table[d][k], SlotOf(table[d], k);
    ValidAt(table, d, k);
    if f.htype.Repeated? {
      RepeatedKeepsBounds(table, d, k, st, wt, s, tidy);
    } else {
      TargetFits(table, d, st.slots, k, tidy);
      var cur := Target(table, table[d], f, st.slots[i]).value;
      ItemKeepsBounds(table, d, f, cur, s, tidy);
      var v := DecItem(table, f, cur, s).v;
      StoredFits(table, d, k, v, tidy);
      UpdateFits(table, d, st.slots, k, Stored(f, v), tidy);
    }
  }

  lemma {:induction false} RepeatedKeepsBounds(table: Table, d: nat, k: nat, st: LoopState, wt: nat, s: seq<Byte>,
          tidy: bool)
    requires ValidTable(table) && DefaultsFit(table) && d < |table| && k < |table[d]|
    requires table[d][k].htype.Repeated? && SlotOf(table[d], k) < |st.slots|
    requires StructFits(table, d, st.slots, tidy)
    requires DecRepeated(table, table[d][k], SlotOf(table[d], k), st, wt, s).Ok?
    ensures StructFits(table, d, DecRepeated(table, table[d][k], SlotOf(table[d], k), st, wt, s).v.slots, tidy)
    decreases |s|, 4
  {
    hide ItemFits, DecItem, DefaultsFit, DecPacked, Substream, ValidTable, Put;
    var f, i := table[d][k], SlotOf(table[d], k);
    ValidAt(table, d, k);
    var fields := Descriptor(table, d);
    assert SlotFits(table, d, k, st.slots[SlotOf(fields, k)], tidy);
    var items := st.slots[i].items;
    var count := if FixedCount(f) then st.fixedCount else |items|;
    if wt == WT_STRING && Packable(f.ltype) {
      var sub := Substream(s);
      PackedKeepsBounds(table, d, k, items, count, sub.v, tidy);
      UpdateFits(table, d, st.slots, k, Many(DecPacked(f, items, count, sub.v).items), tidy);
    } else {
      if f.ltype.LSubmessage? { FreshFits(table, d, f, tidy); }
      ItemKeepsBounds(table, d, f, FreshItem(table, f), s, tidy);
      var v := DecItem(table, f, FreshItem(table, f), s).v;
      PutFits(table, d, k, items, count, v, tidy);
      UpdateFits(table, d, st.slots, k, Many(Put(items, count, v)), tidy);
    }
  }

  // ---------------------------------------------------------------- messages

  lemma {:induction false} LoopKeepsBounds(table: Table, d: nat, st: LoopState, s: seq<Byte>, tidy: bool)
    requires ValidTable(table) && DefaultsFit(table) && d < |table| && StructFits(table, d, st.slots, tidy)
    ensures var r := Loop(table, d, st, s); !r.Failed? ==> StructFits(table, d, r.st.slots, tidy)
    decreases |s|, 1
  {
    hide StructFits, DecField, ValidTable, DefaultsFit, Varint32, Skip;
    if s != [] {
      var key := Varint32(s);
      if key.Ok? && key.v != 0 {
        var found := FindField(table[d], key.v / 8);
        if found.Some? {
          var entered := Enter(table[d], found.value, st);
          if entered.Some? {
            var r := DecField(table, d, found.value, entered.value, key.v % 8, key.rest);
            if r.Ok? { FieldKeepsBounds(table, d, found.value, entered.value, key.v % 8, key.rest, tidy); }
          }
        }
      }
      var r := Step(table, d, st, s);
      if r.Next? { LoopKeepsBounds(table, d, r.st, r.rest, tidy); }
    }
  }

  /** Decoding any bytes into a structure that fits its descriptor leaves a structure that fits. */
  lemma {:induction false} NoinitKeepsBounds(table: Table, d: nat, slots: seq<Slot>, s: seq<Byte>, tidy: bool)
    requires ValidTable(table) && DefaultsFit(table) && d < |table| && StructFits(table, d, slots, tidy)
    ensures var r := Noinit(table, d, slots, s); r.Ok? ==> StructFits(table, d, r.v, tidy)
    decreases |s|, 2
  {
    hide StructFits, Loop, ValidTable, DefaultsFit;
    LoopKeepsBounds(table, d, Start(slots), s, tidy);
  }

  /** Whatever bytes arrive, a successful decode yields a tidy structure within bounds. */
  lemma {:induction false} DecodeFits(table: Table, d: nat, s: seq<Byte>)
    requires ValidTable(table) && DefaultsFit(table) && d < |table|
    ensures var r := Decode(table, d, s); r.Ok? ==> StructFits(table, d, r.v.slots, true) && StructFits(table, d,
        r.v.slots, false)
  {
    hide StructFits, ValidTable, DefaultsFit, Noinit;
    DefaultsFitStruct(table, d, true);
    NoinitKeepsBounds(table, d, DefaultSlots(table, d), s, true);
    DefaultsFitStruct(table, d, false);
    NoinitKeepsBounds(table, d, DefaultSlots(table, d), s, false);
  }
}
