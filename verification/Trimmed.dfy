/** What a receiver sees of a message: the encoder sends strings up to their first NUL. */
module Trimmed {
  import opened Options
  import opened Wire
  import opened Schema
  import opened EncodeSpec
  import opened RoundTrip
  import opened Bounds
  import opened Sendable

  // ---------------------------------------------------------------- trimming

  function TrimString(bs: seq<Byte>): seq<Byte> {
    bs[..StrLen(bs, |bs|)]
  }

  /** Every string cut at its first NUL. */
  function TrimItem(table: Table, f: Field, v: Value): Value
    decreases v, 3
  {
    match f.ltype
    case LString => if v.VBytes? then VBytes(TrimString(v.bs)) else v
    case LSubmessage => if v.VMsg? then VMsg(TrimSlots(table, f.sub, v.slots)) else VMsg([])
    case _ => v
  }

  function TrimFor(table: Table, f: Field, slot: Slot): Slot
    decreases slot, 1
  {
    match slot
    case One(v) => One(TrimItem(table, f, v))
    case Opt(has, v) => if has then Opt(true, TrimItem(table, f, v)) else slot
    case Many(items) => Many(seq(|items|, j requires 0 <= j < |items| => TrimItem(table, f, items[j])))
    case Union(which, v) => Union(which, TrimItem(table, f, v))
    case Ptr(p) => if p.Some? then Ptr(Some(TrimItem(table, f, p.value))) else slot
  }

  function TrimSlots(table: Table, d: nat, slots: seq<Slot>): (r: seq<Slot>)
    ensures |r| == |slots|
    decreases slots, 2
  {
    var fields := Descriptor(table, d);
    seq(|slots|, i requires 0 <= i < |slots| =>
      var k := Holder(fields, i, slots[i]);
      if k.Some? then TrimFor(table, fields[k.value], slots[i]) else slots[i])
  }

  /** The field whose contents slot `i` holds. */
  function Holder(fields: Fields, i: nat, slot: Slot): (k: Option<nat>)
    ensures k.Some? ==> k.value < |fields|
  {
    if slot.Union? then FindField(fields, slot.which) else FieldOfSlot(fields, i, 0)
  }

  function FieldOfSlot(fields: Fields, i: nat, k: nat): (r: Option<nat>)
    requires k <= |fields|
    ensures r.Some? ==> k <= r.value < |fields| && SlotOf(fields, r.value) == i
    ensures r.None? ==> forall j :: k <= j < |fields| ==> SlotOf(fields, j) != i
    decreases |fields| - k
  {
    if k == |fields| then None else if SlotOf(fields, k) == i then Some(k) else FieldOfSlot(fields, i, k + 1)
  }

  /** A slot that holds the contents of field `f` is trimmed as that field; a oneof that is not set to it
      keeps its tag, and an unset one its contents. */
  predicate TrimsTo(table: Table, f: Field, slot: Slot, trimmed: Slot) {
    if slot.Union? && slot.which != f.tag
    then trimmed.Union? && trimmed.which == slot.which && (slot.which == 0 ==> trimmed == slot)
    else trimmed == TrimFor(table, f, slot)
  }

  lemma {:induction false} TrimAt(table: Table, d: nat, slots: seq<Slot>, k: nat)
    requires ValidTable(table) && d < |table| && k < |table[d]| && StructFits(table, d, slots, true)
    ensures SlotOf(table[d], k) < |slots|
    ensures var f, i := table[d][k], SlotOf(table[d], k);
            SlotFits(table, d, k, slots[i], true) && TrimsTo(table, f, slots[i], TrimSlots(table, d, slots)[i])
  {
    hide ValidTable, ItemFits, StructFits, TrimFor, FindField;
    ValidAt(table, d, k);
    FitsAt(table, d, slots, k, true);
    var fields, i := table[d], SlotOf(table[d], k);
    var slot := slots[i];
    if slot.Union? {
      TrimUnion(table, d, k, slot);
    } else {
      var j := FieldOfSlot(fields, i, 0).value;
      if j < k { SharedSlot(fields, j, k); } else if k < j { SharedSlot(fields, k, j); }
    }
  }

  lemma {:induction false} TrimUnion(table: Table, d: nat, k: nat, slot: Slot)
    requires d < |table| && ValidDescriptor(table, d) && k < |table[d]| && slot.Union?
    ensures slot.which == table[d][k].tag ==> FindField(table[d], slot.which) == Some(k)
    ensures slot.which == 0 ==> FindField(table[d], slot.which) == None
    ensures forall f :: TrimFor(table, f, slot).Union? && TrimFor(table, f, slot).which == slot.which
  {
    if slot.which == table[d][k].tag { FindOwnTag(table[d], k); }
    if slot.which == 0 { assert forall j :: 0 <= j < |table[d]| ==> ValidField(table, d, table[d][j]); }
  }

  // ---------------------------------------------------------------- strings

  lemma {:induction false} TrimmedString(bs: seq<Byte>, max: nat)
    requires |bs| <= max
    ensures StrLen(bs, max) == StrLen(bs, |bs|) == |TrimString(bs)| <= |bs|
    ensures 0 !in TrimString(bs) && StrLen(TrimString(bs), max) == |TrimString(bs)|
    decreases |bs|
  {
    if bs != [] && bs[0] != 0 {
      TrimmedString(bs[1..], max - 1);
      assert TrimString(bs) == [bs[0]] + TrimString(bs[1..]);
      assert TrimString(bs)[1..] == TrimString(bs[1..]);
    }
  }

  // ---------------------------------------------------------------- the normal form

  lemma {:induction false} TrimItemNormal(table: Table, d: nat, f: Field, v: Value)
    requires ValidTable(table) && ValidField(table, d, f) && SendItem(table, f, v)
    requires v == Unset || ItemFits(table, f, v, true)
    ensures NormalItem(table, f, TrimItem(table, f, v))
    decreases v, 4
  {
    hide ValidTable, StructFits, NormalMessage, TrimSlots;
    if f.ltype.LString? {
      TrimmedString(v.bs, |v.bs|);
    } else if f.ltype.LSubmessage? {
      if v.VMsg? { TrimNormal(table, f.sub, v); } else { EmptyNormal(table, f.sub); }
    }
  }

  lemma {:induction false} EmptyNormal(table: Table, d: nat)
    requires Descriptor(table, d) == []
    ensures NormalMessage(table, d, VMsg([]))
  {
  }

  lemma {:induction false} TrimForNormal(table: Table, d: nat, k: nat, slot: Slot)
    requires ValidTable(table) && d < |table| && k < |table[d]| && SlotFits(table, d, k, slot, true)
    requires SendSlot(table, table[d][k], slot) && (slot.Union? ==> slot.which == table[d][k].tag)
    ensures NormalSlot(table, d, table[d][k], TrimFor(table, table[d][k], slot))
    decreases slot, 5
  {
    hide ValidTable, ItemFits, NormalItem, SendItem, TrimItem, DefaultValue;
    ValidAt(table, d, k);
    var f := table[d][k];
    match slot
    case One(v) => TrimItemNormal(table, d, f, v);
    case Opt(has, v) => if has { TrimItemNormal(table, d, f, v); }
    case Many(items) =>
      forall j | 0 <= j < |items| ensures NormalItem(table, f, TrimItem(table, f, items[j])) {
        TrimItemNormal(table, d, f, items[j]);
      }
    case Union(which, v) => TrimItemNormal(table, d, f, v);
    case Ptr(p) => if p.Some? { TrimItemNormal(table, d, f, p.value); }
  }

  /** The trimmed message is in normal form if the message can be sent. */
  lemma {:induction false} TrimNormal(table: Table, d: nat, m: Value)
    requires ValidTable(table) && d < |table| && m.VMsg? && StructFits(table, d, m.slots, true)
    requires SendMessage(table, d, m.slots)
    ensures NormalMessage(table, d, VMsg(TrimSlots(table, d, m.slots)))
    decreases m, 3
  {
    hide ValidTable, NormalSlot, SendSlot, SlotFits, TrimSlots, TrimFor, StructFits;
    var fields, trimmed := Descriptor(table, d), TrimSlots(table, d, m.slots);
    FitsCount(table, d, m.slots, true);
    forall k | 0 <= k < |fields|
      ensures SlotOf(fields, k) < |trimmed|
      ensures NormalSlot(table, d, fields[k], trimmed[SlotOf(fields, k)])
      ensures UnionMember(fields, k, trimmed[SlotOf(fields, k)])
    {
      TrimAt(table, d, m.slots, k);
      TrimSlotNormal(table, d, k, m.slots[SlotOf(fields, k)], trimmed[SlotOf(fields, k)]);
    }
  }

  lemma {:induction false} FitsCount(table: Table, d: nat, slots: seq<Slot>, tidy: bool)
    requires StructFits(table, d, slots, tidy)
    ensures |slots| == SlotCount(Descriptor(table, d))
  {
    hide SlotFits;
  }

  lemma {:induction false} TrimSlotNormal(table: Table, d: nat, k: nat, slot: Slot, trimmed: Slot)
    requires ValidTable(table) && d < |table| && k < |table[d]| && SlotFits(table, d, k, slot, true)
    requires SendSlot(table, table[d][k], slot)
    requires TrimsTo(table, table[d][k], slot, trimmed)
    ensures NormalSlot(table, d, table[d][k], trimmed) && UnionMember(table[d], k, trimmed)
    decreases slot, 6
  {
    hide ValidTable, ItemFits, NormalItem, SendItem, TrimItem;
    ValidAt(table, d, k);
    if !(slot.Union? && slot.which != table[d][k].tag) { TrimForNormal(table, d, k, slot); }
  }

  // ---------------------------------------------------------------- the proto3 check

  lemma {:induction false} TrimItemProto3(table: Table, d: nat, f: Field, v: Value)
    requires ValidTable(table) && ValidField(table, d, f) && ItemFits(table, f, v, true) && !f.htype.Required?
    requires f.atype.Static?
    ensures Proto3Default(table, f, One(TrimItem(table, f, v))) <==> Proto3Default(table, f, One(v))
    decreases v, 4, 0
  {
    hide ValidTable, StructFits, TrimSlots, Proto3DefaultFields;
    if f.ltype.LString? {
      TrimmedString(v.bs, f.dataSize);
    } else if f.ltype.LSubmessage? {
      TrimFieldsProto3(table, f.sub, v, 0);
    }
  }

  lemma {:induction false} TrimSlotProto3(table: Table, d: nat, k: nat, slot: Slot, trimmed: Slot)
    requires ValidTable(table) && d < |table| && k < |table[d]| && SlotFits(table, d, k, slot, true)
    requires TrimsTo(table, table[d][k], slot, trimmed)
    ensures Proto3Default(table, table[d][k], trimmed) <==> Proto3Default(table, table[d][k], slot)
    decreases slot, 5, 0
  {
    hide ValidTable, ItemFits, TrimItem, Proto3DefaultFields;
    ValidAt(table, d, k);
    if slot.One? && !table[d][k].htype.Required? { TrimItemProto3(table, d, table[d][k], slot.v); }
  }

  lemma {:induction false} TrimFieldsProto3(table: Table, d: nat, m: Value, k: nat)
    requires ValidTable(table) && d < |table| && k <= |table[d]| && m.VMsg? && StructFits(table, d, m.slots, true)
    ensures Proto3DefaultFields(table, table[d], VMsg(TrimSlots(table, d, m.slots)), k)
            <==> Proto3DefaultFields(table, table[d], m, k)
    decreases m, 3, |table[d]| - k
  {
    hide ValidTable, SlotFits, TrimSlots, TrimFor, StructFits, Proto3Default;
    if k < |table[d]| {
      TrimAt(table, d, m.slots, k);
      var i := SlotOf(table[d], k);
      TrimSlotProto3(table, d, k, m.slots[i], TrimSlots(table, d, m.slots)[i]);
      TrimFieldsProto3(table, d, m, k + 1);
    }
  }

  // ---------------------------------------------------------------- the encoding

  lemma {:induction false} TrimItemEnc(table: Table, d: nat, f: Field, v: Value)
    requires ValidTable(table) && ValidField(table, d, f) && SendItem(table, f, v)
    requires v == Unset || ItemFits(table, f, v, true)
    ensures EncItem(table, f, TrimItem(table, f, v)) == EncItem(table, f, v)
    decreases v, 4, 0
  {
    hide ValidTable, StructFits, TrimSlots, EncFields, Delimited;
    if f.ltype.LString? {
      var max := if f.atype.Pointer? then |v.bs| else f.dataSize;
      TrimmedString(v.bs, max);
      TrimmedString(v.bs, |v.bs|);
      var w := TrimString(v.bs);
      StrLenWhole(w, if f.atype.Pointer? then |w| else f.dataSize);
      assert w[..|w|] == w;
    } else if f.ltype.LSubmessage? {
      if v.VMsg? {
        TrimFieldsEnc(table, f.sub, v, 0);
        EncSubmessage(table, f, v);
        EncSubmessage(table, f, TrimItem(table, f, v));
      } else {
        EncUnset(table, f.sub);
        EncNothing(table, f.sub);
      }
    }
  }

  lemma {:induction false} EncSubmessage(table: Table, f: Field, v: Value)
    requires f.ltype.LSubmessage?
    ensures var e := EncFields(table, Descriptor(table, f.sub), v, 0);
            EncItem(table, f, v) == if e.Some? then Some(Delimited(e.value)) else None
  {
    hide EncFields;
    assert EncBody(table, f, v) == EncMessage(table, f.sub, v);
    assert EncMessage(table, f.sub, v) == EncFields(table, Descriptor(table, f.sub), v, 0);
  }

  lemma {:induction false} EncNothing(table: Table, d: nat)
    requires Descriptor(table, d) == []
    ensures EncMessage(table, d, VMsg([])) == Some([])
  {
  }

  lemma {:induction false} TrimItemsEnc(table: Table, d: nat, f: Field, slot: Slot, i: nat, keyed: bool)
    requires ValidTable(table) && ValidField(table, d, f) && slot.Many? && i <= |slot.items|
    requires forall j :: 0 <= j < |slot.items| ==> slot.items[j] == Unset || ItemFits(table, f, slot.items[j], true)
    requires forall j :: 0 <= j < |slot.items| ==> SendItem(table, f, slot.items[j])
    ensures EncItems(table, f, TrimFor(table, f, slot), i, keyed) == EncItems(table, f, slot, i, keyed)
    decreases slot, 5, |slot.items| - i
  {
    hide ValidTable, EncItem, SendItem, ItemFits, TrimItem, Key;
    if i < |slot.items| {
      TrimItemEnc(table, d, f, slot.items[i]);
      TrimItemsEnc(table, d, f, slot, i + 1, keyed);
    }
  }

  lemma {:induction false} TrimForEnc(table: Table, d: nat, k: nat, slot: Slot)
    requires ValidTable(table) && d < |table| && k < |table[d]| && SlotFits(table, d, k, slot, true)
    requires SendSlot(table, table[d][k], slot) && (slot.Union? ==> slot.which == table[d][k].tag)
    ensures EncField(table, table[d][k], TrimFor(table, table[d][k], slot)) == EncField(table, table[d][k], slot)
    decreases slot, 6, 0
  {
    hide ValidTable, EncItem, SendItem, ItemFits, EncItems, Proto3Default, TrimItem, Key;
    ValidAt(table, d, k);
    var f := table[d][k];
    match slot
    case One(v) =>
      TrimItemEnc(table, d, f, v);
      if !f.htype.Required? { TrimItemProto3(table, d, f, v); }
    case Opt(has, v) => if has { TrimItemEnc(table, d, f, v); }
    case Many(items) =>
      TrimItemsEnc(table, d, f, slot, 0, false);
      TrimItemsEnc(table, d, f, slot, 0, true);
    case Union(which, v) => TrimItemEnc(table, d, f, v);
    case Ptr(p) => if p.Some? { TrimItemEnc(table, d, f, p.value); }
  }

  lemma {:induction false} TrimSlotEnc(table: Table, d: nat, k: nat, slot: Slot, trimmed: Slot)
    requires ValidTable(table) && d < |table| && k < |table[d]| && SlotFits(table, d, k, slot, true)
    requires SendSlot(table, table[d][k], slot)
    requires TrimsTo(table, table[d][k], slot, trimmed)
    ensures EncField(table, table[d][k], trimmed) == EncField(table, table[d][k], slot)
    decreases slot, 7, 0
  {
    hide ValidTable, ItemFits, EncItem, TrimFor, EncArray, Proto3Default, SendItem;
    if !(slot.Union? && slot.which != table[d][k].tag) { TrimForEnc(table, d, k, slot); }
  }

  lemma {:induction false} TrimFieldsEnc(table: Table, d: nat, m: Value, k: nat)
    requires ValidTable(table) && d < |table| && k <= |table[d]| && m.VMsg? && StructFits(table, d, m.slots, true)
    requires SendMessage(table, d, m.slots)
    ensures EncFields(table, table[d], VMsg(TrimSlots(table, d, m.slots)), k) == EncFields(table, table[d], m, k)
    decreases m, 3, |table[d]| - k
  {
    hide ValidTable, SlotFits, TrimSlots, TrimFor, StructFits, EncField, SendSlot;
    if k < |table[d]| {
      TrimAt(table, d, m.slots, k);
      var fields, i := Descriptor(table, d), SlotOf(table[d], k);
      assert SendSlot(table, fields[k], m.slots[SlotOf(fields, k)]);
      TrimSlotEnc(table, d, k, m.slots[i], TrimSlots(table, d, m.slots)[i]);
      TrimFieldsEnc(table, d, m, k + 1);
    }
  }

  /** The encoder does not see what trimming removes. */
  lemma {:induction false} TrimEnc(table: Table, d: nat, m: Value)
    requires ValidTable(table) && d < |table| && m.VMsg? && StructFits(table, d, m.slots, true)
    requires SendMessage(table, d, m.slots)
    ensures EncMessage(table, d, VMsg(TrimSlots(table, d, m.slots))) == EncMessage(table, d, m)
  {
    hide ValidTable, StructFits, SendMessage, TrimSlots, EncFields;
    TrimFieldsEnc(table, d, m, 0);
  }
}
