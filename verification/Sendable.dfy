/** Exactly which message structures within bounds pb_encode accepts. */
module Sendable {
  import opened Options
  import opened Schema
  import opened EncodeSpec
  import opened RoundTrip
  import opened Bounds

  /** Nothing that is present is unset memory or a null required pointer, at any depth. A submessage
      without fields is sent without looking at it. */
  predicate SendItem(table: Table, f: Field, v: Value)
    decreases v, 3
  {
    if !f.ltype.LSubmessage? then v != Unset
    else if v.VMsg? then SendMessage(table, f.sub, v.slots)
    else Descriptor(table, f.sub) == []
  }

  predicate SendSlot(table: Table, f: Field, slot: Slot)
    decreases slot, 1
  {
    match slot
    case One(v) => SendItem(table, f, v)
    case Opt(has, v) => has ==> SendItem(table, f, v)
    case Many(items) => forall i :: 0 <= i < |items| ==> SendItem(table, f, items[i])
    case Union(which, v) => which == f.tag ==> SendItem(table, f, v)
    case Ptr(p) => if p.Some? then SendItem(table, f, p.value) else !f.htype.Required?
  }

  predicate SendMessage(table: Table, d: nat, slots: seq<Slot>)
    decreases slots, 2
  {
    var fields := Descriptor(table, d);
    forall k :: 0 <= k < |fields| && SlotOf(fields, k) < |slots| ==>
      SendSlot(table, fields[k], slots[SlotOf(fields, k)])
  }

  /** What the proto3 check leaves out holds nothing that could not be sent. */
  lemma {:induction false} OmittedSends(table: Table, d: nat, k: nat, slot: Slot, tidy: bool)
    requires ValidTable(table) && d < |table| && k < |table[d]| && SlotFits(table, d, k, slot, tidy)
    requires Proto3Default(table, table[d][k], slot)
    ensures SendSlot(table, table[d][k], slot)
    decreases slot, 1
  {
    hide ValidTable, StructFits, SendMessage, Proto3DefaultFields;
    ValidAt(table, d, k);
    var f := table[d][k];
    if slot.One? && f.ltype.LSubmessage? { OmittedMessageSends(table, f.sub, slot.v, tidy); }
  }

  lemma {:induction false} OmittedMessageSends(table: Table, d: nat, m: Value, tidy: bool)
    requires ValidTable(table) && d < |table| && m.VMsg? && StructFits(table, d, m.slots, tidy)
    requires Proto3DefaultFields(table, Descriptor(table, d), m, 0)
    ensures SendMessage(table, d, m.slots)
    decreases m, 2
  {
    hide SlotFits, SendSlot, Proto3Default, Proto3DefaultFields, StructFits, ValidTable;
    var fields := Descriptor(table, d);
    forall k | 0 <= k < |fields| && SlotOf(fields, k) < |m.slots|
      ensures SendSlot(table, fields[k], m.slots[SlotOf(fields, k)])
    {
      FitsAt(table, d, m.slots, k, tidy);
      Proto3FieldAt(table, fields, m, 0, k);
      OmittedSends(table, d, k, m.slots[SlotOf(fields, k)], tidy);
    }
  }

  lemma {:induction false} ItemSendsExactly(table: Table, d: nat, f: Field, v: Value, tidy: bool)
    requires ValidTable(table) && ValidField(table, d, f) && (v == Unset || ItemFits(table, f, v, tidy))
    ensures EncItem(table, f, v).Some? <==> SendItem(table, f, v)
    decreases v, 9, 0
  {
    hide ValidTable, EncFields, StructFits;
    if f.ltype.LSubmessage? {
      if v.VMsg? {
        assert v == VMsg(v.slots);
        SendsExactly(table, f.sub, v.slots, tidy);
      } else {
        EncUnset(table, f.sub);
      }
    }
  }

  lemma {:induction false} EncUnset(table: Table, d: nat)
    ensures EncMessage(table, d, Unset) == if Descriptor(table, d) == [] then Some([]) else None
  {
  }

  lemma {:induction false} ItemsSendExactly(table: Table, d: nat, f: Field, slot: Slot, i: nat, keyed: bool, tidy: bool)
    requires ValidTable(table) && ValidField(table, d, f) && slot.Many? && i <= |slot.items|
    requires forall j :: 0 <= j < |slot.items| ==> slot.items[j] == Unset || ItemFits(table, f, slot.items[j], tidy)
    ensures EncItems(table, f, slot, i, keyed).Some?
            <==> forall j :: i <= j < |slot.items| ==> SendItem(table, f, slot.items[j])
    decreases slot, 5, |slot.items| - i
  {
    hide ValidTable, EncItem, SendItem, ItemFits;
    if i < |slot.items| {
      ItemSendsExactly(table, d, f, slot.items[i], tidy);
      ItemsSendExactly(table, d, f, slot, i + 1, keyed, tidy);
    }
  }

  lemma {:induction false} SlotSendsExactly(table: Table, d: nat, k: nat, slot: Slot, tidy: bool)
    requires ValidTable(table) && d < |table| && k < |table[d]| && SlotFits(table, d, k, slot, tidy)
    ensures EncField(table, table[d][k], slot).Some? <==> SendSlot(table, table[d][k], slot)
    decreases slot, 6, 0
  {
    hide ValidTable, EncItem, SendItem, ItemFits, EncItems, Proto3Default;
    ValidAt(table, d, k);
    var f := table[d][k];
    match slot
    case One(v) =>
      ItemSendsExactly(table, d, f, v, tidy);
      if Proto3Default(table, f, slot) { OmittedSends(table, d, k, slot, tidy); }
    case Opt(has, v) => ItemSendsExactly(table, d, f, v, tidy);
    case Many(items) =>
      ItemsSendExactly(table, d, f, slot, 0, false, tidy);
      ItemsSendExactly(table, d, f, slot, 0, true, tidy);
    case Union(which, v) => if which == f.tag { ItemSendsExactly(table, d, f, v, tidy); }
    case Ptr(p) => if p.Some? { ItemSendsExactly(table, d, f, p.value, tidy); }
  }

  lemma {:induction false} FieldsSendExactly(table: Table, d: nat, m: Value, k: nat, tidy: bool)
    requires ValidTable(table) && d < |table| && k <= |table[d]| && m.VMsg? && StructFits(table, d, m.slots, tidy)
    ensures EncFields(table, table[d], m, k).Some?
            <==> forall j :: k <= j < |table[d]| && SlotOf(table[d], j) < |m.slots| ==>
                   SendSlot(table, table[d][j], m.slots[SlotOf(table[d], j)])
    decreases m, 7, |table[d]| - k
  {
    hide ValidTable, EncField, SendSlot, SlotFits, StructFits;
    if k < |table[d]| {
      var fields := Descriptor(table, d);
      FitsAt(table, d, m.slots, k, tidy);
      SlotSendsExactly(table, d, k, m.slots[SlotOf(fields, k)], tidy);
      FieldsSendExactly(table, d, m, k + 1, tidy);
    }
  }

  /** pb_encode accepts a structure within bounds exactly when nothing present in it is unset or a null
      required pointer. */
  lemma {:induction false} SendsExactly(table: Table, d: nat, slots: seq<Slot>, tidy: bool)
    requires ValidTable(table) && d < |table| && StructFits(table, d, slots, tidy)
    ensures EncMessage(table, d, VMsg(slots)).Some? <==> SendMessage(table, d, slots)
    decreases VMsg(slots), 8, 0
  {
    hide ValidTable, EncFields, SendSlot, StructFits;
    FieldsSendExactly(table, d, VMsg(slots), 0, tidy);
  }
}
