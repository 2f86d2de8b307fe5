/** Exactly which fields pb_encode leaves out, and the key that the others begin with. */
module Omission {
  import opened Options
  import opened Bits
  import opened Wire
  import opened Schema
  import opened EncodeSpec
  import opened RoundTrip

  // ---------------------------------------------------------------- proto3 fields

  /** The zero of a field's type; of a submessage, every nested slot at its default. */
  predicate IsZero(table: Table, f: Field, v: Value) {
    match f.ltype
    case LBool => v == VBool(false)
    case LVarint | LUVarint | LSVarint | LFixed32 | LFixed64 => v == VInt(0)
    case LBytes | LString | LFixedLengthBytes => v == VBytes([])
    case LSubmessage => v == VMsg(DefaultSlots(table, f.sub))
  }

  /** Proto3 fields that are sent whatever they hold: bytes of a fixed length, and submessages that have a
      field which is always sent. */
  predicate AlwaysSent(table: Table, d: nat, f: Field)
    decreases d, 0
  {
    || (f.ltype.LFixedLengthBytes? && f.dataSize > 0)
    || (&& f.ltype.LSubmessage? && f.sub < d
        && exists k :: 0 <= k < |Descriptor(table, f.sub)| && Forces(table, f.sub, Descriptor(table, f.sub)[k]))
  }

  predicate Forces(table: Table, d: nat, f: Field)
    decreases d, 1
  {
    || f.htype.Required?
    || (f.htype.Repeated? && f.sizeOffset == 0)
    || (f.htype.Optional? && f.atype.Static? && f.sizeOffset == 0 && AlwaysSent(table, d, f))
  }

  /** A default is left out unless something forces it to be sent. */
  lemma {:induction false} DefaultIsLeftOut(table: Table, d: nat, f: Field)
    requires ValidTable(table) && d < |table| && ValidField(table, d, f)
    ensures Proto3Default(table, f, DefaultSlot(table, d, f)) <==> !Forces(table, d, f)
    decreases d, 0
  {
    hide DefaultSlots, ValidTable, Proto3DefaultFields;
    if f.htype.Optional? && f.atype.Static? && f.sizeOffset == 0 && f.ltype.LSubmessage? {
      DefaultsLeftOut(table, d, f.sub, 0);
      assert Descriptor(table, f.sub) == table[f.sub];
    }
  }

  lemma {:induction false} DefaultsLeftOut(table: Table, d: nat, sub: nat, i: nat)
    requires ValidTable(table) && sub < d < |table| && i <= |table[sub]|
    ensures Proto3DefaultFields(table, table[sub], VMsg(DefaultSlots(table, sub)), i)
            <==> forall k :: i <= k < |table[sub]| ==> !Forces(table, sub, table[sub][k])
    decreases sub, 1, |table[sub]| - i
  {
    hide ValidTable, Proto3Default, Forces, DefaultSlots, DefaultSlot;
    if i < |table[sub]| {
      ValidAt(table, sub, i);
      DefaultSlotAt(table, sub, i);
      DefaultIsLeftOut(table, sub, table[sub][i]);
      DefaultsLeftOut(table, d, sub, i + 1);
    }
  }

  lemma {:induction false} Proto3Exactly(table: Table, d: nat, f: Field, v: Value)
    requires ValidTable(table) && d < |table| && ValidField(table, d, f) && NormalSlot(table, d, f, One(v))
    requires f.htype.Optional?
    ensures Proto3Default(table, f, One(v)) <==> IsZero(table, f, v) && !AlwaysSent(table, d, f)
  {
    hide DefaultSlots, ValidTable, Proto3DefaultFields, NormalMessage;
    DefaultIsLeftOut(table, d, f);
    if Proto3Default(table, f, One(v)) {
      Proto3SlotIsDefault(table, d, f, One(v));
    }
    if f.ltype.LFixedLengthBytes? && IsZero(table, f, v) {
      assert f.dataSize == 0;
    }
  }

  // ---------------------------------------------------------------- all fields

  /** Nothing is sent for field `f`. */
  predicate LeftOut(table: Table, d: nat, f: Field, slot: Slot) {
    match slot
    case One(v) => f.htype.Optional? && IsZero(table, f, v) && !AlwaysSent(table, d, f)
    case Opt(has, v) => !has
    case Many(items) => items == []
    case Union(which, v) => which != f.tag
    case Ptr(p) => p.None?
  }

  /** Wire type number of the first key of a field: a varint, 64 bits, a length, or 32 bits. */
  function KeyType(f: Field): nat {
    if f.htype.Repeated? && Packable(f.ltype) then 2
    else
      match f.ltype
      case LBool | LVarint | LUVarint | LSVarint => 0
      case LFixed64 => 1
      case LBytes | LString | LSubmessage | LFixedLengthBytes => 2
      case LFixed32 => 5
  }

  /** `e` begins with a varint that spells `n`. */
  predicate BeginsWith(e: seq<Byte>, n: nat) {
    exists i :: 0 < i <= |e| && IsVarint(e[..i]) && GroupValue(e[..i]) == n
  }

  lemma {:induction false} KeyBegins(f: Field, wt: nat, rest: seq<Byte>)
    ensures Key(f.tag, wt) + rest != []
    ensures BeginsWith(Key(f.tag, wt) + rest, 8 * f.tag + wt)
  {
    var key := Key(f.tag, wt);
    EncVarintValue(8 * f.tag + wt);
    assert (key + rest)[..|key|] == key;
  }

  lemma {:induction false} ItemsBegin(table: Table, f: Field, slot: Slot)
    requires slot.Many? && slot.items != [] && !Packable(f.ltype) && EncItems(table, f, slot, 0, true).Some?
    ensures EncItems(table, f, slot, 0, true).value != []
    ensures BeginsWith(EncItems(table, f, slot, 0, true).value, 8 * f.tag + KeyType(f))
  {
    hide EncItem, Key, BeginsWith, GroupValue;
    var item, rest := EncItem(table, f, slot.items[0]).value, EncItems(table, f, slot, 1, true).value;
    KeyBegins(f, KeyType(f), item + rest);
    assert EncItems(table, f, slot, 0, true).value == Key(f.tag, WireType(f.ltype)) + (item + rest);
  }

  lemma {:induction false} KeyedBegins(table: Table, f: Field, v: Value)
    requires Keyed(table, f, v).Some? && !f.htype.Repeated?
    ensures Keyed(table, f, v).value != [] && BeginsWith(Keyed(table, f, v).value, 8 * f.tag + KeyType(f))
  {
    hide EncItem, Key, BeginsWith, GroupValue;
    KeyBegins(f, KeyType(f), EncItem(table, f, v).value);
  }

  lemma {:induction false} ArrayBegins(table: Table, f: Field, slot: Slot)
    requires slot.Many? && f.htype.Repeated? && EncArray(table, f, slot).Some? && slot.items != []
    ensures EncArray(table, f, slot).value != []
    ensures BeginsWith(EncArray(table, f, slot).value, 8 * f.tag + KeyType(f))
  {
    hide EncItems, Key, BeginsWith, GroupValue, Delimited;
    if Packable(f.ltype) {
      KeyBegins(f, WT_STRING, Delimited(EncItems(table, f, slot, 0, false).value));
    } else {
      ItemsBegin(table, f, slot);
    }
  }

  lemma {:induction false} EmptyArray(table: Table, f: Field, slot: Slot)
    requires slot == Many([])
    ensures EncArray(table, f, slot) == Some([])
  {
  }

  /** On a field in normal form the encoder writes nothing exactly when the field is absent or, without a
      flag, zero and of a kind that may be left out. Otherwise the first thing it writes is the field's key:
      eight times the tag plus the number of its wire type. */
  lemma {:induction false} LeftOutExactly(table: Table, d: nat, f: Field, slot: Slot)
    requires ValidTable(table) && d < |table| && ValidField(table, d, f) && NormalSlot(table, d, f, slot)
    ensures EncField(table, f, slot) == Some([]) <==> LeftOut(table, d, f, slot)
    ensures !LeftOut(table, d, f, slot) ==>
              EncField(table, f, slot).Some? && BeginsWith(EncField(table, f, slot).value, 8 * f.tag + KeyType(f))
  {
    hide ValidTable, Keyed, EncArray, NormalItem, Proto3Default, IsZero, AlwaysSent, BeginsWith, KeyType;
    EncodableSlot(table, d, f, slot);
    match slot
    case One(v) =>
      if f.htype.Optional? { Proto3Exactly(table, d, f, v); }
      if Keyed(table, f, v).Some? { KeyedBegins(table, f, v); }
    case Opt(has, v) => if Keyed(table, f, v).Some? { KeyedBegins(table, f, v); }
    case Many(items) => if items != [] { ArrayBegins(table, f, slot); } else { EmptyArray(table, f, slot); }
    case Union(which, v) => if Keyed(table, f, v).Some? { KeyedBegins(table, f, v); }
    case Ptr(p) => if p.Some? && Keyed(table, f, p.value).Some? { KeyedBegins(table, f, p.value); }
  }

  lemma {:induction false} EmptyHead(table: Table, fields: Fields, m: Value, i: nat)
    requires i < |fields| && m.VMsg? && SlotOf(fields, i) < |m.slots|
    requires EncField(table, fields[i], m.slots[SlotOf(fields, i)]).Some? && EncFields(table, fields, m, i + 1).Some?
    ensures EncFields(table, fields, m, i) == Some([])
            <==> EncField(table, fields[i], m.slots[SlotOf(fields, i)]) == Some([])
                 && EncFields(table, fields, m, i + 1) == Some([])
  {
    hide EncField;
    var head := EncField(table, fields[i], m.slots[SlotOf(fields, i)]).value;
    var tail := EncFields(table, fields, m, i + 1).value;
    assert |head + tail| == |head| + |tail|;
  }

  lemma {:induction false} NothingLeft(table: Table, fields: Fields, m: Value)
    ensures EncFields(table, fields, m, |fields|) == Some([])
  {
  }

  /** Nothing is sent for field `k` of the message. */
  predicate FieldLeftOut(table: Table, d: nat, m: Value, k: nat)
    requires d < |table| && k < |table[d]| && m.VMsg?
  {
    SlotOf(table[d], k) < |m.slots| && LeftOut(table, d, table[d][k], m.slots[SlotOf(table[d], k)])
  }

  lemma {:induction false} FieldLeftOutExactly(table: Table, d: nat, m: Value, k: nat)
    requires ValidTable(table) && d < |table| && NormalMessage(table, d, m) && k < |table[d]|
    ensures m.VMsg? && SlotOf(table[d], k) < |m.slots|
    ensures EncField(table, table[d][k], m.slots[SlotOf(table[d], k)]).Some?
    ensures EncField(table, table[d][k], m.slots[SlotOf(table[d], k)]) == Some([]) <==> FieldLeftOut(table, d, m, k)
  {
    hide ValidTable, NormalMessage, EncField, LeftOut, ValidField, NormalSlot;
    NormalAt(table, d, m, k);
    ValidAt(table, d, k);
    LeftOutExactly(table, d, table[d][k], m.slots[SlotOf(table[d], k)]);
    EncodableSlot(table, d, table[d][k], m.slots[SlotOf(table[d], k)]);
  }

  /** A message has no bytes exactly when all of its fields are left out. */
  lemma {:induction false} EmptyEncoding(table: Table, d: nat, m: Value, i: nat)
    requires ValidTable(table) && d < |table| && NormalMessage(table, d, m) && i <= |table[d]|
    ensures m.VMsg?
    ensures EncFields(table, table[d], m, i) == Some([])
            <==> forall k :: i <= k < |table[d]| ==> FieldLeftOut(table, d, m, k)
    decreases |table[d]| - i
  {
    hide ValidTable, NormalMessage, EncField, FieldLeftOut, EncFields, SlotOf;
    NormalIsMsg(table, d, m);
    if i == |table[d]| {
      NothingLeft(table, table[d], m);
    } else {
      FieldLeftOutExactly(table, d, m, i);
      EncodableFields(table, d, m, i + 1);
      EmptyEncoding(table, d, m, i + 1);
      EmptyHead(table, table[d], m, i);
    }
  }

  /** encode_array: an array with more entries than it has room for is refused, and any other is encoded if
      all of its entries are; a fixed-count array has all its entries. */
  lemma {:induction false} ArrayEncodes(table: Table, f: Field, slot: Slot)
    requires slot.Many? && f.htype.Repeated?
    ensures EncField(table, f, slot).Some? <==>
              && (f.sizeOffset == 0 ==> |slot.items| == f.arraySize)
              && (slot.items != [] && f.atype.Static? ==> |slot.items| <= f.arraySize)
              && forall i :: 0 <= i < |slot.items| ==> EncItem(table, f, slot.items[i]).Some?
  {
    hide EncItem, Key, Delimited;
    ItemsEncode(table, f, slot, 0, true);
    ItemsEncode(table, f, slot, 0, false);
  }

  lemma {:induction false} ItemsEncode(table: Table, f: Field, slot: Slot, i: nat, keyed: bool)
    requires slot.Many? && i <= |slot.items|
    ensures EncItems(table, f, slot, i, keyed).Some?
            <==> forall j :: i <= j < |slot.items| ==> EncItem(table, f, slot.items[j]).Some?
    decreases |slot.items| - i
  {
    hide EncItem;
    if i < |slot.items| { ItemsEncode(table, f, slot, i + 1, keyed); }
  }
}
