/** What pb_decode returns can be encoded again, and decoding that gives it back: decoded messages are in
    normal form, up to three things that a caller can look for in the message itself. */
module Reencode {
  import opened Options
  import opened Bits
  import opened Wire
  import opened Schema
  import opened EncodeSpec
  import opened DecodeSpec
  import opened RoundTrip
  import opened Bounds
  import opened Sendable
  import opened Trimmed

  /** No string holds a NUL, no entry of a fixed-count array is still unset, and no required pointer is
      null, at any depth of what is present. */
  predicate CleanItem(table: Table, f: Field, v: Value)
    decreases v, 3
  {
    && (f.ltype.LString? && v.VBytes? ==> 0 !in v.bs)
    && (f.ltype.LSubmessage? && v.VMsg? ==> CleanMessage(table, f.sub, v.slots))
  }

  predicate CleanSlot(table: Table, f: Field, slot: Slot)
    decreases slot, 1
  {
    match slot
    case One(v) => CleanItem(table, f, v)
    case Opt(has, v) => has ==> CleanItem(table, f, v)
    case Many(items) =>
      forall i :: 0 <= i < |items| ==> items[i] != Unset && CleanItem(table, f, items[i])
    case Union(which, v) => which == f.tag ==> CleanItem(table, f, v)
    case Ptr(p) => if p.Some? then CleanItem(table, f, p.value) else !f.htype.Required?
  }

  predicate CleanMessage(table: Table, d: nat, slots: seq<Slot>)
    decreases slots, 2
  {
    var fields := Descriptor(table, d);
    forall k :: 0 <= k < |fields| && SlotOf(fields, k) < |slots| ==>
      CleanSlot(table, fields[k], slots[SlotOf(fields, k)])
  }

  lemma {:induction false} NormalItemExactly(table: Table, f: Field, v: Value)
    requires ItemFits(table, f, v, true)
    ensures NormalItem(table, f, v) <==> CleanItem(table, f, v)
    decreases v, 3
  {
    if f.ltype.LSubmessage? {
      assert v == VMsg(v.slots);
      NormalExactly(table, f.sub, v.slots);
    }
  }

  lemma {:induction false} NormalSlotExactly(table: Table, d: nat, k: nat, slot: Slot)
    requires k < |Descriptor(table, d)| && SlotFits(table, d, k, slot, true)
    ensures NormalSlot(table, d, Descriptor(table, d)[k], slot) <==> CleanSlot(table, Descriptor(table, d)[k], slot)
    ensures UnionMember(Descriptor(table, d), k, slot)
    decreases slot, 1
  {
    hide NormalItem, CleanItem, ItemFits, NormalMessage, DefaultValue;
    var f := Descriptor(table, d)[k];
    match slot
    case One(v) => NormalItemExactly(table, f, v);
    case Opt(has, v) => if has { NormalItemExactly(table, f, v); }
    case Many(items) =>
      forall i | 0 <= i < |items|
        ensures NormalItem(table, f, items[i]) <==>
                items[i] != Unset && CleanItem(table, f, items[i])
      {
        EntryExactly(table, f, items[i]);
      }
    case Union(which, v) => if which == f.tag { NormalItemExactly(table, f, v); }
    case Ptr(p) => if p.Some? { NormalItemExactly(table, f, p.value); }
  }

  lemma {:induction false} EntryExactly(table: Table, f: Field, v: Value)
    requires v == Unset || ItemFits(table, f, v, true)
    ensures NormalItem(table, f, v) <==> v != Unset && CleanItem(table, f, v)
    decreases v, 4
  {
    if v != Unset { NormalItemExactly(table, f, v); }
  }

  /** A tidy structure within bounds is in normal form exactly when it is clean. */
  lemma {:induction false} NormalExactly(table: Table, d: nat, slots: seq<Slot>)
    requires StructFits(table, d, slots, true)
    ensures NormalMessage(table, d, VMsg(slots)) <==> CleanMessage(table, d, slots)
    decreases slots, 2
  {
    hide NormalSlot, CleanSlot, SlotFits;
    var fields := Descriptor(table, d);
    forall k | 0 <= k < |fields|
      ensures SlotOf(fields, k) < |slots| && UnionMember(fields, k, slots[SlotOf(fields, k)])
      ensures NormalSlot(table, d, fields[k], slots[SlotOf(fields, k)])
              <==> CleanSlot(table, fields[k], slots[SlotOf(fields, k)])
    {
      assert SlotFits(table, d, k, slots[SlotOf(fields, k)], true);
      NormalSlotExactly(table, d, k, slots[SlotOf(fields, k)]);
    }
  }

  /** Whatever bytes were decoded: pb_encode accepts the message exactly when it can be sent. If the
      encoding is shorter than 2^32 bytes, decoding that gives the message with its strings cut at their
      first NUL; and it gives the message itself exactly when that is clean. */
  lemma {:induction false} DecodedRoundTrip(table: Table, d: nat, s: seq<Byte>)
    requires ValidTable(table) && DefaultsFit(table) && d < |table| && Decode(table, d, s).Ok?
    ensures var m := Decode(table, d, s).v;
            var e := EncMessage(table, d, m);
            && (e.Some? <==> SendMessage(table, d, m.slots))
            && (NormalMessage(table, d, m) <==> CleanMessage(table, d, m.slots))
            && (CleanMessage(table, d, m.slots) ==> e.Some?)
            && (e.Some? && |e.value| < TWO_32 ==>
                  && Decode(table, d, e.value) == Ok(VMsg(TrimSlots(table, d, m.slots)), [])
                  && (Decode(table, d, e.value) == Ok(m, []) <==> CleanMessage(table, d, m.slots)))
  {
    hide *;
    var m := Decode(table, d, s).v;
    DecodedIsMessage(table, d, s);
    DecodeFits(table, d, s);
    SendsExactly(table, d, m.slots, true);
    NormalExactly(table, d, m.slots);
    if CleanMessage(table, d, m.slots) { EncodableMessage(table, d, m); }
    if EncMessage(table, d, m).Some? && |EncMessage(table, d, m).value| < TWO_32 {
      var trimmed := VMsg(TrimSlots(table, d, m.slots));
      TrimEnc(table, d, m);
      TrimNormal(table, d, m);
      NestedLengths(table, d, trimmed);
      MessageRoundTrip(table, d, trimmed);
      if CleanMessage(table, d, m.slots) {
        NestedLengths(table, d, m);
        MessageRoundTrip(table, d, m);
      }
    }
  }

  lemma {:induction false} DecodedIsMessage(table: Table, d: nat, s: seq<Byte>)
    requires Decode(table, d, s).Ok?
    ensures Decode(table, d, s).v.VMsg? && Decode(table, d, s).v == VMsg(Decode(table, d, s).v.slots)
  {
    hide Noinit;
  }

  /** A submessage type with one required pointer, and a type with one proto3 field of that type. */
  const REQUIRED_POINTER: Field := Field(1, LVarint, Required, Pointer, 0, 0, 4, 0, None, 0)
  const PROTO3_SUBMESSAGE: Field := Field(1, LSubmessage, Optional, Static, 0, 0, 8, 0, None, 0)

  /** Null required pointers do occur in decoded messages, and then encoding fails: a proto3 submessage
      that was not received holds its defaults, and the decoder looks for required fields only in what
      was received. The encoder writes the submessage because of its required field. */
  lemma {:induction false} UnreceivedSubmessage()
    ensures var table := [[REQUIRED_POINTER], [PROTO3_SUBMESSAGE]];
            var m := VMsg([One(VMsg([Ptr(None)]))]);
            && ValidTable(table) && DefaultsFit(table)
            && Decode(table, 1, []) == Ok(m, []) && EncMessage(table, 1, m).None?
  {
    var table := [[REQUIRED_POINTER], [PROTO3_SUBMESSAGE]];
    var inner := VMsg([Ptr(None)]);
    var m := VMsg([One(inner)]);
    assert Descriptor(table, 0) == [REQUIRED_POINTER] && Descriptor(table, 1) == [PROTO3_SUBMESSAGE];
    assert DefaultPrefix(table, 0, 1) == [Ptr(None)];
    assert DefaultPrefix(table, 1, 1) == [One(inner)];
    assert SlotOf([REQUIRED_POINTER], 0) == 0 && SlotOf([PROTO3_SUBMESSAGE], 0) == 0;
    assert !Proto3DefaultFields(table, [REQUIRED_POINTER], inner, 0);
    assert EncField(table, REQUIRED_POINTER, Ptr(None)).None?;
    assert EncMessage(table, 0, inner).None?;
    assert EncField(table, PROTO3_SUBMESSAGE, One(inner)).None?;
  }
}
