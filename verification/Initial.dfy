/** What pb_message_set_to_defaults leaves in every field, at every depth of static submessages. */
module Initial {
  import opened Options
  import opened Wire
  import opened Schema
  import opened DecodeSpec

  /** A submessage that lies inside its parent's structure and is initialised with it. */
  predicate Nested(f: Field) {
    f.ltype.LSubmessage? && f.atype.Static? && (f.htype.Required? || f.htype.Optional?)
  }

  /** The indices in `path` lead from message type `d` through nested submessages to a field. */
  predicate Leads(table: Table, d: nat, path: seq<nat>)
    decreases |path|
  {
    && path != [] && path[0] < |Descriptor(table, d)|
    && (|path| > 1 ==>
          Nested(Descriptor(table, d)[path[0]]) && Leads(table, Descriptor(table, d)[path[0]].sub, path[1..]))
  }

  function FieldAt(table: Table, d: nat, path: seq<nat>): Field
    requires Leads(table, d, path)
    decreases |path|
  {
    var f := Descriptor(table, d)[path[0]];
    if |path| == 1 then f else FieldAt(table, f.sub, path[1..])
  }

  /** The slot at the end of the path, if the structure has one. */
  function SlotAt(table: Table, d: nat, slots: seq<Slot>, path: seq<nat>): Option<Slot>
    requires Leads(table, d, path)
    decreases |path|
  {
    var fields, i := Descriptor(table, d), SlotOf(Descriptor(table, d), path[0]);
    if i >= |slots| then None
    else if |path| == 1 then Some(slots[i])
    else if (slots[i].One? || slots[i].Opt?) && slots[i].v.VMsg? then
      SlotAt(table, fields[path[0]].sub, slots[i].v.slots, path[1..])
    else None
  }

  /** The default that the descriptor declares, or else all zero bytes. */
  predicate InitialValue(f: Field, v: Value) {
    if f.dflt.Some? && !f.ltype.LSubmessage? then v == f.dflt.value
    else
      match f.ltype
      case LBool => v == VBool(false)
      case LVarint | LUVarint | LSVarint | LFixed32 | LFixed64 => v == VInt(0)
      case LBytes | LString => v == VBytes([])
      case LFixedLengthBytes =>
        v.VBytes? && |v.bs| == f.dataSize && forall i :: 0 <= i < |v.bs| ==> v.bs[i] == 0
      case LSubmessage => v.VMsg?
  }

  predicate InitialSlot(f: Field, slot: Slot) {
    if f.htype.Repeated? then
      && slot.Many? && |slot.items| == (if f.sizeOffset == 0 then f.arraySize else 0)
      && forall i :: 0 <= i < |slot.items| ==> slot.items[i] == Unset
    else if f.htype.OneOf? then slot == Union(0, Unset)
    else if f.atype.Pointer? then slot == Ptr(None)
    else if f.htype.Optional? && f.sizeOffset != 0 then slot.Opt? && !slot.has && InitialValue(f, slot.v)
    else slot.One? && InitialValue(f, slot.v)
  }

  /** After initialisation arrays are empty, oneofs unset, pointers null and flags clear; every other field
      holds the default that its descriptor declares, or zero: at every depth. */
  lemma {:induction false} InitialAt(table: Table, d: nat, path: seq<nat>)
    requires ValidTable(table) && d < |table| && Leads(table, d, path)
    ensures var slot := SlotAt(table, d, DefaultSlots(table, d), path);
            slot.Some? && InitialSlot(FieldAt(table, d, path), slot.value)
    decreases |path|
  {
    hide ValidTable, DefaultSlots;
    var k := path[0];
    ValidAt(table, d, k);
    DefaultSlotAt(table, d, k);
    if |path| > 1 { InitialAt(table, table[d][k].sub, path[1..]); }
  }

  /** Decoding nothing succeeds exactly for messages without required fields, and leaves the structure as
      initialised. */
  lemma {:induction false} DecodeNothing(table: Table, d: nat)
    requires ValidTable(table) && d < |table|
    ensures var r := Decode(table, d, []);
            && (r.Ok? <==> forall k :: 0 <= k < |table[d]| ==> !table[d][k].htype.Required?)
            && (r.Ok? ==> && r.rest == [] && r.v.VMsg?
                          && forall path {:trigger Leads(table, d, path)} | Leads(table, d, path) ::
                               var slot := SlotAt(table, d, r.v.slots, path);
                               slot.Some? && InitialSlot(FieldAt(table, d, path), slot.value))
  {
    hide ValidTable, InitialSlot, SlotAt, DefaultSlots;
    var fields := table[d];
    assert Descriptor(table, d) == fields;
    if k :| 0 <= k < |fields| && fields[k].htype.Required? {
      var first := FirstRequired(fields, k);
      assert Tracked(fields, first);
    }
    forall path | Leads(table, d, path)
      ensures var slot := SlotAt(table, d, DefaultSlots(table, d), path);
              slot.Some? && InitialSlot(FieldAt(table, d, path), slot.value)
    {
      InitialAt(table, d, path);
    }
  }

  lemma {:induction false} FirstRequired(fields: Fields, k: nat) returns (j: nat)
    requires k < |fields| && fields[k].htype.Required?
    ensures j <= k && fields[j].htype.Required? && RequiredIndex(fields, j) == 0
    decreases k
  {
    if RequiredIndex(fields, k) == 0 { j := k; } else { var i := HasEarlier(fields, k); j := FirstRequired(fields, i); }
  }

  lemma {:induction false} HasEarlier(fields: Fields, k: nat) returns (j: nat)
    requires k <= |fields| && RequiredIndex(fields, k) > 0
    ensures j < k && fields[j].htype.Required?
    decreases k
  {
    if fields[k - 1].htype.Required? { j := k - 1; } else { j := HasEarlier(fields, k - 1); }
  }
}
