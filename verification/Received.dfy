/** What a run of the record loop has received: which fields it changed, when it may end, and how far its
    fixed-count arrays are filled. */
module Received {
  import opened Options
  import opened Bits
  import opened Wire
  import opened Schema
  import opened DecodeSpec
  import opened Records
  import opened Bounds

  // ---------------------------------------------------------------- rounds

  /** Wire type of the payload that the loop reads after a key: that of the field, whatever the key says, or
      for an unknown field the key's. */
  function PayloadRead(fields: Fields, key: nat): nat {
    match FindField(fields, key / 8)
    case Some(k) => PayloadType(fields[k], key % 8)
    case None => if fields == [] && key / 8 == 0 then WT_VARINT else key % 8
  }

  /** A round stops exactly at a key of 0, and if it goes on it has consumed exactly a key and a complete
      payload. In all other cases decoding fails. */
  lemma {:induction false} RoundExactly(table: Table, d: nat, st: LoopState, s: seq<Byte>)
    requires s != []
    ensures var r, key := Step(table, d, st, s), Varint32(s);
            && (r.Stop? <==> key.Ok? && key.v == 0)
            && (r.Stop? ==> r.rest == key.rest)
            && (r.Next? ==>
                  && key.Ok? && key.v != 0
                  && var n := PayloadSize(PayloadRead(Descriptor(table, d), key.v), key.rest);
                     n.Some? && r.rest == key.rest[n.value..])
  {
    hide Varint32, DecField, Skip, FindField, Enter, PayloadSize, PayloadType;
    var fields, key := Descriptor(table, d), Varint32(s);
    if key.Ok? && key.v != 0 {
      var tag, wt := key.v / 8, key.v % 8;
      match FindField(fields, tag)
      case Some(k) =>
        var entered := Enter(fields, k, st);
        if entered.Some? && DecField(table, d, k, entered.value, wt, key.rest).Ok? {
          FieldSuffix(table, d, k, entered.value, wt, key.rest, []);
        }
      case None =>
        if fields == [] && tag == 0 {
          if Varint32(key.rest).Ok? { BoolPayload(key.rest); }
        } else if Skip(wt, key.rest).Ok? {
          SkipExact(wt, key.rest, []);
        }
    }
  }

  lemma {:induction false} BoolPayload(s: seq<Byte>)
    requires Varint32(s).Ok?
    ensures PayloadSize(WT_VARINT, s).Some? && Varint32(s).rest == s[PayloadSize(WT_VARINT, s).value..]
  {
    Varint32Consumes(s);
  }

  /** A key of 0, however it is spelled, ends the message: what follows is left unread. */
  lemma {:induction false} ZeroKeyEnds(table: Table, d: nat, slots: seq<Slot>, a: seq<Byte>, zero: seq<Byte>,
          b: seq<Byte>)
    requires RecordSequence(Descriptor(table, d), a) || Loop(table, d, Start(slots), a).Ended?
    requires Varint32(zero) == Ok(0, [])
    ensures var first := Noinit(table, d, slots, a);
            Noinit(table, d, slots, a + zero + b) == if first.Ok? then Ok(first.v, b) else Err
  {
    hide Step, Varint32, RecordSequence, Complete;
    var run := Loop(table, d, Start(slots), a);
    assert a + zero + b == a + (zero + b);
    LoopConcat(table, d, Start(slots), a, zero + b);
    Varint32Suffix(zero, b);
    assert [] + b == b;
    if run.Ended? {
      assert zero != [] by { EmptyVarint(zero); }
      RoundExactly(table, d, run.st, zero + b);
    }
  }

  lemma {:induction false} EmptyVarint(s: seq<Byte>)
    requires Varint32(s).Ok?
    ensures s != []
  {
  }

  // ---------------------------------------------------------------- tags

  /** The tags of the records that the loop goes through, in order. */
  function Tags(table: Table, d: nat, st: LoopState, s: seq<Byte>): seq<nat>
    decreases |s|
  {
    if s == [] then []
    else
      match Step(table, d, st, s)
      case Next(st', rest) => [Varint32(s).v / 8] + Tags(table, d, st', rest)
      case _ => []
  }

  /** Effect of the record of field `k` on the state. */
  predicate Touches(fields: Fields, k: nat, st: LoopState, st': LoopState)
    requires k < |fields|
  {
    var f, i := fields[k], SlotOf(fields, k);
    && i < |st.slots| == |st'.slots| && st'.slots == st.slots[i := st'.slots[i]]
    && st'.seen == (if f.htype.Required? then st.seen + {k} else st.seen)
    && (if f.htype.Repeated? then st'.slots[i].Many?
        else if f.atype.Pointer? then st'.slots[i].Ptr? && st'.slots[i].p.Some?
        else if f.htype.OneOf? then st'.slots[i].Union? && st'.slots[i].which == f.tag
        else if f.htype.Optional? && f.sizeOffset != 0 then st'.slots[i].Opt? && st'.slots[i].has
        else st'.slots[i].One?)
  }

  /** A round changes at most the slot of the field that its key names. */
  lemma {:induction false} RoundTouches(table: Table, d: nat, st: LoopState, s: seq<Byte>)
    requires s != [] && Step(table, d, st, s).Next?
    ensures Varint32(s).Ok?
    ensures var fields, st' := Descriptor(table, d), Step(table, d, st, s).st;
            match FindField(fields, Varint32(s).v / 8)
            case None => st' == st
            case Some(k) => Touches(fields, k, st, st')
  {
    hide Varint32, Skip, FindField, DecItem, DecPacked, Substream;
    var fields, key := Descriptor(table, d), Varint32(s);
    match FindField(fields, key.v / 8)
    case None =>
    case Some(k) =>
      var entered := Enter(fields, k, st).value;
      FieldTouches(table, d, k, entered, key.v % 8, key.rest);
  }

  lemma {:induction false} FieldTouches(table: Table, d: nat, k: nat, st: LoopState, wt: nat, s: seq<Byte>)
    requires k < |Descriptor(table, d)| && DecField(table, d, k, st, wt, s).Ok?
    ensures var f, i := Descriptor(table, d)[k], SlotOf(Descriptor(table, d), k);
            var st' := DecField(table, d, k, st, wt, s).v;
            && i < |st.slots| == |st'.slots| && st'.slots == st.slots[i := st'.slots[i]] && st'.seen == st.seen
            && (if f.htype.Repeated? then st'.slots[i].Many? else exists v :: st'.slots[i] == Stored(f, v))
  {
    hide DecItem, DecPacked, Substream, Target;
    var fields := Descriptor(table, d);
    var f, i := fields[k], SlotOf(fields, k);
    if !f.htype.Repeated? {
      var cur := Target(table, fields, f, st.slots[i]).value;
      assert DecField(table, d, k, st, wt, s).v.slots[i] == Stored(f, DecItem(table, f, cur, s).v);
    }
  }

  /** Some record named a field in slot `i`. */
  predicate Named(fields: Fields, tags: seq<nat>, i: nat) {
    exists t :: t in tags && FindField(fields, t).Some? && SlotOf(fields, FindField(fields, t).value) == i
  }

  /** The last of these tags that names a member of the oneof in slot `i`. */
  function LastMember(fields: Fields, tags: seq<nat>, i: nat, before: nat): nat {
    if tags == [] then before
    else
      var k := FindField(fields, tags[0]);
      LastMember(fields, tags[1..], i, if k.Some? && SlotOf(fields, k.value) == i then tags[0] else before)
  }

  lemma {:induction false} NamedCons(fields: Fields, t: nat, tags: seq<nat>, i: nat)
    ensures Named(fields, [t] + tags, i)
            <==> || Named(fields, tags, i)
                 || (FindField(fields, t).Some? && SlotOf(fields, FindField(fields, t).value) == i)
  {
    hide FindField, SlotOf;
    assert forall u :: u in [t] + tags <==> u == t || u in tags;
  }

  lemma {:induction false} LoopChanges(table: Table, d: nat, st: LoopState, s: seq<Byte>, i: nat)
    requires d < |table| && !Loop(table, d, st, s).Failed? && i < |st.slots|
    ensures var st', tags := Loop(table, d, st, s).st, Tags(table, d, st, s);
            && |st'.slots| == |st.slots|
            && (!Named(table[d], tags, i) ==> st'.slots[i] == st.slots[i])
    decreases |s|
  {
    hide Step, FindField, Varint32, SlotOf, Named;
    if s != [] {
      var r := Step(table, d, st, s);
      if r.Next? {
        RoundTouches(table, d, st, s);
        LoopChanges(table, d, r.st, r.rest, i);
        NamedCons(table[d], Varint32(s).v / 8, Tags(table, d, r.st, r.rest), i);
      }
    }
  }

  /** A field of which no record arrived, nor one of a member of the same oneof, is as it was before. */
  lemma {:induction false} UnnamedUnchanged(table: Table, d: nat, slots: seq<Slot>, s: seq<Byte>, i: nat)
    requires d < |table| && Noinit(table, d, slots, s).Ok? && i < |slots|
    requires !Named(table[d], Tags(table, d, Start(slots), s), i)
    ensures i < |Noinit(table, d, slots, s).v| && Noinit(table, d, slots, s).v[i] == slots[i]
  {
    hide Loop, Tags, Named, Complete;
    LoopChanges(table, d, Start(slots), s, i);
  }

  /** What says that field `k` is present. */
  predicate Present(fields: Fields, k: nat, slot: Slot)
    requires k < |fields|
  {
    match slot
    case Opt(has, _) => has
    case Ptr(p) => p.Some?
    case Union(which, _) => which == fields[k].tag
    case _ => true
  }

  /** The slot has the shape that its field calls for. */
  predicate Shaped(f: Field, slot: Slot) {
    if f.htype.Repeated? then slot.Many?
    else if f.atype.Pointer? then slot.Ptr?
    else if f.htype.OneOf? then slot.Union?
    else if f.htype.Optional? && f.sizeOffset != 0 then slot.Opt?
    else slot.One?
  }

  lemma {:induction false} LoopPresence(table: Table, d: nat, st: LoopState, s: seq<Byte>, k: nat)
    requires ValidTable(table) && d < |table| && k < |table[d]| && !Loop(table, d, st, s).Failed?
    requires SlotOf(table[d], k) < |st.slots| && Shaped(table[d][k], st.slots[SlotOf(table[d], k)])
    ensures var f, i := table[d][k], SlotOf(table[d], k);
            var st', tags := Loop(table, d, st, s).st, Tags(table, d, st, s);
            && i < |st'.slots| && Shaped(f, st'.slots[i])
            && (if f.htype.OneOf? && f.atype.Static?
                then st'.slots[i].which == LastMember(table[d], tags, i, st.slots[i].which)
                else Present(table[d], k, st'.slots[i]) <==> Present(table[d], k, st.slots[i]) || f.tag in tags)
            && (f.htype.Required? ==> (k in st'.seen <==> k in st.seen || f.tag in tags))
    decreases |s|
  {
    hide Step, FindField, Varint32, SlotOf, ValidTable, ValidField;
    var f, i := table[d][k], SlotOf(table[d], k);
    if s != [] {
      var r := Step(table, d, st, s);
      if r.Next? {
        RoundTouches(table, d, st, s);
        var tag := Varint32(s).v / 8;
        RoundPresence(table, d, st, r.st, tag, k);
        LoopPresence(table, d, r.st, r.rest, k);
        assert f.tag in Tags(table, d, st, s) <==> f.tag == tag || f.tag in Tags(table, d, r.st, r.rest);
        assert Tags(table, d, st, s)[1..] == Tags(table, d, r.st, r.rest);
      }
    }
  }

  lemma {:induction false} RoundPresence(table: Table, d: nat, st: LoopState, st': LoopState, tag: nat, k: nat)
    requires ValidTable(table) && d < |table| && k < |table[d]|
    requires SlotOf(table[d], k) < |st.slots| && Shaped(table[d][k], st.slots[SlotOf(table[d], k)])
    requires match FindField(table[d], tag)
             case None => st' == st
             case Some(j) => Touches(table[d], j, st, st')
    ensures var f, i := table[d][k], SlotOf(table[d], k);
            && i < |st'.slots| && Shaped(f, st'.slots[i])
            && (if f.htype.OneOf? && f.atype.Static?
                then st'.slots[i].which == LastMember(table[d], [tag], i, st.slots[i].which)
                else Present(table[d], k, st'.slots[i]) <==> Present(table[d], k, st.slots[i]) || f.tag == tag)
            && (f.htype.Required? ==> (k in st'.seen <==> k in st.seen || f.tag == tag))
  {
    hide FindField, ValidTable, ValidField;
    var fields, f, i := table[d], table[d][k], SlotOf(table[d], k);
    ValidAt(table, d, k);
    FindOwnTag(fields, k);
    var found := FindField(fields, tag);
    if found.Some? {
      var j := found.value;
      ValidAt(table, d, j);
      FindOwnTag(fields, j);
      if SlotOf(fields, j) == i && j != k {
        if j < k { SharedSlot(fields, j, k); } else { SharedSlot(fields, k, j); }
        SharedStatic(table, d, j);
        SharedStatic(table, d, k);
      }
    }
    assert [tag][1..] == [];
  }

  lemma {:induction false} SharedStatic(table: Table, d: nat, k: nat)
    requires ValidTable(table) && d < |table| && k < |table[d]| && table[d][k].htype.OneOf?
    ensures table[d][k].atype.Static?
  {
    ValidAt(table, d, k);
  }

  /** After pb_decode, a flag is set or a pointer points exactly if a record of the field arrived, and a
      oneof names the last of its members that arrived. */
  lemma {:induction false} PresenceExactly(table: Table, d: nat, s: seq<Byte>, k: nat)
    requires ValidTable(table) && d < |table| && k < |table[d]| && Decode(table, d, s).Ok?
    ensures var f, i, m := table[d][k], SlotOf(table[d], k), Decode(table, d, s).v;
            var tags := Tags(table, d, Start(DefaultSlots(table, d)), s);
            && m.VMsg? && i < |m.slots|
            && (m.slots[i].Opt? ==> (m.slots[i].has <==> f.tag in tags))
            && (m.slots[i].Ptr? ==> (m.slots[i].p.Some? <==> f.tag in tags))
            && (m.slots[i].Union? ==> m.slots[i].which == LastMember(table[d], tags, i, 0))
  {
    hide ValidTable, Loop, Tags, DefaultSlots, Complete, LastMember;
    ValidAt(table, d, k);
    DefaultSlotAt(table, d, k);
    var st := Start(DefaultSlots(table, d));
    assert Shaped(table[d][k], st.slots[SlotOf(table[d], k)]);
    LoopPresence(table, d, st, s, k);
  }

  // ---------------------------------------------------------------- required fields

  lemma {:induction false} RequiredBefore(fields: Fields, k: nat)
    requires k <= |fields|
    ensures RequiredIndex(fields, k) == |set j | 0 <= j < |fields| && fields[j].htype.Required? && j < k|
  {
    if k > 0 {
      RequiredBefore(fields, k - 1);
      var before := set j | 0 <= j < |fields| && fields[j].htype.Required? && j < k - 1;
      var now := set j | 0 <= j < |fields| && fields[j].htype.Required? && j < k;
      assert now == if fields[k - 1].htype.Required? then before + {k - 1} else before;
    } else {
      assert (set j | 0 <= j < |fields| && fields[j].htype.Required? && j < k) == {};
    }
  }

  /** A run that does not fail is accepted exactly when records of the first 64 required fields have all
      arrived and the last fixed-count array is full. */
  lemma {:induction false} RequiredExactly(table: Table, d: nat, slots: seq<Slot>, s: seq<Byte>)
    requires ValidTable(table) && d < |table| && StructFits(table, d, slots, false)
    requires !Loop(table, d, Start(slots), s).Failed?
    ensures var fields, st := table[d], Loop(table, d, Start(slots), s).st;
            Noinit(table, d, slots, s).Ok? <==>
              && (forall k :: 0 <= k < |fields| && fields[k].htype.Required?
                              && |set j | 0 <= j < |fields| && fields[j].htype.Required? && j < k| < 64 ==>
                    fields[k].tag in Tags(table, d, Start(slots), s))
              && (st.fixedField.Some? && st.fixedField.value < |fields| ==>
                    st.fixedCount == fields[st.fixedField.value].arraySize)
  {
    hide ValidTable, Loop, Tags, StructFits;
    var fields, run := table[d], Loop(table, d, Start(slots), s);
    assert Descriptor(table, d) == fields;
    forall k | 0 <= k < |fields| && fields[k].htype.Required?
      ensures k in run.st.seen <==> fields[k].tag in Tags(table, d, Start(slots), s)
      ensures RequiredIndex(fields, k) == |set j | 0 <= j < |fields| && fields[j].htype.Required? && j < k|
    {
      RequiredBefore(fields, k);
      FitsShaped(table, d, slots, k);
      LoopPresence(table, d, Start(slots), s, k);
    }
  }

  lemma {:induction false} FitsShaped(table: Table, d: nat, slots: seq<Slot>, k: nat)
    requires ValidTable(table) && d < |table| && k < |table[d]| && StructFits(table, d, slots, false)
    ensures SlotOf(table[d], k) < |slots| && Shaped(table[d][k], slots[SlotOf(table[d], k)])
  {
    hide ValidTable, StructFits, ItemFits;
    ValidAt(table, d, k);
    FitsAt(table, d, slots, k, false);
  }

  /** Which tag names no member at all is an error; apart from that a member of a oneof is decoded as if the
      oneof were unset. */
  lemma {:induction false} OneofExactly(table: Table, d: nat, k: nat, st: LoopState, wt: nat, s: seq<Byte>)
    requires k < |Descriptor(table, d)| && SlotOf(Descriptor(table, d), k) < |st.slots|
    requires Descriptor(table, d)[k].atype.Static? && Descriptor(table, d)[k].htype.OneOf?
    requires st.slots[SlotOf(Descriptor(table, d), k)].Union?
    ensures var fields, i := Descriptor(table, d), SlotOf(Descriptor(table, d), k);
            var which := st.slots[i].which;
            DecField(table, d, k, st, wt, s) ==
              if which != 0 && forall j :: 0 <= j < |fields| ==> fields[j].tag != which then Err
              else DecField(table, d, k, st.(slots := st.slots[i := Union(0, Unset)]), wt, s)
  {
    hide DecItem, FindField;
    var f, i := Descriptor(table, d)[k], SlotOf(Descriptor(table, d), k);
    var r := DecItem(table, f, FreshItem(table, f), s);
    if r.Ok? {
      assert st.slots[i := Union(0, Unset)][i := Stored(f, r.v)] == st.slots[i := Stored(f, r.v)];
    }
  }

  /** Entries of no size are not allocated: only a packed record without entries is accepted, to no effect. A
      string or byte array is allocated with its own size. */
  lemma {:induction false} NothingToAllocate(table: Table, d: nat, k: nat, st: LoopState, wt: nat, s: seq<Byte>)
    requires k < |Descriptor(table, d)|
    requires var f := Descriptor(table, d)[k];
             f.atype.Pointer? && f.dataSize == 0 && (f.htype.Repeated? || !(f.ltype.LBytes? || f.ltype.LString?))
    ensures var f, r := Descriptor(table, d)[k], DecField(table, d, k, st, wt, s);
            r.Ok? ==> f.htype.Repeated? && Packable(f.ltype) && wt == 2 && r.v == st && Substream(s) == Ok([], r.rest)
  {
    hide DecItem;
    var i := SlotOf(Descriptor(table, d), k);
    if i < |st.slots| && st.slots[i].Many? { assert st.slots[i := Many(st.slots[i].items)] == st.slots; }
  }

  // ---------------------------------------------------------------- fixed-count arrays

  /** An array of which all entries have arrived, or none. */
  predicate AllOrNone(items: seq<Value>) {
    (forall i :: 0 <= i < |items| ==> items[i] != Unset) || (forall i :: 0 <= i < |items| ==> items[i] == Unset)
  }

  /** The first `count` entries have arrived, and of the others all from earlier records, or none. */
  predicate Partly(items: seq<Value>, count: nat) {
    && count <= |items| && AllOrNone(items[count..])
    && forall i :: 0 <= i < count ==> items[i] != Unset
  }

  /** Every fixed-count array, at any depth of what is present, has arrived whole or not at all. */
  predicate WholeItem(table: Table, f: Field, v: Value)
    decreases v, 3
  {
    f.ltype.LSubmessage? && v.VMsg? ==> WholeStruct(table, f.sub, v.slots)
  }

  predicate WholeSlot(table: Table, f: Field, slot: Slot)
    decreases slot, 1
  {
    match slot
    case One(v) => WholeItem(table, f, v)
    case Opt(_, v) => WholeItem(table, f, v)
    case Many(items) =>
      (FixedCount(f) ==> AllOrNone(items)) && forall i :: 0 <= i < |items| ==> WholeItem(table, f, items[i])
    case Union(which, v) => which == f.tag ==> WholeItem(table, f, v)
    case Ptr(p) => p.Some? ==> WholeItem(table, f, p.value)
  }

  predicate WholeStruct(table: Table, d: nat, slots: seq<Slot>)
    decreases slots, 2
  {
    var fields := Descriptor(table, d);
    forall k :: 0 <= k < |fields| && SlotOf(fields, k) < |slots| ==>
      WholeSlot(table, fields[k], slots[SlotOf(fields, k)])
  }

  /** During the loop only the fixed-count array in progress may be filled in part. */
  predicate WholeField(table: Table, d: nat, k: nat, st: LoopState)
    requires k < |Descriptor(table, d)|
  {
    var f, i := Descriptor(table, d)[k], SlotOf(Descriptor(table, d), k);
    i < |st.slots| ==>
      if st.fixedField == Some(k) then
        && FixedCount(f) && st.slots[i].Many? && Partly(st.slots[i].items, st.fixedCount)
        && forall j :: 0 <= j < |st.slots[i].items| ==> WholeItem(table, f, st.slots[i].items[j])
      else WholeSlot(table, f, st.slots[i])
  }

  predicate WholeState(table: Table, d: nat, st: LoopState) {
    && (st.fixedField.Some? ==> st.fixedField.value < |Descriptor(table, d)|)
    && forall k :: 0 <= k < |Descriptor(table, d)| ==> WholeField(table, d, k, st)
  }

  lemma {:induction false} WholeStart(table: Table, d: nat, slots: seq<Slot>)
    requires WholeStruct(table, d, slots)
    ensures WholeState(table, d, Start(slots))
  {
    hide WholeSlot;
  }

  lemma {:induction false} PartlyFull(items: seq<Value>, count: nat)
    requires Partly(items, count) && count == |items|
    ensures AllOrNone(items)
  {
  }

  lemma {:induction false} PartlyNone(items: seq<Value>)
    requires AllOrNone(items)
    ensures Partly(items, 0)
  {
    assert items[0..] == items;
  }

  lemma {:induction false} PartlyPut(items: seq<Value>, count: nat, v: Value)
    requires Partly(items, count) && count < |items| && v != Unset
    ensures Partly(Put(items, count, v), count + 1)
  {
    assert Put(items, count, v)[count + 1..] == items[count..][1..];
  }

  lemma {:induction false} DefaultsWhole(table: Table, d: nat)
    requires ValidTable(table) && d < |table|
    ensures WholeStruct(table, d, DefaultSlots(table, d))
    decreases d
  {
    hide ValidTable, DefaultSlots;
    forall k | 0 <= k < |table[d]| && SlotOf(table[d], k) < |DefaultSlots(table, d)|
      ensures WholeSlot(table, table[d][k], DefaultSlots(table, d)[SlotOf(table[d], k)])
    {
      ValidAt(table, d, k);
      DefaultSlotAt(table, d, k);
      var f := table[d][k];
      if f.ltype.LSubmessage? && f.atype.Static? { DefaultsWhole(table, f.sub); }
    }
    assert Descriptor(table, d) == table[d];
  }

  lemma {:induction false} FreshWhole(table: Table, d: nat, f: Field)
    requires ValidTable(table) && ValidField(table, d, f)
    ensures WholeItem(table, f, FreshItem(table, f))
  {
    hide ValidTable, DefaultSlots, WholeStruct;
    if f.ltype.LSubmessage? { DefaultsWhole(table, f.sub); }
  }

  lemma {:induction false} ItemWhole(table: Table, d: nat, f: Field, cur: Value, s: seq<Byte>)
    requires ValidTable(table) && DefaultsFit(table) && ValidField(table, d, f)
    requires f.ltype.LSubmessage? ==> ItemFits(table, f, cur, false) && WholeItem(table, f, cur)
    requires DecItem(table, f, cur, s).Ok?
    ensures DecItem(table, f, cur, s).v != Unset && WholeItem(table, f, DecItem(table, f, cur, s).v)
    decreases |s|, 3
  {
    hide ValidTable, DefaultsFit, StructFits, WholeStruct, Noinit, Substream, DefaultSlots, Varint32, Varint64;
    if f.ltype.LSubmessage? {
      var sub := Substream(s);
      var start := if f.htype.Repeated? then DefaultSlots(table, f.sub) else cur.slots;
      DefaultsWhole(table, f.sub);
      DefaultsFitStruct(table, f.sub, false);
      NoinitWhole(table, f.sub, start, sub.v);
    }
  }

  lemma {:induction false} PackedWhole(table: Table, f: Field, items: seq<Value>, count: nat, s: seq<Byte>)
    requires Packable(f.ltype) && f.htype.Repeated? && DecPacked(f, items, count, s).Filled?
    requires FixedCount(f) ==> f.atype.Static? && |items| == f.arraySize && Partly(items, count)
    ensures var r := DecPacked(f, items, count, s); FixedCount(f) ==> Partly(r.items, r.count)
    decreases |s|
  {
    hide Varint32, Varint64, Partly;
    if s != [] {
      var r := DecScalar(f, s);
      if FixedCount(f) { PartlyPut(items, count, r.v); }
      PackedWhole(table, f, Put(items, count, r.v), count + 1, r.rest);
    }
  }

  /** The state once field `k` has stored `items`, of which a fixed-count array has received `count`. */
  lemma {:induction false} CountedWhole(table: Table, d: nat, k: nat, st: LoopState, items: seq<Value>, count: nat)
    requires ValidTable(table) && d < |table| && k < |table[d]| && WholeState(table, d, st)
    requires var f, i := table[d][k], SlotOf(table[d], k);
             && i < |st.slots| && f.htype.Repeated?
             && (FixedCount(f) ==> st.fixedField == Some(k) && Partly(items, count))
             && (forall j :: 0 <= j < |items| ==> WholeItem(table, f, items[j]))
    ensures WholeState(table, d, Counted(table[d][k], SlotOf(table[d], k), st, items, count))
  {
    hide ValidTable, WholeItem, Partly, AllOrNone;
    var fields, i := table[d], SlotOf(table[d], k);
    var st' := Counted(fields[k], i, st, items, count);
    forall j | 0 <= j < |fields| ensures WholeField(table, d, j, st') {
      assert WholeField(table, d, j, st);
      if j < k && SlotOf(fields, j) == i { SharedSlot(fields, j, k); }
      if k < j && SlotOf(fields, j) == i { SharedSlot(fields, k, j); }
      if j == k { assert WholeField(table, d, k, st); }
    }
  }

  lemma {:induction false} PutWhole(table: Table, f: Field, items: seq<Value>, count: nat, v: Value)
    requires WholeItem(table, f, v) && forall j :: 0 <= j < |items| ==> WholeItem(table, f, items[j])
    ensures forall j :: 0 <= j < |Put(items, count, v)| ==> WholeItem(table, f, Put(items, count, v)[j])
  {
    hide WholeItem;
  }

  lemma {:induction false} RepeatedWhole(table: Table, d: nat, k: nat, st: LoopState, wt: nat, s: seq<Byte>)
    requires ValidTable(table) && DefaultsFit(table) && d < |table| && k < |table[d]| && table[d][k].htype.Repeated?
    requires SlotOf(table[d], k) < |st.slots|
    requires StructFits(table, d, st.slots, false) && WholeState(table, d, st)
    requires FixedCount(table[d][k]) ==> st.fixedField == Some(k)
    requires DecRepeated(table, table[d][k], SlotOf(table[d], k), st, wt, s).Ok?
    ensures WholeState(table, d, DecRepeated(table, table[d][k], SlotOf(table[d], k), st, wt, s).v)
    decreases |s|, 4
  {
    hide ValidTable, DefaultsFit, WholeState, Partly, ItemFits, DecItem, Substream, DecPacked, StructFits, Counted,
         WholeItem, AllOrNone;
    var f, i := table[d][k], SlotOf(table[d], k);
    ValidAt(table, d, k);
    FitsAt(table, d, st.slots, k, false);
    ArrayWhole(table, d, k, st);
    var items := st.slots[i].items;
    var count := if FixedCount(f) then st.fixedCount else |items|;
    if wt == WT_STRING && Packable(f.ltype) {
      var sub := Substream(s);
      PackedWhole(table, f, items, count, sub.v);
      var filled := DecPacked(f, items, count, sub.v);
      ScalarsWhole(table, f, filled.items);
      CountedWhole(table, d, k, st, filled.items, filled.count);
    } else {
      FreshWhole(table, d, f);
      if f.ltype.LSubmessage? { FreshFits(table, d, f, false); }
      ItemWhole(table, d, f, FreshItem(table, f), s);
      var v := DecItem(table, f, FreshItem(table, f), s).v;
      PutWhole(table, f, items, count, v);
      if FixedCount(f) { PartlyPut(items, count, v); }
      CountedWhole(table, d, k, st, Put(items, count, v), count + 1);
    }
  }

  lemma {:induction false} ScalarsWhole(table: Table, f: Field, items: seq<Value>)
    requires Packable(f.ltype)
    ensures forall j :: 0 <= j < |items| ==> WholeItem(table, f, items[j])
  {
  }

  lemma {:induction false} ArrayWhole(table: Table, d: nat, k: nat, st: LoopState)
    requires d < |table| && k < |table[d]| && WholeState(table, d, st) && SlotOf(table[d], k) < |st.slots|
    requires st.slots[SlotOf(table[d], k)].Many?
    ensures var items := st.slots[SlotOf(table[d], k)].items;
            && (forall j :: 0 <= j < |items| ==> WholeItem(table, table[d][k], items[j]))
            && (st.fixedField == Some(k) ==> Partly(items, st.fixedCount))
  {
    hide WholeItem, Partly;
    assert WholeField(table, d, k, st);
  }

  lemma {:induction false} SingularWhole(table: Table, d: nat, k: nat, st: LoopState, v: Value)
    requires ValidTable(table) && d < |table| && k < |table[d]| && WholeState(table, d, st)
    requires !table[d][k].htype.Repeated? && SlotOf(table[d], k) < |st.slots| && WholeItem(table, table[d][k], v)
    ensures WholeState(table, d, st.(slots := st.slots[SlotOf(table[d], k) := Stored(table[d][k], v)]))
  {
    hide ValidTable, WholeItem, Partly, AllOrNone;
    var fields, i := table[d], SlotOf(table[d], k);
    var st' := st.(slots := st.slots[i := Stored(fields[k], v)]);
    ValidAt(table, d, k);
    forall j | 0 <= j < |fields| ensures WholeField(table, d, j, st') {
      assert WholeField(table, d, j, st);
      if SlotOf(fields, j) == i && j != k {
        if j < k { SharedSlot(fields, j, k); } else { SharedSlot(fields, k, j); }
        OtherTag(table, d, j, k);
      }
    }
  }

  lemma {:induction false} OtherTag(table: Table, d: nat, j: nat, k: nat)
    requires ValidTable(table) && d < |table| && j < |table[d]| && k < |table[d]| && j != k
    ensures table[d][j].tag != table[d][k].tag
  {
    ValidAt(table, d, k);
    assert DistinctTags(table[d]);
  }

  lemma {:induction false} FieldWhole(table: Table, d: nat, k: nat, st: LoopState, wt: nat, s: seq<Byte>)
    requires ValidTable(table) && DefaultsFit(table) && d < |table| && k < |table[d]|
    requires StructFits(table, d, st.slots, false) && WholeState(table, d, st)
    requires FixedCount(table[d][k]) ==> st.fixedField == Some(k)
    requires DecField(table, d, k, st, wt, s).Ok?
    ensures WholeState(table, d, DecField(table, d, k, st, wt, s).v)
    decreases |s|, 5
  {
    hide ValidTable, DefaultsFit, WholeState, ItemFits, DecItem, DecRepeated, StructFits, WholeItem, AllOrNone, Stored;
    var f, i := table[d][k], SlotOf(table[d], k);
    ValidAt(table, d, k);
    if f.htype.Repeated? {
      RepeatedWhole(table, d, k, st, wt, s);
    } else {
      TargetFits(table, d, st.slots, k, false);
      var cur := Target(table, table[d], f, st.slots[i]).value;
      TargetWhole(table, d, k, st);
      ItemWhole(table, d, f, cur, s);
      SingularWhole(table, d, k, st, DecItem(table, f, cur, s).v);
    }
  }

  lemma {:induction false} TargetWhole(table: Table, d: nat, k: nat, st: LoopState)
    requires ValidTable(table) && d < |table| && k < |table[d]| && WholeState(table, d, st)
    requires !table[d][k].htype.Repeated? && SlotOf(table[d], k) < |st.slots|
    ensures var cur := Target(table, table[d], table[d][k], st.slots[SlotOf(table[d], k)]);
            cur.Some? ==> WholeItem(table, table[d][k], cur.value)
  {
    hide ValidTable, WholeItem, Partly, AllOrNone, FreshItem;
    ValidAt(table, d, k);
    assert WholeField(table, d, k, st);
    FreshWhole(table, d, table[d][k]);
  }

  /** Starting another fixed-count field is only allowed once the one in progress is full. */
  lemma {:induction false} EnterWhole(table: Table, d: nat, k: nat, st: LoopState)
    requires ValidTable(table) && d < |table| && k < |table[d]| && Enter(table[d], k, st).Some?
    requires StructFits(table, d, st.slots, false) && WholeState(table, d, st)
    ensures var st' := Enter(table[d], k, st).value;
            && WholeState(table, d, st') && st'.slots == st.slots
            && (FixedCount(table[d][k]) ==> st'.fixedField == Some(k))
  {
    hide ValidTable, WholeItem, Partly, AllOrNone, StructFits, ItemFits;
    var fields, st' := table[d], Enter(table[d], k, st).value;
    if st'.fixedField != st.fixedField {
      if st.fixedField.Some? { InProgressWhole(table, d, st); }
      forall j | 0 <= j < |fields| ensures WholeField(table, d, j, st') {
        assert WholeField(table, d, j, st);
        if j == k {
          FitsAt(table, d, st.slots, k, false);
          PartlyNone(st.slots[SlotOf(fields, k)].items);
        }
      }
    } else {
      forall j | 0 <= j < |fields| ensures WholeField(table, d, j, st') { assert WholeField(table, d, j, st); }
    }
  }

  lemma {:induction false} InProgressWhole(table: Table, d: nat, st: LoopState)
    requires ValidTable(table) && d < |table| && StructFits(table, d, st.slots, false) && WholeState(table, d, st)
    requires st.fixedField.Some? && FixedComplete(table[d], st)
    ensures st.fixedField.value < |table[d]|
    ensures var k := st.fixedField.value;
            SlotOf(table[d], k) < |st.slots| && WholeSlot(table, table[d][k], st.slots[SlotOf(table[d], k)])
  {
    hide ValidTable, WholeItem, Partly, AllOrNone, StructFits, ItemFits;
    var k := st.fixedField.value;
    assert WholeField(table, d, k, st);
    FitsAt(table, d, st.slots, k, false);
    PartlyFull(st.slots[SlotOf(table[d], k)].items, st.fixedCount);
  }

  lemma {:induction false} LoopWhole(table: Table, d: nat, st: LoopState, s: seq<Byte>)
    requires ValidTable(table) && DefaultsFit(table) && d < |table|
    requires StructFits(table, d, st.slots, false) && WholeState(table, d, st)
    ensures var r := Loop(table, d, st, s); !r.Failed? ==> WholeState(table, d, r.st)
    decreases |s|, 1
  {
    hide ValidTable, DefaultsFit, WholeState, StructFits, DecField, Enter, Varint32, Skip;
    if s != [] {
      var key := Varint32(s);
      if key.Ok? && key.v != 0 {
        var found := FindField(table[d], key.v / 8);
        if found.Some? {
          var entered := Enter(table[d], found.value, st);
          if entered.Some? {
            EnterWhole(table, d, found.value, st);
            var r := DecField(table, d, found.value, entered.value, key.v % 8, key.rest);
            if r.Ok? {
              FieldWhole(table, d, found.value, entered.value, key.v % 8, key.rest);
              FieldKeepsBounds(table, d, found.value, entered.value, key.v % 8, key.rest, false);
            }
          }
        }
      }
      var r := Step(table, d, st, s);
      if r.Next? { LoopWhole(table, d, r.st, r.rest); }
    }
  }

  lemma {:induction false} FinishedWhole(table: Table, d: nat, st: LoopState)
    requires ValidTable(table) && d < |table| && StructFits(table, d, st.slots, false) && WholeState(table, d, st)
    requires FixedComplete(table[d], st)
    ensures WholeStruct(table, d, st.slots)
  {
    hide ValidTable, WholeSlot, WholeItem, StructFits, Partly;
    var fields := Descriptor(table, d);
    if st.fixedField.Some? { InProgressWhole(table, d, st); }
    forall k | 0 <= k < |fields| && SlotOf(fields, k) < |st.slots|
      ensures WholeSlot(table, fields[k], st.slots[SlotOf(fields, k)])
    {
      assert WholeField(table, d, k, st);
    }
  }

  /** Decoding into a structure whose fixed-count arrays are all full or empty leaves such a structure. */
  lemma {:induction false} NoinitWhole(table: Table, d: nat, slots: seq<Slot>, s: seq<Byte>)
    requires ValidTable(table) && DefaultsFit(table) && d < |table|
    requires StructFits(table, d, slots, false) && WholeStruct(table, d, slots)
    ensures var r := Noinit(table, d, slots, s); r.Ok? ==> WholeStruct(table, d, r.v)
    decreases |s|, 2
  {
    hide ValidTable, DefaultsFit, WholeState, WholeStruct, StructFits, Loop, RequiredSeen, FixedComplete;
    WholeStart(table, d, slots);
    LoopWhole(table, d, Start(slots), s);
    LoopKeepsBounds(table, d, Start(slots), s, false);
    var run := Loop(table, d, Start(slots), s);
    if Noinit(table, d, slots, s).Ok? { FinishedWhole(table, d, run.st); }
  }

  /** A successful pb_decode has received all entries of every fixed-count array of which it received any,
      at every depth of the message. */
  lemma {:induction false} DecodeWhole(table: Table, d: nat, s: seq<Byte>)
    requires ValidTable(table) && DefaultsFit(table) && d < |table| && Decode(table, d, s).Ok?
    ensures Decode(table, d, s).v.VMsg? && WholeStruct(table, d, Decode(table, d, s).v.slots)
  {
    hide ValidTable, DefaultsFit, WholeStruct, StructFits, Noinit, DefaultSlots;
    DefaultsWhole(table, d);
    DefaultsFitStruct(table, d, false);
    NoinitWhole(table, d, DefaultSlots(table, d), s);
  }
}
