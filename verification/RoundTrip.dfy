/** pb_decode undoes pb_encode on every message in normal form. */
module RoundTrip {
  import opened Options
  import opened Bits
  import opened Wire
  import opened Schema
  import opened EncodeSpec
  import opened DecodeSpec
  import opened Records

  // ---------------------------------------------------------------- normal form

  /** A value that a decoder could have left in the field: integers in range, strings without NUL
      that leave room for the terminator, byte arrays within their buffer. */
  predicate NormalItem(table: Table, f: Field, v: Value)
    decreases v, 3
  {
    match f.ltype
    case LBool => v.VBool?
    case LVarint | LSVarint => v.VInt? && FitsSigned(f.dataSize, v.n)
    case LUVarint => v.VInt? && FitsUnsigned(f.dataSize, v.n)
    case LFixed32 => v.VInt? && FitsUnsigned(4, v.n)
    case LFixed64 => v.VInt? && FitsUnsigned(8, v.n)
    case LBytes => v.VBytes? && BlobFits(f, |v.bs|)
    case LString => v.VBytes? && 0 !in v.bs && BlobFits(f, |v.bs|)
    case LFixedLengthBytes => v.VBytes? && |v.bs| == f.dataSize
    case LSubmessage => NormalMessage(table, f.sub, v)
  }

  predicate NormalSlot(table: Table, d: nat, f: Field, slot: Slot)
    decreases slot, 1
  {
    match slot
    case One(v) =>
      && f.atype.Static? && (f.htype.Required? || (f.htype.Optional? && f.sizeOffset == 0))
      && NormalItem(table, f, v)
    case Opt(has, v) =>
      && f.atype.Static? && f.htype.Optional? && f.sizeOffset != 0
      && (if has then NormalItem(table, f, v) else v == DefaultValue(table, d, f))
    case Many(items) =>
      && f.htype.Repeated?
      && (if FixedCount(f) then |items| == f.arraySize else |items| <= Capacity(f))
      && forall i :: 0 <= i < |items| ==> NormalItem(table, f, items[i])
    case Union(which, v) =>
      && f.atype.Static? && f.htype.OneOf?
      && (which == 0 ==> v == Unset)
      && (which == f.tag ==> NormalItem(table, f, v))
    case Ptr(p) =>
      && f.atype.Pointer? && (f.htype.Required? || f.htype.Optional?)
      && (f.htype.Required? ==> p.Some?)
      && (p.Some? ==> NormalItem(table, f, p.value))
  }

  predicate NormalMessage(table: Table, d: nat, m: Value)
    decreases m, 2
  {
    var fields := Descriptor(table, d);
    && m.VMsg? && |m.slots| == SlotCount(fields)
    && forall k :: 0 <= k < |fields| ==>
         && SlotOf(fields, k) < |m.slots|
         && NormalSlot(table, d, fields[k], m.slots[SlotOf(fields, k)])
         && UnionMember(fields, k, m.slots[SlotOf(fields, k)])
  }

  lemma {:induction false} NormalField(table: Table, d: nat, m: Value, k: nat)
    requires k < |Descriptor(table, d)| && NormalMessage(table, d, m)
    ensures m.VMsg? && SlotOf(Descriptor(table, d), k) < |m.slots|
    ensures var slot := m.slots[SlotOf(Descriptor(table, d), k)];
            NormalSlot(table, d, Descriptor(table, d)[k], slot) && UnionMember(Descriptor(table, d), k, slot)
  {
  }

  lemma {:induction false} NormalAt(table: Table, d: nat, m: Value, k: nat)
    requires d < |table| && k < |table[d]| && NormalMessage(table, d, m)
    ensures m.VMsg? && |m.slots| == SlotCount(table[d]) && SlotOf(table[d], k) < |m.slots|
    ensures NormalSlot(table, d, table[d][k], m.slots[SlotOf(table[d], k)])
    ensures UnionMember(table[d], k, m.slots[SlotOf(table[d], k)])
  {
  }

  /** The length prefixes that a field's encoding contains fit the 32-bit length decoder. */
  predicate LengthsFit(table: Table, f: Field, slot: Slot) {
    && (forall v | v in Emitted(table, f, slot) :: BodyFits(table, f, v))
    && (slot.Many? && Packable(f.ltype) ==>
          var payload := EncItems(table, f, slot, 0, false);
          payload.Some? ==> |payload.value| < TWO_32)
  }

  predicate BodyFits(table: Table, f: Field, v: Value) {
    EncBody(table, f, v).Some? ==> |EncBody(table, f, v).value| < TWO_32
  }

  /** The items of a slot that the encoder writes for field `f`. */
  function Emitted(table: Table, f: Field, slot: Slot): seq<Value> {
    match slot
    case One(v) => if f.htype.Optional? && Proto3Default(table, f, slot) then [] else [v]
    case Opt(has, v) => if has then [v] else []
    case Many(items) => items
    case Union(which, v) => if which == f.tag then [v] else []
    case Ptr(p) => if p.Some? then [p.value] else []
  }

  predicate AllLengthsFit(table: Table, d: nat, m: Value)
    requires m.VMsg?
  {
    var fields := Descriptor(table, d);
    forall k :: 0 <= k < |fields| && SlotOf(fields, k) < |m.slots| ==>
      LengthsFit(table, fields[k], m.slots[SlotOf(fields, k)])
  }

  // ---------------------------------------------------------------- scalars

  /** Signed, unsigned and ZigZag integers of data size 1, 2, 4 and 8, fixed-width integers and bools
      all survive, with no false "integer too large", and leave what follows unread. */
  lemma {:induction false} ScalarRoundTrip(f: Field, v: Value, table: Table, t: seq<Byte>)
    requires Packable(f.ltype) && NormalItem(table, f, v)
    requires f.ltype.LVarint? || f.ltype.LUVarint? || f.ltype.LSVarint? ==> IsWidth(f.dataSize)
    ensures EncScalar(f, v).Some? && EncScalar(f, v).value != []
    ensures DecScalar(f, EncScalar(f, v).value + t) == Ok(v, t)
  {
    match f.ltype
    case LBool => Varint32RoundTrip(if v.b then 1 else 0, t);
    case LVarint =>
      VarintRoundTrip(U64(v.n), t);
      WidthCast(f.dataSize, v.n);
    case LUVarint =>
      UnsignedExact(f.dataSize, v.n);
      VarintRoundTrip(v.n, t);
    case LSVarint =>
      FitsWider(f.dataSize, v.n);
      ZigZagRoundTrip(v.n);
      VarintRoundTrip(ZigZag(v.n), t);
      SignedExact(f.dataSize, 8, v.n);
    case LFixed32 => SmallU32(v.n); FixedRoundTrip(v.n, 4, t);
    case LFixed64 => UnsignedExact(8, v.n); FixedRoundTrip(v.n, 8, t);
  }

  lemma {:induction false} UnsignedExact(size: nat, n: int)
    requires IsWidth(size) && FitsUnsigned(size, n)
    ensures Unsigned(size, n) == n && U64(n) == n && n < TWO_64
  {
    SmallMod(n, 0x1_0000_0000_0000_0000);
    SmallMod(n, Modulus(size));
  }

  lemma {:induction false} FitsWider(size: nat, n: int)
    requires IsWidth(size) && FitsSigned(size, n)
    ensures FitsSigned(8, n)
  {
  }

  /** The detour over int32_t that pb_dec_varint takes for fields of at most 32 bits is harmless. */
  lemma {:induction false} WidthCast(size: nat, n: int)
    requires IsWidth(size) && FitsSigned(size, n)
    ensures Signed(if size == 8 then 8 else 4, U64(n)) == n && Signed(size, n) == n
  {
    SignedExact(size, 8, n);
    if size != 8 {
      assert FitsSigned(4, n);
      SignedExact(4, 8, n);
    }
  }

  // ---------------------------------------------------------------- blobs

  lemma {:induction false} StrLenWhole(bs: seq<Byte>, max: nat)
    requires 0 !in bs && |bs| <= max
    ensures StrLen(bs, max) == |bs|
  {
    if bs != [] {
      assert bs[0] in bs;
      StrLenWhole(bs[1..], max - 1);
    }
  }

  lemma {:induction false} BlobRoundTrip(f: Field, v: Value, table: Table, t: seq<Byte>)
    requires f.ltype.LBytes? || f.ltype.LString? || f.ltype.LFixedLengthBytes?
    requires NormalItem(table, f, v) && f.dataSize <= PB_SIZE_MAX
    ensures EncBody(table, f, v) == Some(v.bs)
    ensures DecBlob(f, Delimited(v.bs) + t) == Ok(v, t)
  {
    if f.ltype.LString? {
      StrLenWhole(v.bs, if f.atype.Pointer? then |v.bs| else f.dataSize);
      assert v.bs[..|v.bs|] == v.bs;
    }
    DelimitedRoundTrip(v.bs, t);
    assert Take(v.bs + t, |v.bs|) == Ok(v.bs, t) by {
      assert (v.bs + t)[..|v.bs|] == v.bs && (v.bs + t)[|v.bs|..] == t;
    }
    if f.ltype.LFixedLengthBytes? && |v.bs| == 0 {
      assert v.bs == Zeros(f.dataSize) && v.bs + t == t;
    }
  }

  /** A string that fills its buffer can be encoded but the decoder has no room for its terminator:
      a static string round-trips exactly when it is NUL-terminated inside data_size. */
  lemma {:induction false} FullStringRejected(f: Field, bs: seq<Byte>, table: Table, t: seq<Byte>)
    requires f.ltype.LString? && f.atype.Static? && f.dataSize <= PB_SIZE_MAX
    requires 0 !in bs && |bs| <= f.dataSize
    ensures EncBody(table, f, VBytes(bs)) == Some(bs)
    ensures DecBlob(f, Delimited(bs) + t) == Ok(VBytes(bs), t) <==> |bs| < f.dataSize
    ensures DecBlob(f, Delimited(bs) + t).Err? <==> |bs| == f.dataSize
  {
    StrLenWhole(bs, f.dataSize);
    assert bs[..|bs|] == bs;
    if |bs| < f.dataSize {
      BlobRoundTrip(f, VBytes(bs), table, t);
    } else {
      DelimitedRoundTrip(bs, t);
    }
  }

  // ---------------------------------------------------------------- records

  /** The loop's round on a record of a known field that decodes. */
  lemma {:induction false} KnownRecord(table: Table, d: nat, k: nat, wt: nat, p: seq<Byte>,
                    st: LoopState, entered: LoopState, st': LoopState, t: seq<Byte>)
    requires d < |table| && ValidDescriptor(table, d) && k < |table[d]| && wt < 8
    requires Enter(table[d], k, st) == Some(entered)
    requires DecField(table, d, k, entered, wt, p + t) == Ok(st', t)
    ensures Loop(table, d, st, Key(table[d][k].tag, wt) + p + t) == Loop(table, d, st', t)
  {
    hide Enter, DecField, Key, Loop;
    KnownRound(table, d, k, wt, st, p + t);
    assert Key(table[d][k].tag, wt) + p + t == Key(table[d][k].tag, wt) + (p + t);
  }

  /** The state after the records of fields 0..k-1 have been decoded. */
  function After(table: Table, d: nat, m: Value, k: nat): (st: LoopState)
    requires m.VMsg? && k <= |Descriptor(table, d)| && |m.slots| == SlotCount(Descriptor(table, d))
    ensures |st.slots| == |m.slots|
  {
    var fields := Descriptor(table, d);
    if k == 0 then Start(DefaultSlots(table, d))
    else
      SlotOfMonotone(fields, k - 1, k - 1);
      Mark(fields, m, k - 1, After(table, d, m, k - 1))
  }

  /** The effect of field `k`'s records on the loop state. */
  function Mark(fields: Fields, m: Value, k: nat, st: LoopState): (r: LoopState)
    requires k < |fields| && m.VMsg? && SlotOf(fields, k) < |m.slots| == |st.slots|
    ensures |r.slots| == |m.slots|
  {
    var f, i := fields[k], SlotOf(fields, k);
    var slot := m.slots[i];
    var slots := if slot.Union? && slot.which != f.tag then st.slots else st.slots[i := slot];
    var seen := if f.htype.Required? then st.seen + {k} else st.seen;
    if FixedCount(f) && f.arraySize > 0 then LoopState(slots, seen, Some(k), f.arraySize)
    else LoopState(slots, seen, st.fixedField, st.fixedCount)
  }

  /** Slots that come after field `k-1` are still at their default. */
  lemma {:induction false} AfterUntouched(table: Table, d: nat, m: Value, k: nat, i: nat)
    requires m.VMsg? && k <= |Descriptor(table, d)| && |m.slots| == SlotCount(Descriptor(table, d))
    requires i < |m.slots| && (k > 0 ==> SlotOf(Descriptor(table, d), k - 1) < i)
    ensures After(table, d, m, k).slots[i] == DefaultSlots(table, d)[i]
  {
    if k > 0 {
      if k > 1 { SlotStep(Descriptor(table, d), k - 2, k - 1); }
      AfterUntouched(table, d, m, k - 1, i);
    }
  }

  /** Every slot holds either its default or its final contents. */
  lemma {:induction false} AfterEither(table: Table, d: nat, m: Value, k: nat, i: nat)
    requires m.VMsg? && k <= |Descriptor(table, d)| && |m.slots| == SlotCount(Descriptor(table, d))
    requires i < |m.slots|
    ensures After(table, d, m, k).slots[i] in {DefaultSlots(table, d)[i], m.slots[i]}
  {
    if k > 0 { AfterEither(table, d, m, k - 1, i); }
  }

  /** Once the field that owns a slot's contents has been decoded, the slot is final. */
  lemma {:induction false} AfterOwned(table: Table, d: nat, m: Value, k: nat, j: nat)
    requires m.VMsg? && k <= |Descriptor(table, d)| && |m.slots| == SlotCount(Descriptor(table, d))
    requires j < k
    requires var i := SlotOf(Descriptor(table, d), j);
             i < |m.slots| && (m.slots[i].Union? ==> m.slots[i].which == Descriptor(table, d)[j].tag)
    ensures var i := SlotOf(Descriptor(table, d), j); After(table, d, m, k).slots[i] == m.slots[i]
  {
    if j < k - 1 { AfterOwned(table, d, m, k - 1, j); }
  }

  /** Bookkeeping part of the state: the required fields seen, and no fixed-count field left partial. */
  lemma {:induction false} AfterBookkeeping(table: Table, d: nat, m: Value, k: nat)
    requires m.VMsg? && k <= |Descriptor(table, d)| && |m.slots| == SlotCount(Descriptor(table, d))
    ensures var st := After(table, d, m, k);
            && FixedComplete(Descriptor(table, d), st)
            && (st.fixedField.Some? ==> st.fixedField.value < k)
            && forall j :: 0 <= j < k && Descriptor(table, d)[j].htype.Required? ==> j in st.seen
  {
    if k > 0 { AfterBookkeeping(table, d, m, k - 1); }
  }

  /** Every slot belongs to some field. */
  lemma {:induction false} SlotOwner(fields: Fields, n: nat, i: nat) returns (k: nat)
    requires n < |fields| && i <= SlotOf(fields, n)
    ensures k <= n && SlotOf(fields, k) == i
    decreases n
  {
    if i == SlotOf(fields, n) { k := n; } else { k := SlotOwner(fields, n - 1, i); }
  }

  /** The contents of an unset oneof are those it has by default. */
  lemma {:induction false} FinalUnset(table: Table, d: nat, m: Value, k: nat)
    requires NormalMessage(table, d, m) && k < |Descriptor(table, d)|
    requires m.VMsg? && |m.slots| == SlotCount(Descriptor(table, d)) && SlotOf(Descriptor(table, d), k) < |m.slots|
    requires var slot := m.slots[SlotOf(Descriptor(table, d), k)]; slot.Union? && slot.which == 0
    ensures var i := SlotOf(Descriptor(table, d), k);
            After(table, d, m, |Descriptor(table, d)|).slots[i] == m.slots[i]
  {
    hide NormalMessage, After, DefaultSlots;
    NormalField(table, d, m, k);
    DefaultSlotAt(table, d, k);
    AfterEither(table, d, m, |Descriptor(table, d)|, SlotOf(Descriptor(table, d), k));
  }

  /** After the last field every slot is final. */
  lemma {:induction false} FinalSlot(table: Table, d: nat, m: Value, i: nat)
    requires NormalMessage(table, d, m) && m.VMsg? && |m.slots| == SlotCount(Descriptor(table, d)) && i < |m.slots|
    ensures After(table, d, m, |Descriptor(table, d)|).slots[i] == m.slots[i]
  {
    hide NormalMessage, NormalSlot, After, DefaultSlots;
    var fields := Descriptor(table, d);
    var slot := m.slots[i];
    var k := SlotOwner(fields, |fields| - 1, i);
    if slot.Union? && slot.which == 0 {
      FinalUnset(table, d, m, k);
    } else if slot.Union? {
      NormalField(table, d, m, k);
      var j :| 0 <= j < |fields| && SlotOf(fields, j) == SlotOf(fields, k) && fields[j].tag == slot.which;
      AfterOwned(table, d, m, |fields|, j);
    } else {
      AfterOwned(table, d, m, |fields|, k);
    }
  }

  /** After the last field the state is the message itself. */
  lemma {:induction false} AfterAll(table: Table, d: nat, m: Value)
    requires NormalMessage(table, d, m)
    ensures After(table, d, m, |Descriptor(table, d)|).slots == m.slots
    ensures Complete(Descriptor(table, d), After(table, d, m, |Descriptor(table, d)|))
  {
    hide NormalMessage, After;
    NormalIsMsg(table, d, m);
    AfterBookkeeping(table, d, m, |Descriptor(table, d)|);
    forall i | 0 <= i < |m.slots|
      ensures After(table, d, m, |Descriptor(table, d)|).slots[i] == m.slots[i]
    {
      FinalSlot(table, d, m, i);
    }
  }

  // ---------------------------------------------------------------- encoding succeeds

  lemma {:induction false} EncodableItem(table: Table, d: nat, f: Field, v: Value)
    requires ValidTable(table) && ValidField(table, d, f) && NormalItem(table, f, v)
    ensures EncItem(table, f, v).Some?
    ensures !Packable(f.ltype) ==> EncBody(table, f, v).Some?
    decreases v, 2
  {
    if Packable(f.ltype) {
      ScalarRoundTrip(f, v, table, []);
    } else if f.ltype.LSubmessage? {
      EncodableFields(table, f.sub, v, 0);
      assert EncMessage(table, f.sub, v) == EncFields(table, table[f.sub], v, 0);
    }
  }

  lemma {:induction false} EncodableItems(table: Table, d: nat, f: Field, slot: Slot, i: nat, keyed: bool)
    requires ValidTable(table) && ValidField(table, d, f) && NormalSlot(table, d, f, slot)
    requires slot.Many? && i <= |slot.items|
    ensures EncItems(table, f, slot, i, keyed).Some?
    decreases slot, 1, |slot.items| - i
  {
    if i < |slot.items| {
      EncodableItem(table, d, f, slot.items[i]);
      EncodableItems(table, d, f, slot, i + 1, keyed);
    }
  }

  lemma {:induction false} EncodableSlot(table: Table, d: nat, f: Field, slot: Slot)
    requires ValidTable(table) && ValidField(table, d, f) && NormalSlot(table, d, f, slot)
    ensures EncField(table, f, slot).Some?
    decreases slot, 2, 0
  {
    match slot
    case One(v) => EncodableItem(table, d, f, v);
    case Opt(has, v) => if has { EncodableItem(table, d, f, v); }
    case Many(items) =>
      EncodableItems(table, d, f, slot, 0, false);
      EncodableItems(table, d, f, slot, 0, true);
    case Union(which, v) => if which == f.tag { EncodableItem(table, d, f, v); }
    case Ptr(p) => if p.Some? { EncodableItem(table, d, f, p.value); }
  }

  lemma {:induction false} EncodableFields(table: Table, d: nat, m: Value, k: nat)
    requires ValidTable(table) && d < |table| && NormalMessage(table, d, m) && k <= |table[d]|
    ensures EncFields(table, table[d], m, k).Some?
    decreases m, 1, |table[d]| - k
  {
    hide NormalMessage, NormalSlot;
    if k < |table[d]| {
      ValidAt(table, d, k);
      NormalAt(table, d, m, k);
      EncodableSlot(table, d, table[d][k], m.slots[SlotOf(table[d], k)]);
      EncodableFields(table, d, m, k + 1);
    }
  }

  lemma {:induction false} EncodableMessage(table: Table, d: nat, m: Value)
    requires ValidTable(table) && d < |table| && NormalMessage(table, d, m)
    ensures EncMessage(table, d, m).Some?
  {
    hide NormalMessage, ValidTable, EncFields;
    EncodableFields(table, d, m, 0);
  }

  // ---------------------------------------------------------------- nested lengths

  lemma {:induction false} ItemBoundsBody(table: Table, f: Field, v: Value)
    requires EncItem(table, f, v).Some? && |EncItem(table, f, v).value| < TWO_32
    ensures BodyFits(table, f, v)
  {
  }

  /** Everything inside a field is no longer than the field. */
  lemma {:induction false} FieldBoundsItems(table: Table, f: Field, slot: Slot)
    requires EncField(table, f, slot).Some? && |EncField(table, f, slot).value| < TWO_32
    ensures LengthsFit(table, f, slot)
  {
    forall v | v in Emitted(table, f, slot) ensures BodyFits(table, f, v) {
      if slot.Many? {
        var i :| 0 <= i < |slot.items| && slot.items[i] == v;
        if !Packable(f.ltype) {
          ItemsBoundItem(table, f, slot, 0, i, true);
          ItemBoundsBody(table, f, v);
        }
      } else {
        assert EncField(table, f, slot) == Keyed(table, f, v);
        ItemBoundsBody(table, f, v);
      }
    }
  }

  lemma {:induction false} ItemsBoundItem(table: Table, f: Field, slot: Slot, i: nat, j: nat, keyed: bool)
    requires slot.Many? && i <= j < |slot.items| && EncItems(table, f, slot, i, keyed).Some?
    ensures EncItem(table, f, slot.items[j]).Some?
    ensures |EncItem(table, f, slot.items[j]).value| <= |EncItems(table, f, slot, i, keyed).value|
    decreases j - i
  {
    if i < j { ItemsBoundItem(table, f, slot, i + 1, j, keyed); }
  }

  lemma {:induction false} FieldsBoundField(table: Table, fields: Fields, m: Value, i: nat, k: nat)
    requires i <= k < |fields| && EncFields(table, fields, m, i).Some?
    ensures m.VMsg? && SlotOf(fields, k) < |m.slots|
    ensures EncField(table, fields[k], m.slots[SlotOf(fields, k)]).Some?
    ensures |EncField(table, fields[k], m.slots[SlotOf(fields, k)]).value| <= |EncFields(table, fields, m, i).value|
    decreases k - i
  {
    if i < k { FieldsBoundField(table, fields, m, i + 1, k); }
  }

  lemma {:induction false} NestedLengths(table: Table, d: nat, m: Value)
    requires d < |table| && m.VMsg?
    requires EncMessage(table, d, m).Some? && |EncMessage(table, d, m).value| < TWO_32
    ensures AllLengthsFit(table, d, m)
  {
    var fields := table[d];
    forall k | 0 <= k < |fields| && SlotOf(fields, k) < |m.slots|
      ensures LengthsFit(table, fields[k], m.slots[SlotOf(fields, k)])
    {
      FieldsBoundField(table, fields, m, 0, k);
      FieldBoundsItems(table, fields[k], m.slots[SlotOf(fields, k)]);
    }
  }

  // ---------------------------------------------------------------- arrays

  /** Contents of an array while its first `i` items have been received. */
  function Fill(f: Field, items: seq<Value>, i: nat): (r: seq<Value>)
    requires i <= |items|
    ensures |r| == if FixedCount(f) then |items| else i
    ensures i == |items| ==> r == items
  {
    items[..i] + (if FixedCount(f) then seq(|items| - i, _ => Unset) else [])
  }

  lemma {:induction false} FillStep(f: Field, items: seq<Value>, i: nat)
    requires i < |items|
    ensures Put(Fill(f, items, i), i, items[i]) == Fill(f, items, i + 1)
  {
    assert items[..i + 1] == items[..i] + [items[i]];
  }

  /** A packed payload fills the array with the items it was made from. */
  lemma {:induction false} PackedItems(table: Table, d: nat, f: Field, slot: Slot, i: nat)
    requires ValidField(table, d, f) && NormalSlot(table, d, f, slot) && Packable(f.ltype)
    requires slot.Many? && i <= |slot.items|
    ensures EncItems(table, f, slot, i, false).Some?
    ensures DecPacked(f, Fill(f, slot.items, i), i, EncItems(table, f, slot, i, false).value)
         == Filled(slot.items, |slot.items|)
    decreases |slot.items| - i
  {
    if i < |slot.items| {
      PackedItems(table, d, f, slot, i + 1);
      var rest := EncItems(table, f, slot, i + 1, false).value;
      ScalarRoundTrip(f, slot.items[i], table, rest);
      FillStep(f, slot.items, i);
      assert i < Capacity(f);
    }
  }

  /** The loop state while field `k`, a repeated field in slot `j`, has received `i` items. */
  function Filling(f: Field, k: nat, j: nat, items: seq<Value>, i: nat, st: LoopState): LoopState
    requires i <= |items| && j < |st.slots|
  {
    var st' := st.(slots := st.slots[j := Many(Fill(f, items, i))]);
    if FixedCount(f) then st'.(fixedField := Some(k), fixedCount := i) else st'
  }

  /** The bookkeeping lets every record of a repeated field in. */
  lemma {:induction false} EnterFilling(table: Table, d: nat, m: Value, k: nat, i: nat)
    requires ValidTable(table) && d < |table| && k < |table[d]| && NormalMessage(table, d, m)
    requires SlotOf(table[d], k) < |m.slots| && m.slots[SlotOf(table[d], k)].Many?
    requires i <= |m.slots[SlotOf(table[d], k)].items|
    ensures var f, j, st := table[d][k], SlotOf(table[d], k), After(table, d, m, k);
            var items := m.slots[j].items;
            && Enter(table[d], k, Filling(f, k, j, items, i, st)) == Some(Filling(f, k, j, items, i, st))
            && Enter(table[d], k, st) == Some(Filling(f, k, j, items, 0, st))
            && Filling(f, k, j, items, |items|, st) == if items == [] then Filling(f, k, j, items, 0, st)
                                                       else After(table, d, m, k + 1)
  {
    hide NormalMessage, NormalItem, ValidTable, DefaultSlots;
    NormalAt(table, d, m, k);
    var f, j, st := table[d][k], SlotOf(table[d], k), After(table, d, m, k);
    AfterBookkeeping(table, d, m, k);
    if k > 0 { NotShared(table[d], k); }
    AfterUntouched(table, d, m, k, j);
    DefaultSlotAt(table, d, k);
    assert st.slots[j] == Many(Fill(f, m.slots[j].items, 0));
    assert st.slots[j := st.slots[j]] == st.slots;
  }

  lemma {:induction false} NotShared(fields: Fields, k: nat)
    requires 0 < k < |fields| && !fields[k].htype.OneOf?
    ensures SlotOf(fields, k - 1) < SlotOf(fields, k)
  {
  }

  // ---------------------------------------------------------------- omitted fields

  /** A proto3 singular field that the encoder leaves out holds exactly its default. */
  lemma {:induction false} Proto3SlotIsDefault(table: Table, d: nat, f: Field, slot: Slot)
    requires ValidTable(table) && ValidField(table, d, f) && NormalSlot(table, d, f, slot)
    requires Proto3Default(table, f, slot)
    ensures slot == DefaultSlot(table, d, f)
    decreases slot
  {
    if slot.One? && f.ltype.LSubmessage? {
      var v, fields := slot.v, table[f.sub];
      assert NormalMessage(table, f.sub, v);
      forall i | 0 <= i < |v.slots| ensures v.slots[i] == DefaultSlots(table, f.sub)[i] {
        var k := SlotOwner(fields, |fields| - 1, i);
        Proto3FieldAt(table, fields, v, 0, k);
        ValidAt(table, f.sub, k);
        NormalAt(table, f.sub, v, k);
        Proto3SlotIsDefault(table, f.sub, fields[k], v.slots[i]);
        DefaultSlotAt(table, f.sub, k);
      }
      assert v.slots == DefaultSlots(table, f.sub);
    } else if slot.One? && f.ltype.LFixedLengthBytes? {
      assert slot.v.bs == Zeros(0);
    }
  }

  lemma {:induction false} Proto3FieldAt(table: Table, fields: Fields, m: Value, i: nat, k: nat)
    requires i <= k < |fields| && Proto3DefaultFields(table, fields, m, i)
    ensures m.VMsg? && SlotOf(fields, k) < |m.slots|
    ensures Proto3Default(table, fields[k], m.slots[SlotOf(fields, k)])
    decreases k - i
  {
    if i < k { Proto3FieldAt(table, fields, m, i + 1, k); }
  }

  /** A field without any record leaves the loop state as it is. */
  lemma {:induction false} OmittedField(table: Table, d: nat, m: Value, k: nat)
    requires ValidTable(table) && d < |table| && k < |table[d]| && NormalMessage(table, d, m)
    requires SlotOf(table[d], k) < |m.slots|
    requires Emitted(table, table[d][k], m.slots[SlotOf(table[d], k)]) == []
    ensures EncField(table, table[d][k], m.slots[SlotOf(table[d], k)]) == Some([])
    ensures After(table, d, m, k + 1) == After(table, d, m, k)
  {
    hide NormalMessage, NormalItem, Proto3Default;
    NormalAt(table, d, m, k);
    ValidAt(table, d, k);
    var f, j := table[d][k], SlotOf(table[d], k);
    var slot, st := m.slots[j], After(table, d, m, k);
    if !slot.Union? {
      if k > 0 { NotShared(table[d], k); }
      AfterUntouched(table, d, m, k, j);
      DefaultSlotAt(table, d, k);
      if slot.One? { Proto3SlotIsDefault(table, d, f, slot); }
      assert slot == st.slots[j];
      assert st.slots[j := st.slots[j]] == st.slots;
    }
  }

  // ---------------------------------------------------------------- single fields

  /** The storage that a singular field is decoded into holds defaults when a submessage is merged
      into it. */
  lemma {:induction false} TargetIsFresh(table: Table, d: nat, m: Value, k: nat) returns (cur: Value)
    requires ValidTable(table) && d < |table| && k < |table[d]| && NormalMessage(table, d, m)
    requires SlotOf(table[d], k) < |m.slots| && !m.slots[SlotOf(table[d], k)].Many?
    requires Emitted(table, table[d][k], m.slots[SlotOf(table[d], k)]) != []
    ensures Target(table, table[d], table[d][k], After(table, d, m, k).slots[SlotOf(table[d], k)]) == Some(cur)
    ensures table[d][k].ltype.LSubmessage? ==> cur == VMsg(DefaultSlots(table, table[d][k].sub))
  {
    hide NormalMessage, NormalItem, ValidTable, Proto3Default, DefaultSlots;
    NormalAt(table, d, m, k);
    ValidAt(table, d, k);
    var f, j := table[d][k], SlotOf(table[d], k);
    var slot, st := m.slots[j], After(table, d, m, k);
    DefaultSlotAt(table, d, k);
    if slot.Union? {
      AfterEither(table, d, m, k, j);
    } else {
      if k > 0 { NotShared(table[d], k); }
      AfterUntouched(table, d, m, k, j);
    }
    cur := Target(table, table[d], f, st.slots[j]).value;
  }

  /** The record of a singular field, once its item is known to round-trip. */
  lemma {:induction false} KeyedField(table: Table, d: nat, m: Value, k: nat, cur: Value, v: Value, t: seq<Byte>)
    requires ValidTable(table) && d < |table| && k < |table[d]| && NormalMessage(table, d, m)
    requires SlotOf(table[d], k) < |m.slots| && !m.slots[SlotOf(table[d], k)].Many?
    requires Emitted(table, table[d][k], m.slots[SlotOf(table[d], k)]) == [v]
    requires Target(table, table[d], table[d][k], After(table, d, m, k).slots[SlotOf(table[d], k)]) == Some(cur)
    requires EncItem(table, table[d][k], v).Some?
    requires DecItem(table, table[d][k], cur, EncItem(table, table[d][k], v).value + t) == Ok(v, t)
    ensures var e := EncField(table, table[d][k], m.slots[SlotOf(table[d], k)]);
            e.Some? && Loop(table, d, After(table, d, m, k), e.value + t)
                == Loop(table, d, After(table, d, m, k + 1), t)
  {
    hide ValidTable, NormalMessage, NormalItem, DecItem, EncItem, Step, Loop;
    NormalAt(table, d, m, k);
    ValidAt(table, d, k);
    var f, j := table[d][k], SlotOf(table[d], k);
    var slot, st, item := m.slots[j], After(table, d, m, k), EncItem(table, f, v).value;
    var entered := if f.htype.Required? then st.(seen := st.seen + {k}) else st;
    assert Stored(f, v) == slot;
    assert After(table, d, m, k + 1) == entered.(slots := st.slots[j := slot]);
    assert DecField(table, d, k, entered, WireType(f.ltype), item + t) == Ok(After(table, d, m, k + 1), t);
    KnownRecord(table, d, k, WireType(f.ltype), item, st, entered, After(table, d, m, k + 1), t);
    assert EncField(table, f, slot) == Some(Key(f.tag, WireType(f.ltype)) + item);
  }

  // ---------------------------------------------------------------- the induction

  lemma {:induction false} ItemRoundTrip(table: Table, d: nat, f: Field, cur: Value, v: Value, t: seq<Byte>)
    requires ValidTable(table) && ValidField(table, d, f) && NormalItem(table, f, v)
    requires BodyFits(table, f, v)
    requires f.ltype.LSubmessage? ==> cur == VMsg(DefaultSlots(table, f.sub))
    ensures EncItem(table, f, v).Some?
    ensures DecItem(table, f, cur, EncItem(table, f, v).value + t) == Ok(v, t)
    decreases v, 6, 0
  {
    if Packable(f.ltype) {
      ScalarRoundTrip(f, v, table, t);
    } else if !f.ltype.LSubmessage? {
      BlobRoundTrip(f, v, table, t);
    } else {
      SubmessageRoundTrip(table, d, f, v, t);
    }
  }

  lemma {:induction false} SubmessageRoundTrip(table: Table, d: nat, f: Field, v: Value, t: seq<Byte>)
    requires ValidTable(table) && ValidField(table, d, f) && NormalItem(table, f, v)
    requires BodyFits(table, f, v) && f.ltype.LSubmessage?
    ensures EncItem(table, f, v).Some?
    ensures DecItem(table, f, VMsg(DefaultSlots(table, f.sub)), EncItem(table, f, v).value + t) == Ok(v, t)
    decreases v, 5, 0
  {
    hide NormalMessage, Noinit, EncFields, Substream, Delimited;
    assert NormalMessage(table, f.sub, v);
    EncodableItem(table, d, f, v);
    var e := EncMessage(table, f.sub, v).value;
    assert EncItem(table, f, v) == Some(Delimited(e));
    assert v.VMsg? by { if |table[f.sub]| > 0 { NormalAt(table, f.sub, v, 0); } else { NormalIsMsg(table, f.sub, v); } }
    NestedLengths(table, f.sub, v);
    MessageRoundTrip(table, f.sub, v);
    DelimitedRoundTrip(e, t);
  }

  lemma {:induction false} NormalIsMsg(table: Table, d: nat, v: Value)
    requires NormalMessage(table, d, v)
    ensures v.VMsg? && |v.slots| == SlotCount(Descriptor(table, d))
  {
  }

  lemma {:induction false} UnpackedItems(table: Table, d: nat, m: Value, k: nat, i: nat, st: LoopState, t: seq<Byte>)
    requires ValidTable(table) && d < |table| && k < |table[d]| && NormalMessage(table, d, m)
    requires SlotOf(table[d], k) < |m.slots| && m.slots[SlotOf(table[d], k)].Many?
    requires i <= |m.slots[SlotOf(table[d], k)].items|
    requires LengthsFit(table, table[d][k], m.slots[SlotOf(table[d], k)]) && !Packable(table[d][k].ltype)
    requires var f, j := table[d][k], SlotOf(table[d], k);
             var filling := Filling(f, k, j, m.slots[j].items, i, After(table, d, m, k));
             if i < |m.slots[j].items| then Enter(table[d], k, st) == Some(filling) else st == filling
    ensures var f, j := table[d][k], SlotOf(table[d], k);
            var items := m.slots[j].items;
            var e := EncItems(table, f, m.slots[j], i, true);
            && e.Some?
            && Loop(table, d, st, e.value + t)
               == Loop(table, d, Filling(f, k, j, items, |items|, After(table, d, m, k)), t)
    decreases m, 0, |m.slots[SlotOf(table[d], k)].items| - i
  {
    hide ValidTable, NormalMessage, NormalItem, DecItem, EncItem, Loop, Enter, After, DefaultSlots, DecRepeated,
         DecField, Key, ValidField, ValidDescriptor, Fill;
    NormalAt(table, d, m, k);
    ValidAt(table, d, k);
    var f, j := table[d][k], SlotOf(table[d], k);
    var slot, st0 := m.slots[j], After(table, d, m, k);
    var items := slot.items;
    if i == |items| {
      assert [] + t == t;
    } else {
      var now, next := Filling(f, k, j, items, i, st0), Filling(f, k, j, items, i + 1, st0);
      EnterFilling(table, d, m, k, i + 1);
      UnpackedItems(table, d, m, k, i + 1, next, t);
      var rest := EncItems(table, f, slot, i + 1, true).value + t;
      ItemRoundTrip(table, d, f, FreshItem(table, f), items[i], rest);
      var item := EncItem(table, f, items[i]).value;
      UnpackedStep(table, f, k, j, items, i, st0, item, rest);
      RepeatedIsField(table, d, k, now, WireType(f.ltype), item + rest);
      KnownRecord(table, d, k, WireType(f.ltype), item, st, now, next, rest);
      KeyedItemsHead(table, f, slot, i, t);
    }
  }

  lemma {:induction false} KeyedItemsHead(table: Table, f: Field, slot: Slot, i: nat, t: seq<Byte>)
    requires slot.Many? && i < |slot.items|
    requires EncItem(table, f, slot.items[i]).Some? && EncItems(table, f, slot, i + 1, true).Some?
    ensures EncItems(table, f, slot, i, true).Some?
    ensures EncItems(table, f, slot, i, true).value + t
         == Key(f.tag, WireType(f.ltype)) + EncItem(table, f, slot.items[i]).value
            + (EncItems(table, f, slot, i + 1, true).value + t)
  {
    hide EncItem, Key;
  }

  lemma {:induction false} RepeatedIsField(table: Table, d: nat, k: nat, st: LoopState, wt: nat, s: seq<Byte>)
    requires d < |table| && k < |table[d]| && table[d][k].htype.Repeated? && SlotOf(table[d], k) < |st.slots|
    ensures DecField(table, d, k, st, wt, s) == DecRepeated(table, table[d][k], SlotOf(table[d], k), st, wt, s)
  {
    hide DecRepeated;
  }

  lemma {:induction false} UnpackedStep(table: Table, f: Field, k: nat, j: nat, items: seq<Value>, i: nat,
          st0: LoopState,
                     item: seq<Byte>, rest: seq<Byte>)
    requires i < |items| && j < |st0.slots| && f.htype.Repeated? && i < Capacity(f)
    requires f.atype.Pointer? ==> f.dataSize > 0
    requires !Packable(f.ltype)
    requires DecItem(table, f, FreshItem(table, f), item + rest) == Ok(items[i], rest)
    ensures DecRepeated(table, f, j, Filling(f, k, j, items, i, st0), WireType(f.ltype), item + rest)
         == Ok(Filling(f, k, j, items, i + 1, st0), rest)
  {
    hide DecItem;
    FillStep(f, items, i);
    var now := Filling(f, k, j, items, i, st0);
    assert now.slots[j := Many(Fill(f, items, i + 1))] == st0.slots[j := Many(Fill(f, items, i + 1))];
  }

  lemma {:induction false} PackedStep(table: Table, f: Field, k: nat, j: nat, items: seq<Value>, st0: LoopState,
                   payload: seq<Byte>, t: seq<Byte>)
    requires j < |st0.slots| && f.htype.Repeated? && Packable(f.ltype)
    requires Substream(Delimited(payload) + t) == Ok(payload, t)
    requires DecPacked(f, Fill(f, items, 0), 0, payload) == Filled(items, |items|)
    ensures DecRepeated(table, f, j, Filling(f, k, j, items, 0, st0), WT_STRING, Delimited(payload) + t)
         == Ok(Filling(f, k, j, items, |items|, st0), t)
  {
    hide Substream, DecPacked, Delimited;
    var now := Filling(f, k, j, items, 0, st0);
    assert now.slots[j := Many(items)] == st0.slots[j := Many(items)];
  }

  lemma {:induction false} RepeatedField(table: Table, d: nat, m: Value, k: nat, t: seq<Byte>)
    requires ValidTable(table) && d < |table| && k < |table[d]| && NormalMessage(table, d, m)
    requires SlotOf(table[d], k) < |m.slots| && m.slots[SlotOf(table[d], k)].Many?
    requires LengthsFit(table, table[d][k], m.slots[SlotOf(table[d], k)])
    requires m.slots[SlotOf(table[d], k)].items != []
    ensures var e := EncField(table, table[d][k], m.slots[SlotOf(table[d], k)]);
            e.Some? && Loop(table, d, After(table, d, m, k), e.value + t)
                == Loop(table, d, After(table, d, m, k + 1), t)
    decreases m, 1, 0
  {
    hide ValidTable, NormalMessage, NormalItem, EncItem, Loop, Enter, After, DefaultSlots, DecRepeated;
    NormalAt(table, d, m, k);
    ValidAt(table, d, k);
    var f, j := table[d][k], SlotOf(table[d], k);
    var slot, st := m.slots[j], After(table, d, m, k);
    EnterFilling(table, d, m, k, 0);
    if Packable(f.ltype) {
      PackedItems(table, d, f, slot, 0);
      var payload := EncItems(table, f, slot, 0, false).value;
      DelimitedRoundTrip(payload, t);
      var now := Filling(f, k, j, slot.items, 0, st);
      PackedStep(table, f, k, j, slot.items, st, payload, t);
      KnownRecord(table, d, k, WT_STRING, Delimited(payload), st, now, After(table, d, m, k + 1), t);
    } else {
      UnpackedItems(table, d, m, k, 0, st, t);
    }
  }

  lemma {:induction false} FieldRoundTrip(table: Table, d: nat, m: Value, k: nat, t: seq<Byte>)
    requires ValidTable(table) && d < |table| && k < |table[d]| && NormalMessage(table, d, m)
    requires SlotOf(table[d], k) < |m.slots|
    requires LengthsFit(table, table[d][k], m.slots[SlotOf(table[d], k)])
    ensures var e := EncField(table, table[d][k], m.slots[SlotOf(table[d], k)]);
            e.Some? && Loop(table, d, After(table, d, m, k), e.value + t)
                == Loop(table, d, After(table, d, m, k + 1), t)
    decreases m, 2, 0
  {
    hide ValidTable, NormalMessage, NormalItem, DecItem, EncItem, EncField, Loop, After, Proto3Default;
    NormalAt(table, d, m, k);
    ValidAt(table, d, k);
    var f, slot := table[d][k], m.slots[SlotOf(table[d], k)];
    var items := Emitted(table, f, slot);
    if items == [] {
      OmittedField(table, d, m, k);
      assert [] + t == t;
    } else if slot.Many? {
      RepeatedField(table, d, m, k, t);
    } else {
      var v := items[0];
      var cur := TargetIsFresh(table, d, m, k);
      assert v in items;
      ItemRoundTrip(table, d, f, cur, v, t);
      KeyedField(table, d, m, k, cur, v, t);
    }
  }

  lemma {:induction false} FieldsRoundTrip(table: Table, d: nat, m: Value, k: nat)
    requires ValidTable(table) && d < |table| && k <= |table[d]| && NormalMessage(table, d, m)
    requires AllLengthsFit(table, d, m)
    ensures EncFields(table, table[d], m, k).Some?
    ensures Loop(table, d, After(table, d, m, k), EncFields(table, table[d], m, k).value)
         == Ended(After(table, d, m, |table[d]|))
    decreases m, 3, |table[d]| - k
  {
    hide NormalMessage, LengthsFit, AllLengthsFit, ValidTable, EncField, After, Step;
    NormalIsMsg(table, d, m);
    if k < |table[d]| {
      NormalAt(table, d, m, k);
      LengthsAt(table, d, m, k);
      FieldsRoundTrip(table, d, m, k + 1);
      FieldRoundTrip(table, d, m, k, EncFields(table, table[d], m, k + 1).value);
    }
  }

  lemma {:induction false} LengthsAt(table: Table, d: nat, m: Value, k: nat)
    requires m.VMsg? && d < |table| && k < |table[d]| && SlotOf(table[d], k) < |m.slots|
    requires AllLengthsFit(table, d, m)
    ensures LengthsFit(table, table[d][k], m.slots[SlotOf(table[d], k)])
  {
    hide LengthsFit;
    var fields := Descriptor(table, d);
    assert LengthsFit(table, fields[k], m.slots[SlotOf(fields, k)]);
  }

  /** pb_encode succeeds on every message in normal form, and pb_decode of its output succeeds,
      consumes all of it and returns the same message: through nested and repeated submessages, packed
      and unpacked arrays, fixed-count arrays, oneofs, pointer fields and omitted proto3 fields. */
  lemma {:induction false} MessageRoundTrip(table: Table, d: nat, m: Value)
    requires ValidTable(table) && d < |table| && NormalMessage(table, d, m)
    requires AllLengthsFit(table, d, m)
    ensures EncMessage(table, d, m).Some?
    ensures Noinit(table, d, DefaultSlots(table, d), EncMessage(table, d, m).value) == Ok(m.slots, [])
    ensures Decode(table, d, EncMessage(table, d, m).value) == Ok(m, [])
    decreases m, 4, 0
  {
    hide NormalMessage, AllLengthsFit, EncFields, Loop, Complete;
    NormalIsMsg(table, d, m);
    FieldsRoundTrip(table, d, m, 0);
    AfterAll(table, d, m);
    assert After(table, d, m, 0) == Start(DefaultSlots(table, d));
  }
}
