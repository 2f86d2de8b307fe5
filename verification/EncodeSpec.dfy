/** What pb_encode writes: the bytes of a message as a function of its descriptor and contents.
    `None` stands for a `false` return on a stream that never fills up. */
module EncodeSpec {
  import opened Options
  import opened Bits
  import opened Wire
  import opened Schema

  type Output = Option<seq<Byte>>

  function Cat(a: Output, b: Output): Output {
    if a.Some? && b.Some? then Some(a.value + b.value) else None
  }

  /** pb_encode_string: a length prefix and the bytes. */
  function Delimited(bs: seq<Byte>): seq<Byte> {
    EncVarint(|bs|) + bs
  }

  /** pb_encode_tag: `(field_number << 3) | wiretype`. */
  function Key(tag: nat, wt: nat): seq<Byte> {
    EncVarint(8 * tag + wt)
  }

  /** Length of a C string held in a buffer of `max` bytes: up to the first NUL or the buffer's end. */
  function StrLen(bs: seq<Byte>, max: nat): (n: nat)
    ensures n <= |bs| && n <= max
  {
    if bs == [] || max == 0 || bs[0] == 0 then 0 else 1 + StrLen(bs[1..], max - 1)
  }

  /** The pb_enc_* functions of the packable types. */
  function EncScalar(f: Field, v: Value): Output {
    match f.ltype
    case LBool => if v.VBool? then Some(EncVarint(if v.b then 1 else 0)) else None
    case LVarint | LUVarint => if v.VInt? && IsWidth(f.dataSize) then Some(EncVarint(U64(v.n))) else None
    case LSVarint => if v.VInt? && IsWidth(f.dataSize) then Some(EncVarint(ZigZag(v.n))) else None
    case LFixed32 => if v.VInt? then Some(EncFixed(U32(v.n), 4)) else None
    case LFixed64 => if v.VInt? then Some(EncFixed(U64(v.n), 8)) else None
    case LBytes | LString | LSubmessage | LFixedLengthBytes => None
  }

  /** The content of a length-delimited item. */
  function EncBody(table: Table, f: Field, v: Value): Output
    decreases v, 3, 0
  {
    match f.ltype
    case LBytes =>
      if v.VBytes? && (f.atype.Pointer? || |v.bs| + BYTES_HEADER <= f.dataSize) then Some(v.bs) else None
    case LString =>
      if !v.VBytes? then None
      else Some(v.bs[..StrLen(v.bs, if f.atype.Pointer? then |v.bs| else f.dataSize)])
    case LFixedLengthBytes => if v.VBytes? && |v.bs| == f.dataSize then Some(v.bs) else None
    case LSubmessage => EncMessage(table, f.sub, v)
    case LBool | LVarint | LUVarint | LSVarint | LFixed32 | LFixed64 => None
  }

  /** One item, without its key. */
  function EncItem(table: Table, f: Field, v: Value): Output
    decreases v, 4, 0
  {
    if Packable(f.ltype) then EncScalar(f, v)
    else
      var body := EncBody(table, f, v);
      if body.Some? then Some(Delimited(body.value)) else None
  }

  /** The items of a repeated field from index `i` on, each preceded by its key when `keyed`. */
  function EncItems(table: Table, f: Field, slot: Slot, i: nat, keyed: bool): Output
    requires slot.Many? && i <= |slot.items|
    decreases slot, 1, |slot.items| - i
  {
    if i == |slot.items| then Some([])
    else
      var item := EncItem(table, f, slot.items[i]);
      Cat(if keyed then Cat(Some(Key(f.tag, WireType(f.ltype))), item) else item,
          EncItems(table, f, slot, i + 1, keyed))
  }

  /** encode_array. */
  function EncArray(table: Table, f: Field, slot: Slot): Output
    requires slot.Many?
    decreases slot, 2, 0
  {
    if slot.items == [] then Some([])
    else if f.atype.Static? && |slot.items| > f.arraySize then None
    else if Packable(f.ltype) then
      var payload := EncItems(table, f, slot, 0, false);
      if payload.Some? then Some(Key(f.tag, WT_STRING) + Delimited(payload.value)) else None
    else EncItems(table, f, slot, 0, true)
  }

  function Keyed(table: Table, f: Field, v: Value): Output
    decreases v, 5, 0
  {
    Cat(Some(Key(f.tag, WireType(f.ltype))), EncItem(table, f, v))
  }

  /** encode_basic_field. A slot that does not have the field's shape cannot be encoded. */
  function EncField(table: Table, f: Field, slot: Slot): Output
    decreases slot, 3, 0
  {
    match slot
    case One(v) =>
      if f.atype.Static? && f.htype.Required? then Keyed(table, f, v)
      else if f.atype.Static? && f.htype.Optional? && f.sizeOffset == 0 then
        if Proto3Default(table, f, slot) then Some([]) else Keyed(table, f, v)
      else None
    case Opt(has, v) =>
      if !(f.atype.Static? && f.htype.Optional? && f.sizeOffset != 0) then None
      else if has then Keyed(table, f, v) else Some([])
    case Many(items) =>
      if f.htype.Repeated? && (FixedCount(f) ==> |items| == f.arraySize) then EncArray(table, f, slot)
      else None
    case Union(which, v) =>
      if !(f.atype.Static? && f.htype.OneOf?) then None
      else if which == f.tag then Keyed(table, f, v) else Some([])
    case Ptr(p) =>
      if !f.atype.Pointer? || !(f.htype.Required? || (f.htype.Optional? && f.sizeOffset == 0)) then None
      else if p.Some? then Keyed(table, f, p.value)
      else if f.htype.Required? then None
      else Some([])
  }

  /** pb_encode from field `k` on. */
  function EncFields(table: Table, fields: Fields, m: Value, k: nat): Output
    requires k <= |fields|
    decreases m, 1, |fields| - k
  {
    if k == |fields| then Some([])
    else if !m.VMsg? || SlotOf(fields, k) >= |m.slots| then None
    else Cat(EncField(table, fields[k], m.slots[SlotOf(fields, k)]), EncFields(table, fields, m, k + 1))
  }

  function EncMessage(table: Table, d: nat, m: Value): Output
    decreases m, 2, 0
  {
    EncFields(table, Descriptor(table, d), m, 0)
  }

  /** pb_check_proto3_default_value. */
  predicate Proto3Default(table: Table, f: Field, slot: Slot)
    decreases slot, 0, 0
  {
    match slot
    case One(v) =>
      if f.htype.Required? then false
      else
        (match f.ltype
         case LSubmessage => Proto3DefaultFields(table, Descriptor(table, f.sub), v, 0)
         case LFixedLengthBytes => f.dataSize == 0
         case LBytes => v == VBytes([])
         case LString => v.VBytes? && StrLen(v.bs, f.dataSize) == 0
         case LBool => v == VBool(false)
         case LVarint | LUVarint | LSVarint | LFixed32 | LFixed64 => v == VInt(0))
    case Opt(has, v) => !has
    case Many(items) => if FixedCount(f) then false else items == []
    case Union(which, v) => which == 0
    case Ptr(p) => !f.htype.Required? && p.None?
  }

  predicate Proto3DefaultFields(table: Table, fields: Fields, m: Value, k: nat)
    requires k <= |fields|
    decreases m, 1, |fields| - k
  {
    k == |fields|
    || (&& m.VMsg? && SlotOf(fields, k) < |m.slots|
        && Proto3Default(table, fields[k], m.slots[SlotOf(fields, k)])
        && Proto3DefaultFields(table, fields, m, k + 1))
  }
}
