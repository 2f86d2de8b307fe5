/** Field descriptors (`pb_field_t`) and message structures.

    A schema is a table of message descriptors; a submessage field names its descriptor by index, so
    that descriptors may be recursive through pointer fields. A message structure is a sequence of
    slots, one per storage location: the members of a oneof share one slot. */
module Schema {
  import opened Options
  import opened Bits
  import opened Wire

  // PB_FIELD_32BIT build: pb_size_t is 32 bits wide.
  const PB_SIZE_MAX: nat := 0xFFFF_FFFF
  const PB_MAX_REQUIRED_FIELDS: nat := 64
  /** Offset of the `bytes` member of pb_bytes_array_t. */
  const BYTES_HEADER: nat := 4

  const WT_VARINT: nat := 0
  const WT_64BIT: nat := 1
  const WT_STRING: nat := 2
  const WT_32BIT: nat := 5

  datatype LType = LBool | LVarint | LUVarint | LSVarint | LFixed32 | LFixed64
                 | LBytes | LString | LSubmessage | LFixedLengthBytes
  datatype HType = Required | Optional | Repeated | OneOf
  datatype AType = Static | Pointer

  /** Unset stands for memory that nanopb leaves indeterminate: the union of an unset oneof and the
      elements of a fixed-count array before they are decoded. */
  datatype Value = VBool(b: bool) | VInt(n: int) | VBytes(bs: seq<Byte>) | VMsg(slots: seq<Slot>) | Unset

  /** One: a required or proto3 singular field. Opt: a field with a `has_` flag. Many: an array and
      its count (or a fixed-count array). Union: a oneof and its `which_` tag. Ptr: a pointer field. */
  datatype Slot = One(v: Value)
                | Opt(has: bool, v: Value)
                | Many(items: seq<Value>)
                | Union(which: nat, v: Value)
                | Ptr(p: Option<Value>)

  datatype Field = Field(tag: nat, ltype: LType, htype: HType, atype: AType,
                         dataOffset: nat, sizeOffset: int, dataSize: nat, arraySize: nat,
                         dflt: Option<Value>, sub: nat)

  type Fields = seq<Field>
  type Table = seq<Fields>

  predicate Packable(l: LType) {
    l.LBool? || l.LVarint? || l.LUVarint? || l.LSVarint? || l.LFixed32? || l.LFixed64?
  }

  function WireType(l: LType): nat {
    match l
    case LBool | LVarint | LUVarint | LSVarint => WT_VARINT
    case LFixed32 => WT_32BIT
    case LFixed64 => WT_64BIT
    case LBytes | LString | LSubmessage | LFixedLengthBytes => WT_STRING
  }

  function Descriptor(table: Table, d: nat): Fields {
    if d < |table| then table[d] else []
  }

  // ---------------------------------------------------------------- layout

  /** Members of a oneof after the first share the storage of the previous field. */
  predicate SharesUnion(fields: Fields, k: nat)
    requires k < |fields|
  {
    && k > 0 && fields[k - 1].htype.OneOf? && fields[k].htype.OneOf?
    && fields[k].dataOffset == PB_SIZE_MAX
  }

  function SlotOf(fields: Fields, k: nat): (i: nat)
    requires k < |fields|
    ensures i <= k
  {
    if k == 0 then 0 else SlotOf(fields, k - 1) + (if SharesUnion(fields, k) then 0 else 1)
  }

  function SlotCount(fields: Fields): nat {
    if fields == [] then 0 else SlotOf(fields, |fields| - 1) + 1
  }

  lemma {:induction false} SlotOfMonotone(fields: Fields, j: nat, k: nat)
    requires j <= k < |fields|
    ensures SlotOf(fields, j) <= SlotOf(fields, k) < SlotCount(fields)
    decreases |fields| - k, k
  {
    if k < |fields| - 1 {
      SlotOfMonotone(fields, j, k + 1);
      SlotStep(fields, j, k);
    } else if j < k {
      SlotStep(fields, j, k);
    }
  }

  lemma {:induction false} SlotStep(fields: Fields, j: nat, k: nat)
    requires j <= k < |fields|
    ensures SlotOf(fields, j) <= SlotOf(fields, k)
    decreases k
  {
    if j < k { SlotStep(fields, j, k - 1); }
  }

  /** A set oneof names one of the members that share its slot. */
  predicate UnionMember(fields: Fields, k: nat, slot: Slot)
    requires k < |fields|
  {
    slot.Union? && slot.which != 0 ==>
      exists j :: 0 <= j < |fields| && SlotOf(fields, j) == SlotOf(fields, k) && fields[j].tag == slot.which
  }

  /** Index of the field with this tag, if any. */
  function FindField(fields: Fields, tag: nat): (r: Option<nat>)
    ensures r.Some? ==> r.value < |fields| && fields[r.value].tag == tag
    ensures r.None? <==> forall k :: 0 <= k < |fields| ==> fields[k].tag != tag
  {
    FindFrom(fields, tag, 0)
  }

  function FindFrom(fields: Fields, tag: nat, k: nat): (r: Option<nat>)
    requires k <= |fields|
    ensures r.Some? ==> k <= r.value < |fields| && fields[r.value].tag == tag
    ensures r.None? <==> forall i :: k <= i < |fields| ==> fields[i].tag != tag
    decreases |fields| - k
  {
    if k == |fields| then None
    else if fields[k].tag == tag then Some(k)
    else FindFrom(fields, tag, k + 1)
  }

  predicate DistinctTags(fields: Fields) {
    forall j, k :: 0 <= j < k < |fields| ==> fields[j].tag != fields[k].tag
  }

  lemma {:induction false} FindOwnTag(fields: Fields, k: nat)
    requires k < |fields| && DistinctTags(fields)
    ensures FindField(fields, fields[k].tag) == Some(k)
  {
    var t := fields[k].tag;
    assert !forall i :: 0 <= i < |fields| ==> fields[i].tag != t;
  }

  /** Number of required fields before field `k`. */
  function RequiredIndex(fields: Fields, k: nat): (i: nat)
    requires k <= |fields|
    ensures i <= k
  {
    if k == 0 then 0
    else RequiredIndex(fields, k - 1) + (if fields[k - 1].htype.Required? then 1 else 0)
  }

  predicate FixedCount(f: Field) {
    f.htype.Repeated? && f.sizeOffset == 0
  }

  /** Most entries a repeated field can hold. */
  function Capacity(f: Field): nat {
    if f.atype.Static? then f.arraySize else PB_SIZE_MAX
  }

  // ---------------------------------------------------------------- defaults

  function ZeroValue(f: Field): Value {
    match f.ltype
    case LBool => VBool(false)
    case LVarint | LUVarint | LSVarint | LFixed32 | LFixed64 => VInt(0)
    case LBytes | LString => VBytes([])
    case LFixedLengthBytes => VBytes(Zeros(f.dataSize))
    case LSubmessage => VMsg([])
  }

  function Zeros(n: nat): (z: seq<Byte>)
    ensures |z| == n && forall i :: 0 <= i < n ==> z[i] == 0
  {
    seq(n, _ => 0)
  }

  /** Contents of a required or optional field after pb_field_set_to_default. A static submessage
      nests inside its parent structure, so its descriptor precedes the parent's in the table. */
  function DefaultValue(table: Table, d: nat, f: Field): Value
    decreases d, 0, 0
  {
    if f.ltype.LSubmessage? then
      if f.sub < d then VMsg(DefaultSlots(table, f.sub)) else VMsg([])
    else if f.dflt.Some? then f.dflt.value
    else ZeroValue(f)
  }

  function DefaultSlot(table: Table, d: nat, f: Field): Slot
    decreases d, 1, 0
  {
    match f.htype
    case Repeated => if FixedCount(f) then Many(seq(f.arraySize, _ => Unset)) else Many([])
    case OneOf => Union(0, Unset)
    case Required => if f.atype.Pointer? then Ptr(None) else One(DefaultValue(table, d, f))
    case Optional =>
      if f.atype.Pointer? then Ptr(None)
      else if f.sizeOffset != 0 then Opt(false, DefaultValue(table, d, f))
      else One(DefaultValue(table, d, f))
  }

  /** pb_message_set_to_defaults for message type `d`. */
  function DefaultSlots(table: Table, d: nat): (slots: seq<Slot>)
    ensures |slots| == SlotCount(Descriptor(table, d))
    decreases d, 3, 0
  {
    DefaultPrefix(table, d, |Descriptor(table, d)|)
  }

  function DefaultPrefix(table: Table, d: nat, k: nat): (slots: seq<Slot>)
    requires k <= |Descriptor(table, d)|
    ensures |slots| == if k == 0 then 0 else SlotOf(Descriptor(table, d), k - 1) + 1
    decreases d, 2, k
  {
    var fields := Descriptor(table, d);
    if k == 0 then []
    else
      DefaultPrefix(table, d, k - 1)
      + (if SharesUnion(fields, k - 1) then [] else [DefaultSlot(table, d, fields[k - 1])])
  }

  /** The first field of a slot decides the slot's default. */
  lemma {:induction false} DefaultSlotAt(table: Table, d: nat, k: nat)
    requires k < |Descriptor(table, d)|
    ensures SlotOf(Descriptor(table, d), k) < |DefaultSlots(table, d)|
    ensures DefaultSlots(table, d)[SlotOf(Descriptor(table, d), k)]
         == DefaultSlot(table, d, Descriptor(table, d)[k])
  {
    SlotOfMonotone(Descriptor(table, d), k, k);
    DefaultPrefixAt(table, d, k, |Descriptor(table, d)|);
  }

  lemma {:induction false} DefaultPrefixAt(table: Table, d: nat, k: nat, n: nat)
    requires k < n <= |Descriptor(table, d)|
    ensures SlotOf(Descriptor(table, d), k) < |DefaultPrefix(table, d, n)|
    ensures DefaultPrefix(table, d, n)[SlotOf(Descriptor(table, d), k)]
         == DefaultSlot(table, d, Descriptor(table, d)[k])
    decreases n, k
  {
    var fields := Descriptor(table, d);
    SlotStep(fields, k, n - 1);
    if k < n - 1 {
      DefaultPrefixAt(table, d, k, n - 1);
      SlotStep(fields, k, n - 2);
    } else if SharesUnion(fields, k) {
      DefaultPrefixAt(table, d, k - 1, k);
    }
  }

  // ---------------------------------------------------------------- well-formed descriptors

  predicate ValidField(table: Table, d: nat, f: Field) {
    && 1 <= f.tag < 0x2000_0000
    && f.dataSize <= PB_SIZE_MAX && f.arraySize <= PB_SIZE_MAX
    && (f.ltype.LVarint? || f.ltype.LUVarint? || f.ltype.LSVarint? ==> IsWidth(f.dataSize))
    // a byte array has room for its header and a string for its terminator
    && (f.ltype.LBytes? && f.atype.Static? ==> f.dataSize >= BYTES_HEADER)
    && (f.ltype.LString? && f.atype.Static? ==> f.dataSize >= 1)
    && (f.ltype.LSubmessage? ==> f.sub < |table| && (f.atype.Static? ==> f.sub < d))
    && (f.atype.Pointer? ==> f.dataSize > 0 && !f.htype.OneOf? && !FixedCount(f))
    && (f.htype.OneOf? ==> f.sizeOffset != 0)
    && (f.htype.Optional? && f.atype.Pointer? ==> f.sizeOffset == 0)
    && (f.htype.Required? ==> f.sizeOffset == 0)
    // proto3 singular fields have a null default pointer
    && (f.htype.Optional? && f.sizeOffset == 0 ==> f.dflt.None?)
  }

  ghost predicate ValidTable(table: Table) {
    forall d :: 0 <= d < |table| ==> ValidDescriptor(table, d)
  }

  ghost predicate ValidDescriptor(table: Table, d: nat)
    requires d < |table|
  {
    && DistinctTags(table[d])
    && forall k :: 0 <= k < |table[d]| ==> ValidField(table, d, table[d][k])
  }

  lemma {:induction false} ValidAt(table: Table, d: nat, k: nat)
    requires ValidTable(table) && d < |table| && k < |table[d]|
    ensures ValidDescriptor(table, d) && ValidField(table, d, table[d][k])
    ensures Descriptor(table, d) == table[d] && SlotOf(table[d], k) < SlotCount(table[d])
  {
    assert ValidDescriptor(table, d);
    SlotOfMonotone(table[d], k, k);
  }
}
