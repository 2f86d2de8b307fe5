/** What pb_decode does with a byte sequence: parsers over the bytes up to the end of the (sub)stream,
    ending in the record loop of pb_decode_noinit. `Err` stands for a `false` return. */
module DecodeSpec {
  import opened Options
  import opened Bits
  import opened Wire
  import opened Schema

  // ---------------------------------------------------------------- leaves

  /** pb_read of `n` bytes. */
  function Take(s: seq<Byte>, n: nat): (r: Parsed<seq<Byte>>)
    ensures r.Ok? ==> |r.rest| == |s| - n
  {
    if |s| < n then Err else Ok(s[..n], s[n..])
  }

  /** A varint32 length and that many bytes: pb_make_string_substream, whose payload is `v` and whose
      parent, once the substream is closed, stands at `rest`. */
  function Substream(s: seq<Byte>): (r: Parsed<seq<Byte>>)
    ensures r.Ok? ==> |r.v| + |r.rest| < |s|
  {
    var len := Varint32(s);
    if len.Err? then Err else Take(len.rest, len.v)
  }

  /** The pb_dec_* functions of the packable types. */
  function DecScalar(f: Field, s: seq<Byte>): (r: Parsed<Value>)
    ensures r.Ok? ==> |r.rest| < |s|
  {
    match f.ltype
    case LBool =>
      var r := Varint32(s);
      if r.Err? then Err else Ok(VBool(r.v != 0), r.rest)
    case LVarint =>
      // fields of at most 32 bits are first cast to int32_t
      var r := Varint64(s);
      if r.Err? then Err else Narrow(f, Signed(if f.dataSize == 8 then 8 else 4, r.v), true, r.rest)
    case LUVarint =>
      var r := Varint64(s);
      if r.Err? then Err else Narrow(f, r.v, false, r.rest)
    case LSVarint =>
      var r := Varint64(s);
      if r.Err? then Err else Narrow(f, UnZigZag(r.v), true, r.rest)
    case LFixed32 =>
      var r := Fixed(s, 4);
      if r.Err? then Err else Ok(VInt(r.v), r.rest)
    case LFixed64 =>
      var r := Fixed(s, 8);
      if r.Err? then Err else Ok(VInt(r.v), r.rest)
    case LBytes | LString | LSubmessage | LFixedLengthBytes => Err
  }

  /** Store `n` in a field of data_size bytes; "integer too large" if it does not fit. */
  function Narrow(f: Field, n: int, signed: bool, rest: seq<Byte>): (r: Parsed<Value>)
    ensures r.Ok? ==> r == Ok(VInt(n), rest)
  {
    if !IsWidth(f.dataSize) then Err
    else
      var clamped := if signed then Signed(f.dataSize, n) else Unsigned(f.dataSize, n);
      if clamped != n then Err else Ok(VInt(n), rest)
  }

  /** pb_dec_bytes, pb_dec_string and pb_dec_fixed_length_bytes. */
  function DecBlob(f: Field, s: seq<Byte>): (r: Parsed<Value>)
    ensures r.Ok? ==> |r.rest| < |s|
  {
    var len := Varint32(s);
    if len.Err? then Err
    else if f.ltype.LFixedLengthBytes? && len.v == 0 then Ok(VBytes(Zeros(f.dataSize)), len.rest)
    else if !BlobFits(f, len.v) then Err
    else
      var bytes := Take(len.rest, len.v);
      if bytes.Err? then Err else Ok(VBytes(bytes.v), bytes.rest)
  }

  /** The size checks: a bytes array has a header and a string a NUL; `size + 1` is a uint32_t. */
  predicate BlobFits(f: Field, size: nat) {
    match f.ltype
    case LBytes => size <= PB_SIZE_MAX && (f.atype.Static? ==> size + BYTES_HEADER <= f.dataSize)
    case LString => size < TWO_32 - 1 && (f.atype.Static? ==> size + 1 <= f.dataSize)
    case LFixedLengthBytes => size <= PB_SIZE_MAX && size == f.dataSize
    case LBool | LVarint | LUVarint | LSVarint | LFixed32 | LFixed64 | LSubmessage => false
  }

  function SkipVarint(s: seq<Byte>): (r: Parsed<()>)
    ensures r.Ok? ==> |r.rest| < |s|
  {
    if s == [] then Err else if s[0] < 128 then Ok((), s[1..]) else SkipVarint(s[1..])
  }

  /** pb_skip_field. */
  function Skip(wt: nat, s: seq<Byte>): (r: Parsed<()>)
    ensures r.Ok? ==> |r.rest| <= |s|
  {
    if wt == WT_VARINT then SkipVarint(s)
    else if wt == WT_64BIT then (var r := Take(s, 8); if r.Ok? then Ok((), r.rest) else Err)
    else if wt == WT_STRING then (var r := Substream(s); if r.Ok? then Ok((), r.rest) else Err)
    else if wt == WT_32BIT then (var r := Take(s, 4); if r.Ok? then Ok((), r.rest) else Err)
    else Err
  }

  // ---------------------------------------------------------------- arrays

  /** Write array entry `count`. */
  function Put(items: seq<Value>, count: nat, v: Value): seq<Value> {
    if count < |items| then items[count := v] else items + [v]
  }

  datatype Filled = Filled(items: seq<Value>, count: nat) | Overflow

  /** The items of a packed payload, stored from entry `count` on. */
  function DecPacked(f: Field, items: seq<Value>, count: nat, s: seq<Byte>): Filled
    decreases |s|
  {
    if s == [] then Filled(items, count)
    else if count >= Capacity(f) || (f.atype.Pointer? && f.dataSize == 0) then Overflow
    else
      var r := DecScalar(f, s);
      if r.Err? then Overflow else DecPacked(f, Put(items, count, r.v), count + 1, r.rest)
  }

  // ---------------------------------------------------------------- messages

  /** State of the record loop: the structure, the required fields seen, and the fixed-count field
      being filled with the number of its entries received so far. */
  datatype LoopState = LoopState(slots: seq<Slot>, seen: set<nat>, fixedField: Option<nat>, fixedCount: nat)

  /** Outcome of the record loop: input exhausted, stopped at a zero key, or failed. */
  datatype Run = Ended(st: LoopState) | Stopped(st: LoopState, rest: seq<Byte>) | Failed

  datatype StepResult = Next(st: LoopState, rest: seq<Byte>) | Stop(rest: seq<Byte>) | Fail

  /** One item of any type; `cur` is the present content of its storage. */
  function DecItem(table: Table, f: Field, cur: Value, s: seq<Byte>): (r: Parsed<Value>)
    ensures r.Ok? ==> |r.rest| < |s|
    decreases |s|, 3
  {
    if Packable(f.ltype) then DecScalar(f, s)
    else if !f.ltype.LSubmessage? then DecBlob(f, s)
    else
      var sub := Substream(s);
      if sub.Err? || !cur.VMsg? then Err
      else
        // array entries are initialised here, other submessages are merged into
        var start := if f.htype.Repeated? then DefaultSlots(table, f.sub) else cur.slots;
        var r := Noinit(table, f.sub, start, sub.v);
        if r.Err? then Err else Ok(VMsg(r.v), sub.rest)
  }

  /** Storage an item is decoded into when it is not merged with earlier contents. */
  function FreshItem(table: Table, f: Field): Value {
    if f.ltype.LSubmessage? then VMsg(DefaultSlots(table, f.sub)) else Unset
  }

  /** decode_field for field `k`, with the fixed-count bookkeeping already done. */
  function DecField(table: Table, d: nat, k: nat, st: LoopState, wt: nat, s: seq<Byte>): (r: Parsed<LoopState>)
    requires k < |Descriptor(table, d)|
    ensures r.Ok? ==> |r.rest| <= |s|
    decreases |s|, 5
  {
    var fields := Descriptor(table, d);
    var f, i := fields[k], SlotOf(fields, k);
    if i >= |st.slots| then Err
    else if f.htype.Repeated? then DecRepeated(table, f, i, st, wt, s)
    else
      var cur := Target(table, fields, f, st.slots[i]);
      if cur.None? then Err
      else
        var r := DecItem(table, f, cur.value, s);
        if r.Err? then Err else Ok(st.(slots := st.slots[i := Stored(f, r.v)]), r.rest)
  }

  /** The storage that decode_static_field or decode_pointer_field hands to the item decoder: the
      present value, or a fresh one for a oneof or pointer submessage. `None` if the structure does
      not match the descriptor, or "invalid union tag". */
  function Target(table: Table, fields: Fields, f: Field, slot: Slot): Option<Value> {
    match slot
    case One(v) =>
      if f.atype.Static? && (f.htype.Required? || (f.htype.Optional? && f.sizeOffset == 0)) then Some(v)
      else None
    case Opt(has, v) =>
      if f.atype.Static? && f.htype.Optional? && f.sizeOffset != 0 then Some(v) else None
    case Union(which, v) =>
      if && f.atype.Static? && f.htype.OneOf?
         && (which == 0 || which == f.tag || FindField(fields, which).Some?)
      then Some(FreshItem(table, f)) else None
    case Ptr(p) =>
      if && f.atype.Pointer? && (f.htype.Required? || f.htype.Optional?)
         && (f.dataSize > 0 || f.ltype.LBytes? || f.ltype.LString?)
      then Some(FreshItem(table, f)) else None
    case Many(items) => None
  }

  /** The slot once the item has been decoded. */
  function Stored(f: Field, v: Value): Slot {
    if f.atype.Pointer? then Ptr(Some(v))
    else if f.htype.OneOf? then Union(f.tag, v)
    else if f.htype.Optional? && f.sizeOffset != 0 then Opt(true, v)
    else One(v)
  }

  function DecRepeated(table: Table, f: Field, i: nat, st: LoopState, wt: nat, s: seq<Byte>): (r: Parsed<LoopState>)
    requires i < |st.slots|
    ensures r.Ok? ==> |r.rest| <= |s|
    decreases |s|, 4
  {
    if !st.slots[i].Many? then Err
    else
      var items := st.slots[i].items;
      var count := if FixedCount(f) then st.fixedCount else |items|;
      if wt == WT_STRING && Packable(f.ltype) then
        var sub := Substream(s);
        if sub.Err? then Err
        else
          var filled := DecPacked(f, items, count, sub.v);
          if filled.Overflow? then Err
          else Ok(Counted(f, i, st, filled.items, filled.count), sub.rest)
      else if count >= Capacity(f) || (f.atype.Pointer? && f.dataSize == 0) then Err
      else
        var r := DecItem(table, f, FreshItem(table, f), s);
        if r.Err? then Err
        else Ok(Counted(f, i, st, Put(items, count, r.v), count + 1), r.rest)
  }

  function Counted(f: Field, i: nat, st: LoopState, items: seq<Value>, count: nat): LoopState
    requires i < |st.slots|
  {
    var st' := st.(slots := st.slots[i := Many(items)]);
    if FixedCount(f) then st'.(fixedCount := count) else st'
  }

  /** The bookkeeping pb_decode_noinit does when field `k` is found: it starts a new fixed-count field
      only after the previous one is complete, and records a required field as seen. */
  function Enter(fields: Fields, k: nat, st: LoopState): Option<LoopState>
    requires k < |fields|
  {
    var f := fields[k];
    if FixedCount(f) && st.fixedField != Some(k) then
      if FixedComplete(fields, st) then Some(st.(fixedField := Some(k), fixedCount := 0)) else None
    else Some(if f.htype.Required? then st.(seen := st.seen + {k}) else st)
  }

  /** No fixed-count field is partly received. */
  predicate FixedComplete(fields: Fields, st: LoopState) {
    (st.fixedField.Some? && st.fixedField.value < |fields|) ==>
      st.fixedCount == fields[st.fixedField.value].arraySize
  }

  /** One round of the record loop. On an empty descriptor the terminator entry has tag 0, so a key
      with tag 0 finds it and is decoded as a bool that belongs to no field. */
  function Step(table: Table, d: nat, st: LoopState, s: seq<Byte>): (r: StepResult)
    requires s != []
    ensures r.Next? ==> |r.rest| < |s|
    ensures r.Stop? ==> |r.rest| < |s|
    decreases |s|, 0
  {
    var fields := Descriptor(table, d);
    var key := Varint32(s);
    if key.Err? then Fail
    else if key.v == 0 then Stop(key.rest)
    else
      var tag, wt := key.v / 8, key.v % 8;
      match FindField(fields, tag)
      case None =>
        if fields == [] && tag == 0 then
          var r := Varint32(key.rest);
          if r.Ok? then Next(st, r.rest) else Fail
        else
          var r := Skip(wt, key.rest);
          if r.Ok? then Next(st, r.rest) else Fail
      case Some(k) =>
        var st' := Enter(fields, k, st);
        if st'.None? then Fail
        else
          var r := DecField(table, d, k, st'.value, wt, key.rest);
          if r.Ok? then Next(r.v, r.rest) else Fail
  }

  function Loop(table: Table, d: nat, st: LoopState, s: seq<Byte>): (r: Run)
    ensures r.Stopped? ==> |r.rest| < |s|
    decreases |s|, 1
  {
    if s == [] then Ended(st)
    else
      match Step(table, d, st, s)
      case Fail => Failed
      case Stop(rest) => Stopped(st, rest)
      case Next(st', rest) => Loop(table, d, st', rest)
  }

  /** Required fields past the first 64 are not tracked. */
  predicate Tracked(fields: Fields, k: nat)
    requires k < |fields|
  {
    fields[k].htype.Required? && RequiredIndex(fields, k) < PB_MAX_REQUIRED_FIELDS
  }

  /** Every tracked required field was seen. */
  predicate RequiredSeen(fields: Fields, seen: set<nat>) {
    forall k | 0 <= k < |fields| && Tracked(fields, k) :: k in seen
  }

  predicate Complete(fields: Fields, st: LoopState) {
    FixedComplete(fields, st) && RequiredSeen(fields, st.seen)
  }

  function Start(slots: seq<Slot>): LoopState {
    LoopState(slots, {}, None, 0)
  }

  /** The final checks of pb_decode_noinit. */
  function Finish(fields: Fields, run: Run): (r: Parsed<seq<Slot>>) {
    match run
    case Failed => Err
    case Ended(st) => if Complete(fields, st) then Ok(st.slots, []) else Err
    case Stopped(st, rest) => if Complete(fields, st) then Ok(st.slots, rest) else Err
  }

  function Noinit(table: Table, d: nat, slots: seq<Slot>, s: seq<Byte>): (r: Parsed<seq<Slot>>)
    ensures r.Ok? ==> |r.rest| <= |s|
    decreases |s|, 2
  {
    Finish(Descriptor(table, d), Loop(table, d, Start(slots), s))
  }

  /** pb_decode. */
  function Decode(table: Table, d: nat, s: seq<Byte>): Parsed<Value> {
    var r := Noinit(table, d, DefaultSlots(table, d), s);
    if r.Ok? then Ok(VMsg(r.v), r.rest) else Err
  }
}
