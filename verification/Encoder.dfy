/** pb_encode on a stream: the sizing pass and the writing pass. Every method is tied to the bytes that
    EncodeSpec gives, so the two passes agree by construction of their contracts. */
module Encoder {
  import opened Options
  import opened Bits
  import opened Wire
  import opened Schema
  import opened EncodeSpec
  import opened FieldIteration

  // ---------------------------------------------------------------- what a call does to a stream

  /** A stream and the contents of its buffer. `writes` is false for PB_OSTREAM_SIZING. */
  datatype Snap = Snap(writes: bool, state: nat, written: nat, maxSize: nat, bytes: seq<Byte>)

  /** The room that is left lies inside the buffer. */
  predicate ValidSnap(s: Snap) {
    s.writes ==> s.written <= s.maxSize && s.state + (s.maxSize - s.written) <= |s.bytes|
  }

  /** Only bytes in [lo, hi) differ. */
  predicate Within(before: seq<Byte>, after: seq<Byte>, lo: nat, hi: nat) {
    |before| == |after| && forall i :: 0 <= i < |before| && !(lo <= i < hi) ==> after[i] == before[i]
  }

  /** `data` stands at `at`, and nothing else changed. */
  predicate Wrote(before: seq<Byte>, after: seq<Byte>, at: nat, data: seq<Byte>) {
    && at + |data| <= |before| && Within(before, after, at, at + |data|)
    && after[at..at + |data|] == data
  }

  /** A call that should emit `e` took the stream from `s` to `s'` and returned `ok`: it succeeds
      exactly when there is something to emit and, on a real stream, room for all of it; it then emits
      exactly that; and it never passes max_size. */
  predicate Emits(s: Snap, s': Snap, e: Output, ok: bool) {
    && s'.writes == s.writes && s'.maxSize == s.maxSize && |s'.bytes| == |s.bytes| && ValidSnap(s')
    && (ok <==> e.Some? && (s.writes ==> s.written + |e.value| <= s.maxSize))
    && (ok ==> s'.written == s.written + |e.value|)
    && (if s.writes then
          && s'.written >= s.written && s'.state == s.state + (s'.written - s.written)
          && s.maxSize >= s.written
          && Within(s.bytes, s'.bytes, s.state, s.state + (s.maxSize - s.written))
          && (ok ==> Wrote(s.bytes, s'.bytes, s.state, e.value))
        else s'.bytes == s.bytes && s'.state == s.state)
  }

  lemma {:induction false} EmitsThen(s: Snap, s1: Snap, s2: Snap, e1: seq<Byte>, e2: Output, ok: bool)
    requires Emits(s, s1, Some(e1), true) && Emits(s1, s2, e2, ok)
    ensures Emits(s, s2, Cat(Some(e1), e2), ok)
  {
    if s.writes && ok {
      var at, mid, e := s.state, s.state + |e1|, e1 + e2.value;
      assert s2.bytes[at..mid] == s1.bytes[at..mid];
      assert s2.bytes[at..at + |e|] == s2.bytes[at..mid] + s2.bytes[mid..at + |e|];
    }
  }

  /** A failed part fails the whole. */
  lemma {:induction false} EmitsFailed(s: Snap, s1: Snap, e1: Output, e2: Output)
    requires Emits(s, s1, e1, false)
    ensures Emits(s, s1, Cat(e1, e2), false)
  {
  }

  lemma {:induction false} EmitsNothing(s: Snap)
    requires ValidSnap(s)
    ensures Emits(s, s, Some([]), true)
    ensures Emits(s, s, None, false)
  {
  }

  /** "stream full" before anything is written. */
  lemma {:induction false} EmitsRefused(s: Snap, e: seq<Byte>)
    requires ValidSnap(s) && s.writes && s.written + |e| > s.maxSize
    ensures Emits(s, s, Some(e), false)
  {
  }

  /** A stream limited to exactly the size of what is written to it: the write succeeds, fills it, and
      is a write to the parent. */
  lemma {:induction false} LimitedEmits(s: Snap, sub: Snap, sub': Snap, e: Output, ok: bool)
    requires ValidSnap(s) && s.writes && e.Some? && s.written + |e.value| <= s.maxSize
    requires sub == Snap(true, s.state, 0, |e.value|, s.bytes) && Emits(sub, sub', e, ok)
    ensures ok && sub'.written == |e.value|
    ensures Emits(s, Snap(true, sub'.state, s.written + sub'.written, s.maxSize, sub'.bytes), e, true)
  {
  }

  lemma {:induction false} CatUnit(e: Output)
    ensures Cat(Some([]), e) == e && Cat(e, Some([])) == e
  {
    if e.Some? { assert [] + e.value == e.value && e.value + [] == e.value; }
  }

  lemma {:induction false} CatAssoc(a: Output, b: Output, c: Output)
    ensures Cat(Cat(a, b), c) == Cat(a, Cat(b, c))
  {
    if a.Some? && b.Some? && c.Some? { assert a.value + b.value + c.value == a.value + (b.value + c.value); }
  }

  /** One more part of a sequence of outputs. */
  lemma {:induction false} EmitsPart(s: Snap, s1: Snap, s2: Snap, done: seq<Byte>, one: Output, rest: Output, ok: bool)
    requires Emits(s, s1, Some(done), true) && Emits(s1, s2, one, ok)
    ensures ok ==> one.Some? && Emits(s, s2, Some(done + one.value), true)
    ensures ok ==> Cat(Some(done), Cat(one, rest)) == Cat(Some(done + one.value), rest)
    ensures !ok ==> Emits(s, s2, Cat(Some(done), Cat(one, rest)), false)
  {
    hide Within, Wrote;
    EmitsThen(s, s1, s2, done, one, ok);
    CatAssoc(Some(done), one, rest);
    if !ok { EmitsFailed(s, s2, Cat(Some(done), one), rest); }
  }

  // ---------------------------------------------------------------- sizes fit size_t

  /** Every length that the encoder computes for the item is below 2^64, and the storage of a
      fixed-width field holds an integer. A message that has an encoding shorter than that satisfies it
      (ShortIsSized). */
  predicate SizedItem(table: Table, f: Field, v: Value)
    decreases v, 1
  {
    && (EncBody(table, f, v).Some? ==> |EncBody(table, f, v).value| < TWO_64)
    && (f.ltype.LFixed32? || f.ltype.LFixed64? ==> v.VInt?)
    && (f.ltype.LSubmessage? ==> SizedMessage(table, f.sub, v))
  }

  predicate SizedSlot(table: Table, f: Field, slot: Slot)
    decreases slot, 1
  {
    match slot
    case One(v) => (!f.htype.Required? && Proto3Default(table, f, slot)) || SizedItem(table, f, v)
    case Opt(has, v) => has ==> SizedItem(table, f, v)
    case Union(which, v) => which == f.tag ==> SizedItem(table, f, v)
    case Ptr(p) => p.Some? ==> SizedItem(table, f, p.value)
    case Many(items) =>
      && (forall i :: 0 <= i < |items| ==> SizedItem(table, f, items[i]))
      && (Packable(f.ltype) && EncItems(table, f, slot, 0, false).Some? ==>
            |EncItems(table, f, slot, 0, false).value| < TWO_64)
  }

  predicate SizedMessage(table: Table, d: nat, m: Value)
    decreases m, 0
  {
    m.VMsg? ==>
      var fields := Descriptor(table, d);
      forall k :: 0 <= k < |fields| && SlotOf(fields, k) < |m.slots| ==>
        fields[k].tag <= PB_SIZE_MAX && SizedSlot(table, fields[k], m.slots[SlotOf(fields, k)])
  }

  // ---------------------------------------------------------------- the stream

  /** The packed size of a fixed-width array, which encode_array computes without a sizing stream. */
  lemma {:induction false} FixedWidthArray(table: Table, f: Field, slot: Slot, i: nat)
    requires slot.Many? && i <= |slot.items| && SizedSlot(table, f, slot)
    requires f.ltype.LFixed32? || f.ltype.LFixed64?
    ensures EncItems(table, f, slot, i, false).Some?
    ensures |EncItems(table, f, slot, i, false).value|
         == (if f.ltype.LFixed32? then 4 else 8) * (|slot.items| - i)
    decreases |slot.items| - i
  {
    if i < |slot.items| {
      FixedWidthArray(table, f, slot, i + 1);
      assert SizedItem(table, f, slot.items[i]);
    }
  }

  /** The copying loop of buf_write. */
  method BufWrite(buf: array<Byte>, dest: nat, data: seq<Byte>)
    requires dest + |data| <= buf.Length
    modifies buf
    ensures Wrote(old(buf[..]), buf[..], dest, data)
  {
    for i := 0 to |data|
      invariant Within(old(buf[..]), buf[..], dest, dest + i)
      invariant buf[dest..dest + i] == data[..i]
    {
      buf[dest + i] := data[i];
      assert buf[dest..dest + i + 1] == buf[dest..dest + i] + [data[i]];
    }
    assert data[..|data|] == data;
    assert buf[..][dest..dest + |data|] == buf[dest..dest + |data|];
  }

  /** The loop of pb_encode_varint: fills a ten-byte buffer with continuation bytes and then clears the
      flag of the last one. */
  method VarintBuffer(value: nat) returns (e: seq<Byte>)
    requires 0x7F < value < TWO_64
    ensures e == EncVarint(value) && |e| <= 10
  {
    hide EncVarint;
    VarintAtMostTen(value);
    var buffer := new Byte[10];
    var i, v := 0, value;
    while v != 0
      invariant i + (if v == 0 then 0 else |EncVarint(v)|) == |EncVarint(value)| <= 10
      invariant v > 0 ==> EncVarint(value) == buffer[..i] + EncVarint(v)
      invariant v == 0 ==> i > 0 && buffer[i - 1] >= 128
      invariant v == 0 ==> EncVarint(value) == buffer[..i - 1] + [buffer[i - 1] - 128]
      decreases v
    {
      EncVarintStep(v);
      ghost var before := buffer[..i];
      buffer[i] := v % 128 + 128;
      assert buffer[..i] == before && buffer[..i + 1] == before + [v % 128 + 128];
      v := v / 128;
      i := i + 1;
    }
    ghost var head := buffer[..i - 1];
    buffer[i - 1] := buffer[i - 1] - 128;
    assert buffer[..i] == head + [buffer[i - 1]];
    return buffer[..i];
  }

  lemma {:induction false} EncVarintStep(v: nat)
    ensures v < 128 ==> EncVarint(v) == [v] && v / 128 == 0 && v % 128 == v
    ensures v >= 128 ==> EncVarint(v) == [v % 128 + 128] + EncVarint(v / 128) && 0 < v / 128 < v
  {
  }

  class OStream {
    const buf: array<Byte>
    const writes: bool
    const maxSize: nat
    var state: nat
    var bytesWritten: nat

    ghost function Now(): Snap
      reads this, buf
    {
      Snap(writes, state, bytesWritten, maxSize, buf[..])
    }

    ghost predicate Valid()
      reads this
    {
      writes ==> bytesWritten <= maxSize && state + (maxSize - bytesWritten) <= buf.Length
    }

    /** pb_ostream_from_buffer. */
    constructor FromBuffer(buf: array<Byte>)
      ensures Valid() && writes && this.buf == buf && maxSize == buf.Length && state == bytesWritten == 0
    {
      this.buf, writes, maxSize, state, bytesWritten := buf, true, buf.Length, 0, 0;
    }

    /** PB_OSTREAM_SIZING: counts and writes nowhere. */
    constructor Sizing()
      ensures Valid() && !writes && state == bytesWritten == 0 && fresh(buf)
    {
      buf, writes, maxSize, state, bytesWritten := new Byte[0], false, 0, 0, 0;
    }

    /** The limited stream inside pb_encode_submessage. */
    constructor Limited(parent: OStream, size: nat)
      requires parent.Valid() && parent.writes && parent.bytesWritten + size <= parent.maxSize
      ensures Valid() && writes && buf == parent.buf && maxSize == size
      ensures state == parent.state && bytesWritten == 0
    {
      buf, writes, maxSize, state, bytesWritten := parent.buf, true, size, parent.state, 0;
    }

    /** pb_write. */
    method Write(data: seq<Byte>) returns (ok: bool)
      requires Valid()
      modifies this, buf
      ensures Valid() && Emits(old(Now()), Now(), Some(data), ok)
    {
      if |data| > 0 && writes {
        if bytesWritten + |data| > maxSize { return false; }
        BufWrite(buf, state, data);
        state := state + |data|;
      }
      bytesWritten := bytesWritten + |data|;
      return true;
    }

    /** pb_write(stream, NULL, size) on a sizing stream. */
    method Count(ghost data: seq<Byte>, size: nat)
      requires Valid() && !writes && size == |data|
      modifies this
      ensures Valid() && Emits(old(Now()), Now(), Some(data), true)
    {
      bytesWritten := bytesWritten + size;
    }

    /** pb_encode_varint. */
    method EncodeVarint(value: nat) returns (ok: bool)
      requires Valid() && value < TWO_64
      modifies this, buf
      ensures Valid() && Emits(old(Now()), Now(), Some(EncVarint(value)), ok)
    {
      if value <= 0x7F {
        ok := Write([value]);
      } else {
        var buffer := VarintBuffer(value);
        ok := Write(buffer);
      }
    }

    /** pb_encode_tag. */
    method EncodeTag(wt: nat, tag: nat) returns (ok: bool)
      requires Valid() && wt < 8 && tag <= PB_SIZE_MAX
      modifies this, buf
      ensures Valid() && Emits(old(Now()), Now(), Some(Key(tag, wt)), ok)
    {
      ok := EncodeVarint(8 * tag + wt);
    }

    /** pb_encode_string. */
    method EncodeString(bs: seq<Byte>) returns (ok: bool)
      requires Valid() && |bs| < TWO_64
      modifies this, buf
      ensures Valid() && Emits(old(Now()), Now(), Some(Delimited(bs)), ok)
    {
      ghost var s := Now();
      ok := EncodeVarint(|bs|);
      ghost var s1 := Now();
      if ok {
        ok := Write(bs);
        EmitsThen(s, s1, Now(), EncVarint(|bs|), Some(bs), ok);
      } else {
        EmitsFailed(s, s1, Some(EncVarint(|bs|)), Some(bs));
      }
    }

    /** The pb_enc_* functions of the packable types. */
    method EncodeScalar(f: Field, v: Value) returns (ok: bool)
      requires Valid()
      modifies this, buf
      ensures Valid() && Emits(old(Now()), Now(), EncScalar(f, v), ok)
    {
      hide Within, Wrote, EncVarint, U64, U32;
      EmitsNothing(Now());
      match f.ltype {
        case LBool =>
          if v.VBool? { ok := EncodeVarint(if v.b then 1 else 0); } else { ok := false; }
        case LVarint | LUVarint =>
          if v.VInt? && IsWidth(f.dataSize) { ok := EncodeVarint(U64(v.n)); } else { ok := false; }
        case LSVarint =>
          if v.VInt? && IsWidth(f.dataSize) { ok := EncodeVarint(ZigZag(v.n)); } else { ok := false; }
        case LFixed32 =>
          if v.VInt? { ok := Write(EncFixed(U32(v.n), 4)); } else { ok := false; }
        case LFixed64 =>
          if v.VInt? { ok := Write(EncFixed(U64(v.n), 8)); } else { ok := false; }
        case LBytes | LString | LSubmessage | LFixedLengthBytes =>
          ok := false;
      }
    }

    /** One item of any type: the pb_enc_* dispatch. */
    method EncodeItem(table: Table, f: Field, v: Value) returns (ok: bool)
      requires Valid() && SizedItem(table, f, v)
      modifies this, buf
      ensures Valid() && Emits(old(Now()), Now(), EncItem(table, f, v), ok)
      decreases v, 3
    {
      if Packable(f.ltype) {
        ok := EncodeScalar(f, v);
      } else if f.ltype.LSubmessage? {
        ok := EncodeSubmessage(table, f, v);
      } else {
        var body := EncBody(table, f, v);
        if body.Some? { ok := EncodeString(body.value); } else { ok := false; }
      }
    }

    /** pb_encode_submessage: a sizing pass, the length, and then the writing pass on a stream limited
        to that length. "submsg size changed" is the last test; the contract shows it never fires. */
    method EncodeSubmessage(table: Table, f: Field, v: Value) returns (ok: bool)
      requires Valid() && SizedItem(table, f, v) && f.ltype.LSubmessage?
      modifies this, buf
      ensures Valid() && Emits(old(Now()), Now(), EncItem(table, f, v), ok)
      decreases v, 2
    {
      hide Within, Wrote, SizedMessage;
      ghost var s, e := Now(), EncMessage(table, f.sub, v);
      EmitsNothing(s);
      var sizing := new OStream.Sizing();
      ok := sizing.Encode(table, f.sub, v);
      if !ok { return; }
      var size := sizing.bytesWritten;
      assert e.Some? && size == |e.value| && e == EncBody(table, f, v);
      ok := EncodeVarint(size);
      ghost var s1 := Now();
      if !ok {
        EmitsFailed(s, s1, Some(EncVarint(size)), e);
        return;
      }
      if !writes {
        Count(e.value, size);
        EmitsThen(s, s1, Now(), EncVarint(size), e, true);
        return;
      }
      if bytesWritten + size > maxSize {
        EmitsRefused(s1, e.value);
        EmitsThen(s, s1, s1, EncVarint(size), e, false);
        return false;
      }
      var sub := new OStream.Limited(this, size);
      ghost var sub0 := sub.Now();
      ok := sub.Encode(table, f.sub, v);
      LimitedEmits(s1, sub0, sub.Now(), e, ok);
      bytesWritten := bytesWritten + sub.bytesWritten;
      state := sub.state;
      EmitsThen(s, s1, Now(), EncVarint(size), e, ok);
      if sub.bytesWritten != size { return false; }
    }

    /** The item loops of encode_array. */
    method EncodeItems(table: Table, f: Field, slot: Slot, keyed: bool) returns (ok: bool)
      requires Valid() && slot.Many? && SizedSlot(table, f, slot) && f.tag <= PB_SIZE_MAX
      modifies this, buf
      ensures Valid() && Emits(old(Now()), Now(), EncItems(table, f, slot, 0, keyed), ok)
      decreases slot, 0
    {
      hide Emits, EncItem, SizedItem;
      ghost var s, done := Now(), [];
      EmitsNothing(s);
      CatUnit(EncItems(table, f, slot, 0, keyed));
      for i := 0 to |slot.items|
        invariant Valid() && Emits(s, Now(), Some(done), true)
        invariant EncItems(table, f, slot, 0, keyed) == Cat(Some(done), EncItems(table, f, slot, i, keyed))
      {
        ghost var s1 := Now();
        ghost var one := EncKeyedItem(table, f, slot.items[i], keyed);
        ok := EncodeOne(table, f, slot.items[i], keyed);
        EmitsPart(s, s1, Now(), done, one, EncItems(table, f, slot, i + 1, keyed), ok);
        if !ok { return; }
        done := done + one.value;
      }
      CatUnit(Some(done));
      ok := true;
    }

    method EncodeOne(table: Table, f: Field, v: Value, keyed: bool) returns (ok: bool)
      requires Valid() && SizedItem(table, f, v) && f.tag <= PB_SIZE_MAX
      modifies this, buf
      ensures Valid() && Emits(old(Now()), Now(), EncKeyedItem(table, f, v, keyed), ok)
      decreases v, 4
    {
      ghost var s := Now();
      if keyed {
        ok := EncodeTag(WireType(f.ltype), f.tag);
        ghost var s1, key := Now(), Key(f.tag, WireType(f.ltype));
        if !ok {
          EmitsFailed(s, s1, Some(key), EncItem(table, f, v));
          return;
        }
        ok := EncodeItem(table, f, v);
        EmitsThen(s, s1, Now(), key, EncItem(table, f, v), ok);
      } else {
        ok := EncodeItem(table, f, v);
      }
    }

    /** encode_array. */
    method EncodeArray(table: Table, f: Field, slot: Slot) returns (ok: bool)
      requires Valid() && slot.Many? && SizedSlot(table, f, slot) && f.tag <= PB_SIZE_MAX
      modifies this, buf
      ensures Valid() && Emits(old(Now()), Now(), EncArray(table, f, slot), ok)
      decreases slot, 2
    {
      ghost var s := Now();
      EmitsNothing(s);
      if slot.items == [] { return true; }
      if f.atype.Static? && |slot.items| > f.arraySize { return false; }
      if !Packable(f.ltype) {
        ok := EncodeItems(table, f, slot, true);
        return;
      }
      ghost var e := EncItems(table, f, slot, 0, false);
      ok := EncodeTag(WT_STRING, f.tag);
      ghost var s1, key := Now(), Key(f.tag, WT_STRING);
      if !ok {
        EmitsFailed(s, s1, Some(key), if e.Some? then Some(Delimited(e.value)) else None);
        return;
      }
      ok := EncodePayload(table, f, slot);
      EmitsThen(s, s1, Now(), key, if e.Some? then Some(Delimited(e.value)) else None, ok);
    }

    /** The packed part of encode_array: the payload's size, then the payload. */
    method EncodePayload(table: Table, f: Field, slot: Slot) returns (ok: bool)
      requires Valid() && slot.Many? && SizedSlot(table, f, slot) && Packable(f.ltype) && f.tag <= PB_SIZE_MAX
      modifies this, buf
      ensures var e := EncItems(table, f, slot, 0, false);
              Valid() && Emits(old(Now()), Now(), if e.Some? then Some(Delimited(e.value)) else None, ok)
      decreases slot, 1
    {
      hide Within, Wrote;
      ghost var s, e := Now(), EncItems(table, f, slot, 0, false);
      EmitsNothing(s);
      var size;
      if f.ltype.LFixed32? || f.ltype.LFixed64? {
        FixedWidthArray(table, f, slot, 0);
        size := (if f.ltype.LFixed32? then 4 else 8) * |slot.items|;
      } else {
        var sizing := new OStream.Sizing();
        ok := sizing.EncodeItems(table, f, slot, false);
        if !ok { return; }
        size := sizing.bytesWritten;
      }
      assert e.Some? && size == |e.value|;
      ok := EncodeVarint(size);
      ghost var s1 := Now();
      if !ok {
        EmitsFailed(s, s1, Some(EncVarint(size)), e);
        return;
      }
      if !writes {
        Count(e.value, size);
        ok := true;
      } else {
        ok := EncodeItems(table, f, slot, false);
      }
      EmitsThen(s, s1, Now(), EncVarint(size), e, ok);
    }

    /** encode_basic_field. */
    method EncodeField(table: Table, f: Field, slot: Slot) returns (ok: bool)
      requires Valid() && SizedSlot(table, f, slot) && f.tag <= PB_SIZE_MAX
      modifies this, buf
      ensures Valid() && Emits(old(Now()), Now(), EncField(table, f, slot), ok)
      decreases slot, 3
    {
      EmitsNothing(Now());
      match slot {
        case One(v) =>
          if f.atype.Static? && f.htype.Required? {
            ok := EncodeOne(table, f, v, true);
          } else if f.atype.Static? && f.htype.Optional? && f.sizeOffset == 0 {
            // proto3 style field without a has_ flag
            if Proto3Default(table, f, slot) { ok := true; } else { ok := EncodeOne(table, f, v, true); }
          } else {
            ok := false;
          }
        case Opt(has, v) =>
          if !(f.atype.Static? && f.htype.Optional? && f.sizeOffset != 0) { ok := false; }
          else if has { ok := EncodeOne(table, f, v, true); }
          else { ok := true; }
        case Many(items) =>
          if f.htype.Repeated? && (FixedCount(f) ==> |items| == f.arraySize) {
            ok := EncodeArray(table, f, slot);
          } else {
            ok := false;
          }
        case Union(which, v) =>
          if !(f.atype.Static? && f.htype.OneOf?) { ok := false; }
          else if which == f.tag { ok := EncodeOne(table, f, v, true); }
          else { ok := true; }
        case Ptr(p) =>
          if !f.atype.Pointer? || !(f.htype.Required? || (f.htype.Optional? && f.sizeOffset == 0)) { ok := false; }
          else if p.Some? { ok := EncodeOne(table, f, p.value, true); }
          else { ok := !f.htype.Required?; }
      }
    }

    /** pb_encode: a walk over the descriptor with the field iterator. */
    method Encode(table: Table, d: nat, m: Value) returns (ok: bool)
      requires Valid() && SizedMessage(table, d, m)
      modifies this, buf
      ensures Valid() && Emits(old(Now()), Now(), EncMessage(table, d, m), ok)
      decreases m, 1
    {
      hide Emits, SizedSlot, EncField, Cat, EncFields, DataAddress, SizeAddress, RequiredIndex, SlotOf, ValidSnap;
      var fields := Descriptor(table, d);
      ghost var s, done := Now(), [];
      EmitsNothing(s);
      CatUnit(EncMessage(table, d, m));
      EncFieldsStep(table, fields, m, 0);
      var iter := new FieldIter(fields, 0);
      if fields == [] { return true; }
      if !m.VMsg? { return false; }
      while true
        invariant Valid() && Emits(s, Now(), Some(done), true)
        invariant iter.Valid() && iter.fields == fields
        invariant EncMessage(table, d, m) == Cat(Some(done), EncFields(table, fields, m, iter.pos))
        decreases |fields| - iter.pos
      {
        ghost var s1, rest := Now(), EncFields(table, fields, m, iter.pos + 1);
        EncFieldsStep(table, fields, m, iter.pos);
        if SlotOf(fields, iter.pos) >= |m.slots| {
          EmitsNothing(s1);
          EmitsThen(s, s1, s1, done, None, false);
          return false;
        }
        var f, slot := fields[iter.pos], m.slots[SlotOf(fields, iter.pos)];
        ghost var one := EncField(table, f, slot);
        ok := EncodeField(table, f, slot);
        ghost var s2 := Now();
        EmitsPart(s, s1, s2, done, one, rest, ok);
        if !ok { return; }
        done := done + one.value;
        CatUnit(Some(done));
        EncFieldsStep(table, fields, m, |fields|);
        var more := iter.Next();
        assert Now() == s2;
        if !more { return true; }
      }
    }
  }

  lemma {:induction false} EncFieldsStep(table: Table, fields: Fields, m: Value, k: nat)
    requires k <= |fields|
    ensures EncFields(table, fields, m, k) ==
              if k == |fields| then Some([])
              else if !m.VMsg? || SlotOf(fields, k) >= |m.slots| then None
              else Cat(EncField(table, fields[k], m.slots[SlotOf(fields, k)]), EncFields(table, fields, m, k + 1))
  {
  }

  /** An item, with its key when `keyed`. */
  function EncKeyedItem(table: Table, f: Field, v: Value, keyed: bool): Output {
    if keyed then Keyed(table, f, v) else EncItem(table, f, v)
  }

  /** pb_get_encoded_size. */
  method GetEncodedSize(table: Table, d: nat, m: Value) returns (size: Option<nat>)
    requires SizedMessage(table, d, m)
    ensures size.Some? <==> EncMessage(table, d, m).Some?
    ensures size.Some? ==> size.value == |EncMessage(table, d, m).value|
  {
    var stream := new OStream.Sizing();
    var ok := stream.Encode(table, d, m);
    return if ok then Some(stream.bytesWritten) else None;
  }

  /** The two passes agree: if the sizing pass counts n bytes, the writing pass succeeds exactly when n
      bytes fit and then writes exactly n; if the sizing pass fails, so does the writing pass. */
  method SizeThenEncode(stream: OStream, table: Table, d: nat, m: Value) returns (size: Option<nat>, ok: bool)
    requires stream.Valid() && stream.writes && SizedMessage(table, d, m)
    modifies stream, stream.buf
    ensures stream.Valid() && stream.bytesWritten <= stream.maxSize
    ensures ok <==> size.Some? && old(stream.bytesWritten) + size.value <= stream.maxSize
    ensures ok ==> stream.bytesWritten == old(stream.bytesWritten) + size.value
    ensures size.Some? <==> EncMessage(table, d, m).Some?
    ensures ok ==> Wrote(old(stream.buf[..]), stream.buf[..], old(stream.state), EncMessage(table, d, m).value)
  {
    hide SizedMessage, EncMessage, Wrote, Within;
    size := GetEncodedSize(table, d, m);
    ok := stream.Encode(table, d, m);
  }

  // ---------------------------------------------------------------- short messages

  lemma {:induction false} ShortItem(table: Table, f: Field, v: Value)
    requires EncItem(table, f, v).Some? && |EncItem(table, f, v).value| < TWO_64
    requires TagsFit(table)
    ensures SizedItem(table, f, v)
    decreases v, 1
  {
    hide EncVarint;
    if f.ltype.LSubmessage? { ShortIsSized(table, f.sub, v); }
  }

  ghost predicate TagsFit(table: Table) {
    forall d, k :: 0 <= d < |table| && 0 <= k < |table[d]| ==> table[d][k].tag <= PB_SIZE_MAX
  }

  lemma {:induction false} ShortItems(table: Table, f: Field, slot: Slot, i: nat, j: nat, keyed: bool)
    requires slot.Many? && i <= j < |slot.items|
    requires EncItems(table, f, slot, i, keyed).Some? && |EncItems(table, f, slot, i, keyed).value| < TWO_64
    ensures EncItem(table, f, slot.items[j]).Some? && |EncItem(table, f, slot.items[j]).value| < TWO_64
    decreases j - i
  {
    hide EncItem, Key;
    if i < j { ShortItems(table, f, slot, i + 1, j, keyed); }
  }

  lemma {:induction false} ShortSlot(table: Table, f: Field, slot: Slot)
    requires EncField(table, f, slot).Some? && |EncField(table, f, slot).value| < TWO_64 && TagsFit(table)
    ensures SizedSlot(table, f, slot)
    decreases slot, 1
  {
    hide EncItem, Key, EncVarint, SizedItem, TagsFit, Proto3Default, EncItems;
    match slot
    case One(v) => if f.htype.Required? || !Proto3Default(table, f, slot) { ShortItem(table, f, v); }
    case Opt(has, v) => if has { ShortItem(table, f, v); }
    case Union(which, v) => if which == f.tag { ShortItem(table, f, v); }
    case Ptr(p) => if p.Some? { ShortItem(table, f, p.value); }
    case Many(items) =>
      if items == [] {
        NoItems(table, f, slot);
      } else {
        forall j | 0 <= j < |items| ensures SizedItem(table, f, items[j]) {
          ShortItems(table, f, slot, 0, j, !Packable(f.ltype));
          ShortItem(table, f, items[j]);
        }
      }
  }

  lemma {:induction false} NoItems(table: Table, f: Field, slot: Slot)
    requires slot == Many([])
    ensures EncItems(table, f, slot, 0, false) == Some([])
  {
  }

  lemma {:induction false} ShortFields(table: Table, fields: Fields, m: Value, i: nat, k: nat)
    requires i <= k < |fields| && EncFields(table, fields, m, i).Some?
    requires |EncFields(table, fields, m, i).value| < TWO_64
    ensures m.VMsg? && SlotOf(fields, k) < |m.slots|
    ensures var e := EncField(table, fields[k], m.slots[SlotOf(fields, k)]); e.Some? && |e.value| < TWO_64
    decreases k - i
  {
    hide EncField;
    if i < k { ShortFields(table, fields, m, i + 1, k); }
  }

  /** A message with an encoding shorter than 2^64 bytes has no length above that inside. */
  lemma {:induction false} ShortIsSized(table: Table, d: nat, m: Value)
    requires EncMessage(table, d, m).Some? && |EncMessage(table, d, m).value| < TWO_64 && TagsFit(table)
    ensures SizedMessage(table, d, m)
    decreases m, 0
  {
    hide EncField, EncFields, SizedSlot;
    if m.VMsg? {
      var fields := Descriptor(table, d);
      forall k | 0 <= k < |fields| && SlotOf(fields, k) < |m.slots|
        ensures fields[k].tag <= PB_SIZE_MAX && SizedSlot(table, fields[k], m.slots[SlotOf(fields, k)])
      {
        ShortFields(table, fields, m, 0, k);
        ShortSlot(table, fields[k], m.slots[SlotOf(fields, k)]);
      }
    }
  }
}
