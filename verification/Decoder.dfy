/** pb_decode on a memory stream, tied to the parsers of DecodeSpec. The bytes between `pos` and
    `pos + bytesLeft` are what the spec calls the stream; every successful call keeps the end fixed. */
module Decoder {
  import opened Options
  import opened Bits
  import opened Wire
  import opened Schema
  import opened DecodeSpec
  import opened FieldIteration
  import opened Bitmap

  // ---------------------------------------------------------------- required fields

  /** The number of required fields that the bitmap tracks. */
  function TrackedCount(fields: Fields): (n: nat)
    ensures n <= PB_MAX_REQUIRED_FIELDS
  {
    var n := RequiredIndex(fields, |fields|);
    if n > PB_MAX_REQUIRED_FIELDS then PB_MAX_REQUIRED_FIELDS else n
  }

  /** The bitmap records exactly the tracked required fields in `seen`. */
  ghost predicate SeenMatches(words: seq<nat>, fields: Fields, seen: set<nat>) {
    && |words| == 2 && OnlyBelow(words, TrackedCount(fields))
    && forall k | 0 <= k < |fields| && Tracked(fields, k) ::
         Marked(words, RequiredIndex(fields, k)) <==> k in seen
  }

  lemma {:induction false} RequiredIndexStep(fields: Fields, j: nat, k: nat)
    requires j <= k <= |fields|
    ensures RequiredIndex(fields, j) <= RequiredIndex(fields, k)
    ensures j < k && fields[j].htype.Required? ==> RequiredIndex(fields, j) < RequiredIndex(fields, k)
    decreases k
  {
    if j < k { RequiredIndexStep(fields, j, k - 1); }
  }

  lemma {:induction false} NothingSeen(words: seq<nat>, fields: Fields)
    requires words == [0, 0]
    ensures SeenMatches(words, fields, {})
  {
    forall w, j: nat | 0 <= w < 2 ensures !Bit(words[w], j) { BitOfZero(j); }
  }

  /** Recording field `k` when it is found. */
  lemma {:induction false} SeenStep(before: seq<nat>, after: seq<nat>, fields: Fields, k: nat, seen: set<nat>)
    requires k < |fields| && SeenMatches(before, fields, seen) && |after| == 2
    requires if Tracked(fields, k) then
               && (forall i :: 0 <= i < 64 ==>
                     (Marked(after, i) <==> i == RequiredIndex(fields, k) || Marked(before, i)))
               && (forall count :: RequiredIndex(fields, k) < count && OnlyBelow(before, count) ==>
                     OnlyBelow(after, count))
             else after == before
    ensures SeenMatches(after, fields, if fields[k].htype.Required? then seen + {k} else seen)
  {
    RequiredIndexStep(fields, k, |fields|);
    forall j | 0 <= j < |fields| && Tracked(fields, j)
      ensures Marked(after, RequiredIndex(fields, j)) <==>
              j in (if fields[k].htype.Required? then seen + {k} else seen)
    {
      if j < k { RequiredIndexStep(fields, j, k); } else if k < j { RequiredIndexStep(fields, k, j); }
    }
  }

  lemma {:induction false} RequiredFieldAt(fields: Fields, n: nat, i: nat) returns (k: nat)
    requires n <= |fields| && i < RequiredIndex(fields, n)
    ensures k < n && fields[k].htype.Required? && RequiredIndex(fields, k) == i
    decreases n
  {
    if fields[n - 1].htype.Required? && RequiredIndex(fields, n - 1) == i { k := n - 1; }
    else { k := RequiredFieldAt(fields, n - 1, i); }
  }

  /** The word-packed check is exact: all tracked bits are set exactly when every tracked required field
      appeared in the input. */
  lemma {:induction false} SeenExact(words: seq<nat>, fields: Fields, seen: set<nat>)
    requires SeenMatches(words, fields, seen)
    ensures (forall i :: 0 <= i < TrackedCount(fields) ==> Marked(words, i)) <==> RequiredSeen(fields, seen)
  {
    if RequiredSeen(fields, seen) {
      forall i | 0 <= i < TrackedCount(fields) ensures Marked(words, i) {
        var k := RequiredFieldAt(fields, |fields|, i);
      }
    }
    if forall i :: 0 <= i < TrackedCount(fields) ==> Marked(words, i) {
      forall k | 0 <= k < |fields| && Tracked(fields, k) ensures k in seen {
        RequiredIndexStep(fields, k, |fields|);
      }
    }
  }

  ghost predicate Unambiguous(table: Table) {
    forall d :: 0 <= d < |table| ==> DistinctTags(table[d])
  }

  lemma {:induction false} FindNone(fields: Fields, tag: nat)
    requires forall k :: 0 <= k < |fields| ==> fields[k].tag != tag
    ensures FindField(fields, tag) == None
  {
  }

  lemma {:induction false} FindDistinct(table: Table, d: nat, k: nat)
    requires Unambiguous(table) && k < |Descriptor(table, d)|
    ensures FindField(Descriptor(table, d), Descriptor(table, d)[k].tag) == Some(k)
  {
    FindOwnTag(Descriptor(table, d), k);
  }

  // ---------------------------------------------------------------- bookkeeping

  /** The local variables of pb_decode_noinit besides the iterator: the bitmap of required fields, and
      the fixed-count field in progress with the number of its entries so far. */
  class Bookkeeping {
    const fields: Fields
    const fieldsSeen: array<nat>
    var fixedField: Option<nat>
    var fixedCount: nat

    ghost predicate Valid()
      reads this
    {
      fieldsSeen.Length == 2 && (fixedField.Some? ==> fixedField.value < |fields|)
    }

    /** These variables are the bookkeeping part of the loop state `st`. */
    ghost predicate Agrees(slots: seq<Slot>, st: LoopState)
      reads this, fieldsSeen
    {
      && st.slots == slots && st.fixedField == fixedField && st.fixedCount == fixedCount
      && SeenMatches(fieldsSeen[..], fields, st.seen)
    }

    constructor (fields: Fields, ghost slots: seq<Slot>)
      ensures Valid() && this.fields == fields && fresh(fieldsSeen) && Agrees(slots, Start(slots))
    {
      this.fields := fields;
      fieldsSeen := new nat[2][0, 0];
      fixedField, fixedCount := None, 0;
      new;
      NothingSeen(fieldsSeen[..], fields);
    }

    /** What happens when field `k` is found, before it is decoded. */
    method EnterField(k: nat, requiredFieldIndex: nat, ghost slots: seq<Slot>, ghost st: LoopState) returns (ok: bool)
      requires Valid() && k < |fields| && requiredFieldIndex == RequiredIndex(fields, k) && Agrees(slots, st)
      modifies this, fieldsSeen
      ensures Valid()
      ensures ok <==> Enter(fields, k, st).Some?
      ensures ok ==> Agrees(slots, Enter(fields, k, st).value)
    {
      if FixedCount(fields[k]) && fixedField != Some(k) {
        if fixedField.Some? && fixedCount != fields[fixedField.value].arraySize { return false; }
        fixedField, fixedCount := Some(k), 0;
      }
      ghost var before := fieldsSeen[..];
      if fields[k].htype.Required? && requiredFieldIndex < PB_MAX_REQUIRED_FIELDS {
        Mark(fieldsSeen, requiredFieldIndex);
      }
      SeenStep(before, fieldsSeen[..], fields, k, st.seen);
      return true;
    }

    /** Decoding the field may have advanced the fixed count. */
    method SetCount(count: nat, ghost slots: seq<Slot>, ghost slots': seq<Slot>, ghost st: LoopState)
      requires Valid() && Agrees(slots, st)
      modifies this
      ensures Valid() && Agrees(slots', st.(slots := slots', fixedCount := count))
    {
      fixedCount := count;
    }

    /** The checks at the end of pb_decode_noinit. */
    method FinalChecks(iter: FieldIter, ghost slots: seq<Slot>, ghost st: LoopState) returns (ok: bool)
      requires Valid() && iter.Valid() && iter.fields == fields && Agrees(slots, st)
      modifies iter
      ensures ok <==> Complete(fields, st)
    {
      if fixedField.Some? && fixedCount != fields[fixedField.value].arraySize { return false; }
      var count := iter.CountRequired();
      if count > PB_MAX_REQUIRED_FIELDS { count := PB_MAX_REQUIRED_FIELDS; }
      ok := CheckAll(fieldsSeen, count);
      SeenExact(fieldsSeen[..], fields, st.seen);
    }
  }

  datatype Outcome = Continue | Terminator | Failure

  // ---------------------------------------------------------------- the stream

  class IStream {
    const data: seq<Byte>
    var pos: nat
    var bytesLeft: nat

    ghost predicate Valid()
      reads this
    {
      pos + bytesLeft <= |data|
    }

    ghost function Rest(): (r: seq<Byte>)
      requires Valid()
      reads this
      ensures |r| == bytesLeft
    {
      data[pos..pos + bytesLeft]
    }

    ghost function End(): nat
      reads this
    {
      pos + bytesLeft
    }

    /** pb_istream_from_buffer. */
    constructor (data: seq<Byte>)
      ensures Valid() && this.data == data && pos == 0 && Rest() == data && bytesLeft == |data|
    {
      this.data, pos, bytesLeft := data, 0, |data|;
    }

    constructor Limited(parent: IStream, size: nat)
      requires parent.Valid() && size <= parent.bytesLeft
      ensures Valid() && data == parent.data && pos == parent.pos && bytesLeft == size
      ensures Rest() == parent.Rest()[..size]
    {
      data, pos, bytesLeft := parent.data, parent.pos, size;
    }

    /** pb_read. */
    method Read(count: nat) returns (ok: bool, bytes: seq<Byte>)
      requires Valid()
      modifies this
      ensures Valid() && End() == old(End())
      ensures var r := Take(old(Rest()), count);
              if ok then r == Ok(bytes, Rest()) else r.Err? && pos == old(pos)
    {
      if bytesLeft < count { return false, []; }
      bytes := data[pos..pos + count];
      pos := pos + count;
      bytesLeft := bytesLeft - count;
      assert old(Rest())[..count] == bytes && old(Rest())[count..] == Rest();
      ok := true;
    }

    /** pb_readbyte. */
    method ReadByte() returns (ok: bool, b: Byte)
      requires Valid()
      modifies this
      ensures Valid() && End() == old(End())
      ensures ok <==> old(bytesLeft) > 0
      ensures ok ==> b == old(Rest())[0] && Rest() == old(Rest())[1..]
      ensures !ok ==> pos == old(pos)
    {
      if bytesLeft == 0 { return false, 0; }
      b := data[pos];
      pos := pos + 1;
      bytesLeft := bytesLeft - 1;
      ok := true;
    }

    /** pb_decode_varint32. */
    method DecodeVarint32() returns (ok: bool, value: nat)
      requires Valid()
      modifies this
      ensures Valid() && End() == old(End())
      ensures ok <==> Varint32(old(Rest())).Ok?
      ensures ok ==> Varint32(old(Rest())) == Ok(value, Rest())
    {
      hide Shl, BitOr;
      var b;
      ok, b := ReadByte();
      if !ok { return false, 0; }
      if b < 128 { return true, b; }
      var bitpos: nat, result: nat := 7, Group(b);
      while true
        invariant Valid() && End() == old(End())
        invariant Varint32(old(Rest())) == Varint32Loop(Rest(), bitpos, result)
        decreases bytesLeft
      {
        ok, b := ReadByte();
        if !ok { return false, 0; }
        if bitpos >= 32 {
          if Group(b) != 0 && (result < TWO_31 || b != SignExtension(bitpos)) { return false, 0; }
        } else {
          result := BitOr(result, U32(Shl(Group(b), bitpos)));
        }
        bitpos := if bitpos + 7 < 256 then bitpos + 7 else bitpos + 7 - 256;
        if b < 128 { break; }
      }
      if bitpos == 35 && b >= 16 { return false, 0; }
      return true, result;
    }

    /** pb_decode_varint. */
    method DecodeVarint() returns (ok: bool, value: nat)
      requires Valid()
      modifies this
      ensures Valid() && End() == old(End())
      ensures ok <==> Varint64(old(Rest())).Ok?
      ensures ok ==> Varint64(old(Rest())) == Ok(value, Rest())
    {
      hide Shl, BitOr;
      var bitpos: nat, result: nat, b := 0, 0, 0;
      while true
        invariant Valid() && End() == old(End())
        invariant Varint64(old(Rest())) == Varint64Loop(Rest(), bitpos, result)
        decreases bytesLeft
      {
        if bitpos >= 64 { return false, 0; }
        ok, b := ReadByte();
        if !ok { return false, 0; }
        result := BitOr(result, U64(Shl(Group(b), bitpos)));
        bitpos := bitpos + 7;
        if b < 128 { return true, result; }
      }
    }

    /** pb_skip_varint. */
    method SkipVarint() returns (ok: bool)
      requires Valid()
      modifies this
      ensures Valid() && End() == old(End())
      ensures ok <==> DecodeSpec.SkipVarint(old(Rest())).Ok?
      ensures ok ==> DecodeSpec.SkipVarint(old(Rest())).rest == Rest()
    {
      var b;
      while true
        invariant Valid() && End() == old(End())
        invariant DecodeSpec.SkipVarint(old(Rest())) == DecodeSpec.SkipVarint(Rest())
        decreases bytesLeft
      {
        ok, b := ReadByte();
        if !ok { return false; }
        if b < 128 { return true; }
      }
    }

    /** pb_skip_field. */
    method SkipField(wt: nat) returns (ok: bool)
      requires Valid()
      modifies this
      ensures Valid() && End() == old(End())
      ensures ok <==> Skip(wt, old(Rest())).Ok?
      ensures ok ==> Skip(wt, old(Rest())).rest == Rest()
    {
      var bytes;
      if wt == WT_VARINT { ok := SkipVarint(); }
      else if wt == WT_64BIT { ok, bytes := Read(8); }
      else if wt == WT_32BIT { ok, bytes := Read(4); }
      else if wt == WT_STRING {
        var length;
        ok, length := DecodeVarint32();
        if ok { ok, bytes := Read(length); }
      } else { ok := false; }
    }

    /** pb_make_string_substream: the parent's bytes_left already excludes the payload, but its position
        only moves past it when the substream is closed. */
    method MakeSubstream() returns (ok: bool, sub: IStream)
      requires Valid()
      modifies this
      ensures Valid() && fresh(sub) && sub.Valid()
      ensures ok <==> Substream(old(Rest())).Ok?
      ensures ok ==> var r := Substream(old(Rest()));
                     && sub.data == data && sub.pos == pos && sub.Rest() == r.v
                     && bytesLeft == |r.rest| && sub.End() + bytesLeft == old(End())
                     && data[sub.End()..sub.End() + bytesLeft] == r.rest
                     && sub.bytesLeft < old(bytesLeft)
    {
      var size;
      ok, size := DecodeVarint32();
      if !ok || bytesLeft < size {
        sub := new IStream.Limited(this, 0);
        return false, sub;
      }
      sub := new IStream.Limited(this, size);
      assert Rest()[size..] == data[pos + size..pos + bytesLeft];
      bytesLeft := bytesLeft - size;
    }

    /** pb_close_string_substream: skips whatever the nested decoder left unread. */
    method CloseSubstream(sub: IStream)
      requires Valid() && sub.Valid() && sub != this && sub.data == data
      requires sub.End() + bytesLeft <= |data|
      modifies this, sub
      ensures Valid() && pos == old(sub.End()) && bytesLeft == old(bytesLeft)
    {
      if sub.bytesLeft != 0 {
        var _, _ := sub.Read(sub.bytesLeft);
      }
      pos := sub.pos;
    }

    /** The pb_dec_* functions of the packable types. */
    method DecodeScalar(f: Field) returns (ok: bool, v: Value)
      requires Valid()
      modifies this
      ensures Valid() && End() == old(End())
      ensures ok <==> DecScalar(f, old(Rest())).Ok?
      ensures ok ==> DecScalar(f, old(Rest())) == Ok(v, Rest())
    {
      hide Varint32, Varint64, OrBytes;
      var value, bytes;
      match f.ltype {
        case LBool =>
          ok, value := DecodeVarint32();
          return ok, VBool(value != 0);
        case LVarint =>
          ok, value := DecodeVarint();
          if !ok { return false, Unset; }
          var svalue := Signed(if f.dataSize == 8 then 8 else 4, value);
          return IsWidth(f.dataSize) && Signed(f.dataSize, svalue) == svalue, VInt(svalue);
        case LUVarint =>
          ok, value := DecodeVarint();
          if !ok { return false, Unset; }
          return IsWidth(f.dataSize) && Unsigned(f.dataSize, value) == value, VInt(value);
        case LSVarint =>
          ok, value := DecodeVarint();
          if !ok { return false, Unset; }
          var svalue := UnZigZag(value);
          return IsWidth(f.dataSize) && Signed(f.dataSize, svalue) == svalue, VInt(svalue);
        case LFixed32 =>
          ok, bytes := Read(4);
          return ok, VInt(if ok then OrBytes(bytes, 0, 0) else 0);
        case LFixed64 =>
          ok, bytes := Read(8);
          return ok, VInt(if ok then OrBytes(bytes, 0, 0) else 0);
        case LBytes | LString | LSubmessage | LFixedLengthBytes =>
          return false, Unset;
      }
    }

    /** pb_dec_bytes, pb_dec_string and pb_dec_fixed_length_bytes. */
    method DecodeBlob(f: Field) returns (ok: bool, v: Value)
      requires Valid()
      modifies this
      ensures Valid() && End() == old(End())
      ensures ok <==> DecBlob(f, old(Rest())).Ok?
      ensures ok ==> DecBlob(f, old(Rest())) == Ok(v, Rest())
    {
      hide Varint32;
      var size, bytes;
      ok, size := DecodeVarint32();
      if !ok { return false, Unset; }
      if f.ltype.LFixedLengthBytes? && size == 0 { return true, VBytes(Zeros(f.dataSize)); }
      if !BlobFits(f, size) { return false, Unset; }
      ok, bytes := Read(size);
      return ok, VBytes(bytes);
    }

    /** The packed branch of decode_static_field and decode_pointer_field, on the substream. */
    method DecodePacked(f: Field, items0: seq<Value>, count0: nat) returns (ok: bool, items: seq<Value>, count: nat)
      requires Valid()
      modifies this
      ensures Valid() && End() == old(End())
      ensures var r := DecPacked(f, items0, count0, old(Rest()));
              if ok then r == Filled(items, count) else r.Overflow?
    {
      hide DecScalar, Put;
      items, count := items0, count0;
      while bytesLeft > 0
        invariant Valid() && End() == old(End())
        invariant DecPacked(f, items0, count0, old(Rest())) == DecPacked(f, items, count, Rest())
        decreases bytesLeft
      {
        if count >= Capacity(f) || (f.atype.Pointer? && f.dataSize == 0) { return false, items, count; }
        ghost var before := Rest();
        var v;
        ok, v := DecodeScalar(f);
        if !ok { return; }
        items, count := Put(items, count, v), count + 1;
      }
      ok := true;
    }

    /** One item of any type; pb_dec_submessage opens a substream, decodes into it and closes it,
        whatever the nested decoder left unread. */
    method DecodeItem(table: Table, f: Field, cur: Value) returns (ok: bool, v: Value)
      requires Valid() && Unambiguous(table)
      modifies this
      ensures Valid()
      ensures ok <==> DecItem(table, f, cur, old(Rest())).Ok?
      ensures ok ==> DecItem(table, f, cur, old(Rest())) == Ok(v, Rest()) && End() == old(End())
      decreases bytesLeft, 3
    {
      hide DecScalar, DecBlob, Substream, Noinit, Unambiguous;
      if Packable(f.ltype) {
        ok, v := DecodeScalar(f);
      } else if !f.ltype.LSubmessage? {
        ok, v := DecodeBlob(f);
      } else {
        var sub, slots;
        ok, sub := MakeSubstream();
        if !ok || !cur.VMsg? { return false, Unset; }
        ghost var end := sub.End();
        var start := if f.htype.Repeated? then DefaultSlots(table, f.sub) else cur.slots;
        ok, slots := sub.DecodeNoinit(table, f.sub, start);
        if !ok { return false, Unset; }
        CloseSubstream(sub);
        return true, VMsg(slots);
      }
    }

    /** The repeated branches of decode_static_field and decode_pointer_field. `st` is the loop state
        that `slots` and `fixedCount` belong to. */
    method DecodeRepeated(table: Table, f: Field, i: nat, wt: nat, slots0: seq<Slot>, fixedCount0: nat,
          ghost st: LoopState)
      returns (ok: bool, slots: seq<Slot>, fixedCount: nat)
      requires Valid() && Unambiguous(table) && i < |slots0|
      requires st.slots == slots0 && st.fixedCount == fixedCount0
      modifies this
      ensures Valid()
      ensures var r := DecRepeated(table, f, i, st, wt, old(Rest()));
              if ok then r == Ok(st.(slots := slots, fixedCount := fixedCount), Rest())
                    && End() == old(End()) else r.Err?
      decreases bytesLeft, 4
    {
      hide DecItem, DecPacked, Substream, Unambiguous, Put;
      slots, fixedCount := slots0, fixedCount0;
      if !slots0[i].Many? { return false, slots, fixedCount; }
      var items := slots0[i].items;
      var count := if FixedCount(f) then fixedCount0 else |items|;
      if wt == WT_STRING && Packable(f.ltype) {
        var sub;
        ok, sub := MakeSubstream();
        if !ok { return; }
        ok, items, count := sub.DecodePacked(f, items, count);
        if !ok { return; }
        CloseSubstream(sub);
      } else {
        if count >= Capacity(f) || (f.atype.Pointer? && f.dataSize == 0) { return false, slots, fixedCount; }
        var v;
        ok, v := DecodeItem(table, f, FreshItem(table, f));
        if !ok { return; }
        items, count := Put(items, count, v), count + 1;
      }
      slots := slots0[i := Many(items)];
      fixedCount := if FixedCount(f) then count else fixedCount0;
    }

    /** decode_field. */
    method DecodeField(table: Table, d: nat, k: nat, wt: nat, slots0: seq<Slot>, fixedCount0: nat, ghost st: LoopState)
      returns (ok: bool, slots: seq<Slot>, fixedCount: nat)
      requires Valid() && Unambiguous(table) && k < |Descriptor(table, d)|
      requires st.slots == slots0 && st.fixedCount == fixedCount0
      modifies this
      ensures Valid()
      ensures var r := DecField(table, d, k, st, wt, old(Rest()));
              if ok then r == Ok(st.(slots := slots, fixedCount := fixedCount), Rest())
                    && End() == old(End()) else r.Err?
      decreases bytesLeft, 5
    {
      hide DecItem, DecRepeated, Unambiguous, Target;
      var fields := Descriptor(table, d);
      var f, i := fields[k], SlotOf(fields, k);
      slots, fixedCount := slots0, fixedCount0;
      if i >= |slots0| { return false, slots, fixedCount; }
      if f.htype.Repeated? {
        ok, slots, fixedCount := DecodeRepeated(table, f, i, wt, slots0, fixedCount0, st);
      } else {
        var cur := Target(table, fields, f, slots0[i]);
        if cur.None? { return false, slots, fixedCount; }
        var v;
        ok, v := DecodeItem(table, f, cur.value);
        if ok { slots := slots0[i := Stored(f, v)]; }
      }
    }

    /** One round of the record loop: the key, the iterator's search, and the field or a skip. */
    method DecodeRecord(table: Table, d: nat, iter: FieldIter, book: Bookkeeping, slots0: seq<Slot>,
          ghost st: LoopState)
      returns (outcome: Outcome, slots: seq<Slot>, ghost st': LoopState)
      requires Valid() && Unambiguous(table) && bytesLeft > 0
      requires iter.Valid() && iter.fields == Descriptor(table, d)
      requires book.Valid() && book.fields == Descriptor(table, d) && book.Agrees(slots0, st)
      modifies this, iter, book, book.fieldsSeen
      ensures Valid() && iter.Valid() && book.Valid()
      ensures match outcome
              case Continue => Step(table, d, st, old(Rest())) == Next(st', Rest()) && book.Agrees(slots, st')
                               && bytesLeft < old(bytesLeft) && End() == old(End())
              case Terminator => Step(table, d, st, old(Rest())) == Stop(Rest()) && slots == slots0 && st' == st
                                 && book.Agrees(slots, st') && End() == old(End())
              case Failure => Step(table, d, st, old(Rest())) == Fail
      decreases bytesLeft, 0
    {
      hide Varint32, DecField, Skip, Enter;
      slots, st' := slots0, st;
      var fields := Descriptor(table, d);
      var ok, key := DecodeVarint32();
      if !ok { return Failure, slots, st'; }
      if key == 0 { return Terminator, slots, st'; }
      var found := iter.Find(key / 8);
      if !found {
        FindNone(fields, key / 8);
        ok := SkipField(key % 8);
        return if ok then Continue else Failure, slots, st';
      }
      if fields == [] {
        // the terminator entry is found: a required bool that belongs to no field
        var value;
        ok, value := DecodeVarint32();
        return if ok then Continue else Failure, slots, st';
      }
      var k := iter.pos;
      assert FindField(fields, key / 8) == Some(k) by { FindDistinct(table, d, k); }
      ok := book.EnterField(k, iter.requiredFieldIndex, slots0, st);
      if !ok { return Failure, slots, st'; }
      ghost var entered := Enter(fields, k, st).value;
      var count;
      ok, slots, count := DecodeField(table, d, k, key % 8, slots0, book.fixedCount, entered);
      if !ok { return Failure, slots, st'; }
      st' := entered.(slots := slots, fixedCount := count);
      book.SetCount(count, slots0, slots, entered);
      return Continue, slots, st';
    }

    /** pb_decode_noinit: the record loop and the final checks. */
    method DecodeNoinit(table: Table, d: nat, slots0: seq<Slot>) returns (ok: bool, slots: seq<Slot>)
      requires Valid() && Unambiguous(table)
      modifies this
      ensures Valid()
      ensures ok <==> Noinit(table, d, slots0, old(Rest())).Ok?
      ensures ok ==> Noinit(table, d, slots0, old(Rest())) == Ok(slots, Rest()) && End() == old(End())
      decreases bytesLeft, 2
    {
      hide Step, Complete;
      var fields := Descriptor(table, d);
      var iter := new FieldIter(fields, 0);
      var book := new Bookkeeping(fields, slots0);
      slots := slots0;
      ghost var st := Start(slots0);
      while bytesLeft > 0
        invariant Valid() && End() == old(End()) && bytesLeft <= old(bytesLeft)
        invariant iter.Valid() && iter.fields == fields && fresh(iter)
        invariant book.Valid() && book.fields == fields && fresh(book) && fresh(book.fieldsSeen)
        invariant book.Agrees(slots, st)
        invariant Loop(table, d, Start(slots0), old(Rest())) == Loop(table, d, st, Rest())
        decreases bytesLeft
      {
        var outcome;
        outcome, slots, st := DecodeRecord(table, d, iter, book, slots, st);
        if outcome.Failure? { return false, slots; }
        if outcome.Terminator? {
          ok := book.FinalChecks(iter, slots, st);
          return;
        }
      }
      ok := book.FinalChecks(iter, slots, st);
    }

    /** pb_decode. */
    method Decode(table: Table, d: nat) returns (ok: bool, m: Value)
      requires Valid() && Unambiguous(table)
      modifies this
      ensures Valid()
      ensures ok <==> DecodeSpec.Decode(table, d, old(Rest())).Ok?
      ensures ok ==> DecodeSpec.Decode(table, d, old(Rest())) == Ok(m, Rest()) && End() == old(End())
    {
      var slots;
      ok, slots := DecodeNoinit(table, d, DefaultSlots(table, d));
      m := VMsg(slots);
    }
  }
}
