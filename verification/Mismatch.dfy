/** Keys whose wire type is not the one the field's decoder reads. pb_decode_noinit takes the payload's
    form from the descriptor and not from the key, so that a complete record can be read past its end.
    This module says exactly when decoding still merges concatenated input. */
module Mismatch {
  import opened Options
  import opened Bits
  import opened Wire
  import opened Schema
  import opened EncodeSpec
  import opened DecodeSpec
  import opened Records

  predicate Blob(l: LType) {
    l.LBytes? || l.LString? || l.LFixedLengthBytes?
  }

  /** The buffer has no room for a single byte. */
  predicate ZeroCapacity(f: Field) {
    match f.ltype
    case LBytes => f.atype.Static? && f.dataSize <= BYTES_HEADER
    case LString => f.atype.Static? && f.dataSize <= 1
    case LFixedLengthBytes => f.dataSize == 0
    case _ => false
  }

  /** No payload of this wire type can both be read past its end and succeed: the array has no entries, or
      the length is complete and no length but zero is accepted. */
  predicate NoRoom(f: Field, wt: nat) {
    (f.htype.Repeated? && Capacity(f) == 0) || (wt == WT_VARINT && ZeroCapacity(f))
  }

  predicate IsWireType(wt: nat) {
    wt == WT_VARINT || wt == WT_64BIT || wt == WT_STRING || wt == WT_32BIT
  }

  /** No bytes at all decode as the submessage: its type needs itself, say. */
  ghost predicate NoBody(table: Table, f: Field) {
    f.ltype.LSubmessage?
    && forall body :: |body| < TWO_32 ==> Noinit(table, f.sub, DefaultSlots(table, f.sub), body).Err?
  }

  /** pb_decode of a record of field `k` with this wire type, and then anything, is decoding the one and
      then the other. */
  ghost predicate Merges(table: Table, d: nat, k: nat, wt: nat)
    requires k < |Descriptor(table, d)|
  {
    forall p, b :: PayloadSize(wt, p) == Some(|p|) ==> MergesOn(table, d, k, wt, DefaultSlots(table, d), p, b)
  }

  predicate MergesOn(table: Table, d: nat, k: nat, wt: nat, slots: seq<Slot>, p: seq<Byte>, b: seq<Byte>)
    requires k < |Descriptor(table, d)|
  {
    var a := Key(Descriptor(table, d)[k].tag, wt) + p;
    var first := Noinit(table, d, slots, a);
    Noinit(table, d, slots, a + b) == if first.Ok? then Noinit(table, d, first.v, b) else Err
  }

  // ---------------------------------------------------------------- padded zeros

  function Pad(n: nat): (s: seq<Byte>)
    ensures |s| == n
  {
    seq(n, _ => 0x80)
  }

  lemma {:induction false} PadZero(n: nat)
    ensures IsVarint(Pad(n) + [0]) && GroupValue(Pad(n) + [0]) == 0
  {
    var v := Pad(n) + [0];
    if n > 0 {
      PadZero(n - 1);
      assert v[1..] == Pad(n - 1) + [0];
    } else {
      assert v == [0] && v[1..] == [];
    }
  }

  lemma {:induction false} PadOpen(n: nat)
    ensures VarintLen(Pad(n)).None?
  {
    if n > 0 {
      PadOpen(n - 1);
      assert Pad(n)[1..] == Pad(n - 1);
    }
  }

  /** A padded zero is read as 0, and without its last byte not at all. */
  lemma {:induction false} PadRead(n: nat, t: seq<Byte>)
    requires n <= 9
    ensures Varint32(Pad(n)).Err? && Varint64(Pad(n)).Err?
    ensures Varint32(Pad(n) + [0] + t) == Ok(0, t) && Varint64(Pad(n) + [0] + t) == Ok(0, t)
  {
    hide Varint32, Varint64, IsVarint, Pad;
    PadOpen(n);
    if Varint32(Pad(n)).Ok? { Varint32Consumes(Pad(n)); }
    if Varint64(Pad(n)).Ok? { Varint64Consumes(Pad(n)); }
    PadZero(n);
    Varint32AgreesWith64(Pad(n) + [0], t);
    Varint64Value(Pad(n) + [0], t);
  }

  lemma {:induction false} OneByte(b: Byte, t: seq<Byte>)
    requires b < 128
    ensures Varint32([b] + t) == Ok(b, t) && Varint64([b] + t) == Ok(b, t) && VarintLen([b] + t) == Some(1)
  {
    hide Shl, BitOr;
    var s := [b] + t;
    assert s[1..] == t && IsVarint([b]) && GroupValue([b]) == b by { assert [b][1..] == []; }
    Varint64Value([b], t);
    assert U64(b) == b;
  }

  // ---------------------------------------------------------------- the item

  /** A payload of wire type `wt` that the decoder of a scalar or blob reads past, and bytes that let it
      succeed. */
  function Payload(f: Field, wt: nat): seq<Byte> {
    match WireType(f.ltype)
    case 0 => if wt == WT_STRING then [1] + Pad(1) else if wt == WT_64BIT then Pad(8) else Pad(4)
    case 5 => if wt == WT_64BIT then Zeros(4) + Pad(4) else [0]
    case 1 => if wt == WT_32BIT then Zeros(4) else [0]
    case _ => if wt == WT_VARINT then EncVarint(Room(f)) else if wt == WT_64BIT then Pad(8) else Pad(4)
  }

  function Rescue(f: Field, wt: nat): seq<Byte> {
    match WireType(f.ltype)
    case 0 => [0]
    case 5 => if wt == WT_64BIT then [0] else Zeros(3)
    case 1 => if wt == WT_32BIT then Zeros(4) else Zeros(7)
    case _ => if wt == WT_VARINT then Zeros(Room(f)) else [0]
  }

  /** A length that the buffer accepts. */
  function Room(f: Field): nat {
    if f.ltype.LFixedLengthBytes? then f.dataSize else 1
  }

  /** The item is read past the payload's end; or it ends inside the payload, and what is left of that is
      an incomplete key which the next byte turns into a terminator. */
  predicate ReadsPast(table: Table, f: Field, cur: Value, p: seq<Byte>, b: seq<Byte>) {
    var r, r' := DecItem(table, f, cur, p), DecItem(table, f, cur, p + b);
    && r'.Ok?
    && (if r.Err? then r'.rest == []
        else exists n: nat | 1 <= n <= 9 :: r.rest == Pad(n) && r'.rest == Pad(n) + [0])
  }

  lemma {:induction false} SmallScalar(f: Field, s: seq<Byte>, x: nat, rest: seq<Byte>)
    requires WireType(f.ltype) == WT_VARINT && x <= 1
    requires f.ltype.LVarint? || f.ltype.LUVarint? || f.ltype.LSVarint? ==> IsWidth(f.dataSize)
    requires Varint32(s) == Varint64(s) == Ok(x, rest)
    ensures DecScalar(f, s).Ok? && DecScalar(f, s).rest == rest
  {
    hide Varint32, Varint64, Signed, Unsigned, UnZigZag;
    if IsWidth(f.dataSize) { SmallCasts(f.dataSize, x); }
  }

  lemma {:induction false} SmallCasts(size: nat, x: int)
    requires IsWidth(size) && 0 <= x <= 1
    ensures Signed(size, x) == Signed(4, x) == Signed(8, x) == Unsigned(size, x) == x
    ensures UnZigZag(x) == -x == Signed(size, -x)
  {
    SignedExact(size, size, x);
    SignedExact(4, 8, x);
    SignedExact(8, 8, x);
    SignedExact(size, size, -x);
    SignedExact(8, 8, -x);
    assert Signed(8, TWO_64 - 1) == -1 && Signed(8, 0) == 0;
  }

  lemma {:induction false} VarintItem(table: Table, d: nat, f: Field, cur: Value, wt: nat)
    requires ValidField(table, d, f) && WireType(f.ltype) == WT_VARINT && IsWireType(wt) && wt != WT_VARINT
    ensures ReadsPast(table, f, cur, Payload(f, wt), Rescue(f, wt))
    ensures PayloadSize(wt, Payload(f, wt)) == Some(|Payload(f, wt)|)
  {
    hide Varint32, Varint64, DecScalar, Pad;
    var p := Payload(f, wt);
    if wt == WT_STRING {
      OneByte(1, Pad(1));
      OneByte(1, Pad(1) + [0]);
      assert p + [0] == [1] + (Pad(1) + [0]);
      SmallScalar(f, p, 1, Pad(1));
      SmallScalar(f, p + [0], 1, Pad(1) + [0]);
    } else {
      PadRead(|p|, []);
      assert p + [0] + [] == p + [0];
      SmallScalar(f, p + [0], 0, []);
      OpenScalar(f, p);
    }
  }

  lemma {:induction false} OpenScalar(f: Field, s: seq<Byte>)
    requires WireType(f.ltype) == WT_VARINT && Varint32(s).Err? && Varint64(s).Err?
    ensures DecScalar(f, s).Err?
  {
  }

  lemma {:induction false} FixedItem(table: Table, f: Field, cur: Value, wt: nat)
    requires f.ltype.LFixed32? || f.ltype.LFixed64?
    requires IsWireType(wt) && wt != WireType(f.ltype)
    ensures ReadsPast(table, f, cur, Payload(f, wt), Rescue(f, wt))
    ensures PayloadSize(wt, Payload(f, wt)) == Some(|Payload(f, wt)|)
  {
    hide OrBytes, Varint32, Pad;
    var p, b := Payload(f, wt), Rescue(f, wt);
    if f.ltype.LFixed32? && wt == WT_64BIT {
      assert p[4..] == Pad(4) && (p + b)[4..] == Pad(4) + [0];
    } else {
      OneByte(0, []);
      assert [0] + [] == [0];
      assert (p + b)[|p + b|..] == [];
    }
  }

  lemma {:induction false} EmptyBlob(f: Field, s: seq<Byte>)
    requires Blob(f.ltype) && Varint32(s) == Ok(0, [])
    requires f.ltype.LFixedLengthBytes? || BlobFits(f, 0)
    ensures DecBlob(f, s).Ok? && DecBlob(f, s).rest == []
  {
    hide Varint32;
  }

  lemma {:induction false} BlobItem(table: Table, d: nat, f: Field, cur: Value, wt: nat)
    requires ValidField(table, d, f) && Blob(f.ltype) && IsWireType(wt) && wt != WT_STRING
    requires wt == WT_VARINT ==> !ZeroCapacity(f)
    ensures ReadsPast(table, f, cur, Payload(f, wt), Rescue(f, wt))
    ensures PayloadSize(wt, Payload(f, wt)) == Some(|Payload(f, wt)|)
  {
    hide Varint32, Pad, EncVarint, VarintLen;
    var p, b := Payload(f, wt), Rescue(f, wt);
    if wt == WT_VARINT {
      LengthOnly(Room(f), b);
      assert b[Room(f)..] == [];
    } else {
      PadRead(|p|, []);
      assert p + [0] + [] == p + [0];
      EmptyBlob(f, p + [0]);
    }
  }

  /** A length, alone and followed by as many bytes. */
  lemma {:induction false} LengthOnly(n: nat, b: seq<Byte>)
    requires n < TWO_32
    ensures Varint32(EncVarint(n)) == Ok(n, []) && Varint32(EncVarint(n) + b) == Ok(n, b)
    ensures VarintLen(EncVarint(n)) == Some(|EncVarint(n)|)
  {
    hide Varint32, EncVarint, VarintLen;
    Varint32RoundTrip(n, b);
    Varint32RoundTrip(n, []);
    assert EncVarint(n) + [] == EncVarint(n);
    Varint32Consumes(EncVarint(n));
  }

  // ---------------------------------------------------------------- submessages

  /** A message that decodes still does with a terminator and anything else behind it. */
  lemma {:induction false} Terminated(table: Table, d: nat, st: LoopState, s: seq<Byte>, t: seq<Byte>)
    requires !Loop(table, d, st, s).Failed?
    ensures var r := Loop(table, d, st, s + ([0] + t)); r.Stopped? && r.st == Loop(table, d, st, s).st
    decreases |s|
  {
    hide Varint32, DecField, Enter, Skip, FindField;
    var more: seq<Byte> := [0] + t;
    if s == [] {
      OneByte(0, t);
      assert s + more == more;
    } else {
      var r := Step(table, d, st, s);
      assert !r.Fail?;
      if r.Next? {
        StepSuffix(table, d, st, s, more);
        Terminated(table, d, r.st, r.rest, t);
      } else {
        Varint32Suffix(s, more);
      }
    }
  }

  /** A body of at least eight bytes. */
  lemma {:induction false} LongBody(table: Table, d: nat, slots: seq<Slot>, body: seq<Byte>) returns (long: seq<Byte>)
    requires |body| < TWO_32 && Noinit(table, d, slots, body).Ok?
    ensures 8 <= |long| < TWO_32 && Noinit(table, d, slots, long).Ok?
  {
    hide Loop;
    if |body| >= 8 {
      long := body;
    } else {
      Terminated(table, d, Start(slots), body, Zeros(8));
      long := body + ([0] + Zeros(8));
    }
  }

  /** Part of a length-prefixed body, and the rest of it. */
  lemma {:induction false} CutBody(body: seq<Byte>, n: nat)
    requires |body| < TWO_32 && n < |Delimited(body)|
    ensures Substream(Delimited(body)[..n]).Err? && Substream(Delimited(body)) == Ok(body, [])
  {
    hide Delimited, Substream;
    var e := Delimited(body);
    DelimitedRoundTrip(body, []);
    assert e + [] == e && e[..n] + e[n..] == e;
    if Substream(e[..n]).Ok? { SubstreamSuffix(e[..n], e[n..]); }
  }

  /** How much of the length-prefixed body is the payload. */
  function Cut(body: seq<Byte>, wt: nat): nat {
    if wt == WT_VARINT then |EncVarint(|body|)| else if wt == WT_64BIT then 8 else 4
  }

  lemma {:induction false} SubmessageItem(table: Table, f: Field, body: seq<Byte>, wt: nat)
    requires f.ltype.LSubmessage? && IsWireType(wt) && wt != WT_STRING && 8 <= |body| < TWO_32
    requires Noinit(table, f.sub, DefaultSlots(table, f.sub), body).Ok?
    ensures var e, n := Delimited(body), Cut(body, wt);
            && n < |e| && PayloadSize(wt, e[..n]) == Some(n)
            && ReadsPast(table, f, VMsg(DefaultSlots(table, f.sub)), e[..n], e[n..])
  {
    hide Varint32, EncVarint, VarintLen, Noinit, Substream;
    var e, n := Delimited(body), Cut(body, wt);
    LengthOnly(|body|, body);
    if wt == WT_VARINT { assert e[..n] == EncVarint(|body|); }
    CutBody(body, n);
    assert e[..n] + e[n..] == e;
  }

  lemma {:induction false} ItemReadsPast(table: Table, d: nat, f: Field, cur: Value, wt: nat)
    returns (p: seq<Byte>, b: seq<Byte>)
    requires ValidField(table, d, f) && (f.ltype.LSubmessage? ==> cur == VMsg(DefaultSlots(table, f.sub)))
    requires IsWireType(wt) && wt != WireType(f.ltype) && !NoRoom(f, wt) && !NoBody(table, f)
    ensures ReadsPast(table, f, cur, p, b) && PayloadSize(wt, p) == Some(|p|)
  {
    hide ReadsPast, Payload, Rescue, PayloadSize, Delimited, Cut, Noinit;
    if f.ltype.LSubmessage? {
      var body :| |body| < TWO_32 && !Noinit(table, f.sub, DefaultSlots(table, f.sub), body).Err?;
      var long := LongBody(table, f.sub, DefaultSlots(table, f.sub), body);
      SubmessageItem(table, f, long, wt);
      p, b := Delimited(long)[..Cut(long, wt)], Delimited(long)[Cut(long, wt)..];
    } else {
      p, b := Payload(f, wt), Rescue(f, wt);
      if f.ltype.LFixed32? || f.ltype.LFixed64? { FixedItem(table, f, cur, wt); }
      else if Packable(f.ltype) { VarintItem(table, d, f, cur, wt); }
      else { BlobItem(table, d, f, cur, wt); }
    }
  }

  // ---------------------------------------------------------------- the record

  /** What the item decoder of field `k` is given in an initialised structure. */
  function Storage(table: Table, d: nat, k: nat): Value
    requires k < |Descriptor(table, d)|
  {
    var fields := Descriptor(table, d);
    var f := fields[k];
    if f.htype.Repeated? then FreshItem(table, f)
    else
      var cur := Target(table, fields, f, DefaultSlot(table, d, f));
      if cur.Some? then cur.value else Unset
  }

  /** In an initialised structure, a record of field `k` succeeds as its item does. */
  lemma {:induction false} FieldIsItem(table: Table, d: nat, k: nat, wt: nat, q: seq<Byte>)
    requires ValidTable(table) && d < |table| && k < |table[d]| && Plain(table[d])
    requires IsWireType(wt) && !WireTypeFits(table[d], table[d][k].tag, wt) && !NoRoom(table[d][k], wt)
    ensures var f := table[d][k]; f.ltype.LSubmessage? ==> Storage(table, d, k) == VMsg(DefaultSlots(table, f.sub))
    ensures wt != WireType(table[d][k].ltype)
    ensures var r := DecField(table, d, k, Start(DefaultSlots(table, d)), wt, q);
            var item := DecItem(table, table[d][k], Storage(table, d, k), q);
            (r.Ok? <==> item.Ok?) && (r.Ok? ==> r.rest == item.rest)
  {
    hide DecItem, ValidTable, DefaultSlots, FindField, Put;
    ValidAt(table, d, k);
    FindOwnTag(table[d], k);
    DefaultSlotAt(table, d, k);
    var f, st := table[d][k], Start(DefaultSlots(table, d));
    assert st.slots[SlotOf(table[d], k)] == DefaultSlot(table, d, f);
  }

  /** A key that is cut off, and one that the next byte completes to a terminator. */
  lemma {:induction false} CutKey(table: Table, d: nat, slots: seq<Slot>, n: nat)
    requires Plain(Descriptor(table, d)) && 1 <= n <= 9
    ensures Loop(table, d, Start(slots), Pad(n)) == Failed
    ensures Loop(table, d, Start(slots), Pad(n) + [0]) == Stopped(Start(slots), [])
  {
    hide Varint32, Pad;
    PadRead(n, []);
    assert Pad(n) + [0] + [] == Pad(n) + [0];
  }

  lemma {:induction false} PlainComplete(fields: Fields, slots: seq<Slot>)
    requires Plain(fields)
    ensures Complete(fields, Start(slots))
  {
  }

  /** The loop on a record of field `k` and what follows it, in terms of the field. */
  lemma {:induction false} PlainRecord(table: Table, d: nat, k: nat, wt: nat, slots: seq<Slot>, q: seq<Byte>)
    requires d < |table| && ValidDescriptor(table, d) && k < |table[d]| && Plain(table[d]) && wt < 8
    ensures var r := DecField(table, d, k, Start(slots), wt, q);
            && Loop(table, d, Start(slots), Key(table[d][k].tag, wt) + q)
               == (if r.Ok? then Loop(table, d, Start(r.v.slots), r.rest) else Failed)
  {
    hide DecField, Loop, Key;
    KnownRound(table, d, k, wt, Start(slots), q);
    PlainField(table, d, k, Start(slots), wt, q);
    assert Enter(table[d], k, Start(slots)) == Some(Start(slots));
  }

  /** Every wire type that does not fit a field breaks merging, unless there is no room and, for a
      submessage, no body: there is a complete record on which decoding fails, although it succeeds when
      more bytes follow. */
  lemma {:induction false} MismatchBreaksMerging(table: Table, d: nat, k: nat, wt: nat)
    returns (p: seq<Byte>, b: seq<Byte>)
    requires ValidTable(table) && d < |table| && k < |table[d]| && Plain(table[d]) && IsWireType(wt)
    requires !WireTypeFits(table[d], table[d][k].tag, wt)
    requires !NoRoom(table[d][k], wt) && !NoBody(table, table[d][k])
    ensures var a := Key(table[d][k].tag, wt) + p;
            && PayloadSize(wt, p) == Some(|p|)
            && Decode(table, d, a).Err? && Decode(table, d, a + b).Ok?
  {
    hide DecItem, DecField, Loop, Key, PayloadSize, ValidTable, Plain, WireTypeFits, DefaultSlots, NoBody, NoRoom;
    ValidAt(table, d, k);
    var f, slots := table[d][k], DefaultSlots(table, d);
    FieldIsItem(table, d, k, wt, []);
    p, b := ItemReadsPast(table, d, f, Storage(table, d, k), wt);
    FieldIsItem(table, d, k, wt, p);
    FieldIsItem(table, d, k, wt, p + b);
    PlainRecord(table, d, k, wt, slots, p);
    PlainRecord(table, d, k, wt, slots, p + b);
    assert Key(f.tag, wt) + p + b == Key(f.tag, wt) + (p + b);
    var r, r' := DecField(table, d, k, Start(slots), wt, p), DecField(table, d, k, Start(slots), wt, p + b);
    PlainComplete(table[d], r'.v.slots);
    if r.Ok? {
      var n: nat :| 1 <= n <= 9 && r.rest == Pad(n) && r'.rest == Pad(n) + [0];
      CutKey(table, d, r.v.slots, n);
      CutKey(table, d, r'.v.slots, n);
    } else {
      NoMore(table, d, Start(r'.v.slots));
    }
  }

  lemma {:induction false} NoMore(table: Table, d: nat, st: LoopState)
    ensures Loop(table, d, st, []) == Ended(st)
  {
  }

  // ---------------------------------------------------------------- wire types that merge

  lemma {:induction false} FittingMerges(table: Table, d: nat, k: nat, wt: nat, slots: seq<Slot>, p: seq<Byte>,
          b: seq<Byte>)
    requires ValidTable(table) && d < |table| && k < |table[d]| && Plain(table[d])
    requires IsWireType(wt) && WireTypeFits(table[d], table[d][k].tag, wt) && PayloadSize(wt, p) == Some(|p|)
    ensures MergesOn(table, d, k, wt, slots, p, b)
  {
    hide Noinit, Key, ValidTable, Plain, Varint32, WireTypeFits, PayloadSize;
    ValidAt(table, d, k);
    var a := Key(table[d][k].tag, wt) + p;
    KeyRoundTrip(table[d][k].tag, wt, p);
    assert PastRecord(table[d], a) == [];
    assert RecordSequence(table[d], a);
    MergeByConcatenation(table, d, slots, a, b);
  }

  /** Where there is no room, a record fails whatever follows it, or takes exactly its payload. */
  lemma {:induction false} NoRoomField(table: Table, d: nat, k: nat, wt: nat, st: LoopState, p: seq<Byte>, b: seq<Byte>)
    requires ValidTable(table) && d < |table| && k < |table[d]| && !FixedCount(table[d][k])
    requires IsWireType(wt) && !WireTypeFits(table[d], table[d][k].tag, wt) && NoRoom(table[d][k], wt)
    requires PayloadSize(wt, p) == Some(|p|)
    ensures var r := DecField(table, d, k, st, wt, p);
            DecField(table, d, k, st, wt, p + b) == Then(r, b) && (r.Ok? ==> r.rest == [])
  {
    hide DecItem, ValidTable, FindField, Put, VarintLen, Varint32, Target, FreshItem;
    ValidAt(table, d, k);
    FindOwnTag(table[d], k);
    var f := table[d][k];
    var i := SlotOf(table[d], k);
    if !(f.htype.Repeated? && Capacity(f) == 0) && i < |st.slots| {
      var cur := Target(table, table[d], f, st.slots[i]);
      EmptyBlobOnly(table, f, FreshItem(table, f), p, b);
      if cur.Some? { EmptyBlobOnly(table, f, cur.value, p, b); }
    }
  }

  lemma {:induction false} EmptyBlobOnly(table: Table, f: Field, cur: Value, p: seq<Byte>, b: seq<Byte>)
    requires ZeroCapacity(f) && VarintLen(p) == Some(|p|)
    ensures DecItem(table, f, cur, p + b) == Then(DecItem(table, f, cur, p), b)
    ensures DecItem(table, f, cur, p).Ok? ==> DecItem(table, f, cur, p).rest == []
  {
    hide Varint32, VarintLen;
    Varint32Suffix(p, b);
    if Varint32(p).Ok? {
      Varint32Consumes(p);
      assert p[|p|..] == [] && [] + b == b;
    }
  }

  lemma {:induction false} NoRoomMerges(table: Table, d: nat, k: nat, wt: nat, slots: seq<Slot>, p: seq<Byte>,
          b: seq<Byte>)
    requires ValidTable(table) && d < |table| && k < |table[d]| && Plain(table[d])
    requires IsWireType(wt) && !WireTypeFits(table[d], table[d][k].tag, wt) && NoRoom(table[d][k], wt)
    requires PayloadSize(wt, p) == Some(|p|)
    ensures MergesOn(table, d, k, wt, slots, p, b)
  {
    hide DecField, Loop, Key, ValidTable, WireTypeFits, PayloadSize, NoRoom;
    ValidAt(table, d, k);
    NoRoomField(table, d, k, wt, Start(slots), p, b);
    PlainRecord(table, d, k, wt, slots, p);
    PlainRecord(table, d, k, wt, slots, p + b);
    assert Key(table[d][k].tag, wt) + p + b == Key(table[d][k].tag, wt) + (p + b);
    var r := DecField(table, d, k, Start(slots), wt, p);
    if r.Ok? {
      assert [] + b == b;
      NoMore(table, d, Start(r.v.slots));
      PlainComplete(table[d], r.v.slots);
    }
  }

  /** Where the wire type fits or there is no room, records merge in any structure. */
  lemma {:induction false} MergesAnywhere(table: Table, d: nat, k: nat, wt: nat, slots: seq<Slot>, p: seq<Byte>,
          b: seq<Byte>)
    requires ValidTable(table) && d < |table| && k < |table[d]| && Plain(table[d]) && IsWireType(wt)
    requires WireTypeFits(table[d], table[d][k].tag, wt) || NoRoom(table[d][k], wt)
    requires PayloadSize(wt, p) == Some(|p|)
    ensures MergesOn(table, d, k, wt, slots, p, b)
  {
    hide MergesOn, PayloadSize, ValidTable, Plain, NoRoom, WireTypeFits, IsWireType;
    if WireTypeFits(table[d], table[d][k].tag, wt) { FittingMerges(table, d, k, wt, slots, p, b); }
    else { NoRoomMerges(table, d, k, wt, slots, p, b); }
  }

  lemma {:induction false} NoBodyMerges(table: Table, d: nat, k: nat, wt: nat, p: seq<Byte>, b: seq<Byte>)
    requires ValidTable(table) && d < |table| && k < |table[d]| && Plain(table[d]) && IsWireType(wt)
    requires !WireTypeFits(table[d], table[d][k].tag, wt)
    requires !NoRoom(table[d][k], wt) && NoBody(table, table[d][k])
    ensures MergesOn(table, d, k, wt, DefaultSlots(table, d), p, b)
  {
    hide DecItem, DecField, Loop, Key, ValidTable, Plain, WireTypeFits, DefaultSlots, NoRoom;
    ValidAt(table, d, k);
    FieldIsItem(table, d, k, wt, p);
    FieldIsItem(table, d, k, wt, p + b);
    NoBodyFails(table, table[d][k], p);
    NoBodyFails(table, table[d][k], p + b);
    PlainRecord(table, d, k, wt, DefaultSlots(table, d), p);
    PlainRecord(table, d, k, wt, DefaultSlots(table, d), p + b);
    assert Key(table[d][k].tag, wt) + p + b == Key(table[d][k].tag, wt) + (p + b);
  }

  lemma {:induction false} NoBodyFails(table: Table, f: Field, q: seq<Byte>)
    requires NoBody(table, f)
    ensures DecItem(table, f, VMsg(DefaultSlots(table, f.sub)), q).Err?
  {
    hide Noinit, Varint32;
    Varint32Bound(q);
    var sub := Substream(q);
    if sub.Ok? { assert |sub.v| < TWO_32; }
  }

  /** Records of a field and wire type merge with whatever follows them exactly when the wire type fits
      the field, there is no room, or nothing decodes as the submessage. */
  lemma {:induction false} MergesExactly(table: Table, d: nat, k: nat, wt: nat)
    requires ValidTable(table) && d < |table| && k < |table[d]| && Plain(table[d]) && IsWireType(wt)
    ensures Merges(table, d, k, wt) <==>
              WireTypeFits(table[d], table[d][k].tag, wt) || NoRoom(table[d][k], wt) || NoBody(table, table[d][k])
  {
    hide MergesOn, PayloadSize, ValidTable, Plain, NoBody, NoRoom, WireTypeFits, IsWireType;
    var f := table[d][k];
    if WireTypeFits(table[d], f.tag, wt) || NoRoom(f, wt) || NoBody(table, f) {
      forall p, b | PayloadSize(wt, p) == Some(|p|) ensures MergesOn(table, d, k, wt, DefaultSlots(table, d), p, b) {
        if WireTypeFits(table[d], f.tag, wt) || NoRoom(f, wt) {
          MergesAnywhere(table, d, k, wt, DefaultSlots(table, d), p, b);
        } else {
          NoBodyMerges(table, d, k, wt, p, b);
        }
      }
    } else {
      var p, b := MismatchBreaksMerging(table, d, k, wt);
      NotMerged(table, d, k, wt, p, b);
    }
  }

  lemma {:induction false} NotMerged(table: Table, d: nat, k: nat, wt: nat, p: seq<Byte>, b: seq<Byte>)
    requires k < |Descriptor(table, d)|
    requires var a := Key(Descriptor(table, d)[k].tag, wt) + p;
             Decode(table, d, a).Err? && Decode(table, d, a + b).Ok?
    ensures !MergesOn(table, d, k, wt, DefaultSlots(table, d), p, b)
  {
    hide Noinit, Key, DefaultSlots;
  }

  // ---------------------------------------------------------------- a submessage without bodies

  /** A type with a required pointer to itself. */
  const NEEDS_ITSELF: Field := Field(1, LSubmessage, Required, Pointer, 0, 0, 8, 0, None, 0)

  /** Types without bodies exist, in valid schemas. */
  lemma {:induction false} EndlessHasNoBody()
    ensures ValidTable([[NEEDS_ITSELF]]) && NoBody([[NEEDS_ITSELF]], NEEDS_ITSELF)
  {
    hide Noinit, DefaultSlots;
    var table := [[NEEDS_ITSELF]];
    forall body: seq<Byte> | |body| < TWO_32 ensures Noinit(table, 0, DefaultSlots(table, 0), body).Err? {
      EndlessMessage(DefaultSlots(table, 0), body);
    }
  }

  /** Nothing decodes as a message that requires one of its own kind. */
  lemma {:induction false} EndlessMessage(slots: seq<Slot>, s: seq<Byte>)
    ensures Noinit([[NEEDS_ITSELF]], 0, slots, s).Err?
    decreases |s|, 1
  {
    hide Loop;
    var table := [[NEEDS_ITSELF]];
    EndlessLoop(Start(slots), s);
    assert RequiredIndex(table[0], 0) == 0 && Tracked(table[0], 0);
  }

  lemma {:induction false} EndlessField(st: LoopState, wt: nat, s: seq<Byte>)
    ensures DecField([[NEEDS_ITSELF]], 0, 0, st, wt, s).Err?
    decreases |s|, 2
  {
    hide Substream, Noinit, DefaultSlots;
    var table := [[NEEDS_ITSELF]];
    var sub := Substream(s);
    if sub.Ok? { EndlessMessage(DefaultSlots(table, 0), sub.v); }
    assert Descriptor(table, 0) == table[0];
  }

  lemma {:induction false} EndlessLoop(st: LoopState, s: seq<Byte>)
    requires st.seen == {}
    ensures var r := Loop([[NEEDS_ITSELF]], 0, st, s); !r.Failed? ==> r.st.seen == {}
    decreases |s|, 0
  {
    hide Varint32, Skip, DecField, Enter;
    var table := [[NEEDS_ITSELF]];
    if s != [] {
      var r, key := Step(table, 0, st, s), Varint32(s);
      if key.Ok? {
        var entered := Enter(table[0], 0, st);
        if entered.Some? { EndlessField(entered.value, key.v % 8, key.rest); }
      }
      assert Descriptor(table, 0) == table[0];
      if r.Next? { EndlessLoop(r.st, r.rest); }
    }
  }
}
