/** Decoding works record by record: a round of the loop depends only on the record in front of it.
    Merging by concatenation and indifference to unknown records follow. */
module Records {
  import opened Options
  import opened Bits
  import opened Wire
  import opened Schema
  import opened EncodeSpec
  import opened DecodeSpec

  // ---------------------------------------------------------------- records on the wire

  /** Bytes of the complete payload of wire type `wt` at the front of `s`. */
  function PayloadSize(wt: nat, s: seq<Byte>): (n: Option<nat>)
    ensures n.Some? ==> n.value <= |s|
  {
    if wt == WT_VARINT then VarintLen(s)
    else if wt == WT_64BIT then (if |s| >= 8 then Some(8) else None)
    else if wt == WT_32BIT then (if |s| >= 4 then Some(4) else None)
    else if wt == WT_STRING then
      var len := Varint32(s);
      if len.Ok? && |len.rest| >= len.v then Some(|s| - |len.rest| + len.v) else None
    else None
  }

  /** The wire type is the one the field's decoder reads, whatever the key says; an unknown field may
      have any of the four wire types. */
  predicate WireTypeFits(fields: Fields, tag: nat, wt: nat) {
    match FindField(fields, tag)
    case None => true
    case Some(k) =>
      wt == WireType(fields[k].ltype) || (wt == WT_STRING && fields[k].htype.Repeated? && Packable(fields[k].ltype))
  }

  /** `s` starts with a complete record (tag at least 1) of a wire type that fits the descriptor. */
  predicate RecordAhead(fields: Fields, s: seq<Byte>) {
    && Varint32(s).Ok? && Varint32(s).v >= 8
    && WireTypeFits(fields, Varint32(s).v / 8, Varint32(s).v % 8)
    && PayloadSize(Varint32(s).v % 8, Varint32(s).rest).Some?
  }

  function PastRecord(fields: Fields, s: seq<Byte>): (r: seq<Byte>)
    requires RecordAhead(fields, s)
    ensures |r| < |s|
  {
    Varint32(s).rest[PayloadSize(Varint32(s).v % 8, Varint32(s).rest).value..]
  }

  /** A sequence of complete records. */
  predicate RecordSequence(fields: Fields, s: seq<Byte>)
    decreases |s|
  {
    s != [] ==> RecordAhead(fields, s) && RecordSequence(fields, PastRecord(fields, s))
  }

  // ---------------------------------------------------------------- records that the encoder writes

  /** A key written by pb_encode_tag is read back by pb_decode_tag. */
  lemma {:induction false} KeyRoundTrip(tag: nat, wt: nat, t: seq<Byte>)
    requires 1 <= tag < 0x2000_0000 && wt < 8
    ensures Varint32(Key(tag, wt) + t) == Ok(8 * tag + wt, t)
    ensures (8 * tag + wt) / 8 == tag && (8 * tag + wt) % 8 == wt
    ensures |Key(tag, wt)| > 0
  {
    Varint32RoundTrip(8 * tag + wt, t);
  }

  lemma {:induction false} DelimitedRoundTrip(bs: seq<Byte>, t: seq<Byte>)
    requires |bs| < TWO_32
    ensures Varint32(Delimited(bs) + t) == Ok(|bs|, bs + t)
    ensures Substream(Delimited(bs) + t) == Ok(bs, t)
  {
    assert Delimited(bs) + t == EncVarint(|bs|) + (bs + t);
    Varint32RoundTrip(|bs|, bs + t);
    assert (bs + t)[..|bs|] == bs && (bs + t)[|bs|..] == t;
  }

  /** The loop once the key of field `k` has been read. */
  function AfterKey(table: Table, d: nat, k: nat, wt: nat, st: LoopState, p: seq<Byte>): Run
    requires k < |Descriptor(table, d)|
  {
    var entered := Enter(Descriptor(table, d), k, st);
    if entered.None? then Failed
    else
      var r := DecField(table, d, k, entered.value, wt, p);
      if r.Err? then Failed else Loop(table, d, r.v, r.rest)
  }

  lemma {:induction false} KnownRound(table: Table, d: nat, k: nat, wt: nat, st: LoopState, p: seq<Byte>)
    requires d < |table| && ValidDescriptor(table, d) && k < |table[d]| && wt < 8
    ensures Loop(table, d, st, Key(table[d][k].tag, wt) + p) == AfterKey(table, d, k, wt, st, p)
  {
    hide Varint32, Enter, DecField, FindField, Key, Skip;
    assert ValidField(table, d, table[d][k]);
    KeyRoundTrip(table[d][k].tag, wt, p);
    FindOwnTag(table[d], k);
  }

  // ---------------------------------------------------------------- leaves

  lemma {:induction false} SubstreamSuffix(s: seq<Byte>, t: seq<Byte>)
    requires Substream(s).Ok? || PayloadSize(WT_STRING, s).Some?
    ensures Substream(s + t) == Then(Substream(s), t)
    ensures Substream(s).Ok? && PayloadSize(WT_STRING, s).Some?
    ensures Substream(s).rest == s[PayloadSize(WT_STRING, s).value..]
  {
    Varint32Suffix(s, t);
    Varint32Consumes(s);
    var len := Varint32(s);
    assert (len.rest + t)[..len.v] == len.rest[..len.v];
    assert (len.rest + t)[len.v..] == len.rest[len.v..] + t;
  }

  lemma {:induction false} ScalarSuffix(f: Field, s: seq<Byte>, t: seq<Byte>)
    requires DecScalar(f, s).Ok? || PayloadSize(WireType(f.ltype), s).Some?
    ensures DecScalar(f, s + t) == Then(DecScalar(f, s), t)
  {
    hide Varint32, Varint64, Signed, Unsigned, UnZigZag;
    match f.ltype
    case LBool => Varint32Suffix(s, t);
    case LVarint => Varint64Suffix(s, t);
    case LUVarint => Varint64Suffix(s, t);
    case LSVarint => Varint64Suffix(s, t);
    case LFixed32 => FixedSuffix(s, 4, t);
    case LFixed64 => FixedSuffix(s, 8, t);
    case LBytes =>
    case LString =>
    case LSubmessage =>
    case LFixedLengthBytes =>
  }

  lemma {:induction false} ScalarConsumes(f: Field, s: seq<Byte>)
    requires DecScalar(f, s).Ok?
    ensures PayloadSize(WireType(f.ltype), s).Some?
    ensures DecScalar(f, s).rest == s[PayloadSize(WireType(f.ltype), s).value..]
  {
    hide Varint32, Varint64, Signed, Unsigned, UnZigZag;
    match f.ltype
    case LBool => Varint32Consumes(s);
    case LVarint => Varint64Consumes(s);
    case LUVarint => Varint64Consumes(s);
    case LSVarint => Varint64Consumes(s);
    case LFixed32 =>
    case LFixed64 =>
  }

  lemma {:induction false} BlobSuffix(f: Field, s: seq<Byte>, t: seq<Byte>)
    requires DecBlob(f, s).Ok? || PayloadSize(WT_STRING, s).Some?
    ensures DecBlob(f, s + t) == Then(DecBlob(f, s), t)
    ensures DecBlob(f, s).Ok? ==>
              && PayloadSize(WT_STRING, s).Some?
              && DecBlob(f, s).rest == s[PayloadSize(WT_STRING, s).value..]
  {
    hide Varint32;
    Varint32Suffix(s, t);
    Varint32Consumes(s);
    var len := Varint32(s);
    if |len.rest| >= len.v {
      assert (len.rest + t)[..len.v] == len.rest[..len.v];
      assert (len.rest + t)[len.v..] == len.rest[len.v..] + t;
    }
  }

  lemma {:induction false} SkipVarintSuffix(s: seq<Byte>, t: seq<Byte>)
    requires VarintLen(s).Some? || SkipVarint(s).Ok?
    ensures VarintLen(s).Some?
    ensures SkipVarint(s) == Ok((), s[VarintLen(s).value..])
    ensures SkipVarint(s + t) == Ok((), s[VarintLen(s).value..] + t)
  {
    assert (s + t)[0] == s[0] && (s + t)[1..] == s[1..] + t;
    if s[0] >= 128 { SkipVarintSuffix(s[1..], t); }
  }

  /** pb_skip_field consumes exactly the payload, of any of the four wire types. */
  lemma {:induction false} SkipExact(wt: nat, s: seq<Byte>, t: seq<Byte>)
    requires PayloadSize(wt, s).Some? || Skip(wt, s).Ok?
    ensures PayloadSize(wt, s).Some?
    ensures Skip(wt, s) == Ok((), s[PayloadSize(wt, s).value..])
    ensures Skip(wt, s + t) == Then(Skip(wt, s), t)
  {
    if wt == WT_VARINT { SkipVarintSuffix(s, t); }
    else if wt == WT_STRING { SubstreamSuffix(s, t); }
    else if wt == WT_64BIT { assert (s + t)[8..] == s[8..] + t; }
    else if wt == WT_32BIT { assert (s + t)[4..] == s[4..] + t; }
  }

  // ---------------------------------------------------------------- fields

  lemma {:induction false} ItemSuffix(table: Table, f: Field, cur: Value, s: seq<Byte>, t: seq<Byte>)
    requires DecItem(table, f, cur, s).Ok? || PayloadSize(WireType(f.ltype), s).Some?
    ensures DecItem(table, f, cur, s + t) == Then(DecItem(table, f, cur, s), t)
    ensures DecItem(table, f, cur, s).Ok? ==>
              && PayloadSize(WireType(f.ltype), s).Some?
              && DecItem(table, f, cur, s).rest == s[PayloadSize(WireType(f.ltype), s).value..]
  {
    hide Noinit, DecScalar, DecBlob, Substream, PayloadSize;
    if Packable(f.ltype) {
      ScalarSuffix(f, s, t);
      if DecScalar(f, s).Ok? { ScalarConsumes(f, s); }
    } else if !f.ltype.LSubmessage? {
      BlobSuffix(f, s, t);
    } else {
      SubstreamSuffix(s, t);
    }
  }

  /** Wire type of the payload that the field's decoder reads. */
  function PayloadType(f: Field, wt: nat): nat {
    if f.htype.Repeated? && wt == WT_STRING && Packable(f.ltype) then WT_STRING else WireType(f.ltype)
  }

  lemma {:induction false} RepeatedSuffix(table: Table, f: Field, i: nat, st: LoopState, wt: nat, s: seq<Byte>,
          t: seq<Byte>)
    requires i < |st.slots| && f.htype.Repeated?
    requires DecRepeated(table, f, i, st, wt, s).Ok? || PayloadSize(PayloadType(f, wt), s).Some?
    ensures DecRepeated(table, f, i, st, wt, s + t) == Then(DecRepeated(table, f, i, st, wt, s), t)
    ensures DecRepeated(table, f, i, st, wt, s).Ok? ==>
              && PayloadSize(PayloadType(f, wt), s).Some?
              && DecRepeated(table, f, i, st, wt, s).rest == s[PayloadSize(PayloadType(f, wt), s).value..]
  {
    hide DecPacked, DecItem, Substream, PayloadSize, Put, Capacity;
    if st.slots[i].Many? {
      if wt == WT_STRING && Packable(f.ltype) {
        SubstreamSuffix(s, t);
      } else if DecItem(table, f, FreshItem(table, f), s).Ok? || PayloadSize(WireType(f.ltype), s).Some? {
        ItemSuffix(table, f, FreshItem(table, f), s, t);
      }
    }
  }

  lemma {:induction false} FieldSuffix(table: Table, d: nat, k: nat, st: LoopState, wt: nat, s: seq<Byte>, t: seq<Byte>)
    requires k < |Descriptor(table, d)|
    requires var pt := PayloadType(Descriptor(table, d)[k], wt);
             DecField(table, d, k, st, wt, s).Ok? || PayloadSize(pt, s).Some?
    ensures DecField(table, d, k, st, wt, s + t) == Then(DecField(table, d, k, st, wt, s), t)
    ensures var pt := PayloadType(Descriptor(table, d)[k], wt);
            DecField(table, d, k, st, wt, s).Ok? ==>
              PayloadSize(pt, s).Some? && DecField(table, d, k, st, wt, s).rest == s[PayloadSize(pt, s).value..]
  {
    hide DecItem, DecRepeated, PayloadSize;
    var fields := Descriptor(table, d);
    var f, i := fields[k], SlotOf(fields, k);
    if i < |st.slots| {
      if f.htype.Repeated? {
        RepeatedSuffix(table, f, i, st, wt, s, t);
      } else {
        var cur := Target(table, fields, f, st.slots[i]);
        if cur.Some? { ItemSuffix(table, f, cur.value, s, t); }
      }
    }
  }

  // ---------------------------------------------------------------- one round

  function StepThen(r: StepResult, t: seq<Byte>): StepResult {
    match r
    case Next(st, rest) => Next(st, rest + t)
    case Stop(rest) => Stop(rest + t)
    case Fail => Fail
  }

  /** What follows a record does not matter to the round that handles it: neither when the round
      succeeds, nor, for a complete record of fitting wire type, when it fails. */
  lemma {:induction false} StepSuffix(table: Table, d: nat, st: LoopState, s: seq<Byte>, t: seq<Byte>)
    requires s != []
    requires Step(table, d, st, s).Next? || RecordAhead(Descriptor(table, d), s)
    ensures Step(table, d, st, s + t) == StepThen(Step(table, d, st, s), t)
  {
    hide Varint32, DecField, Skip, FindField, Enter, PayloadSize;
    Varint32Suffix(s, t);
    var fields, key := Descriptor(table, d), Varint32(s);
    if key.v != 0 {
      var tag, wt := key.v / 8, key.v % 8;
      var found := FindField(fields, tag);
      if found.Some? {
        var st' := Enter(fields, found.value, st);
        if st'.Some? { FieldSuffix(table, d, found.value, st'.value, wt, key.rest, t); }
      } else if fields == [] && tag == 0 {
        Varint32Suffix(key.rest, t);
      } else {
        SkipExact(wt, key.rest, t);
      }
    }
  }

  /** A successful round on a complete record of fitting wire type consumes exactly that record. */
  lemma {:induction false} StepExact(table: Table, d: nat, st: LoopState, s: seq<Byte>)
    requires s != [] && RecordAhead(Descriptor(table, d), s)
    ensures !Step(table, d, st, s).Stop?
    ensures Step(table, d, st, s).Next? ==> Step(table, d, st, s).rest == PastRecord(Descriptor(table, d), s)
  {
    hide Varint32, DecField, Skip, FindField, Enter, PayloadSize;
    var fields, key := Descriptor(table, d), Varint32(s);
    var tag, wt := key.v / 8, key.v % 8;
    var found := FindField(fields, tag);
    if found.Some? {
      var st' := Enter(fields, found.value, st);
      if st'.Some? { FieldSuffix(table, d, found.value, st'.value, wt, key.rest, []); }
    } else {
      SkipExact(wt, key.rest, []);
    }
  }

  // ---------------------------------------------------------------- the loop

  /** Decode A and then B from the state A left behind. */
  function Resume(table: Table, d: nat, run: Run, b: seq<Byte>): Run {
    if run.Ended? then Loop(table, d, run.st, b) else Failed
  }

  /** The record loop on A ++ B is the loop on A followed by the loop on B, for every A that decodes to
      its end, and for every sequence A of complete records even when decoding A fails. */
  lemma {:induction false} LoopConcat(table: Table, d: nat, st: LoopState, a: seq<Byte>, b: seq<Byte>)
    requires RecordSequence(Descriptor(table, d), a) || Loop(table, d, st, a).Ended?
    ensures Loop(table, d, st, a + b) == Resume(table, d, Loop(table, d, st, a), b)
    ensures !Loop(table, d, st, a).Stopped?
    decreases |a|
  {
    hide Step, RecordAhead;
    if a == [] {
      assert a + b == b;
    } else {
      StepSuffix(table, d, st, a, b);
      var r := Step(table, d, st, a);
      if RecordSequence(Descriptor(table, d), a) { StepExact(table, d, st, a); }
      if r.Next? { LoopConcat(table, d, r.st, r.rest, b); }
    }
  }

  // ---------------------------------------------------------------- merging

  /** No required and no fixed-count fields: pb_decode_noinit then has no state but the structure. */
  predicate Plain(fields: Fields) {
    forall k :: 0 <= k < |fields| ==> !fields[k].htype.Required? && !FixedCount(fields[k])
  }

  lemma {:induction false} PlainStep(table: Table, d: nat, slots: seq<Slot>, s: seq<Byte>)
    requires Plain(Descriptor(table, d)) && s != []
    ensures var r := Step(table, d, Start(slots), s); r.Next? ==> r.st == Start(r.st.slots)
  {
    hide Varint32, DecField, Skip;
    var fields, key := Descriptor(table, d), Varint32(s);
    if key.Ok? && key.v != 0 {
      var found := FindField(fields, key.v / 8);
      if found.Some? {
        var k := found.value;
        assert !fields[k].htype.Required? && !FixedCount(fields[k]);
        assert Enter(fields, k, Start(slots)) == Some(Start(slots));
        PlainField(table, d, k, Start(slots), key.v % 8, key.rest);
      }
    }
  }

  lemma {:induction false} PlainField(table: Table, d: nat, k: nat, st: LoopState, wt: nat, s: seq<Byte>)
    requires k < |Descriptor(table, d)| && !FixedCount(Descriptor(table, d)[k])
    ensures var r := DecField(table, d, k, st, wt, s); r.Ok? ==> r.v == st.(slots := r.v.slots)
  {
    hide DecItem, DecPacked, Target, Substream;
  }

  lemma {:induction false} PlainLoop(table: Table, d: nat, slots: seq<Slot>, s: seq<Byte>)
    requires Plain(Descriptor(table, d))
    ensures var r := Loop(table, d, Start(slots), s); !r.Failed? ==> r.st == Start(r.st.slots)
    decreases |s|
  {
    hide Step, Plain;
    if s != [] {
      PlainStep(table, d, slots, s);
      var r := Step(table, d, Start(slots), s);
      if r.Next? { PlainLoop(table, d, r.st.slots, r.rest); }
    }
  }

  /** pb_decode_noinit on A ++ B succeeds exactly when A and then B do, with the same structure: last
      one wins, repeated fields append, submessages merge and oneof submessages restart. */
  lemma {:induction false} MergeByConcatenation(table: Table, d: nat, slots: seq<Slot>, a: seq<Byte>, b: seq<Byte>)
    requires Plain(Descriptor(table, d))
    requires RecordSequence(Descriptor(table, d), a) || Loop(table, d, Start(slots), a).Ended?
    ensures var first := Noinit(table, d, slots, a);
            && (first.Ok? ==> first.rest == [])
            && Noinit(table, d, slots, a + b) == if first.Ok? then Noinit(table, d, first.v, b) else Err
  {
    hide Loop, RecordSequence;
    LoopConcat(table, d, Start(slots), a, b);
    PlainLoop(table, d, slots, a);
  }

  // ---------------------------------------------------------------- unknown fields

  /** `u` is one complete record whose tag the descriptor does not have. */
  predicate UnknownRecord(fields: Fields, u: seq<Byte>) {
    && RecordAhead(fields, u) && PastRecord(fields, u) == []
    && FindField(fields, Varint32(u).v / 8).None?
  }

  lemma {:induction false} UnknownSkipped(table: Table, d: nat, st: LoopState, u: seq<Byte>, b: seq<Byte>)
    requires UnknownRecord(Descriptor(table, d), u)
    ensures Loop(table, d, st, u + b) == Loop(table, d, st, b)
  {
    hide Varint32, Skip, FindField, PayloadSize;
    var fields, key := Descriptor(table, d), Varint32(u);
    SkipExact(key.v % 8, key.rest, b);
    assert Step(table, d, st, u) == Next(st, []);
    StepSuffix(table, d, st, u, b);
    assert [] + b == b;
  }

  /** Inserting a record with an unknown tag at a record boundary never changes the outcome, for any
      descriptor, required and fixed-count fields included. */
  lemma {:induction false} UnknownRecordIgnored(table: Table, d: nat, slots: seq<Slot>, a: seq<Byte>, u: seq<Byte>,
          b: seq<Byte>)
    requires RecordSequence(Descriptor(table, d), a) && UnknownRecord(Descriptor(table, d), u)
    ensures Noinit(table, d, slots, a + u + b) == Noinit(table, d, slots, a + b)
    ensures slots == DefaultSlots(table, d) ==> Decode(table, d, a + u + b) == Decode(table, d, a + b)
  {
    hide Loop, RecordSequence, UnknownRecord;
    var run := Loop(table, d, Start(slots), a);
    assert a + u + b == a + (u + b);
    LoopConcat(table, d, Start(slots), a, u + b);
    LoopConcat(table, d, Start(slots), a, b);
    if run.Ended? { UnknownSkipped(table, d, run.st, u, b); }
  }

  // ---------------------------------------------------------------- packed and unpacked

  /** `es[i]` is an encoding of `vs[i]`, not necessarily the one this encoder would choose. */
  predicate Spells(f: Field, es: seq<seq<Byte>>, vs: seq<Value>) {
    |es| == |vs| && forall i :: 0 <= i < |es| ==> DecScalar(f, es[i]) == Ok(vs[i], [])
  }

  function Concat(es: seq<seq<Byte>>): seq<Byte> {
    if es == [] then [] else es[0] + Concat(es[1..])
  }

  /** One record per value. */
  function UnpackedRecords(f: Field, es: seq<seq<Byte>>): seq<Byte> {
    if es == [] then [] else Key(f.tag, WireType(f.ltype)) + es[0] + UnpackedRecords(f, es[1..])
  }

  /** One record holding all values. */
  function PackedRecord(f: Field, es: seq<seq<Byte>>): seq<Byte> {
    Key(f.tag, WT_STRING) + Delimited(Concat(es))
  }

  /** The array in slot `i` with `vs` appended, if they fit. */
  function AppendRun(table: Table, d: nat, f: Field, i: nat, st: LoopState, vs: seq<Value>, t: seq<Byte>): Run
    requires i < |st.slots| && st.slots[i].Many?
  {
    var items := st.slots[i].items;
    if vs == [] || |items| + |vs| <= Capacity(f)
    then Loop(table, d, st.(slots := st.slots[i := Many(items + vs)]), t)
    else Failed
  }

  /** A repeated scalar field whose array has a count. */
  predicate CountedScalar(f: Field) {
    && f.htype.Repeated? && !FixedCount(f) && Packable(f.ltype)
    && (f.atype.Pointer? ==> f.dataSize > 0)
  }

  lemma {:induction false} PackedFills(f: Field, items: seq<Value>, es: seq<seq<Byte>>, vs: seq<Value>)
    requires Spells(f, es, vs) && CountedScalar(f)
    ensures DecPacked(f, items, |items|, Concat(es))
         == if vs == [] || |items| + |vs| <= Capacity(f) then Filled(items + vs, |items| + |vs|) else Overflow
    decreases |es|
  {
    hide DecScalar;
    if es != [] {
      var rest := Concat(es[1..]);
      assert DecScalar(f, es[0]) == Ok(vs[0], []);
      ScalarSuffix(f, es[0], rest);
      assert [] + rest == rest;
      NonEmptyScalar(f, es[0]);
      PackedFills(f, items + [vs[0]], es[1..], vs[1..]);
      assert items + [vs[0]] + vs[1..] == items + vs;
    } else {
      assert items + vs == items;
    }
  }

  lemma {:induction false} NonEmptyScalar(f: Field, e: seq<Byte>)
    requires DecScalar(f, e).Ok?
    ensures e != []
  {
  }

  lemma {:induction false} PackedRecordRun(table: Table, d: nat, k: nat, st: LoopState, es: seq<seq<Byte>>,
          vs: seq<Value>, t: seq<Byte>)
    requires d < |table| && ValidDescriptor(table, d) && k < |table[d]| && CountedScalar(table[d][k])
    requires Spells(table[d][k], es, vs) && |Concat(es)| < TWO_32
    requires SlotOf(table[d], k) < |st.slots| && st.slots[SlotOf(table[d], k)].Many?
    ensures Loop(table, d, st, PackedRecord(table[d][k], es) + t)
         == AppendRun(table, d, table[d][k], SlotOf(table[d], k), st, vs, t)
  {
    hide Loop, Substream, DecPacked, Delimited, Concat, DecScalar, Key;
    var f, i, payload := table[d][k], SlotOf(table[d], k), Concat(es);
    assert PackedRecord(f, es) + t == Key(f.tag, WT_STRING) + (Delimited(payload) + t);
    KnownRound(table, d, k, WT_STRING, st, Delimited(payload) + t);
    DelimitedRoundTrip(payload, t);
    PackedFills(f, st.slots[i].items, es, vs);
    assert Enter(Descriptor(table, d), k, st) == Some(st);
    assert DecField(table, d, k, st, WT_STRING, Delimited(payload) + t)
        == DecRepeated(table, f, i, st, WT_STRING, Delimited(payload) + t);
  }

  lemma {:induction false} UnpackedRecordsRun(table: Table, d: nat, k: nat, st: LoopState,
                                              es: seq<seq<Byte>>, vs: seq<Value>, t: seq<Byte>)
    requires d < |table| && ValidDescriptor(table, d) && k < |table[d]| && CountedScalar(table[d][k])
    requires Spells(table[d][k], es, vs)
    requires SlotOf(table[d], k) < |st.slots| && st.slots[SlotOf(table[d], k)].Many?
    ensures Loop(table, d, st, UnpackedRecords(table[d][k], es) + t)
         == AppendRun(table, d, table[d][k], SlotOf(table[d], k), st, vs, t)
    decreases |es|
  {
    hide Loop, DecScalar, Key, ValidDescriptor;
    var f, i := table[d][k], SlotOf(table[d], k);
    var items := st.slots[i].items;
    if es == [] {
      assert items + vs == items && st.slots[i := Many(items)] == st.slots;
      assert [] + t == t;
    } else {
      var rest := UnpackedRecords(f, es[1..]) + t;
      assert UnpackedRecords(f, es) + t == Key(f.tag, WireType(f.ltype)) + (es[0] + rest);
      KnownRound(table, d, k, WireType(f.ltype), st, es[0] + rest);
      assert DecScalar(f, es[0]) == Ok(vs[0], []);
      ScalarSuffix(f, es[0], rest);
      assert [] + rest == rest;
      assert Enter(Descriptor(table, d), k, st) == Some(st);
      assert DecField(table, d, k, st, WireType(f.ltype), es[0] + rest)
          == DecRepeated(table, f, i, st, WireType(f.ltype), es[0] + rest);
      if |items| < Capacity(f) {
        var st' := st.(slots := st.slots[i := Many(items + [vs[0]])]);
        assert DecItem(table, f, FreshItem(table, f), es[0] + rest) == Ok(vs[0], rest);
        assert Counted(f, i, st, Put(items, |items|, vs[0]), |items| + 1) == st';
        assert DecRepeated(table, f, i, st, WireType(f.ltype), es[0] + rest) == Ok(st', rest);
        assert AfterKey(table, d, k, WireType(f.ltype), st, es[0] + rest) == Loop(table, d, st', rest);
        UnpackedRecordsRun(table, d, k, st', es[1..], vs[1..], t);
        assert items + [vs[0]] + vs[1..] == items + vs;
        assert st'.slots[i := Many(items + vs)] == st.slots[i := Many(items + vs)];
      }
    }
  }

  /** One packed record of n values has the effect of n unpacked records: it appends them when they
      fit, and both forms fail otherwise. */
  lemma {:induction false} PackedIsUnpacked(table: Table, d: nat, k: nat, st: LoopState, es: seq<seq<Byte>>,
          vs: seq<Value>, t: seq<Byte>)
    requires d < |table| && ValidDescriptor(table, d) && k < |table[d]| && CountedScalar(table[d][k])
    requires Spells(table[d][k], es, vs) && |Concat(es)| < TWO_32
    requires SlotOf(table[d], k) < |st.slots| && st.slots[SlotOf(table[d], k)].Many?
    ensures Loop(table, d, st, PackedRecord(table[d][k], es) + t)
         == Loop(table, d, st, UnpackedRecords(table[d][k], es) + t)
         == AppendRun(table, d, table[d][k], SlotOf(table[d], k), st, vs, t)
  {
    hide *;
    PackedRecordRun(table, d, k, st, es, vs, t);
    UnpackedRecordsRun(table, d, k, st, es, vs, t);
  }

  // ---------------------------------------------------------------- the same field twice

  function SubmessageRecord(f: Field, body: seq<Byte>): seq<Byte> {
    Key(f.tag, WT_STRING) + Delimited(body)
  }

  /** Outcome of a singular field's record, in terms of the item decoder. */
  lemma {:induction false} SingularRound(table: Table, d: nat, k: nat, wt: nat, st: LoopState, cur: Value, p: seq<Byte>)
    requires d < |table| && ValidDescriptor(table, d) && k < |table[d]| && wt < 8
    requires !table[d][k].htype.Repeated? && SlotOf(table[d], k) < |st.slots|
    requires Target(table, table[d], table[d][k], st.slots[SlotOf(table[d], k)]) == Some(cur)
    ensures var f, r := table[d][k], DecItem(table, table[d][k], cur, p);
            Loop(table, d, st, Key(f.tag, wt) + p)
            == if r.Ok? then Loop(table, d, Updated(table[d], k, st, r.v), r.rest) else Failed
  {
    hide DecItem, Loop, Key, Target;
    KnownRound(table, d, k, wt, st, p);
    assert Descriptor(table, d) == table[d];
  }

  /** The state once field `k` has received the item `v`. */
  function Updated(fields: Fields, k: nat, st: LoopState, v: Value): LoopState
    requires k < |fields| && SlotOf(fields, k) < |st.slots|
  {
    var st' := st.(slots := st.slots[SlotOf(fields, k) := Stored(fields[k], v)]);
    if fields[k].htype.Required? then st'.(seen := st.seen + {k}) else st'
  }

  lemma {:induction false} UpdatedTwice(fields: Fields, k: nat, st: LoopState, v: Value, w: Value)
    requires k < |fields| && SlotOf(fields, k) < |st.slots|
    ensures Updated(fields, k, Updated(fields, k, st, v), w) == Updated(fields, k, st, w)
  {
    var i, f := SlotOf(fields, k), fields[k];
    assert st.slots[i := Stored(f, v)][i := Stored(f, w)] == st.slots[i := Stored(f, w)];
    assert st.seen + {k} + {k} == st.seen + {k};
  }

  /** Two records of a required or optional submessage act like one record with the concatenated
      bodies. */
  lemma {:induction false} SubmessagesMerge(table: Table, d: nat, k: nat, st: LoopState, cur: Value,
                         a: seq<Byte>, b: seq<Byte>, t: seq<Byte>)
    requires d < |table| && ValidDescriptor(table, d) && k < |table[d]|
    requires table[d][k].ltype.LSubmessage? && table[d][k].atype.Static?
    requires table[d][k].htype.Required? || table[d][k].htype.Optional?
    requires SlotOf(table[d], k) < |st.slots| && cur.VMsg?
    requires Target(table, table[d], table[d][k], st.slots[SlotOf(table[d], k)]) == Some(cur)
    requires Plain(Descriptor(table, table[d][k].sub))
    requires RecordSequence(Descriptor(table, table[d][k].sub), a) && |a + b| < TWO_32
    ensures var f := table[d][k];
            Loop(table, d, st, SubmessageRecord(f, a) + SubmessageRecord(f, b) + t)
            == Loop(table, d, st, SubmessageRecord(f, a + b) + t)
  {
    hide Loop, Key, Delimited, Substream, Noinit, RecordSequence, Plain;
    var f, i := table[d][k], SlotOf(table[d], k);
    var more := SubmessageRecord(f, b) + t;
    assert SubmessageRecord(f, a) + SubmessageRecord(f, b) + t == Key(f.tag, WT_STRING) + (Delimited(a) + more);
    assert SubmessageRecord(f, a + b) + t == Key(f.tag, WT_STRING) + (Delimited(a + b) + t);
    DelimitedRoundTrip(a, more);
    DelimitedRoundTrip(b, t);
    DelimitedRoundTrip(a + b, t);
    SingularRound(table, d, k, WT_STRING, st, cur, Delimited(a) + more);
    SingularRound(table, d, k, WT_STRING, st, cur, Delimited(a + b) + t);
    MergeByConcatenation(table, f.sub, cur.slots, a, b);
    var first := Noinit(table, f.sub, cur.slots, a);
    if first.Ok? {
      var st' := Updated(table[d], k, st, VMsg(first.v));
      assert more == Key(f.tag, WT_STRING) + (Delimited(b) + t);
      SingularRound(table, d, k, WT_STRING, st', VMsg(first.v), Delimited(b) + t);
      var second := Noinit(table, f.sub, first.v, b);
      if second.Ok? { UpdatedTwice(table[d], k, st, VMsg(first.v), VMsg(second.v)); }
    }
  }

  /** Every other singular field: the last record wins, and an earlier one only has to decode. A oneof
      or pointer submessage restarts from its defaults. */
  lemma {:induction false} LastOneWins(table: Table, d: nat, k: nat, st: LoopState, cur: Value, wt: nat,
                    v: Value, p: seq<Byte>, q: seq<Byte>)
    requires d < |table| && ValidDescriptor(table, d) && k < |table[d]| && wt < 8
    requires var f := table[d][k];
             !f.htype.Repeated? && (f.ltype.LSubmessage? ==> f.htype.OneOf? || f.atype.Pointer?)
    requires SlotOf(table[d], k) < |st.slots|
    requires Target(table, table[d], table[d][k], st.slots[SlotOf(table[d], k)]) == Some(cur)
    requires DecItem(table, table[d][k], cur, p) == Ok(v, [])
    ensures var f := table[d][k];
            Loop(table, d, st, Key(f.tag, wt) + p + (Key(f.tag, wt) + q)) == Loop(table, d, st, Key(f.tag, wt) + q)
  {
    hide Loop, Key, DecScalar, DecBlob, Noinit, Substream;
    var f, i := table[d][k], SlotOf(table[d], k);
    var more := Key(f.tag, wt) + q;
    assert Key(f.tag, wt) + p + more == Key(f.tag, wt) + (p + more);
    ItemSuffix(table, f, cur, p, more);
    assert [] + more == more;
    SingularRound(table, d, k, wt, st, cur, p + more);
    SingularRound(table, d, k, wt, st, cur, q);
    var st' := Updated(table[d], k, st, v);
    var cur' := Target(table, table[d], f, st'.slots[i]).value;
    SingularRound(table, d, k, wt, st', cur', q);
    assert DecItem(table, f, cur', q) == DecItem(table, f, cur, q);
    var r := DecItem(table, f, cur, q);
    if r.Ok? { UpdatedTwice(table[d], k, st, v, r.v); }
  }

  // ---------------------------------------------------------------- keys with tag 0

  /** The round that skips a payload by its wire type. */
  function SkipRound(st: LoopState, wt: nat, p: seq<Byte>): StepResult {
    var r := Skip(wt, p);
    if r.Ok? then Next(st, r.rest) else Fail
  }

  /** The round that reads a bool which belongs to no field. */
  function BoolRound(st: LoopState, p: seq<Byte>): StepResult {
    var r := Varint32(p);
    if r.Ok? then Next(st, r.rest) else Fail
  }

  /** The round on a key with tag 0. */
  function TagZeroStep(table: Table, d: nat, st: LoopState, wt: nat, p: seq<Byte>): StepResult
    requires 1 <= wt < 8
  {
    Step(table, d, st, [wt] + p)
  }

  lemma {:induction false} TagZeroRound(table: Table, d: nat, st: LoopState, wt: nat, p: seq<Byte>)
    requires 1 <= wt < 8 && FindField(Descriptor(table, d), 0).None?
    ensures TagZeroStep(table, d, st, wt, p)
         == if Descriptor(table, d) == [] then BoolRound(st, p) else SkipRound(st, wt, p)
  {
    hide Skip, FindField;
    assert ([wt] + p)[1..] == p && Varint32([wt] + p) == Ok(wt, p);
  }

  /** A payload that is not as long as a bool, or of no wire type at all. */
  function TagZeroPayload(wt: nat): seq<Byte> {
    if wt == WT_64BIT then [0, 0, 0, 0, 0, 0, 0, 0]
    else if wt == WT_STRING then [1, 0]
    else if wt == WT_32BIT then [0, 0, 0, 0]
    else [0]
  }

  lemma {:induction false} TagZeroDiffers(st: LoopState, wt: nat)
    requires 1 <= wt < 8
    ensures BoolRound(st, TagZeroPayload(wt)) == Next(st, TagZeroPayload(wt)[1..])
    ensures SkipRound(st, wt, TagZeroPayload(wt))
         == if wt == WT_64BIT || wt == WT_STRING || wt == WT_32BIT then Next(st, []) else Fail
  {
    var p := TagZeroPayload(wt);
    assert Varint32(p) == Ok(p[0], p[1..]);
    if wt == WT_64BIT || wt == WT_32BIT { assert p[|p|..] == []; }
    if wt == WT_STRING { assert p[1..][1..] == []; }
  }

  /** A key with tag 0 and a wire type other than 0 is skipped by its wire type exactly when the
      descriptor has a field. In an empty descriptor it finds the terminator entry, whose type is that of
      a bool, and a varint is read whatever the wire type. */
  lemma {:induction false} TagZeroSkipped(table: Table, d: nat, wt: nat)
    requires 1 <= wt < 8 && FindField(Descriptor(table, d), 0).None?
    ensures (forall st, p: seq<Byte> :: TagZeroStep(table, d, st, wt, p) == SkipRound(st, wt, p))
            <==> Descriptor(table, d) != []
  {
    hide TagZeroStep, SkipRound, BoolRound, FindField;
    forall st, p: seq<Byte>
      ensures TagZeroStep(table, d, st, wt, p)
           == if Descriptor(table, d) == [] then BoolRound(st, p) else SkipRound(st, wt, p)
    {
      TagZeroRound(table, d, st, wt, p);
    }
    var st, p := Start([]), TagZeroPayload(wt);
    TagZeroDiffers(st, wt);
    assert TagZeroStep(table, d, st, wt, p) == SkipRound(st, wt, p) <==> Descriptor(table, d) != [];
  }
}
