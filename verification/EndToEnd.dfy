/** The encoder and the decoder together, on real streams. */
module EndToEnd {
  import opened Options
  import opened Bits
  import opened Wire
  import opened Schema
  import opened EncodeSpec
  import opened RoundTrip
  import opened Encoder
  import opened Decoder

  lemma {:induction false} ValidIsUsable(table: Table)
    requires ValidTable(table)
    ensures TagsFit(table) && Unambiguous(table)
  {
    forall d, k | 0 <= d < |table| && 0 <= k < |table[d]| ensures table[d][k].tag <= PB_SIZE_MAX {
      ValidAt(table, d, k);
    }
    forall d | 0 <= d < |table| ensures DistinctTags(table[d]) { assert ValidDescriptor(table, d); }
  }

  /** pb_get_encoded_size, a buffer of exactly that size, pb_encode into it and pb_decode from it: both
      succeed, the buffer is filled, all of it is consumed and the message comes back. */
  method Transmit(table: Table, d: nat, m: Value) returns (bytes: seq<Byte>, received: Value)
    requires ValidTable(table) && d < |table| && NormalMessage(table, d, m)
    requires EncMessage(table, d, m).Some? ==> |EncMessage(table, d, m).value| < TWO_32
    ensures Some(bytes) == EncMessage(table, d, m)
    ensures received == m
  {
    hide ValidTable, NormalMessage, EncMessage, AllLengthsFit, TagsFit, Unambiguous, SizedMessage;
    EncodableMessage(table, d, m);
    ValidIsUsable(table);
    ShortIsSized(table, d, m);
    NormalIsMsg(table, d, m);
    NestedLengths(table, d, m);
    MessageRoundTrip(table, d, m);
    var buf, ok := EncodeExactly(table, d, m);
    bytes := buf[..];
    var input := new IStream(bytes);
    ok, received := input.Decode(table, d);
  }

  method EncodeExactly(table: Table, d: nat, m: Value) returns (buf: array<Byte>, ok: bool)
    requires SizedMessage(table, d, m) && EncMessage(table, d, m).Some?
    ensures ok && Some(buf[..]) == EncMessage(table, d, m)
  {
    hide SizedMessage, EncMessage;
    var size := GetEncodedSize(table, d, m);
    buf := new Byte[size.value](_ => 0);
    var output := new OStream.FromBuffer(buf);
    ok := output.Encode(table, d, m);
    assert buf[..] == buf[..][0..|EncMessage(table, d, m).value|];
  }
}
