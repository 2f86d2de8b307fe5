/** Exactly which bytes the decoders of scalars, strings and byte arrays accept, what they return for them,
    and which bytes the encoders write. */
module Leaves {
  import opened Options
  import opened Bits
  import opened Wire
  import opened Schema
  import opened EncodeSpec
  import opened DecodeSpec
  import opened RoundTrip
  import opened Acceptance

  // ---------------------------------------------------------------- congruence

  predicate Congruent(a: int, b: int, m: int)
    requires m > 0
  {
    (a - b) % m == 0
  }

  lemma {:induction false} CongruentBy(a: int, b: int, q: int, m: int)
    requires m > 0 && a - b == q * m
    ensures Congruent(a, b, m)
  {
    ModUnique(a - b, q, 0, m);
  }

  lemma {:induction false} Quotient(a: int, b: int, m: int) returns (q: int)
    requires m > 0 && Congruent(a, b, m)
    ensures a - b == q * m
  {
    q := (a - b) / m;
  }

  /** Numbers less than `m` apart are congruent modulo `m` only if they are equal. */
  lemma {:induction false} CongruentClose(a: int, b: int, m: int)
    requires m > 0 && -m < a - b < m && Congruent(a, b, m)
    ensures a == b
  {
    var q := Quotient(a, b, m);
    if q > 0 { MulAtLeast(q, m); } else if q < 0 { MulAtLeast(-q, m); }
  }

  lemma {:induction false} CongruentTrans(a: int, b: int, c: int, m: int)
    requires m > 0 && Congruent(a, b, m)
    ensures Congruent(a, c, m) <==> Congruent(b, c, m)
  {
    var q := Quotient(a, b, m);
    if Congruent(a, c, m) {
      var p := Quotient(a, c, m);
      assert b - c == (p - q) * m;
      CongruentBy(b, c, p - q, m);
    }
    if Congruent(b, c, m) {
      var p := Quotient(b, c, m);
      assert a - c == (p + q) * m;
      CongruentBy(a, c, p + q, m);
    }
  }

  /** A 64-bit word is congruent to what it was made from, modulo 2^64 and so modulo 2^32. */
  lemma {:induction false} WordCongruent(x: int, m: int)
    requires m == TWO_32 || m == TWO_64
    ensures Congruent(x, U64(x), m)
  {
    var q := x / TWO_64;
    assert x - U64(x) == q * TWO_64;
    if m == TWO_32 {
      assert x - U64(x) == q * TWO_32 * TWO_32;
      CongruentBy(x, U64(x), q * TWO_32, TWO_32);
    } else {
      CongruentBy(x, U64(x), q, TWO_64);
    }
  }

  lemma {:induction false} SignedCongruent(size: nat, x: int)
    requires size == 4 || size == 8
    ensures Congruent(x, Signed(size, x), Modulus(size))
  {
    var m := Modulus(size);
    var q := x / m;
    assert Unsigned(size, x) == x % m;
    CongruentBy(x, Signed(size, x), if Signed(size, x) < 0 then q + 1 else q, m);
  }

  // ---------------------------------------------------------------- narrowing

  lemma {:induction false} NarrowExactly(f: Field, n: int, signed: bool, rest: seq<Byte>)
    requires signed || 0 <= n < TWO_64
    ensures Narrow(f, n, signed, rest)
         == if IsWidth(f.dataSize) && (if signed then FitsSigned(f.dataSize, n) else FitsUnsigned(f.dataSize, n))
            then Ok(VInt(n), rest) else Err
  {
    if IsWidth(f.dataSize) {
      if signed && FitsSigned(f.dataSize, n) { SignedExact(f.dataSize, f.dataSize, n); }
      if !signed && FitsUnsigned(f.dataSize, n) { UnsignedExact(f.dataSize, n); }
    }
  }

  // ---------------------------------------------------------------- varint fields

  /** The modulus of an int32_t or, for fields of 64 bits, of an int64_t. */
  function CastModulus(f: Field): (m: int)
    ensures m == TWO_32 || m == TWO_64
  {
    if f.dataSize == 8 then TWO_64 else TWO_32
  }

  /** pb_dec_varint: fields narrower than 64 bits take any varint that is congruent modulo 2^32 to a number
      that fits them. */
  lemma {:induction false} VarintExactly(f: Field, v: seq<Byte>, t: seq<Byte>, n: int)
    requires f.ltype.LVarint? && IsVarint(v) && |v| <= 10
    ensures DecScalar(f, v + t) == Ok(VInt(n), t) <==>
              IsWidth(f.dataSize) && FitsSigned(f.dataSize, n) && Congruent(GroupValue(v), n, CastModulus(f))
  {
    hide Varint64, Congruent, Signed, Narrow;
    var w, x := if f.dataSize == 8 then 8 else 4, U64(GroupValue(v));
    var y := Signed(w, x);
    Varint64Value(v, t);
    NarrowExactly(f, y, true, t);
    WordCongruent(GroupValue(v), CastModulus(f));
    SignedCongruent(w, x);
    CongruentTrans(GroupValue(v), x, y, CastModulus(f));
    CongruentTrans(GroupValue(v), y, n, CastModulus(f));
    if IsWidth(f.dataSize) && FitsSigned(f.dataSize, n) && Congruent(GroupValue(v), n, CastModulus(f)) {
      CongruentClose(y, n, CastModulus(f));
    }
    if n == y { CongruentSelf(n, CastModulus(f)); }
  }

  lemma {:induction false} CongruentSelf(a: int, m: int)
    requires m > 0
    ensures Congruent(a, a, m)
  {
    CongruentBy(a, a, 0, m);
  }

  /** pb_dec_uvarint: the number modulo 2^64 has to fit. */
  lemma {:induction false} UVarintExactly(f: Field, v: seq<Byte>, t: seq<Byte>, n: int)
    requires f.ltype.LUVarint? && IsVarint(v) && |v| <= 10
    ensures DecScalar(f, v + t) == Ok(VInt(n), t) <==>
              IsWidth(f.dataSize) && FitsUnsigned(f.dataSize, n) && Congruent(GroupValue(v), n, TWO_64)
  {
    hide Varint64, Congruent, Narrow;
    var x := U64(GroupValue(v));
    Varint64Value(v, t);
    NarrowExactly(f, x, false, t);
    WordCongruent(GroupValue(v), TWO_64);
    CongruentTrans(GroupValue(v), x, n, TWO_64);
    if IsWidth(f.dataSize) && FitsUnsigned(f.dataSize, n) && Congruent(GroupValue(v), n, TWO_64) {
      CongruentClose(x, n, TWO_64);
    }
    CongruentSelf(x, TWO_64);
  }

  /** The ZigZag number of `n`: 0, 1, 2, 3, ... for 0, -1, 1, -2, ... */
  function ZigZagNumber(n: int): nat {
    if n >= 0 then 2 * n else -2 * n - 1
  }

  lemma {:induction false} UnZigZagNumber(x: nat)
    requires x < TWO_64
    ensures ZigZagNumber(UnZigZag(x)) == x && FitsSigned(8, UnZigZag(x))
  {
    if x % 2 == 1 {
      ModUnique(TWO_64 - 1 - x / 2, 0, TWO_64 - 1 - x / 2, TWO_64);
    } else {
      ModUnique(x / 2, 0, x / 2, TWO_64);
    }
  }

  /** pb_dec_svarint: the ZigZag number modulo 2^64 has to be that of a number that fits. */
  lemma {:induction false} SVarintExactly(f: Field, v: seq<Byte>, t: seq<Byte>, n: int)
    requires f.ltype.LSVarint? && IsVarint(v) && |v| <= 10
    ensures DecScalar(f, v + t) == Ok(VInt(n), t) <==>
              IsWidth(f.dataSize) && FitsSigned(f.dataSize, n) && Congruent(GroupValue(v), ZigZagNumber(n), TWO_64)
  {
    hide Varint64, Congruent, Narrow, UnZigZag;
    var x := U64(GroupValue(v));
    Varint64Value(v, t);
    UnZigZagNumber(x);
    NarrowExactly(f, UnZigZag(x), true, t);
    WordCongruent(GroupValue(v), TWO_64);
    CongruentTrans(GroupValue(v), x, ZigZagNumber(n), TWO_64);
    if IsWidth(f.dataSize) && FitsSigned(f.dataSize, n) && Congruent(GroupValue(v), ZigZagNumber(n), TWO_64) {
      CongruentClose(x, ZigZagNumber(n), TWO_64);
    }
    CongruentSelf(x, TWO_64);
  }

  /** Every other outcome is "integer too large": nothing but a number that fits is ever returned, with the
      bytes after the varint left unread. */
  lemma {:induction false} VarintOutcome(f: Field, v: seq<Byte>, t: seq<Byte>)
    requires f.ltype.LVarint? || f.ltype.LUVarint? || f.ltype.LSVarint?
    requires IsVarint(v) && |v| <= 10
    ensures var r := DecScalar(f, v + t); r.Ok? ==> r.v.VInt? && r == Ok(VInt(r.v.n), t)
  {
    hide Varint64, Narrow, UnZigZag;
    Varint64Value(v, t);
  }

  /** A negative int32 is also accepted when it was sent as a varint of its 32-bit two's complement. */
  lemma {:induction false} ShortNegative(f: Field, n: int, t: seq<Byte>)
    requires f.ltype.LVarint? && f.dataSize == 4 && -TWO_31 <= n < 0
    ensures |EncVarint(TWO_32 + n)| <= 5 && DecScalar(f, EncVarint(TWO_32 + n) + t) == Ok(VInt(n), t)
  {
    hide DecScalar;
    var v := EncVarint(TWO_32 + n);
    ShlWords();
    ShlGrows(1, 32, 35);
    EncVarintLength(TWO_32 + n, 5);
    EncVarintValue(TWO_32 + n);
    CongruentBy(TWO_32 + n, n, 1, TWO_32);
    VarintExactly(f, v, t, n);
  }

  /** pb_dec_bool: any number but 0 modulo 2^32 is true. */
  lemma {:induction false} BoolExactly(f: Field, v: seq<Byte>, t: seq<Byte>, b: bool)
    requires f.ltype.LBool? && IsVarint(v) && |v| <= 10
    ensures DecScalar(f, v + t) == Ok(VBool(b), t) <==> Accepted(v) && (b <==> !Congruent(GroupValue(v), 0, TWO_32))
  {
    hide Varint32, Accepted;
    Varint32Accepts(v, t);
  }

  // ---------------------------------------------------------------- any input

  lemma {:induction false} FirstVarint(s: seq<Byte>)
    requires VarintLen(s).Some?
    ensures IsVarint(s[..VarintLen(s).value])
  {
    var n := VarintLen(s).value;
    if s[0] >= 128 {
      FirstVarint(s[1..]);
      assert s[..n][1..] == s[1..][..n - 1];
    }
  }

  lemma {:induction false} LongVarint(s: seq<Byte>, i: nat, bitpos: nat, acc: nat)
    requires VarintLen(s).Some? && i <= 10 < i + VarintLen(s).value && bitpos == 7 * i
    ensures Varint64Loop(s, bitpos, acc).Err?
    decreases |s|
  {
    hide BitOr, Shl;
    if i < 10 {
      LongVarint(s[1..], i + 1, bitpos + 7, BitOr(acc, U64(Shl(Group(s[0]), bitpos))));
    }
  }

  /** pb_decode_varint on any input: it takes the first varint, if there is one of at most ten bytes. */
  lemma {:induction false} Varint64Exactly(s: seq<Byte>)
    ensures Varint64(s) == match VarintLen(s)
                           case None => Err
                           case Some(n) => if n <= 10 then Ok(U64(GroupValue(s[..n])), s[n..]) else Err
  {
    hide Varint64Loop, U64;
    match VarintLen(s)
    case None => if Varint64(s).Ok? { Varint64Consumes(s); }
    case Some(n) =>
      if n <= 10 {
        FirstVarint(s);
        Varint64Value(s[..n], s[n..]);
        assert s[..n] + s[n..] == s;
      } else {
        LongVarint(s, 0, 0, 0);
      }
  }

  // ---------------------------------------------------------------- fixed width

  /** The number that bytes spell, least significant first. */
  function LittleEndian(bs: seq<Byte>): nat {
    if bs == [] then 0 else bs[0] + 256 * LittleEndian(bs[1..])
  }

  lemma {:induction false} OrBytesSpell(bs: seq<Byte>, shift: nat, acc: nat)
    requires acc < Shl(1, shift)
    ensures OrBytes(bs, shift, acc) == acc + Shl(LittleEndian(bs), shift)
    decreases |bs|
  {
    hide Shl, BitOr;
    if bs == [] {
      ShlAdd(0, 0, shift);
    } else {
      var b: int := bs[0];
      BitOrDisjoint(acc, b, shift);
      ShlAdd(b, 1, shift);
      ShlMono(b + 1, 256, shift);
      ShlSmall(1);
      ShlShl(1, 8, shift);
      OrBytesSpell(bs[1..], shift + 8, acc + Shl(b, shift));
      ShlAdd(b, 256 * LittleEndian(bs[1..]), shift);
      ShlSmall(LittleEndian(bs[1..]));
      ShlShl(LittleEndian(bs[1..]), 8, shift);
    }
  }

  /** pb_dec_fixed32 and pb_dec_fixed64 on any input. */
  lemma {:induction false} FixedExactly(f: Field, s: seq<Byte>)
    requires f.ltype.LFixed32? || f.ltype.LFixed64?
    ensures var k := if f.ltype.LFixed32? then 4 else 8;
            DecScalar(f, s) == if |s| < k then Err else Ok(VInt(LittleEndian(s[..k])), s[k..])
  {
    var k := if f.ltype.LFixed32? then 4 else 8;
    if |s| >= k {
      ShlSmall(1);
      OrBytesSpell(s[..k], 0, 0);
      ShlSmall(LittleEndian(s[..k]));
    }
  }

  lemma {:induction false} EncFixedSpells(n: nat, k: nat)
    requires n < Shl(1, 8 * k)
    ensures LittleEndian(EncFixed(n, k)) == n
    decreases k
  {
    hide Shl;
    ShlSmall(1);
    if k > 0 {
      ShlShl(1, 8 * (k - 1), 8);
      ShlSmall(Shl(1, 8 * (k - 1)));
      EncFixedSpells(n / 256, k - 1);
      assert EncFixed(n, k)[1..] == EncFixed(n / 256, k - 1);
    }
  }

  // ---------------------------------------------------------------- what the encoders write

  /** No varint that spells a number is shorter than the encoder's. */
  lemma {:induction false} ShortestVarint(v: seq<Byte>)
    requires IsVarint(v)
    ensures |EncVarint(GroupValue(v))| <= |v|
    decreases |v|
  {
    if |v| > 1 {
      ShortestVarint(v[1..]);
    } else {
      assert v[1..] == [];
    }
  }

  /** The number that a scalar is sent as: negative integers in 64-bit two's complement, or ZigZag. */
  function SentNumber(f: Field, v: Value): int
    requires v.VBool? || v.VInt?
  {
    if v.VBool? then (if v.b then 1 else 0)
    else if f.ltype.LSVarint? then ZigZagNumber(v.n)
    else if v.n < 0 then v.n + 0x1_0000_0000_0000_0000
    else v.n
  }

  /** The encoder writes a scalar as the shortest varint, or as four or eight bytes, of that number. */
  lemma {:induction false} ScalarBytes(table: Table, f: Field, v: Value)
    requires Packable(f.ltype) && NormalItem(table, f, v)
    requires f.ltype.LVarint? || f.ltype.LUVarint? || f.ltype.LSVarint? ==> IsWidth(f.dataSize)
    ensures EncScalar(f, v).Some?
    ensures var e, n := EncScalar(f, v).value, SentNumber(f, v);
            if f.ltype.LFixed32? || f.ltype.LFixed64?
            then |e| == (if f.ltype.LFixed32? then 4 else 8) && LittleEndian(e) == n
            else IsVarint(e) && GroupValue(e) == n && forall w | IsVarint(w) && GroupValue(w) == n :: |e| <= |w|
  {
    hide Shl;
    var n := SentNumber(f, v);
    match f.ltype {
      case LBool =>
      case LVarint =>
        SignedExact(f.dataSize, 8, v.n);
      case LUVarint =>
        UnsignedExact(f.dataSize, v.n);
      case LSVarint =>
        FitsWider(f.dataSize, v.n);
        ZigZagRoundTrip(v.n);
      case LFixed32 =>
        SmallU32(v.n);
        ShlWords();
        EncFixedSpells(v.n, 4);
      case LFixed64 =>
        UnsignedExact(8, v.n);
        ShlWords();
        EncFixedSpells(v.n, 8);
    }
    if !f.ltype.LFixed32? && !f.ltype.LFixed64? {
      assert EncScalar(f, v).value == EncVarint(n);
      EncVarintValue(n);
      forall w | IsVarint(w) && GroupValue(w) == n ensures |EncVarint(n)| <= |w| { ShortestVarint(w); }
    }
  }

  // ---------------------------------------------------------------- strings and byte arrays

  /** Whether a field can hold `n` bytes: a static byte array has a header of four bytes, a string needs a
      NUL, and its size with the NUL is computed in 32 bits. */
  predicate Room(f: Field, n: nat) {
    match f.ltype
    case LBytes => f.atype.Static? ==> n <= f.dataSize - 4
    case LString => n < 0xFFFF_FFFF && (f.atype.Static? ==> n < f.dataSize)
    case _ => n == f.dataSize
  }

  /** pb_dec_bytes, pb_dec_string and pb_dec_fixed_length_bytes, however the length is spelled: what fits is
      stored, an empty fixed-length field becomes zeros, and the rest is refused. */
  lemma {:induction false} BlobExactly(f: Field, len: seq<Byte>, bs: seq<Byte>, t: seq<Byte>)
    requires f.ltype.LBytes? || f.ltype.LString? || f.ltype.LFixedLengthBytes?
    requires IsVarint(len) && |len| <= 10 && GroupValue(len) == |bs| < TWO_32
    ensures if f.ltype.LFixedLengthBytes? && bs == [] then
              exists z: seq<Byte> :: |z| == f.dataSize && (forall i :: 0 <= i < |z| ==> z[i] == 0)
                                     && DecBlob(f, len + bs + t) == Ok(VBytes(z), t)
            else DecBlob(f, len + bs + t) == if Room(f, |bs|) then Ok(VBytes(bs), t) else Err
  {
    hide Varint32;
    Varint32Value(len, bs + t);
    SmallU32(|bs|);
    assert len + bs + t == len + (bs + t);
    assert (bs + t)[..|bs|] == bs && (bs + t)[|bs|..] == t;
    if f.ltype.LFixedLengthBytes? && bs == [] {
      var z := Zeros(f.dataSize);
      assert bs + t == t;
      assert DecBlob(f, len + bs + t) == Ok(VBytes(z), t);
    }
  }

  /** A length that promises more bytes than there are is refused, except that of an empty field. */
  lemma {:induction false} BlobTruncated(f: Field, len: seq<Byte>, bs: seq<Byte>)
    requires f.ltype.LBytes? || f.ltype.LString? || f.ltype.LFixedLengthBytes?
    requires IsVarint(len) && |len| <= 10 && |bs| < GroupValue(len) < TWO_32
    ensures DecBlob(f, len + bs).Err?
  {
    hide Varint32;
    Varint32Value(len, bs);
    SmallU32(GroupValue(len));
  }

  /** `p` is the C string in a buffer: what comes before its first NUL, or all of the buffer. */
  predicate CString(f: Field, bs: seq<Byte>, p: seq<Byte>) {
    && p <= bs && 0 !in p && (f.atype.Static? ==> |p| <= f.dataSize)
    && (p == bs || bs[|p|] == 0 || (f.atype.Static? && |p| == f.dataSize))
  }

  lemma {:induction false} StrLenExactly(bs: seq<Byte>, max: nat)
    ensures var n := StrLen(bs, max);
            0 !in bs[..n] && (n == |bs| || n == max || bs[n] == 0)
    decreases |bs|
  {
    if bs != [] && max > 0 && bs[0] != 0 {
      StrLenExactly(bs[1..], max - 1);
      var n := StrLen(bs, max);
      assert bs[..n] == [bs[0]] + bs[1..][..n - 1];
    }
  }

  /** pb_enc_bytes, pb_enc_string and pb_enc_fixed_length_bytes on any contents: byte arrays that are too
      large are refused, and strings are sent up to their first NUL or the end of the buffer. */
  lemma {:induction false} BlobBytes(table: Table, f: Field, bs: seq<Byte>)
    requires f.ltype.LBytes? || f.ltype.LString? || f.ltype.LFixedLengthBytes?
    ensures var e := EncBody(table, f, VBytes(bs));
            match f.ltype
            case LString => e.Some? && CString(f, bs, e.value)
            case LBytes => e == if f.atype.Pointer? || |bs| <= f.dataSize - 4 then Some(bs) else None
            case _ => e == if |bs| == f.dataSize then Some(bs) else None
  {
    if f.ltype.LString? {
      StrLenExactly(bs, if f.atype.Pointer? then |bs| else f.dataSize);
      assert bs[..|bs|] == bs;
    }
  }
}
