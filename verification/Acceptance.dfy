/** Exactly which varints pb_decode_varint32 accepts, and which of them spell a number of 2^32 or more. */
module Acceptance {
  import opened Bits
  import opened Wire

  /** Byte `i`, past bit 32, is padding or continues the sign of a low word whose bit 31 is set. */
  predicate HighByteAccepted(v: seq<Byte>, i: nat)
    requires 4 < i < |v|
  {
    Group(v[i]) == 0 || (Group(v[4]) % 16 >= 8 && v[i] == if i < 9 then 0xFF else 0x01)
  }

  /** At most 28 bits; or a fifth and last byte of four bits; or more bytes, which are all padding or all
      continue the sign. The upper bits of a fifth byte that is not the last one do not matter. */
  predicate Accepted(v: seq<Byte>) {
    || |v| <= 4
    || (|v| == 5 && v[4] < 16)
    || (|v| >= 6 && forall i :: 5 <= i < |v| ==> HighByteAccepted(v, i))
  }

  lemma {:induction false} VarintSuffix(v: seq<Byte>, i: nat)
    requires IsVarint(v) && i < |v|
    ensures IsVarint(v[i..]) && (v[i] >= 128 <==> i + 1 < |v|)
    decreases i
  {
    if i > 0 {
      VarintSuffix(v[1..], i - 1);
      assert v[1..][i - 1..] == v[i..];
    }
  }

  /** The bytes from index `i` on, past bit 32, leave the accumulator alone. */
  lemma {:induction false} HighBytes(v: seq<Byte>, t: seq<Byte>, i: nat, bitpos: nat, acc: nat)
    requires IsVarint(v) && |v| <= 10 && 5 <= i < |v| && bitpos == 7 * i
    requires acc >= TWO_31 <==> Group(v[4]) % 16 >= 8
    ensures Varint32Loop(v[i..] + t, bitpos, acc).Ok? <==> forall j :: i <= j < |v| ==> HighByteAccepted(v, j)
    decreases |v| - i
  {
    hide Shl, BitOr, U32;
    var s := v[i..] + t;
    VarintSuffix(v, i);
    assert s[0] == v[i] && s[1..] == v[i + 1..] + t;
    assert HighByteAccepted(v, i) <==> Group(v[i]) == 0 || (acc >= TWO_31 && v[i] == SignExtension(bitpos));
    if i + 1 < |v| {
      HighBytes(v, t, i + 1, bitpos + 7, acc);
      assert Varint32Loop(s, bitpos, acc).Ok? <==>
               HighByteAccepted(v, i) && Varint32Loop(v[i + 1..] + t, bitpos + 7, acc).Ok?;
    } else {
      assert Varint32Loop(s, bitpos, acc).Ok? <==> HighByteAccepted(v, i);
    }
  }

  lemma {:induction false} FifthByte(v: seq<Byte>, t: seq<Byte>, bitpos: nat, acc: nat)
    requires IsVarint(v) && 5 <= |v| <= 10 && bitpos == 28 && acc < Shl(1, bitpos)
    ensures Varint32Loop(v[4..] + t, bitpos, acc).Ok? <==> Accepted(v)
  {
    hide Shl, BitOr, U32, HighByteAccepted;
    var s, g := v[4..] + t, Group(v[4]);
    VarintSuffix(v, 4);
    assert s[0] == v[4] && s[1..] == v[5..] + t;
    OrGroup28(acc, g, bitpos);
    ShlWords();
    TopBit(acc, g % 16, bitpos);
    if |v| > 5 { HighBytes(v, t, 5, bitpos + 7, acc + Shl(g % 16, bitpos)); }
  }

  lemma {:induction false} TopBit(acc: nat, g: nat, k: nat)
    requires k == 28 && acc < Shl(1, k) && g < 16
    ensures acc + Shl(g, k) >= TWO_31 <==> g >= 8
  {
    hide Shl;
    ShlWords();
    ShlSmall(1);
    ShlShl(1, 4, k);
    ShlAdd(8, 8, k);
    ShlAdd(7, 1, k);
    if g >= 8 { ShlMono(8, g, k); } else { ShlMono(g, 7, k); }
    ShlSmall(16);
  }

  lemma {:induction false} LowBytes(v: seq<Byte>, t: seq<Byte>, i: nat, bitpos: nat, acc: nat)
    requires IsVarint(v) && |v| <= 10 && 1 <= i <= 4 && i < |v| && bitpos == 7 * i && acc < Shl(1, bitpos)
    ensures Varint32Loop(v[i..] + t, bitpos, acc).Ok? <==> Accepted(v)
    decreases 4 - i
  {
    hide Shl, BitOr, U32, Varint32Loop, Accepted;
    if i == 4 {
      FifthByte(v, t, bitpos, acc);
    } else {
      var s := v[i..] + t;
      VarintSuffix(v, i);
      assert s[0] == v[i] && s[1..] == v[i + 1..] + t;
      Varint32Round(s, bitpos, acc);
      if i + 1 < |v| {
        LowBytes(v, t, i + 1, bitpos + 7, acc + Shl(Group(v[i]), bitpos));
      } else {
        ShortAccepted(v);
      }
    }
  }

  lemma {:induction false} ShortAccepted(v: seq<Byte>)
    ensures |v| <= 4 ==> Accepted(v)
  {
  }

  /** pb_decode_varint32 on a varint of at most ten bytes, followed by anything, succeeds exactly on
      `Accepted`. */
  lemma {:induction false} Varint32Accepts(v: seq<Byte>, t: seq<Byte>)
    requires IsVarint(v) && |v| <= 10
    ensures Varint32(v + t).Ok? <==> Accepted(v)
    ensures Accepted(v) ==> Varint32(v + t) == Ok(U32(GroupValue(v)), t)
  {
    hide Shl, BitOr, U32, Varint32Loop, Accepted;
    Varint32Value(v, t);
    VarintCases(v, t);
    if |v| == 1 {
      ShortAccepted(v);
    } else {
      ShlSmall(1);
      LowBytes(v, t, 1, 7, Group(v[0]));
    }
  }

  // ---------------------------------------------------------------- numbers that do not fit

  lemma {:induction false} ZeroGroups(v: seq<Byte>)
    ensures GroupValue(v) == 0 <==> forall i :: 0 <= i < |v| ==> Group(v[i]) == 0
  {
    if v != [] {
      ZeroGroups(v[1..]);
      assert forall i :: 0 < i < |v| ==> v[i] == v[1..][i - 1];
    }
  }

  lemma {:induction false} FourGroups(v: seq<Byte>)
    ensures |v| <= 4 ==> GroupValue(v) < 0x1000_0000
    ensures |v| >= 4 ==> 0x1000_0000 * GroupValue(v[4..]) <= GroupValue(v) < 0x1000_0000 * (GroupValue(v[4..]) + 1)
  {
    if |v| >= 1 { GroupStep(v, 0); }
    if |v| >= 2 { GroupStep(v, 1); }
    if |v| >= 3 { GroupStep(v, 2); }
    if |v| >= 4 { GroupStep(v, 3); assert v[0..] == v; }
    assert v[|v|..] == [] && v[0..] == v;
  }

  lemma {:induction false} GroupStep(v: seq<Byte>, i: nat)
    requires i < |v|
    ensures GroupValue(v[i..]) == Group(v[i]) + 128 * GroupValue(v[i + 1..])
  {
    assert v[i..][1..] == v[i + 1..];
  }

  /** An accepted varint spells a number that does not fit in 32 bits, and so is truncated, exactly when
      it has more than five bytes and a bit at or above bit 32. */
  lemma {:induction false} AcceptedTooLarge(v: seq<Byte>)
    requires Accepted(v)
    ensures GroupValue(v) >= TWO_32 <==>
              |v| >= 6 && (Group(v[4]) >= 16 || exists i :: 5 <= i < |v| && Group(v[i]) != 0)
  {
    FourGroups(v);
    if |v| >= 5 {
      GroupStep(v, 4);
      ZeroGroups(v[5..]);
      assert forall i :: 5 <= i < |v| ==> v[i] == v[5..][i - 5];
      if |v| == 5 { assert v[5..] == []; }
    }
  }

  // ---------------------------------------------------------------- instances

  /** A negative int32 is sent as a ten-byte varint of its 64-bit sign extension; the 32-bit decoder
      accepts all of them and returns the low word. */
  lemma {:induction false} SignExtendedAccepted(n: int, t: seq<Byte>)
    requires -TWO_31 <= n < 0
    ensures |EncVarint(TWO_64 + n)| == 10
    ensures Varint32(EncVarint(TWO_64 + n) + t) == Ok(TWO_32 + n, t)
  {
    hide Accepted;
    var v := EncVarint(TWO_64 + n);
    SignExtendedBytes(n);
    EncVarintValue(TWO_64 + n);
    Varint32Accepts(v, t);
    assert U32(TWO_64 + n) == TWO_32 + n by { ModUnique(TWO_64 + n, TWO_32 - 1, TWO_32 + n, TWO_32); }
  }

  lemma {:induction false} SignExtendedBytes(n: int)
    requires -TWO_31 <= n < 0
    ensures |EncVarint(TWO_64 + n)| == 10 && Accepted(EncVarint(TWO_64 + n))
  {
    var x0 := TWO_64 + n;
    var x1 := x0 / 128;
    var x2 := x1 / 128;
    var x3 := x2 / 128;
    var x4 := x3 / 128;
    var low := x0 % 128 + 0x80 * (x1 % 128) + 0x4000 * (x2 % 128) + 0x20_0000 * (x3 % 128);
    SignExtendedGroups(n, x4, low);
    TopBytes();
    EncVarintFive(x0, x1, x2, x3, x4);
  }

  lemma {:induction false} EncVarintFive(x0: nat, x1: nat, x2: nat, x3: nat, x4: nat)
    requires x1 == x0 / 128 && x2 == x1 / 128 && x3 == x2 / 128 && x4 == x3 / 128 && x4 >= 128
    requires EncVarint(x4 / 128) == [0xFF, 0xFF, 0xFF, 0xFF, 0x01] && x4 % 128 % 16 >= 8
    ensures |EncVarint(x0)| == 10 && Accepted(EncVarint(x0))
  {
    var e4 := [x4 % 128 + 128] + EncVarint(x4 / 128);
    var e3 := [x3 % 128 + 128] + e4;
    var e2 := [x2 % 128 + 128] + e3;
    var e1 := [x1 % 128 + 128] + e2;
    assert EncVarint(x4) == e4 && EncVarint(x3) == e3 && EncVarint(x2) == e2 && EncVarint(x1) == e1;
    assert EncVarint(x0) == [x0 % 128 + 128] + e1;
  }

  lemma {:induction false} SignExtendedGroups(n: int, x4: nat, low: nat)
    requires -TWO_31 <= n < 0 && low < 0x1000_0000 && x4 * 0x1000_0000 + low == TWO_64 + n
    ensures x4 / 128 == 0x1FFF_FFFF && x4 % 128 % 16 >= 8
  {
  }

  lemma {:induction false} TopBytes()
    ensures EncVarint(0x1FFF_FFFF) == [0xFF, 0xFF, 0xFF, 0xFF, 0x01]
  {
    assert EncVarint(0x3FFF) == [0xFF] + EncVarint(0x7F);
    assert EncVarint(0x1F_FFFF) == [0xFF] + EncVarint(0x3FFF);
  }

  /** This six-byte varint spells 2^32 and is accepted as 0. */
  lemma {:induction false} FifthByteTruncated(t: seq<Byte>)
    ensures var v := [0x80, 0x80, 0x80, 0x80, 0x90, 0x00];
            && IsVarint(v) && GroupValue(v) == TWO_32 && Varint32(v + t) == Ok(0, t)
  {
    hide Varint32Loop, Shl, BitOr;
    var v: seq<Byte> := [0x80, 0x80, 0x80, 0x80, 0x90, 0x00];
    assert v[1..] == [0x80, 0x80, 0x80, 0x90, 0x00] && v[2..] == [0x80, 0x80, 0x90, 0x00];
    assert v[3..] == [0x80, 0x90, 0x00] && v[4..] == [0x90, 0x00] && v[5..] == [0x00] && v[6..] == [];
    GroupStep(v, 0); GroupStep(v, 1); GroupStep(v, 2); GroupStep(v, 3); GroupStep(v, 4); GroupStep(v, 5);
    assert IsVarint(v[5..]) && IsVarint(v[4..]) && IsVarint(v[3..]) && IsVarint(v[2..]) && IsVarint(v[1..]);
    Varint32Accepts(v, t);
  }
}
