/** The scalar wire formats of nanopb: base-128 varints (64-bit and 32-bit decoders), ZigZag
    and little-endian fixed-width integers, as functions over byte sequences. */
module Wire {
  import opened Options
  import opened Bits

  type Byte = b: int | 0 <= b < 256

  /** Outcome of reading from the front of a stream: the value and the bytes left unread. */
  datatype Parsed<T> = Ok(v: T, rest: seq<Byte>) | Err

  // ---------------------------------------------------------------- encoders

  function EncVarint(n: nat): (e: seq<Byte>)
    ensures |e| >= 1
  {
    if n < 128 then [n] else [n % 128 + 128] + EncVarint(n / 128)
  }

  /** ZigZag on 64-bit words: `~(v << 1)` for a negative value, `v << 1` otherwise. */
  function ZigZag(n: int): nat {
    var shifted := U64(2 * U64(n));
    if n < 0 then TWO_64 - 1 - shifted else shifted
  }

  /** The `k` low bytes of `n`, least significant first. */
  function EncFixed(n: nat, k: nat): (e: seq<Byte>)
    ensures |e| == k
  {
    if k == 0 then [] else [n % 256] + EncFixed(n / 256, k - 1)
  }

  // ---------------------------------------------------------------- decoders

  /** The seven payload bits of a varint byte, `b & 0x7F`. */
  function Group(b: Byte): (g: nat)
    ensures g < 128
  {
    if b < 128 then b else b - 128
  }

  function Varint64(s: seq<Byte>): (r: Parsed<nat>)
    ensures r.Ok? ==> |r.rest| < |s|
  {
    Varint64Loop(s, 0, 0)
  }

  function Varint64Loop(s: seq<Byte>, bitpos: nat, acc: nat): (r: Parsed<nat>)
    ensures r.Ok? ==> |r.rest| < |s|
    decreases |s|
  {
    if bitpos >= 64 || s == [] then Err
    else
      var acc' := BitOr(acc, U64(Shl(Group(s[0]), bitpos)));
      if s[0] < 128 then Ok(acc', s[1..]) else Varint64Loop(s[1..], bitpos + 7, acc')
  }

  function Varint32(s: seq<Byte>): (r: Parsed<nat>)
    ensures r.Ok? ==> |r.rest| < |s|
  {
    if s == [] then Err
    else if s[0] < 128 then Ok(s[0], s[1..])
    else Varint32Loop(s[1..], 7, Group(s[0]))
  }

  /** The byte value that may follow past bit 32 when the low word is negative. */
  function SignExtension(bitpos: nat): Byte {
    if bitpos < 63 then 0xFF else 0x01
  }

  /** `bitpos` is a `uint_fast8_t`, one byte wide, so its increment is taken modulo 256. */
  function Advance(bitpos: nat): nat {
    if bitpos < 249 then bitpos + 7 else bitpos - 249
  }

  /** The last byte at bit 28 (`bitpos` is then 35) may only use its four low bits. */
  function Varint32Loop(s: seq<Byte>, bitpos: nat, acc: nat): (r: Parsed<nat>)
    ensures r.Ok? ==> |r.rest| < |s|
    decreases |s|
  {
    if s == [] then Err
    else
      var b := s[0];
      if bitpos >= 32 && Group(b) != 0 && (acc < TWO_31 || b != SignExtension(bitpos)) then Err
      else
        var acc' := if bitpos >= 32 then acc
                    else BitOr(acc, U32(Shl(Group(b), bitpos)));
        var bitpos' := Advance(bitpos);
        if b >= 128 then Varint32Loop(s[1..], bitpos', acc')
        else if bitpos' == 35 && b >= 16 then Err
        else Ok(acc', s[1..])
  }

  function UnZigZag(v: nat): int {
    if v % 2 == 1 then Signed(8, TWO_64 - 1 - v / 2) else Signed(8, v / 2)
  }

  /** Or together `bs[0] << shift`, `bs[1] << (shift + 8)`, ... */
  function OrBytes(bs: seq<Byte>, shift: nat, acc: nat): nat
    decreases |bs|
  {
    if bs == [] then acc else OrBytes(bs[1..], shift + 8, BitOr(acc, Shl(bs[0], shift)))
  }

  function Fixed(s: seq<Byte>, k: nat): (r: Parsed<nat>)
    ensures r.Ok? ==> |r.rest| == |s| - k
  {
    if |s| < k then Err else Ok(OrBytes(s[..k], 0, 0), s[k..])
  }

  // ---------------------------------------------------------------- varints as numbers

  /** A complete varint: every byte but the last has its continuation bit set. */
  predicate IsVarint(v: seq<Byte>) {
    v != [] && if |v| == 1 then v[0] < 128 else v[0] >= 128 && IsVarint(v[1..])
  }

  /** The number spelled by the 7-bit groups, least significant first, without any truncation. */
  function GroupValue(v: seq<Byte>): nat {
    if v == [] then 0 else Group(v[0]) + 128 * GroupValue(v[1..])
  }

  lemma {:induction false} EncVarintValue(n: nat)
    ensures IsVarint(EncVarint(n)) && GroupValue(EncVarint(n)) == n
  {
    if n >= 128 {
      EncVarintValue(n / 128);
      assert EncVarint(n)[1..] == EncVarint(n / 128);
    }
  }

  lemma {:induction false} EncVarintLength(n: nat, k: nat)
    requires k >= 1 && n < Shl(1, 7 * k)
    ensures |EncVarint(n)| <= k
  {
    ShlSmall(1);
    if n >= 128 {
      ShlSmall(Shl(1, 7 * (k - 1)));
      ShlShl(1, 7 * (k - 1), 7);
      EncVarintLength(n / 128, k - 1);
    }
  }

  /** Splitting the lowest group off a shifted group value. */
  lemma {:induction false} ShlGroups(g: nat, gv: nat, bitpos: nat)
    ensures Shl(g + 128 * gv, bitpos) == Shl(g, bitpos) + Shl(gv, bitpos + 7)
  {
    ShlAdd(g, 128 * gv, bitpos);
    ShlSmall(gv);
    ShlShl(gv, 7, bitpos);
  }

  /** A group or-ed in at `bitpos` is added, and the sum stays below the next position. */
  lemma {:induction false} OrGroup(acc: nat, g: nat, bitpos: nat)
    requires g < 128 && acc < Shl(1, bitpos)
    ensures BitOr(acc, Shl(g, bitpos)) == acc + Shl(g, bitpos) < Shl(1, bitpos + 7)
  {
    BitOrDisjoint(acc, g, bitpos);
    ShlAdd(g, 1, bitpos);
    ShlMono(g + 1, 128, bitpos);
    ShlAdd(0, 0, bitpos);
    ShlGroups(0, 1, bitpos);
  }

  // ---------------------------------------------------------------- 64-bit varints

  /** Below bit 57 a shifted group is not truncated. */
  lemma {:induction false} OrGroup64(acc: nat, g: nat, bitpos: nat)
    requires g < 128 && bitpos <= 56 && acc < Shl(1, bitpos)
    ensures acc + Shl(g, bitpos) < Shl(1, bitpos + 7) <= TWO_63
    ensures BitOr(acc, U64(Shl(g, bitpos))) == acc + Shl(g, bitpos)
  {
    OrGroup(acc, g, bitpos);
    ShlGrows(1, bitpos + 7, 63);
    ShlWords();
    SmallMod(Shl(g, bitpos), TWO_64);
  }

  /** Shifted to bit 63, only the lowest bit of the group survives. */
  lemma {:induction false} OrGroup63(acc: nat, g: nat, k: nat)
    requires k == 63 && g < 128 && acc < Shl(1, k)
    ensures BitOr(acc, U64(Shl(g, k))) == U64(acc + Shl(g, k))
  {
    hide BitOr, Shl;
    ShlWords();
    ShlAdd(g % 2, 2 * (g / 2), k);
    ShlGroups63(g / 2, k);
    ModUnique(Shl(g, k), g / 2, Shl(g % 2, k), TWO_64);
    ModUnique(acc + Shl(g, k), g / 2, acc + Shl(g % 2, k), TWO_64);
    BitOrDisjoint(acc, g % 2, k);
  }

  lemma {:induction false} ShlGroups63(x: nat, k: nat)
    requires k == 63
    ensures Shl(2 * x, k) == x * TWO_64
  {
    if x > 0 {
      ShlGroups63(x - 1, k);
      ShlAdd(2 * (x - 1), 2, k);
      ShlAdd(1, 1, k);
      ShlWords();
    } else {
      ShlAdd(0, 0, k);
    }
  }

  /** One round of the 64-bit loop. */
  lemma {:induction false} Varint64Round(s: seq<Byte>, bitpos: nat, acc: nat)
    requires s != [] && bitpos <= 56 && acc < Shl(1, bitpos)
    ensures var acc' := acc + Shl(Group(s[0]), bitpos);
            && acc' < Shl(1, bitpos + 7) <= TWO_63
            && Varint64Loop(s, bitpos, acc)
               == if s[0] < 128 then Ok(acc', s[1..]) else Varint64Loop(s[1..], bitpos + 7, acc')
  {
    OrGroup64(acc, Group(s[0]), bitpos);
  }

  /** The tenth byte ends the loop. */
  lemma {:induction false} Varint64Tenth(s: seq<Byte>, bitpos: nat, acc: nat)
    requires s != [] && s[0] < 128 && bitpos == 63 && acc < Shl(1, bitpos)
    ensures Varint64Loop(s, bitpos, acc) == Ok(U64(acc + Shl(Group(s[0]), bitpos)), s[1..])
  {
    hide BitOr, Shl;
    OrGroup63(acc, Group(s[0]), bitpos);
  }

  lemma {:induction false} GroupValueSplit(v: seq<Byte>, bitpos: nat)
    requires IsVarint(v)
    ensures |v| == 1 ==> Shl(GroupValue(v), bitpos) == Shl(Group(v[0]), bitpos)
    ensures |v| > 1 ==> IsVarint(v[1..]) && v[0] >= 128
    ensures Shl(GroupValue(v), bitpos) == Shl(Group(v[0]), bitpos) + Shl(GroupValue(v[1..]), bitpos + 7)
  {
    ShlGroups(Group(v[0]), GroupValue(v[1..]), bitpos);
    if |v| == 1 { assert v[1..] == []; }
  }

  /** The 64-bit decoder computes the group value modulo 2^64 of any varint of at most ten bytes. */
  lemma {:induction false} Varint64LoopValue(v: seq<Byte>, t: seq<Byte>, i: nat, bitpos: nat, acc: nat)
    requires IsVarint(v) && bitpos == 7 * i && i + |v| <= 10
    requires acc < Shl(1, bitpos)
    ensures Varint64Loop(v + t, bitpos, acc) == Ok(U64(acc + Shl(GroupValue(v), bitpos)), t)
    decreases |v|
  {
    hide BitOr, Shl;
    var s := v + t;
    assert s[0] == v[0] && s[1..] == v[1..] + t;
    GroupValueSplit(v, bitpos);
    if i == 9 {
      Varint64Tenth(s, bitpos, acc);
    } else {
      Varint64Round(s, bitpos, acc);
      var acc' := acc + Shl(Group(v[0]), bitpos);
      if |v| == 1 {
        SmallMod(acc', 0x1_0000_0000_0000_0000);
      } else {
        Varint64LoopValue(v[1..], t, i + 1, bitpos + 7, acc');
      }
    }
  }

  /** pb_decode_varint on any varint of at most ten bytes followed by anything. */
  lemma {:induction false} Varint64Value(v: seq<Byte>, t: seq<Byte>)
    requires IsVarint(v) && |v| <= 10
    ensures Varint64(v + t) == Ok(U64(GroupValue(v)), t)
  {
    Varint64LoopValue(v, t, 0, 0, 0);
  }

  lemma {:induction false} VarintAtMostTen(n: nat)
    requires n < TWO_64
    ensures |EncVarint(n)| <= 10
  {
    ShlWords();
    ShlGrows(1, 64, 70);
    EncVarintLength(n, 10);
  }

  /** pb_encode_varint is undone by pb_decode_varint over all of uint64, in at most ten bytes. */
  lemma {:induction false} VarintRoundTrip(n: nat, t: seq<Byte>)
    requires n < TWO_64
    ensures |EncVarint(n)| <= 10
    ensures Varint64(EncVarint(n) + t) == Ok(n, t)
  {
    VarintAtMostTen(n);
    EncVarintValue(n);
    Varint64Value(EncVarint(n), t);
    SmallMod(n, TWO_64);
  }

  // ---------------------------------------------------------------- 32-bit varints

  /** One round of the 32-bit loop over the first four groups. */
  lemma {:induction false} Varint32Round(s: seq<Byte>, bitpos: nat, acc: nat)
    requires s != [] && bitpos <= 21 && acc < Shl(1, bitpos)
    ensures var acc' := acc + Shl(Group(s[0]), bitpos);
            && acc' < Shl(1, bitpos + 7) <= 0x1000_0000
            && Varint32Loop(s, bitpos, acc)
               == if s[0] < 128 then Ok(acc', s[1..]) else Varint32Loop(s[1..], bitpos + 7, acc')
  {
    var g := Group(s[0]);
    OrGroup(acc, g, bitpos);
    ShlGrows(1, bitpos + 7, 28);
    ShlWords();
    SmallMod(Shl(g, bitpos), 0x1_0000_0000);
  }

  /** Shifted to bit 28, a group splits into its four low bits and a multiple of 2^32. */
  lemma {:induction false} SplitGroup28(g: nat, k: nat)
    requires k == 28 && g < 128
    ensures Shl(g, k) == Shl(g % 16, k) + g / 16 * TWO_32
    ensures 0 <= Shl(g % 16, k) <= TWO_32 - Shl(1, k)
  {
    hide Shl;
    ShlAdd(g % 16, 16 * (g / 16), k);
    ShlSmall(g / 16);
    ShlShl(g / 16, 4, k);
    ShlAbove32(g / 16, k + 4);
    ShlAdd(g % 16, 1, k);
    ShlMono(g % 16 + 1, 16, k);
    ShlSmall(1);
    ShlShl(1, 4, k);
    ShlWords();
  }

  lemma {:induction false} OrGroup28(acc: nat, g: nat, k: nat)
    requires k == 28 && g < 128 && acc < Shl(1, k)
    ensures BitOr(acc, U32(Shl(g, k))) == acc + Shl(g % 16, k) == U32(acc + Shl(g, k))
    ensures g < 16 ==> U32(acc + Shl(g, k)) == acc + Shl(g, k)
  {
    hide BitOr, Shl;
    SplitGroup28(g, k);
    ModUnique(Shl(g, k), g / 16, Shl(g % 16, k), TWO_32);
    ModUnique(acc + Shl(g, k), g / 16, acc + Shl(g % 16, k), TWO_32);
    BitOrDisjoint(acc, g % 16, k);
  }

  /** A value shifted past the word is a multiple of 2^32. */
  lemma {:induction false} ShlAbove32(x: nat, k: nat)
    requires k >= 32
    ensures k == 32 ==> Shl(x, k) == x * TWO_32
    ensures Shl(x, k) == Shl(x, k - 32) * TWO_32
  {
    if k > 32 {
      ShlAbove32(x, k - 1);
    } else if x > 0 {
      ShlAbove32(x - 1, k);
      ShlAdd(x - 1, 1, k);
      ShlWords();
    } else {
      ShlAdd(0, 0, k);
    }
  }

  lemma {:induction false} U32IgnoresHigh(acc: nat, x: nat, k: nat)
    requires acc < TWO_32 && k >= 32
    ensures U32(acc + Shl(x, k)) == acc
    ensures acc + Shl(x, k) < TWO_32 ==> x == 0
  {
    hide BitOr, Shl;
    ShlAbove32(x, k);
    ModUnique(acc + Shl(x, k), Shl(x, k - 32), acc, TWO_32);
    if x > 0 { MulAtLeast(Shl(x, k - 32), TWO_32); }
  }

  /** Whatever the 32-bit loop accepts is the group value modulo 2^32, and it accepts every group
      value below 2^32. */
  lemma {:induction false} Varint32LoopValue(v: seq<Byte>, t: seq<Byte>, i: nat, bitpos: nat, acc: nat)
    requires IsVarint(v) && 1 <= i && bitpos == 7 * i && i + |v| <= 10
    requires acc < TWO_32 && (i <= 4 ==> acc < Shl(1, bitpos))
    ensures var r := Varint32Loop(v + t, bitpos, acc);
            && (r.Ok? ==> r == Ok(U32(acc + Shl(GroupValue(v), bitpos)), t))
            && (acc + Shl(GroupValue(v), bitpos) < TWO_32 ==> r.Ok?)
    decreases |v|
  {
    hide BitOr, Shl;
    var s := v + t;
    assert s[0] == v[0] && s[1..] == v[1..] + t;
    GroupValueSplit(v, bitpos);
    if i <= 3 {
      Varint32Round(s, bitpos, acc);
      var acc' := acc + Shl(Group(v[0]), bitpos);
      if |v| == 1 {
        SmallMod(acc', 0x1_0000_0000);
      } else {
        Varint32LoopValue(v[1..], t, i + 1, bitpos + 7, acc');
      }
    } else if i == 4 {
      Varint32Fifth(v, t, bitpos, acc);
    } else {
      U32IgnoresHigh(acc, GroupValue(v), bitpos);
      if |v| > 1 {
        Varint32LoopValue(v[1..], t, i + 1, bitpos + 7, acc);
        U32IgnoresHigh(acc, GroupValue(v[1..]), bitpos + 7);
      }
    }
  }

  /** The fifth byte, with whatever follows it. */
  lemma {:induction false} Varint32Fifth(v: seq<Byte>, t: seq<Byte>, bitpos: nat, acc: nat)
    requires IsVarint(v) && bitpos == 28 && |v| <= 6 && acc < Shl(1, bitpos)
    ensures var r := Varint32Loop(v + t, bitpos, acc);
            && (r.Ok? ==> r == Ok(U32(acc + Shl(GroupValue(v), bitpos)), t))
            && (acc + Shl(GroupValue(v), bitpos) < TWO_32 ==> r.Ok?)
    decreases |v|, 0
  {
    hide BitOr, Shl;
    var s, g := v + t, Group(v[0]);
    assert s[0] == v[0] && s[1..] == v[1..] + t;
    GroupValueSplit(v, bitpos);
    OrGroup28(acc, g, bitpos);
    FifthGroup(acc, g, GroupValue(v[1..]), bitpos);
    var acc' := U32(acc + Shl(g, bitpos));
    if |v| > 1 {
      Varint32LoopValue(v[1..], t, 5, bitpos + 7, acc');
      U32IgnoresHigh(acc', GroupValue(v[1..]), bitpos + 7);
    }
  }

  lemma {:induction false} FifthGroup(acc: nat, g: nat, gv: nat, k: nat)
    requires k == 28 && g < 128 && acc < Shl(1, k)
    ensures U32(acc + Shl(g, k) + Shl(gv, k + 7)) == U32(acc + Shl(g, k))
    ensures acc + Shl(g, k) + Shl(gv, k + 7) < TWO_32 ==> g < 16 && gv == 0
  {
    hide BitOr, Shl;
    OrGroup28(acc, g, k);
    var x := acc + Shl(g, k);
    ShlAbove32(gv, k + 7);
    var q := x / TWO_32;
    ModUnique(x + Shl(gv, k + 7), q + Shl(gv, k - 25), x - q * TWO_32, TWO_32);
    if gv > 0 { MulAtLeast(Shl(gv, k - 25), TWO_32); }
    if g >= 16 {
      ShlMono(16, g, k);
      ShlSmall(1);
      ShlShl(1, 4, k);
      ShlWords();
    }
  }

  /** pb_decode_varint32 on any varint of at most ten bytes followed by anything. */
  lemma {:induction false} Varint32Value(v: seq<Byte>, t: seq<Byte>)
    requires IsVarint(v) && |v| <= 10
    ensures Varint32(v + t).Ok? ==> Varint32(v + t) == Ok(U32(GroupValue(v)), t)
    ensures GroupValue(v) < TWO_32 ==> Varint32(v + t).Ok?
  {
    hide Shl, BitOr, U32, Varint32Loop, IsVarint;
    var s := v + t;
    VarintCases(v, t);
    if |v| == 1 {
      SmallU32(v[0]);
    } else {
      ShlSmall(1);
      ShlSmall(GroupValue(v[1..]));
      Varint32LoopValue(v[1..], t, 1, 7, Group(v[0]));
    }
  }

  lemma {:induction false} VarintCases(v: seq<Byte>, t: seq<Byte>)
    requires IsVarint(v)
    ensures v != [] && (v + t)[0] == v[0] && (v + t)[1..] == v[1..] + t
    ensures |v| == 1 ==> GroupValue(v) == v[0] < 128 && (v + t)[1..] == t
    ensures |v| > 1 ==> v[0] >= 128 && IsVarint(v[1..])
    ensures GroupValue(v) == Group(v[0]) + 128 * GroupValue(v[1..])
  {
    if |v| == 1 { assert v[1..] == []; }
  }

  lemma {:induction false} SmallU32(x: nat)
    requires x < TWO_32
    ensures U32(x) == x
  {
  }

  lemma {:induction false} Varint32LoopBound(s: seq<Byte>, bitpos: nat, acc: nat)
    requires acc < TWO_32
    ensures var r := Varint32Loop(s, bitpos, acc); r.Ok? ==> r.v < TWO_32
    decreases |s|
  {
    hide Shl, BitOr, U32;
    if s != [] {
      var x := U32(Shl(Group(s[0]), bitpos));
      ShlWords();
      BitOrBound(acc, x, 32);
      Varint32LoopBound(s[1..], Advance(bitpos), if bitpos >= 32 then acc else BitOr(acc, x));
    }
  }

  /** Whatever it is given, the 32-bit decoder returns a 32-bit number. */
  lemma {:induction false} Varint32Bound(s: seq<Byte>)
    ensures Varint32(s).Ok? ==> Varint32(s).v < TWO_32
  {
    hide Varint32Loop;
    if s != [] { Varint32LoopBound(s[1..], 7, Group(s[0])); }
  }

  /** On every varint of at most ten bytes, whatever pb_decode_varint32 accepts is the result of
      pb_decode_varint modulo 2^32; and it accepts whenever the groups spell a number below 2^32. */
  lemma {:induction false} Varint32AgreesWith64(v: seq<Byte>, t: seq<Byte>)
    requires IsVarint(v) && |v| <= 10
    ensures Varint64(v + t).Ok?
    ensures Varint32(v + t).Ok? ==> Varint32(v + t) == Ok(U32(Varint64(v + t).v), t)
    ensures GroupValue(v) < TWO_32 ==> Varint32(v + t) == Ok(GroupValue(v), t)
  {
    hide *;
    Varint64Value(v, t);
    Varint32Value(v, t);
    U32OfU64(GroupValue(v));
    if GroupValue(v) < TWO_32 { SmallU32(GroupValue(v)); }
  }

  lemma {:induction false} U32OfU64(x: int)
    ensures U32(U64(x)) == U32(x)
  {
    var q, r := x / TWO_64, x % TWO_64;
    var q', r' := r / TWO_32, r % TWO_32;
    ModUnique(x, q * TWO_32 + q', r', TWO_32);
  }

  /** Every 32-bit value round-trips through the encoder and the 32-bit decoder. */
  lemma {:induction false} Varint32RoundTrip(n: nat, t: seq<Byte>)
    requires n < TWO_32
    ensures Varint32(EncVarint(n) + t) == Ok(n, t)
  {
    VarintRoundTrip(n, t);
    EncVarintValue(n);
    Varint32AgreesWith64(EncVarint(n), t);
  }

  // ---------------------------------------------------------------- ZigZag and fixed width

  /** pb_encode_svarint maps 0, -1, 1, -2, ... to 0, 1, 2, 3, ... and is undone by pb_decode_svarint on
      all of int64, including the minimum. */
  lemma {:induction false} ZigZagRoundTrip(n: int)
    requires FitsSigned(8, n)
    ensures ZigZag(n) == if n >= 0 then 2 * n else -2 * n - 1
    ensures ZigZag(n) < TWO_64 && UnZigZag(ZigZag(n)) == n
  {
    assert U64(n) == if n >= 0 then n else n + TWO_64;
    if n >= 0 {
      assert ZigZag(n) == 2 * n;
    } else {
      ModUnique(2 * (n + TWO_64), 1, 2 * n + TWO_64, TWO_64);
      assert ZigZag(n) == -2 * n - 1;
    }
  }

  lemma {:induction false} FixedValue(n: nat, k: nat, shift: nat, acc: nat)
    requires acc < Shl(1, shift) && n < Shl(1, 8 * k)
    ensures OrBytes(EncFixed(n, k), shift, acc) == acc + Shl(n, shift)
    decreases k
  {
    hide Shl, BitOr;
    if k == 0 {
      ShlSmall(1);
      ShlAdd(0, 0, shift);
    } else {
      var b := n % 256;
      BitOrDisjoint(acc, b, shift);
      ShlAdd(b, 1, shift);
      ShlMono(b + 1, 256, shift);
      ShlSmall(1);
      ShlShl(1, 8, shift);
      ShlSmall(Shl(1, 8 * (k - 1)));
      ShlShl(1, 8 * (k - 1), 8);
      FixedValue(n / 256, k - 1, shift + 8, acc + Shl(b, shift));
      ShlAdd(b, 256 * (n / 256), shift);
      ShlSmall(n / 256);
      ShlShl(n / 256, 8, shift);
      assert EncFixed(n, k)[1..] == EncFixed(n / 256, k - 1);
    }
  }

  /** pb_encode_fixed32/64 are undone by pb_decode_fixed32/64. */
  lemma {:induction false} FixedRoundTrip(n: nat, k: nat, t: seq<Byte>)
    requires k == 4 || k == 8
    requires FitsUnsigned(k, n)
    ensures Fixed(EncFixed(n, k) + t, k) == Ok(n, t)
  {
    var e := EncFixed(n, k);
    ShlWords();
    FixedValue(n, k, 0, 0);
    assert (e + t)[..k] == e && (e + t)[k..] == t;
  }

  // ---------------------------------------------------------------- reading a longer stream

  /** The same outcome with `t` left behind the bytes that were unread before. */
  function Then<T>(r: Parsed<T>, t: seq<Byte>): Parsed<T> {
    if r.Ok? then Ok(r.v, r.rest + t) else Err
  }

  /** Number of bytes up to and including the first one without a continuation bit. */
  function VarintLen(s: seq<Byte>): (n: Option<nat>)
    ensures n.Some? ==> 1 <= n.value <= |s|
  {
    if s == [] then None
    else if s[0] < 128 then Some(1)
    else
      var n := VarintLen(s[1..]);
      if n.Some? then Some(n.value + 1) else None
  }

  lemma {:induction false} VarintLenSuffix(s: seq<Byte>, t: seq<Byte>)
    requires VarintLen(s).Some?
    ensures VarintLen(s + t) == VarintLen(s)
  {
    assert (s + t)[0] == s[0] && (s + t)[1..] == s[1..] + t;
    if s[0] >= 128 { VarintLenSuffix(s[1..], t); }
  }

  /** What follows a complete varint, or a varint that was read with success, does not matter. */
  lemma {:induction false} Varint64LoopSuffix(s: seq<Byte>, t: seq<Byte>, bitpos: nat, acc: nat)
    requires Varint64Loop(s, bitpos, acc).Ok? || VarintLen(s).Some?
    ensures Varint64Loop(s + t, bitpos, acc) == Then(Varint64Loop(s, bitpos, acc), t)
    decreases |s|
  {
    hide Shl, BitOr;
    if bitpos < 64 {
      assert (s + t)[0] == s[0] && (s + t)[1..] == s[1..] + t;
      if s[0] >= 128 {
        assert VarintLen(s).Some? ==> VarintLen(s[1..]).Some?;
        Varint64LoopSuffix(s[1..], t, bitpos + 7, BitOr(acc, U64(Shl(Group(s[0]), bitpos))));
      }
    }
  }

  lemma {:induction false} Varint64Suffix(s: seq<Byte>, t: seq<Byte>)
    requires Varint64(s).Ok? || VarintLen(s).Some?
    ensures Varint64(s + t) == Then(Varint64(s), t)
  {
    Varint64LoopSuffix(s, t, 0, 0);
  }

  lemma {:induction false} Varint32LoopSuffix(s: seq<Byte>, t: seq<Byte>, bitpos: nat, acc: nat)
    requires Varint32Loop(s, bitpos, acc).Ok? || VarintLen(s).Some?
    ensures Varint32Loop(s + t, bitpos, acc) == Then(Varint32Loop(s, bitpos, acc), t)
    decreases |s|
  {
    hide Shl, BitOr;
    assert (s + t)[0] == s[0] && (s + t)[1..] == s[1..] + t;
    if s[0] >= 128 {
      if bitpos >= 32 {
        if Group(s[0]) == 0 || (acc >= TWO_31 && s[0] == SignExtension(bitpos)) {
          Varint32LoopSuffix(s[1..], t, Advance(bitpos), acc);
        }
      } else {
        Varint32LoopSuffix(s[1..], t, Advance(bitpos), BitOr(acc, U32(Shl(Group(s[0]), bitpos))));
      }
    }
  }

  lemma {:induction false} Varint32Suffix(s: seq<Byte>, t: seq<Byte>)
    requires Varint32(s).Ok? || VarintLen(s).Some?
    ensures Varint32(s + t) == Then(Varint32(s), t)
  {
    hide Shl, BitOr, U32, Varint32Loop;
    assert (s + t)[0] == s[0] && (s + t)[1..] == s[1..] + t;
    if s[0] >= 128 { Varint32LoopSuffix(s[1..], t, 7, Group(s[0])); }
  }

  lemma {:induction false} FixedSuffix(s: seq<Byte>, k: nat, t: seq<Byte>)
    requires |s| >= k
    ensures Fixed(s + t, k) == Then(Fixed(s, k), t)
  {
    assert (s + t)[..k] == s[..k] && (s + t)[k..] == s[k..] + t;
  }

  /** A decoder that succeeds has read exactly one varint. */
  lemma {:induction false} Varint64LoopConsumes(s: seq<Byte>, bitpos: nat, acc: nat)
    requires Varint64Loop(s, bitpos, acc).Ok?
    ensures VarintLen(s).Some? && Varint64Loop(s, bitpos, acc).rest == s[VarintLen(s).value..]
    decreases |s|
  {
    hide Shl, BitOr;
    if s[0] >= 128 {
      Varint64LoopConsumes(s[1..], bitpos + 7, BitOr(acc, U64(Shl(Group(s[0]), bitpos))));
    }
  }

  lemma {:induction false} Varint64Consumes(s: seq<Byte>)
    requires Varint64(s).Ok?
    ensures VarintLen(s).Some? && Varint64(s).rest == s[VarintLen(s).value..]
  {
    Varint64LoopConsumes(s, 0, 0);
  }

  lemma {:induction false} Varint32LoopConsumes(s: seq<Byte>, bitpos: nat, acc: nat)
    requires Varint32Loop(s, bitpos, acc).Ok?
    ensures VarintLen(s).Some? && Varint32Loop(s, bitpos, acc).rest == s[VarintLen(s).value..]
    decreases |s|
  {
    hide Shl, BitOr;
    if s[0] >= 128 {
      Varint32LoopConsumes(s[1..], Advance(bitpos),
                           if bitpos >= 32 then acc else BitOr(acc, U32(Shl(Group(s[0]), bitpos))));
    }
  }

  lemma {:induction false} Varint32Consumes(s: seq<Byte>)
    requires Varint32(s).Ok?
    ensures VarintLen(s).Some? && Varint32(s).rest == s[VarintLen(s).value..]
  {
    hide Varint32Loop;
    if s[0] >= 128 { Varint32LoopConsumes(s[1..], 7, Group(s[0])); }
  }
}
