/** The word-packed record of required fields (`fields_seen`) and its final check. */
module Bitmap {
  import opened Bits

  function Shr(x: nat, k: nat): nat {
    if k == 0 then x else Shr(x / 2, k - 1)
  }

  /** Bit `j` of `w`. */
  predicate Bit(w: nat, j: nat) {
    if j == 0 then w % 2 == 1 else Bit(w / 2, j - 1)
  }

  lemma {:induction false} BitOfOr(a: nat, b: nat, j: nat)
    ensures Bit(BitOr(a, b), j) <==> Bit(a, j) || Bit(b, j)
    decreases j
  {
    if a == 0 {
      BitOfZero(j);
    } else if b == 0 {
      BitOfZero(j);
    } else if j > 0 {
      BitOfOr(a / 2, b / 2, j - 1);
    }
  }

  lemma {:induction false} BitOfZero(j: nat)
    ensures !Bit(0, j)
  {
    if j > 0 { BitOfZero(j - 1); }
  }

  lemma {:induction false} BitOfShl(i: nat, j: nat)
    ensures Bit(Shl(1, i), j) <==> i == j
    decreases j
  {
    if i == 0 {
      if j > 0 { BitOfZero(j - 1); }
    } else if j > 0 {
      BitOfShl(i - 1, j - 1);
    }
  }

  /** The bits below `n` are set and the others are not. */
  ghost predicate Ones(w: nat, n: nat) {
    forall j: nat :: Bit(w, j) <==> j < n
  }

  lemma {:induction false} AllOnes(w: nat, n: nat)
    ensures w == Shl(1, n) - 1 <==> Ones(w, n)
  {
    if w == Shl(1, n) - 1 {
      forall j: nat ensures Bit(w, j) <==> j < n { OnesBits(w, n, j); }
    } else if Ones(w, n) {
      OnesOnly(w, n);
    }
  }

  lemma {:induction false} OnesBits(w: nat, n: nat, j: nat)
    requires w == Shl(1, n) - 1
    ensures Bit(w, j) <==> j < n
    decreases n
  {
    if n == 0 {
      BitOfZero(j);
    } else if j > 0 {
      OnesBits(w / 2, n - 1, j - 1);
    }
  }

  lemma {:induction false} OnesOnly(w: nat, n: nat)
    requires Ones(w, n)
    ensures w == Shl(1, n) - 1
    decreases w
  {
    assert Bit(w, 0) <==> 0 < n;
    if w > 0 && n == 0 {
      var j := TopBit(w);
    } else if w > 0 {
      forall j: nat ensures Bit(w / 2, j) <==> j < n - 1 {
        assert Bit(w, j + 1) <==> j + 1 < n;
      }
      OnesOnly(w / 2, n - 1);
    }
  }

  lemma {:induction false} TopBit(w: nat) returns (j: nat)
    requires w > 0
    ensures Bit(w, j)
  {
    if w == 1 { j := 0; } else { j := TopBit(w / 2); j := j + 1; }
  }

  /** `allbits >> k`. */
  lemma {:induction false} ShrOnes(n: nat, k: nat)
    requires k <= n
    ensures Shr(Shl(1, n) - 1, k) == Shl(1, n - k) - 1
  {
    if k > 0 { ShrOnes(n - 1, k - 1); }
  }

  const ALL_BITS: nat := 0xFFFF_FFFF

  /** Whether required field number `i` is recorded in the two words. */
  predicate Marked(words: seq<nat>, i: nat)
    requires |words| == 2 && i < 64
  {
    Bit(words[i / 32], i % 32)
  }

  /** Nothing is recorded at or above `count`, nor past the width of a word. */
  ghost predicate OnlyBelow(words: seq<nat>, count: nat)
    requires |words| == 2
  {
    && (forall i :: count <= i < 64 ==> !Marked(words, i))
    && (forall w, j: nat | 0 <= w < 2 && j >= 32 :: !Bit(words[w], j))
  }

  /** fields_seen[index >> 5] |= 1 << (index & 31) */
  method Mark(words: array<nat>, index: nat)
    requires words.Length == 2 && index < 64
    modifies words
    ensures forall i :: 0 <= i < 64 ==> (Marked(words[..], i) <==> i == index || Marked(old(words[..]), i))
    ensures forall count :: index < count && OnlyBelow(old(words[..]), count) ==> OnlyBelow(words[..], count)
  {
    ghost var before := words[..];
    var w, j := index / 32, index % 32;
    words[w] := BitOr(words[w], Shl(1, j));
    MarkedAfter(before, words[..], index);
  }

  lemma {:induction false} MarkedAfter(before: seq<nat>, after: seq<nat>, index: nat)
    requires |before| == 2 && index < 64
    requires after == before[index / 32 := BitOr(before[index / 32], Shl(1, index % 32))]
    ensures forall i :: 0 <= i < 64 ==> (Marked(after, i) <==> i == index || Marked(before, i))
    ensures forall count :: index < count && OnlyBelow(before, count) ==> OnlyBelow(after, count)
  {
    var w, b := index / 32, index % 32;
    forall v, j: nat | 0 <= v < 2
      ensures Bit(after[v], j) <==> Bit(before[v], j) || (v == w && j == b)
    {
      BitOfOr(before[w], Shl(1, b), j);
      BitOfShl(b, j);
    }
    forall i | 0 <= i < 64 ensures Marked(after, i) <==> i == index || Marked(before, i) {
      assert i == i / 32 * 32 + i % 32;
    }
  }

  /** The final check of pb_decode_noinit for `count` tracked required fields: whole words against all
      bits, then the remaining bits of the next word. It passes exactly when all are recorded. */
  method CheckAll(words: array<nat>, count: nat) returns (ok: bool)
    requires words.Length == 2 && count <= 64 && OnlyBelow(words[..], count)
    ensures ok <==> forall i :: 0 <= i < count ==> Marked(words[..], i)
  {
    if count > 0 {
      for i := 0 to count / 32
        invariant forall j :: 0 <= j < 32 * i ==> Marked(words[..], j)
      {
        WholeWord(words[..], i, count);
        if words[i] != ALL_BITS { return false; }
      }
      if count % 32 != 0 {
        LastWord(words[..], count);
        if words[count / 32] != Shr(ALL_BITS, 32 - count % 32) { return false; }
      }
    }
    return true;
  }

  lemma {:induction false} WholeWord(words: seq<nat>, w: nat, count: nat)
    requires |words| == 2 && w < count / 32 && count <= 64 && OnlyBelow(words, count)
    ensures words[w] == ALL_BITS <==> forall i :: 32 * w <= i < 32 * w + 32 ==> Marked(words, i)
  {
    ShlWords();
    AllOnes(words[w], 32);
    if forall i :: 32 * w <= i < 32 * w + 32 ==> Marked(words, i) {
      forall j: nat ensures Bit(words[w], j) <==> j < 32 {
        if j < 32 { MarkedBit(words, w, j); }
      }
      assert Ones(words[w], 32);
    }
    if words[w] == ALL_BITS {
      forall i | 32 * w <= i < 32 * w + 32 ensures Marked(words, i) { MarkedBit(words, w, i - 32 * w); }
    }
  }

  lemma {:induction false} LastWord(words: seq<nat>, count: nat)
    requires |words| == 2 && count < 64 && count % 32 != 0 && OnlyBelow(words, count)
    ensures words[count / 32] == Shr(ALL_BITS, 32 - count % 32)
            <==> forall i :: count / 32 * 32 <= i < count ==> Marked(words, i)
  {
    var w, r := count / 32, count % 32;
    ShlWords();
    ShrOnes(32, 32 - r);
    AllOnes(words[w], r);
    if forall i :: w * 32 <= i < count ==> Marked(words, i) {
      forall j: nat ensures Bit(words[w], j) <==> j < r {
        if j < 32 { MarkedBit(words, w, j); }
      }
      assert Ones(words[w], r);
    }
    if words[w] == Shl(1, r) - 1 {
      forall i | w * 32 <= i < count ensures Marked(words, i) { MarkedBit(words, w, i - w * 32); }
    }
  }

  lemma {:induction false} MarkedBit(words: seq<nat>, w: nat, j: nat)
    requires |words| == 2 && w < 2 && j < 32
    ensures Marked(words, 32 * w + j) <==> Bit(words[w], j)
  {
    assert (32 * w + j) / 32 == w && (32 * w + j) % 32 == j;
  }
}
