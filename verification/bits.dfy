/** Bit arithmetic of the packed import format: powers of two, the number of
    set bits, and the list of set-bit positions that the importer reads out
    of a mask, together with the mask that a list of positions stands for. */
module Bits {
  import opened Grid

  function Pow2(k: nat): (r: nat)
    ensures r >= 1
  {
    if k == 0 then 1 else 2 * Pow2(k - 1)
  }

  /** Number of set bits of `n` (the count of '1' digits of its binary form). */
  function PopCount(n: nat): nat {
    if n == 0 then 0 else n % 2 + PopCount(n / 2)
  }

  /** The positions of the set bits of `n`, numbering its lowest bit `pos`,
      in ascending order. */
  function SetBitsFrom(n: nat, pos: int): (r: seq<int>)
    ensures |r| == PopCount(n)
    ensures forall t | 0 <= t < |r| :: r[t] >= pos
    ensures n == 0 <==> r == []
  {
    if n == 0 then []
    else (if n % 2 == 1 then [pos] else []) + SetBitsFrom(n / 2, pos + 1)
  }

  /** The positions of the set bits of `n`, the lowest bit being position 1. */
  function SetBits(n: nat): seq<int> {
    SetBitsFrom(n, 1)
  }

  /** Every entry of `s` lies in `lo .. hi - 1`. */
  predicate Within(s: seq<int>, lo: int, hi: int) {
    forall t | 0 <= t < |s| :: lo <= s[t] < hi
  }

  /** The mask a list of positions stands for, position `pos` being the
      lowest bit: the sum of 2^(k - pos) over the entries k. */
  function MaskFrom(s: seq<int>, pos: int): nat
    requires forall t | 0 <= t < |s| :: s[t] >= pos
  {
    if s == [] then 0 else Pow2(s[0] - pos) + MaskFrom(s[1..], pos)
  }

  /** The mask of a list of 1-based positions. */
  function Mask(s: seq<int>): nat
    requires forall t | 0 <= t < |s| :: s[t] >= 1
  {
    MaskFrom(s, 1)
  }

  /** The positions come out strictly ascending. */
  lemma {:induction false} SetBitsAscending(n: nat, pos: int)
    ensures StrictlyAscending(SetBitsFrom(n, pos))
    decreases n
  {
    if n != 0 {
      SetBitsAscending(n / 2, pos + 1);
    }
  }

  /** A mask below 2^w has its set bits among the first `w` positions. */
  lemma {:induction false} SetBitsBound(n: nat, pos: int, w: nat)
    requires n < Pow2(w)
    ensures Within(SetBitsFrom(n, pos), pos, pos + w)
    decreases n
  {
    if n != 0 {
      assert w > 0;
      SetBitsBound(n / 2, pos + 1, w - 1);
    }
  }

  /** Lowering the base position by one doubles the mask. */
  lemma {:induction false} MaskShift(s: seq<int>, pos: int)
    requires forall t | 0 <= t < |s| :: s[t] >= pos + 1
    ensures MaskFrom(s, pos) == 2 * MaskFrom(s, pos + 1)
    decreases |s|
  {
    if s != [] {
      MaskShift(s[1..], pos);
      assert Pow2(s[0] - pos) == 2 * Pow2(s[0] - (pos + 1));
    }
  }

  /** Reading the set bits of `n` and summing their powers gives `n` back. */
  lemma {:induction false} MaskOfSetBits(n: nat, pos: int)
    ensures MaskFrom(SetBitsFrom(n, pos), pos) == n
    decreases n
  {
    if n != 0 {
      var rest := SetBitsFrom(n / 2, pos + 1);
      MaskOfSetBits(n / 2, pos + 1);
      MaskShift(rest, pos);
      if n % 2 == 1 {
        assert SetBitsFrom(n, pos) == [pos] + rest;
        assert ([pos] + rest)[1..] == rest;
      } else {
        assert SetBitsFrom(n, pos) == rest;
      }
    }
  }

  /** The mask of a nonempty list is positive. */
  lemma MaskPositive(s: seq<int>, pos: int)
    requires s != [] && forall t | 0 <= t < |s| :: s[t] >= pos
    ensures MaskFrom(s, pos) > 0
  {
  }

  /** Halving `2h + b` gives `h` with remainder `b`. */
  lemma Halves(n: nat, h: nat, b: nat)
    requires n == 2 * h + b && b < 2
    ensures n % 2 == b && n / 2 == h
  {
  }

  /** A strictly ascending list of positions is read back from its mask. */
  lemma {:induction false} SetBitsOfMask(s: seq<int>, pos: int)
    requires StrictlyAscending(s) && forall t | 0 <= t < |s| :: s[t] >= pos
    ensures SetBitsFrom(MaskFrom(s, pos), pos) == s
    decreases |s|, if s == [] then 0 else s[0] - pos
  {
    if s != [] {
      if s[0] == pos {
        SetBitsOfMask(s[1..], pos + 1);
        LowBitSet(s, pos);
      } else {
        SetBitsOfMask(s, pos + 1);
        LowBitClear(s, pos);
      }
    }
  }

  /** The reading step when the list starts at the low position: the mask is
      odd and its upper bits hold the rest of the list. */
  lemma LowBitSet(s: seq<int>, pos: int)
    requires s != [] && s[0] == pos && forall t | 1 <= t < |s| :: s[t] >= pos + 1
    requires SetBitsFrom(MaskFrom(s[1..], pos + 1), pos + 1) == s[1..]
    ensures SetBitsFrom(MaskFrom(s, pos), pos) == s
  {
    var rest := s[1..];
    var n := MaskFrom(s, pos);
    MaskShift(rest, pos);
    Halves(n, MaskFrom(rest, pos + 1), 1);
    assert s == [pos] + rest;
  }

  /** The reading step when the list starts above the low position: the
      mask is even and positive, and its upper bits hold the whole list. */
  lemma LowBitClear(s: seq<int>, pos: int)
    requires s != [] && forall t | 0 <= t < |s| :: s[t] >= pos + 1
    requires SetBitsFrom(MaskFrom(s, pos + 1), pos + 1) == s
    ensures SetBitsFrom(MaskFrom(s, pos), pos) == s
  {
    var n := MaskFrom(s, pos);
    MaskPositive(s, pos);
    MaskShift(s, pos);
    Halves(n, MaskFrom(s, pos + 1), 0);
  }

  /** A strictly ascending list of positions within `pos .. pos + w - 1`
      has a mask below 2^w. */
  lemma {:induction false} MaskBound(s: seq<int>, pos: int, w: nat)
    requires StrictlyAscending(s) && Within(s, pos, pos + w)
    ensures MaskFrom(s, pos) < Pow2(w)
    decreases w
  {
    if s != [] {
      if s[0] == pos {
        var rest := s[1..];
        assert Within(rest, pos + 1, pos + w);
        MaskShift(rest, pos);
        MaskBound(rest, pos + 1, w - 1);
      } else {
        MaskShift(s, pos);
        MaskBound(s, pos + 1, w - 1);
      }
    }
  }

  /** The loop of the importer's bit reader: it shifts `n` right until it
      is zero, recording the 1-based position of every set bit. */
  method GetSetBits(n: nat) returns (bits: seq<int>)
    ensures StrictlyAscending(bits)
    ensures forall t | 0 <= t < |bits| :: bits[t] >= 1
    ensures Mask(bits) == n
    ensures |bits| == PopCount(n)
    ensures n == 0 ==> bits == []
  {
    bits := [];
    var m := n;
    var position := 1;
    while m > 0
      invariant position >= 1
      invariant bits + SetBitsFrom(m, position) == SetBits(n)
    {
      var head := if m % 2 == 1 then [position] else [];
      ReadLowBit(bits, m, position);
      bits := bits + head;
      m := m / 2;
      position := position + 1;
    }
    assert bits == SetBits(n);
    SetBitsFacts(n);
  }

  /** One step of the bit reader: the lowest bit of `m` moves from the
      positions still to read to the positions read. */
  lemma ReadLowBit(read: seq<int>, m: nat, pos: int)
    requires m > 0
    ensures read + SetBitsFrom(m, pos)
            == (read + (if m % 2 == 1 then [pos] else [])) + SetBitsFrom(m / 2, pos + 1)
  {
    var head := if m % 2 == 1 then [pos] else [];
    assert SetBitsFrom(m, pos) == head + SetBitsFrom(m / 2, pos + 1);
  }

  /** What the bit reader's result is: the ascending 1-based positions of
      the set bits, whose mask is the input. */
  lemma SetBitsFacts(n: nat)
    ensures StrictlyAscending(SetBits(n))
    ensures forall t | 0 <= t < |SetBits(n)| :: SetBits(n)[t] >= 1
    ensures Mask(SetBits(n)) == n
  {
    SetBitsAscending(n, 1);
    MaskOfSetBits(n, 1);
  }

  /** Exactly one bit is set when the mask is a power of two, and the
      position read out is that power's exponent plus one. */
  lemma OneHot(n: nat)
    ensures PopCount(n) == 1 <==> exists k: nat :: n == Pow2(k)
    ensures PopCount(n) == 1 ==> n == Pow2(SetBits(n)[0] - 1)
  {
    if PopCount(n) == 1 {
      SingleBitIsPower(n);
    }
    if k: nat :| n == Pow2(k) {
      OneHotBits(k + 1);
    }
  }

  /** A mask with one set bit is the power of two its position names. */
  lemma SingleBitIsPower(n: nat)
    requires PopCount(n) == 1
    ensures SetBits(n)[0] >= 1 && n == Pow2(SetBits(n)[0] - 1)
  {
    MaskOfSetBits(n, 1);
    var s := SetBits(n);
    assert s == [s[0]];
  }

  /** The mask of the single position `d` reads back as `[d]`. */
  lemma OneHotBits(d: int)
    requires d >= 1
    ensures Mask([d]) == Pow2(d - 1)
    ensures SetBits(Pow2(d - 1)) == [d]
  {
    SetBitsOfMask([d], 1);
  }
}
