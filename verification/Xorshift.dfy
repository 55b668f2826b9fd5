/** A xorshift generator: its steps are invertible, so every number but zero is the next draw of some seed.
    `src/playlist/cursor.rs`. */
module Xorshift {

  const DEFAULT_SEED: bv64 := 0xdead_beef_cafe_babe

  // Words are shifted and combined by functions of their own, which keeps the bit-level facts apart.

  function Xor(x: bv64, y: bv64): bv64 { x ^ y }

  function Shl13(x: bv64): bv64 { x << 13 }
  function Shl17(x: bv64): bv64 { x << 17 }
  function Shl26(x: bv64): bv64 { x << 26 }
  function Shl34(x: bv64): bv64 { x << 34 }
  function Shl52(x: bv64): bv64 { x << 52 }
  function Shr7(x: bv64): bv64 { x >> 7 }
  function Shr14(x: bv64): bv64 { x >> 14 }
  function Shr28(x: bv64): bv64 { x >> 28 }
  function Shr56(x: bv64): bv64 { x >> 56 }

  function Left13(x: bv64): bv64 { Xor(x, Shl13(x)) }
  function Left17(x: bv64): bv64 { Xor(x, Shl17(x)) }
  function Left26(x: bv64): bv64 { Xor(x, Shl26(x)) }
  function Left34(x: bv64): bv64 { Xor(x, Shl34(x)) }
  function Left52(x: bv64): bv64 { Xor(x, Shl52(x)) }
  function Right7(x: bv64): bv64 { Xor(x, Shr7(x)) }
  function Right14(x: bv64): bv64 { Xor(x, Shr14(x)) }
  function Right28(x: bv64): bv64 { Xor(x, Shr28(x)) }
  function Right56(x: bv64): bv64 { Xor(x, Shr56(x)) }

  function RngNext(rng: bv64): bv64 {
    Left17(Right7(Left13(if rng == 0 then DEFAULT_SEED else rng)))
  }

  lemma StepsKeepNonZero(x: bv64)
    ensures x != 0 ==> Left13(x) != 0 && Right7(x) != 0 && Left17(x) != 0
  {
  }

  /** The generator never gets stuck at zero. */
  lemma RngNeverZero(rng: bv64)
    ensures RngNext(rng) != 0
  {
    hide Left13, Right7, Left17;
    var x := if rng == 0 then DEFAULT_SEED else rng;
    StepsKeepNonZero(x);
    StepsKeepNonZero(Left13(x));
    StepsKeepNonZero(Right7(Left13(x)));
  }

  function Draw(rng: bv64, n: nat): (r: nat)
    requires n > 0
    ensures r < n
  {
    RngNext(rng) as int % n
  }

  // ---------------------------------------------------------------
  // The steps undone: twice the step by s is the step by 2s, and far enough nothing is left

  lemma Cancel(x: bv64, y: bv64, z: bv64)
    ensures Xor(Xor(x, y), Xor(y, z)) == Xor(x, z) && Xor(x, 0) == x
  {
  }

  lemma Shl13OfXor(x: bv64, y: bv64)
    ensures Shl13(Xor(x, y)) == Xor(Shl13(x), Shl13(y)) && Shl13(Shl13(x)) == Shl26(x)
  {
  }

  lemma Left13Twice(x: bv64)
    ensures Left13(Left13(x)) == Left26(x)
  {
    hide Xor, Shl13, Shl26;
    Shl13OfXor(x, Shl13(x));
    Cancel(x, Shl13(x), Shl13(Shl13(x)));
  }

  lemma Shl17OfXor(x: bv64, y: bv64)
    ensures Shl17(Xor(x, y)) == Xor(Shl17(x), Shl17(y)) && Shl17(Shl17(x)) == Shl34(x)
  {
  }

  lemma Left17Twice(x: bv64)
    ensures Left17(Left17(x)) == Left34(x)
  {
    hide Xor, Shl17, Shl34;
    Shl17OfXor(x, Shl17(x));
    Cancel(x, Shl17(x), Shl17(Shl17(x)));
  }

  lemma Shl26OfXor(x: bv64, y: bv64)
    ensures Shl26(Xor(x, y)) == Xor(Shl26(x), Shl26(y)) && Shl26(Shl26(x)) == Shl52(x)
  {
  }

  lemma Left26Twice(x: bv64)
    ensures Left26(Left26(x)) == Left52(x)
  {
    hide Xor, Shl26, Shl52;
    Shl26OfXor(x, Shl26(x));
    Cancel(x, Shl26(x), Shl26(Shl26(x)));
  }

  lemma Shl34OfXor(x: bv64, y: bv64)
    ensures Shl34(Xor(x, y)) == Xor(Shl34(x), Shl34(y)) && Shl34(Shl34(x)) == 0
  {
  }

  lemma Left34Twice(x: bv64)
    ensures Left34(Left34(x)) == x
  {
    hide Xor, Shl34;
    Shl34OfXor(x, Shl34(x));
    Cancel(x, Shl34(x), Shl34(Shl34(x)));
  }

  lemma Shl52OfXor(x: bv64, y: bv64)
    ensures Shl52(Xor(x, y)) == Xor(Shl52(x), Shl52(y)) && Shl52(Shl52(x)) == 0
  {
  }

  lemma Left52Twice(x: bv64)
    ensures Left52(Left52(x)) == x
  {
    hide Xor, Shl52;
    Shl52OfXor(x, Shl52(x));
    Cancel(x, Shl52(x), Shl52(Shl52(x)));
  }

  lemma Shr7OfXor(x: bv64, y: bv64)
    ensures Shr7(Xor(x, y)) == Xor(Shr7(x), Shr7(y)) && Shr7(Shr7(x)) == Shr14(x)
  {
  }

  lemma Right7Twice(x: bv64)
    ensures Right7(Right7(x)) == Right14(x)
  {
    hide Xor, Shr7, Shr14;
    Shr7OfXor(x, Shr7(x));
    Cancel(x, Shr7(x), Shr7(Shr7(x)));
  }

  lemma Shr14OfXor(x: bv64, y: bv64)
    ensures Shr14(Xor(x, y)) == Xor(Shr14(x), Shr14(y)) && Shr14(Shr14(x)) == Shr28(x)
  {
  }

  lemma Right14Twice(x: bv64)
    ensures Right14(Right14(x)) == Right28(x)
  {
    hide Xor, Shr14, Shr28;
    Shr14OfXor(x, Shr14(x));
    Cancel(x, Shr14(x), Shr14(Shr14(x)));
  }

  lemma Shr28OfXor(x: bv64, y: bv64)
    ensures Shr28(Xor(x, y)) == Xor(Shr28(x), Shr28(y)) && Shr28(Shr28(x)) == Shr56(x)
  {
  }

  lemma Right28Twice(x: bv64)
    ensures Right28(Right28(x)) == Right56(x)
  {
    hide Xor, Shr28, Shr56;
    Shr28OfXor(x, Shr28(x));
    Cancel(x, Shr28(x), Shr28(Shr28(x)));
  }

  lemma Shr56OfXor(x: bv64, y: bv64)
    ensures Shr56(Xor(x, y)) == Xor(Shr56(x), Shr56(y)) && Shr56(Shr56(x)) == 0
  {
  }

  lemma Right56Twice(x: bv64)
    ensures Right56(Right56(x)) == x
  {
    hide Xor, Shr56;
    Shr56OfXor(x, Shr56(x));
    Cancel(x, Shr56(x), Shr56(Shr56(x)));
  }

  function Undo13(x: bv64): bv64 { Left13(Left26(Left52(x))) }
  function Undo7(x: bv64): bv64 { Right7(Right14(Right28(Right56(x)))) }
  function Undo17(x: bv64): bv64 { Left17(Left34(x)) }

  lemma StepsUndo(x: bv64)
    ensures Left13(Undo13(x)) == x && Right7(Undo7(x)) == x && Left17(Undo17(x)) == x
  {
    hide Left13, Left17, Left26, Left34, Left52, Right7, Right14, Right28, Right56;
    Left13Twice(Left26(Left52(x)));
    Left26Twice(Left52(x));
    Left52Twice(x);
    Left17Twice(Left34(x));
    Left34Twice(x);
    Right7Twice(Right14(Right28(Right56(x))));
    Right14Twice(Right28(Right56(x)));
    Right28Twice(Right56(x));
    Right56Twice(x);
  }

  /** Every number but zero is the next draw of some seed. */
  lemma RngReaches(x: bv64) returns (seed: bv64)
    requires x != 0
    ensures seed != 0 && RngNext(seed) == x
  {
    hide Left13, Right7, Left17, Undo13, Undo7, Undo17;
    seed := Undo13(Undo7(Undo17(x)));
    StepsUndo(x);
    StepsUndo(Undo17(x));
    StepsUndo(Undo7(Undo17(x)));
    ZeroStaysZero();
  }

  lemma ZeroStaysZero()
    ensures Left13(0) == 0 && Right7(0) == 0 && Left17(0) == 0
  {
  }

  /** Every number below 2^64 is the value of some 64 bits. */
  lemma {:induction false} SomeBits(k: nat) returns (x: bv64)
    requires k < 0x1_0000_0000_0000_0000
    ensures x as int == k
  {
    if k == 0 {
      x := 0;
    } else {
      var half := SomeBits(k / 2);
      NextBit(half);
      x := if k % 2 == 0 then half << 1 else (half << 1) | 1;
    }
  }

  lemma NextBit(x: bv64)
    ensures x as int < 0x8000_0000_0000_0000 ==>
      (x << 1) as int == 2 * (x as int) && ((x << 1) | 1) as int == 2 * (x as int) + 1
  {
    assert x as int < 0x8000_0000_0000_0000 ==> x < 0x8000_0000_0000_0000;
  }

  /** Every place is drawn with some seed. */
  lemma EveryPlaceIsDrawn(n: nat, k: nat) returns (seed: bv64)
    requires k < n < 0x1_0000_0000_0000_0000
    ensures seed != 0 && Draw(seed, n) == k
  {
    hide RngNext;
    var x := SomeBits(if k == 0 then n else k);
    seed := RngReaches(x);
    ModWithin(n, k);
  }

  lemma ModWithin(n: nat, k: nat)
    requires k < n
    ensures k % n == k && n % n == 0
  {
  }

  /** The generator at seed 1, and at zero, which stands for the default seed. */
  lemma SeedOne()
    ensures RngNext(0) == RngNext(0xdead_beef_cafe_babe)
    ensures RngNext(1) == 0x4082_2041 && RngNext(0x4082_2041) == 0x1000_4106_0c01_1441
  {
  }
}
