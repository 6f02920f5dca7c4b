/**
 * The software bit reversal. The loop stops at the highest set bit and makes up the missing shifts at the end;
 * until then the working word still carries unreversed high bits of the input.
 */
module BitReverse {

  function Right(v: bv32, k: bv8): bv32
    requires k <= 32
  {
    v >> k
  }

  function Left(v: bv32, k: bv8): bv32
    requires k <= 32
  {
    v << k
  }

  /** Bit i of a word. */
  predicate Bit(v: bv32, i: bv8)
    requires i <= 31
  {
    Right(v, i) & 1 == 1
  }

  /** Bit j of v alone, at its mirror position. */
  function MirrorBit(v: bv32, j: bv8): bv32
    requires j <= 31
  {
    Left(Right(v, j) & 1, 31 - j)
  }

  function Or(x: bv32, y: bv32): bv32
  {
    x | y
  }

  /** Bits 0..j of v, each moved to its mirror position. */
  function Mirrored(v: bv32, j: bv8): bv32
    requires j <= 31
    decreases j
  {
    if j == 0 then MirrorBit(v, 0) else Or(Mirrored(v, j - 1), MirrorBit(v, j))
  }

  function Mirror(v: bv32): bv32
  {
    Mirrored(v, 31)
  }

  // ---------------------------------------------------------------- bits of the mirror image

  lemma BitOfMirrorBit(v: bv32, j: bv8, i: bv8)
    requires i <= 31 && j <= 31
    ensures Bit(MirrorBit(v, j), 31 - i) <==> i == j && Bit(v, i)
  {
  }

  lemma BitOfOr(x: bv32, y: bv32, i: bv8)
    requires i <= 31
    ensures Bit(Or(x, y), i) <==> Bit(x, i) || Bit(y, i)
  {
  }

  /** Bit i of the input is bit 31 - i of the mirror image, for the bits covered so far, and all others are clear. */
  lemma {:induction false} MirroredBit(v: bv32, j: bv8, i: bv8)
    requires i <= 31 && j <= 31
    ensures Bit(Mirrored(v, j), 31 - i) <==> i <= j && Bit(v, i)
    decreases j
  {
    hide Bit, MirrorBit, Or;
    BitOfMirrorBit(v, j, i);
    if j > 0 {
      MirroredBit(v, j - 1, i);
      BitOfOr(Mirrored(v, j - 1), MirrorBit(v, j), 31 - i);
    }
  }

  lemma MirrorBits(v: bv32)
    ensures forall i: bv8 :: i <= 31 ==> (Bit(Mirror(v), 31 - i) <==> Bit(v, i))
  {
    hide Bit, Mirrored;
    forall i: bv8 | i <= 31
      ensures Bit(Mirror(v), 31 - i) <==> Bit(v, i)
    {
      MirroredBit(v, 31, i);
    }
  }

  /** Words with the same bits are equal. */
  lemma Extensional(x: bv32, y: bv32)
    requires forall i: bv8 :: i <= 31 ==> (Bit(x, i) <==> Bit(y, i))
    ensures x == y
  {
    AgreeBelow(x, y, 32);
    AgreeEverywhere(x, y);
  }

  lemma AgreeEverywhere(x: bv32, y: bv32)
    requires Left(x, 32 - 32) == Left(y, 32 - 32)
    ensures x == y
  {
  }

  /** Agreement on the k low bits, with the others shifted out. */
  lemma {:induction false} AgreeBelow(x: bv32, y: bv32, k: bv8)
    requires k <= 32 && forall i: bv8 :: i <= 31 ==> (Bit(x, i) <==> Bit(y, i))
    ensures Left(x, 32 - k) == Left(y, 32 - k)
    decreases k
  {
    if k == 0 {
      AgreeNowhere(x, y);
    } else {
      AgreeBelow(x, y, k - 1);
      hide Bit, Left;
      AgreeStep(x, y, k);
    }
  }

  lemma AgreeNowhere(x: bv32, y: bv32)
    ensures Left(x, 32 - 0) == Left(y, 32 - 0)
  {
  }

  lemma AgreeStep(x: bv32, y: bv32, k: bv8)
    requires 1 <= k <= 32 && Left(x, 32 - (k - 1)) == Left(y, 32 - (k - 1)) && (Bit(x, k - 1) <==> Bit(y, k - 1))
    ensures Left(x, 32 - k) == Left(y, 32 - k)
  {
  }

  /** Reversing twice is the identity. */
  lemma MirrorTwice(v: bv32)
    ensures Mirror(Mirror(v)) == v
  {
    hide Bit, Mirrored;
    forall i: bv8 | i <= 31
      ensures Bit(Mirror(Mirror(v)), i) <==> Bit(v, i)
    {
      MirroredBit(Mirror(v), 31, 31 - i);
      MirroredBit(v, 31, i);
      assert 31 - (31 - i) == i;
    }
    Extensional(Mirror(Mirror(v)), v);
  }

  /** Bit by bit: bit i moves to position 31 - i. */
  lemma MirrorMovesBits(v: bv32, i: bv8)
    requires i <= 31
    ensures (Mirror(v) >> (31 - i)) & 1 == (v >> i) & 1
  {
    hide Mirrored;
    MirroredBit(v, 31, i);
    OneBit(Mirror(v), 31 - i);
    OneBit(v, i);
    hide Bit, Right;
  }

  lemma OneBit(v: bv32, i: bv8)
    requires i <= 31
    ensures (v >> i) & 1 == if Bit(v, i) then 1 else 0
  {
  }

  // ---------------------------------------------------------------- the loop

  /** Once no higher bit is set, covering the rest changes nothing. */
  lemma {:induction false} RestIsClear(v: bv32, j: bv8, k: bv8)
    requires j <= k <= 31 && Right(v, j + 1) == 0
    ensures Mirrored(v, k) == Mirrored(v, j)
    decreases k
  {
    hide Right, MirrorBit, Or;
    if j < k {
      RestIsClear(v, j, k - 1);
      ClearTop(v, j, k, Mirrored(v, k - 1));
    }
  }

  lemma ClearTop(v: bv32, j: bv8, k: bv8, m: bv32)
    requires j < k <= 31 && Right(v, j + 1) == 0
    ensures Or(m, MirrorBit(v, k)) == m
  {
  }

  /** One pass of the loop covers one more bit. */
  lemma LoopStep(input: bv32, result: bv32, j: bv8)
    requires j < 31 && Left(result, 31 - j) == Mirrored(input, j)
    ensures Left((result << 1) | (Right(input, j + 1) & 1), 31 - (j + 1)) == Mirrored(input, j + 1)
    ensures Right(input, j + 1) >> 1 == Right(input, (j + 1) + 1)
  {
    ShiftIn(input, result, j);
    ShiftTwice(input, j);
    hide Left, Right, MirrorBit, Or;
    assert (j + 1) - 1 == j;
  }

  lemma ShiftIn(input: bv32, result: bv32, j: bv8)
    requires j < 31
    ensures Left((result << 1) | (Right(input, j + 1) & 1), 31 - (j + 1))
         == Or(Left(result, 31 - j), MirrorBit(input, j + 1))
  {
  }

  lemma ShiftTwice(v: bv32, j: bv8)
    requires j < 31
    ensures Right(v, j + 1) >> 1 == Right(v, (j + 1) + 1)
  {
  }

  lemma SomeBitLeft(v: bv32, j: bv8)
    requires j <= 31 && Right(v, j + 1) != 0
    ensures j < 31
  {
  }

  lemma FirstShift(v: bv32)
    ensures v >> 1 == Right(v, 0 + 1) && Left(v, 31 - 0) == Mirrored(v, 0)
  {
  }

  method Rbit(input: bv32) returns (result: bv32)
    ensures result == Mirror(input)
    ensures forall i: bv8 :: i <= 31 ==> (Bit(result, 31 - i) <==> Bit(input, i))
  {
    hide Bit, Mirrored, Right, Left;
    var s: bv8 := 31;
    ghost var j: bv8 := 0;
    var value := input;
    result := value;
    FirstShift(input);
    value := value >> 1;
    while value != 0
      invariant j <= 31 && s == 31 - j
      invariant value == Right(input, j + 1)
      invariant Left(result, 31 - j) == Mirrored(input, j)
      decreases s
    {
      SomeBitLeft(input, j);
      LoopStep(input, result, j);
      result := result << 1;
      result := result | (value & 1);
      s := s - 1;
      value := value >> 1;
      j := j + 1;
    }
    MirrorBits(input);
    RestIsClear(input, j, 31);
    assert Left(result, s) == Mirror(input);
    UnfoldLeft(result, s);
    result := result << s;
  }

  lemma UnfoldLeft(v: bv32, k: bv8)
    requires k <= 32
    ensures Left(v, k) == v << k
  {
  }
}
