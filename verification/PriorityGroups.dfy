/** The split of a priority into a preemption part and a subpriority part, in 32-bit unsigned arithmetic. */
module PriorityGroups {

  function PreemptBits(group: bv32, prioBits: bv32): bv32
  {
    var g := group & 7;
    if 7 - g > prioBits then prioBits else 7 - g
  }

  function SubBits(group: bv32, prioBits: bv32): bv32
  {
    var g := group & 7;
    if g + prioBits < 7 then 0 else (g - 7) + prioBits
  }

  /** The k low bits set. */
  function Mask(k: bv32): bv32
    requires k <= 31
  {
    (1 << k) - 1
  }

  /** The two widths share out the implemented bits, although g - 7 wraps below zero on the way. */
  lemma WidthsPartition(group: bv32, prioBits: bv32)
    requires 1 <= prioBits <= 8
    ensures PreemptBits(group, prioBits) + SubBits(group, prioBits) == prioBits
    ensures PreemptBits(group, prioBits) <= 7 && SubBits(group, prioBits) <= 8
  {
  }

  /** The s low bits of a word. */
  function Lower(word: bv32, s: bv32): bv32
    requires s <= 8
  {
    word & Mask(s)
  }

  /** Two fields side by side, the upper of width p above the lower of width s. */
  function Join(upper: bv32, lower: bv32, p: bv32, s: bv32): bv32
    requires p <= 7 && s <= 8
  {
    (Lower(upper, p) << s) | Lower(lower, s)
  }

  function Upper(word: bv32, p: bv32, s: bv32): bv32
    requires p <= 7 && s <= 8
  {
    Lower(word >> s, p)
  }

  function Encode(group: bv32, preempt: bv32, sub: bv32, prioBits: bv32): bv32
    requires 1 <= prioBits <= 8
  {
    WidthsPartition(group, prioBits);
    Join(preempt, sub, PreemptBits(group, prioBits), SubBits(group, prioBits))
  }

  function DecodePreempt(priority: bv32, group: bv32, prioBits: bv32): bv32
    requires 1 <= prioBits <= 8
  {
    WidthsPartition(group, prioBits);
    Upper(priority, PreemptBits(group, prioBits), SubBits(group, prioBits))
  }

  function DecodeSub(priority: bv32, group: bv32, prioBits: bv32): bv32
    requires 1 <= prioBits <= 8
  {
    WidthsPartition(group, prioBits);
    Lower(priority, SubBits(group, prioBits))
  }

  /** The bits above the binary point of the 8-bit register field that holds a priority. */
  function AbovePoint(x: bv32, group: bv32, prioBits: bv32): bv32
    requires 1 <= prioBits <= 8
  {
    (x << (8 - prioBits)) >> ((group & 7) + 1)
  }

  /** A preemption part moved up over the unimplemented bits above the point. */
  function Padded(part: bv32, group: bv32, prioBits: bv32): bv32
    requires 1 <= prioBits <= 8
  {
    if (group & 7) + prioBits < 7 then part << (7 - (group & 7) - prioBits) else part
  }

  lemma AbovePointIsPadded(x: bv32, group: bv32, prioBits: bv32)
    requires 1 <= prioBits <= 8 && x <= Mask(prioBits)
    ensures AbovePoint(x, group, prioBits) == Padded(DecodePreempt(x, group, prioBits), group, prioBits)
    ensures DecodePreempt(x, group, prioBits) <= 0xFF
  {
  }

  lemma PaddedInjective(part: bv32, part': bv32, group: bv32, prioBits: bv32)
    requires 1 <= prioBits <= 8 && part <= 0xFF && part' <= 0xFF
    ensures Padded(part, group, prioBits) == Padded(part', group, prioBits) ==> part == part'
  {
  }

  /**
   * The group places the binary point in the 8-bit register field: two implemented priorities preempt alike exactly
   * when their fields agree above bit "group".
   */
  lemma BinaryPoint(x: bv32, y: bv32, group: bv32, prioBits: bv32)
    requires 1 <= prioBits <= 8 && x <= Mask(prioBits) && y <= Mask(prioBits)
    ensures DecodePreempt(x, group, prioBits) == DecodePreempt(y, group, prioBits)
            <==> (x << (8 - prioBits)) >> ((group & 7) + 1) == (y << (8 - prioBits)) >> ((group & 7) + 1)
  {
    hide DecodePreempt, Padded, Mask;
    AbovePointIsPadded(x, group, prioBits);
    AbovePointIsPadded(y, group, prioBits);
    PaddedInjective(DecodePreempt(x, group, prioBits), DecodePreempt(y, group, prioBits), group, prioBits);
  }

  /** Decoding an encoded pair returns each part reduced to its width: in-range parts come back unchanged. */
  lemma DecodeEncode(group: bv32, preempt: bv32, sub: bv32, prioBits: bv32)
    requires 1 <= prioBits <= 8
    ensures PreemptBits(group, prioBits) <= 7 && SubBits(group, prioBits) <= 8
    ensures DecodePreempt(Encode(group, preempt, sub, prioBits), group, prioBits)
         == Lower(preempt, PreemptBits(group, prioBits))
    ensures DecodeSub(Encode(group, preempt, sub, prioBits), group, prioBits) == Lower(sub, SubBits(group, prioBits))
  {
  }

  lemma SplitJoin(upper: bv32, lower: bv32, p: bv32, s: bv32)
    requires p <= 7 && s <= 8
    ensures Upper(Join(upper, lower, p, s), p, s) == Lower(upper, p)
    ensures Lower(Join(upper, lower, p, s), s) == Lower(lower, s)
  {
  }

  /** Encoding the decoded parts of an implemented priority returns it. */
  lemma EncodeDecode(group: bv32, priority: bv32, prioBits: bv32)
    requires 1 <= prioBits <= 8 && priority <= Mask(prioBits)
    ensures Encode(group, DecodePreempt(priority, group, prioBits), DecodeSub(priority, group, prioBits), prioBits)
         == priority
  {
    hide PreemptBits, SubBits, Join, Upper, Lower, Mask;
    WidthsPartition(group, prioBits);
    JoinSplit(priority, PreemptBits(group, prioBits), SubBits(group, prioBits), prioBits);
  }

  lemma JoinSplit(word: bv32, p: bv32, s: bv32, n: bv32)
    requires p <= 7 && s <= 8 && n <= 8 && p + s == n && word <= Mask(n)
    ensures Join(Upper(word, p, s), Lower(word, s), p, s) == word
  {
  }

  /** Unsigned comparison: a smaller number is a higher priority. */
  predicate Below(x: bv32, y: bv32)
  {
    x < y
  }

  lemma Trichotomy(x: bv32, y: bv32)
    requires x <= 0xFF && y <= 0xFF
    ensures Below(x, y) || Below(y, x) || x == y
    ensures !(Below(x, y) && Below(y, x)) && !Below(x, x)
  {
  }

  /** Encoded priorities compare as (preemption, subpriority) pairs: lexicographically. */
  lemma EncodedOrderIsLexicographic(group: bv32, preempt: bv32, sub: bv32, preempt': bv32, sub': bv32, prioBits: bv32)
    requires 1 <= prioBits <= 8
    ensures PreemptBits(group, prioBits) <= 7 && SubBits(group, prioBits) <= 8
    ensures
      var p, s := PreemptBits(group, prioBits), SubBits(group, prioBits);
      Below(Encode(group, preempt, sub, prioBits), Encode(group, preempt', sub', prioBits))
      <==> Below(Lower(preempt, p), Lower(preempt', p))
           || (Lower(preempt, p) == Lower(preempt', p) && Below(Lower(sub, s), Lower(sub', s)))
  {
    hide PreemptBits, SubBits, Join, Upper, Lower, Mask, Below;
    WidthsPartition(group, prioBits);
    JoinOrder(preempt, sub, preempt', sub', PreemptBits(group, prioBits), SubBits(group, prioBits), prioBits);
  }

  lemma JoinOrder(upper: bv32, lower: bv32, upper': bv32, lower': bv32, p: bv32, s: bv32, n: bv32)
    requires p <= 7 && s <= 8 && n <= 8 && p + s == n
    ensures Below(Join(upper, lower, p, s), Join(upper', lower', p, s))
            <==> Below(Lower(upper, p), Lower(upper', p))
                 || (Lower(upper, p) == Lower(upper', p) && Below(Lower(lower, s), Lower(lower', s)))
  {
    hide Join, Upper, Lower, Mask, Below;
    var x, y := Join(upper, lower, p, s), Join(upper', lower', p, s);
    SplitJoin(upper, lower, p, s);
    SplitJoin(upper', lower', p, s);
    JoinFits(upper, lower, p, s, n);
    JoinFits(upper', lower', p, s, n);
    UpperDecides(x, y, p, s, n);
    UpperDecides(y, x, p, s, n);
    LowerDecides(x, y, p, s, n);
    LowerFits(upper, p);
    LowerFits(upper', p);
    Trichotomy(x, y);
    Trichotomy(Lower(upper, p), Lower(upper', p));
  }

  lemma LowerFits(word: bv32, s: bv32)
    requires s <= 8
    ensures Lower(word, s) <= 0xFF
  {
  }

  lemma JoinFits(upper: bv32, lower: bv32, p: bv32, s: bv32, n: bv32)
    requires p <= 7 && s <= 8 && n <= 8 && p + s == n
    ensures Join(upper, lower, p, s) <= Mask(n) && Join(upper, lower, p, s) <= 0xFF
  {
  }

  lemma UpperDecides(x: bv32, y: bv32, p: bv32, s: bv32, n: bv32)
    requires p <= 7 && s <= 8 && n <= 8 && p + s == n && x <= Mask(n) && y <= Mask(n)
    ensures Below(Upper(x, p, s), Upper(y, p, s)) ==> Below(x, y)
  {
    UpperIsShift(x, p, s, n);
    UpperIsShift(y, p, s, n);
    hide Upper;
  }

  lemma UpperIsShift(x: bv32, p: bv32, s: bv32, n: bv32)
    requires p <= 7 && s <= 8 && n <= 8 && p + s == n && x <= Mask(n)
    ensures Upper(x, p, s) == x >> s && x <= 0xFF
  {
  }

  lemma LowerDecides(x: bv32, y: bv32, p: bv32, s: bv32, n: bv32)
    requires p <= 7 && s <= 8 && n <= 8 && p + s == n && x <= Mask(n) && y <= Mask(n)
    ensures Upper(x, p, s) == Upper(y, p, s) ==> (Below(x, y) <==> Below(Lower(x, s), Lower(y, s)))
  {
    hide Upper;
    UpperIsShift(x, p, s, n);
    UpperIsShift(y, p, s, n);
    if Upper(x, p, s) == Upper(y, p, s) {
      EqualUpper(x, y, s);
    }
  }

  lemma EqualUpper(x: bv32, y: bv32, s: bv32)
    requires s <= 8 && x <= 0xFF && y <= 0xFF && x >> s == y >> s
    ensures Below(x, y) <==> Below(Lower(x, s), Lower(y, s))
  {
  }
}
