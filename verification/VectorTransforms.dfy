/** The Q31 Clarke and Park transforms and how well their inverses undo them. */
module VectorTransforms {
  import opened Bits
  import opened FixedPoint

  // ---------------------------------------------------------------- Clarke

  datatype Pair = Pair(first: q31, second: q31)

  /** (Ialpha, Ibeta); the constants are 1/sqrt(3) and 2/sqrt(3) in 2.30 format. */
  function Clarke(ia: q31, ib: q31): Pair
  {
    var product1 := ToInt32(ia * 0x24F3_4E8B / 0x4000_0000);
    var product2 := ToInt32(ib * 0x49E6_9D16 / 0x4000_0000);
    Pair(ia, QAdd(product1, product2))
  }

  /** (Ia, Ib); the constants are 1/2 and sqrt(3)/2 in 1.31 format. */
  function InvClarke(ialpha: q31, ibeta: q31): Pair
  {
    var product1 := ToInt32(ialpha * 0x4000_0000 / 0x8000_0000);
    var product2 := ToInt32(ibeta * 0x6ED9_EBA1 / 0x8000_0000);
    Pair(ialpha, QSub(product2, product1))
  }

  /** The constants are 1/sqrt(3), 2/sqrt(3) and sqrt(3)/2, each rounded down to its format. */
  lemma ConstantsAreRoots()
    ensures 3 * (0x24F3_4E8B * 0x24F3_4E8B) <= 0x1000_0000_0000_0000 < 3 * (0x24F3_4E8C * 0x24F3_4E8C)
    ensures 3 * (0x49E6_9D16 * 0x49E6_9D16) <= 4 * 0x1000_0000_0000_0000 < 3 * (0x49E6_9D17 * 0x49E6_9D17)
    ensures 4 * (0x6ED9_EBA1 * 0x6ED9_EBA1) <= 3 * 0x4000_0000_0000_0000 < 4 * (0x6ED9_EBA2 * 0x6ED9_EBA2)
  {
  }

  /** The inverse never cuts a product: both outputs are right for every input, the second one saturated. */
  lemma InvClarkeSaturates(ialpha: q31, ibeta: q31)
    ensures InvClarke(ialpha, ibeta).first == ialpha
    ensures InvClarke(ialpha, ibeta).second
         == Clamp(ibeta * 0x6ED9_EBA1 / 0x8000_0000 - ialpha / 2, -0x8000_0000, 0x7FFF_FFFF)
  {
    hide ToInt32;
    assert ialpha * 0x4000_0000 / 0x8000_0000 == ialpha / 2;
    Fits32(ialpha / 2);
    Fits32(ibeta * 0x6ED9_EBA1 / 0x8000_0000);
  }

  /** The second Clarke product survives its cast exactly when |Ib| is at most sqrt(3)/2 of full scale. */
  lemma ClarkeProductFitsIff(ib: q31)
    ensures ToInt32(ib * 0x49E6_9D16 / 0x4000_0000) == ib * 0x49E6_9D16 / 0x4000_0000
            <==> -0x6ED9_EBA1 <= ib <= 0x6ED9_EBA1
  {
  }

  /** The documentation's "no risk of overflow" fails beyond that: a positive current gives a negative component. */
  lemma ClarkeOverflowExample()
    ensures Clarke(0, 0x7FFF_FFFF).second < 0
  {
    assert 0x7FFF_FFFF * 0x49E6_9D16 / 0x4000_0000 == 0x93CD_3A2A;
    assert ToInt32(0x93CD_3A2A) < 0;
  }

  /** So the second component is the saturated sum of the exact products under that condition and under no other. */
  lemma ClarkeSaturatesIff(ia: q31, ib: q31)
    ensures Clarke(ia, ib).second
              == Clamp(ia * 0x24F3_4E8B / 0x4000_0000 + ib * 0x49E6_9D16 / 0x4000_0000, -0x8000_0000, 0x7FFF_FFFF)
            <==> -0x6ED9_EBA1 <= ib <= 0x6ED9_EBA1
  {
    hide ToInt32;
    var p1, p2 := ia * 0x24F3_4E8B / 0x4000_0000, ib * 0x49E6_9D16 / 0x4000_0000;
    Fits32(p1);
    ClarkeProductFitsIff(ib);
    CutProduct(ib, p2);
  }

  /** A product that is cut comes out 2^32 off, towards the other end. */
  lemma CutProduct(ib: q31, p2: int)
    requires p2 == ib * 0x49E6_9D16 / 0x4000_0000
    ensures ib > 0x6ED9_EBA1 ==> ToInt32(p2) == p2 - 0x1_0000_0000 && 0x8000_0000 <= p2 < 0x9400_0000
    ensures ib < -0x6ED9_EBA1 ==> ToInt32(p2) == p2 + 0x1_0000_0000 && -0x9400_0000 <= p2 < -0x8000_0000
  {
  }

  /** The products fit and their sum does not saturate. */
  predicate ClarkeInRange(ia: q31, ib: q31)
  {
    && -0x6ED9_EBA1 <= ib <= 0x6ED9_EBA1
    && -0x8000_0000 <= ia * 0x24F3_4E8B / 0x4000_0000 + ib * 0x49E6_9D16 / 0x4000_0000 < 0x8000_0000
  }

  /** The inverse returns Ia exactly and Ib low by at most three, or high by at most one. */
  lemma ClarkeRoundTrip(ia: q31, ib: q31)
    requires ClarkeInRange(ia, ib)
    ensures
      var ab := Clarke(ia, ib);
      var back := InvClarke(ab.first, ab.second);
      back.first == ia && -3 <= back.second - ib <= 1
  {
    hide ToInt32;
    ClarkeProductFitsIff(ib);
    Fits32(ia * 0x24F3_4E8B / 0x4000_0000);
    Fits32(ib * 0x49E6_9D16 / 0x4000_0000);
    var s: int := Clarke(ia, ib).second;
    ClarkeError(ia, ib, s);
    Fits32(ia * 0x4000_0000 / 0x8000_0000);
    Fits32(s * 0x6ED9_EBA1 / 0x8000_0000);
  }

  lemma ClarkeError(ia: q31, ib: q31, s: q31)
    requires s == ia * 0x24F3_4E8B / 0x4000_0000 + ib * 0x49E6_9D16 / 0x4000_0000
    ensures -3 <= s * 0x6ED9_EBA1 / 0x8000_0000 - ia * 0x4000_0000 / 0x8000_0000 - ib <= 1
  {
    ClarkeAlgebra(ia, ib, s,
                  ia * 0x24F3_4E8B / 0x4000_0000, ia * 0x24F3_4E8B % 0x4000_0000,
                  ib * 0x49E6_9D16 / 0x4000_0000, ib * 0x49E6_9D16 % 0x4000_0000,
                  ia * 0x4000_0000 / 0x8000_0000, ia * 0x4000_0000 % 0x8000_0000,
                  s * 0x6ED9_EBA1 / 0x8000_0000, s * 0x6ED9_EBA1 % 0x8000_0000);
  }

  /** The error in terms of the four remainders and of 2^60 minus the product of the two constants. */
  lemma ClarkeAlgebra(ia: int, ib: int, s: int, p1: int, r1: int, p2: int, r2: int, q1: int, r4: int, q2: int, r3: int)
    requires -0x8000_0000 <= s == p1 + p2 < 0x8000_0000
    requires ia * 0x24F3_4E8B == 0x4000_0000 * p1 + r1 && 0 <= r1 < 0x4000_0000
    requires ib * 0x49E6_9D16 == 0x4000_0000 * p2 + r2 && 0 <= r2 < 0x4000_0000
    requires ia * 0x4000_0000 == 0x8000_0000 * q1 + r4 && 0 <= r4 < 0x8000_0000
    requires s * 0x6ED9_EBA1 == 0x8000_0000 * q2 + r3 && 0 <= r3 < 0x8000_0000
    ensures -3 <= q2 - q1 - ib <= 1
  {
    var u, r := ia + 2 * ib, r1 + r2;
    assert 0x24F3_4E8B * u == 0x4000_0000 * s + r;
    assert 0x4000_0000 * (s * 0x6ED9_EBA1) == 0x6ED9_EBA1 * (0x24F3_4E8B * u) - 0x6ED9_EBA1 * r;
    assert 0x2000_0000_0000_0000 * q2 == 0x1000_0000_0000_0000 * u - 470745493 * u - 0x6ED9_EBA1 * r - 0x4000_0000 * r3;
    assert 0x2000_0000_0000_0000 * q1 == 0x1000_0000_0000_0000 * ia - 0x4000_0000 * r4;
    HalfRemainder(ia, q1, r4);
    ClarkeBounds(u, s, r, r3, r4, q2 - q1 - ib);
  }

  lemma HalfRemainder(ia: int, q1: int, r4: int)
    requires ia * 0x4000_0000 == 0x8000_0000 * q1 + r4 && 0 <= r4 < 0x8000_0000
    ensures r4 <= 0x4000_0000
  {
    var odd := ia - 2 * q1;
    assert r4 == 0x4000_0000 * odd;
  }

  lemma ClarkeBounds(u: int, s: int, r: int, r3: int, r4: int, e: int)
    requires 0x24F3_4E8B * u == 0x4000_0000 * s + r && -0x8000_0000 <= s < 0x8000_0000
    requires 0 <= r <= 0x7FFF_FFFE && 0 <= r3 < 0x8000_0000 && 0 <= r4 <= 0x4000_0000
    requires 0x2000_0000_0000_0000 * e == -470745493 * u - 0x6ED9_EBA1 * r - 0x4000_0000 * r3 + 0x4000_0000 * r4
    ensures -3 <= e <= 1
  {
    assert -3719550791 <= u <= 3719550791;
  }

  // ---------------------------------------------------------------- Park

  /** A product of two Q31 values, back in Q31. */
  function Product(x: q31, y: q31): q31
  {
    ToInt32(x * y / 0x8000_0000)
  }

  /** The only product that does not fit is -1.0 times -1.0. */
  lemma ProductFitsIff(x: q31, y: q31)
    ensures Product(x, y) == x * y / 0x8000_0000 <==> !(x == -0x8000_0000 && y == -0x8000_0000)
    ensures !(x == -0x8000_0000 && y == -0x8000_0000) ==> -0x8000_0000 <= x * y / 0x8000_0000 < 0x8000_0000
  {
    ProductBound(x, 0x8000_0000, y, 0x8000_0000);
    if x > -0x8000_0000 {
      ProductBound(x, 0x7FFF_FFFF, y, 0x8000_0000);
    } else if y > -0x8000_0000 {
      ProductBound(x, 0x8000_0000, y, 0x7FFF_FFFF);
    }
  }

  /** (Id, Iq) */
  function Park(ialpha: q31, ibeta: q31, sinVal: q31, cosVal: q31): Pair
  {
    var product1, product2 := Product(ialpha, cosVal), Product(ibeta, sinVal);
    var product3, product4 := Product(ialpha, sinVal), Product(ibeta, cosVal);
    Pair(QAdd(product1, product2), QSub(product4, product3))
  }

  /** (Ialpha, Ibeta) */
  function InvPark(id: q31, iq: q31, sinVal: q31, cosVal: q31): Pair
  {
    var product1, product2 := Product(id, cosVal), Product(iq, sinVal);
    var product3, product4 := Product(id, sinVal), Product(iq, cosVal);
    Pair(QSub(product1, product2), QAdd(product4, product3))
  }

  /** Both factors are -1.0. */
  predicate Cut(x: q31, y: q31)
  {
    x == -0x8000_0000 && y == -0x8000_0000
  }

  /** A cut product comes out as -1.0 instead of 1.0. */
  lemma ProductCases(x: q31, y: q31)
    ensures Cut(x, y) ==> Product(x, y) == -0x8000_0000 && x * y / 0x8000_0000 == 0x8000_0000
    ensures !Cut(x, y) ==> Product(x, y) == x * y / 0x8000_0000
  {
    if Cut(x, y) {
      assert x * y / 0x8000_0000 == 0x8000_0000;
    } else {
      hide Product;
      ProductFitsIff(x, y);
    }
  }

  /** A saturating sum of two products is the saturated exact sum exactly when neither is cut. */
  lemma SumOfProductsIff(x: q31, y: q31, z: q31, w: q31)
    ensures QAdd(Product(x, y), Product(z, w))
              == Clamp(x * y / 0x8000_0000 + z * w / 0x8000_0000, -0x8000_0000, 0x7FFF_FFFF)
            <==> !Cut(x, y) && !Cut(z, w)
  {
    hide Product, Cut;
    ProductCases(x, y);
    ProductCases(z, w);
  }

  /** In a saturating difference two cuts cancel. */
  lemma DifferenceOfProductsIff(x: q31, y: q31, z: q31, w: q31)
    ensures QSub(Product(x, y), Product(z, w))
              == Clamp(x * y / 0x8000_0000 - z * w / 0x8000_0000, -0x8000_0000, 0x7FFF_FFFF)
            <==> (Cut(x, y) <==> Cut(z, w))
  {
    hide Product, Cut;
    ProductCases(x, y);
    ProductCases(z, w);
  }

  /** The documented "no risk of overflow" holds of each Park output exactly when no cut product shows in it. */
  lemma ParkSaturatesIff(a: q31, b: q31, s: q31, c: q31)
    ensures Park(a, b, s, c).first
              == Clamp(a * c / 0x8000_0000 + b * s / 0x8000_0000, -0x8000_0000, 0x7FFF_FFFF)
            <==> !Cut(a, c) && !Cut(b, s)
    ensures Park(a, b, s, c).second
              == Clamp(b * c / 0x8000_0000 - a * s / 0x8000_0000, -0x8000_0000, 0x7FFF_FFFF)
            <==> (Cut(b, c) <==> Cut(a, s))
  {
    hide Product, Cut, QAdd, QSub, Clamp;
    SumOfProductsIff(a, c, b, s);
    DifferenceOfProductsIff(b, c, a, s);
  }

  /** The same for the inverse, with the roles of the outputs exchanged. */
  lemma InvParkSaturatesIff(d: q31, q: q31, s: q31, c: q31)
    ensures InvPark(d, q, s, c).first
              == Clamp(d * c / 0x8000_0000 - q * s / 0x8000_0000, -0x8000_0000, 0x7FFF_FFFF)
            <==> (Cut(d, c) <==> Cut(q, s))
    ensures InvPark(d, q, s, c).second
              == Clamp(q * c / 0x8000_0000 + d * s / 0x8000_0000, -0x8000_0000, 0x7FFF_FFFF)
            <==> !Cut(q, c) && !Cut(d, s)
  {
    hide Product, Cut, QAdd, QSub, Clamp;
    DifferenceOfProductsIff(d, c, q, s);
    SumOfProductsIff(q, c, d, s);
  }

  /** Full-scale negative inputs whose exact result is 1.0 and which come out as -1.0, in both transforms. */
  lemma ParkOverflowExample()
    ensures Park(-0x8000_0000, 0, 0, -0x8000_0000).first == -0x8000_0000
    ensures InvPark(-0x8000_0000, 0, 0, -0x8000_0000).first == -0x8000_0000
  {
    hide Product;
    ProductCases(-0x8000_0000, -0x8000_0000);
    ProductCases(0, 0);
    assert Cut(-0x8000_0000, -0x8000_0000);
  }

  /** No product is cut and no sum saturates, in the transform or in its inverse. */
  predicate ParkInRange(a: q31, b: q31, s: q31, c: q31)
  {
    && !(s == -0x8000_0000 && (a == -0x8000_0000 || b == -0x8000_0000))
    && !(c == -0x8000_0000 && (a == -0x8000_0000 || b == -0x8000_0000))
    && -0x8000_0000 <= a * c / 0x8000_0000 + b * s / 0x8000_0000 < 0x8000_0000
    && -0x8000_0000 <= b * c / 0x8000_0000 - a * s / 0x8000_0000 < 0x8000_0000
    && (var d, q := a * c / 0x8000_0000 + b * s / 0x8000_0000, b * c / 0x8000_0000 - a * s / 0x8000_0000;
        && !(s == -0x8000_0000 && (d == -0x8000_0000 || q == -0x8000_0000))
        && !(c == -0x8000_0000 && (d == -0x8000_0000 || q == -0x8000_0000))
        && -0x8000_0000 <= d * c / 0x8000_0000 - q * s / 0x8000_0000 < 0x8000_0000
        && -0x8000_0000 <= q * c / 0x8000_0000 + d * s / 0x8000_0000 < 0x8000_0000)
  }

  /** The unlimited transform followed by the unlimited inverse: within 4 and 5 LSB of the input times sin^2 + cos^2. */
  lemma ParkError(a: int, b: int, s: int, c: int, d: int, q: int)
    requires -0x8000_0000 <= s <= 0x8000_0000 && -0x8000_0000 <= c <= 0x8000_0000
    requires d == a * c / 0x8000_0000 + b * s / 0x8000_0000 && q == b * c / 0x8000_0000 - a * s / 0x8000_0000
    ensures
      var n := s * s + c * c;
      var a', b' := d * c / 0x8000_0000 - q * s / 0x8000_0000, q * c / 0x8000_0000 + d * s / 0x8000_0000;
      && -0x1_0000_0000_0000_0000 < 0x4000_0000_0000_0000 * a' - a * n < 0x1_0000_0000_0000_0000
      && -0x1_4000_0000_0000_0000 < 0x4000_0000_0000_0000 * b' - b * n < 0x1_4000_0000_0000_0000
  {
    var r1, r2 := a * c % 0x8000_0000, b * s % 0x8000_0000;
    var r3, r4 := a * s % 0x8000_0000, b * c % 0x8000_0000;
    var e, f := r1 + r2, r4 - r3;
    Rotate(a, b, s, c, 0x8000_0000 * d, 0x8000_0000 * q, e, f);
    Scaled(d, c);
    Scaled(d, s);
    Scaled(q, c);
    Scaled(q, s);
    ProductBound(e, 0xFFFF_FFFE, c, 0x8000_0000);
    ProductBound(e, 0xFFFF_FFFE, s, 0x8000_0000);
    ProductBound(f, 0x7FFF_FFFF, s, 0x8000_0000);
    ProductBound(f, 0x7FFF_FFFF, c, 0x8000_0000);
    ParkCollect(d * c, q * s, a * (s * s + c * c), e * c, f * s);
    ParkCollectSum(q * c, d * s, b * (s * s + c * c), f * c, e * s);
  }

  lemma Scaled(d: int, c: int)
    ensures (0x8000_0000 * d) * c == 0x8000_0000 * (d * c)
  {
  }

  lemma ParkCollect(dc: int, qs: int, an: int, ec: int, fs: int)
    requires 0x8000_0000 * dc - 0x8000_0000 * qs == an - ec + fs
    requires -0x7FFF_FFFF_0000_0000 <= ec <= 0x7FFF_FFFF_0000_0000
    requires -0x3FFF_FFFF_8000_0000 <= fs <= 0x3FFF_FFFF_8000_0000
    ensures -0x1_0000_0000_0000_0000 < 0x4000_0000_0000_0000 * (dc / 0x8000_0000 - qs / 0x8000_0000) - an
            < 0x1_0000_0000_0000_0000
  {
  }

  lemma ParkCollectSum(qc: int, ds: int, bn: int, fc: int, es: int)
    requires 0x8000_0000 * qc + 0x8000_0000 * ds == bn - fc - es
    requires -0x7FFF_FFFF_0000_0000 <= es <= 0x7FFF_FFFF_0000_0000
    requires -0x3FFF_FFFF_8000_0000 <= fc <= 0x3FFF_FFFF_8000_0000
    ensures -0x1_4000_0000_0000_0000 < 0x4000_0000_0000_0000 * (qc / 0x8000_0000 + ds / 0x8000_0000) - bn
            < 0x1_4000_0000_0000_0000
  {
  }

  /** Rotating forth and back scales by sin^2 + cos^2, up to the two remainders. */
  lemma Rotate(a: int, b: int, s: int, c: int, d: int, q: int, e: int, f: int)
    requires d == a * c + b * s - e && q == b * c - a * s - f
    ensures d * c - q * s == a * (s * s + c * c) - e * c + f * s
    ensures q * c + d * s == b * (s * s + c * c) - f * c - e * s
  {
    TimesThree(a * c, b * s, e, c);
    TimesThree(b * c, -(a * s), f, s);
    TimesThree(b * c, -(a * s), f, c);
    TimesThree(a * c, b * s, e, s);
    Regroup(a, b, s, c);
    Regroup(b, a, s, c);
  }

  lemma TimesThree(x: int, y: int, e: int, z: int)
    ensures (x + y - e) * z == x * z + y * z - e * z
  {
  }

  lemma Regroup(a: int, b: int, s: int, c: int)
    ensures (a * c) * c + (a * s) * s == a * (s * s + c * c)
    ensures (b * s) * c == (b * c) * s && (-(a * s)) * s == -((a * s) * s) && (-(a * s)) * c == -((a * s) * c)
  {
    assert (a * c) * c == a * (c * c) && (a * s) * s == a * (s * s);
    assert (b * s) * c == b * (s * c) && (b * c) * s == b * (c * s);
  }

  /** Whenever everything fits, the inverse returns each coordinate scaled by sin^2 + cos^2, within 4 and 5 LSB. */
  lemma ParkRoundTrip(a: q31, b: q31, s: q31, c: q31)
    requires ParkInRange(a, b, s, c)
    ensures
      var n := s * s + c * c;
      var dq := Park(a, b, s, c);
      var back := InvPark(dq.first, dq.second, s, c);
      && -0x1_0000_0000_0000_0000 < 0x4000_0000_0000_0000 * back.first - a * n < 0x1_0000_0000_0000_0000
      && -0x1_4000_0000_0000_0000 < 0x4000_0000_0000_0000 * back.second - b * n < 0x1_4000_0000_0000_0000
  {
    hide Product;
    ProductFitsIff(a, c);
    ProductFitsIff(b, s);
    ProductFitsIff(a, s);
    ProductFitsIff(b, c);
    var dq := Park(a, b, s, c);
    ProductFitsIff(dq.first, c);
    ProductFitsIff(dq.second, s);
    ProductFitsIff(dq.first, s);
    ProductFitsIff(dq.second, c);
    ParkError(a, b, s, c, dq.first, dq.second);
  }

  // ---------------------------------------------------------------- where everything fits

  /** Cauchy-Schwarz for the two rotated components. */
  lemma RotatedBound(a: int, b: int, s: int, c: int, k: int, m: int)
    requires 0 <= k && 0 <= m && a * a + b * b <= k * k && s * s + c * c <= m * m
    ensures -(k * m) <= a * c + b * s <= k * m
    ensures -(k * m) <= b * c - a * s <= k * m
  {
    var x, y := a * c + b * s, b * c - a * s;
    Brahmagupta(a, b, s, c);
    NonNegativeSquare(a);
    NonNegativeSquare(b);
    NonNegativeSquare(x);
    NonNegativeSquare(y);
    ProductOrder(a * a + b * b, k * k, s * s + c * c, m * m);
    assert (k * k) * (m * m) == (k * m) * (k * m);
    MulOrder(m, 0, k);
    RootBound(x, k * m);
    RootBound(y, k * m);
  }

  lemma Brahmagupta(a: int, b: int, s: int, c: int)
    ensures (a * c + b * s) * (a * c + b * s) + (b * c - a * s) * (b * c - a * s) == (a * a + b * b) * (s * s + c * c)
  {
    SquareOfSum(a * c, b * s);
    SquareOfSum(b * c, -(a * s));
    assert (a * c) * (b * s) == (b * c) * (a * s);
    assert (a * c) * (a * c) == (a * a) * (c * c) && (b * s) * (b * s) == (b * b) * (s * s);
    assert (b * c) * (b * c) == (b * b) * (c * c) && (a * s) * (a * s) == (a * a) * (s * s);
  }

  lemma SquareOfSum(x: int, y: int)
    ensures (x + y) * (x + y) == x * x + 2 * (x * y) + y * y
  {
  }

  lemma ProductOrder(x: int, x': int, y: int, y': int)
    requires 0 <= x <= x' && 0 <= y <= y'
    ensures x * y <= x' * y'
  {
    MulOrder(y, x, x');
    MulOrder(x', y, y');
  }

  lemma RootBound(x: int, k: int)
    requires 0 <= k && x * x <= k * k
    ensures -k <= x <= k
  {
    var y := if x < 0 then -x else x;
    assert y * y == x * x;
    if y > k {
      MulOrder(y, k + 1, y);
      MulOrder(k, k + 1, y);
    }
  }

  /**
   * For every vector at most six LSB short of full scale and every sine and cosine on or inside the unit circle
   * nothing is cut or saturated, so the round trip bound holds.
   */
  lemma ParkInRangeOnDisc(a: q31, b: q31, s: q31, c: q31)
    requires a * a + b * b <= 0x7FFF_FFFA * 0x7FFF_FFFA
    requires s * s + c * c <= 0x8000_0000 * 0x8000_0000
    ensures ParkInRange(a, b, s, c)
  {
    NonNegativeSquare(a);
    NonNegativeSquare(b);
    NonNegativeSquare(s);
    NonNegativeSquare(c);
    RootBound(a, 0x7FFF_FFFA);
    RootBound(b, 0x7FFF_FFFA);
    RotatedBound(a, b, s, c, 0x7FFF_FFFA, 0x8000_0000);
    var d, q := a * c / 0x8000_0000 + b * s / 0x8000_0000, b * c / 0x8000_0000 - a * s / 0x8000_0000;
    ParkError(a, b, s, c, d, q);
    var n := s * s + c * c;
    ProductBound(a, 0x7FFF_FFFA, n, 0x4000_0000_0000_0000);
    ProductBound(b, 0x7FFF_FFFA, n, 0x4000_0000_0000_0000);
  }

  lemma ParkRoundTripOnDisc(a: q31, b: q31, s: q31, c: q31)
    requires a * a + b * b <= 0x7FFF_FFFA * 0x7FFF_FFFA
    requires s * s + c * c <= 0x8000_0000 * 0x8000_0000
    ensures
      var n := s * s + c * c;
      var dq := Park(a, b, s, c);
      var back := InvPark(dq.first, dq.second, s, c);
      && -0x1_0000_0000_0000_0000 < 0x4000_0000_0000_0000 * back.first - a * n < 0x1_0000_0000_0000_0000
      && -0x1_4000_0000_0000_0000 < 0x4000_0000_0000_0000 * back.second - b * n < 0x1_4000_0000_0000_0000
  {
    hide Park, InvPark, ParkInRange;
    ParkInRangeOnDisc(a, b, s, c);
    ParkRoundTrip(a, b, s, c);
  }
}
