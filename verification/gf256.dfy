/**
 * GF(2^8): the byte field behind every parity and decoding step.
 * Addition and subtraction are XOR; multiplication is carry-less
 * multiplication reduced modulo x^8 + x^4 + x^3 + x^2 + 1 (0x11D).
 *
 * The laws are proved in small steps: each lemma body only names the
 * instances of other lemmas it needs.
 */
module GF256 {
  /** A field element: one byte as stored on a drive. */
  type Symbol = bv8

  /** Field addition (and subtraction): bitwise XOR. */
  function Add(x: Symbol, y: Symbol): Symbol { x ^ y }

  /** Multiplication by the generator x: shift left, folding bit 7 back in as 0x1D. */
  function XTime(a: Symbol): Symbol
  {
    var h := a >> 7;
    (a << 1) ^ (h << 4) ^ (h << 3) ^ (h << 2) ^ h
  }

  /** Whether `b` has any of the bits of mask `m` set. */
  function Bit(b: Symbol, m: Symbol): bool { b & m != 0 }

  /** `x` when `on` holds, otherwise 0. */
  function Sel(on: bool, x: Symbol): Symbol { if on then x else 0 }

  /** The sum of the selected terms among x0..x7, added as a balanced tree. */
  function Tree(c0: bool, c1: bool, c2: bool, c3: bool, c4: bool, c5: bool, c6: bool, c7: bool,
                x0: Symbol, x1: Symbol, x2: Symbol, x3: Symbol,
                x4: Symbol, x5: Symbol, x6: Symbol, x7: Symbol): Symbol
  {
    Add(Add(Add(Sel(c0, x0), Sel(c1, x1)), Add(Sel(c2, x2), Sel(c3, x3))),
        Add(Add(Sel(c4, x4), Sel(c5, x5)), Add(Sel(c6, x6), Sel(c7, x7))))
  }

  /** Field multiplication: the sum of x^i * a over the set bits i of b. */
  function Mul(a: Symbol, b: Symbol): Symbol
  {
    var a1 := XTime(a); var a2 := XTime(a1); var a3 := XTime(a2); var a4 := XTime(a3);
    var a5 := XTime(a4); var a6 := XTime(a5); var a7 := XTime(a6);
    Tree(Bit(b, 1), Bit(b, 2), Bit(b, 4), Bit(b, 8), Bit(b, 16), Bit(b, 32), Bit(b, 64), Bit(b, 128),
         a, a1, a2, a3, a4, a5, a6, a7)
  }

  // ---------------------------------------------------------------- addition

  lemma AddComm(x: Symbol, y: Symbol) ensures Add(x, y) == Add(y, x) {}
  lemma AddAssoc(x: Symbol, y: Symbol, z: Symbol) ensures Add(Add(x, y), z) == Add(x, Add(y, z)) {}
  lemma AddZero(x: Symbol) ensures Add(x, 0) == x && Add(0, x) == x {}
  lemma AddSelf(x: Symbol) ensures Add(x, x) == 0 {}
  /** Subtraction is addition: x + y == 0 exactly when x == y. */
  lemma AddEqZero(x: Symbol, y: Symbol) ensures Add(x, y) == 0 <==> x == y {}

  lemma Regroup(a: Symbol, b: Symbol, c: Symbol, d: Symbol)
    ensures Add(Add(a, b), Add(c, d)) == Add(Add(a, c), Add(b, d))
  {
    AddAssoc(a, b, Add(c, d));
    AddAssoc(b, c, d);
    AddComm(b, c);
    AddAssoc(c, b, d);
    AddAssoc(a, c, Add(b, d));
  }

  // ---------------------------------------------------------- tree identities

  lemma XTimeAdd(x: Symbol, y: Symbol) ensures XTime(Add(x, y)) == Add(XTime(x), XTime(y)) {}
  lemma SelAdd(c: bool, x: Symbol, y: Symbol) ensures Sel(c, Add(x, y)) == Add(Sel(c, x), Sel(c, y)) {}
  lemma SelXTime(c: bool, x: Symbol) ensures XTime(Sel(c, x)) == Sel(c, XTime(x)) {}

  lemma TreeAdd(c0: bool, c1: bool, c2: bool, c3: bool, c4: bool, c5: bool, c6: bool, c7: bool,
                x0: Symbol, x1: Symbol, x2: Symbol, x3: Symbol, x4: Symbol, x5: Symbol, x6: Symbol, x7: Symbol,
                y0: Symbol, y1: Symbol, y2: Symbol, y3: Symbol, y4: Symbol, y5: Symbol, y6: Symbol, y7: Symbol)
    ensures Tree(c0, c1, c2, c3, c4, c5, c6, c7,
                 Add(x0, y0), Add(x1, y1), Add(x2, y2), Add(x3, y3), Add(x4, y4), Add(x5, y5), Add(x6, y6), Add(x7, y7))
         == Add(Tree(c0, c1, c2, c3, c4, c5, c6, c7, x0, x1, x2, x3, x4, x5, x6, x7),
                Tree(c0, c1, c2, c3, c4, c5, c6, c7, y0, y1, y2, y3, y4, y5, y6, y7))
  {
    SelAdd(c0, x0, y0); SelAdd(c1, x1, y1); SelAdd(c2, x2, y2); SelAdd(c3, x3, y3);
    SelAdd(c4, x4, y4); SelAdd(c5, x5, y5); SelAdd(c6, x6, y6); SelAdd(c7, x7, y7);
    Regroup(Sel(c0, x0), Sel(c0, y0), Sel(c1, x1), Sel(c1, y1));
    Regroup(Sel(c2, x2), Sel(c2, y2), Sel(c3, x3), Sel(c3, y3));
    Regroup(Sel(c4, x4), Sel(c4, y4), Sel(c5, x5), Sel(c5, y5));
    Regroup(Sel(c6, x6), Sel(c6, y6), Sel(c7, x7), Sel(c7, y7));
    var p0 := Add(Sel(c0, x0), Sel(c1, x1)); var q0 := Add(Sel(c0, y0), Sel(c1, y1));
    var p1 := Add(Sel(c2, x2), Sel(c3, x3)); var q1 := Add(Sel(c2, y2), Sel(c3, y3));
    var p2 := Add(Sel(c4, x4), Sel(c5, x5)); var q2 := Add(Sel(c4, y4), Sel(c5, y5));
    var p3 := Add(Sel(c6, x6), Sel(c7, x7)); var q3 := Add(Sel(c6, y6), Sel(c7, y7));
    Regroup(p0, q0, p1, q1); Regroup(p2, q2, p3, q3);
    Regroup(Add(p0, p1), Add(q0, q1), Add(p2, p3), Add(q2, q3));
  }

  lemma TreeXTime(c0: bool, c1: bool, c2: bool, c3: bool, c4: bool, c5: bool, c6: bool, c7: bool,
                  x0: Symbol, x1: Symbol, x2: Symbol, x3: Symbol, x4: Symbol, x5: Symbol, x6: Symbol, x7: Symbol)
    ensures XTime(Tree(c0, c1, c2, c3, c4, c5, c6, c7, x0, x1, x2, x3, x4, x5, x6, x7))
         == Tree(c0, c1, c2, c3, c4, c5, c6, c7,
                 XTime(x0), XTime(x1), XTime(x2), XTime(x3), XTime(x4), XTime(x5), XTime(x6), XTime(x7))
  {
    SelXTime(c0, x0); SelXTime(c1, x1); SelXTime(c2, x2); SelXTime(c3, x3);
    SelXTime(c4, x4); SelXTime(c5, x5); SelXTime(c6, x6); SelXTime(c7, x7);
    var s0 := Sel(c0, x0); var s1 := Sel(c1, x1); var s2 := Sel(c2, x2); var s3 := Sel(c3, x3);
    var s4 := Sel(c4, x4); var s5 := Sel(c5, x5); var s6 := Sel(c6, x6); var s7 := Sel(c7, x7);
    XTimeAdd(s0, s1); XTimeAdd(s2, s3); XTimeAdd(s4, s5); XTimeAdd(s6, s7);
    XTimeAdd(Add(s0, s1), Add(s2, s3)); XTimeAdd(Add(s4, s5), Add(s6, s7));
    XTimeAdd(Add(Add(s0, s1), Add(s2, s3)), Add(Add(s4, s5), Add(s6, s7)));
  }

  /** A byte is the sum of its bits. */
  lemma BitDecompose(b: Symbol)
    ensures b == Tree(Bit(b, 1), Bit(b, 2), Bit(b, 4), Bit(b, 8), Bit(b, 16), Bit(b, 32), Bit(b, 64), Bit(b, 128),
                      1, 2, 4, 8, 16, 32, 64, 128)
  {}

  lemma XTimePowers()
    ensures XTime(1) == 2 && XTime(2) == 4 && XTime(4) == 8 && XTime(8) == 16
    ensures XTime(16) == 32 && XTime(32) == 64 && XTime(64) == 128
  {}

  // ------------------------------------------------------ multiplication laws

  lemma MulUnfold(a: Symbol, b: Symbol)
    ensures Mul(a, b) == Tree(Bit(b, 1), Bit(b, 2), Bit(b, 4), Bit(b, 8), Bit(b, 16), Bit(b, 32), Bit(b, 64), Bit(b, 128),
      a, XTime(a), XTime(XTime(a)), XTime(XTime(XTime(a))), XTime(XTime(XTime(XTime(a)))),
      XTime(XTime(XTime(XTime(XTime(a))))), XTime(XTime(XTime(XTime(XTime(XTime(a)))))),
      XTime(XTime(XTime(XTime(XTime(XTime(XTime(a))))))))
  {}

  lemma MulZero(a: Symbol) ensures Mul(a, 0) == 0 && Mul(0, a) == 0 {}

  lemma MulOneRight(a: Symbol) ensures Mul(a, 1) == a {}

  lemma MulOneLeft(b: Symbol) ensures Mul(1, b) == b
  {
    MulUnfold(1, b);
    XTimePowers();
    BitDecompose(b);
  }

  lemma ChainAdd(x: Symbol, y: Symbol)
    ensures XTime(Add(x, y)) == Add(XTime(x), XTime(y))
    ensures XTime(XTime(Add(x, y))) == Add(XTime(XTime(x)), XTime(XTime(y)))
    ensures XTime(XTime(XTime(Add(x, y)))) == Add(XTime(XTime(XTime(x))), XTime(XTime(XTime(y))))
    ensures XTime(XTime(XTime(XTime(Add(x, y))))) == Add(XTime(XTime(XTime(XTime(x)))), XTime(XTime(XTime(XTime(y)))))
    ensures XTime(XTime(XTime(XTime(XTime(Add(x, y)))))) == Add(XTime(XTime(XTime(XTime(XTime(x))))), XTime(XTime(XTime(XTime(XTime(y))))))
    ensures XTime(XTime(XTime(XTime(XTime(XTime(Add(x, y))))))) == Add(XTime(XTime(XTime(XTime(XTime(XTime(x)))))), XTime(XTime(XTime(XTime(XTime(XTime(y)))))))
    ensures XTime(XTime(XTime(XTime(XTime(XTime(XTime(Add(x, y)))))))) == Add(XTime(XTime(XTime(XTime(XTime(XTime(XTime(x))))))), XTime(XTime(XTime(XTime(XTime(XTime(XTime(y))))))))
  {
    var x1 := XTime(x); var y1 := XTime(y);
    var x2 := XTime(x1); var y2 := XTime(y1);
    var x3 := XTime(x2); var y3 := XTime(y2);
    var x4 := XTime(x3); var y4 := XTime(y3);
    var x5 := XTime(x4); var y5 := XTime(y4);
    var x6 := XTime(x5); var y6 := XTime(y5);
    XTimeAdd(x, y); XTimeAdd(x1, y1); XTimeAdd(x2, y2); XTimeAdd(x3, y3);
    XTimeAdd(x4, y4); XTimeAdd(x5, y5); XTimeAdd(x6, y6);
  }

  /** Multiplication distributes over addition, on the left. */
  lemma MulAddLeft(x: Symbol, y: Symbol, b: Symbol)
    ensures Mul(Add(x, y), b) == Add(Mul(x, b), Mul(y, b))
  {
    ChainAdd(x, y);
    MulUnfold(x, b); MulUnfold(y, b); MulUnfold(Add(x, y), b);
    var x1 := XTime(x); var y1 := XTime(y);
    var x2 := XTime(x1); var y2 := XTime(y1);
    var x3 := XTime(x2); var y3 := XTime(y2);
    var x4 := XTime(x3); var y4 := XTime(y3);
    var x5 := XTime(x4); var y5 := XTime(y4);
    var x6 := XTime(x5); var y6 := XTime(y5);
    var x7 := XTime(x6); var y7 := XTime(y6);
    TreeAdd(Bit(b, 1), Bit(b, 2), Bit(b, 4), Bit(b, 8), Bit(b, 16), Bit(b, 32), Bit(b, 64), Bit(b, 128),
            x, x1, x2, x3, x4, x5, x6, x7, y, y1, y2, y3, y4, y5, y6, y7);
  }

  /** Multiplying by x commutes with multiplication. */
  lemma MulXTime(a: Symbol, b: Symbol)
    ensures Mul(XTime(a), b) == XTime(Mul(a, b))
  {
    MulUnfold(a, b); MulUnfold(XTime(a), b);
    var a1 := XTime(a); var a2 := XTime(a1); var a3 := XTime(a2); var a4 := XTime(a3);
    var a5 := XTime(a4); var a6 := XTime(a5); var a7 := XTime(a6);
    TreeXTime(Bit(b, 1), Bit(b, 2), Bit(b, 4), Bit(b, 8), Bit(b, 16), Bit(b, 32), Bit(b, 64), Bit(b, 128),
              a, a1, a2, a3, a4, a5, a6, a7);
  }

  lemma MulXTimeChain(a: Symbol, c: Symbol)
    ensures Mul(XTime(a), c) == XTime(Mul(a, c))
    ensures Mul(XTime(XTime(a)), c) == XTime(XTime(Mul(a, c)))
    ensures Mul(XTime(XTime(XTime(a))), c) == XTime(XTime(XTime(Mul(a, c))))
    ensures Mul(XTime(XTime(XTime(XTime(a)))), c) == XTime(XTime(XTime(XTime(Mul(a, c)))))
    ensures Mul(XTime(XTime(XTime(XTime(XTime(a))))), c) == XTime(XTime(XTime(XTime(XTime(Mul(a, c))))))
    ensures Mul(XTime(XTime(XTime(XTime(XTime(XTime(a)))))), c) == XTime(XTime(XTime(XTime(XTime(XTime(Mul(a, c)))))))
    ensures Mul(XTime(XTime(XTime(XTime(XTime(XTime(XTime(a))))))), c) == XTime(XTime(XTime(XTime(XTime(XTime(XTime(Mul(a, c))))))))
  {
    var a1 := XTime(a); var a2 := XTime(a1); var a3 := XTime(a2); var a4 := XTime(a3);
    var a5 := XTime(a4); var a6 := XTime(a5);
    MulXTime(a, c); MulXTime(a1, c); MulXTime(a2, c); MulXTime(a3, c);
    MulXTime(a4, c); MulXTime(a5, c); MulXTime(a6, c);
  }

  lemma MulSel(c: bool, x: Symbol, b: Symbol) ensures Mul(Sel(c, x), b) == Sel(c, Mul(x, b))
  {
    MulZero(b);
  }

  /** Multiplying a tree on the right multiplies each of its terms. */
  lemma TreeMulLeft(c0: bool, c1: bool, c2: bool, c3: bool, c4: bool, c5: bool, c6: bool, c7: bool,
                    x0: Symbol, x1: Symbol, x2: Symbol, x3: Symbol, x4: Symbol, x5: Symbol, x6: Symbol, x7: Symbol,
                    b: Symbol)
    ensures Mul(Tree(c0, c1, c2, c3, c4, c5, c6, c7, x0, x1, x2, x3, x4, x5, x6, x7), b)
         == Tree(c0, c1, c2, c3, c4, c5, c6, c7,
                 Mul(x0, b), Mul(x1, b), Mul(x2, b), Mul(x3, b), Mul(x4, b), Mul(x5, b), Mul(x6, b), Mul(x7, b))
  {
    MulSel(c0, x0, b); MulSel(c1, x1, b); MulSel(c2, x2, b); MulSel(c3, x3, b);
    MulSel(c4, x4, b); MulSel(c5, x5, b); MulSel(c6, x6, b); MulSel(c7, x7, b);
    var s0 := Sel(c0, x0); var s1 := Sel(c1, x1); var s2 := Sel(c2, x2); var s3 := Sel(c3, x3);
    var s4 := Sel(c4, x4); var s5 := Sel(c5, x5); var s6 := Sel(c6, x6); var s7 := Sel(c7, x7);
    MulAddLeft(s0, s1, b); MulAddLeft(s2, s3, b); MulAddLeft(s4, s5, b); MulAddLeft(s6, s7, b);
    MulAddLeft(Add(s0, s1), Add(s2, s3), b); MulAddLeft(Add(s4, s5), Add(s6, s7), b);
    MulAddLeft(Add(Add(s0, s1), Add(s2, s3)), Add(Add(s4, s5), Add(s6, s7)), b);
  }

  lemma MulPowers(b: Symbol)
    ensures Mul(2, b) == XTime(b)
    ensures Mul(4, b) == XTime(XTime(b))
    ensures Mul(8, b) == XTime(XTime(XTime(b)))
    ensures Mul(16, b) == XTime(XTime(XTime(XTime(b))))
    ensures Mul(32, b) == XTime(XTime(XTime(XTime(XTime(b)))))
    ensures Mul(64, b) == XTime(XTime(XTime(XTime(XTime(XTime(b))))))
    ensures Mul(128, b) == XTime(XTime(XTime(XTime(XTime(XTime(XTime(b)))))))
  {
    MulOneLeft(b);
    XTimePowers();
    MulXTimeChain(1, b);
  }

  /** Multiplication is commutative. */
  lemma MulComm(a: Symbol, b: Symbol)
    ensures Mul(a, b) == Mul(b, a)
  {
    MulOneLeft(a);
    MulUnfold(1, a);
    XTimePowers();
    TreeMulLeft(Bit(a, 1), Bit(a, 2), Bit(a, 4), Bit(a, 8), Bit(a, 16), Bit(a, 32), Bit(a, 64), Bit(a, 128),
                1, 2, 4, 8, 16, 32, 64, 128, b);
    MulOneLeft(b);
    MulPowers(b);
    MulUnfold(b, a);
  }

  lemma MulRightComm(a: Symbol, b: Symbol, c: Symbol)
    ensures Mul(Mul(a, b), c) == Mul(Mul(a, c), b)
  {
    MulUnfold(a, b);
    var a1 := XTime(a); var a2 := XTime(a1); var a3 := XTime(a2); var a4 := XTime(a3);
    var a5 := XTime(a4); var a6 := XTime(a5); var a7 := XTime(a6);
    TreeMulLeft(Bit(b, 1), Bit(b, 2), Bit(b, 4), Bit(b, 8), Bit(b, 16), Bit(b, 32), Bit(b, 64), Bit(b, 128),
                a, a1, a2, a3, a4, a5, a6, a7, c);
    MulXTimeChain(a, c);
    MulUnfold(Mul(a, c), b);
  }

  /** Multiplication is associative. */
  lemma MulAssoc(a: Symbol, b: Symbol, c: Symbol)
    ensures Mul(a, Mul(b, c)) == Mul(Mul(a, b), c)
  {
    MulComm(a, Mul(b, c));
    MulRightComm(b, c, a);
    MulComm(b, a);
  }

  /** Multiplication distributes over addition, on the right. */
  lemma MulAddRight(a: Symbol, x: Symbol, y: Symbol)
    ensures Mul(a, Add(x, y)) == Add(Mul(a, x), Mul(a, y))
  {
    MulComm(a, Add(x, y));
    MulAddLeft(x, y, a);
    MulComm(x, a);
    MulComm(y, a);
  }

  // ------------------------------------------------------------ inverses

  /** The largest w in 1..k with a * w == 1, or 0 when there is none. */
  function InvSearch(a: Symbol, k: nat): (w: Symbol)
    requires k <= 255
    ensures w == 0 || Mul(a, w) == 1
    decreases k
  {
    if k == 0 then 0
    else if Mul(a, k as Symbol) == 1 then k as Symbol
    else InvSearch(a, k - 1)
  }

  /** Multiplicative inverse (0 has none; its entry is 0). */
  function Inv(a: Symbol): (r: Symbol)
    ensures r == 0 || Mul(a, r) == 1
  {
    InvSearch(a, 255)
  }

  lemma {:induction false} InvSearchFinds(a: Symbol, k: nat, w: Symbol)
    requires k <= 255 && 0 < w as nat <= k && Mul(a, w) == 1
    ensures Mul(a, InvSearch(a, k)) == 1
    decreases k
  {
    if Mul(a, k as Symbol) != 1 {
      InvSearchFinds(a, k - 1, w);
    }
  }

  /* Every non-zero symbol has an inverse: one witness w with a * w == 1
   * per symbol, taken from the field's inverse table. Each witness makes
   * the verifier evaluate Mul on two literals, which is costly, so the
   * table is split into lemmas of four witnesses each, gathered by the
   * InvGroup lemmas below and dispatched on a in MulInv; one lemma over all
   * 255 witnesses would exceed the verifier's resource bound. */
  lemma InvRange1(a: Symbol)
    requires 1 <= a <= 4
    ensures Mul(a, Inv(a)) == 1
  {
    if a == 1 { InvSearchFinds(a, 255, 1); }
    else if a == 2 { InvSearchFinds(a, 255, 142); }
    else if a == 3 { InvSearchFinds(a, 255, 244); }
    else if a == 4 { InvSearchFinds(a, 255, 71); }
  }
  lemma InvRange5(a: Symbol)
    requires 5 <= a <= 8
    ensures Mul(a, Inv(a)) == 1
  {
    if a == 5 { InvSearchFinds(a, 255, 167); }
    else if a == 6 { InvSearchFinds(a, 255, 122); }
    else if a == 7 { InvSearchFinds(a, 255, 186); }
    else if a == 8 { InvSearchFinds(a, 255, 173); }
  }
  lemma InvRange9(a: Symbol)
    requires 9 <= a <= 12
    ensures Mul(a, Inv(a)) == 1
  {
    if a == 9 { InvSearchFinds(a, 255, 157); }
    else if a == 10 { InvSearchFinds(a, 255, 221); }
    else if a == 11 { InvSearchFinds(a, 255, 152); }
    else if a == 12 { InvSearchFinds(a, 255, 61); }
  }
  lemma InvRange13(a: Symbol)
    requires 13 <= a <= 16
    ensures Mul(a, Inv(a)) == 1
  {
    if a == 13 { InvSearchFinds(a, 255, 170); }
    else if a == 14 { InvSearchFinds(a, 255, 93); }
    else if a == 15 { InvSearchFinds(a, 255, 150); }
    else if a == 16 { InvSearchFinds(a, 255, 216); }
  }
  lemma InvRange17(a: Symbol)
    requires 17 <= a <= 20
    ensures Mul(a, Inv(a)) == 1
  {
    if a == 17 { InvSearchFinds(a, 255, 114); }
    else if a == 18 { InvSearchFinds(a, 255, 192); }
    else if a == 19 { InvSearchFinds(a, 255, 88); }
    else if a == 20 { InvSearchFinds(a, 255, 224); }
  }
  lemma InvRange21(a: Symbol)
    requires 21 <= a <= 24
    ensures Mul(a, Inv(a)) == 1
  {
    if a == 21 { InvSearchFinds(a, 255, 62); }
    else if a == 22 { InvSearchFinds(a, 255, 76); }
    else if a == 23 { InvSearchFinds(a, 255, 102); }
    else if a == 24 { InvSearchFinds(a, 255, 144); }
  }
  lemma InvRange25(a: Symbol)
    requires 25 <= a <= 28
    ensures Mul(a, Inv(a)) == 1
  {
    if a == 25 { InvSearchFinds(a, 255, 222); }
    else if a == 26 { InvSearchFinds(a, 255, 85); }
    else if a == 27 { InvSearchFinds(a, 255, 128); }
    else if a == 28 { InvSearchFinds(a, 255, 160); }
  }
  lemma InvRange29(a: Symbol)
    requires 29 <= a <= 32
    ensures Mul(a, Inv(a)) == 1
  {
    if a == 29 { InvSearchFinds(a, 255, 131); }
    else if a == 30 { InvSearchFinds(a, 255, 75); }
    else if a == 31 { InvSearchFinds(a, 255, 42); }
    else if a == 32 { InvSearchFinds(a, 255, 108); }
  }
  lemma InvRange33(a: Symbol)
    requires 33 <= a <= 36
    ensures Mul(a, Inv(a)) == 1
  {
    if a == 33 { InvSearchFinds(a, 255, 237); }
    else if a == 34 { InvSearchFinds(a, 255, 57); }
    else if a == 35 { InvSearchFinds(a, 255, 81); }
    else if a == 36 { InvSearchFinds(a, 255, 96); }
  }
  lemma InvRange37(a: Symbol)
    requires 37 <= a <= 40
    ensures Mul(a, Inv(a)) == 1
  {
    if a == 37 { InvSearchFinds(a, 255, 86); }
    else if a == 38 { InvSearchFinds(a, 255, 44); }
    else if a == 39 { InvSearchFinds(a, 255, 138); }
    else if a == 40 { InvSearchFinds(a, 255, 112); }
  }
  lemma InvRange41(a: Symbol)
    requires 41 <= a <= 44
    ensures Mul(a, Inv(a)) == 1
  {
    if a == 41 { InvSearchFinds(a, 255, 208); }
    else if a == 42 { InvSearchFinds(a, 255, 31); }
    else if a == 43 { InvSearchFinds(a, 255, 74); }
    else if a == 44 { InvSearchFinds(a, 255, 38); }
  }
  lemma InvRange45(a: Symbol)
    requires 45 <= a <= 48
    ensures Mul(a, Inv(a)) == 1
  {
    if a == 45 { InvSearchFinds(a, 255, 139); }
    else if a == 46 { InvSearchFinds(a, 255, 51); }
    else if a == 47 { InvSearchFinds(a, 255, 110); }
    else if a == 48 { InvSearchFinds(a, 255, 72); }
  }
  lemma InvRange49(a: Symbol)
    requires 49 <= a <= 52
    ensures Mul(a, Inv(a)) == 1
  {
    if a == 49 { InvSearchFinds(a, 255, 137); }
    else if a == 50 { InvSearchFinds(a, 255, 111); }
    else if a == 51 { InvSearchFinds(a, 255, 46); }
    else if a == 52 { InvSearchFinds(a, 255, 164); }
  }
  lemma InvRange53(a: Symbol)
    requires 53 <= a <= 56
    ensures Mul(a, Inv(a)) == 1
  {
    if a == 53 { InvSearchFinds(a, 255, 195); }
    else if a == 54 { InvSearchFinds(a, 255, 64); }
    else if a == 55 { InvSearchFinds(a, 255, 94); }
    else if a == 56 { InvSearchFinds(a, 255, 80); }
  }
  lemma InvRange57(a: Symbol)
    requires 57 <= a <= 60
    ensures Mul(a, Inv(a)) == 1
  {
    if a == 57 { InvSearchFinds(a, 255, 34); }
    else if a == 58 { InvSearchFinds(a, 255, 207); }
    else if a == 59 { InvSearchFinds(a, 255, 169); }
    else if a == 60 { InvSearchFinds(a, 255, 171); }
  }
  lemma InvRange61(a: Symbol)
    requires 61 <= a <= 64
    ensures Mul(a, Inv(a)) == 1
  {
    if a == 61 { InvSearchFinds(a, 255, 12); }
    else if a == 62 { InvSearchFinds(a, 255, 21); }
    else if a == 63 { InvSearchFinds(a, 255, 225); }
    else if a == 64 { InvSearchFinds(a, 255, 54); }
  }
  lemma InvRange65(a: Symbol)
    requires 65 <= a <= 68
    ensures Mul(a, Inv(a)) == 1
  {
    if a == 65 { InvSearchFinds(a, 255, 95); }
    else if a == 66 { InvSearchFinds(a, 255, 248); }
    else if a == 67 { InvSearchFinds(a, 255, 213); }
    else if a == 68 { InvSearchFinds(a, 255, 146); }
  }
  lemma InvRange69(a: Symbol)
    requires 69 <= a <= 72
    ensures Mul(a, Inv(a)) == 1
  {
    if a == 69 { InvSearchFinds(a, 255, 78); }
    else if a == 70 { InvSearchFinds(a, 255, 166); }
    else if a == 71 { InvSearchFinds(a, 255, 4); }
    else if a == 72 { InvSearchFinds(a, 255, 48); }
  }
  lemma InvRange73(a: Symbol)
    requires 73 <= a <= 76
    ensures Mul(a, Inv(a)) == 1
  {
    if a == 73 { InvSearchFinds(a, 255, 136); }
    else if a == 74 { InvSearchFinds(a, 255, 43); }
    else if a == 75 { InvSearchFinds(a, 255, 30); }
    else if a == 76 { InvSearchFinds(a, 255, 22); }
  }
  lemma InvRange77(a: Symbol)
    requires 77 <= a <= 80
    ensures Mul(a, Inv(a)) == 1
  {
    if a == 77 { InvSearchFinds(a, 255, 103); }
    else if a == 78 { InvSearchFinds(a, 255, 69); }
    else if a == 79 { InvSearchFinds(a, 255, 147); }
    else if a == 80 { InvSearchFinds(a, 255, 56); }
  }
  lemma InvRange81(a: Symbol)
    requires 81 <= a <= 84
    ensures Mul(a, Inv(a)) == 1
  {
    if a == 81 { InvSearchFinds(a, 255, 35); }
    else if a == 82 { InvSearchFinds(a, 255, 104); }
    else if a == 83 { InvSearchFinds(a, 255, 140); }
    else if a == 84 { InvSearchFinds(a, 255, 129); }
  }
  lemma InvRange85(a: Symbol)
    requires 85 <= a <= 88
    ensures Mul(a, Inv(a)) == 1
  {
    if a == 85 { InvSearchFinds(a, 255, 26); }
    else if a == 86 { InvSearchFinds(a, 255, 37); }
    else if a == 87 { InvSearchFinds(a, 255, 97); }
    else if a == 88 { InvSearchFinds(a, 255, 19); }
  }
  lemma InvRange89(a: Symbol)
    requires 89 <= a <= 92
    ensures Mul(a, Inv(a)) == 1
  {
    if a == 89 { InvSearchFinds(a, 255, 193); }
    else if a == 90 { InvSearchFinds(a, 255, 203); }
    else if a == 91 { InvSearchFinds(a, 255, 99); }
    else if a == 92 { InvSearchFinds(a, 255, 151); }
  }
  lemma InvRange93(a: Symbol)
    requires 93 <= a <= 96
    ensures Mul(a, Inv(a)) == 1
  {
    if a == 93 { InvSearchFinds(a, 255, 14); }
    else if a == 94 { InvSearchFinds(a, 255, 55); }
    else if a == 95 { InvSearchFinds(a, 255, 65); }
    else if a == 96 { InvSearchFinds(a, 255, 36); }
  }
  lemma InvRange97(a: Symbol)
    requires 97 <= a <= 100
    ensures Mul(a, Inv(a)) == 1
  {
    if a == 97 { InvSearchFinds(a, 255, 87); }
    else if a == 98 { InvSearchFinds(a, 255, 202); }
    else if a == 99 { InvSearchFinds(a, 255, 91); }
    else if a == 100 { InvSearchFinds(a, 255, 185); }
  }
  lemma InvRange101(a: Symbol)
    requires 101 <= a <= 104
    ensures Mul(a, Inv(a)) == 1
  {
    if a == 101 { InvSearchFinds(a, 255, 196); }
    else if a == 102 { InvSearchFinds(a, 255, 23); }
    else if a == 103 { InvSearchFinds(a, 255, 77); }
    else if a == 104 { InvSearchFinds(a, 255, 82); }
  }
  lemma InvRange105(a: Symbol)
    requires 105 <= a <= 108
    ensures Mul(a, Inv(a)) == 1
  {
    if a == 105 { InvSearchFinds(a, 255, 141); }
    else if a == 106 { InvSearchFinds(a, 255, 239); }
    else if a == 107 { InvSearchFinds(a, 255, 179); }
    else if a == 108 { InvSearchFinds(a, 255, 32); }
  }
  lemma InvRange109(a: Symbol)
    requires 109 <= a <= 112
    ensures Mul(a, Inv(a)) == 1
  {
    if a == 109 { InvSearchFinds(a, 255, 236); }
    else if a == 110 { InvSearchFinds(a, 255, 47); }
    else if a == 111 { InvSearchFinds(a, 255, 50); }
    else if a == 112 { InvSearchFinds(a, 255, 40); }
  }
  lemma InvRange113(a: Symbol)
    requires 113 <= a <= 116
    ensures Mul(a, Inv(a)) == 1
  {
    if a == 113 { InvSearchFinds(a, 255, 209); }
    else if a == 114 { InvSearchFinds(a, 255, 17); }
    else if a == 115 { InvSearchFinds(a, 255, 217); }
    else if a == 116 { InvSearchFinds(a, 255, 233); }
  }
  lemma InvRange117(a: Symbol)
    requires 117 <= a <= 120
    ensures Mul(a, Inv(a)) == 1
  {
    if a == 117 { InvSearchFinds(a, 255, 251); }
    else if a == 118 { InvSearchFinds(a, 255, 218); }
    else if a == 119 { InvSearchFinds(a, 255, 121); }
    else if a == 120 { InvSearchFinds(a, 255, 219); }
  }
  lemma InvRange121(a: Symbol)
    requires 121 <= a <= 124
    ensures Mul(a, Inv(a)) == 1
  {
    if a == 121 { InvSearchFinds(a, 255, 119); }
    else if a == 122 { InvSearchFinds(a, 255, 6); }
    else if a == 123 { InvSearchFinds(a, 255, 187); }
    else if a == 124 { InvSearchFinds(a, 255, 132); }
  }
  lemma InvRange125(a: Symbol)
    requires 125 <= a <= 128
    ensures Mul(a, Inv(a)) == 1
  {
    if a == 125 { InvSearchFinds(a, 255, 205); }
    else if a == 126 { InvSearchFinds(a, 255, 254); }
    else if a == 127 { InvSearchFinds(a, 255, 252); }
    else if a == 128 { InvSearchFinds(a, 255, 27); }
  }
  lemma InvRange129(a: Symbol)
    requires 129 <= a <= 132
    ensures Mul(a, Inv(a)) == 1
  {
    if a == 129 { InvSearchFinds(a, 255, 84); }
    else if a == 130 { InvSearchFinds(a, 255, 161); }
    else if a == 131 { InvSearchFinds(a, 255, 29); }
    else if a == 132 { InvSearchFinds(a, 255, 124); }
  }
  lemma InvRange133(a: Symbol)
    requires 133 <= a <= 136
    ensures Mul(a, Inv(a)) == 1
  {
    if a == 133 { InvSearchFinds(a, 255, 204); }
    else if a == 134 { InvSearchFinds(a, 255, 228); }
    else if a == 135 { InvSearchFinds(a, 255, 176); }
    else if a == 136 { InvSearchFinds(a, 255, 73); }
  }
  lemma InvRange137(a: Symbol)
    requires 137 <= a <= 140
    ensures Mul(a, Inv(a)) == 1
  {
    if a == 137 { InvSearchFinds(a, 255, 49); }
    else if a == 138 { InvSearchFinds(a, 255, 39); }
    else if a == 139 { InvSearchFinds(a, 255, 45); }
    else if a == 140 { InvSearchFinds(a, 255, 83); }
  }
  lemma InvRange141(a: Symbol)
    requires 141 <= a <= 144
    ensures Mul(a, Inv(a)) == 1
  {
    if a == 141 { InvSearchFinds(a, 255, 105); }
    else if a == 142 { InvSearchFinds(a, 255, 2); }
    else if a == 143 { InvSearchFinds(a, 255, 245); }
    else if a == 144 { InvSearchFinds(a, 255, 24); }
  }
  lemma InvRange145(a: Symbol)
    requires 145 <= a <= 148
    ensures Mul(a, Inv(a)) == 1
  {
    if a == 145 { InvSearchFinds(a, 255, 223); }
    else if a == 146 { InvSearchFinds(a, 255, 68); }
    else if a == 147 { InvSearchFinds(a, 255, 79); }
    else if a == 148 { InvSearchFinds(a, 255, 155); }
  }
  lemma InvRange149(a: Symbol)
    requires 149 <= a <= 152
    ensures Mul(a, Inv(a)) == 1
  {
    if a == 149 { InvSearchFinds(a, 255, 188); }
    else if a == 150 { InvSearchFinds(a, 255, 15); }
    else if a == 151 { InvSearchFinds(a, 255, 92); }
    else if a == 152 { InvSearchFinds(a, 255, 11); }
  }
  lemma InvRange153(a: Symbol)
    requires 153 <= a <= 156
    ensures Mul(a, Inv(a)) == 1
  {
    if a == 153 { InvSearchFinds(a, 255, 220); }
    else if a == 154 { InvSearchFinds(a, 255, 189); }
    else if a == 155 { InvSearchFinds(a, 255, 148); }
    else if a == 156 { InvSearchFinds(a, 255, 172); }
  }
  lemma InvRange157(a: Symbol)
    requires 157 <= a <= 160
    ensures Mul(a, Inv(a)) == 1
  {
    if a == 157 { InvSearchFinds(a, 255, 9); }
    else if a == 158 { InvSearchFinds(a, 255, 199); }
    else if a == 159 { InvSearchFinds(a, 255, 162); }
    else if a == 160 { InvSearchFinds(a, 255, 28); }
  }
  lemma InvRange161(a: Symbol)
    requires 161 <= a <= 164
    ensures Mul(a, Inv(a)) == 1
  {
    if a == 161 { InvSearchFinds(a, 255, 130); }
    else if a == 162 { InvSearchFinds(a, 255, 159); }
    else if a == 163 { InvSearchFinds(a, 255, 198); }
    else if a == 164 { InvSearchFinds(a, 255, 52); }
  }
  lemma InvRange165(a: Symbol)
    requires 165 <= a <= 168
    ensures Mul(a, Inv(a)) == 1
  {
    if a == 165 { InvSearchFinds(a, 255, 194); }
    else if a == 166 { InvSearchFinds(a, 255, 70); }
    else if a == 167 { InvSearchFinds(a, 255, 5); }
    else if a == 168 { InvSearchFinds(a, 255, 206); }
  }
  lemma InvRange169(a: Symbol)
    requires 169 <= a <= 172
    ensures Mul(a, Inv(a)) == 1
  {
    if a == 169 { InvSearchFinds(a, 255, 59); }
    else if a == 170 { InvSearchFinds(a, 255, 13); }
    else if a == 171 { InvSearchFinds(a, 255, 60); }
    else if a == 172 { InvSearchFinds(a, 255, 156); }
  }
  lemma InvRange173(a: Symbol)
    requires 173 <= a <= 176
    ensures Mul(a, Inv(a)) == 1
  {
    if a == 173 { InvSearchFinds(a, 255, 8); }
    else if a == 174 { InvSearchFinds(a, 255, 190); }
    else if a == 175 { InvSearchFinds(a, 255, 183); }
    else if a == 176 { InvSearchFinds(a, 255, 135); }
  }
  lemma InvRange177(a: Symbol)
    requires 177 <= a <= 180
    ensures Mul(a, Inv(a)) == 1
  {
    if a == 177 { InvSearchFinds(a, 255, 229); }
    else if a == 178 { InvSearchFinds(a, 255, 238); }
    else if a == 179 { InvSearchFinds(a, 255, 107); }
    else if a == 180 { InvSearchFinds(a, 255, 235); }
  }
  lemma InvRange181(a: Symbol)
    requires 181 <= a <= 184
    ensures Mul(a, Inv(a)) == 1
  {
    if a == 181 { InvSearchFinds(a, 255, 242); }
    else if a == 182 { InvSearchFinds(a, 255, 191); }
    else if a == 183 { InvSearchFinds(a, 255, 175); }
    else if a == 184 { InvSearchFinds(a, 255, 197); }
  }
  lemma InvRange185(a: Symbol)
    requires 185 <= a <= 188
    ensures Mul(a, Inv(a)) == 1
  {
    if a == 185 { InvSearchFinds(a, 255, 100); }
    else if a == 186 { InvSearchFinds(a, 255, 7); }
    else if a == 187 { InvSearchFinds(a, 255, 123); }
    else if a == 188 { InvSearchFinds(a, 255, 149); }
  }
  lemma InvRange189(a: Symbol)
    requires 189 <= a <= 192
    ensures Mul(a, Inv(a)) == 1
  {
    if a == 189 { InvSearchFinds(a, 255, 154); }
    else if a == 190 { InvSearchFinds(a, 255, 174); }
    else if a == 191 { InvSearchFinds(a, 255, 182); }
    else if a == 192 { InvSearchFinds(a, 255, 18); }
  }
  lemma InvRange193(a: Symbol)
    requires 193 <= a <= 196
    ensures Mul(a, Inv(a)) == 1
  {
    if a == 193 { InvSearchFinds(a, 255, 89); }
    else if a == 194 { InvSearchFinds(a, 255, 165); }
    else if a == 195 { InvSearchFinds(a, 255, 53); }
    else if a == 196 { InvSearchFinds(a, 255, 101); }
  }
  lemma InvRange197(a: Symbol)
    requires 197 <= a <= 200
    ensures Mul(a, Inv(a)) == 1
  {
    if a == 197 { InvSearchFinds(a, 255, 184); }
    else if a == 198 { InvSearchFinds(a, 255, 163); }
    else if a == 199 { InvSearchFinds(a, 255, 158); }
    else if a == 200 { InvSearchFinds(a, 255, 210); }
  }
  lemma InvRange201(a: Symbol)
    requires 201 <= a <= 204
    ensures Mul(a, Inv(a)) == 1
  {
    if a == 201 { InvSearchFinds(a, 255, 247); }
    else if a == 202 { InvSearchFinds(a, 255, 98); }
    else if a == 203 { InvSearchFinds(a, 255, 90); }
    else if a == 204 { InvSearchFinds(a, 255, 133); }
  }
  lemma InvRange205(a: Symbol)
    requires 205 <= a <= 208
    ensures Mul(a, Inv(a)) == 1
  {
    if a == 205 { InvSearchFinds(a, 255, 125); }
    else if a == 206 { InvSearchFinds(a, 255, 168); }
    else if a == 207 { InvSearchFinds(a, 255, 58); }
    else if a == 208 { InvSearchFinds(a, 255, 41); }
  }
  lemma InvRange209(a: Symbol)
    requires 209 <= a <= 212
    ensures Mul(a, Inv(a)) == 1
  {
    if a == 209 { InvSearchFinds(a, 255, 113); }
    else if a == 210 { InvSearchFinds(a, 255, 200); }
    else if a == 211 { InvSearchFinds(a, 255, 246); }
    else if a == 212 { InvSearchFinds(a, 255, 249); }
  }
  lemma InvRange213(a: Symbol)
    requires 213 <= a <= 216
    ensures Mul(a, Inv(a)) == 1
  {
    if a == 213 { InvSearchFinds(a, 255, 67); }
    else if a == 214 { InvSearchFinds(a, 255, 215); }
    else if a == 215 { InvSearchFinds(a, 255, 214); }
    else if a == 216 { InvSearchFinds(a, 255, 16); }
  }
  lemma InvRange217(a: Symbol)
    requires 217 <= a <= 220
    ensures Mul(a, Inv(a)) == 1
  {
    if a == 217 { InvSearchFinds(a, 255, 115); }
    else if a == 218 { InvSearchFinds(a, 255, 118); }
    else if a == 219 { InvSearchFinds(a, 255, 120); }
    else if a == 220 { InvSearchFinds(a, 255, 153); }
  }
  lemma InvRange221(a: Symbol)
    requires 221 <= a <= 224
    ensures Mul(a, Inv(a)) == 1
  {
    if a == 221 { InvSearchFinds(a, 255, 10); }
    else if a == 222 { InvSearchFinds(a, 255, 25); }
    else if a == 223 { InvSearchFinds(a, 255, 145); }
    else if a == 224 { InvSearchFinds(a, 255, 20); }
  }
  lemma InvRange225(a: Symbol)
    requires 225 <= a <= 228
    ensures Mul(a, Inv(a)) == 1
  {
    if a == 225 { InvSearchFinds(a, 255, 63); }
    else if a == 226 { InvSearchFinds(a, 255, 230); }
    else if a == 227 { InvSearchFinds(a, 255, 240); }
    else if a == 228 { InvSearchFinds(a, 255, 134); }
  }
  lemma InvRange229(a: Symbol)
    requires 229 <= a <= 232
    ensures Mul(a, Inv(a)) == 1
  {
    if a == 229 { InvSearchFinds(a, 255, 177); }
    else if a == 230 { InvSearchFinds(a, 255, 226); }
    else if a == 231 { InvSearchFinds(a, 255, 241); }
    else if a == 232 { InvSearchFinds(a, 255, 250); }
  }
  lemma InvRange233(a: Symbol)
    requires 233 <= a <= 236
    ensures Mul(a, Inv(a)) == 1
  {
    if a == 233 { InvSearchFinds(a, 255, 116); }
    else if a == 234 { InvSearchFinds(a, 255, 243); }
    else if a == 235 { InvSearchFinds(a, 255, 180); }
    else if a == 236 { InvSearchFinds(a, 255, 109); }
  }
  lemma InvRange237(a: Symbol)
    requires 237 <= a <= 240
    ensures Mul(a, Inv(a)) == 1
  {
    if a == 237 { InvSearchFinds(a, 255, 33); }
    else if a == 238 { InvSearchFinds(a, 255, 178); }
    else if a == 239 { InvSearchFinds(a, 255, 106); }
    else if a == 240 { InvSearchFinds(a, 255, 227); }
  }
  lemma InvRange241(a: Symbol)
    requires 241 <= a <= 244
    ensures Mul(a, Inv(a)) == 1
  {
    if a == 241 { InvSearchFinds(a, 255, 231); }
    else if a == 242 { InvSearchFinds(a, 255, 181); }
    else if a == 243 { InvSearchFinds(a, 255, 234); }
    else if a == 244 { InvSearchFinds(a, 255, 3); }
  }
  lemma InvRange245(a: Symbol)
    requires 245 <= a <= 248
    ensures Mul(a, Inv(a)) == 1
  {
    if a == 245 { InvSearchFinds(a, 255, 143); }
    else if a == 246 { InvSearchFinds(a, 255, 211); }
    else if a == 247 { InvSearchFinds(a, 255, 201); }
    else if a == 248 { InvSearchFinds(a, 255, 66); }
  }
  lemma InvRange249(a: Symbol)
    requires 249 <= a <= 252
    ensures Mul(a, Inv(a)) == 1
  {
    if a == 249 { InvSearchFinds(a, 255, 212); }
    else if a == 250 { InvSearchFinds(a, 255, 232); }
    else if a == 251 { InvSearchFinds(a, 255, 117); }
    else if a == 252 { InvSearchFinds(a, 255, 127); }
  }
  lemma InvRange253(a: Symbol)
    requires 253 <= a <= 255
    ensures Mul(a, Inv(a)) == 1
  {
    if a == 253 { InvSearchFinds(a, 255, 255); }
    else if a == 254 { InvSearchFinds(a, 255, 126); }
    else if a == 255 { InvSearchFinds(a, 255, 253); }
  }
  lemma InvGroup1(a: Symbol)
    requires 1 <= a <= 32
    ensures Mul(a, Inv(a)) == 1
  {
    if a <= 4 { InvRange1(a); }
    else if a <= 8 { InvRange5(a); }
    else if a <= 12 { InvRange9(a); }
    else if a <= 16 { InvRange13(a); }
    else if a <= 20 { InvRange17(a); }
    else if a <= 24 { InvRange21(a); }
    else if a <= 28 { InvRange25(a); }
    else if a <= 32 { InvRange29(a); }
  }
  lemma InvGroup33(a: Symbol)
    requires 33 <= a <= 64
    ensures Mul(a, Inv(a)) == 1
  {
    if a <= 36 { InvRange33(a); }
    else if a <= 40 { InvRange37(a); }
    else if a <= 44 { InvRange41(a); }
    else if a <= 48 { InvRange45(a); }
    else if a <= 52 { InvRange49(a); }
    else if a <= 56 { InvRange53(a); }
    else if a <= 60 { InvRange57(a); }
    else if a <= 64 { InvRange61(a); }
  }
  lemma InvGroup65(a: Symbol)
    requires 65 <= a <= 96
    ensures Mul(a, Inv(a)) == 1
  {
    if a <= 68 { InvRange65(a); }
    else if a <= 72 { InvRange69(a); }
    else if a <= 76 { InvRange73(a); }
    else if a <= 80 { InvRange77(a); }
    else if a <= 84 { InvRange81(a); }
    else if a <= 88 { InvRange85(a); }
    else if a <= 92 { InvRange89(a); }
    else if a <= 96 { InvRange93(a); }
  }
  lemma InvGroup97(a: Symbol)
    requires 97 <= a <= 128
    ensures Mul(a, Inv(a)) == 1
  {
    if a <= 100 { InvRange97(a); }
    else if a <= 104 { InvRange101(a); }
    else if a <= 108 { InvRange105(a); }
    else if a <= 112 { InvRange109(a); }
    else if a <= 116 { InvRange113(a); }
    else if a <= 120 { InvRange117(a); }
    else if a <= 124 { InvRange121(a); }
    else if a <= 128 { InvRange125(a); }
  }
  lemma InvGroup129(a: Symbol)
    requires 129 <= a <= 160
    ensures Mul(a, Inv(a)) == 1
  {
    if a <= 132 { InvRange129(a); }
    else if a <= 136 { InvRange133(a); }
    else if a <= 140 { InvRange137(a); }
    else if a <= 144 { InvRange141(a); }
    else if a <= 148 { InvRange145(a); }
    else if a <= 152 { InvRange149(a); }
    else if a <= 156 { InvRange153(a); }
    else if a <= 160 { InvRange157(a); }
  }
  lemma InvGroup161(a: Symbol)
    requires 161 <= a <= 192
    ensures Mul(a, Inv(a)) == 1
  {
    if a <= 164 { InvRange161(a); }
    else if a <= 168 { InvRange165(a); }
    else if a <= 172 { InvRange169(a); }
    else if a <= 176 { InvRange173(a); }
    else if a <= 180 { InvRange177(a); }
    else if a <= 184 { InvRange181(a); }
    else if a <= 188 { InvRange185(a); }
    else if a <= 192 { InvRange189(a); }
  }
  lemma InvGroup193(a: Symbol)
    requires 193 <= a <= 224
    ensures Mul(a, Inv(a)) == 1
  {
    if a <= 196 { InvRange193(a); }
    else if a <= 200 { InvRange197(a); }
    else if a <= 204 { InvRange201(a); }
    else if a <= 208 { InvRange205(a); }
    else if a <= 212 { InvRange209(a); }
    else if a <= 216 { InvRange213(a); }
    else if a <= 220 { InvRange217(a); }
    else if a <= 224 { InvRange221(a); }
  }
  lemma InvGroup225(a: Symbol)
    requires 225 <= a <= 255
    ensures Mul(a, Inv(a)) == 1
  {
    if a <= 228 { InvRange225(a); }
    else if a <= 232 { InvRange229(a); }
    else if a <= 236 { InvRange233(a); }
    else if a <= 240 { InvRange237(a); }
    else if a <= 244 { InvRange241(a); }
    else if a <= 248 { InvRange245(a); }
    else if a <= 252 { InvRange249(a); }
    else if a <= 255 { InvRange253(a); }
  }
  /** Every nonzero symbol has a multiplicative inverse. */
  lemma MulInv(a: Symbol)
    requires a != 0
    ensures Mul(a, Inv(a)) == 1 && Mul(Inv(a), a) == 1
  {
    if a <= 32 { InvGroup1(a); }
    else if a <= 64 { InvGroup33(a); }
    else if a <= 96 { InvGroup65(a); }
    else if a <= 128 { InvGroup97(a); }
    else if a <= 160 { InvGroup129(a); }
    else if a <= 192 { InvGroup161(a); }
    else if a <= 224 { InvGroup193(a); }
    else if a <= 255 { InvGroup225(a); }
    MulComm(a, Inv(a));
  }


  /** A product is zero only when a factor is zero. */
  lemma InvNonzero(a: Symbol)
    requires a != 0
    ensures Inv(a) != 0
  {
    MulInv(a);
    MulZero(a);
  }

  lemma NoZeroDivisors(a: Symbol, b: Symbol)
    ensures Mul(a, b) == 0 <==> a == 0 || b == 0
  {
    MulZero(a); MulZero(b);
    if a != 0 && Mul(a, b) == 0 {
      MulInv(a);
      MulAssoc(Inv(a), a, b);
      MulOneLeft(b);
      MulZero(Inv(a));
    }
  }
}
