/** The addition chains of `felem_inv` and `felem_sqrt`, with the exponent reached at every step. */
module FelemPow {
  import opened Bits
  import opened Fp
  import opened Felem
  import opened Limbs

  const B58: int := 0x400_0000_0000_0000

  lemma Exp2Values()
    ensures Exp2(4) == 0x10 && Exp2(5) == 0x20 && Exp2(7) == 0x80 && Exp2(9) == 0x200 && Exp2(11) == 0x800
    ensures Exp2(19) == 0x8_0000 && Exp2(23) == 0x80_0000 && Exp2(39) == 0x80_0000_0000
    ensures Exp2(78) == 0x4000_0000_0000_0000_0000 && Exp2(79) == 0x8000_0000_0000_0000_0000
  {
    assert Exp2(4) == 16 && Exp2(5) == 32;
    Exp2Add(5, 4);
    Exp2Add(5, 2);
    Exp2Add(9, 2);
    Exp2Add(9, 5);
    Exp2Add(14, 5);
    Exp2Add(19, 4);
    Exp2Add(19, 1);
    Exp2Add(20, 19);
    Exp2Add(39, 39);
    Exp2Add(78, 1);
  }

  /** The coordinate represents b^e. */
  ghost predicate Holds(a: array<uint64>, i: nat, b: int, e: nat)
    reads a
  {
    Is(a, i, FPow(b, e), B58)
  }

  /** `felem_square` then `felem_reduce`: doubles the exponent of b. */
  method PowSquare(out: array<uint64>, tmp: array<uint128>, a: array<uint64>, i: nat, ghost b: int, ghost e: nat)
    requires out.Length == 3 && tmp.Length == 5 && Holds(a, i, b, e)
    modifies out, tmp
    ensures Holds(out, 0, b, 2 * e)
  {
    hide R, W, FPow, FMul, OnlyCoord, SumL, DiffL, ScaleL, ScaleW, DiffW, DiffWL, MulL, SquareL, ReduceL, LimbsAt,
         WordsOf;
    ghost var x := FPow(b, e);
    Square(tmp, a, i, x, B58);
    Reduce(out, 0, tmp, FMul(x, x), 3 * (B58 * B58));
    FPowAdd(b, e, e);
  }

  /** `felem_mul` then `felem_reduce`: adds the exponents of b. */
  method PowMul(out: array<uint64>, tmp: array<uint128>, c: array<uint64>, i: nat, d: array<uint64>,
                ghost b: int, ghost e: nat, ghost f: nat)
    requires out.Length == 3 && tmp.Length == 5 && Holds(c, i, b, e) && Holds(d, 0, b, f)
    modifies out, tmp
    ensures Holds(out, 0, b, e + f)
  {
    hide R, W, FPow, FMul, OnlyCoord, SumL, DiffL, ScaleL, ScaleW, DiffW, DiffWL, MulL, SquareL, ReduceL, LimbsAt,
         WordsOf;
    ghost var x := FPow(b, e);
    Mul(tmp, c, i, d, 0, x, FPow(b, f), B58, B58);
    Reduce(out, 0, tmp, FMul(x, FPow(b, f)), 3 * (B58 * B58));
    FPowAdd(b, e, f);
  }

  /** A squaring loop of n rounds. */
  method SquareTimes(a: array<uint64>, tmp: array<uint128>, n: nat, ghost b: int, ghost e: nat)
    requires a.Length == 3 && tmp.Length == 5 && Holds(a, 0, b, e)
    modifies a, tmp
    ensures Holds(a, 0, b, Exp2(n) * e)
  {
    hide Holds;
    var i := 0;
    ghost var f := e;
    while i < n
      invariant 0 <= i <= n && f == Exp2(i) * e
      invariant Holds(a, 0, b, f)
    {
      PowSquare(a, tmp, a, 0, b, f);
      f := 2 * f;
      i := i + 1;
      assert f == Exp2(i) * e;
    }
  }

  lemma FPowOne(a: array<uint64>, i: nat)
    requires Coord(a, i) && Below(a, i, B58)
    ensures Holds(a, i, R(a, i), 1)
  {
    assert Pow(R(a, i), 1) == R(a, i) * Pow(R(a, i), 0);
  }

  /** The last product of `felem_inv`, written to its output. */
  method PowMulOut(out: array<uint64>, o: nat, tmp: array<uint128>, c: array<uint64>, i: nat, d: array<uint64>,
                   ghost b: int, ghost e: nat, ghost f: nat)
    requires Coord(out, o) && tmp.Length == 5 && Holds(c, i, b, e) && Holds(d, 0, b, f)
    modifies out, tmp
    ensures Coord(out, o) && Reduced(out, o) && R(out, o) == FPow(b, e + f)
    ensures OnlyCoord(out, o)
  {
    hide R, W, FPow, FMul, SumL, DiffL, ScaleL, ScaleW, DiffW, DiffWL, MulL, SquareL, ReduceL, LimbsAt, WordsOf;
    ghost var x := FPow(b, e);
    Mul(tmp, c, i, d, 0, x, FPow(b, f), B58, B58);
    Reduce(out, o, tmp, FMul(x, FPow(b, f)), 3 * (B58 * B58));
    FPowAdd(b, e, f);
  }

  /** The last square of `felem_sqrt`, written to its output. */
  method PowSquareOut(out: array<uint64>, o: nat, tmp: array<uint128>, a: array<uint64>, ghost b: int, ghost e: nat)
    requires Coord(out, o) && tmp.Length == 5 && Holds(a, 0, b, e)
    modifies out, tmp
    ensures Coord(out, o) && Reduced(out, o) && R(out, o) == FPow(b, 2 * e)
    ensures OnlyCoord(out, o)
  {
    hide R, W, FPow, FMul, SumL, DiffL, ScaleL, ScaleW, DiffW, DiffWL, MulL, SquareL, ReduceL, LimbsAt, WordsOf;
    ghost var x := FPow(b, e);
    Square(tmp, a, 0, x, B58);
    Reduce(out, o, tmp, FMul(x, x), 3 * (B58 * B58));
    FPowAdd(b, e, e);
  }


  /** The first part of the inversion chain, up to 2^72 - 1. */
  method InvLow(ftmp: array<uint64>, ftmp2: array<uint64>, ftmp3: array<uint64>, ftmp4: array<uint64>,
                tmp: array<uint128>, inp: array<uint64>, i: nat, ghost b: int)
    requires ftmp.Length == 3 && ftmp2.Length == 3 && ftmp3.Length == 3 && ftmp4.Length == 3 && tmp.Length == 5
    requires inp != ftmp && ftmp2 != ftmp && ftmp3 != ftmp && ftmp3 != ftmp2 && ftmp4 != ftmp && ftmp4 != ftmp3
    requires Holds(inp, i, b, 1)
    modifies ftmp, ftmp2, ftmp3, ftmp4, tmp
    ensures Holds(ftmp, 0, b, 0x3f) && Holds(ftmp4, 0, b, 0xffffffffffffffffff)
  {
    hide Holds, Exp2;
    Exp2Values();
    PowSquare(ftmp, tmp, inp, i, b, 1);                                    // 2
    PowMul(ftmp, tmp, inp, i, ftmp, b, 1, 2);                              // 2^2 - 1
    PowSquare(ftmp2, tmp, ftmp, 0, b, 0x3);                                // 2^3 - 2
    PowSquare(ftmp2, tmp, ftmp2, 0, b, 0x6);                               // 2^4 - 2^2
    PowMul(ftmp2, tmp, ftmp2, 0, ftmp, b, 0xc, 0x3);                       // 2^4 - 1
    PowSquare(ftmp2, tmp, ftmp2, 0, b, 0xf);                               // 2^5 - 2
    PowSquare(ftmp2, tmp, ftmp2, 0, b, 0x1e);                              // 2^6 - 2^2
    PowMul(ftmp, tmp, ftmp2, 0, ftmp, b, 0x3c, 0x3);                       // 2^6 - 1
    PowSquare(ftmp2, tmp, ftmp, 0, b, 0x3f);                               // 2^7 - 2
    SquareTimes(ftmp2, tmp, 5, b, 0x7e);                                   // 2^12 - 2^6
    PowMul(ftmp3, tmp, ftmp, 0, ftmp2, b, 0x3f, 0xfc0);                    // 2^12 - 1
    PowSquare(ftmp2, tmp, ftmp3, 0, b, 0xfff);                             // 2^13 - 2
    SquareTimes(ftmp2, tmp, 11, b, 0x1ffe);                                // 2^24 - 2^12
    PowMul(ftmp3, tmp, ftmp2, 0, ftmp3, b, 0xfff000, 0xfff);               // 2^24 - 1
    PowSquare(ftmp2, tmp, ftmp3, 0, b, 0xffffff);                          // 2^25 - 2
    SquareTimes(ftmp2, tmp, 23, b, 0x1fffffe);                             // 2^48 - 2^24
    PowMul(ftmp4, tmp, ftmp2, 0, ftmp3, b, 0xffffff000000, 0xffffff);      // 2^48 - 1
    PowSquare(ftmp2, tmp, ftmp4, 0, b, 0xffffffffffff);                    // 2^49 - 2
    SquareTimes(ftmp2, tmp, 23, b, 0x1fffffffffffe);                       // 2^72 - 2^24
    PowMul(ftmp4, tmp, ftmp2, 0, ftmp3, b, 0xffffffffffff000000, 0xffffff); // 2^72 - 1
  }

  /** The rest of the chain, up to the last multiplication by the input. */
  method InvHigh(ftmp: array<uint64>, ftmp2: array<uint64>, ftmp4: array<uint64>,
                 tmp: array<uint128>, inp: array<uint64>, i: nat, ghost b: int)
    requires ftmp.Length == 3 && ftmp2.Length == 3 && ftmp4.Length == 3 && tmp.Length == 5
    requires inp != ftmp2 && inp != ftmp4 && ftmp2 != ftmp && ftmp4 != ftmp && ftmp4 != ftmp2
    requires Holds(inp, i, b, 1) && Holds(ftmp, 0, b, 0x3f) && Holds(ftmp4, 0, b, 0xffffffffffffffffff)
    modifies ftmp2, ftmp4, tmp
    ensures Holds(ftmp2, 0, b, PM2 - 1)
  {
    hide Holds, Exp2;
    PValue();
    Exp2Values();
    PowSquare(ftmp2, tmp, ftmp4, 0, b, 0xffffffffffffffffff);              // 2^73 - 2
    SquareTimes(ftmp2, tmp, 5, b, 0x1fffffffffffffffffe);                  // 2^78 - 2^6
    PowMul(ftmp2, tmp, ftmp, 0, ftmp2, b, 0x3f, 0x3fffffffffffffffffc0);   // 2^78 - 1
    PowSquare(ftmp2, tmp, ftmp2, 0, b, 0x3fffffffffffffffffff);            // 2^79 - 2
    PowMul(ftmp4, tmp, inp, i, ftmp2, b, 1, 0x7ffffffffffffffffffe);       // 2^79 - 1
    PowSquare(ftmp2, tmp, ftmp4, 0, b, 0x7fffffffffffffffffff);            // 2^80 - 2
    SquareTimes(ftmp2, tmp, 78, b, 0xfffffffffffffffffffe);                // 2^158 - 2^79
    PowMul(ftmp2, tmp, ftmp4, 0, ftmp2, b, 0x7fffffffffffffffffff,
           0x3fffffffffffffffffff80000000000000000000);                    // 2^158 - 1
    PowSquare(ftmp2, tmp, ftmp2, 0, b, 0x3fffffffffffffffffffffffffffffffffffffff);    // 2^159 - 2
    PowMul(ftmp2, tmp, inp, i, ftmp2, b, 1, 0x7ffffffffffffffffffffffffffffffffffffffe); // 2^159 - 1
    SquareTimes(ftmp2, tmp, 7, b, 0x7fffffffffffffffffffffffffffffffffffffff);         // 2^166 - 2^7
    PowMul(ftmp2, tmp, ftmp, 0, ftmp2, b, 0x3f,
           0x3fffffffffffffffffffffffffffffffffffffff80);                  // 2^166 - 2^6 - 1
    PowSquare(ftmp2, tmp, ftmp2, 0, b, 0x3fffffffffffffffffffffffffffffffffffffffbf);  // 2^167 - 2^7 - 2
    PowSquare(ftmp2, tmp, ftmp2, 0, b, 0x7fffffffffffffffffffffffffffffffffffffff7e);  // 2^168 - 2^8 - 4
  }

  /** out = inp^(P-2) */
  method Inv(out: array<uint64>, o: nat, inp: array<uint64>, i: nat)
    requires Coord(out, o) && Coord(inp, i) && Below(inp, i, B58)
    modifies out
    ensures Reduced(out, o)
    ensures R(out, o) == FPow(old(R(inp, i)), PM2)
    ensures OnlyCoord(out, o)
  {
    hide R, FPow, Holds, Exp2, Below;
    var ftmp, ftmp2, ftmp3, ftmp4 := new uint64[3], new uint64[3], new uint64[3], new uint64[3];
    var tmp := new uint128[5];
    ghost var b := R(inp, i);
    FPowOne(inp, i);
    PValue();
    Exp2Values();
    InvLow(ftmp, ftmp2, ftmp3, ftmp4, tmp, inp, i, b);
    InvHigh(ftmp, ftmp2, ftmp4, tmp, inp, i, b);
    PowMulOut(out, o, tmp, inp, i, ftmp2, b, 1, PM2 - 1);                  // 2^168 - 2^8 - 3
  }

  /** The first part of the square root chain, up to 2^20 - 1. */
  method SqrtLow(ftmp: array<uint64>, ftmp2: array<uint64>, tmp: array<uint128>, inp: array<uint64>, i: nat,
                 ghost b: int)
    requires ftmp.Length == 3 && ftmp2.Length == 3 && tmp.Length == 5
    requires inp != ftmp && inp != ftmp2 && ftmp2 != ftmp
    requires Holds(inp, i, b, 1)
    modifies ftmp, ftmp2, tmp
    ensures Holds(ftmp, 0, b, 0xfffff)
  {
    hide Holds, Exp2;
    Exp2Values();
    PowSquare(ftmp, tmp, inp, i, b, 1);                                    // 2
    PowMul(ftmp, tmp, inp, i, ftmp, b, 1, 2);                              // 2^2 - 1
    PowSquare(ftmp2, tmp, ftmp, 0, b, 0x3);                                // 2^3 - 2
    PowSquare(ftmp2, tmp, ftmp2, 0, b, 0x6);                               // 2^4 - 2^2
    PowMul(ftmp2, tmp, ftmp2, 0, ftmp, b, 0xc, 0x3);                       // 2^4 - 1
    PowSquare(ftmp2, tmp, ftmp2, 0, b, 0xf);                               // 2^5 - 2
    PowMul(ftmp, tmp, inp, i, ftmp2, b, 1, 0x1e);                          // 2^5 - 1
    PowSquare(ftmp2, tmp, ftmp, 0, b, 0x1f);                               // 2^6 - 2
    SquareTimes(ftmp2, tmp, 4, b, 0x3e);                                   // 2^10 - 2^5
    PowMul(ftmp, tmp, ftmp, 0, ftmp2, b, 0x1f, 0x3e0);                     // 2^10 - 1
    PowSquare(ftmp2, tmp, ftmp, 0, b, 0x3ff);                              // 2^11 - 2
    SquareTimes(ftmp2, tmp, 9, b, 0x7fe);                                  // 2^20 - 2^10
    PowMul(ftmp, tmp, ftmp2, 0, ftmp, b, 0xffc00, 0x3ff);                  // 2^20 - 1
  }

  /** out = inp^((P+1)/4) */
  method Sqrt(out: array<uint64>, o: nat, inp: array<uint64>, i: nat)
    requires Coord(out, o) && Coord(inp, i) && Below(inp, i, B58)
    modifies out
    ensures Reduced(out, o)
    ensures R(out, o) == FPow(old(R(inp, i)), PP1D4)
    ensures OnlyCoord(out, o)
  {
    hide R, FPow, Holds, Below;
    var ftmp, ftmp2 := new uint64[3], new uint64[3];
    var tmp := new uint128[5];
    ghost var b := R(inp, i);
    FPowOne(inp, i);
    RootExponent();
    SqrtLow(ftmp, ftmp2, tmp, inp, i, b);
    SqrtHigh(ftmp, ftmp2, tmp, b);
    PowSquareOut(out, o, tmp, ftmp2, b, 0x1fffffffffffffffffffffffffffffffffffffffe0); // 2^166 - 2^6
  }

  lemma RootExponent()
    ensures PP1D4 == 2 * 0x1fffffffffffffffffffffffffffffffffffffffe0
  {
    PValue();
  }

  method SqrtHigh(ftmp: array<uint64>, ftmp2: array<uint64>, tmp: array<uint128>, ghost b: int)
    requires ftmp.Length == 3 && ftmp2.Length == 3 && tmp.Length == 5 && ftmp2 != ftmp
    requires Holds(ftmp, 0, b, 0xfffff)
    modifies ftmp, ftmp2, tmp
    ensures Holds(ftmp2, 0, b, 0x1fffffffffffffffffffffffffffffffffffffffe0)
  {
    hide Holds, Exp2;
    Exp2Values();
    PowSquare(ftmp2, tmp, ftmp, 0, b, 0xfffff);                            // 2^21 - 2
    SquareTimes(ftmp2, tmp, 19, b, 0x1ffffe);                              // 2^40 - 2^20
    PowMul(ftmp, tmp, ftmp2, 0, ftmp, b, 0xfffff00000, 0xfffff);           // 2^40 - 1
    PowSquare(ftmp2, tmp, ftmp, 0, b, 0xffffffffff);                       // 2^41 - 2
    SquareTimes(ftmp2, tmp, 39, b, 0x1fffffffffe);                         // 2^80 - 2^40
    PowMul(ftmp, tmp, ftmp2, 0, ftmp, b, 0xffffffffff0000000000, 0xffffffffff); // 2^80 - 1
    PowSquare(ftmp2, tmp, ftmp, 0, b, 0xffffffffffffffffffff);             // 2^81 - 2
    SquareTimes(ftmp2, tmp, 79, b, 0x1fffffffffffffffffffe);               // 2^160 - 2^80
    PowMul(ftmp2, tmp, ftmp, 0, ftmp2, b, 0xffffffffffffffffffff,
           0xffffffffffffffffffff00000000000000000000);                    // 2^160 - 1
    SquareTimes(ftmp2, tmp, 5, b, 0xffffffffffffffffffffffffffffffffffffffff); // 2^165 - 2^5
  }
}
