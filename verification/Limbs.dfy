/** The limb arithmetic of ptwist168.cpp as functions: what each operation writes, limb by limb. */
module Limbs {
  /** A coordinate and an unreduced product, least significant limb first. */
  datatype L3 = L3(x: int, y: int, z: int)
  datatype L5 = L5(a: int, b: int, c: int, d: int, e: int)

  const RADIX: int := 0x100_0000_0000_0000

  function SumL(u: L3, v: L3): L3 { L3(u.x + v.x, u.y + v.y, u.z + v.z) }

  function DiffL(u: L3, v: L3): L3 {
    L3(u.x + 0x2ff_ffff_ffff_fcfd - v.x, u.y + 0x2ff_ffff_ffff_fffd - v.y, u.z + 0x2ff_ffff_ffff_fffd - v.z)
  }

  function ScaleL(u: L3, k: int): L3 { L3(u.x * k, u.y * k, u.z * k) }

  function ScaleW(w: L5, k: int): L5 { L5(w.a * k, w.b * k, w.c * k, w.d * k, w.e * k) }

  function DiffW(u: L5, v: L5): L5 {
    var c := 0xC0_0000_0000_0000_0000_0000_0000_0000;
    L5(u.a + (c - 12681408) - v.a, u.b + c - v.b, u.c + (c - 49536) - v.c, u.d + (c - 192) - v.d, u.e + (c - 192) - v.e)
  }

  function DiffWL(w: L5, u: L3): L5 {
    var c := 0xC000_0000_0000_0000;
    L5(w.a + (c - 49344) - u.x, w.b + (c - 192) - u.y, w.c + (c - 192) - u.z, w.d, w.e)
  }

  function MulL(u: L3, v: L3): L5 {
    L5(u.x * v.x, u.x * v.y + u.y * v.x, u.x * v.z + u.y * v.y + u.z * v.x, u.y * v.z + u.z * v.y, u.z * v.z)
  }

  function SquareL(u: L3): L5 {
    L5(u.x * u.x, u.x * u.y * 2, u.x * u.z * 2 + u.y * u.y, u.y * u.z * 2, u.z * u.z)
  }

  /** One fold of the top limb and a carry. */
  function RoundL(u: L3): L3 {
    var x := u.x + 257 * (u.z / RADIX);
    var y := u.y + x / RADIX;
    L3(x % RADIX, y % RADIX, u.z % RADIX + y / RADIX)
  }

  /** The two top words of a product folded into the others. */
  function FoldL(w: L5): L3 {
    L3(w.a + 257 * (w.d % RADIX), w.b + 257 * (w.e % RADIX) + 257 * (w.d / RADIX), w.c + 257 * (w.e / RADIX))
  }

  function ReduceL(w: L5): L3 { RoundL(RoundL(FoldL(w))) }

  // ---- Points ----

  datatype P9 = P9(x: L3, y: L3, z: L3)

  function DeltaL(p: P9): L3 { ReduceL(SquareL(p.z)) }

  function GammaL(p: P9): L3 { ReduceL(SquareL(p.y)) }

  function BetaL(p: P9): L3 { ReduceL(MulL(p.x, GammaL(p))) }

  function AlphaL(p: P9): L3 { ReduceL(MulL(DiffL(p.x, DeltaL(p)), ScaleL(SumL(p.x, DeltaL(p)), 3))) }

  function DoubleXL(p: P9): L3 { ReduceL(DiffWL(SquareL(AlphaL(p)), ScaleL(BetaL(p), 8))) }

  function DoubleZL(p: P9): L3 { ReduceL(DiffWL(SquareL(SumL(p.y, p.z)), SumL(DeltaL(p), GammaL(p)))) }

  function DoubleYL(p: P9): L3 {
    ReduceL(DiffW(MulL(AlphaL(p), DiffL(ScaleL(BetaL(p), 4), DoubleXL(p))), ScaleW(SquareL(GammaL(p)), 8)))
  }

  /** The nine limbs of a doubled point. */
  function DoubleL(p: P9): P9 { P9(DoubleXL(p), DoubleYL(p), DoubleZL(p)) }

  /** z2^2 * x1, z2^3 * y1, and the differences of the scaled coordinates. */
  function ScaledXL(p: P9, q: P9): L3 { ReduceL(MulL(DeltaL(q), p.x)) }

  function CubeL(p: P9): L3 { ReduceL(MulL(DeltaL(p), p.z)) }

  function ScaledYL(p: P9, q: P9): L3 { ReduceL(MulL(CubeL(q), p.y)) }

  function XDiffL(p: P9, q: P9): L3 { ReduceL(DiffW(MulL(DeltaL(p), q.x), MulL(DeltaL(q), p.x))) }

  function YDiffL(p: P9, q: P9): L3 { ReduceL(DiffWL(MulL(CubeL(p), q.y), ScaledYL(p, q))) }

  function SumZL(p: P9, q: P9): L3 { ReduceL(MulL(XDiffL(p, q), ReduceL(MulL(p.z, q.z)))) }

  function SquareUL(u: L3): L3 { ReduceL(SquareL(u)) }

  function CubeUL(u: L3): L3 { ReduceL(MulL(SquareUL(u), u)) }

  function SumXL(r: L3, cube: L3, v: L3): L3 { ReduceL(DiffWL(DiffWL(SquareL(r), cube), ScaleL(v, 2))) }

  function SumYL(r: L3, v: L3, x: L3, t: L5): L3 { ReduceL(DiffW(MulL(r, DiffL(v, x)), t)) }

  /** The nine limbs of the sum by the general formulas. */
  function SumPL(p: P9, q: P9): P9 {
    var u, r := XDiffL(p, q), YDiffL(p, q);
    var cube, v := CubeUL(u), ReduceL(MulL(ScaledXL(p, q), SquareUL(u)));
    var x := SumXL(r, cube, v);
    P9(x, SumYL(r, v, x, MulL(ScaledYL(p, q), cube)), SumZL(p, q))
  }
}
