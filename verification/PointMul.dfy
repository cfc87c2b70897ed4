/** `point_mul`: scalar multiplication by a table of the multiples 1..15 and a loop over the
    nibbles of the scalar, from the most significant one, adding in place. */
module PointMul {
  import opened Bytes
  import opened Fp
  import opened Felem
  import opened Limbs
  import opened Curve
  import opened Group
  import opened Point

  /** The point at (t, o) is reduced and, under the laws, represents n*a. */
  ghost predicate Holds(t: array<uint64>, o: nat, n: nat, a: Aff, b: int)
    reads t
  {
    IsPtr(t, o) && ReducedPoint(t, o) && (Laws(a, b) ==> Represents(J(t, o), Times(n, a)))
  }

  /** Entry k of a table of sixteen points holds k*a. */
  ghost predicate Row(table: array<uint64>, k: nat, a: Aff, b: int)
    reads table
  {
    Holds(table, 9 * k, k, a, b)
  }

  lemma Doubled(p: Jac, n: nat, a: Aff, b: int)
    requires Laws(a, b) && Represents(p, Times(n, a))
    ensures Represents(JDouble(p), Times(2 * n, a))
  {
    hide JDouble, Represents, Add;
    TimesOnCurve(n, a, b);
    DoubleRepresents(p, Times(n, a));
    TimesAdd(n, n, a, b);
  }

  lemma Added(p: Jac, q: Jac, m: nat, n: nat, a: Aff, b: int, inPlace: bool)
    requires Laws(a, b) && Represents(p, Times(m, a)) && Represents(q, Times(n, a)) && 1 <= n <= 15
    ensures Represents(AddResult(p, q, inPlace), Times(m + n, a))
  {
    hide JDouble, JSum, XDiff, YDiff, Add, F;
    TimesOnCurve(m, a, b);
    TimesOnCurve(n, a, b);
    AddRepresents(p, q, Times(m, a), Times(n, a));
    TimesAdd(m, n, a, b);
  }

  /** Double in place. */
  method DoubleAt(t: array<uint64>, ghost n: nat, ghost a: Aff, ghost b: int)
    requires t.Length == 9 && Holds(t, 0, n, a, b)
    modifies t
    ensures Holds(t, 0, 2 * n, a, b)
  {
    hide J, ReducedPoint, Represents, JDouble, Laws, Times, OthersKept, OnlyPoint, PointLimbs, DoubleL;
    ReducedIs(t, 0);
    ghost var p := J(t, 0);
    PointDouble(t, 0, t, 0);
    if Laws(a, b) { Doubled(p, n, a, b); }
  }

  /** Four doublings, then the table entry of a nibble added in place; the zero nibble adds nothing. */
  method Nibble(t: array<uint64>, table: array<uint64>, d: nat, ghost n: nat, ghost a: Aff, ghost b: int)
    requires t.Length == 9 && table.Length == 144 && t != table && d < 16 && Holds(t, 0, n, a, b)
    requires forall k :: 1 <= k < 16 ==> Row(table, k, a, b)
    modifies t
    ensures Holds(t, 0, 16 * n + d, a, b)
  {
    hide J, ReducedPoint, Represents, Laws, Times, OthersKept, OnlyPoint, AddResult, PointLimbs, DoubleL;
    DoubleAt(t, n, a, b);
    DoubleAt(t, 2 * n, a, b);
    DoubleAt(t, 4 * n, a, b);
    DoubleAt(t, 8 * n, a, b);
    if d != 0 {
      assert Row(table, d, a, b);
      ghost var p, q := J(t, 0), J(table, 9 * d);
      AddReduced(t, 0, t, 0, table, 9 * d);
      if Laws(a, b) { Added(p, q, 16 * n, d, a, b, true); }
    }
  }

  /** The value of the i most significant bytes of s. */
  function TopBytes(s: seq<uint8>, i: nat): nat
    requires i <= |s|
  {
    if i == 0 then 0 else 256 * TopBytes(s, i - 1) + s[|s| - i] as nat
  }

  lemma {:induction false} TopBytesVal(s: seq<uint8>, i: nat)
    requires i <= |s|
    ensures TopBytes(s, i) == LeVal(s[|s| - i..])
  {
    if i > 0 {
      TopBytesVal(s, i - 1);
      assert s[|s| - i..][1..] == s[|s| - (i - 1)..];
    }
  }

  lemma OneTimes(a: Aff)
    ensures Times(1, a) == a
  {}

  /** Rows 2m and 2m+1 from row m. */
  method FillPair(table: array<uint64>, inp: array<uint64>, m: nat, ghost a: Aff, ghost b: int)
    requires table.Length == 144 && inp.Length == 9 && table != inp && 1 <= m < 8 && Holds(inp, 0, 1, a, b)
    requires forall k :: 1 <= k < 2 * m ==> Row(table, k, a, b)
    modifies table
    ensures forall k :: 1 <= k < 2 * m + 2 ==> Row(table, k, a, b)
  {
    hide J, ReducedPoint, Represents, Laws, Times, OnlyPoint, AddResult, JDouble, PointLimbs, DoubleL;
    assert Row(table, m, a, b);
    ReducedIs(table, 9 * m);
    ghost var p := J(table, 9 * m);
    PointDouble(table, 9 * (2 * m), table, 9 * m);
    if Laws(a, b) { Doubled(p, m, a, b); }
    assert Row(table, 2 * m, a, b);
    forall k | 1 <= k < 2 * m
      ensures Row(table, k, a, b)
    {
      assert old(Row(table, k, a, b)) && IsPtr(table, 9 * k);
    }
    label Doubled:
    ghost var q, r := J(table, 9 * (2 * m)), J(inp, 0);
    AddReduced(table, 9 * (2 * m + 1), table, 9 * (2 * m), inp, 0);
    if Laws(a, b) { Added(q, r, 2 * m, 1, a, b, false); }
    assert Row(table, 2 * m + 1, a, b);
    forall k | 1 <= k < 2 * m + 1
      ensures Row(table, k, a, b)
    {
      assert old@Doubled(Row(table, k, a, b)) && IsPtr(table, 9 * k);
    }
  }

  /** The zero point, at the accumulator and at table entry 0, and the base point at table entry 1. */
  method Start(table: array<uint64>, tmp: array<uint64>, inp: array<uint64>, ghost a: Aff, ghost b: int)
    requires table.Length == 144 && tmp.Length == 9 && inp.Length == 9 && table != inp && tmp != inp && tmp != table
    requires Holds(inp, 0, 1, a, b)
    modifies table, tmp
    ensures Holds(tmp, 0, 0, a, b) && Row(table, 1, a, b)
  {
    hide Laws;
    var n := 0;
    while n < 9
      invariant 0 <= n <= 9
      invariant forall m :: 0 <= m < n ==> table[m] == 0 && tmp[m] == 0
      invariant forall m :: 9 <= m < 9 + n ==> table[m] == inp[m - 9]
    {
      table[n], tmp[n], table[9 + n] := 0, 0, inp[n];
      n := n + 1;
    }
    SamePoint(table, 9, inp, 0);
    ZeroPoint(tmp);
  }

  lemma SamePoint(t: array<uint64>, o: nat, u: array<uint64>, i: nat)
    requires IsPtr(t, o) && IsPtr(u, i) && forall m :: o <= m < o + 9 ==> t[m] == u[m - o + i]
    ensures J(t, o) == J(u, i) && ReducedPoint(t, o) == ReducedPoint(u, i)
  {
    hide F;
  }

  lemma ZeroPoint(t: array<uint64>)
    requires t.Length == 9 && forall m :: 0 <= m < 9 ==> t[m] == 0
    ensures J(t, 0) == Jac(0, 0, 0) && ReducedPoint(t, 0) && Represents(J(t, 0), Inf)
  {
    assert Val(t, 0) == 0 && Val(t, 3) == 0 && Val(t, 6) == 0;
  }

  /** Multiply the point at inp by the 21-byte little-endian scalar s. */
  method PointMul(out: array<uint64>, inp: array<uint64>, s: seq<uint8>, ghost a: Aff, ghost b: int)
    requires out.Length == 9 && inp.Length == 9 && |s| == 21 && ReducedPoint(inp, 0)
    requires Laws(a, b) ==> Represents(J(inp, 0), a)
    modifies out
    ensures ReducedPoint(out, 0)
    ensures Laws(a, b) ==> Represents(J(out, 0), Times(LeVal(s), a))
  {
    hide Laws, Times, J, Represents, ReducedPoint, Row;
    var table, tmp := new uint64[144], new uint64[9];
    OneTimes(a);
    Start(table, tmp, inp, a, b);
    var i := 1;
    while i < 8
      invariant 1 <= i <= 8 && Holds(inp, 0, 1, a, b) && Holds(tmp, 0, 0, a, b)
      invariant forall k :: 1 <= k < 2 * i ==> Row(table, k, a, b)
    {
      FillPair(table, inp, i, a, b);
      i := i + 1;
    }
    i := 0;
    ghost var n := 0;
    while i < 21
      invariant 0 <= i <= 21 && n == TopBytes(s, i) && Holds(tmp, 0, n, a, b)
      invariant forall k :: 1 <= k < 16 ==> Row(table, k, a, b)
    {
      Nibble(tmp, table, s[20 - i] as nat / 16, n, a, b);
      Nibble(tmp, table, s[20 - i] as nat % 16, 16 * n + s[20 - i] as nat / 16, a, b);
      n := 256 * n + s[20 - i] as nat;
      i := i + 1;
    }
    TopBytesVal(s, 21);
    assert s[0..] == s;
    i := 0;
    while i < 9
      invariant 0 <= i <= 9
      invariant Holds(tmp, 0, n, a, b)
      invariant forall m :: 0 <= m < i ==> out[m] == tmp[m]
    {
      out[i] := tmp[i];
      i := i + 1;
    }
    SamePoint(out, 0, tmp, 0);
  }
}
