/** Little-endian byte strings and the conversions between bytes and limbs. */
module Bytes {
  import opened Bits
  import opened Fp
  import opened Felem

  newtype uint8 = x: int | 0 <= x < 256

  /** The number a little-endian byte string stands for. */
  function LeVal(s: seq<uint8>): nat {
    if s == [] then 0 else s[0] as nat + 256 * LeVal(s[1..])
  }

  /** The n-byte string of v modulo 256^n. */
  function ToBytes(v: nat, n: nat): seq<uint8> {
    if n == 0 then [] else [(v % 256) as uint8] + ToBytes(v / 256, n - 1)
  }

  lemma {:induction false} BytesOfVal(s: seq<uint8>)
    ensures ToBytes(LeVal(s), |s|) == s
  {
    if s != [] {
      BytesOfVal(s[1..]);
      assert LeVal(s) % 256 == s[0] as nat && LeVal(s) / 256 == LeVal(s[1..]);
      assert [s[0]] + s[1..] == s;
    }
  }

  lemma {:induction false} ValOfBytes(v: nat, n: nat)
    ensures |ToBytes(v, n)| == n
    ensures v < Exp256(n) ==> LeVal(ToBytes(v, n)) == v
  {
    if n > 0 {
      ValOfBytes(v / 256, n - 1);
      assert ToBytes(v, n)[1..] == ToBytes(v / 256, n - 1);
    }
  }

  lemma {:induction false} LeValConcat(s: seq<uint8>, t: seq<uint8>)
    ensures LeVal(s + t) == LeVal(s) + Exp256(|s|) * LeVal(t)
  {
    if s == [] {
      assert s + t == t;
    } else {
      assert (s + t)[0] == s[0] && (s + t)[1..] == s[1..] + t;
      LeValConcat(s[1..], t);
      Regroup(s[0] as int, LeVal(s[1..]), Exp256(|s| - 1), LeVal(t));
    }
  }

  lemma Regroup(a: int, x: int, e: int, y: int)
    ensures a + 256 * (x + e * y) == a + 256 * x + (256 * e) * y
  {}

  lemma {:induction false} LeValBound(s: seq<uint8>)
    ensures LeVal(s) < Exp256(|s|)
  {
    if s != [] { LeValBound(s[1..]); }
  }

  lemma Exp256Of7()
    ensures Exp256(7) == B56
  {
    assert Exp256(4) == 0x1_0000_0000;
  }

  lemma ThreeParts(s: seq<uint8>)
    requires |s| == 21
    ensures LeVal(s) == LeVal(s[..7]) + B56 * LeVal(s[7..14]) + B112 * LeVal(s[14..])
  {
    Exp256Of7();
    assert s == s[..7] + s[7..] && s[7..] == s[7..14] + s[14..];
    LeValConcat(s[..7], s[7..]);
    LeValConcat(s[7..14], s[14..]);
  }

  /** Read a coordinate from 21 bytes, seven bytes per limb. */
  method BinToFelem(out: array<uint64>, o: nat, s: seq<uint8>)
    requires Coord(out, o) && |s| == 21
    modifies out
    ensures Val(out, o) == LeVal(s) && Below(out, o, B56)
    ensures OnlyCoord(out, o)
  {
    Exp256Of7();
    LeValBound(s[..7]);
    LeValBound(s[7..14]);
    LeValBound(s[14..]);
    ThreeParts(s);
    out[o], out[o + 1], out[o + 2] := LeVal(s[..7]) as uint64, LeVal(s[7..14]) as uint64, LeVal(s[14..]) as uint64;
  }

  lemma {:induction false} ByteAt(v: nat, n: nat, i: nat)
    requires i < n
    ensures |ToBytes(v, n)| == n && Exp256(i) > 0 && ToBytes(v, n)[i] as nat == (v / Exp256(i)) % 256
  {
    ValOfBytes(v, n);
    if i > 0 {
      ByteAt(v / 256, n - 1, i - 1);
      DivDiv(v, Exp256(i - 1));
    }
  }

  lemma DivDiv(v: nat, e: nat)
    requires e > 0
    ensures v / 256 / e == v / (256 * e)
  {
    var q, r := v / 256 / e, v / 256 % e;
    var k := v % 256;
    assert v / 256 == e * q + r;
    assert v == 256 * (e * q + r) + k == (256 * e) * q + (256 * r + k);
    DivUnique(v, 256 * e, q, 256 * r + k);
  }

  lemma {:induction false} BytesSplit(a: nat, b: nat, m: nat, n: nat)
    requires a < Exp256(m)
    ensures ToBytes(a + Exp256(m) * b, m + n) == ToBytes(a, m) + ToBytes(b, n)
  {
    if m == 0 {
    } else {
      var e := Exp256(m - 1);
      var v := a + (256 * e) * b;
      assert v == a % 256 + 256 * (a / 256 + e * b) by { Regroup(a % 256, a / 256, e, b); }
      assert v % 256 == a % 256 && v / 256 == a / 256 + e * b;
      BytesSplit(a / 256, b, m - 1, n);
    }
  }

  /** Write a coordinate to 21 bytes; bits of the last limb from the 56th up are dropped. */
  method FelemToBin(out: array<uint8>, inp: array<uint64>)
    requires out.Length >= 21 && inp.Length == 3 && Reduced(inp, 0)
    modifies out
    ensures out[..21] == ToBytes(Val(inp, 0), 21) && out[21..] == old(out[21..])
  {
    hide ToBytes, Exp256;
    var a, b, c := inp[0] as nat, inp[1] as nat, inp[2] as nat;
    ghost var s0, s1, s2 := ToBytes(a, 7), ToBytes(b, 7), ToBytes(c, 7);
    ValOfBytes(a, 7);
    ValOfBytes(b, 7);
    ValOfBytes(c, 7);
    var i, e := 0, 1;
    ExpStep(0);
    while i < 7
      invariant 0 <= i <= 7 && e == Exp256(i)
      invariant forall k :: 0 <= k < i ==> out[k] == s0[k]
      invariant forall k :: 7 <= k < 7 + i ==> out[k] == s1[k - 7]
      invariant forall k :: 14 <= k < 14 + i ==> out[k] == s2[k - 14]
      invariant out[21..] == old(out[21..])
    {
      ByteAt(a, 7, i);
      ByteAt(b, 7, i);
      ByteAt(c, 7, i);
      out[i] := (a / e % 256) as uint8;
      out[i + 7] := (b / e % 256) as uint8;
      out[i + 14] := (c / e % 256) as uint8;
      ExpStep(i);
      i, e := i + 1, 256 * e;
    }
    Exp256Of7();
    BytesSplit(b, c, 7, 7);
    BytesSplit(a, b + B56 * c, 7, 14);
    assert Val(inp, 0) == a + B56 * (b + B56 * c);
    assert out[..21] == s0 + (s1 + s2);
  }

  lemma ExpStep(i: nat)
    ensures Exp256(0) == 1 && Exp256(i + 1) == 256 * Exp256(i)
  {}

  /** Copy s to offset o. */
  method Memmove(a: array<uint8>, o: nat, s: seq<uint8>)
    requires o + |s| <= a.Length
    modifies a
    ensures a[..] == old(a[..o]) + s + old(a[o + |s|..])
  {
    forall i | 0 <= i < |s| {
      a[o + i] := s[i];
    }
  }
}
