/** Where each byte of a composite key stands, by itself: offsets, byte order and padding. */
module KeyLayout {
  import opened Bits
  import opened Bytes
  import Fp
  import opened KeyFormat

  // ---- The layout ----

  /** 256^j. */
  function Weight(j: nat): (w: nat)
    ensures w >= 1
  {
    if j == 0 then 1 else 256 * Weight(j - 1)
  }

  /** The n bytes of k from p on are v, the least significant byte first; a negative v in two's
      complement. */
  predicate Word(k: seq<uint8>, p: nat, n: nat, v: int) {
    p + n <= |k| && forall j :: 0 <= j < n ==> k[p + j] as int == v / Weight(j) % 256
  }

  /** The offset of a value that is not a record: the next multiple of 8 or 4. */
  function Start(pos: nat, t: Ty): nat {
    match t
    case TInt => (pos + 7) / 8 * 8
    case TUint => (pos + 7) / 8 * 8
    case TDouble => (pos + 7) / 8 * 8
    case _ => (pos + 3) / 4 * 4
  }

  /** The offset after a value. */
  function End(pos: nat, t: Ty, v: Val): nat
    requires Matches(t, v)
    decreases t
  {
    match t
    case TInt => Start(pos, t) + 8
    case TUint => Start(pos, t) + 8
    case TDouble => Start(pos, t) + 8
    case TAddr => Start(pos, t) + 4
    case TSubnet => Start(pos, t) + 8
    case TStr => Start(pos, t) + 4 + |v.s|
    case TRec(ts) => EndAll(pos, ts, v.fields)
  }

  function EndAll(pos: nat, ts: Tys, vs: Vals): nat
    requires MatchesAll(ts, vs)
    decreases ts
  {
    if ts.TNil? then pos else EndAll(End(pos, ts.head, vs.head), ts.tail, vs.tail)
  }

  /** The bytes of a value that is not a record. */
  predicate LeafAt(k: seq<uint8>, p: nat, t: Ty, v: Val)
    requires !t.TRec? && Matches(t, v)
  {
    match t
    case TInt => Word(k, p, 8, v.i)
    case TUint => Word(k, p, 8, v.u)
    case TDouble => Word(k, p, 8, v.bits)
    case TAddr => Word(k, p, 4, v.addr)
    case TSubnet => Word(k, p, 4, v.net) && Word(k, p + 4, 4, v.width)
    case TStr => Word(k, p, 4, |v.s|) && p + 4 + |v.s| <= |k| && k[p + 4..p + 4 + |v.s|] == v.s
  }

  /** k holds the value from pos on: zeros up to its offset, then its bytes; the fields of a record one
      after the other in the order of their declaration. */
  predicate LaidOut(k: seq<uint8>, pos: nat, t: Ty, v: Val)
    requires Matches(t, v)
    decreases t
  {
    if t.TRec? then LaidOutAll(k, pos, t.fields, v.fields)
    else
      var p := Start(pos, t);
      p <= |k| && (forall j :: pos <= j < p ==> k[j] == 0) && LeafAt(k, p, t, v)
  }

  predicate LaidOutAll(k: seq<uint8>, pos: nat, ts: Tys, vs: Vals)
    requires MatchesAll(ts, vs)
    decreases ts
  {
    ts.TCons? ==>
      LaidOut(k, pos, ts.head, vs.head) && LaidOutAll(k, End(pos, ts.head, vs.head), ts.tail, vs.tail)
  }

  // ---- The encoding has this layout ----

  lemma {:induction false} WeightIs(j: nat)
    ensures Weight(j) == Fp.Exp256(j)
  {
    if j > 0 { WeightIs(j - 1); }
  }

  lemma StartIs(pos: nat, t: Ty)
    requires !t.TRec?
    ensures Start(pos, t) == pos + PadLen(pos, AlignOf(t))
  {
    if AlignOf(t) == 8 { NextEight(pos); } else { NextFour(pos); }
  }

  lemma NextEight(pos: nat)
    ensures (pos + 7) / 8 * 8 == pos + PadLen(pos, 8)
  {
    var q, r := pos / 8, pos % 8;
    assert pos == 8 * q + r;
    if r > 0 { assert (pos + 7) / 8 == q + 1; }
  }

  lemma NextFour(pos: nat)
    ensures (pos + 3) / 4 * 4 == pos + PadLen(pos, 4)
  {
    var q, r := pos / 4, pos % 4;
    assert pos == 4 * q + r;
    if r > 0 { assert (pos + 3) / 4 == q + 1; }
  }

  /** The bytes of a natural number. */
  lemma WordOf(k: seq<uint8>, p: nat, v: nat, n: nat)
    requires At(k, p, ToBytes(v, n))
    ensures Word(k, p, n, v)
  {
    hide ToBytes;
    ValOfBytes(v, n);
    var e := ToBytes(v, n);
    forall j | 0 <= j < n ensures k[p + j] as int == v / Weight(j) % 256 {
      ByteAt(v, n, j);
      WeightIs(j);
      assert k[p..p + n][j] == e[j];
    }
  }

  /** Adding 2^64 changes none of the eight bytes. */
  lemma WrapByte(i: int, j: nat)
    requires j < 8
    ensures (i + 0x1_0000_0000_0000_0000) / Weight(j) % 256 == i / Weight(j) % 256
  {
    WeightOf7();
    hide Weight;
    WeightAdd(j, 7 - j);
    AddBytes(i, Weight(j), Weight(7 - j), 0x1_0000_0000_0000_0000);
  }

  lemma AddBytes(i: int, e: int, m: int, d: int)
    requires e >= 1 && d == 256 * (e * m)
    ensures (i + d) / e % 256 == i / e % 256
  {
    var q, r := i / e, i % e;
    assert i == e * q + r;
    assert i + d == e * (q + 256 * m) + r;
    DivUnique(i + d, e, q + 256 * m, r);
    SameByte(q, m);
  }

  lemma SameByte(q: int, m: int)
    ensures (q + 256 * m) % 256 == q % 256
  {}

  lemma {:induction false} WeightAdd(m: nat, n: nat)
    ensures Weight(m + n) == Weight(m) * Weight(n)
  {
    if m > 0 {
      WeightAdd(m - 1, n);
      assert Weight(m) * Weight(n) == 256 * (Weight(m - 1) * Weight(n));
    }
  }

  lemma WeightOf7()
    ensures 256 * Weight(7) == 0x1_0000_0000_0000_0000
  {}

  lemma IntWord(k: seq<uint8>, p: nat, i: Int64)
    requires At(k, p, ToBytes(ToWord(i), 8))
    ensures Word(k, p, 8, i)
  {
    hide ToBytes, Weight;
    WordOf(k, p, ToWord(i), 8);
    if i < 0 {
      forall j | 0 <= j < 8 ensures k[p + j] as int == i / Weight(j) % 256 { WrapByte(i, j); }
    }
  }

  lemma BodyLaidOut(k: seq<uint8>, p: nat, t: Ty, v: Val)
    requires !t.TRec? && Matches(t, v) && At(k, p, Body(t, v))
    ensures LeafAt(k, p, t, v)
    ensures forall pos :: Start(pos, t) == p ==> End(pos, t, v) == p + |Body(t, v)|
  {
    hide ToBytes, Word, Weight, Start;
    match t
    case TInt => ValOfBytes(ToWord(v.i), 8); IntWord(k, p, v.i);
    case TUint => ValOfBytes(v.u, 8); WordOf(k, p, v.u, 8);
    case TDouble => ValOfBytes(v.bits, 8); WordOf(k, p, v.bits, 8);
    case TAddr => ValOfBytes(v.addr, 4); WordOf(k, p, v.addr, 4);
    case TSubnet =>
      ValOfBytes(v.net, 4);
      ValOfBytes(v.width, 4);
      AtParts(k, p, ToBytes(v.net, 4), ToBytes(v.width, 4));
      WordOf(k, p, v.net, 4);
      WordOf(k, p + 4, v.width, 4);
    case TStr =>
      ValOfBytes(|v.s|, 4);
      AtParts(k, p, ToBytes(|v.s|, 4), v.s);
      WordOf(k, p, |v.s|, 4);
  }

  lemma {:induction false} EncLaidOut(k: seq<uint8>, pos: nat, t: Ty, v: Val)
    requires Matches(t, v) && At(k, pos, Enc(pos, t, v))
    ensures LaidOut(k, pos, t, v) && End(pos, t, v) == pos + |Enc(pos, t, v)|
    decreases t, 1
  {
    if t.TRec? {
      EncAllLaidOut(k, pos, t.fields, v.fields);
    } else {
      LeafLaidOut(k, pos, t, v);
    }
  }

  lemma LeafLaidOut(k: seq<uint8>, pos: nat, t: Ty, v: Val)
    requires !t.TRec? && Matches(t, v) && At(k, pos, Enc(pos, t, v))
    ensures LaidOut(k, pos, t, v) && End(pos, t, v) == pos + |Enc(pos, t, v)|
  {
    hide Body, LeafAt, Start, End, Matches;
    var z, b := Zeros(PadLen(pos, AlignOf(t))), Body(t, v);
    var p := Start(pos, t);
    StartIs(pos, t);
    AtParts(k, pos, z, b);
    BodyLaidOut(k, p, t, v);
    forall j | pos <= j < p ensures k[j] == 0 { assert k[pos..p][j - pos] == z[j - pos]; }
  }

  /** The encoder's bytes are laid out like this. */
  lemma {:induction false} EncAllLaidOut(k: seq<uint8>, pos: nat, ts: Tys, vs: Vals)
    requires MatchesAll(ts, vs) && At(k, pos, EncAll(pos, ts, vs))
    ensures LaidOutAll(k, pos, ts, vs) && EndAll(pos, ts, vs) == pos + |EncAll(pos, ts, vs)|
    decreases ts, 0
  {
    hide Enc, LaidOut, End, At, Matches;
    if ts.TCons? {
      var e := Enc(pos, ts.head, vs.head);
      AtParts(k, pos, e, EncAll(pos + |e|, ts.tail, vs.tail));
      EncLaidOut(k, pos, ts.head, vs.head);
      EncAllLaidOut(k, pos + |e|, ts.tail, vs.tail);
    }
  }

  // ---- The layout determines the key ----

  /** k and l agree from pos to end. */
  predicate Agree(k: seq<uint8>, l: seq<uint8>, pos: nat, end: nat) {
    pos <= end <= |k| && end <= |l| && forall j :: pos <= j < end ==> k[j] == l[j]
  }

  lemma SameWord(k: seq<uint8>, l: seq<uint8>, p: nat, n: nat, v: int)
    requires Word(k, p, n, v) && Word(l, p, n, v)
    ensures Agree(k, l, p, p + n)
  {
    hide Weight;
    forall j | p <= j < p + n ensures k[j] == l[j] {
      var i := j - p;
      assert k[p + i] as int == v / Weight(i) % 256;
      assert l[p + i] as int == v / Weight(i) % 256;
    }
  }

  lemma SameLeaf(k: seq<uint8>, l: seq<uint8>, pos: nat, t: Ty, v: Val)
    requires !t.TRec? && Matches(t, v) && LeafAt(k, Start(pos, t), t, v) && LeafAt(l, Start(pos, t), t, v)
    ensures Agree(k, l, Start(pos, t), End(pos, t, v))
  {
    hide Word, Start;
    var p := Start(pos, t);
    match t
    case TInt => SameWord(k, l, p, 8, v.i);
    case TUint => SameWord(k, l, p, 8, v.u);
    case TDouble => SameWord(k, l, p, 8, v.bits);
    case TAddr => SameWord(k, l, p, 4, v.addr);
    case TSubnet =>
      SameWord(k, l, p, 4, v.net);
      SameWord(k, l, p + 4, 4, v.width);
    case TStr =>
      SameWord(k, l, p, 4, |v.s|);
      var q, n := p + 4, |v.s|;
      forall j | q <= j < q + n ensures k[j] == l[j] {
        assert k[q..q + n][j - q] == l[q..q + n][j - q];
      }
  }

  lemma {:induction false} SameLayout(k: seq<uint8>, l: seq<uint8>, pos: nat, t: Ty, v: Val)
    requires Matches(t, v) && pos <= |k| && pos <= |l| && LaidOut(k, pos, t, v) && LaidOut(l, pos, t, v)
    ensures Agree(k, l, pos, End(pos, t, v))
    decreases t, 1
  {
    if t.TRec? {
      SameLayoutAll(k, l, pos, t.fields, v.fields);
    } else {
      SameLeaf(k, l, pos, t, v);
      StartIs(pos, t);
      hide LeafAt, Start, End;
    }
  }

  lemma {:induction false} SameLayoutAll(k: seq<uint8>, l: seq<uint8>, pos: nat, ts: Tys, vs: Vals)
    requires MatchesAll(ts, vs) && pos <= |k| && pos <= |l| && LaidOutAll(k, pos, ts, vs) && LaidOutAll(l, pos, ts, vs)
    ensures Agree(k, l, pos, EndAll(pos, ts, vs))
    decreases ts, 0
  {
    hide LaidOut, End, Matches;
    if ts.TCons? {
      SameLayout(k, l, pos, ts.head, vs.head);
      SameLayoutAll(k, l, End(pos, ts.head, vs.head), ts.tail, vs.tail);
    }
  }

  /** A string is the encoding exactly if it has this layout and no more bytes. */
  lemma LayoutExact(k: seq<uint8>, ts: Tys, vs: Vals)
    requires MatchesAll(ts, vs)
    ensures k == EncAll(0, ts, vs) <==> LaidOutAll(k, 0, ts, vs) && |k| == EndAll(0, ts, vs)
  {
    hide LaidOutAll, EncAll, EndAll, MatchesAll;
    var e := EncAll(0, ts, vs);
    assert e[0..|e|] == e;
    EncAllLaidOut(e, 0, ts, vs);
    if LaidOutAll(k, 0, ts, vs) && |k| == EndAll(0, ts, vs) {
      SameLayoutAll(k, e, 0, ts, vs);
      assert k == e;
    }
  }
}
