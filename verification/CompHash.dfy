/** The composite hash of CompHash.cc: the size calculator, the encoder that writes a key through a
    moving position, and the decoder. */
module CompHash {
  import opened Octets
  import opened Bits
  import opened Bytes
  import Fp
  import opened KeyFormat
  import opened KeyLayout

  // ---- Sizes ----

  /** The offset after an item of this size that starts at the next multiple of its size. */
  function SizeAlign(offset: nat, size: nat): (end: nat)
    requires size > 0
    ensures end == offset + PadLen(offset, size) + size
  {
    RoundUp(offset, size);
    (if offset % size != 0 then offset - offset % size + size else offset) + size
  }

  lemma RoundUp(offset: nat, size: nat)
    requires size > 0
    ensures offset % size <= offset
  {
    if offset < size {
      assert offset % size == offset;
    }
  }

  /** The field value for a size calculation: none without a record or without a value. */
  function Lookup(vs: Option<Vals>): Option<Val> {
    if vs.Some? && vs.value.VCons? && vs.value.head != Missing then Some(vs.value.head) else None
  }

  function Rest(vs: Option<Vals>): Option<Vals> {
    if vs.Some? && vs.value.VCons? then Some(vs.value.tail) else None
  }

  /** The value belongs to the same kind of type. */
  predicate SameKind(t: Ty, v: Val) {
    match t
    case TRec(_) => v.VRec?
    case _ => Matches(t, v)
  }

  /** The end of a value that starts at sz, or 0 if it cannot be told or the value does not fit. */
  function SingleTypeKeySize(t: Ty, v: Option<Val>, sz: nat): nat
    decreases t
  {
    if v.Some? && !SameKind(t, v.value) then 0
    else
      match t
      case TInt => SizeAlign(sz, 8)
      case TUint => SizeAlign(sz, 8)
      case TAddr => SizeAlign(sz, 4)
      case TSubnet => SizeAlign(sz, 4) + 4
      case TDouble => SizeAlign(sz, 8)
      case TRec(ts) => KeySizeAll(ts, if v.Some? then Some(v.value.fields) else None, sz)
      case TStr => if v.None? then 0 else SizeAlign(sz, 4) + |v.value.s|
  }

  function KeySizeAll(ts: Tys, vs: Option<Vals>, sz: nat): nat
    decreases ts
  {
    if ts.TNil? then sz
    else
      var n := SingleTypeKeySize(ts.head, Lookup(vs), sz);
      if n == 0 then 0 else KeySizeAll(ts.tail, Rest(vs), n)
  }

  function LenTys(ts: Tys): nat { if ts.TNil? then 0 else 1 + LenTys(ts.tail) }

  function LenVals(vs: Vals): nat { if vs.VNil? then 0 else 1 + LenVals(vs.tail) }

  function ComputeKeySize(ts: Tys, vs: Option<Vals>): nat {
    if vs.Some? && LenVals(vs.value) != LenTys(ts) then 0 else KeySizeAll(ts, vs, 0)
  }

  // ---- Where the first and the last bytes come from ----

  /** The first item on the way through the types is not an empty record. */
  predicate LeafFirst(ts: Tys) {
    ts.TCons? && (ts.head.TRec? ==> LeafFirst(ts.head.fields))
  }

  predicate LeafLast(ts: Tys) {
    ts.TCons? && if ts.tail.TCons? then LeafLast(ts.tail) else ts.head.TRec? ==> LeafLast(ts.head.fields)
  }

  lemma BodySize(t: Ty, v: Val, sz: nat)
    requires !t.TRec? && Matches(t, v)
    ensures SingleTypeKeySize(t, Some(v), sz) == sz + |Enc(sz, t, v)| >= sz + 4
  {
    hide ToBytes, Fp.Exp256;
    Words();
    match t
    case TInt => ValOfBytes(ToWord(v.i), 8);
    case TUint => ValOfBytes(v.u, 8);
    case TAddr => ValOfBytes(v.addr, 4);
    case TSubnet =>
      ValOfBytes(v.net, 4);
      ValOfBytes(v.width, 4);
    case TDouble => ValOfBytes(v.bits, 8);
    case TStr => ValOfBytes(|v.s|, 4);
  }

  lemma HeadMatches(ts: Tys, vs: Vals, pos: nat)
    requires ts.TCons? && MatchesAll(ts, vs)
    ensures vs.VCons? && vs.head != Missing && Matches(ts.head, vs.head) && MatchesAll(ts.tail, vs.tail)
    ensures var e := Enc(pos, ts.head, vs.head); EncAll(pos, ts, vs) == e + EncAll(pos + |e|, ts.tail, vs.tail)
  {
    hide Enc;
  }

  lemma NoneMatch(ts: Tys, vs: Vals, pos: nat)
    requires ts.TNil? && MatchesAll(ts, vs)
    ensures vs.VNil? && EncAll(pos, ts, vs) == []
  {}

  lemma RecordMatches(t: Ty, v: Val, pos: nat)
    requires t.TRec? && Matches(t, v)
    ensures v.VRec? && MatchesAll(t.fields, v.fields) && Enc(pos, t, v) == EncAll(pos, t.fields, v.fields)
  {}

  /** The calculator gives the number of bytes the encoder writes. */
  lemma {:induction false} SizeExact(t: Ty, v: Val, sz: nat)
    requires Matches(t, v)
    ensures var n := SingleTypeKeySize(t, Some(v), sz);
            n == if sz > 0 || !t.TRec? || LeafFirst(t.fields) then sz + |Enc(sz, t, v)| else 0
    ensures sz > 0 || !t.TRec? || LeafFirst(t.fields) ==> SingleTypeKeySize(t, Some(v), sz) > 0
    decreases t, 1
  {
    if t.TRec? {
      SizeExactAll(t.fields, v.fields, sz);
    } else {
      BodySize(t, v, sz);
    }
  }

  lemma {:induction false} SizeExactAll(ts: Tys, vs: Vals, sz: nat)
    requires MatchesAll(ts, vs)
    ensures KeySizeAll(ts, Some(vs), sz) == if sz > 0 || LeafFirst(ts) then sz + |EncAll(sz, ts, vs)| else 0
    ensures sz > 0 || LeafFirst(ts) ==> KeySizeAll(ts, Some(vs), sz) > 0
    decreases ts, 0
  {
    hide SingleTypeKeySize, Enc, Matches, EncAll, MatchesAll;
    if ts.TCons? {
      HeadMatches(ts, vs, sz);
      SizeExact(ts.head, vs.head, sz);
      var n := SingleTypeKeySize(ts.head, Some(vs.head), sz);
      if n > 0 { SizeExactAll(ts.tail, vs.tail, n); }
    } else {
      NoneMatch(ts, vs, sz);
    }
  }

  // ---- How far the encoder gets ----

  /** Record values are of the declared record type; fields may be missing or of a wrong kind. */
  predicate Shaped(t: Ty, v: Val) { t.TRec? && v.VRec? ==> ShapedAll(t.fields, v.fields) }

  predicate ShapedAll(ts: Tys, vs: Vals) {
    if ts.TNil? then vs.VNil? else vs.VCons? && Shaped(ts.head, vs.head) && ShapedAll(ts.tail, vs.tail)
  }

  /** The position at which the encoder stops, at the end or at the first value that does not fit. */
  function Reach(t: Ty, v: Val, pos: nat): (p: nat)
    ensures p >= pos
    decreases t
  {
    if t.TRec? then if v.VRec? then ReachAll(t.fields, v.fields, pos) else pos
    else if Matches(t, v) then pos + |Enc(pos, t, v)| else pos
  }

  function ReachAll(ts: Tys, vs: Vals, pos: nat): (p: nat)
    ensures p >= pos
    decreases ts
  {
    if ts.TNil? || vs.VNil? then pos
    else
      var p := Reach(ts.head, vs.head, pos);
      if Matches(ts.head, vs.head) then ReachAll(ts.tail, vs.tail, p) else p
  }

  lemma {:induction false} ReachEnd(t: Ty, v: Val, pos: nat)
    requires Matches(t, v)
    ensures Reach(t, v, pos) == pos + |Enc(pos, t, v)|
    decreases t, 1
  {
    if t.TRec? { ReachEndAll(t.fields, v.fields, pos); }
  }

  lemma {:induction false} ReachEndAll(ts: Tys, vs: Vals, pos: nat)
    requires MatchesAll(ts, vs)
    ensures ReachAll(ts, vs, pos) == pos + |EncAll(pos, ts, vs)|
    decreases ts, 0
  {
    if ts.TCons? {
      ReachEnd(ts.head, vs.head, pos);
      ReachEndAll(ts.tail, vs.tail, Reach(ts.head, vs.head, pos));
    }
  }

  /** The size was calculated for this value, or for its type alone. */
  ghost predicate SizedFor(ov: Option<Val>, v: Val) { ov.None? || ov.value == v }

  ghost predicate SizedForAll(ovs: Option<Vals>, vs: Vals) { ovs.None? || ovs.value == vs }

  /** The encoder never gets past the calculated size. */
  lemma {:induction false} ReachBound(t: Ty, ov: Option<Val>, v: Val, pos: nat)
    requires SizedFor(ov, v) && SingleTypeKeySize(t, ov, pos) != 0
    ensures pos <= Reach(t, v, pos) <= SingleTypeKeySize(t, ov, pos)
    ensures Matches(t, v) ==> Reach(t, v, pos) == SingleTypeKeySize(t, ov, pos)
    decreases t, 1
  {
    if t.TRec? {
      var ovs := if ov.Some? then Some(ov.value.fields) else None;
      if v.VRec? {
        ReachBoundAll(t.fields, ovs, v.fields, pos);
      } else {
        ReachBoundAll(t.fields, ovs, VNil, pos);
      }
    } else if Matches(t, v) {
      BodySize(t, v, pos);
      assert SingleTypeKeySize(t, ov, pos) == SingleTypeKeySize(t, Some(v), pos);
    }
  }

  lemma {:induction false} ReachBoundAll(ts: Tys, ovs: Option<Vals>, vs: Vals, pos: nat)
    requires SizedForAll(ovs, vs) && KeySizeAll(ts, ovs, pos) != 0
    ensures pos <= ReachAll(ts, vs, pos) <= KeySizeAll(ts, ovs, pos)
    ensures MatchesAll(ts, vs) ==> ReachAll(ts, vs, pos) == KeySizeAll(ts, ovs, pos)
    decreases ts, 0
  {
    if ts.TCons? {
      var v := if vs.VCons? then vs.head else Missing;
      var tail := if vs.VCons? then vs.tail else VNil;
      var n := SingleTypeKeySize(ts.head, Lookup(ovs), pos);
      ReachBound(ts.head, Lookup(ovs), v, pos);
      hide SingleTypeKeySize, Reach, Matches, Enc;
      ReachBoundAll(ts.tail, Rest(ovs), tail, n);
    }
  }

  // ---- Writing ----

  function TySize(t: Ty): nat
    decreases t
  {
    if t.TRec? then 1 + TysSize(t.fields) else 1
  }

  function TysSize(ts: Tys): nat
    decreases ts
  {
    if ts.TNil? then 0 else TySize(ts.head) + TysSize(ts.tail)
  }

  /** Fills the gap before the next multiple of size with zeros. */
  method AlignAndPad(k: array<uint8>, kp: nat, size: nat) returns (p: nat)
    requires size > 0 && kp + PadLen(kp, size) <= k.Length
    modifies k
    ensures p == kp + PadLen(kp, size) && k[..p] == old(k[..kp]) + Zeros(PadLen(kp, size))
  {
    p := kp;
    while p % size != 0
      invariant kp <= p <= kp + PadLen(kp, size) && p + PadLen(p, size) == kp + PadLen(kp, size)
      invariant k[..p] == old(k[..kp]) + Zeros(p - kp)
      decreases kp + PadLen(kp, size) - p
    {
      NextPad(p, size);
      k[p] := 0;
      p := p + 1;
    }
  }

  lemma NextPad(p: nat, size: nat)
    requires size > 0 && p % size != 0
    ensures PadLen(p + 1, size) == PadLen(p, size) - 1
  {
    var q, r := p / size, p % size;
    assert p == size * q + r;
    if r + 1 < size {
      DivUnique(p + 1, size, q, r + 1);
    } else {
      assert size * (q + 1) == size * q + size;
      DivUnique(p + 1, size, q + 1, 0);
    }
  }

  method Put(k: array<uint8>, kp: nat, s: seq<uint8>) returns (p: nat)
    requires kp + |s| <= k.Length
    modifies k
    ensures p == kp + |s| && k[..p] == old(k[..kp]) + s
  {
    Memmove(k, kp, s);
    p := kp + |s|;
    assert k[..p] == k[..][..p];
  }

  /** The values were found to be of the right kinds when the size was calculated. */
  ghost predicate Checked(ts: Tys, vs: Vals) {
    ts.TCons? && vs.VCons? ==>
      && (vs.head != Missing ==> SameKind(ts.head, vs.head))
      && (ts.head.TRec? && vs.head.VRec? ==> Checked(ts.head.fields, vs.head.fields))
      && Checked(ts.tail, vs.tail)
  }

  lemma KindOf(t: Ty, v: Val, pos: nat)
    ensures Matches(t, v) ==> SameKind(t, v)
    ensures t.TRec? && SameKind(t, v) ==>
              && v.VRec? && (Matches(t, v) <==> MatchesAll(t.fields, v.fields))
              && Reach(t, v, pos) == ReachAll(t.fields, v.fields, pos)
              && (Matches(t, v) ==> Enc(pos, t, v) == EncAll(pos, t.fields, v.fields))
    ensures !t.TRec? && SameKind(t, v) ==>
              && Matches(t, v) && Enc(pos, t, v) == Zeros(PadLen(pos, AlignOf(t))) + Body(t, v)
              && Reach(t, v, pos) == pos + |Enc(pos, t, v)|
  {}

  lemma MissingFits(ts: Tys, v: Vals)
    requires ts.TCons? && v.VCons? && v.head == Missing
    ensures !MatchesAll(ts, v)
  {}

  /** Writes one value; a value of the wrong kind or with a missing field is refused. */
  method SingleValHash(check: bool, k: array<uint8>, kp0: nat, t: Ty, v: Val) returns (ok: bool, kp1: nat)
    requires Shaped(t, v) && v != Missing && Reach(t, v, kp0) <= k.Length
    requires !check ==> SameKind(t, v) && (t.TRec? ==> Checked(t.fields, v.fields))
    modifies k
    ensures ok == Matches(t, v)
    ensures ok ==> kp1 == kp0 + |Enc(kp0, t, v)| <= k.Length && k[..kp1] == old(k[..kp0]) + Enc(kp0, t, v)
    ensures ok ==> kp1 == End(kp0, t, v) && LaidOut(k[..kp1], kp0, t, v)
    decreases TySize(t), 0
  {
    hide Body, Matches, Enc, Reach, ShapedAll, SameKind, LaidOut, End;
    KindOf(t, v, kp0);
    if check && !SameKind(t, v) {
      return false, 0;
    }
    if t.TRec? {
      ok, kp1 := HashAll(check, k, kp0, t.fields, v.fields);
    } else {
      kp1 := AlignAndPad(k, kp0, AlignOf(t));
      kp1 := Put(k, kp1, Body(t, v));
      ok := true;
    }
    if ok { Appended(k[..kp1], old(k[..kp0]), t, v); }
  }

  lemma Appended(k: seq<uint8>, before: seq<uint8>, t: Ty, v: Val)
    requires Matches(t, v) && k == before + Enc(|before|, t, v)
    ensures LaidOut(k, |before|, t, v) && End(|before|, t, v) == |k|
  {
    hide *;
    AtEnd(before, Enc(|before|, t, v));
    EncLaidOut(k, |before|, t, v);
  }

  lemma AtEnd(a: seq<uint8>, b: seq<uint8>)
    ensures At(a + b, |a|, b)
  {}

  lemma StepAll(ts: Tys, vs: Vals, pos: nat)
    requires ts.TCons? && vs.VCons?
    ensures MatchesAll(ts, vs) <==> Matches(ts.head, vs.head) && MatchesAll(ts.tail, vs.tail)
    ensures Reach(ts.head, vs.head, pos) <= ReachAll(ts, vs, pos)
    ensures Matches(ts.head, vs.head) ==>
              var p := pos + |Enc(pos, ts.head, vs.head)|;
              p <= ReachAll(ts, vs, pos) && ReachAll(ts.tail, vs.tail, p) == ReachAll(ts, vs, pos)
    ensures MatchesAll(ts, vs) ==>
              var e := Enc(pos, ts.head, vs.head);
              EncAll(pos, ts, vs) == e + EncAll(pos + |e|, ts.tail, vs.tail)
  {
    hide Reach, Matches, Enc;
    if Matches(ts.head, vs.head) { ReachEnd(ts.head, vs.head, pos); }
  }

  lemma NothingLeft(ts: Tys, vs: Vals, pos: nat)
    requires ts.TNil? && vs.VNil?
    ensures MatchesAll(ts, vs) && EncAll(pos, ts, vs) == []
  {}

  lemma Regroup(a: seq<uint8>, b: seq<uint8>, c: seq<uint8>)
    ensures a + (b + c) == a + b + c
  {}

  /** Writes values one after the other. */
  method HashAll(check: bool, k: array<uint8>, kp0: nat, ts: Tys, vs: Vals) returns (ok: bool, kp: nat)
    requires ShapedAll(ts, vs) && ReachAll(ts, vs, kp0) <= k.Length && (!check ==> Checked(ts, vs))
    modifies k
    ensures ok == MatchesAll(ts, vs)
    ensures ok ==> kp == kp0 + |EncAll(kp0, ts, vs)| <= k.Length && k[..kp] == old(k[..kp0]) + EncAll(kp0, ts, vs)
    decreases TysSize(ts), 1
  {
    hide Enc, EncAll, Matches, MatchesAll, Reach, ReachAll, SameKind;
    var tl, vl := ts, vs;
    kp := kp0;
    ghost var done: seq<uint8> := [];
    while tl.TCons?
      invariant ShapedAll(tl, vl) && ReachAll(tl, vl, kp) <= k.Length && (!check ==> Checked(tl, vl))
      invariant MatchesAll(tl, vl) <==> MatchesAll(ts, vs)
      invariant MatchesAll(ts, vs) ==> done + EncAll(kp, tl, vl) == EncAll(kp0, ts, vs)
      invariant kp == kp0 + |done| <= k.Length && k[..kp] == old(k[..kp0]) + done
      invariant TysSize(tl) <= TysSize(ts)
      decreases tl
    {
      if vl.head == Missing {
        MissingFits(tl, vl);
        return false, 0;
      }
      ghost var at := kp;
      KindOf(tl.head, vl.head, kp);
      StepAll(tl, vl, kp);
      ok, kp := SingleValHash(check, k, kp, tl.head, vl.head);
      if !ok {
        return false, 0;
      }
      if MatchesAll(tl, vl) { Regroup(done, Enc(at, tl.head, vl.head), EncAll(kp, tl.tail, vl.tail)); }
      Regroup(old(k[..kp0]), done, Enc(at, tl.head, vl.head));
      done := done + Enc(at, tl.head, vl.head);
      tl, vl := tl.tail, vl.tail;
    }
    NothingLeft(tl, vl, kp);
    assert done + [] == done;
    ok := true;
  }

  // ---- Reading ----

  /** The next multiple of size. */
  function Align(kp: nat, size: nat): (p: nat)
    requires size > 0
    ensures p == kp + PadLen(kp, size)
  {
    RoundUp(kp, size);
    if kp % size > 0 then kp - kp % size + size else kp
  }

  ghost predicate EndsInLeaf(t: Ty) { t.TRec? ==> LeafLast(t.fields) }

  lemma {:induction false} LeafHasBytes(ts: Tys, vs: Vals, pos: nat)
    requires MatchesAll(ts, vs) && LeafLast(ts)
    ensures |EncAll(pos, ts, vs)| > 0
    decreases ts
  {
    hide Enc, EncAll, Matches, MatchesAll;
    HeadMatches(ts, vs, pos);
    var e := Enc(pos, ts.head, vs.head);
    if ts.tail.TCons? {
      LeafHasBytes(ts.tail, vs.tail, pos + |e|);
    } else if ts.head.TRec? {
      RecordMatches(ts.head, vs.head, pos);
      LeafHasBytes(ts.head.fields, vs.head.fields, pos);
    } else {
      BodySize(ts.head, vs.head, pos);
    }
  }

  function Prepend(s: seq<Val>, vs: Vals): Vals {
    if s == [] then vs else VCons(s[0], Prepend(s[1..], vs))
  }

  lemma {:induction false} PrependMore(s: seq<Val>, v: Val, vs: Vals)
    ensures Prepend(s + [v], vs) == Prepend(s, VCons(v, vs))
  {
    if s == [] {
      assert (s + [v])[1..] == [];
    } else {
      assert (s + [v])[1..] == s[1..] + [v];
      PrependMore(s[1..], v, vs);
    }
  }

  /** Reads one value of a key. Starting at or after the end of the key is an error, which happens
      exactly for values without bytes at the end. */
  method RecoverOneVal(k: seq<uint8>, kp0: nat, t: Ty, ghost v: Val) returns (ok: bool, pval: Val, kp1: nat)
    requires Matches(t, v) && k != [] && At(k, kp0, Enc(kp0, t, v))
    ensures ok <==> kp0 + |Enc(kp0, t, v)| < |k| || EndsInLeaf(t)
    ensures ok ==> pval == v && kp1 == kp0 + |Enc(kp0, t, v)|
    decreases TySize(t), 0
  {
    hide Enc, DecBody, Matches, Body, DecAll, LeafLast, EncAll;
    EncOf(t, v, kp0);
    if kp0 >= |k| {
      return false, Missing, 0;
    }
    if t.TRec? {
      var values;
      ok, values, kp1 := RecoverAll(k, kp0, t.fields, v.fields);
      pval := VRec(values);
    } else {
      var p := Align(kp0, AlignOf(t));
      AtParts(k, kp0, Zeros(PadLen(kp0, AlignOf(t))), Body(t, v));
      DecBodyOf(k, p, t, v);
      var r := DecBody(k, p, t);
      return true, r.value.0, r.value.1;
    }
  }

  lemma EncOf(t: Ty, v: Val, pos: nat)
    requires Matches(t, v)
    ensures t.TRec? ==> v.VRec? && MatchesAll(t.fields, v.fields) && Enc(pos, t, v) == EncAll(pos, t.fields, v.fields)
    ensures !t.TRec? ==> Enc(pos, t, v) == Zeros(PadLen(pos, AlignOf(t))) + Body(t, v) && |Enc(pos, t, v)| >= 4
    ensures t.TRec? && Enc(pos, t, v) == [] ==> !LeafLast(t.fields)
    ensures t.TRec? && t.fields.TNil? ==> Enc(pos, t, v) == []
  {
    if t.TRec? {
      if LeafLast(t.fields) { LeafHasBytes(t.fields, v.fields, pos); }
    } else {
      BodySize(t, v, pos);
    }
  }

  lemma LastOf(ts: Tys)
    ensures ts.TCons? && ts.tail.TCons? ==> (LeafLast(ts) <==> LeafLast(ts.tail))
    ensures ts.TCons? && ts.tail.TNil? ==> (LeafLast(ts) <==> EndsInLeaf(ts.head)) && !LeafLast(ts.tail)
    ensures ts.TNil? ==> !LeafLast(ts)
  {}

  /** Reads values one after the other. */
  method RecoverAll(k: seq<uint8>, kp0: nat, ts: Tys, ghost vs: Vals) returns (ok: bool, l: Vals, kp: nat)
    requires MatchesAll(ts, vs) && k != [] && At(k, kp0, EncAll(kp0, ts, vs))
    ensures ok <==> kp0 + |EncAll(kp0, ts, vs)| < |k| || ts.TNil? || LeafLast(ts)
    ensures ok ==> l == vs && kp == kp0 + |EncAll(kp0, ts, vs)|
    decreases TysSize(ts), 1
  {
    hide Enc, EncAll, Matches, MatchesAll, LeafLast, At;
    LastOf(ts);
    var tl, values := ts, [];
    kp := kp0;
    ghost var vl := vs;
    while tl.TCons?
      invariant MatchesAll(tl, vl) && At(k, kp, EncAll(kp, tl, vl))
      invariant kp + |EncAll(kp, tl, vl)| == kp0 + |EncAll(kp0, ts, vs)|
      invariant tl.TNil? ==> kp < |k| || ts.TNil? || LeafLast(ts)
      invariant tl.TCons? ==> (LeafLast(tl) <==> LeafLast(ts)) && ts.TCons?
      invariant Prepend(values, vl) == vs && TysSize(tl) <= TysSize(ts)
      decreases tl
    {
      HeadMatches(tl, vl, kp);
      LastOf(tl);
      ghost var e := Enc(kp, tl.head, vl.head);
      AtParts(k, kp, e, EncAll(kp + |e|, tl.tail, vl.tail));
      if LeafLast(tl.tail) { LeafHasBytes(tl.tail, vl.tail, kp + |e|); }
      var v;
      ok, v, kp := RecoverOneVal(k, kp, tl.head, vl.head);
      if !ok {
        return false, VNil, 0;
      }
      PrependMore(values, v, vl.tail);
      values := values + [v];
      tl, vl := tl.tail, vl.tail;
    }
    NoneMatch(tl, vl, kp);
    return true, Prepend(values, VNil), kp;
  }

  // ---- The hash object ----

  lemma {:induction false} MatchesLen(ts: Tys, vs: Vals)
    requires MatchesAll(ts, vs)
    ensures LenTys(ts) == LenVals(vs)
  {
    if ts.TCons? { MatchesLen(ts.tail, vs.tail); }
  }

  /** A size was found, so the first item has bytes. */
  lemma {:induction false} SizedLeafFirst(ts: Tys, ovs: Option<Vals>)
    requires KeySizeAll(ts, ovs, 0) != 0
    ensures LeafFirst(ts)
    decreases ts
  {
    if ts.TCons? && ts.head.TRec? {
      var ov := Lookup(ovs);
      SizedLeafFirst(ts.head.fields, if ov.Some? then Some(ov.value.fields) else None);
    }
  }

  /** A size was found for the values, so they are of the right kinds. */
  lemma {:induction false} SizedChecked(ts: Tys, ovs: Option<Vals>, vs: Vals, sz: nat)
    requires KeySizeAll(ts, ovs, sz) != 0 && ovs == Some(vs)
    ensures Checked(ts, vs)
    decreases ts
  {
    if ts.TCons? && vs.VCons? {
      var n := SingleTypeKeySize(ts.head, Lookup(ovs), sz);
      if ts.head.TRec? && vs.head.VRec? {
        SizedChecked(ts.head.fields, Some(vs.head.fields), vs.head.fields, sz);
      }
      SizedChecked(ts.tail, Rest(ovs), vs.tail, n);
    }
  }

  class CompositeHash {
    const types: Tys
    const size: nat
    const key: array<uint8>

    ghost predicate Valid() {
      size == ComputeKeySize(types, None) && size <= key.Length
    }

    /** A list of types that is not a single type other than a record; that case has keys of its
        own. A fixed size gets its buffer here. */
    constructor (types: Tys)
      requires types.TCons? && types.tail.TNil? ==> types.head.TRec?
      ensures Valid() && this.types == types && fresh(key)
    {
      this.types := types;
      size := ComputeKeySize(types, None);
      key := new uint8[8 * (ComputeKeySize(types, None) / 8 + 1)];
    }

    /** The key of a list of values: there is one exactly when the values match the types and the
        first item is not an empty record. What the buffer held before makes no difference. */
    method ComputeHash(vs: Vals) returns (k: Option<seq<uint8>>)
      requires Valid() && (LenVals(vs) == LenTys(types) ==> ShapedAll(types, vs))
      modifies key
      ensures k == if MatchesAll(types, vs) && LeafFirst(types) then Some(EncAll(0, types, vs)) else None
      ensures k.Some? ==> LaidOutAll(k.value, 0, types, vs) && |k.value| == EndAll(0, types, vs)
    {
      hide LaidOutAll, EndAll, KeySizeAll, MatchesAll, LeafFirst, EncAll, ReachAll, ShapedAll, Checked;
      if MatchesAll(types, vs) { MatchesLen(types, vs); }
      var buf, check := key, true;
      if size == 0 {
        var sz := ComputeKeySize(types, Some(vs));
        if MatchesAll(types, vs) { SizeExactAll(types, vs, 0); }
        if sz == 0 {
          return None;
        }
        SizedLeafFirst(types, Some(vs));
        SizedChecked(types, Some(vs), vs, 0);
        ReachBoundAll(types, Some(vs), vs, 0);
        buf, check := new uint8[8 * (sz / 8 + 1)], false;
      } else {
        SizedLeafFirst(types, None);
        ReachBoundAll(types, None, vs, 0);
      }
      if LenVals(vs) != LenTys(types) {
        return None;
      }
      var ok, kp := HashAll(check, buf, 0, types, vs);
      if !ok {
        return None;
      }
      assert buf[..kp] == EncAll(0, types, vs);
      LayoutExact(buf[..kp], types, vs);
      k := Some(buf[..kp]);
    }

    /** Reading a key that was made gives the values back, unless the last item is an empty
        record, which is reported as an over-run. */
    method RecoverVals(k: seq<uint8>, ghost vs: Vals) returns (r: Option<Vals>)
      requires MatchesAll(types, vs) && LeafFirst(types) && k == EncAll(0, types, vs)
      ensures r == if LeafLast(types) then Some(vs) else None
    {
      hide MatchesAll, EncAll, LeafLast;
      SizeExactAll(types, vs, 0);
      assert k[0..|k|] == k;
      var ok, l, kp := RecoverAll(k, 0, types, vs);
      if !ok {
        return None;
      }
      r := Some(l);
    }
  }

  /** Keys made by one object and read by it: nothing is lost, and values that give the same key
      are the same. */
  method RoundTrip(types: Tys, vs: Vals) returns (k: Option<seq<uint8>>, r: Option<Vals>)
    requires types.TCons? && types.tail.TNil? ==> types.head.TRec?
    requires LenVals(vs) == LenTys(types) ==> ShapedAll(types, vs)
    ensures k.Some? <==> MatchesAll(types, vs) && LeafFirst(types)
    ensures k.Some? ==> r == if LeafLast(types) then Some(vs) else None
    ensures k.Some? ==> forall us :: MatchesAll(types, us) && k == Some(EncAll(0, types, us)) ==> us == vs
    ensures k.Some? ==> LaidOutAll(k.value, 0, types, vs) && |k.value| == EndAll(0, types, vs)
  {
    hide MatchesAll, EncAll, LeafLast, LeafFirst, ShapedAll, LaidOutAll, EndAll;
    var h := new CompositeHash(types);
    k := h.ComputeHash(vs);
    r := None;
    if k.Some? {
      r := h.RecoverVals(k.value, vs);
      forall us | MatchesAll(types, us) && k == Some(EncAll(0, types, us)) ensures us == vs {
        KeysInjective(types, us, vs);
      }
    }
  }

  const SAMPLE_TYPES := TCons(TInt, TCons(TStr, TCons(TRec(TCons(TSubnet, TNil)), TNil)))

  const SAMPLE_VALUES :=
    VCons(VInt(-2), VCons(VStr([0x61]), VCons(VRec(VCons(VSubnet(0x0A00_0000, 8), VNil)), VNil)))

  /** The key of -2, "a" and a record with the net 10.0.0.0/8 in it. */
  method SampleKey() returns (k: Option<seq<uint8>>)
    ensures k == Some([0xFE, 0xFF, 0xFF, 0xFF, 0xFF, 0xFF, 0xFF, 0xFF,
                       1, 0, 0, 0, 0x61, 0, 0, 0, 0, 0, 0, 10, 8, 0, 0, 0])
  {
    SampleMatches();
    SampleEnc();
    hide MatchesAll, EncAll, LaidOutAll, KeyLayout.EndAll, LeafFirst, ShapedAll;
    var h := new CompositeHash(SAMPLE_TYPES);
    k := h.ComputeHash(SAMPLE_VALUES);
  }

  lemma SampleMatches()
    ensures MatchesAll(SAMPLE_TYPES, SAMPLE_VALUES) && LeafFirst(SAMPLE_TYPES) && ShapedAll(SAMPLE_TYPES, SAMPLE_VALUES)
  {}

  lemma FourBytes(v: nat, a: uint8, b: uint8, c: uint8, d: uint8)
    requires v == a as nat + 256 * (b as nat + 256 * (c as nat + 256 * d as nat))
    ensures ToBytes(v, 4) == [a, b, c, d]
  {
    var y := c as nat + 256 * d as nat;
    var x := b as nat + 256 * y;
    assert v % 256 == a as nat && v / 256 == x && x % 256 == b as nat && x / 256 == y && y % 256 == c as nat;
    assert ToBytes(v, 4) == [a] + ToBytes(x, 3);
    assert ToBytes(x, 3) == [b] + ToBytes(y, 2);
    assert ToBytes(y, 2) == [c] + ToBytes(d as nat, 1);
    assert ToBytes(d as nat, 1) == [d] + ToBytes(d as nat / 256, 0);
  }

  lemma EightBytes(v: nat, lo: nat, hi: nat)
    requires v == lo + 0x1_0000_0000 * hi && lo < 0x1_0000_0000
    ensures ToBytes(v, 8) == ToBytes(lo, 4) + ToBytes(hi, 4)
  {
    Words();
    hide ToBytes, Fp.Exp256;
    BytesSplit(lo, hi, 4, 4);
  }

  lemma SampleWords()
    ensures ToBytes(ToWord(-2), 8) == [0xFE, 0xFF, 0xFF, 0xFF] + [0xFF, 0xFF, 0xFF, 0xFF]
    ensures ToBytes(1, 4) == [1, 0, 0, 0] && ToBytes(0x0A00_0000, 4) == [0, 0, 0, 10] && ToBytes(8, 4) == [8, 0, 0, 0]
  {
    hide ToBytes;
    FourBytes(0xFFFF_FFFE, 0xFE, 0xFF, 0xFF, 0xFF);
    FourBytes(0xFFFF_FFFF, 0xFF, 0xFF, 0xFF, 0xFF);
    EightBytes(ToWord(-2), 0xFFFF_FFFE, 0xFFFF_FFFF);
    FourBytes(1, 1, 0, 0, 0);
    FourBytes(0x0A00_0000, 0, 0, 0, 10);
    FourBytes(8, 8, 0, 0, 0);
  }

  lemma SampleLeaves()
    ensures Enc(0, TInt, VInt(-2)) == [0xFE, 0xFF, 0xFF, 0xFF, 0xFF, 0xFF, 0xFF, 0xFF]
    ensures Enc(8, TStr, VStr([0x61])) == [1, 0, 0, 0, 0x61]
    ensures Enc(13, TSubnet, VSubnet(0x0A00_0000, 8)) == [0, 0, 0, 0, 0, 0, 10, 8, 0, 0, 0]
  {
    SampleWords();
    hide ToBytes, ToWord;
    assert Zeros(0) == [] && Zeros(3) == [0, 0, 0];
  }

  lemma ConsMatches(t: Ty, v: Val, ts: Tys, vs: Vals)
    requires Matches(t, v) && MatchesAll(ts, vs)
    ensures MatchesAll(TCons(t, ts), VCons(v, vs))
  {
    hide Matches;
  }

  /** A first value with the bytes e. */
  lemma EncFirst(pos: nat, t: Ty, v: Val, ts: Tys, vs: Vals, e: seq<uint8>)
    requires Matches(t, v) && MatchesAll(ts, vs) && Enc(pos, t, v) == e
    ensures MatchesAll(TCons(t, ts), VCons(v, vs))
    ensures EncAll(pos, TCons(t, ts), VCons(v, vs)) == e + EncAll(pos + |e|, ts, vs)
  {
    hide *;
    ConsMatches(t, v, ts, vs);
    HeadMatches(TCons(t, ts), VCons(v, vs), pos);
  }

  lemma SampleRecord()
    ensures var t, v := TRec(TCons(TSubnet, TNil)), VRec(VCons(VSubnet(0x0A00_0000, 8), VNil));
            Matches(t, v) && Enc(13, t, v) == [0, 0, 0, 0, 0, 0, 10, 8, 0, 0, 0]
  {
    SampleLeaves();
    EncFirst(13, TSubnet, VSubnet(0x0A00_0000, 8), TNil, VNil, [0, 0, 0, 0, 0, 0, 10, 8, 0, 0, 0]);
    NoneMatch(TNil, VNil, 24);
    hide EncAll;
    RecordMatches(TRec(TCons(TSubnet, TNil)), VRec(VCons(VSubnet(0x0A00_0000, 8), VNil)), 13);
  }

  lemma SampleMatch()
    ensures Matches(TInt, VInt(-2)) && Matches(TStr, VStr([0x61])) && MatchesAll(TNil, VNil)
    ensures SAMPLE_TYPES == TCons(TInt, TCons(TStr, TCons(TRec(TCons(TSubnet, TNil)), TNil)))
  {}

  lemma SampleEnc()
    ensures MatchesAll(SAMPLE_TYPES, SAMPLE_VALUES)
    ensures EncAll(0, SAMPLE_TYPES, SAMPLE_VALUES) ==
            [0xFE, 0xFF, 0xFF, 0xFF, 0xFF, 0xFF, 0xFF, 0xFF, 1, 0, 0, 0, 0x61, 0, 0, 0, 0, 0, 0, 10, 8, 0, 0, 0]
  {
    SampleLeaves();
    SampleRecord();
    SampleMatch();
    NoneMatch(TNil, VNil, 24);
    hide Enc, EncAll, Matches, MatchesAll;
    var t, v := TRec(TCons(TSubnet, TNil)), VRec(VCons(VSubnet(0x0A00_0000, 8), VNil));
    var a := [0xFE, 0xFF, 0xFF, 0xFF, 0xFF, 0xFF, 0xFF, 0xFF];
    var b, c := [1, 0, 0, 0, 0x61], [0, 0, 0, 0, 0, 0, 10, 8, 0, 0, 0];
    EncFirst(13, t, v, TNil, VNil, c);
    EncFirst(8, TStr, VStr([0x61]), TCons(t, TNil), VCons(v, VNil), b);
    EncFirst(0, TInt, VInt(-2), TCons(TStr, TCons(t, TNil)), VCons(VStr([0x61]), VCons(v, VNil)), a);
    SampleBytes(a, b, c);
  }

  lemma SampleBytes(a: seq<uint8>, b: seq<uint8>, c: seq<uint8>)
    requires a == [0xFE, 0xFF, 0xFF, 0xFF, 0xFF, 0xFF, 0xFF, 0xFF]
    requires b == [1, 0, 0, 0, 0x61] && c == [0, 0, 0, 0, 0, 0, 10, 8, 0, 0, 0]
    ensures a + (b + (c + [])) ==
            [0xFE, 0xFF, 0xFF, 0xFF, 0xFF, 0xFF, 0xFF, 0xFF, 1, 0, 0, 0, 0x61, 0, 0, 0, 0, 0, 0, 10, 8, 0, 0, 0]
  {}

  /** An empty record at the end gives a key that cannot be read back. */
  method TrailingEmptyRecord() returns (k: Option<seq<uint8>>, r: Option<Vals>)
    ensures k.Some? && r.None?
  {
    k, r := RoundTrip(TCons(TInt, TCons(TRec(TNil), TNil)), VCons(VInt(1), VCons(VRec(VNil), VNil)));
  }

  /** Values that begin with an empty record have no key, although they match. */
  method LeadingEmptyRecord() returns (k: Option<seq<uint8>>)
    ensures k.None? && MatchesAll(TCons(TRec(TNil), TCons(TInt, TNil)), VCons(VRec(VNil), VCons(VInt(1), VNil)))
  {
    var r;
    k, r := RoundTrip(TCons(TRec(TNil), TCons(TInt, TNil)), VCons(VRec(VNil), VCons(VInt(1), VNil)));
  }
}
