/** The composite keys of CompHash.cc as a format: typed values laid out with natural alignment
    from an 8-aligned start, gaps filled with zeros, strings behind their length. */
module KeyFormat {
  import opened Octets
  import opened Bytes
  import Fp

  type Word32 = x: int | 0 <= x < 0x1_0000_0000
  type Word64 = x: int | 0 <= x < 0x1_0000_0000_0000_0000
  type Int64 = x: int | -0x8000_0000_0000_0000 <= x < 0x8000_0000_0000_0000
  type StrVal = s: seq<uint8> | |s| < 0x8000_0000

  // ---- Types and values ----

  datatype Ty = TInt | TUint | TAddr | TSubnet | TDouble | TStr | TRec(fields: Tys)

  datatype Tys = TNil | TCons(head: Ty, tail: Tys)

  /** Missing is a record field without a value; a double is its 64 bits. */
  datatype Val =
    | VInt(i: Int64)
    | VUint(u: Word64)
    | VAddr(addr: Word32)
    | VSubnet(net: Word32, width: Word32)
    | VDouble(bits: Word64)
    | VStr(s: StrVal)
    | VRec(fields: Vals)
    | Missing

  datatype Vals = VNil | VCons(head: Val, tail: Vals)

  /** The value has this type, all the way down, and no field is missing. */
  predicate Matches(t: Ty, v: Val) {
    match t
    case TInt => v.VInt?
    case TUint => v.VUint?
    case TAddr => v.VAddr?
    case TSubnet => v.VSubnet?
    case TDouble => v.VDouble?
    case TStr => v.VStr?
    case TRec(ts) => v.VRec? && MatchesAll(ts, v.fields)
  }

  predicate MatchesAll(ts: Tys, vs: Vals) {
    match ts
    case TNil => vs.VNil?
    case TCons(t, rest) => vs.VCons? && Matches(t, vs.head) && MatchesAll(rest, vs.tail)
  }

  // ---- Machine words ----

  lemma Words()
    ensures Fp.Exp256(4) == 0x1_0000_0000 && Fp.Exp256(8) == 0x1_0000_0000_0000_0000
  {}

  function ToWord(i: Int64): Word64 { if i < 0 then (i as int + 0x1_0000_0000_0000_0000) else i }

  function FromWord(w: Word64): Int64 { if w >= 0x8000_0000_0000_0000 then (w as int - 0x1_0000_0000_0000_0000) else w }

  lemma WordSign(i: Int64)
    ensures FromWord(ToWord(i)) == i
  {}

  // ---- Layout ----

  function AlignOf(t: Ty): nat
    requires !t.TRec?
  {
    if t.TInt? || t.TUint? || t.TDouble? then 8 else 4
  }

  function PadLen(pos: nat, a: nat): nat
    requires a > 0
  {
    if pos % a == 0 then 0 else a - pos % a
  }

  function Zeros(n: nat): (z: seq<uint8>)
    ensures |z| == n
  {
    seq(n, i => 0)
  }

  function Body(t: Ty, v: Val): seq<uint8>
    requires !t.TRec? && Matches(t, v)
  {
    match t
    case TInt => ToBytes(ToWord(v.i), 8)
    case TUint => ToBytes(v.u, 8)
    case TAddr => ToBytes(v.addr, 4)
    case TSubnet => ToBytes(v.net, 4) + ToBytes(v.width, 4)
    case TDouble => ToBytes(v.bits, 8)
    case TStr => ToBytes(|v.s|, 4) + v.s
  }

  /** The bytes of a value that starts at pos. */
  function Enc(pos: nat, t: Ty, v: Val): seq<uint8>
    requires Matches(t, v)
    decreases t
  {
    if t.TRec? then EncAll(pos, t.fields, v.fields)
    else Zeros(PadLen(pos, AlignOf(t))) + Body(t, v)
  }

  function EncAll(pos: nat, ts: Tys, vs: Vals): seq<uint8>
    requires MatchesAll(ts, vs)
    decreases ts
  {
    if ts.TNil? then []
    else var e := Enc(pos, ts.head, vs.head); e + EncAll(pos + |e|, ts.tail, vs.tail)
  }

  // ---- Reading back ----

  /** A value read at pos of s, and the position after it; None if s is too short. */
  function Dec(s: seq<uint8>, pos: nat, t: Ty): Option<(Val, nat)>
    decreases t
  {
    if t.TRec? then
      var r := DecAll(s, pos, t.fields);
      if r.None? then None else Some((VRec(r.value.0), r.value.1))
    else DecBody(s, pos + PadLen(pos, AlignOf(t)), t)
  }

  function DecBody(s: seq<uint8>, p: nat, t: Ty): Option<(Val, nat)>
    requires !t.TRec?
  {
    if AlignOf(t) == 8 then
      if p + 8 > |s| then None
      else
        LeValBound(s[p..p + 8]);
        Words();
        var w: Word64 := LeVal(s[p..p + 8]);
        Some((if t.TInt? then VInt(FromWord(w)) else if t.TUint? then VUint(w) else VDouble(w), p + 8))
    else if p + 4 > |s| then None
    else
      LeValBound(s[p..p + 4]);
      Words();
      var w: Word32 := LeVal(s[p..p + 4]);
      if t.TAddr? then Some((VAddr(w), p + 4))
      else if t.TSubnet? then
        if p + 8 > |s| then None
        else LeValBound(s[p + 4..p + 8]); Some((VSubnet(w, LeVal(s[p + 4..p + 8])), p + 8))
      else if w < 0x8000_0000 && p + 4 + w <= |s| then Some((VStr(s[p + 4..p + 4 + w]), p + 4 + w)) else None
  }

  function DecAll(s: seq<uint8>, pos: nat, ts: Tys): Option<(Vals, nat)>
    decreases ts
  {
    if ts.TNil? then Some((VNil, pos))
    else
      var r := Dec(s, pos, ts.head);
      if r.None? then None
      else
        var q := DecAll(s, r.value.1, ts.tail);
        if q.None? then None else Some((VCons(r.value.0, q.value.0), q.value.1))
  }

  /** s holds e from pos on. */
  predicate At(s: seq<uint8>, pos: nat, e: seq<uint8>) { pos + |e| <= |s| && s[pos..pos + |e|] == e }

  lemma AtParts(s: seq<uint8>, pos: nat, a: seq<uint8>, b: seq<uint8>)
    requires At(s, pos, a + b)
    ensures At(s, pos, a) && At(s, pos + |a|, b)
  {
    var e := a + b;
    assert s[pos..pos + |a|] == e[..|a|];
    assert s[pos + |a|..pos + |e|] == e[|a|..];
  }

  lemma DecBodyOf(s: seq<uint8>, p: nat, t: Ty, v: Val)
    requires !t.TRec? && Matches(t, v) && At(s, p, Body(t, v))
    ensures DecBody(s, p, t) == Some((v, p + |Body(t, v)|))
  {
    hide ToBytes, LeVal, Fp.Exp256;
    Words();
    match t
    case TInt => ValOfBytes(ToWord(v.i), 8); WordSign(v.i);
    case TUint => ValOfBytes(v.u, 8);
    case TAddr => ValOfBytes(v.addr, 4);
    case TSubnet =>
      ValOfBytes(v.net, 4);
      ValOfBytes(v.width, 4);
      AtParts(s, p, ToBytes(v.net, 4), ToBytes(v.width, 4));
    case TDouble => ValOfBytes(v.bits, 8);
    case TStr =>
      ValOfBytes(|v.s|, 4);
      AtParts(s, p, ToBytes(|v.s|, 4), v.s);
  }

  /** Reading undoes writing, wherever the bytes stand. */
  lemma {:induction false} DecEnc(s: seq<uint8>, pos: nat, t: Ty, v: Val)
    requires Matches(t, v) && At(s, pos, Enc(pos, t, v))
    ensures Dec(s, pos, t) == Some((v, pos + |Enc(pos, t, v)|))
    decreases t, 1
  {
    hide Body, DecBody;
    if t.TRec? {
      DecAllEnc(s, pos, t.fields, v.fields);
    } else {
      AtParts(s, pos, Zeros(PadLen(pos, AlignOf(t))), Body(t, v));
      DecBodyOf(s, pos + PadLen(pos, AlignOf(t)), t, v);
    }
  }

  lemma {:induction false} DecAllEnc(s: seq<uint8>, pos: nat, ts: Tys, vs: Vals)
    requires MatchesAll(ts, vs) && At(s, pos, EncAll(pos, ts, vs))
    ensures DecAll(s, pos, ts) == Some((vs, pos + |EncAll(pos, ts, vs)|))
    decreases ts, 0
  {
    hide Enc, Dec, At, Matches;
    if ts.TCons? {
      var e := Enc(pos, ts.head, vs.head);
      AtParts(s, pos, e, EncAll(pos + |e|, ts.tail, vs.tail));
      DecEnc(s, pos, ts.head, vs.head);
      DecAllEnc(s, pos + |e|, ts.tail, vs.tail);
    }
  }

  /** Equal keys mean equal values. */
  lemma KeysInjective(ts: Tys, us: Vals, vs: Vals)
    requires MatchesAll(ts, us) && MatchesAll(ts, vs) && EncAll(0, ts, us) == EncAll(0, ts, vs)
    ensures us == vs
  {
    hide EncAll, DecAll, MatchesAll;
    var k := EncAll(0, ts, us);
    assert k[0..|k|] == k;
    DecAllEnc(k, 0, ts, us);
    DecAllEnc(k, 0, ts, vs);
  }
}
