/** `gen_tag` and `check_tag` without the client puzzle, for any hash function with 32-byte
    results, and the agreement of the two sides. */
module Tag {
  import opened Bytes
  import opened Fp
  import opened Curve
  import opened Group
  import opened Twist
  import opened Ptwist

  const TAG_BYTES: nat := 28
  const SHOW_BYTES: nat := 7
  const MAX_CONTEXT: nat := 9

  type Hash = seq<uint8> -> seq<uint8>

  ghost predicate IsHash(hash: Hash) { forall m :: |hash(m)| == 32 }

  /** The multiple k of the point of x is defined: what is assumed holds and it is finite. */
  ghost predicate Defined(x: seq<uint8>, k: seq<uint8>) {
    Assumed(Lift(LeVal(x)), LiftB(LeVal(x))) && Times(LeVal(k), Lift(LeVal(x))).Pt?
  }

  lemma Exp256Large(n: nat)
    requires n >= 1
    ensures Exp256(n) > 2
  {
    if n > 1 { Exp256Large(n - 1); }
  }

  /** Generators and public keys, the globals of tag.c. */
  class TagKeys {
    var maingen: seq<uint8>
    var twistgen: seq<uint8>
    var mainpub: seq<uint8>
    var twistpub: seq<uint8>

    ghost predicate Valid()
      reads this
    {
      |maingen| == 21 && |twistgen| == 21 && |mainpub| == 21 && |twistpub| == 21
    }

    /** `tag_init` followed by `tag_load_pubkey_bytes`. */
    constructor (keybytes: seq<uint8>)
      requires |keybytes| == 42
      ensures Valid()
      ensures LeVal(maingen) == 2 && LeVal(twistgen) == 0
      ensures mainpub == keybytes[..21] && twistpub == keybytes[21..]
    {
      hide ToBytes, Exp256, LeVal;
      maingen := ToBytes(2, 21);
      twistgen := ToBytes(0, 21);
      mainpub := keybytes[..21];
      twistpub := keybytes[21..];
      ValOfBytes(2, 21);
      ValOfBytes(0, 21);
      Exp256Large(21);
    }

    /** Make a tag and a key from random bytes: the choice of the curve and the secret. */
    method GenTag(tag: array<uint8>, key: array<uint8>, context: seq<uint8>, hash: Hash, useTwist: uint8,
                  seckey: seq<uint8>)
      requires Valid() && tag.Length == 28 && key.Length == 16 && tag != key
      requires |context| <= MAX_CONTEXT && |seckey| == 21 && IsHash(hash)
      modifies tag, key
      ensures var gen := if useTwist % 2 == 1 then twistgen else maingen;
              var pub := if useTwist % 2 == 1 then twistpub else mainpub;
              Defined(gen, seckey) && Defined(pub, seckey) ==>
                var digest := hash(MulBytes(pub, seckey) + context);
                tag[..21] == MulBytes(gen, seckey) && tag[21..28] == digest[..7] && key[..] == digest[16..32]
    {
      hide Assumed, Lift, LiftB, Times, ToBytes, LeVal, OnMain;
      Fill(tag, 0xAA);
      var twist := useTwist % 2;
      PtwistPointmul(tag, if twist == 1 then twistgen else maingen, seckey);
      var sharedsec := new uint8[21 + MAX_CONTEXT];
      PtwistPointmul(sharedsec, if twist == 1 then twistpub else mainpub, seckey);
      var message := sharedsec[..21] + context;
      var digest := hash(message);
      Memmove(tag, 21, digest[..SHOW_BYTES]);
      Memmove(key, 0, digest[16..]);
    }
  }

  method Fill(a: array<uint8>, v: uint8)
    modifies a
    ensures forall i :: 0 <= i < a.Length ==> a[i] == v
  {
    var i := 0;
    while i < a.Length
      invariant 0 <= i <= a.Length && forall j :: 0 <= j < i ==> a[j] == v
    {
      a[i] := v;
      i := i + 1;
    }
  }

  /** Check a tag: 0 when it is properly formed, and then the key is set. */
  method CheckTag(key: array<uint8>, privkey: seq<uint8>, tag: seq<uint8>, context: seq<uint8>, hash: Hash)
    returns (ret: int)
    requires key.Length == 16 && |privkey| == 21 && |tag| == 28 && |context| <= MAX_CONTEXT && IsHash(hash)
    modifies key
    ensures Defined(tag[..21], privkey) ==>
              var digest := hash(MulBytes(tag[..21], privkey) + context);
              (ret == 0 <==> tag[21..28] == digest[..7]) &&
              key[..] == if ret == 0 then digest[16..32] else old(key[..])
  {
    var sharedsec := new uint8[21 + MAX_CONTEXT];
    PtwistPointmul(sharedsec, tag[..21], privkey);
    var digest := hash(sharedsec[..21] + context);
    ret := if tag[21..] != digest[..SHOW_BYTES] then 1 else 0;
    if ret == 0 {
      Memmove(key, 0, digest[16..]);
    }
  }

  /** The secret both sides hash: with the public key made from the same generator and private key
      (genkeys.c), the client's multiple of the public key and the station's multiple of the tag
      point are the same bytes. */
  lemma SharedSecret(gen: seq<uint8>, priv: seq<uint8>, sec: seq<uint8>)
    requires |gen| == 21 && |priv| == 21 && |sec| == 21
    requires Assumed(Lift(LeVal(gen)), LiftB(LeVal(gen)))
    requires Reportable(LeVal(gen), LeVal(priv)) && Reportable(LeVal(gen), LeVal(sec))
    requires Times(LeVal(sec), Lift(LeVal(MulBytes(gen, priv)))).Pt?
    ensures Times(LeVal(priv), Lift(LeVal(MulBytes(gen, sec)))).Pt?
    ensures MulBytes(MulBytes(gen, priv), sec) == MulBytes(MulBytes(gen, sec), priv)
  {
    hide Lift, LiftB, OnMain, Times, ToBytes, LeVal, Assumed;
    var x, k, s := LeVal(gen), LeVal(priv), LeVal(sec);
    LiftOfOutput(x, k);
    LiftOfOutput(x, s);
    BelowP(OutVal(x, Times(k, Lift(x))));
    BelowP(OutVal(x, Times(s, Lift(x))));
    XAgreement(x, k, s);
  }

  lemma BelowP(v: int)
    requires 0 <= v < P
    ensures LeVal(ToBytes(v, 21)) == v
  {
    hide ToBytes, Exp256, LeVal;
    Exp256Of21();
    ValOfBytes(v, 21);
  }

  lemma Exp256Of21()
    ensures Exp256(21) > P
  {
    Exp256Of7();
    Exp256Add(7, 7);
    Exp256Add(14, 7);
  }

  lemma {:induction false} Exp256Add(m: nat, n: nat)
    ensures Exp256(m + n) == Exp256(m) * Exp256(n)
  {
    if m > 0 {
      Exp256Add(m - 1, n);
      assert Exp256(m) * Exp256(n) == 256 * (Exp256(m - 1) * Exp256(n));
    }
  }

  /** One exchange: the station accepts the tag its client made and derives the client's key. */
  method Exchange(keys: TagKeys, priv: seq<uint8>, context: seq<uint8>, hash: Hash, useTwist: uint8, sec: seq<uint8>)
    returns (ret: int, clientKey: array<uint8>, stationKey: array<uint8>)
    requires keys.Valid() && |priv| == 21 && |sec| == 21 && |context| <= MAX_CONTEXT && IsHash(hash)
    requires var gen, pub := if useTwist % 2 == 1 then keys.twistgen else keys.maingen,
                             if useTwist % 2 == 1 then keys.twistpub else keys.mainpub;
             Assumed(Lift(LeVal(gen)), LiftB(LeVal(gen))) &&
             Reportable(LeVal(gen), LeVal(priv)) && Reportable(LeVal(gen), LeVal(sec)) &&
             pub == MulBytes(gen, priv) && Defined(pub, sec) &&
             Assumed(Lift(LeVal(MulBytes(gen, sec))), LiftB(LeVal(MulBytes(gen, sec))))
    ensures ret == 0 && clientKey[..] == stationKey[..]
    ensures var pub := if useTwist % 2 == 1 then keys.twistpub else keys.mainpub;
            clientKey[..] == hash(MulBytes(pub, sec) + context)[16..32]
  {
    hide Assumed, Lift, LiftB, MulBytes, Times;
    clientKey, stationKey := new uint8[16], new uint8[16];
    var tag := new uint8[TAG_BYTES];
    keys.GenTag(tag, clientKey, context, hash, useTwist, sec);
    ghost var gen := if useTwist % 2 == 1 then keys.twistgen else keys.maingen;
    SharedSecret(gen, priv, sec);
    MulBytesLength(gen, sec);
    assert tag[..][..21] == MulBytes(gen, sec);
    ret := CheckTag(stationKey, priv, tag[..], context, hash);
  }

  lemma MulBytesLength(x: seq<uint8>, k: seq<uint8>)
    requires Times(LeVal(k), Lift(LeVal(x))).Pt?
    ensures |MulBytes(x, k)| == 21
  {
    ValOfBytes(OutVal(LeVal(x), Times(LeVal(k), Lift(LeVal(x)))), 21);
  }
}
