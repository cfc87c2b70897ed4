/** The hash-based prefix-preserving anonymiser (Anon.cc), for an arbitrary keyed hash. */
module PrefixHash {
  import opened Bits
  import opened Prefix

  /** The first byte of the keyed hash of a prefix length and a padded prefix. */
  type Hash = (nat, nat) -> nat

  /** p << n. */
  function Shl(p: nat, n: nat): nat { if n == 0 then p else 2 * Shl(p, n - 1) }

  // ---- What is computed ----

  /** The hash bit for the i-bit prefix p: p is padded with a one and zeros. */
  function HashBit(h: Hash, i: nat, p: nat): (b: nat)
    requires i < 32
    ensures b <= 1
  {
    h(i + 1, Or(Shl(p, 32 - i), Shl(1, 31 - i))) % 2
  }

  /** The exclusive or of two bits. */
  function Flipped(x: nat, b: nat): (y: nat)
    ensures y <= 1
  {
    if x == b then 0 else 1
  }

  /** The image of a k-bit prefix: each bit is flipped by the hash of the bits before it. */
  function Enc(h: Hash, p: nat, k: nat): nat
    requires k <= 32
  {
    if k == 0 then 0 else 2 * Enc(h, p / 2, k - 1) + Flipped(p % 2, HashBit(h, k - 1, p / 2))
  }

  /** The inverse: earlier bits are recovered first and give the hash for the next. */
  function Dec(h: Hash, q: nat, k: nat): nat
    requires k <= 32
  {
    if k == 0 then 0 else var p := Dec(h, q / 2, k - 1); 2 * p + Flipped(q % 2, HashBit(h, k - 1, p))
  }

  lemma FlipTwice(x: nat, b: nat)
    requires x <= 1 && b <= 1
    ensures Flipped(Flipped(x, b), b) == x
  {}

  lemma EncStep(h: Hash, p: nat, k: nat)
    requires 1 <= k <= 32
    ensures Enc(h, p, k) == 2 * Enc(h, p / 2, k - 1) + Flipped(p % 2, HashBit(h, k - 1, p / 2))
    ensures Enc(h, p, k) / 2 == Enc(h, p / 2, k - 1)
    ensures Enc(h, p, k) % 2 == Flipped(p % 2, HashBit(h, k - 1, p / 2))
  {
    hide HashBit;
  }

  lemma DecStep(h: Hash, q: nat, k: nat)
    requires 1 <= k <= 32
    ensures var d := Dec(h, q / 2, k - 1);
            && Dec(h, q, k) == 2 * d + Flipped(q % 2, HashBit(h, k - 1, d))
            && Dec(h, q, k) / 2 == d && Dec(h, q, k) % 2 == Flipped(q % 2, HashBit(h, k - 1, d))
  {
    hide HashBit;
  }

  lemma ExpHalf(p: nat, k: nat)
    requires k >= 1
    ensures p / 2 < Exp2(k - 1) <==> p < Exp2(k)
  {}

  lemma {:induction false} DecEnc(h: Hash, p: nat, k: nat)
    requires k <= 32 && p < Exp2(k)
    ensures Enc(h, p, k) < Exp2(k) && Dec(h, Enc(h, p, k), k) == p
  {
    if k > 0 {
      hide HashBit, Enc, Dec, Exp2;
      var e, a, x := Enc(h, p, k), p / 2, p % 2;
      var b := HashBit(h, k - 1, a);
      ExpHalf(p, k);
      ExpHalf(e, k);
      DecEnc(h, a, k - 1);
      EncStep(h, p, k);
      DecStep(h, e, k);
      assert Dec(h, e / 2, k - 1) == a && e % 2 == Flipped(x, b);
      FlipTwice(x, b);
    }
  }

  lemma {:induction false} EncDec(h: Hash, q: nat, k: nat)
    requires k <= 32 && q < Exp2(k)
    ensures Dec(h, q, k) < Exp2(k) && Enc(h, Dec(h, q, k), k) == q
  {
    if k > 0 {
      hide HashBit, Enc, Dec, Exp2;
      var d, a, x := Dec(h, q, k), q / 2, q % 2;
      var c := Dec(h, a, k - 1);
      var b := HashBit(h, k - 1, c);
      ExpHalf(q, k);
      ExpHalf(d, k);
      EncDec(h, a, k - 1);
      DecStep(h, q, k);
      EncStep(h, d, k);
      assert d / 2 == c && d % 2 == Flipped(x, b);
      FlipTwice(x, b);
    }
  }

  lemma {:induction false} EncPrefix(h: Hash, p: nat, k: nat, n: nat)
    requires n + k <= 32
    ensures Shr(Enc(h, p, k + n), n) == Enc(h, Shr(p, n), k)
  {
    hide HashBit;
    if n > 0 {
      EncPrefix(h, p / 2, k, n - 1);
      assert Enc(h, p, k + n) / 2 == Enc(h, p / 2, k + n - 1);
    }
  }

  /** The anonymised form of an address. */
  function Image(h: Hash, x: nat): nat { Enc(h, x, 32) }

  function Preimage(h: Hash, y: nat): nat { Dec(h, y, 32) }

  /** The anonymiser permutes the 32-bit addresses, whatever the hash. */
  lemma ImageBijective(h: Hash, x: nat)
    requires x < TWO32
    ensures Image(h, x) < TWO32 && Preimage(h, Image(h, x)) == x
    ensures Preimage(h, x) < TWO32 && Image(h, Preimage(h, x)) == x
  {
    hide Enc, Dec, Exp2;
    Exp2Of32();
    DecEnc(h, x, 32);
    EncDec(h, x, 32);
  }

  /** Images share exactly as many leading bits as the addresses do. */
  lemma ImagePreservesPrefix(h: Hash, x: nat, y: nat, k: nat)
    requires x < TWO32 && y < TWO32 && k <= 32
    ensures Same(x, y, k) <==> Same(Image(h, x), Image(h, y), k)
  {
    hide Enc, Dec, Exp2, Shr;
    EncPrefix(h, x, k, 32 - k);
    EncPrefix(h, y, k, 32 - k);
    PreBound(x, k);
    PreBound(y, k);
    DecEnc(h, Pre(x, k), k);
    DecEnc(h, Pre(y, k), k);
  }

  // ---- The image bit by bit ----

  lemma {:induction false} ShlIsMul(p: nat, n: nat)
    ensures p * Exp2(n) >= 0 && Shl(p, n) == p * Exp2(n)
  {
    if n > 0 {
      ShlIsMul(p, n - 1);
      Doubled(Exp2(n - 1), p);
    }
  }

  /** Bit i of y, counted from 0 at the top, is bit i of x, changed by the last bit of the hash of
      i + 1 and of the first i bits of x followed by a one and zeros. */
  predicate BitRule(h: Hash, x: nat, y: nat, i: nat)
    requires i < 32
  {
    ExpPositive(31 - i);
    ExpPositive(32 - i);
    PaddedNat(x, i);
    var padded := x / Exp2(32 - i) * Exp2(32 - i) + Exp2(31 - i);
    y / Exp2(31 - i) % 2 == (x / Exp2(31 - i) + h(i + 1, padded)) % 2
  }

  lemma PaddedNat(x: nat, i: nat)
    requires i < 32
    ensures Exp2(32 - i) >= 1 && x / Exp2(32 - i) * Exp2(32 - i) >= 0
  {
    hide Exp2;
    ExpPositive(32 - i);
    RoundedDown(x, Exp2(32 - i));
  }

  lemma RoundedDown(x: nat, e: nat)
    requires e >= 1
    ensures x / e * e >= 0
  {
    var q := x / e;
    assert q >= 0;
  }

  lemma PaddedIs(p: nat, i: nat)
    requires i < 32
    ensures p * Exp2(32 - i) >= 0 && Or(Shl(p, 32 - i), Shl(1, 31 - i)) == p * Exp2(32 - i) + Exp2(31 - i)
  {
    ShlIsMul(p, 32 - i);
    ShlIsMul(1, 31 - i);
    ExpPositive(31 - i);
    assert Exp2(31 - i) < Exp2(32 - i);
    OrDisjoint(p, Exp2(31 - i), 32 - i);
  }

  lemma HashBitIs(h: Hash, i: nat, p: nat)
    requires i < 32
    ensures p * Exp2(32 - i) >= 0 && HashBit(h, i, p) == h(i + 1, p * Exp2(32 - i) + Exp2(31 - i)) % 2
  {
    hide Exp2, Or, Shl;
    PaddedIs(p, i);
  }

  lemma ParitySum(x: nat, v: nat)
    ensures Flipped(x % 2, v % 2) == (x + v) % 2
  {}

  lemma ImageBits(h: Hash, x: nat, i: nat)
    requires x < TWO32 && i < 32
    ensures BitRule(h, x, Image(h, x), i)
  {
    hide Enc, Exp2, Shr, Or, Shl, HashBit, BitRule;
    var p := Pre(x, i + 1);
    EncPrefix(h, x, i + 1, 31 - i);
    EncStep(h, p, i + 1);
    PreStep(x, i + 1);
    ShrIsDiv(Image(h, x), 31 - i);
    ShrIsDiv(x, 31 - i);
    ShrIsDiv(x, 32 - i);
    HashBitIs(h, i, Pre(x, i));
    RuleFrom(h, x, Image(h, x), i, Pre(x, i));
  }

  lemma RuleFrom(h: Hash, x: nat, y: nat, i: nat, p: nat)
    requires i < 32 && Exp2(31 - i) >= 1 && Exp2(32 - i) >= 1 && p == x / Exp2(32 - i) && p * Exp2(32 - i) >= 0
    requires var v := h(i + 1, p * Exp2(32 - i) + Exp2(31 - i));
             y / Exp2(31 - i) % 2 == Flipped(x / Exp2(31 - i) % 2, v % 2)
    ensures BitRule(h, x, y, i)
  {
    hide Exp2, Flipped;
    Quotient(x, Exp2(31 - i));
    ParitySum(x / Exp2(31 - i), h(i + 1, p * Exp2(32 - i) + Exp2(31 - i)));
  }

  lemma Quotient(x: nat, e: nat)
    requires e >= 1
    ensures x / e >= 0
  {}

  // ---- How it is computed ----

  /** a and b agree in their last n bits. */
  ghost predicate EqualTail(a: nat, b: nat, n: nat) {
    n > 0 ==> a % 2 == b % 2 && EqualTail(a / 2, b / 2, n - 1)
  }

  lemma {:induction false} TailRefl(a: nat, n: nat)
    ensures EqualTail(a, a, n)
  {
    if n > 0 { TailRefl(a / 2, n - 1); }
  }

  lemma {:induction false} TailShorter(a: nat, b: nat, n: nat)
    requires EqualTail(a, b, n + 1)
    ensures EqualTail(a, b, n) && Shr(a, n) % 2 == Shr(b, n) % 2
  {
    if n > 0 { TailShorter(a / 2, b / 2, n - 1); }
  }

  /** Exclusive or with b << n changes bit n and no bit below it. */
  lemma {:induction false} XorAtBit(a: nat, c: nat, b: nat, n: nat)
    requires EqualTail(a, c, n)
    ensures EqualTail(Xor(a, Shl(b, n)), c, n)
    ensures Shr(Xor(a, Shl(b, n)), n) == Xor(Shr(a, n), b)
  {
    if n > 0 {
      hide Xor;
      var e := Shl(b, n - 1);
      XorPair(a / 2, a % 2, e, 0);
      XorAtBit(a / 2, c / 2, b, n - 1);
      var x := Xor(a, 2 * e);
      assert x / 2 == Xor(a / 2, e) && x % 2 == a % 2;
    }
  }

  lemma {:induction false} AndAllOnes(x: nat, m: nat)
    requires x < Exp2(m)
    ensures Exp2(m) >= 1 && And(x, Exp2(m) - 1) == x
  {
    ExpPositive(m);
    if x > 0 {
      assert m > 0 && (Exp2(m) - 1) / 2 == Exp2(m - 1) - 1;
      AndAllOnes(x / 2, m - 1);
    }
  }

  /** Masking off the last n bits. */
  lemma {:induction false} AndHigh(x: nat, m: nat, n: nat)
    requires x < Exp2(m + n)
    ensures Exp2(n) <= Exp2(m + n) && And(x, Exp2(m + n) - Exp2(n)) == Shl(Shr(x, n), n)
  {
    if n == 0 {
      AndAllOnes(x, m);
    } else {
      AndHigh(x / 2, m, n - 1);
      AndEven(x, Exp2(m + n - 1) - Exp2(n - 1));
    }
  }

  lemma AndEven(x: nat, d: nat)
    ensures And(x, 2 * d) == 2 * And(x / 2, d)
  {
    assert (2 * d) / 2 == d && (2 * d) % 2 == 0;
  }

  /** ~(0xffffffff >> i). */
  lemma PrefixMask(i: nat)
    requires i <= 32
    ensures Shr(TWO32 - 1, i) == Exp2(32 - i) - 1 && Exp2(32 - i) <= TWO32
  {
    hide Shr, Exp2;
    Exp2Of32();
    ShrOnes(32 - i, i);
  }

  lemma {:induction false} ShrOnes(m: nat, n: nat)
    ensures 1 <= Exp2(m) <= Exp2(m + n) && Shr(Exp2(m + n) - 1, n) == Exp2(m) - 1
  {
    ExpPositive(m);
    if n > 0 {
      ShrOnes(m, n - 1);
      assert (Exp2(m + n) - 1) / 2 == Exp2(m + n - 1) - 1;
    }
  }

  class Anonymizer {
    const h: Hash
    var mapping: map<nat, nat>

    ghost predicate Valid()
      reads this
    {
      forall a :: a in mapping ==> a < TWO32 && mapping[a] == Image(h, a)
    }

    constructor (h: Hash)
      ensures Valid() && this.h == h && mapping == map[]
    {
      this.h := h;
      mapping := map[];
    }

    /** Flips the bits of the input one by one, from the first. */
    method Compute(input: nat) returns (output: nat)
      requires input < TWO32
      ensures output == Image(h, input) && output < TWO32 && forall i :: 0 <= i < 32 ==> BitRule(h, input, output, i)
    {
      hide Shr, Shl, Exp2, Xor, Or, And, Enc, HashBit, BitRule;
      output := input;
      var i := 0;
      TailRefl(input, 32);
      StartsEmpty(h, input);
      while i < 32
        invariant i <= 32 && EqualTail(output, input, 32 - i)
        invariant Pre(output, i) == Enc(h, Pre(input, i), i)
      {
        PrefixMask(i);
        var padded := Or(And(input, TWO32 - 1 - Shr(TWO32 - 1, i)), Shl(1, 31 - i));
        var bit := h(i + 1, padded) % 2;
        FlipBit(h, input, output, i, bit);
        output := Xor(output, Shl(bit, 31 - i));
        i := i + 1;
      }
      PreAll(input);
      PreAll(output);
      ImageBijective(h, input);
      forall j | 0 <= j < 32 ensures BitRule(h, input, output, j) { ImageBits(h, input, j); }
    }

    /** The cached answer, or a computed one that is cached. */
    method Anonymize(a: nat) returns (o: nat)
      requires Valid() && a < TWO32
      modifies this
      ensures Valid() && o == Image(h, a) && mapping == old(mapping)[a := o]
      ensures o < TWO32 && forall i :: 0 <= i < 32 ==> BitRule(h, a, o, i)
    {
      hide BitRule;
      ImageBijective(h, a);
      forall j | 0 <= j < 32 ensures BitRule(h, a, Image(h, a), j) { ImageBits(h, a, j); }
      if a in mapping {
        return mapping[a];
      }
      o := Compute(a);
      mapping := mapping[a := o];
    }
  }

  lemma StartsEmpty(h: Hash, x: nat)
    requires x < TWO32
    ensures Pre(x, 0) == Enc(h, Pre(x, 0), 0)
  {
    PreNone(x);
  }

  /** One round of the loop extends the finished prefix by one bit. */
  lemma FlipBit(h: Hash, x: nat, o: nat, i: nat, bit: nat)
    requires x < TWO32 && i < 32 && EqualTail(o, x, 32 - i) && Pre(o, i) == Enc(h, Pre(x, i), i)
    requires Exp2(32 - i) <= TWO32 && Shr(TWO32 - 1, i) == Exp2(32 - i) - 1
    requires bit == h(i + 1, Or(And(x, TWO32 - 1 - Shr(TWO32 - 1, i)), Shl(1, 31 - i))) % 2
    ensures var o' := Xor(o, Shl(bit, 31 - i));
            EqualTail(o', x, 31 - i) && Pre(o', i + 1) == Enc(h, Pre(x, i + 1), i + 1)
  {
    hide Shr, Shl, Exp2, Xor, Or, And, EqualTail, Enc;
    var n := 31 - i;
    Exp2Of32();
    AndHigh(x, i, n + 1);
    assert bit == HashBit(h, i, Pre(x, i));
    TailShorter(o, x, n);
    XorAtBit(o, x, bit, n);
    PreStep(o, i + 1);
    PreStep(x, i + 1);
    hide HashBit;
    NextBit(h, Pre(x, i + 1), Pre(o, i + 1), i, bit);
  }

  lemma NextBit(h: Hash, p: nat, u: nat, i: nat, bit: nat)
    requires i < 32 && bit == HashBit(h, i, p / 2) && u % 2 == p % 2 && u / 2 == Enc(h, p / 2, i) && bit <= 1
    ensures Xor(u, bit) == Enc(h, p, i + 1)
  {
    hide HashBit, Enc, Xor;
    EncStep(h, p, i + 1);
    XorPair(u / 2, u % 2, 0, bit);
    XorZero(u / 2);
  }
}
