/** The prefix tree of the A50 address anonymiser (Anon.cc), as a value. */
module PrefixTree {
  import opened Bits
  import opened Prefix

  // ---- New outputs ----

  /** The output for an address that leaves the old one at bit w: the first w - 1 bits stay,
      bit w is flipped, the rest comes from a random word. */
  function MakeOutput(old_: nat, w: nat, rnd: nat): (o: nat)
    requires 1 <= w <= 32 && old_ < TWO32 && rnd < TWO32
    ensures o < TWO32 && !Same(o, old_, w) && Same(o, old_, w - 1)
    ensures NewOutput(old_, w, rnd, o)
  {
    MakeOutputPrefix(old_, w, rnd);
    OneBitApart(RawOutput(old_, w, rnd), old_, w);
    OutputExact(old_, w, rnd);
    RawOutput(old_, w, rnd)
  }

  /** o is the first w bits of the old output with the last of them flipped, followed by the 31-bit
      random number moved down by w. */
  predicate NewOutput(old_: nat, w: nat, rnd: nat, o: nat)
    requires w <= 32
  {
    ExpPositive(w);
    ExpPositive(32 - w);
    var e := Exp2(32 - w);
    && o / e == (if old_ / e % 2 == 0 then old_ / e + 1 else old_ / e - 1)
    && o % e == rnd % 0x8000_0000 / Exp2(w)
  }

  function RawOutput(old_: nat, w: nat, rnd: nat): nat
    requires 1 <= w <= 32
  {
    if w == 32 then Xor(old_, 1)
    else Or(Xor(Shr(old_, 32 - w), 1) * Exp2(32 - w), Shr(And(rnd, 0x7FFF_FFFF), w))
  }

  lemma RandomTail(w: nat, rnd: nat)
    requires 1 <= w < 32
    ensures Shr(And(rnd, 0x7FFF_FFFF), w) < Exp2(31 - w)
  {
    hide And, Shr;
    AndBound(rnd, 0x7FFF_FFFF);
    Exp2Of32();
    assert Exp2(32) == 2 * Exp2(31);
    ShrBound(And(rnd, 0x7FFF_FFFF), 31 - w, w);
  }

  lemma MakeOutputPrefix(old_: nat, w: nat, rnd: nat)
    requires 1 <= w <= 32 && old_ < TWO32
    ensures RawOutput(old_, w, rnd) < TWO32
    ensures Pre(RawOutput(old_, w, rnd), w) == Flip(Pre(old_, w))
  {
    PreBound(old_, w);
    FlipBound(Pre(old_, w), w);
    XorOne(Pre(old_, w));
    Exp2Of32();
    if w == 32 {
      PreAll(old_);
      PreAll(Xor(old_, 1));
    } else {
      var k, y, n := Flip(Pre(old_, w)), Shr(And(rnd, 0x7FFF_FFFF), w), 32 - w;
      RandomTail(w, rnd);
      assert Exp2(n) == 2 * Exp2(n - 1);
      hide Xor, And, Or, Shr, Exp2;
      OrDisjoint(k, y, n);
      ShrJoin(k, y, n);
      JoinBound(k, y, w, n);
    }
  }

  lemma OutputExact(old_: nat, w: nat, rnd: nat)
    requires 1 <= w <= 32 && old_ < TWO32
    ensures NewOutput(old_, w, rnd, RawOutput(old_, w, rnd))
  {
    var e: nat := Exp2(32 - w);
    hide Xor, And, Or, Shr, Exp2;
    if w == 32 {
      Exp2Of32();
      XorOne(old_);
      ExpOfZero();
      SmallDiv(rnd % 0x8000_0000, TWO32);
    } else {
      var k, y := Xor(Shr(old_, 32 - w), 1), Shr(And(rnd, 0x7FFF_FFFF), w);
      XorOne(Shr(old_, 32 - w));
      ShrIsDiv(old_, 32 - w);
      ShrIsDiv(And(rnd, 0x7FFF_FFFF), w);
      Exp2Of31();
      AndIsMod(rnd, 31);
      RandomTail(w, rnd);
      ExpTwice(31 - w);
      OrDisjoint(k, y, 32 - w);
      Joined(k * e + y, e, k, y);
    }
  }

  lemma Joined(o: int, e: int, k: int, y: int)
    requires e >= 1 && o == k * e + y && 0 <= y < e
    ensures o / e == k && o % e == y
  {
    DivUnique(o, e, k, y);
    assert o == e * (o / e) + o % e;
  }

  lemma ExpOfZero()
    ensures Exp2(0) == 1
  {}

  lemma Exp2Of31()
    ensures Exp2(31) == 0x8000_0000
  {
    Exp2Of32();
    assert Exp2(32) == 2 * Exp2(31);
  }

  lemma ExpTwice(n: nat)
    ensures Exp2(n) <= Exp2(n + 1)
  {}

  lemma SmallDiv(x: nat, m: nat)
    requires x < m
    ensures x / m == 0
  {}

  lemma OneBitApart(a: nat, b: nat, w: nat)
    requires 1 <= w <= 32 && Pre(a, w) == Flip(Pre(b, w))
    ensures !Same(a, b, w) && Same(a, b, w - 1)
  {
    hide Pre;
    PreStep(a, w);
    PreStep(b, w);
  }

  /** The random word is masked to 31 bits before the shift by w, so the bit after the flipped one
      is always 0, although the comment beside it calls the remaining bits random. */
  lemma BitAfterFlipIsZero(old_: nat, w: nat, rnd: nat)
    requires 1 <= w < 32 && old_ < TWO32 && rnd < TWO32
    ensures Pre(MakeOutput(old_, w, rnd), w + 1) % 2 == 0
  {
    hide Xor, And, Or, Shr, Exp2;
    var k, y := Xor(Shr(old_, 32 - w), 1), Shr(And(rnd, 0x7FFF_FFFF), w);
    RandomTail(w, rnd);
    LowHalf(k, y, 31 - w);
  }

  lemma LowHalf(k: nat, y: nat, n: nat)
    requires y < Exp2(n)
    ensures k * Exp2(n + 1) >= 0 && Shr(Or(k * Exp2(n + 1), y), n) == 2 * k
  {
    assert Exp2(n + 1) == 2 * Exp2(n);
    MoveTwo(k, Exp2(n));
    hide Or, Shr, Exp2;
    OrDisjoint(k, y, n + 1);
    ShrJoin(2 * k, y, n);
  }

  lemma MoveTwo(k: int, e: int)
    ensures k * (2 * e) == (2 * k) * e
  {}

  // ---- The tree ----

  /** A node as the source lays it out. */
  class Node {
    var input: nat
    var output: nat
    var child0: Node?
    var child1: Node?

    constructor ()
      ensures input == 0 && output == 0 && child0 == null && child1 == null
    {
      input, output, child0, child1 := 0, 0, null, null;
    }

    ghost function Contents(): Cell
      reads this
    {
      Cell(input, output, child0, child1)
    }
  }

  /** The contents of one node. */
  datatype Cell = Cell(input: nat, output: nat, child0: Node?, child1: Node?)

  /** A fork at bit s holds the addresses whose bit s is 0 on the left and those whose bit s is 1
      on the right; they agree before bit s. */
  datatype Tree =
    | Leaf(id: Node, input: nat, output: nat)
    | Fork(id: Node, input: nat, output: nat, s: nat, l: Tree, r: Tree)

  ghost function Pairs(t: Tree): set<(nat, nat)> {
    match t
    case Leaf(_, i, o) => {(i, o)}
    case Fork(_, _, _, _, l, r) => Pairs(l) + Pairs(r)
  }

  ghost predicate Agree(t: Tree, k: nat, a: nat, b: nat)
    requires k <= 32
  {
    forall p :: p in Pairs(t) ==> Pre(p.0, k) == a && Pre(p.1, k) == b
  }

  ghost predicate TreeOk(t: Tree) {
    t.input < TWO32 && t.output < TWO32 &&
    match t
    case Leaf(_, _, _) => true
    case Fork(_, i, o, s, l, r) =>
      && 1 <= s <= 32 && Pre(i, s) % 2 == 1
      && TreeOk(l) && TreeOk(r)
      && (i, o) in Pairs(r)
      && Agree(r, s, Pre(i, s), Pre(o, s))
      && Agree(l, s, Flip(Pre(i, s)), Flip(Pre(o, s)))
  }

  /** The pairs keep common prefixes exactly. */
  ghost predicate PrefixPreserving(m: set<(nat, nat)>) {
    forall p, q, k: nat :: p in m && q in m && k <= 32 ==> KeepsPrefix(p, q, k)
  }

  ghost predicate KeepsPrefix(p: (nat, nat), q: (nat, nat), k: nat)
    requires k <= 32
  {
    Same(p.0, q.0, k) <==> Same(p.1, q.1, k)
  }

  /** What the shape of the tree is for. */
  lemma {:induction false} TreePreserves(t: Tree)
    requires TreeOk(t)
    ensures PrefixPreserving(Pairs(t))
  {
    if t.Fork? {
      TreePreserves(t.l);
      TreePreserves(t.r);
      forall p, q, k: nat | p in Pairs(t) && q in Pairs(t) && k <= 32
        ensures KeepsPrefix(p, q, k)
      {
        if p in Pairs(t.l) && q in Pairs(t.r) {
          AcrossFork(t, p, q, k);
        } else if q in Pairs(t.l) && p in Pairs(t.r) {
          AcrossFork(t, q, p, k);
        }
      }
    }
  }

  lemma AcrossFork(t: Tree, p: (nat, nat), q: (nat, nat), k: nat)
    requires TreeOk(t) && t.Fork? && p in Pairs(t.l) && q in Pairs(t.r) && k <= 32
    ensures KeepsPrefix(p, q, k)
  {
    hide Pre;
    OneBitApart(p.0, q.0, t.s);
    OneBitApart(p.1, q.1, t.s);
    SplitAt(p.0, q.0, t.s, k);
    SplitAt(p.1, q.1, t.s, k);
  }

  lemma {:induction false} OwnPair(t: Tree)
    requires TreeOk(t)
    ensures (t.input, t.output) in Pairs(t)
  {}

  // ---- Searching and inserting ----

  /** The search for a leaves the tree at this node. */
  ghost predicate Stops(t: Tree, a: nat)
    requires a < TWO32 && t.input < TWO32
  {
    t.input == a || t.Leaf? || FirstDiff(a, t.input) < t.s
  }

  ghost function Stop(t: Tree, a: nat): (u: Tree)
    requires TreeOk(t) && a < TWO32
    ensures u.input < TWO32 && u.output < TWO32 && Stops(u, a)
  {
    if Stops(t, a) then t
    else if Pre(a, t.s) % 2 == 1 then Stop(t.r, a)
    else Stop(t.l, a)
  }

  /** Two nodes d0 and d1 take the place of u's children: the new address and the old contents. */
  ghost function Peer(u: Tree, a: nat, o: nat, d0: Node, d1: Node): Tree
    requires u.input < TWO32 && a < TWO32 && a != u.input
  {
    var w := FirstDiff(a, u.input);
    if Pre(a, w) % 2 == 1 then Fork(u.id, a, o, w, u.(id := d0), Leaf(d1, a, o))
    else Fork(u.id, u.input, u.output, w, Leaf(d0, a, o), u.(id := d1))
  }

  ghost function Insert(t: Tree, a: nat, o: nat, d0: Node, d1: Node): Tree
    requires TreeOk(t) && a < TWO32 && Stop(t, a).input != a
  {
    if Stops(t, a) then Peer(t, a, o, d0, d1)
    else if Pre(a, t.s) % 2 == 1 then t.(r := Insert(t.r, a, o, d0, d1))
    else t.(l := Insert(t.l, a, o, d0, d1))
  }

  /** An output that leaves u's output at the bit where a leaves u's input. */
  ghost predicate Branches(u: Tree, a: nat, o: nat)
    requires u.input < TWO32 && a < TWO32 && a != u.input
  {
    var w := FirstDiff(a, u.input);
    o < TWO32 && !Same(o, u.output, w) && Same(o, u.output, w - 1)
  }

  lemma {:induction false} StopOk(t: Tree, a: nat)
    requires TreeOk(t) && a < TWO32
    ensures TreeOk(Stop(t, a)) && Pairs(Stop(t, a)) <= Pairs(t)
  {
    if !Stops(t, a) {
      if Pre(a, t.s) % 2 == 1 { StopOk(t.r, a); } else { StopOk(t.l, a); }
    }
  }

  /** A search that stops early stops above every bit in which the subtree's addresses differ. */
  lemma AgreeAtStop(u: Tree, a: nat, w: nat)
    requires TreeOk(u) && w <= 32 && (u.Fork? ==> w < u.s)
    ensures Agree(u, w, Pre(u.input, w), Pre(u.output, w))
  {
    if u.Fork? {
      forall p | p in Pairs(u)
        ensures Pre(p.0, w) == Pre(u.input, w) && Pre(p.1, w) == Pre(u.output, w)
      {
        hide Pre;
        AgreeBelow(p.0, u.input, u.s, w);
        AgreeBelow(p.1, u.output, u.s, w);
      }
    }
  }

  lemma AgreeBelow(x: nat, y: nat, s: nat, w: nat)
    requires w < s <= 32 && (Pre(x, s) == Pre(y, s) || Pre(x, s) == Flip(Pre(y, s)))
    ensures Same(x, y, w)
  {
    hide Pre;
    PreStep(x, s);
    PreStep(y, s);
    SameShorter(x, y, w, s - 1);
  }

  /** Two numbers that differ only in the last bit. */
  lemma DiffersInBit(x: nat, y: nat, w: nat)
    requires 1 <= w <= 32 && !Same(x, y, w) && Same(x, y, w - 1)
    ensures Pre(x, w) == Flip(Pre(y, w)) && Pre(y, w) == Flip(Pre(x, w))
  {
    hide Pre;
    PreStep(x, w);
    PreStep(y, w);
  }

  lemma PeerOk(u: Tree, a: nat, o: nat, d0: Node, d1: Node)
    requires TreeOk(u) && a < TWO32 && Stops(u, a) && u.input != a && Branches(u, a, o)
    ensures TreeOk(Peer(u, a, o, d0, d1))
    ensures Pairs(Peer(u, a, o, d0, d1)) == Pairs(u) + {(a, o)}
  {
    hide Pre, FirstDiff;
    var w := FirstDiff(a, u.input);
    AgreeAtStop(u, a, w);
    DiffersInBit(a, u.input, w);
    DiffersInBit(o, u.output, w);
    Renamed(u, d0);
    Renamed(u, d1);
    OwnPair(u);
  }

  lemma Renamed(u: Tree, d: Node)
    requires TreeOk(u)
    ensures TreeOk(u.(id := d)) && Pairs(u.(id := d)) == Pairs(u)
  {}

  lemma {:induction false} InsertOk(t: Tree, a: nat, o: nat, d0: Node, d1: Node)
    requires TreeOk(t) && a < TWO32 && Stop(t, a).input != a
    requires Branches(Stop(t, a), a, o)
    ensures TreeOk(Insert(t, a, o, d0, d1))
    ensures Pairs(Insert(t, a, o, d0, d1)) == Pairs(t) + {(a, o)}
    ensures Insert(t, a, o, d0, d1).id == t.id
  {
    hide FirstDiff, Pre, Branches;
    if Stops(t, a) {
      PeerOk(t, a, o, d0, d1);
    } else {
      FitsSide(t, a, o);
      if Pre(a, t.s) % 2 == 1 {
        InsertOk(t.r, a, o, d0, d1);
        RightOk(t, Insert(t.r, a, o, d0, d1), (a, o));
      } else {
        InsertOk(t.l, a, o, d0, d1);
        LeftOk(t, Insert(t.l, a, o, d0, d1), (a, o));
      }
    }
  }

  lemma RightOk(t: Tree, c: Tree, p: (nat, nat))
    requires TreeOk(t) && t.Fork? && TreeOk(c) && Pairs(c) == Pairs(t.r) + {p}
    requires Pre(p.0, t.s) == Pre(t.input, t.s) && Pre(p.1, t.s) == Pre(t.output, t.s)
    ensures TreeOk(t.(r := c)) && Pairs(t.(r := c)) == Pairs(t) + {p}
  {
    hide Pre;
  }

  lemma LeftOk(t: Tree, c: Tree, p: (nat, nat))
    requires TreeOk(t) && t.Fork? && TreeOk(c) && Pairs(c) == Pairs(t.l) + {p}
    requires Pre(p.0, t.s) == Flip(Pre(t.input, t.s)) && Pre(p.1, t.s) == Flip(Pre(t.output, t.s))
    ensures TreeOk(t.(l := c)) && Pairs(t.(l := c)) == Pairs(t) + {p}
  {
    hide Pre;
  }

  lemma SideOf(t: Tree, a: nat)
    requires TreeOk(t) && a < TWO32 && !Stops(t, a)
    ensures Pre(a, t.s) == if Pre(a, t.s) % 2 == 1 then Pre(t.input, t.s) else Flip(Pre(t.input, t.s))
  {
    hide Pre, FirstDiff;
    var s := t.s;
    SameShorter(a, t.input, s - 1, FirstDiff(a, t.input) - 1);
    PreStep(a, s);
    PreStep(t.input, s);
  }

  /** A pair inserted below t agrees with the side of t it goes to. */
  lemma FitsSide(t: Tree, a: nat, o: nat)
    requires TreeOk(t) && a < TWO32 && !Stops(t, a) && Stop(t, a).input != a
    requires Branches(Stop(t, a), a, o)
    ensures if Pre(a, t.s) % 2 == 1 then Pre(a, t.s) == Pre(t.input, t.s) && Pre(o, t.s) == Pre(t.output, t.s)
            else Pre(a, t.s) == Flip(Pre(t.input, t.s)) && Pre(o, t.s) == Flip(Pre(t.output, t.s))
  {
    hide Pre, FirstDiff;
    var u := Stop(t, a);
    SideOf(t, a);
    SidePair(t, a);
    FollowsStop(u, a, o, t.s);
  }

  /** The pair at which the search ends agrees with the side that the search takes at t. */
  lemma SidePair(t: Tree, a: nat)
    requires TreeOk(t) && a < TWO32 && !Stops(t, a)
    ensures var u, s := Stop(t, a), t.s;
            if Pre(a, s) % 2 == 1 then Pre(u.input, s) == Pre(t.input, s) && Pre(u.output, s) == Pre(t.output, s)
            else Pre(u.input, s) == Flip(Pre(t.input, s)) && Pre(u.output, s) == Flip(Pre(t.output, s))
  {
    hide Pre, FirstDiff;
    var c := if Pre(a, t.s) % 2 == 1 then t.r else t.l;
    StopOk(c, a);
    OwnPair(Stop(c, a));
  }

  /** An output that branches off the stop's output keeps what a shares with the stop's input. */
  lemma FollowsStop(u: Tree, a: nat, o: nat, s: nat)
    requires u.input < TWO32 && a < TWO32 && a != u.input && Branches(u, a, o) && s <= 32 && Same(a, u.input, s)
    ensures Same(o, u.output, s)
  {
    hide Pre, FirstDiff;
    var w := FirstDiff(a, u.input);
    SplitAt(a, u.input, w, s);
    SameShorter(o, u.output, s, w - 1);
  }

  // ---- Where a new answer comes from ----

  /** p is one of the pairs of m whose address shares most leading bits with a, which is not in m. */
  ghost predicate Nearest(m: set<(nat, nat)>, a: nat, p: (nat, nat))
    requires a < TWO32
  {
    p in m && p.0 < TWO32 && p.0 != a &&
    forall q :: q in m ==> q.0 < TWO32 && q.0 != a && FirstDiff(a, q.0) <= FirstDiff(a, p.0)
  }

  /** o is the answer for the new address a: the random word itself if there are no answers yet, else
      it follows the answer of a nearest address, leaves it where the addresses differ, and goes on
      with the random word. */
  ghost predicate NewAnswer(m: set<(nat, nat)>, a: nat, rnd: nat, o: nat)
    requires a < TWO32
  {
    && (m == {} ==> o == rnd)
    && forall p :: Nearest(m, a, p) ==> NewOutput(p.1, FirstDiff(a, p.0), rnd, o)
  }

  /** Two addresses that leave a at bits v and w. */
  lemma Apart(a: nat, b: nat, c: nat, s: nat)
    requires a < TWO32 && b < TWO32 && c < TWO32 && a != b && 1 <= s <= FirstDiff(a, b)
    requires Same(b, c, s) || (Same(a, b, s) && !Same(a, c, s) && Same(a, c, s - 1))
    ensures s < FirstDiff(a, b) && Same(b, c, s) ==> Same(a, c, s)
    ensures s == FirstDiff(a, b) && Same(b, c, s) ==> a != c && FirstDiff(a, c) == s
    ensures Same(a, b, s) && !Same(a, c, s) && Same(a, c, s - 1) ==>
              a != c && FirstDiff(a, c) == s < FirstDiff(a, b)
  {
    hide Pre, FirstDiff;
    var w := FirstDiff(a, b);
    if Same(b, c, s) {
      SameShorter(b, c, s - 1, s);
      if s == w { FirstDiffUnique(a, c, s); } else { SameShorter(a, b, s, w - 1); }
    }
    if Same(a, b, s) && !Same(a, c, s) && Same(a, c, s - 1) {
      FirstDiffUnique(a, c, s);
      SplitAt(a, b, w, s);
    }
  }

  lemma {:induction false} PairsBound(t: Tree)
    requires TreeOk(t)
    ensures forall p :: p in Pairs(t) ==> p.0 < TWO32 && p.1 < TWO32
  {
    if t.Fork? {
      PairsBound(t.l);
      PairsBound(t.r);
    }
  }

  /** No address of the tree shares more bits with a than the one where the search ends. */
  lemma {:induction false} StopNearest(t: Tree, a: nat, q: (nat, nat))
    requires TreeOk(t) && a < TWO32 && Stop(t, a).input != a && q in Pairs(t)
    ensures q.0 < TWO32 && q.0 != a && FirstDiff(a, q.0) <= FirstDiff(a, Stop(t, a).input)
  {
    hide Pre, FirstDiff;
    PairsBound(t);
    if Stops(t, a) {
      if t.Fork? {
        var w := FirstDiff(a, t.input);
        AgreeAtStop(t, a, w);
        Apart(a, t.input, q.0, w);
      }
    } else {
      var one := Pre(a, t.s) % 2 == 1;
      if q in Pairs(if one then t.r else t.l) {
        StopNearest(if one then t.r else t.l, a, q);
      } else {
        OtherSide(t, a, q);
      }
    }
  }

  /** An address on the side that the search does not take. */
  lemma OtherSide(t: Tree, a: nat, q: (nat, nat))
    requires TreeOk(t) && a < TWO32 && !Stops(t, a) && Stop(t, a).input != a
    requires q in Pairs(if Pre(a, t.s) % 2 == 1 then t.l else t.r) && q.0 < TWO32
    ensures q.0 != a && FirstDiff(a, q.0) < FirstDiff(a, Stop(t, a).input)
  {
    hide Pre, FirstDiff;
    var u, s := Stop(t, a), t.s;
    SideOf(t, a);
    SidePair(t, a);
    assert Same(a, u.input, s);
    assert Pre(q.0, s) == Flip(Pre(a, s));
    OneBitApart(q.0, a, s);
    SplitAt(a, u.input, FirstDiff(a, u.input), s);
    Apart(a, u.input, q.0, s);
  }

  /** The output made at the end of the search is the answer for the new address. */
  lemma NewFromStop(t: Tree, a: nat, rnd: nat, o: nat)
    requires TreeOk(t) && a < TWO32 && Stop(t, a).input != a
    requires NewOutput(Stop(t, a).output, FirstDiff(a, Stop(t, a).input), rnd, o)
    ensures NewAnswer(Pairs(t), a, rnd, o) && forall p :: p in Pairs(t) ==> p.0 != a
  {
    hide Pre, FirstDiff, Stop, Pairs, NewOutput;
    var u := Stop(t, a);
    StopPair(t, a);
    forall p | p in Pairs(t) ensures p.0 != a { StopNearest(t, a, p); }
    forall p | Nearest(Pairs(t), a, p)
      ensures NewOutput(p.1, FirstDiff(a, p.0), rnd, o)
    {
      StopNearest(t, a, p);
      var w := FirstDiff(a, p.0);
      assert w == FirstDiff(a, u.input);
      DiffersInBit(a, p.0, w);
      DiffersInBit(a, u.input, w);
      TreePreserves(t);
      assert KeepsPrefix(p, (u.input, u.output), w);
      SameOutput(p.1, u.output, w, rnd, o);
    }
  }

  lemma SameOutput(x: nat, y: nat, w: nat, rnd: nat, o: nat)
    requires w <= 32 && Same(x, y, w) && NewOutput(y, w, rnd, o)
    ensures NewOutput(x, w, rnd, o)
  {
    hide Pre, Exp2;
    SameIs(x, y, w);
  }

  /** The swivel that the search computes from the children's inputs is the bit of the fork. */
  lemma ForkBit(t: Tree)
    requires TreeOk(t) && t.Fork?
    ensures t.l.input < TWO32 && t.r.input < TWO32
    ensures t.l.input != t.r.input && FirstDiff(t.l.input, t.r.input) == t.s
  {
    hide Pre, FirstDiff;
    OwnPair(t.l);
    OwnPair(t.r);
    OneBitApart(t.l.input, t.r.input, t.s);
    FirstDiffUnique(t.l.input, t.r.input, t.s);
  }

  // ---- The tree in memory ----

  ghost function Nodes(t: Tree): set<Node> {
    match t
    case Leaf(n, _, _) => {n}
    case Fork(n, _, _, _, l, r) => {n} + Nodes(l) + Nodes(r)
  }

  ghost predicate Distinct(t: Tree) {
    t.Fork? ==> Distinct(t.l) && Distinct(t.r) && Nodes(t.l) !! Nodes(t.r) && t.id !in Nodes(t.l) + Nodes(t.r)
  }

  /** The node contents m hold the tree t. */
  ghost predicate Holds(m: map<Node, Cell>, t: Tree) {
    t.id in m && m[t.id] == CellOf(t) && (t.Fork? ==> Holds(m, t.l) && Holds(m, t.r))
  }

  ghost function CellOf(t: Tree): Cell {
    match t
    case Leaf(_, i, o) => Cell(i, o, null, null)
    case Fork(_, i, o, _, l, r) => Cell(i, o, l.id, r.id)
  }

  lemma {:induction false} HoldsFrame(m: map<Node, Cell>, m': map<Node, Cell>, t: Tree)
    requires Holds(m, t) && forall n :: n in Nodes(t) && n in m ==> n in m' && m'[n] == m[n]
    ensures Holds(m', t)
  {
    if t.Fork? {
      HoldsFrame(m, m', t.l);
      HoldsFrame(m, m', t.r);
    }
  }

  /** The three nodes that make_peer writes. */
  ghost function PeerCells(m: map<Node, Cell>, u: Tree, a: nat, o: nat, d0: Node, d1: Node): map<Node, Cell>
    requires u.input < TWO32 && a < TWO32 && a != u.input
  {
    var p := Peer(u, a, o, d0, d1);
    m[u.id := CellOf(p)][d0 := CellOf(p.l)][d1 := CellOf(p.r)]
  }

  ghost predicate Free(t: Tree, d0: Node, d1: Node) {
    d0 != d1 && d0 !in Nodes(t) && d1 !in Nodes(t)
  }

  lemma PeerHolds(m: map<Node, Cell>, u: Tree, a: nat, o: nat, d0: Node, d1: Node)
    requires u.input < TWO32 && a < TWO32 && a != u.input
    requires Holds(m, u) && Distinct(u) && Free(u, d0, d1)
    ensures var p := Peer(u, a, o, d0, d1);
            Holds(PeerCells(m, u, a, o, d0, d1), p) && Distinct(p) && Nodes(p) == Nodes(u) + {d0, d1}
  {
    hide FirstDiff, Pre;
    var m' := PeerCells(m, u, a, o, d0, d1);
    if u.Fork? {
      HoldsFrame(m, m', u.l);
      HoldsFrame(m, m', u.r);
    }
  }

  lemma {:induction false} InsertHolds(m: map<Node, Cell>, t: Tree, a: nat, o: nat, d0: Node, d1: Node)
    requires TreeOk(t) && a < TWO32 && Stop(t, a).input != a
    requires Holds(m, t) && Distinct(t) && Free(t, d0, d1)
    ensures var t' := Insert(t, a, o, d0, d1);
            Holds(PeerCells(m, Stop(t, a), a, o, d0, d1), t') && Distinct(t') &&
            Nodes(t') == Nodes(t) + {d0, d1} && t'.id == t.id
    ensures Stop(t, a).id in Nodes(t)
  {
    hide FirstDiff, Pre, Agree, Pairs, Holds, Distinct, Nodes;
    if Stops(t, a) {
      PeerHolds(m, t, a, o, d0, d1);
      OwnNode(t);
    } else {
      var m' := PeerCells(m, Stop(t, a), a, o, d0, d1);
      SidesHold(m, t);
      if Pre(a, t.s) % 2 == 1 {
        InsertHolds(m, t.r, a, o, d0, d1);
        RightHolds(m, m', t, Insert(t.r, a, o, d0, d1), d0, d1);
      } else {
        InsertHolds(m, t.l, a, o, d0, d1);
        LeftHolds(m, m', t, Insert(t.l, a, o, d0, d1), d0, d1);
      }
    }
  }

  lemma OwnNode(t: Tree)
    ensures t.id in Nodes(t)
  {}

  lemma SidesHold(m: map<Node, Cell>, t: Tree)
    requires t.Fork? && Holds(m, t) && Distinct(t)
    ensures Holds(m, t.l) && Holds(m, t.r) && Distinct(t.l) && Distinct(t.r)
    ensures Nodes(t.l) <= Nodes(t) && Nodes(t.r) <= Nodes(t)
  {}

  /** m' differs from m only at some of these nodes. */
  ghost predicate ChangedOnly(m: map<Node, Cell>, m': map<Node, Cell>, s: set<Node>) {
    forall n :: n in m && n !in s ==> n in m' && m'[n] == m[n]
  }

  lemma RightHolds(m: map<Node, Cell>, m': map<Node, Cell>, t: Tree, c: Tree, d0: Node, d1: Node)
    requires t.Fork? && Holds(m, t) && Distinct(t) && Free(t, d0, d1) && Holds(m', c) && Distinct(c)
    requires c.id == t.r.id && Nodes(c) == Nodes(t.r) + {d0, d1} && ChangedOnly(m, m', Nodes(c))
    ensures Holds(m', t.(r := c)) && Distinct(t.(r := c)) && Nodes(t.(r := c)) == Nodes(t) + {d0, d1}
  {
    HoldsFrame(m, m', t.l);
  }

  lemma LeftHolds(m: map<Node, Cell>, m': map<Node, Cell>, t: Tree, c: Tree, d0: Node, d1: Node)
    requires t.Fork? && Holds(m, t) && Distinct(t) && Free(t, d0, d1) && Holds(m', c) && Distinct(c)
    requires c.id == t.l.id && Nodes(c) == Nodes(t.l) + {d0, d1} && ChangedOnly(m, m', Nodes(c))
    ensures Holds(m', t.(l := c)) && Distinct(t.(l := c)) && Nodes(t.(l := c)) == Nodes(t) + {d0, d1}
  {
    HoldsFrame(m, m', t.r);
  }

  lemma {:induction false} HoldsAt(m: map<Node, Cell>, t: Tree, a: nat)
    requires TreeOk(t) && a < TWO32 && Holds(m, t)
    ensures Holds(m, Stop(t, a)) && Nodes(Stop(t, a)) <= Nodes(t)
  {
    hide FirstDiff, Pre, Agree, Pairs;
    if !Stops(t, a) {
      if Pre(a, t.s) % 2 == 1 { HoldsAt(m, t.r, a); } else { HoldsAt(m, t.l, a); }
    }
  }

  lemma StopPair(t: Tree, a: nat)
    requires TreeOk(t) && a < TWO32
    ensures (Stop(t, a).input, Stop(t, a).output) in Pairs(t)
  {
    hide FirstDiff, Pre;
    StopOk(t, a);
    OwnPair(Stop(t, a));
  }

  lemma SwivelTest(a: nat, s: nat)
    requires s <= 32
    ensures And(a, Exp2(32 - s)) != 0 <==> Pre(a, s) % 2 == 1
  {
    hide And, Exp2, Shr;
    AndBit(a, 32 - s);
  }

  lemma PeerCellsAt(m: map<Node, Cell>, u: Tree, a: nat, o: nat, d0: Node, d1: Node)
    requires u.input < TWO32 && a < TWO32 && a != u.input && u.id in m && d0 !in m && d1 !in m && d0 != d1
    ensures var m', p := PeerCells(m, u, a, o, d0, d1), Peer(u, a, o, d0, d1);
            m'.Keys == m.Keys + {d0, d1}
            && m'[u.id] == CellOf(p) && m'[d0] == CellOf(p.l) && m'[d1] == CellOf(p.r)
            && forall n :: n in m && n != u.id ==> m'[n] == m[n]
  {
    hide Peer, FirstDiff, Pre, CellOf;
  }
}
