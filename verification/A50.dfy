/** The A50 address anonymiser (Anon.cc): a prefix tree in memory, with its pool of free nodes and
    the cache of answers. Randomness is an argument, so every statement holds for all choices. */
module A50 {
  import opened Octets
  import opened Bits
  import opened Prefix
  import opened PrefixTree

  const BLOCK_SIZE: nat := 1024
  const ALL_ONES: nat := 0xFFFF_FFFF

  /** Addresses that never get into the tree. */
  predicate Special(a: nat) { a == 0 || a == ALL_ONES }

  ghost function After(list: seq<Node>, i: nat): Node? {
    if i + 1 < |list| then list[i + 1] else null
  }

  /** The list through child0 that starts at head. */
  ghost predicate Linked(head: Node?, list: seq<Node>)
    reads list
  {
    && head == (if |list| == 0 then null else list[0])
    && (forall i :: 0 <= i < |list| ==> list[i].child0 == After(list, i))
    && (forall i, j :: 0 <= i < j < |list| ==> list[i] != list[j])
  }

  class Anonymizer {
    var root: Node?
    var nextFree: Node?
    var mapping: map<nat, nat>
    const special0: Node
    const special1: Node
    ghost var tree: Option<Tree>
    ghost var cells: map<Node, Cell>
    ghost var free: seq<Node>

    ghost function Repr(): set<object>
      reads this`cells, this`free
    {
      cells.Keys + (set n | n in free) + {special0, special1}
    }

    ghost predicate TreeValid()
      reads this`root, this`tree, this`cells
    {
      if root == null then tree == None && cells == map[]
      else tree.Some? && tree.value.id == root && TreeOk(tree.value) && Holds(cells, tree.value)
           && Distinct(tree.value) && cells.Keys == Nodes(tree.value)
    }

    ghost predicate PoolValid()
      reads this`nextFree, this`free, this`cells, free
    {
      Linked(nextFree, free) && special0 !in free && special1 !in free && forall n :: n in free ==> n !in cells
    }

    ghost predicate MemoryValid()
      reads this`cells, cells.Keys
    {
      forall n :: n in cells ==> n.Contents() == cells[n]
    }

    ghost predicate SpecialsValid()
      reads this`cells, special0, special1
    {
      && special0 !in cells && special1 !in cells && special0 != special1
      && special0.input == 0 && special0.output == 0
      && special1.input == ALL_ONES && special1.output == ALL_ONES
    }

    /** The input and output addresses in the tree. */
    ghost function Answers(): set<(nat, nat)>
      reads this`tree
    {
      if tree.None? then {} else Pairs(tree.value)
    }

    /** Every cached answer is one the tree gives. */
    ghost predicate CacheValid()
      reads this`mapping, this`tree
    {
      forall a :: a in mapping ==> if Special(a) then mapping[a] == a else (a, mapping[a]) in Answers()
    }

    ghost predicate Core()
      reads this`root, this`nextFree, this`tree, this`cells, this`free, Repr()
    {
      TreeValid() && PoolValid() && MemoryValid() && SpecialsValid()
    }

    ghost predicate Valid()
      reads this, Repr()
    {
      Core() && CacheValid()
    }

    constructor ()
      ensures Valid() && fresh(Repr()) && Answers() == {} && mapping == map[]
    {
      root, nextFree, mapping := null, null, map[];
      special0 := new Node();
      special1 := new Node();
      tree, cells, free := None, map[], [];
      new;
      special1.input, special1.output := ALL_ONES, ALL_ONES;
    }

    /** A block of nodes: the first is handed out, the others become the free list. */
    method NewNodeBlock() returns (n: Node)
      requires nextFree == null
      modifies this`nextFree, this`free
      ensures Linked(nextFree, free) && |free| == 1023
      ensures n !in free && fresh(n) && forall x :: x in free ==> fresh(x)
    {
      var block := AllocBlock();
      var i := 1;
      while i < BLOCK_SIZE - 1
        invariant 1 <= i <= BLOCK_SIZE - 1
        invariant forall j :: 1 <= j < i ==> block[j].child0 == block[j + 1]
        modifies set b | b in block
      {
        block[i].child0 := block[i + 1];
        i := i + 1;
      }
      block[BLOCK_SIZE - 1].child0 := null;
      nextFree := block[1];
      free := block[1..];
      n := block[0];
    }

    method NewNode() returns (n: Node)
      requires Linked(nextFree, free)
      modifies this`nextFree, this`free
      ensures Linked(nextFree, free) && n !in free
      ensures fresh(n) || n in old(free)
      ensures forall x :: x in free ==> fresh(x) || x in old(free)
    {
      if nextFree != null {
        n := nextFree;
        ghost var rest := free[1..];
        assert free[0].child0 == After(free, 0);
        assert forall i :: 0 <= i < |rest| ==> rest[i] == free[i + 1];
        nextFree := n.child0;
        free := rest;
      } else {
        n := NewNodeBlock();
      }
    }

    method TakeTwo() returns (d0: Node, d1: Node)
      requires Core()
      modifies this`nextFree, this`free
      ensures Core() && d0 != d1 && d0 !in Repr() && d1 !in Repr()
      ensures (fresh(d0) || d0 in old(Repr())) && (fresh(d1) || d1 in old(Repr()))
      ensures fresh(Repr() - old(Repr()))
    {
      hide TreeValid, MemoryValid, SpecialsValid, Linked;
      d0 := TakeNode();
      d1 := TakeNode();
    }

    /** Splits node n into two peers: the address a and n's old contents. */
    method MakePeer(a: nat, n: Node, rnd: nat, ghost u: Tree) returns (d: Node)
      requires Core() && a < TWO32 && rnd < TWO32 && !Special(a)
      requires tree.Some? && u == Stop(tree.value, a) && u.id == n && u.input != a
      modifies this`nextFree, this`free, this`tree, this`cells, Repr()
      ensures Core() && fresh(Repr() - old(Repr())) && d in Repr()
      ensures d.input == a && d.output == MakeOutput(u.output, FirstDiff(a, u.input), rnd)
      ensures Answers() == old(Answers()) + {(a, d.output)}
    {
      hide NewOutput, FirstDiff, Pre, Same, TreeOk, Holds, Distinct, Nodes, Pairs, Stop, Stops, CellOf, Linked,
           Node.Contents;
      AtStop(a);
      var d0, d1 := TakeTwo();
      var swivel := Swivel(a, n.input);
      var o := MakeOutput(n.output, swivel, rnd);
      d := Attach(a, o, swivel, n, d0, d1, u);
    }

    /** Writes the nodes of a split and notes their contents. */
    method Rewrite(a: nat, o: nat, swivel: nat, n: Node, d0: Node, d1: Node, ghost u: Tree) returns (d: Node)
      requires PoolValid() && MemoryValid() && SpecialsValid() && u.input < TWO32 && a < TWO32 && u.input != a
      requires swivel == FirstDiff(a, u.input) && u.id == n && n in cells && n.Contents() == CellOf(u)
      requires d0 != d1 && d0 !in Repr() && d1 !in Repr()
      modifies this`cells, n, d0, d1
      ensures PoolValid() && MemoryValid() && SpecialsValid() && Repr() == old(Repr()) + {d0, d1} && d in Repr()
      ensures cells == PeerCells(old(cells), u, a, o, d0, d1) && cells.Keys == old(cells).Keys + {d0, d1}
      ensures d.input == a && d.output == o
    {
      hide FirstDiff, Pre, Peer, CellOf, Linked, Node.Contents, PeerCells;
      PeerCellsAt(cells, u, a, o, d0, d1);
      d := WritePeers(a, o, swivel, n, d0, d1, u);
      cells := PeerCells(cells, u, a, o, d0, d1);
    }

    method Attach(a: nat, o: nat, swivel: nat, n: Node, d0: Node, d1: Node, ghost u: Tree) returns (d: Node)
      requires Core() && a < TWO32 && tree.Some? && u == Stop(tree.value, a) && u.id == n && u.input != a
      requires swivel == FirstDiff(a, u.input) && Branches(u, a, o)
      requires d0 != d1 && d0 !in Repr() && d1 !in Repr()
      modifies this`tree, this`cells, n, d0, d1
      ensures Core() && Repr() == old(Repr()) + {d0, d1} && d in Repr()
      ensures d.input == a && d.output == o
      ensures Answers() == old(Answers()) + {(a, o)}
    {
      hide FirstDiff, Pre, Same, TreeOk, Holds, Distinct, Nodes, Pairs, Stop, Stops, Insert, CellOf, Node.Contents,
           Branches, PeerCells, PoolValid, MemoryValid, SpecialsValid;
      AtStop(a);
      ghost var t := tree.value;
      InsertOk(t, a, o, d0, d1);
      InsertHolds(cells, t, a, o, d0, d1);
      d := Rewrite(a, o, swivel, n, d0, d1, u);
      tree := Some(Insert(t, a, o, d0, d1));
    }

    /** A node of the tree holds what the tree says. */
    lemma AtNode(u: Tree)
      requires MemoryValid() && Holds(cells, u)
      ensures u.id in cells && u.id.input == u.input && u.id.output == u.output
      ensures u.id.Contents() == CellOf(u)
      ensures if u.Leaf? then u.id.child0 == null
              else u.id.child0 == u.l.id && u.id.child1 == u.r.id && Holds(cells, u.l) && Holds(cells, u.r)
    {}

    lemma AtStop(a: nat)
      requires Core() && tree.Some? && a < TWO32
      ensures var u := Stop(tree.value, a);
              Holds(cells, u) && u.id in cells && u.id.Contents() == CellOf(u)
              && u.id.input == u.input && u.id.output == u.output
    {
      HoldsAt(cells, tree.value, a);
      AtNode(Stop(tree.value, a));
    }

    /** The descent: stops at the node of a, or at the node that has to make room for it. */
    method Descend(a: nat) returns (n: Node, found: bool)
      requires Core() && root != null && a < TWO32
      ensures n == Stop(tree.value, a).id && found == (Stop(tree.value, a).input == a)
    {
      hide FirstDiff, Pre, Pairs, Agree, Nodes, Distinct, And, Shr, Exp2, PoolValid, CacheValid, SpecialsValid;
      n := root;
      ghost var u := tree.value;
      while true
        invariant TreeOk(u) && Holds(cells, u) && u.id == n && Stop(u, a) == Stop(tree.value, a)
        decreases u
      {
        AtNode(u);
        if n.input == a {
          return n, true;
        }
        if n.child0 == null {
          return n, false;
        }
        AtNode(u.l);
        AtNode(u.r);
        ForkBit(u);
        var swivel := Swivel(n.child0.input, n.child1.input);
        var first := Swivel(a, n.input);
        if first < swivel {
          return n, false;
        }
        SwivelTest(a, swivel);
        if And(a, Exp2(32 - swivel)) != 0 {
          n, u := n.child1, u.r;
        } else {
          n, u := n.child0, u.l;
        }
      }
    }

    method TakeNode() returns (n: Node)
      requires Core()
      modifies this`nextFree, this`free
      ensures Core() && n !in Repr() && (fresh(n) || n in old(Repr())) && fresh(Repr() - old(Repr()))
    {
      hide TreeValid, MemoryValid, SpecialsValid, Linked;
      n := NewNode();
    }

    /** Makes n the only node with contents. */
    method FillRoot(n: Node, a: nat, rnd: nat)
      requires PoolValid() && SpecialsValid() && cells == map[] && n !in Repr()
      modifies this`cells, n
      ensures PoolValid() && MemoryValid() && SpecialsValid() && Repr() == old(Repr()) + {n}
      ensures n.input == a && n.output == rnd && cells == map[n := Cell(a, rnd, null, null)]
    {
      hide Linked;
      n.input, n.output, n.child0, n.child1 := a, rnd, null, null;
      cells := map[n := Cell(a, rnd, null, null)];
    }

    method NewRoot(a: nat, rnd: nat) returns (n: Node)
      requires Core() && root == null && a < TWO32 && rnd < TWO32
      modifies this`root, this`nextFree, this`free, this`tree, this`cells, Repr()
      ensures Core() && fresh(Repr() - old(Repr())) && n in Repr()
      ensures n.input == a && n.output == rnd && Answers() == {(a, rnd)}
    {
      hide TreeOk, Holds, Distinct, Nodes, Pairs, PoolValid, MemoryValid, SpecialsValid;
      n := TakeNode();
      FillRoot(n, a, rnd);
      root := n;
      tree := Some(Leaf(n, a, rnd));
      RootOk(n, a, rnd);
    }

    /** The node whose output answers for a, made on the first request. */
    method FindNode(a: nat, rnd: nat) returns (n: Node)
      requires Core() && a < TWO32 && rnd < TWO32
      modifies this`root, this`nextFree, this`free, this`tree, this`cells, Repr()
      ensures Core() && fresh(Repr() - old(Repr())) && n in Repr()
      ensures n.input == a
      ensures Special(a) ==> n.output == a && Answers() == old(Answers())
      ensures !Special(a) ==> Answers() == old(Answers()) + {(a, n.output)}
      ensures !Special(a) && (forall p :: p in old(Answers()) ==> p.0 != a) ==>
                NewAnswer(old(Answers()), a, rnd, n.output)
    {
      hide FirstDiff, Pre, TreeOk, Holds, Distinct, Stop, Linked, MakeOutput, NewOutput;
      if a == 0 || a == ALL_ONES {
        return if a % 2 == 0 then special0 else special1;
      }
      if root == null {
        n := NewRoot(a, rnd);
        return;
      }
      var found;
      n, found := Descend(a);
      AtStop(a);
      if found {
        StopPair(tree.value, a);
      } else {
        ghost var t := tree.value;
        n := MakePeer(a, n, rnd, Stop(t, a));
        NewFromStop(t, a, rnd, n.output);
      }
    }

    lemma Preserves()
      requires Core()
      ensures PrefixPreserving(Answers())
    {
      if tree.Some? { TreePreserves(tree.value); }
    }

    /** The answer for a: from the cache, or from the tree and into the cache. */
    method Anonymize(a: nat, rnd: nat) returns (o: nat)
      requires Valid() && a < TWO32 && rnd < TWO32
      modifies this, Repr()
      ensures Valid() && fresh(Repr() - old(Repr()))
      ensures old(Answers()) <= Answers()
      ensures if Special(a) then o == a else (a, o) in Answers()
      ensures mapping == old(mapping)[a := o]
      ensures if a in old(mapping) then o == old(mapping)[a] && Answers() == old(Answers())
              else Answers() == old(Answers()) + (if Special(a) then {} else {(a, o)})
      ensures !Special(a) && a !in old(mapping) && (forall p :: p in old(Answers()) ==> p.0 != a) ==>
                NewAnswer(old(Answers()), a, rnd, o)
    {
      hide Core, Answers, NewAnswer;
      if a in mapping {
        return mapping[a];
      }
      var n := FindNode(a, rnd);
      o := n.output;
      mapping := mapping[a := o];
    }
  }

  lemma RootOk(n: Node, a: nat, o: nat)
    requires a < TWO32 && o < TWO32
    ensures var t := Leaf(n, a, o);
            && TreeOk(t) && Holds(map[n := Cell(a, o, null, null)], t) && Distinct(t)
            && Nodes(t) == {n} && Pairs(t) == {(a, o)}
  {}

  /** The three writes of make_peer: the new address and n's contents become n's children. */
  method WritePeers(a: nat, o: nat, swivel: nat, n: Node, d0: Node, d1: Node, ghost u: Tree) returns (d: Node)
    requires u.input < TWO32 && a < TWO32 && a != u.input && swivel == FirstDiff(a, u.input)
    requires n == u.id && n.Contents() == CellOf(u) && n != d0 && n != d1 && d0 != d1
    modifies n, d0, d1
    ensures d == (if Pre(a, swivel) % 2 == 1 then d1 else d0) && d.input == a && d.output == o
    ensures var p := Peer(u, a, o, d0, d1);
            n.Contents() == CellOf(p) && d0.Contents() == CellOf(p.l) && d1.Contents() == CellOf(p.r)
  {
    hide FirstDiff;
    var bitvalue := Shr(a, 32 - swivel) % 2;
    var moved;
    if bitvalue == 1 { d, moved := d1, d0; } else { d, moved := d0, d1; }
    d.input, d.output, d.child0, d.child1 := a, o, null, null;
    moved.input, moved.output, moved.child0, moved.child1 := n.input, n.output, n.child0, n.child1;
    n.input, n.output, n.child0, n.child1 := d1.input, d1.output, d0, d1;
  }

  method AllocBlock() returns (block: seq<Node>)
    ensures |block| == BLOCK_SIZE
    ensures forall i :: 0 <= i < |block| ==> fresh(block[i])
    ensures forall i, j :: 0 <= i < j < |block| ==> block[i] != block[j]
  {
    block := [];
    while |block| < BLOCK_SIZE
      invariant |block| <= BLOCK_SIZE
      invariant forall i :: 0 <= i < |block| ==> fresh(block[i])
      invariant forall i, j :: 0 <= i < j < |block| ==> block[i] != block[j]
    {
      var b := new Node();
      block := block + [b];
    }
  }

  /** The tree addresses among the first i requests, with their answers. */
  ghost function History(addrs: seq<nat>, outs: seq<nat>, i: nat): set<(nat, nat)>
    requires i <= |addrs| && i <= |outs|
  {
    set j | 0 <= j < i && addrs[j] != 0 && addrs[j] != 0xFFFF_FFFF :: (addrs[j], outs[j])
  }

  lemma HistoryMore(addrs: seq<nat>, outs: seq<nat>, o: nat)
    requires |outs| < |addrs|
    ensures var i, a := |outs|, addrs[|outs|];
            && History(addrs, outs + [o], i) == History(addrs, outs, i)
            && History(addrs, outs + [o], i + 1) == History(addrs, outs, i) + if Special(a) then {} else {(a, o)}
  {
    var os := outs + [o];
    assert forall j :: 0 <= j < |outs| ==> os[j] == outs[j];
  }

  lemma HistoryPrefix(addrs: seq<nat>, outs: seq<nat>, o: nat, i: nat)
    requires i <= |outs| <= |addrs|
    ensures History(addrs, outs + [o], i) == History(addrs, outs, i)
  {
    assert forall j :: 0 <= j < i ==> (outs + [o])[j] == outs[j];
  }

  /** Request i, if it is the first for a tree address, got the answer for a new address. */
  ghost predicate FirstRequestOk(addrs: seq<nat>, rnds: seq<nat>, outs: seq<nat>, i: nat)
    requires i < |addrs| && i < |rnds| && i < |outs| && addrs[i] < TWO32
  {
    addrs[i] != 0 && addrs[i] != 0xFFFF_FFFF && addrs[i] !in addrs[..i] ==>
      NewAnswer(History(addrs, outs, i), addrs[i], rnds[i], outs[i])
  }

  /** The requests answered so far, the answers of the tree and the cached addresses. */
  ghost predicate RequestsOk(
    addrs: seq<nat>, rnds: seq<nat>, outs: seq<nat>, m: set<(nat, nat)>, seen: set<nat>)
  {
    && |outs| <= |addrs| == |rnds| && (forall i :: 0 <= i < |addrs| ==> addrs[i] < TWO32)
    && m == History(addrs, outs, |outs|) && seen == (set a | a in addrs[..|outs|])
    && (forall i :: 0 <= i < |outs| ==> Answered(m, addrs[i], outs[i]))
    && forall i :: 0 <= i < |outs| ==> FirstRequestOk(addrs, rnds, outs, i)
  }

  lemma NoRequests(addrs: seq<nat>, rnds: seq<nat>)
    requires |addrs| == |rnds| && forall i :: 0 <= i < |addrs| ==> addrs[i] < TWO32
    ensures RequestsOk(addrs, rnds, [], {}, {})
  {}

  lemma RequestsMore(
    addrs: seq<nat>, rnds: seq<nat>, outs: seq<nat>, m: set<(nat, nat)>, seen: set<nat>, o: nat, m': set<(nat, nat)>)
    requires RequestsOk(addrs, rnds, outs, m, seen) && |outs| < |addrs|
    requires var a := addrs[|outs|];
             && (if a in seen then m' == m else m' == m + if Special(a) then {} else {(a, o)})
             && Answered(m', a, o)
             && (!Special(a) && a !in seen && (forall p :: p in m ==> p.0 != a) ==> NewAnswer(m, a, rnds[|outs|], o))
    ensures RequestsOk(addrs, rnds, outs + [o], m', seen + {addrs[|outs|]})
  {
    hide NewAnswer, History;
    var i, a := |outs|, addrs[|outs|];
    HistoryMore(addrs, outs, o);
    Unseen(addrs, outs, a);
    assert addrs[..i + 1] == addrs[..i] + [a];
    forall j | 0 <= j <= i ensures FirstRequestOk(addrs, rnds, outs + [o], j) {
      HistoryPrefix(addrs, outs, o, j);
      if j < i { assert FirstRequestOk(addrs, rnds, outs, j); }
    }
    hide FirstRequestOk;
    SeenAnswer(addrs, outs, m, o, m');
  }

  /** The answers so far hold all answered addresses. */
  lemma SeenAnswer(addrs: seq<nat>, outs: seq<nat>, m: set<(nat, nat)>, o: nat, m': set<(nat, nat)>)
    requires |outs| < |addrs| && m == History(addrs, outs, |outs|) && m <= m' && Answered(m', addrs[|outs|], o)
    requires forall i :: 0 <= i < |outs| ==> Answered(m, addrs[i], outs[i])
    ensures forall i :: 0 <= i <= |outs| ==> Answered(m', addrs[i], (outs + [o])[i])
  {}

  /** The answers of a new anonymiser to any list of requests and for any random words: two
      tree addresses share exactly as many leading bits as their answers do, a repeated address
      gets its earlier answer, and the special addresses stand for themselves. The answer to a new
      address is determined by the answers so far and its random word. */
  method AnonymizeAll(addrs: seq<nat>, rnds: seq<nat>) returns (outs: seq<nat>)
    requires |rnds| == |addrs| && forall i :: 0 <= i < |addrs| ==> addrs[i] < TWO32 && rnds[i] < TWO32
    ensures |outs| == |addrs|
    ensures forall i :: 0 <= i < |addrs| && (addrs[i] == 0 || addrs[i] == 0xFFFF_FFFF) ==> outs[i] == addrs[i]
    ensures forall i, j, k: nat :: 0 <= i < |addrs| && 0 <= j < |addrs| && k <= 32
              && addrs[i] != 0 && addrs[i] != 0xFFFF_FFFF && addrs[j] != 0 && addrs[j] != 0xFFFF_FFFF
              ==> (Same(addrs[i], addrs[j], k) <==> Same(outs[i], outs[j], k))
    ensures forall i :: 0 <= i < |addrs| ==> FirstRequestOk(addrs, rnds, outs, i)
  {
    hide Same, Anonymizer.Core, Anonymizer.CacheValid, Anonymizer.Answers, NewAnswer, FirstRequestOk, RequestsOk,
         PrefixPreserving, History;
    var an := new Anonymizer();
    outs := [];
    NoRequests(addrs, rnds);
    assert an.mapping.Keys == {};
    while |outs| < |addrs|
      invariant an.Valid() && fresh(an.Repr()) && fresh(an) && |outs| <= |addrs|
      invariant RequestsOk(addrs, rnds, outs, an.Answers(), an.mapping.Keys)
    {
      ghost var m, seen := an.Answers(), an.mapping.Keys;
      var o := an.Anonymize(addrs[|outs|], rnds[|outs|]);
      RequestsMore(addrs, rnds, outs, m, seen, o, an.Answers());
      assert an.mapping.Keys == seen + {addrs[|outs|]};
      outs := outs + [o];
    }
    an.Preserves();
    RequestsDone(addrs, rnds, outs, an.Answers(), an.mapping.Keys);
  }

  lemma RequestsDone(addrs: seq<nat>, rnds: seq<nat>, outs: seq<nat>, m: set<(nat, nat)>, seen: set<nat>)
    requires RequestsOk(addrs, rnds, outs, m, seen) && |outs| == |addrs| && PrefixPreserving(m)
    ensures forall i :: 0 <= i < |addrs| && (addrs[i] == 0 || addrs[i] == 0xFFFF_FFFF) ==> outs[i] == addrs[i]
    ensures forall i, j, k: nat :: 0 <= i < |addrs| && 0 <= j < |addrs| && k <= 32
              && addrs[i] != 0 && addrs[i] != 0xFFFF_FFFF && addrs[j] != 0 && addrs[j] != 0xFFFF_FFFF
              ==> (Same(addrs[i], addrs[j], k) <==> Same(outs[i], outs[j], k))
    ensures forall i :: 0 <= i < |addrs| ==> FirstRequestOk(addrs, rnds, outs, i)
  {
    hide Same, FirstRequestOk, History;
    forall i, j, k: nat | 0 <= i < |addrs| && 0 <= j < |addrs| && k <= 32
      && addrs[i] != 0 && addrs[i] != 0xFFFF_FFFF && addrs[j] != 0 && addrs[j] != 0xFFFF_FFFF
      ensures Same(addrs[i], addrs[j], k) <==> Same(outs[i], outs[j], k)
    {
      assert KeepsPrefix((addrs[i], outs[i]), (addrs[j], outs[j]), k);
    }
  }

  lemma Unseen(addrs: seq<nat>, outs: seq<nat>, a: nat)
    requires |outs| <= |addrs|
    ensures a !in addrs[..|outs|] ==> forall p :: p in History(addrs, outs, |outs|) ==> p.0 != a
  {
    assert forall j :: 0 <= j < |outs| ==> addrs[j] in addrs[..|outs|];
  }

  ghost predicate Answered(m: set<(nat, nat)>, a: nat, o: nat) {
    if Special(a) then o == a else (a, o) in m
  }

  /** Two addresses that differ in their first bit. */
  method SampleAnswers() returns (outs: seq<nat>)
    ensures outs == [0xAAAA_AAAA, 0x091A_2B3C, 0xFFFF_FFFF, 0xAAAA_AAAA]
  {
    var addrs := [0x8000_0001, 0x0000_0001, 0xFFFF_FFFF, 0x8000_0001];
    var rnds := [0xAAAA_AAAA, 0x1234_5678, 1, 2];
    outs := AnonymizeAll(addrs, rnds);
    hide Same, FirstRequestOk;
    assert FirstRequestOk(addrs, rnds, outs, 0) && FirstRequestOk(addrs, rnds, outs, 1);
    SampleDecided(addrs, rnds, outs);
    assert Same(addrs[0], addrs[3], 32) <==> Same(outs[0], outs[3], 32);
    SameAll(addrs[0], addrs[3]);
    SameAll(outs[0], outs[3]);
  }

  lemma SampleDecided(addrs: seq<nat>, rnds: seq<nat>, outs: seq<nat>)
    requires |addrs| == |rnds| == |outs| == 4 && addrs[0] == 0x8000_0001 && addrs[1] == 1
    requires rnds[0] == 0xAAAA_AAAA && rnds[1] == 0x1234_5678
    requires FirstRequestOk(addrs, rnds, outs, 0) && FirstRequestOk(addrs, rnds, outs, 1)
    ensures outs[0] == 0xAAAA_AAAA && outs[1] == 0x091A_2B3C
  {
    hide NewAnswer, History;
    assert addrs[..0] == [] && addrs[..1] == [addrs[0]];
    SampleHistory(addrs, outs);
    NewAlone(addrs[0], rnds[0], outs[0]);
    SampleNew(outs[1]);
  }

  lemma SampleHistory(addrs: seq<nat>, outs: seq<nat>)
    requires |addrs| >= 1 && |outs| >= 1 && addrs[0] != 0 && addrs[0] != 0xFFFF_FFFF
    ensures History(addrs, outs, 0) == {} && History(addrs, outs, 1) == {(addrs[0], outs[0])}
  {}

  lemma NewAlone(a: nat, rnd: nat, o: nat)
    requires a < TWO32 && NewAnswer({}, a, rnd, o)
    ensures o == rnd
  {}

  lemma SampleNew(o: nat)
    requires NewAnswer({(0x8000_0001, 0xAAAA_AAAA)}, 1, 0x1234_5678, o)
    ensures o == 0x091A_2B3C
  {
    hide FirstDiff, NewOutput;
    var p := (0x8000_0001, 0xAAAA_AAAA);
    FirstBitApart();
    assert Nearest({p}, 1, p);
    SampleTail(o);
  }

  lemma FirstBitApart()
    ensures FirstDiff(1, 0x8000_0001) == 1
  {
    Exp2Of31();
    Exp2Of32();
    hide Exp2, FirstDiff, Pre;
    SameIs(1, 0x8000_0001, 1);
    SameIs(1, 0x8000_0001, 0);
    FirstDiffUnique(1, 0x8000_0001, 1);
  }

  lemma SampleTail(o: nat)
    requires NewOutput(0xAAAA_AAAA, 1, 0x1234_5678, o)
    ensures o == 0x091A_2B3C
  {
    Exp2Of31();
    ExpOfOne();
    hide Exp2;
  }

  lemma ExpOfOne()
    ensures Exp2(1) == 2
  {}

  lemma SameAll(a: nat, b: nat)
    ensures Same(a, b, 32) <==> a == b
  {}
}
