/** The stream format of ChunkedIO.cc: chunks are cut into parts, each part is sent as a frame, a
    four-byte header and the data; the receiver joins the parts again. */
module Framing {
  import opened Octets
  import Fp

  type Chunk = seq<Octet>

  const BUFFER_SIZE: nat := 1024 * 1024
  const HEADER: nat := 4
  const MAX_PART: nat := BUFFER_SIZE - HEADER
  const FLAG_PARTIAL: nat := 0x8000_0000

  /** A piece of a chunk; more says that it is not the last one. */
  datatype Part = Part(more: bool, data: seq<Octet>)

  predicate PartOk(p: Part) { 1 <= |p.data| <= MAX_PART }

  predicate AllOk(ps: seq<Part>) { forall p :: p in ps ==> PartOk(p) }

  // ---- Frames ----

  function LenWord(p: Part): nat { |p.data| + if p.more then FLAG_PARTIAL else 0 }

  lemma LenWordParts(p: Part)
    requires |p.data| < FLAG_PARTIAL
    ensures LenWord(p) < 0x1_0000_0000
    ensures LenWord(p) % FLAG_PARTIAL == |p.data| && (LenWord(p) >= FLAG_PARTIAL <==> p.more)
  {}

  function PutWord(v: nat): (s: seq<Octet>)
    ensures |s| == HEADER
  {
    [v / 0x100_0000 % 256, v / 0x1_0000 % 256, v / 256 % 256, v % 256]
  }

  function GetWord(s: seq<Octet>): nat
    requires |s| >= HEADER
  {
    var a: nat, b: nat, c: nat, d: nat := s[0], s[1], s[2], s[3];
    a * 0x100_0000 + b * 0x1_0000 + c * 256 + d
  }

  /** Words go over the wire in network order, the most significant byte first. */
  lemma NetworkOrder(v: nat, i: nat)
    requires i < 4
    ensures Fp.Exp256(3 - i) > 0 && PutWord(v)[i] == v / Fp.Exp256(3 - i) % 256
  {
    Places();
  }

  lemma ReadsNetworkOrder(s: seq<Octet>)
    requires |s| >= 4
    ensures GetWord(s) == s[0] * Fp.Exp256(3) + s[1] * Fp.Exp256(2) + s[2] * Fp.Exp256(1) + s[3] * Fp.Exp256(0)
  {
    Places();
  }

  lemma Places()
    ensures Fp.Exp256(0) == 1 && Fp.Exp256(1) == 256 && Fp.Exp256(2) == 0x1_0000 && Fp.Exp256(3) == 0x100_0000
  {}

  lemma WordRoundTrip(v: nat, rest: seq<Octet>)
    requires v < 0x1_0000_0000
    ensures GetWord(PutWord(v) + rest) == v
  {
    var s := PutWord(v) + rest;
    assert s[0] == v / 0x100_0000 % 256 && s[1] == v / 0x1_0000 % 256 && s[2] == v / 256 % 256 && s[3] == v % 256;
    hide PutWord;
    Digits(v);
  }

  lemma Digits(v: nat)
    requires v < 0x1_0000_0000
    ensures v / 0x100_0000 % 256 * 0x100_0000 + v / 0x1_0000 % 256 * 0x1_0000 + v / 256 % 256 * 256 + v % 256 == v
  {
    assert v / 0x1_0000 == v / 256 / 256;
    assert v / 0x100_0000 == v / 256 / 256 / 256;
  }

  function Frame(p: Part): seq<Octet> { PutWord(LenWord(p)) + p.data }

  /** The bytes of a frame: the flag for more parts in the top bit, the length in network order,
      the data. */
  lemma FrameBytes(p: Part)
    requires PartOk(p)
    ensures var n := |p.data|;
            Frame(p) == [if p.more then 0x80 else 0, n / 0x1_0000, n / 0x100 % 0x100, n % 0x100] + p.data
  {
    var n, m := |p.data|, if p.more then 0x8000_0000 else 0;
    assert LenWord(p) == n + m;
    FlagApart(n, p.more);
  }

  lemma FlagApart(n: nat, more: bool)
    requires n < 0x10_0000
    ensures var v := n + if more then 0x8000_0000 else 0;
            && v / 0x100_0000 % 256 == (if more then 0x80 else 0) && v / 0x1_0000 % 256 == n / 0x1_0000
            && v / 256 % 256 == n / 0x100 % 0x100 && v % 256 == n % 0x100
  {
    var top, a, b, c := if more then 0x80 else 0, n / 0x1_0000, n / 0x100 % 0x100, n % 0x100;
    assert n == a * 0x1_0000 + b * 256 + c;
    DigitsOf(top, a, b, c);
  }

  function Stream(ps: seq<Part>): seq<Octet> {
    if ps == [] then [] else Frame(ps[0]) + Stream(ps[1..])
  }

  lemma {:induction false} StreamAppend(a: seq<Part>, b: seq<Part>)
    ensures Stream(a + b) == Stream(a) + Stream(b)
  {
    hide Frame;
    if a == [] {
      assert a + b == b;
    } else {
      assert (a + b)[1..] == a[1..] + b;
      StreamAppend(a[1..], b);
    }
  }

  lemma StreamOne(p: Part)
    ensures Stream([p]) == Frame(p)
  {
    hide Frame;
    assert [p][1..] == [];
  }

  /** What the receiver sees of the next frame once its first bytes have arrived. */
  lemma FrameAhead(ps: seq<Part>, have: seq<Octet>, rest: seq<Octet>)
    requires AllOk(ps) && have + rest == Stream(ps) && |have| >= HEADER
    ensures ps != [] && GetWord(have) == LenWord(ps[0])
    ensures |have| >= HEADER + |ps[0].data| ==>
              have[HEADER..HEADER + |ps[0].data|] == ps[0].data
              && have[HEADER + |ps[0].data|..] + rest == Stream(ps[1..])
  {
    assert |have + rest| >= HEADER;
    var p := ps[0];
    var word, tail := PutWord(LenWord(p)), p.data + Stream(ps[1..]);
    FrameThen(p, Stream(ps[1..]));
    assert p in ps && PartOk(p);
    assert LenWord(p) < 0x1_0000_0000;
    hide Stream, PutWord, LenWord;
    WordRoundTrip(LenWord(p), tail);
    SameHeader(have, word + tail, rest);
    if |have| >= HEADER + |p.data| {
      CutAt(have, rest, word, p.data, Stream(ps[1..]));
    }
  }

  lemma FrameThen(p: Part, next: seq<Octet>)
    ensures Frame(p) + next == PutWord(LenWord(p)) + (p.data + next)
  {
    hide PutWord, LenWord;
  }

  lemma SameHeader(have: seq<Octet>, s: seq<Octet>, rest: seq<Octet>)
    requires have + rest == s && |have| >= HEADER
    ensures GetWord(have) == GetWord(s)
  {
    assert forall i :: 0 <= i < HEADER ==> s[i] == have[i];
  }

  lemma CutAt(have: seq<Octet>, rest: seq<Octet>, word: seq<Octet>, data: seq<Octet>, next: seq<Octet>)
    requires have + rest == word + (data + next) && |have| >= |word| + |data|
    ensures have[|word|..|word| + |data|] == data && have[|word| + |data|..] + rest == next
  {
    var w, d := |word|, |word| + |data|;
    var s := have + rest;
    assert s[w..d] == data && s[d..] == next;
    assert s[w..d] == have[w..d] && s[d..] == have[d..] + rest;
  }

  /** The first part in s, if all its bytes are there. */
  function FirstPart(s: seq<Octet>): (r: Option<Part>)
    ensures r.Some? ==> |s| >= HEADER + |r.value.data| && 1 <= |r.value.data| < FLAG_PARTIAL
  {
    if |s| < HEADER then None
    else
      var v := GetWord(s);
      var n := v % FLAG_PARTIAL;
      if n == 0 || |s| - HEADER < n then None else Some(Part(v >= FLAG_PARTIAL, s[HEADER..HEADER + n]))
  }

  lemma WordBytes(s: seq<Octet>)
    requires |s| >= HEADER
    ensures GetWord(s) < 0x1_0000_0000 && PutWord(GetWord(s)) == s[..HEADER]
  {
    DigitsOf(s[0], s[1], s[2], s[3]);
  }

  lemma DigitsOf(a: nat, b: nat, c: nat, d: nat)
    requires a < 256 && b < 256 && c < 256 && d < 256
    ensures var v := a * 0x100_0000 + b * 0x1_0000 + c * 256 + d;
            v < 0x1_0000_0000 && v / 0x100_0000 == a && v / 0x1_0000 % 256 == b && v / 256 % 256 == c && v % 256 == d
  {
    var v := a * 0x100_0000 + b * 0x1_0000 + c * 256 + d;
    assert v / 256 == a * 0x1_0000 + b * 256 + c;
    assert v / 0x1_0000 == a * 256 + b;
  }

  /** What is read is the frame of the part that is read. */
  lemma FirstPartBytes(s: seq<Octet>)
    requires FirstPart(s).Some?
    ensures var p := FirstPart(s).value; Frame(p) + s[HEADER + |p.data|..] == s
  {
    hide GetWord, PutWord;
    WordBytes(s);
    var p := FirstPart(s).value;
    assert LenWord(p) == GetWord(s);
    var n := HEADER + |p.data|;
    assert s == s[..HEADER] + s[HEADER..n] + s[n..];
  }

  /** A receiver that has the first bytes of a stream of frames reads the first frame once it is
      complete, and nothing else. */
  lemma FirstPartOfStream(ps: seq<Part>, have: seq<Octet>, rest: seq<Octet>)
    requires AllOk(ps) && have + rest == Stream(ps)
    ensures FirstPart(have).Some? <==> ps != [] && |have| >= HEADER + |ps[0].data|
    ensures FirstPart(have).Some? ==> FirstPart(have) == Some(ps[0])
    ensures FirstPart(have).Some? ==> have[HEADER + |ps[0].data|..] + rest == Stream(ps[1..])
  {
    hide GetWord, LenWord;
    if |have| >= HEADER {
      FrameAhead(ps, have, rest);
      assert ps[0] in ps && PartOk(ps[0]);
      LenWordParts(ps[0]);
      hide Stream;
    } else if ps != [] {
      assert ps[0] in ps && PartOk(ps[0]);
    }
  }

  /** A frame at the head of a stream is the first frame of the stream. */
  lemma FrameIsFirst(ps: seq<Part>, p: Part, rest: seq<Octet>)
    requires AllOk(ps) && Frame(p) + rest == Stream(ps) && 1 <= |p.data| < FLAG_PARTIAL
    ensures ps != [] && p == ps[0] && rest == Stream(ps[1..])
  {
    hide Stream, GetWord, PutWord;
    LenWordParts(p);
    WordRoundTrip(LenWord(p), p.data);
    hide LenWord;
    assert Frame(p)[HEADER..HEADER + |p.data|] == p.data;
    assert FirstPart(Frame(p)) == Some(p);
    FirstPartOfStream(ps, Frame(p), rest);
    assert Frame(p)[HEADER + |p.data|..] + rest == rest;
  }

  /** A receive buffer that is full always holds a complete frame, so that it cannot get stuck. */
  lemma FullBufferHasFrame(ps: seq<Part>, have: seq<Octet>, rest: seq<Octet>)
    requires AllOk(ps) && have + rest == Stream(ps) && |have| == BUFFER_SIZE
    ensures FirstPart(have).Some?
  {
    assert |have + rest| > 0;
    assert ps[0] in ps && PartOk(ps[0]);
    FirstPartOfStream(ps, have, rest);
  }

  // ---- Cutting chunks ----

  function Split(c: Chunk): seq<Part> {
    if |c| <= MAX_PART then [Part(false, c)] else [Part(true, c[..MAX_PART])] + Split(c[MAX_PART..])
  }

  lemma {:induction false} SplitOk(c: Chunk)
    requires |c| >= 1
    ensures AllOk(Split(c))
  {
    if |c| > MAX_PART { SplitOk(c[MAX_PART..]); }
  }

  /** Part i of a chunk: 1048572 bytes from position 1048572 * i, or what is left; all but the last
      are flagged. */
  lemma {:induction false} PartAt(c: Chunk, i: nat)
    requires c != []
    ensures |Split(c)| == (|c| + 0xF_FFFB) / 0xF_FFFC
    ensures i < |Split(c)| ==>
              var from := 0xF_FFFC * i;
              && from < |c|
              && Split(c)[i] == if i + 1 < |Split(c)| then Part(true, c[from..from + 0xF_FFFC])
                                else Part(false, c[from..])
    ensures i + 1 < |Split(c)| ==> 0xF_FFFC * (i + 1) < |c|
    decreases |c|
  {
    if |c| <= MAX_PART {
      assert c[0..] == c;
    } else {
      var rest := c[MAX_PART..];
      PartAt(rest, if i == 0 then 0 else i - 1);
      assert i > 0 && i < |Split(c)| ==> Split(c)[i] == Split(rest)[i - 1];
    }
  }

  function SplitAll(cs: seq<Chunk>): seq<Part> {
    if cs == [] then [] else SplitAll(cs[..|cs| - 1]) + Split(cs[|cs| - 1])
  }

  lemma SplitAllAppend(cs: seq<Chunk>, c: Chunk)
    ensures SplitAll(cs + [c]) == SplitAll(cs) + Split(c)
  {
    assert (cs + [c])[..|cs|] == cs;
  }

  // ---- Joining parts ----

  /** Finished chunks and the chunk being joined. */
  datatype Joined = Joined(chunks: seq<Chunk>, partial: Option<Chunk>)

  function Join(j: Joined, p: Part): Joined {
    var c := if j.partial.Some? then j.partial.value + p.data else p.data;
    if p.more then Joined(j.chunks, Some(c)) else Joined(j.chunks + [c], None)
  }

  function JoinAll(j: Joined, ps: seq<Part>): Joined {
    if ps == [] then j else Join(JoinAll(j, ps[..|ps| - 1]), ps[|ps| - 1])
  }

  lemma {:induction false} JoinAppend(j: Joined, a: seq<Part>, b: seq<Part>)
    ensures JoinAll(j, a + b) == JoinAll(JoinAll(j, a), b)
  {
    if b == [] {
      assert a + b == a;
    } else {
      var n := |b| - 1;
      assert (a + b)[..|a + b| - 1] == a + b[..n];
      JoinAppend(j, a, b[..n]);
    }
  }

  /** Joining never changes a finished chunk. */
  lemma {:induction false} JoinGrows(j: Joined, ps: seq<Part>)
    ensures j.chunks <= JoinAll(j, ps).chunks
  {
    if ps != [] { JoinGrows(j, ps[..|ps| - 1]); }
  }

  /** Joining the parts of a chunk gives the chunk back. */
  lemma {:induction false} JoinSplit(j: Joined, c: Chunk)
    ensures var head := if j.partial.Some? then j.partial.value else [];
            JoinAll(j, Split(c)) == Joined(j.chunks + [head + c], None)
    decreases |c|
  {
    assert [] + c == c;
    if |c| <= MAX_PART {
      JoinOne(j, Part(false, c));
    } else {
      var p, rest := Part(true, c[..MAX_PART]), c[MAX_PART..];
      JoinAppend(j, [p], Split(rest));
      JoinOne(j, p);
      JoinSplit(Join(j, p), rest);
      assert c == c[..MAX_PART] + rest;
      if j.partial.Some? { Assoc(j.partial.value, c[..MAX_PART], rest); }
    }
  }

  lemma Assoc(a: Chunk, b: Chunk, c: Chunk)
    ensures a + (b + c) == a + b + c
  {}

  lemma JoinOne(j: Joined, p: Part)
    ensures JoinAll(j, [p]) == Join(j, p)
  {
    assert [p][..0] == [];
  }

  const START := Joined([], None)

  lemma {:induction false} JoinSplitAll(cs: seq<Chunk>)
    ensures JoinAll(START, SplitAll(cs)) == Joined(cs, None)
  {
    hide Split, Join;
    if cs != [] {
      var n := |cs| - 1;
      JoinSplitAll(cs[..n]);
      JoinAppend(START, SplitAll(cs[..n]), Split(cs[n]));
      JoinSplit(Joined(cs[..n], None), cs[n]);
      assert [] + cs[n] == cs[n];
      assert cs[..n] + [cs[n]] == cs;
    }
  }

  /** Whatever initial run of the parts has been joined, the finished chunks are the first ones. */
  lemma JoinedIsPrefix(cs: seq<Chunk>, done: seq<Part>, todo: seq<Part>)
    requires SplitAll(cs) == done + todo
    ensures JoinAll(START, done).chunks <= cs
    ensures todo == [] ==> JoinAll(START, done).chunks == cs
  {
    JoinAppend(START, done, todo);
    JoinGrows(JoinAll(START, done), todo);
    JoinSplitAll(cs);
    if todo == [] { assert done + todo == done; }
  }

  lemma {:induction false} SplitEnds(c: Chunk)
    ensures Split(c) != [] && !Split(c)[|Split(c)| - 1].more
  {
    if |c| > MAX_PART { SplitEnds(c[MAX_PART..]); }
  }

  lemma SplitAllEnds(cs: seq<Chunk>)
    requires SplitAll(cs) != []
    ensures !SplitAll(cs)[|SplitAll(cs)| - 1].more
  {
    hide Split;
    SplitEnds(cs[|cs| - 1]);
  }

  /** The finished chunks are all of them only once all parts have been joined. */
  lemma JoinedAll(cs: seq<Chunk>, done: seq<Part>, todo: seq<Part>)
    requires SplitAll(cs) == done + todo
    ensures JoinAll(START, done).chunks == cs <==> todo == []
  {
    JoinedIsPrefix(cs, done, todo);
    if todo != [] {
      SplitAllEnds(cs);
      JoinSplitAll(cs);
      JoinAppend(START, done, todo);
      LastCompletes(JoinAll(START, done), todo);
      hide SplitAll, JoinAll;
      assert todo[|todo| - 1] == SplitAll(cs)[|SplitAll(cs)| - 1];
    }
  }

  lemma LastCompletes(j: Joined, ps: seq<Part>)
    requires ps != [] && !ps[|ps| - 1].more
    ensures |JoinAll(j, ps).chunks| > |j.chunks|
  {
    JoinGrows(j, ps[..|ps| - 1]);
  }

  // ---- One direction of a connection ----

  /** The chunks the sender accepted, the parts already taken by the receiver and those still to
      come, and the chunks the receiver returned. */
  datatype Flow = Flow(accepted: seq<Chunk>, done: seq<Part>, todo: seq<Part>, delivered: seq<Chunk>)

  /** bytes is what lies between the two sides. */
  ghost predicate FlowOk(f: Flow, bytes: seq<Octet>, partial: Option<Chunk>) {
    && AllOk(f.todo) && bytes == Stream(f.todo)
    && SplitAll(f.accepted) == f.done + f.todo
    && JoinAll(START, f.done) == Joined(f.delivered, partial)
  }

  lemma NoFlow()
    ensures FlowOk(Flow([], [], [], []), [], None)
  {}

  lemma FlowWrite(f: Flow, bytes: seq<Octet>, partial: Option<Chunk>, c: Chunk)
    requires FlowOk(f, bytes, partial) && c != []
    ensures FlowOk(Flow(f.accepted + [c], f.done, f.todo + Split(c), f.delivered), bytes + Stream(Split(c)), partial)
  {
    hide Split, Stream, JoinAll, SplitAll;
    StreamAppend(f.todo, Split(c));
    SplitAllAppend(f.accepted, c);
    SplitOk(c);
  }

  lemma FlowRead(f: Flow, bytes: seq<Octet>, p: Part, partial: Option<Chunk>, j: Joined)
    requires FlowOk(f, Frame(p) + bytes, partial) && 1 <= |p.data| < FLAG_PARTIAL
    requires Join(Joined([], partial), p) == j
    ensures f.todo != []
    ensures FlowOk(Flow(f.accepted, f.done + [p], f.todo[1..], f.delivered + j.chunks), bytes, j.partial)
  {
    hide Frame, Stream, SplitAll, JoinAll;
    FrameIsFirst(f.todo, p, bytes);
    JoinAppend(START, f.done, [p]);
    JoinOne(Joined(f.delivered, partial), p);
    assert f.done + f.todo == f.done + [p] + f.todo[1..];
  }

  /** Once a read finds no frame and nothing is left on the way, every chunk has been delivered. */
  lemma NothingLost(f: Flow, unread: seq<Octet>, partial: Option<Chunk>)
    requires FlowOk(f, unread, partial) && FirstPart(unread).None?
    ensures f.delivered == f.accepted && partial == None && unread == [] && f.todo == []
  {
    hide SplitAll, FirstPart, JoinAll;
    assert unread + [] == unread;
    FirstPartOfStream(f.todo, unread, []);
    if f.todo != [] { StreamLength(f.todo); }
    JoinedIsPrefix(f.accepted, f.done, f.todo);
    JoinSplitAll(f.accepted);
    assert f.done + [] == f.done;
  }

  lemma StreamLength(ps: seq<Part>)
    requires ps != []
    ensures |Stream(ps)| >= HEADER + |ps[0].data|
  {}
}
