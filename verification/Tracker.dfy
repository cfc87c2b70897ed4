/** The response parser of BitTorrentTracker.cc as it runs: bytes are appended to the buffer as
    they arrive and the loop picks up where it stopped. */
module Tracker {
  import opened Octets
  import opened Bencode
  import opened BencodeProofs
  import opened BencodeVerdicts
  import opened BencodeNumbers
  import opened BencParser

  class Parser {
    var buf: seq<Octet>
    var v: Vars
    ghost var c: Config

    ghost predicate Valid()
      reads this
    {
      Stands(c, buf, v)
    }

    constructor ()
      ensures Valid() && c == START && buf == [] && v.pos == 0
    {
      buf := [];
      v := Vars(0, [], [], Empty, 0, None, 0, None, 0, 0, 0, 0, 0, 0, []);
      c := START;
    }

    /** The bytes d and l between tokens. */
    method OpenCompound(k: Kind) returns (r: Result)
      requires Ready(c, buf, v) && c.tok == Gap && buf[v.pos] == Opening(k)
      modifies this`v, this`c
      ensures Followed(old(c), buf, old(v), c, v, r)
    {
      hide Stands, Base, Step, ConfigOk, Pushed, Count, Dictionary, EventsOf, Text;
      assert Base(c, buf, v) by { StandsBase(c, buf, v); }
      TopNow(c, buf, v);
      Push(c, k, buf, v);
      var n := |v.stack|;
      if n == 0 && k == L {
        return Violation;
      }
      if n > 0 && v.stack[n - 1] == D && v.count[n - 1] % 2 == 0 {
        return Violation;
      }
      if n == 1 {
        v := v.(raw := v.pos, rawType := Some(k));
      }
      if n >= 1 {
        v := v.(rawLen := v.rawLen + 1);
      }
      v := v.(stack := v.stack + [k], count := v.count + [0], pos := v.pos + 1);
      c := Pushed(c, k);
      return NeedMore;
    }

    /** The byte e between tokens. */
    method CloseCompound() returns (r: Result)
      requires Ready(c, buf, v) && c.tok == Gap && buf[v.pos] == LOWER_E
      modifies this`v, this`c
      ensures Followed(old(c), buf, old(v), c, v, r)
    {
      hide Stands, Base, Step, ConfigOk, Count, EventsOf, Text, WellFormed, TopValue, Inner, IncCount, Dictionary, Add;
      assert Base(c, buf, v) by { StandsBase(c, buf, v); }
      TopNow(c, buf, v);
      CloseStep(c);
      var n := |v.stack|;
      if n == 0 {
        return Violation;
      }
      if v.stack[n - 1] == D && v.count[n - 1] % 2 == 1 {
        return Violation;
      }
      if n == 1 {
        DoneEvents(c, buf, v);
        v := v.(pos := v.pos + 1);
        return Success;
      }
      ghost var was := v;
      if v.rawType.Some? {
        v := v.(rawLen := v.rawLen + 1);
      }
      if n == 2 {
        MemberSlices(c, buf, was);
        v := v.(events := v.events + [RawEvent(buf[v.key.value..v.key.value + v.keyLen], v.rawType.value,
                                               buf[v.raw..v.raw + v.rawLen])],
                key := None, keyLen := 0, raw := 0, rawLen := 0, rawType := None);
      }
      v := v.(stack := v.stack[..n - 1], count := IncCount(v.count[..n - 1]), pos := v.pos + 1);
      InnerOpen(c);
      if n == 2 {
        CloseMember(c, buf, was, v);
      } else {
        CloseDeeper(c, buf, was, v);
      }
      c := Add(Inner(c).frames, TopValue(c));
      return NeedMore;
    }

    /** The byte i, or a digit, between tokens. */
    method StartToken(b: Octet) returns (r: Result)
      requires Ready(c, buf, v) && c.tok == Gap && b == buf[v.pos] && (b == LOWER_I || IsDigit(b))
      modifies this`v, this`c
      ensures Followed(old(c), buf, old(v), c, v, r)
    {
      hide Stands, Base, Step, ConfigOk, Count, Dictionary, EventsOf, Text;
      assert Base(c, buf, v) by { StandsBase(c, buf, v); }
      TopNow(c, buf, v);
      StartStep(c, b);
      var n := |v.stack|;
      if n == 0 {
        return Violation;
      }
      ghost var was, t := v, if b == LOWER_I then IntHead else StrLen([b]);
      if b == LOWER_I {
        if v.stack[n - 1] == D && v.count[n - 1] % 2 == 0 {
          return Violation;
        }
        v := v.(state := Int1);
      } else {
        v := v.(strlenAt := v.pos, state := Str1);
      }
      v := v.(rawLen := RawLen(v, 1), pos := v.pos + 1);
      Retoken(c, t, buf, was, v);
      c := Config(c.frames, t);
      return NeedMore;
    }

    /** The next byte of an integer before its end. */
    method ReadInt(b: Octet) returns (r: Result)
      requires Ready(c, buf, v) && b == buf[v.pos]
      requires c.tok == IntHead || c.tok == IntNeg || (c.tok.IntDigits? && b != LOWER_E)
      modifies this`v, this`c
      ensures Followed(old(c), buf, old(v), c, v, r)
    {
      hide Stands, Base, Step, ConfigOk, Dictionary, EventsOf, Text;
      assert Base(c, buf, v) by { StandsBase(c, buf, v); }
      StateOf(c, buf, v);
      IntStep(c, b);
      ghost var was, t := v, IntAfter(c.tok, b);
      if v.state == Int1 {
        v := v.(intAt := v.pos);
      }
      if v.state == Int1 && b == MINUS {
        v := v.(state := Int2);
      } else if IsDigit(b) {
        v := v.(state := Int3);
      } else {
        return Violation;
      }
      v := v.(rawLen := RawLen(v, 1), pos := v.pos + 1);
      Retoken(c, t, buf, was, v);
      c := Config(c.frames, t);
      return NeedMore;
    }

    /** The end of an integer. */
    method EndInt() returns (r: Result)
      requires Ready(c, buf, v) && c.tok.IntDigits? && buf[v.pos] == LOWER_E
      modifies this`v, this`c
      ensures Followed(old(c), buf, old(v), c, v, r)
    {
      hide Stands, Base, Step, ConfigOk, ConfigText, Dictionary, EventsOf, Text, WellFormed, IsKey, IsMember,
           LeadingInt, SignedNum;
      assert Base(c, buf, v) by { StandsBase(c, buf, v); }
      ghost var w := Int(c.tok.neg, c.tok.ds);
      ghost var was := v;
      StateOf(c, buf, v);
      IntEnds(c, buf, v, w);
      StackIs(c, buf, v);
      Complete(c, w, buf, v, v.pos + 1, v.strHave);
      if |v.stack| == 1 {
        v := v.(events := v.events + [IntEvent(buf[v.key.value..v.key.value + v.keyLen], LeadingInt(buf[v.intAt..]))],
                key := None, keyLen := 0);
      }
      v := v.(count := IncCount(v.count), state := Empty, rawLen := RawLen(v, 1), pos := v.pos + 1);
      assert v == Completed(c, w, buf, was, was.pos + 1);
      c := Add(c.frames, w);
      return NeedMore;
    }

    /** The next byte of a string's length. */
    method ReadLength(b: Octet) returns (r: Result)
      requires Ready(c, buf, v) && c.tok.StrLen? && b == buf[v.pos]
      modifies this`v, this`c
      ensures Followed(old(c), buf, old(v), c, v, r)
    {
      hide Stands, Base, Step, ConfigOk, Dictionary, EventsOf, Text, Num;
      assert Base(c, buf, v) by { StandsBase(c, buf, v); }
      LengthStep(c, buf, v);
      ghost var was := v;
      if IsDigit(b) {
        v := v.(rawLen := RawLen(v, 1), pos := v.pos + 1);
        Retoken(c, StrLen(c.tok.ds + [b]), buf, was, v);
        c := Config(c.frames, StrLen(c.tok.ds + [b]));
        return NeedMore;
      }
      if b != COLON {
        return Violation;
      }
      LengthIs(c, buf, v);
      v := v.(strLen := LeadingNum(buf[v.strlenAt..]), strHave := 0, str := v.pos + 1);
      if |v.stack| == 1 && v.count[0] % 2 == 0 {
        v := v.(key := Some(v.str), keyLen := v.strLen);
      }
      v := v.(rawLen := RawLen(v, 1), state := Str2, pos := v.pos + 1);
      ColonStands(c, buf, was, v);
      c := Config(c.frames, StrBody(c.tok.ds, []));
      return NeedMore;
    }

    /** As much of a string as has arrived; an empty string takes no byte. */
    method ReadBody(ghost later: seq<Octet>)
      requires Ready(c, buf, v) && c.tok.StrBody?
      modifies this`v, this`c
      ensures Valid() && old(v.pos) <= v.pos && (v.pos > old(v.pos) || v.state != Str2)
      ensures ConfigOk(old(c)) && ConfigOk(c) && v.pos <= |buf|
      ensures Scan(c, buf[v.pos..] + later) == Scan(old(c), buf[old(v.pos)..] + later)
    {
      hide Stands, Base, Step, ConfigOk, Dictionary, EventsOf, Text, WellFormed, Num, Scan;
      StateOf(c, buf, v);
      ghost var was, ds, got := v, c.tok.ds, c.tok.got;
      BodyPlace(c, buf, v, later);
      if v.strHave < v.strLen {
        var len := |buf| - v.pos;
        var seek := if len < v.strLen - v.strHave then len else v.strLen - v.strHave;
        BodyScan(c, buf, v, seek, later);
        v := v.(strHave := v.strHave + seek, rawLen := RawLen(v, seek), pos := v.pos + seek);
      }
      ghost var n := v.pos - was.pos;
      if v.strHave == v.strLen {
        EndBody(was, n);
      } else {
        BodyGrows(c, buf, was, n);
        c := Config(c.frames, StrBody(ds, got + buf[was.pos..was.pos + n]));
      }
    }

    /** A string all of whose bytes have arrived. */
    method EndBody(ghost was: Vars, ghost n: nat)
      requires Ready(c, buf, was) && c.tok.StrBody? && was.pos + n <= |buf| && |c.tok.got| + n == Num(c.tok.ds)
      requires v == was.(strHave := was.strHave + n, rawLen := RawLen(was, n), pos := was.pos + n)
      modifies this`v, this`c
      ensures Valid() && v.state == Empty && v.pos == was.pos + n
      ensures old(c.frames) != []
      ensures c == Add(old(c.frames), Str(old(c.tok.ds), old(c.tok.got) + buf[was.pos..was.pos + n]))
    {
      hide Stands, Base, Step, ConfigOk, ConfigText, Text, WellFormed, Num, IsKey, IsMember;
      ghost var w := Str(c.tok.ds, c.tok.got + buf[was.pos..was.pos + n]);
      BodyEnds(c, buf, was, n, w);
      BodyStack(c, buf, was);
      Complete(c, w, buf, was, v.pos, v.strHave);
      if |v.stack| == 1 && v.key.Some? && v.key.value != v.str {
        v := v.(events := v.events + [StrEvent(buf[v.key.value..v.key.value + v.keyLen], buf[v.str..v.str + v.strLen])],
                key := None, keyLen := 0);
      }
      v := v.(count := IncCount(v.count), state := Empty);
      c := Add(c.frames, w);
    }

    /** The next byte, outside the body of a string. */
    method ReadByte() returns (r: Result)
      requires Ready(c, buf, v) && !c.tok.StrBody?
      modifies this`v, this`c
      ensures Followed(old(c), buf, old(v), c, v, r)
    {
      hide Stands, Step, Followed, ConfigOk;
      StateOf(c, buf, v);
      var b := buf[v.pos];
      if v.state == Empty {
        if b == LOWER_D || b == LOWER_L {
          r := OpenCompound(if b == LOWER_D then D else L);
        } else if b == LOWER_E {
          r := CloseCompound();
        } else if b == LOWER_I || IsDigit(b) {
          r := StartToken(b);
        } else {
          NoToken(c, buf, v);
          return Violation;
        }
      } else if v.state == Str1 {
        r := ReadLength(b);
      } else if v.state == Int3 && b == LOWER_E {
        r := EndInt();
      } else {
        r := ReadInt(b);
      }
    }

    /** Reads what is in the buffer. Whatever arrives later, the answers together are the verdict
        on all bytes from where this call started. */
    method ResponseParseBenc(ghost later: seq<Octet>) returns (r: Result)
      requires Valid()
      modifies this`v, this`c
      ensures ConfigOk(old(c)) && old(v.pos) <= |buf|
      ensures r == NeedMore ==> Valid() && v.pos == |buf|
      ensures r == NeedMore ==> ConfigOk(c) && Scan(old(c), buf[old(v.pos)..] + later) == Scan(c, later)
      ensures r != NeedMore ==> Scan(old(c), buf[old(v.pos)..] + later) == Verdict(r, v.events)
    {
      hide Stands, Step, Followed, ConfigOk, Scan;
      StateOf(c, buf, v);
      while v.pos < |buf|
        invariant Valid() && ConfigOk(c) && v.pos <= |buf|
        invariant Scan(c, buf[v.pos..] + later) == Scan(old(c), buf[old(v.pos)..] + later)
        decreases |buf| - v.pos, v.state == Str2
      {
        StateOf(c, buf, v);
        if v.state == Str2 {
          ReadBody(later);
        } else {
          ghost var was, at := c, v;
          r := ReadByte();
          ScanFollowed(was, buf, at, c, v, r, later);
          if r != NeedMore {
            return r;
          }
        }
        StateOf(c, buf, v);
      }
      assert buf[v.pos..] + later == later;
      return NeedMore;
    }

    /** More bytes of the response. */
    method Append(data: seq<Octet>)
      requires Valid()
      modifies this`buf
      ensures Valid() && buf == old(buf) + data
    {
      Extend(c, buf, data, v);
      buf := buf + data;
    }
  }

  lemma Extend(c: Config, buf: seq<Octet>, data: seq<Octet>, v: Vars)
    requires Stands(c, buf, v)
    ensures Stands(c, buf + data, v)
  {
    hide Num, EventsOf;
    assert (buf + data)[..v.pos] == buf[..v.pos];
    if c.frames != [] {
      assert c.frames[0] in c.frames;
      var vs := c.frames[0].items;
      if !KeyNext(D, vs) {
        assert (buf + data)[v.key.value..v.key.value + v.keyLen] == buf[v.key.value..v.key.value + v.keyLen];
      }
    }
  }

  lemma NoToken(c: Config, buf: seq<Octet>, v: Vars)
    requires Ready(c, buf, v) && c.tok == Gap
    requires buf[v.pos] !in {LOWER_D, LOWER_L, LOWER_E, LOWER_I} && !IsDigit(buf[v.pos])
    ensures Followed(c, buf, v, c, v, Violation)
  {}

  lemma ScanFollowed(c: Config, buf: seq<Octet>, v: Vars, c': Config, v': Vars, r: Result, later: seq<Octet>)
    requires Ready(c, buf, v) && !c.tok.StrBody? && Followed(c, buf, v, c', v', r)
    ensures ConfigOk(c) && v.pos < |buf|
    ensures r == NeedMore ==> Stands(c', buf, v') && v'.pos == v.pos + 1 <= |buf| && ConfigOk(c')
    ensures r == NeedMore ==> Scan(c, buf[v.pos..] + later) == Scan(c', buf[v'.pos..] + later)
    ensures r != NeedMore ==> Scan(c, buf[v.pos..] + later) == Verdict(r, v'.events)
  {
    hide Step, Stands, Settle, ConfigOk, Reported, EventsOf, Dictionary;
    var w := buf[v.pos..] + later;
    assert w[0] == buf[v.pos] && w[1..] == buf[v.pos + 1..] + later;
    StateOf(c, buf, v);
    EventsNow(c, buf, v);
    StepOk(c, w[0]);
    if r == NeedMore { StateOf(c', buf, v'); }
  }

  lemma EventsNow(c: Config, buf: seq<Octet>, v: Vars)
    requires Stands(c, buf, v) && !c.tok.StrBody?
    ensures ConfigOk(c) && v.events == Reported(c) && Settle(c) == c
  {}

  function Concat(chunks: seq<seq<Octet>>): seq<Octet> {
    if chunks == [] then [] else chunks[0] + Concat(chunks[1..])
  }

  /** However a response is cut into pieces, the result and the events are the verdict on the
      whole: success exactly when it begins with a dictionary of the grammar, and then one event
      for each member, nested members as exactly their bytes; more needed exactly when it begins a
      longer dictionary, a violation exactly when it does neither, and then no event that the
      dictionaries it could have become would not report. */
  method ParseResponse(chunks: seq<seq<Octet>>) returns (r: Result, events: seq<Event>)
    ensures ConfigOk(START) && Scan(START, Concat(chunks)) == Verdict(r, events)
    ensures r == Success <==> exists d :: Dictionary(d) && Text(d) <= Concat(chunks)
    ensures forall d :: Dictionary(d) && Text(d) <= Concat(chunks) ==> events == EventsOf(d.items)
    ensures r == NeedMore <==> exists d :: Dictionary(d) && Concat(chunks) < Text(d)
    ensures forall d :: Dictionary(d) && Concat(chunks) < Text(d) ==> events <= EventsOf(d.items)
    ensures r == Violation <==>
              forall d :: Dictionary(d) ==> !(Concat(chunks) <= Text(d)) && !(Text(d) <= Concat(chunks))
    ensures r == Violation ==> exists n :: BreaksAt(Concat(chunks), n, events)
  {
    hide Stands, ConfigOk, Scan, Text, Concat, BreaksAt;
    var p := new Parser();
    StateOf(p.c, p.buf, p.v);
    ScanExact(Concat(chunks));
    NeedMoreExact(Concat(chunks));
    ViolationExact(Concat(chunks));
    r := NeedMore;
    var i := 0;
    assert chunks[0..] == chunks;
    while i < |chunks| && r == NeedMore
      invariant 0 <= i <= |chunks| && fresh(p)
      invariant r == NeedMore ==> p.Valid() && p.v.pos == |p.buf| && ConfigOk(p.c)
      invariant r == NeedMore ==> Scan(p.c, Concat(chunks[i..])) == Scan(START, Concat(chunks))
      invariant r != NeedMore ==> Scan(START, Concat(chunks)) == Verdict(r, p.v.events)
    {
      ConcatStep(chunks, i);
      p.Append(chunks[i]);
      assert p.buf[p.v.pos..] == chunks[i];
      r := p.ResponseParseBenc(Concat(chunks[i + 1..]));
      i := i + 1;
    }
    events := p.v.events;
    if r == NeedMore {
      ConcatEnds(chunks);
      Ends(p.c, p.buf, p.v, Concat(chunks[i..]));
    }
  }

  /** A response with an integer, a string and a list of strings, however it is cut: the number is read
      in base ten and reported with its sign, the string by its length, the list as its bytes. */
  method ParseMembers(k: seq<Octet>, n: int, l: seq<Octet>, s: seq<Octet>, m: seq<Octet>, ss: seq<seq<Octet>>,
                      chunks: seq<seq<Octet>>)
    returns (r: Result, events: seq<Event>)
    requires Concat(chunks) == Response(k, n, l, s, m, ss)
    ensures r == Success && events == [IntEvent(k, n), StrEvent(l, s), RawEvent(m, L, ListForm(ss))]
  {
    hide Response, Text, Concat, Dictionary, EventsOf;
    ghost var d := ResponseIs(k, n, l, s, m, ss);
    r, events := ParseResponse(chunks);
    assert Text(d) <= Concat(chunks);
  }

  /** d1:ai-10e1:b10:bcdefghijk1:cl1:xee in two pieces, cut inside the integer. */
  method ParseSample() returns (r: Result, events: seq<Event>)
    ensures r == Success
    ensures events == [IntEvent([0x61], -10),
                       StrEvent([0x62], [0x62, 0x63, 0x64, 0x65, 0x66, 0x67, 0x68, 0x69, 0x6A, 0x6B]),
                       RawEvent([0x63], L, [0x6C, 0x31, 0x3A, 0x78, 0x65])]
  {
    var s := [0x62, 0x63, 0x64, 0x65, 0x66, 0x67, 0x68, 0x69, 0x6A, 0x6B];
    var a := [0x64, 0x31, 0x3A, 0x61, 0x69, 0x2D, 0x31];
    var b := [0x30, 0x65, 0x31, 0x3A, 0x62, 0x31, 0x30, 0x3A] + s +
             [0x31, 0x3A, 0x63, 0x6C, 0x31, 0x3A, 0x78, 0x65, 0x65];
    SampleText(a, b, s);
    hide Response, ListForm, Concat;
    r, events := ParseMembers([0x61], -10, [0x62], s, [0x63], [[0x78]], [a, b]);
  }

  lemma SampleText(a: seq<Octet>, b: seq<Octet>, s: seq<Octet>)
    requires |s| == 10 && a == [0x64, 0x31, 0x3A, 0x61, 0x69, 0x2D, 0x31]
    requires b == [0x30, 0x65, 0x31, 0x3A, 0x62, 0x31, 0x30, 0x3A] + s +
                  [0x31, 0x3A, 0x63, 0x6C, 0x31, 0x3A, 0x78, 0x65, 0x65]
    ensures ListForm([[0x78]]) == [0x6C, 0x31, 0x3A, 0x78, 0x65]
    ensures Concat([a, b]) == Response([0x61], -10, [0x62], s, [0x63], [[0x78]])
  {
    SampleForms(s);
    SampleConcat(a, b);
    hide StrForm, IntForm, ListForm, Concat;
    var x, y := [0x64, 0x31, 0x3A, 0x61, 0x69, 0x2D, 0x31, 0x30, 0x65, 0x31, 0x3A, 0x62],
                [0x31, 0x3A, 0x63, 0x6C, 0x31, 0x3A, 0x78, 0x65, 0x65];
    var f := [0x31, 0x3A, 0x63];
    var g := [0x6C, 0x31, 0x3A, 0x78, 0x65];
    assert [0x64] + [0x31, 0x3A, 0x61] + [0x69, 0x2D, 0x31, 0x30, 0x65] + [0x31, 0x3A, 0x62] == x;
    assert f + g + [0x65] == y;
    assert a + [0x30, 0x65, 0x31, 0x3A, 0x62, 0x31, 0x30, 0x3A] == x + [0x31, 0x30, 0x3A];
    SampleJoin(a, [0x30, 0x65, 0x31, 0x3A, 0x62, 0x31, 0x30, 0x3A], x, [0x31, 0x30, 0x3A], s, f, g, [0x65]);
  }

  lemma SampleJoin(a: seq<Octet>, b: seq<Octet>, x: seq<Octet>, h: seq<Octet>, s: seq<Octet>, f: seq<Octet>,
                   g: seq<Octet>, z: seq<Octet>)
    requires a + b == x + h
    ensures a + (b + s + (f + g + z)) == x + (h + s) + f + g + z
  {
    assert a + (b + s + (f + g + z)) == a + b + s + (f + g + z);
  }

  lemma SampleForms(s: seq<Octet>)
    requires |s| == 10
    ensures StrForm([0x61]) == [0x31, 0x3A, 0x61] && StrForm([0x62]) == [0x31, 0x3A, 0x62]
    ensures StrForm([0x63]) == [0x31, 0x3A, 0x63] && StrForm(s) == [0x31, 0x30, 0x3A] + s
    ensures IntForm(-10) == [0x69, 0x2D, 0x31, 0x30, 0x65] && ListForm([[0x78]]) == [0x6C, 0x31, 0x3A, 0x78, 0x65]
  {
    SampleDecimals();
    hide Decimal;
    assert [[0x78]][..0] == [];
  }

  lemma SampleDecimals()
    ensures Decimal(1) == [0x31] && Decimal(10) == [0x31, 0x30]
  {
    assert Decimal(10) == Decimal(1) + [0x30];
  }

  lemma SampleConcat(a: seq<Octet>, b: seq<Octet>)
    ensures Concat([a, b]) == a + b
  {
    assert [a, b][1..] == [b] && [b][1..] == [] && Concat([b]) == b + [];
  }

  lemma {:induction false} ConcatEnds(chunks: seq<seq<Octet>>)
    ensures Concat(chunks[|chunks|..]) == []
  {}

  lemma ConcatStep(chunks: seq<seq<Octet>>, i: nat)
    requires i < |chunks|
    ensures Concat(chunks[i..]) == chunks[i] + Concat(chunks[i + 1..])
  {
    assert chunks[i..][1..] == chunks[i + 1..];
  }

  lemma Ends(c: Config, buf: seq<Octet>, v: Vars, w: seq<Octet>)
    requires Stands(c, buf, v) && w == []
    ensures ConfigOk(c) && Scan(c, w) == Verdict(NeedMore, v.events)
  {}

  lemma DoneEvents(c: Config, buf: seq<Octet>, v: Vars)
    requires Ready(c, buf, v) && c.tok == Gap && |c.frames| == 1 && MayClose(c)
    ensures Dictionary(TopValue(c)) && v.events == EventsOf(TopValue(c).items)
  {
    assert c.frames[0] in c.frames;
  }

  lemma MemberSlices(c: Config, buf: seq<Octet>, v: Vars)
    requires Ready(c, buf, v) && c.tok == Gap && |c.frames| == 2 && buf[v.pos] == LOWER_E
    ensures v.key.Some? && v.key.value + v.keyLen <= |buf| && v.rawType.Some? && v.raw + v.rawLen + 1 <= |buf|
  {
    RawBytes(c, buf, v);
    assert c.frames[0] in c.frames && !KeyNext(c.frames[0].kind, c.frames[0].items);
  }

  lemma StartStep(c: Config, b: Octet)
    requires ConfigOk(c) && c.tok == Gap && (b == LOWER_I || IsDigit(b))
    ensures c.frames == [] || (b == LOWER_I && KeyNext(Top(c).kind, Top(c).items)) ==> Step(c, b) == Bad
    ensures c.frames != [] && b == LOWER_I && !KeyNext(Top(c).kind, Top(c).items) ==>
              Step(c, b) == More(Config(c.frames, IntHead))
    ensures c.frames != [] && IsDigit(b) ==> Step(c, b) == More(Config(c.frames, StrLen([b])))
  {}

  lemma StateOf(c: Config, buf: seq<Octet>, v: Vars)
    requires Stands(c, buf, v)
    ensures TokenOk(c.tok) && TokOk(c.tok, v.state, v.pos, v.strlenAt, v.str, v.strLen, v.strHave, v.intAt)
    ensures ConfigOk(c) && v.pos <= |buf|
  {}

  ghost function IntAfter(t: Token, b: Octet): Token {
    match t
    case IntHead => if b == MINUS then IntNeg else IntDigits(false, [b])
    case IntNeg => IntDigits(true, [b])
    case IntDigits(neg, ds) => IntDigits(neg, ds + [b])
    case _ => t
  }

  lemma IntStep(c: Config, b: Octet)
    requires ConfigOk(c) && (c.tok == IntHead || c.tok == IntNeg || (c.tok.IntDigits? && b != LOWER_E))
    ensures Step(c, b) == if (c.tok == IntHead && b == MINUS) || IsDigit(b)
                          then More(Config(c.frames, IntAfter(c.tok, b))) else Bad
  {}

  lemma StackIs(c: Config, buf: seq<Octet>, v: Vars)
    requires Base(c, buf, v)
    ensures |v.stack| == |c.frames| && (c.frames != [] && !IsKey(c) ==> (IsMember(c) <==> |v.stack| == 1))
  {}

  lemma LengthStep(c: Config, buf: seq<Octet>, v: Vars)
    requires Ready(c, buf, v) && c.tok.StrLen?
    ensures var b := buf[v.pos];
            && ConfigOk(c) && Numeral(c.tok.ds) && v.state == Str1 && v.strlenAt + |c.tok.ds| == v.pos
            && (IsDigit(b) ==> Step(c, b) == More(Config(c.frames, StrLen(c.tok.ds + [b]))) && Numeral(c.tok.ds + [b]))
            && (!IsDigit(b) && b != COLON ==> Step(c, b) == Bad)
  {}

  lemma BodyPlace(c: Config, buf: seq<Octet>, v: Vars, later: seq<Octet>)
    requires Ready(c, buf, v) && c.tok.StrBody?
    ensures c.frames != [] && v.strHave <= v.strLen && |c.tok.got| == v.strHave && v.strLen == Num(c.tok.ds)
    ensures v.strLen == 0 ==>
              var d := Add(c.frames, Str(c.tok.ds, c.tok.got + buf[v.pos..v.pos]));
              ConfigOk(d) && Scan(c, buf[v.pos..] + later) == Scan(d, buf[v.pos..] + later)
  {
    hide Num;
    if v.strLen == 0 {
      ScanSettled(c, buf[v.pos..] + later);
      assert c.tok.got + buf[v.pos..v.pos] == [];
    }
  }

  lemma BodyScan(c: Config, buf: seq<Octet>, v: Vars, n: nat, later: seq<Octet>)
    requires Ready(c, buf, v) && c.tok.StrBody? && c.frames != [] && 1 <= n && v.pos + n <= |buf|
    requires v.strHave + n <= Num(c.tok.ds)
    ensures var d := Grow(c.frames, c.tok.ds, c.tok.got + buf[v.pos..v.pos + n]);
            ConfigOk(d) && Scan(c, buf[v.pos..] + later) == Scan(d, buf[v.pos + n..] + later)
  {
    hide Num, Scan, Grow;
    var w := buf[v.pos..] + later;
    assert w[..n] == buf[v.pos..v.pos + n] && w[n..] == buf[v.pos + n..] + later;
    ScanSeek(c.frames, c.tok.ds, c.tok.got, w, n);
  }

  lemma BodyStack(c: Config, buf: seq<Octet>, v: Vars)
    requires Stands(c, buf, v) && c.frames != []
    ensures |v.stack| == |c.frames| && (|v.stack| == 1 <==> IsMember(c) || IsKey(c))
  {}
}
