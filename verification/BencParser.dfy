/** The resumable bencode parser of BitTorrentTracker.cc: a stack, counters and buffer positions,
    changed as bytes arrive. */
module BencParser {
  import opened Octets
  import opened Bencode
  import opened BencodeProofs

  datatype State = Empty | Int1 | Int2 | Int3 | Str1 | Str2

  // ---- How the parser's variables stand for a configuration ----

  ghost predicate StackOk(c: Config, stack: seq<Kind>, count: seq<nat>) {
    && |stack| == |c.frames| && |count| == |c.frames|
    && forall i :: 0 <= i < |c.frames| ==> stack[i] == c.frames[i].kind && count[i] == Count(c.frames[i].items)
  }

  /** The key that the next value of the outer dictionary belongs to. */
  ghost function LastKey(vs: Vals): seq<Octet>
    requires ItemsOk(D, vs) && !KeyNext(D, vs)
  {
    assert vs.Snoc? && KeyNext(D, vs.init);
    vs.last.data
  }

  ghost predicate KeyOk(c: Config, buf: seq<Octet>, pos: nat, key: Option<nat>, keyLen: nat, str: nat, strLen: nat)
    requires ConfigOk(c) && pos <= |buf|
  {
    c.frames != [] ==>
      assert c.frames[0] in c.frames;
      var vs := c.frames[0].items;
      if KeyNext(D, vs) then c.tok.StrBody? ==> key == Some(str) && keyLen == strLen
      else
        && key.Some? && key.value + keyLen <= pos && buf[key.value..key.value + keyLen] == LastKey(vs)
        && (c.tok.StrBody? ==> key.value < str)
  }

  ghost predicate RawOk(c: Config, pos: nat, raw: nat, rawType: Option<Kind>, rawLen: nat) {
    if |c.frames| >= 2 then
      rawType == Some(c.frames[1].kind) && raw == |FramesText(c.frames[..1])| && raw + rawLen == pos
    else rawType == None && rawLen == 0
  }

  ghost predicate TokOk(t: Token, state: State, pos: nat, strlenAt: nat, str: nat, strLen: nat, strHave: nat,
                        intAt: nat)
    requires TokenOk(t)
  {
    match t
    case Gap => state == Empty
    case IntHead => state == Int1
    case IntNeg => state == Int2 && intAt + 1 == pos
    case IntDigits(neg, ds) => state == Int3 && intAt + |Sign(neg)| + |ds| == pos
    case StrLen(ds) => state == Str1 && strlenAt + |ds| == pos
    case StrBody(ds, got) => state == Str2 && strLen == Num(ds) && strHave == |got| && str + strHave == pos
  }

  /** The decimal number at the head of s, as sscanf reads it. */
  function LeadingNum(s: seq<Octet>): nat {
    Num(LeadingDigits(s))
  }

  function LeadingDigits(s: seq<Octet>): (ds: seq<Octet>)
    ensures AllDigits(ds)
  {
    if s == [] || !IsDigit(s[0]) then [] else [s[0]] + LeadingDigits(s[1..])
  }

  function LeadingInt(s: seq<Octet>): int {
    if s != [] && s[0] == MINUS then -(LeadingNum(s[1..]) as int) else LeadingNum(s)
  }

  lemma {:induction false} LeadingDigitsOf(ds: seq<Octet>, rest: seq<Octet>)
    requires AllDigits(ds) && rest != [] && !IsDigit(rest[0])
    ensures LeadingDigits(ds + rest) == ds
  {
    if ds == [] {
      assert ds + rest == rest;
    } else {
      assert ds[0] in ds && AllDigits(ds[1..]);
      assert (ds + rest)[1..] == ds[1..] + rest;
      LeadingDigitsOf(ds[1..], rest);
    }
  }

  lemma LeadingIntOf(neg: bool, ds: seq<Octet>, rest: seq<Octet>)
    requires Numeral(ds) && rest != [] && !IsDigit(rest[0])
    ensures LeadingInt(Sign(neg) + ds + rest) == SignedNum(neg, ds)
  {
    hide Num, LeadingDigits;
    LeadingDigitsOf(ds, rest);
    var s := Sign(neg) + ds + rest;
    if neg {
      assert s[1..] == ds + rest;
    } else {
      assert s == ds + rest;
      assert ds[0] in ds;
    }
  }

  /** The bytes of a token are the last bytes read. */
  lemma TailIs(buf: seq<Octet>, pos: nat, x: seq<Octet>, t: seq<Octet>, at: nat)
    requires pos <= |buf| && buf[..pos] == x + t && at + |t| == pos
    ensures buf[at..pos] == t && buf[at..] == t + buf[pos..]
  {
    assert buf[at..pos] == buf[..pos][at..];
  }

  // ---- Counting and reporting ----

  lemma ReportKey(vs: Vals, v: Val)
    requires ItemsOk(D, Snoc(vs, v)) && KeyNext(D, vs)
    ensures EventsOf(Snoc(vs, v)) == EventsOf(vs) && !KeyNext(D, Snoc(vs, v)) && LastKey(Snoc(vs, v)) == v.data
  {
    hide WellFormed, EventOf;
    assert Count(Snoc(vs, v)) == Count(vs) + 1;
  }

  lemma ReportValue(vs: Vals, v: Val)
    requires ItemsOk(D, Snoc(vs, v)) && !KeyNext(D, vs)
    ensures EventsOf(Snoc(vs, v)) == EventsOf(vs) + [EventOf(LastKey(vs), v)] && KeyNext(D, Snoc(vs, v))
  {
    hide WellFormed, EventOf;
    assert vs.Snoc? && KeyNext(D, vs.init);
  }

  /** Scanning a settled configuration gives the same verdict. */
  lemma ScanSettled(c: Config, w: seq<Octet>)
    requires ConfigOk(c) && w != []
    ensures ConfigOk(Settle(c)) && Scan(c, w) == Scan(Settle(c), w)
  {
    SettleOk(c);
    SettleTwice(c);
    hide Settle, ConfigOk;
  }

  /** Taking n bytes of a string at once is taking them one by one. */
  lemma {:induction false} ScanSeek(frames: seq<Frame>, ds: seq<Octet>, got: seq<Octet>, w: seq<Octet>, n: nat)
    requires ConfigOk(Config(frames, StrBody(ds, got))) && frames != []
    requires 1 <= n <= |w| && |got| + n <= Num(ds)
    ensures ConfigOk(Grow(frames, ds, got + w[..n]))
    ensures Scan(Config(frames, StrBody(ds, got)), w) == Scan(Grow(frames, ds, got + w[..n]), w[n..])
    decreases n
  {
    hide Num;
    var c := Config(frames, StrBody(ds, got));
    var d := Grow(frames, ds, got + [w[0]]);
    StepOk(c, w[0]);
    assert Settle(c) == c;
    assert Step(c, w[0]) == More(d);
    if n == 1 {
      assert w[..1] == [w[0]];
    } else {
      assert d == Config(frames, StrBody(ds, got + [w[0]]));
      ScanSeek(frames, ds, got + [w[0]], w[1..], n - 1);
      assert got + [w[0]] + w[1..][..n - 1] == got + w[..n];
      assert w[1..][n - 1..] == w[n..];
    }
    hide Grow, Settle, ConfigOk;
  }

  // ---- The parser's variables ----

  datatype Vars = Vars(
    pos: nat, stack: seq<Kind>, count: seq<nat>, state: State,
    raw: nat, rawType: Option<Kind>, rawLen: nat, key: Option<nat>, keyLen: nat,
    strlenAt: nat, str: nat, strLen: nat, strHave: nat, intAt: nat, events: seq<Event>)

  /** Stack, counters, key and reports. */
  ghost predicate Base(c: Config, buf: seq<Octet>, v: Vars) {
    && ConfigOk(c) && v.pos <= |buf|
    && StackOk(c, v.stack, v.count)
    && KeyOk(c, buf, v.pos, v.key, v.keyLen, v.str, v.strLen)
    && v.events == Reported(c)
  }

  /** The variables hold what the configuration says. */
  ghost predicate Stands(c: Config, buf: seq<Octet>, v: Vars) {
    && Base(c, buf, v) && ConfigText(c) == buf[..v.pos]
    && RawOk(c, v.pos, v.raw, v.rawType, v.rawLen)
    && TokOk(c.tok, v.state, v.pos, v.strlenAt, v.str, v.strLen, v.strHave, v.intAt)
  }

  ghost predicate Ready(c: Config, buf: seq<Octet>, v: Vars) {
    Stands(c, buf, v) && v.pos < |buf|
  }

  /** The raw length after n more bytes. */
  function RawLen(v: Vars, n: nat): nat { if v.rawType.Some? then v.rawLen + n else v.rawLen }

  /** INC_COUNT. */
  function IncCount(count: seq<nat>): seq<nat> {
    if count == [] then [] else count[..|count| - 1] + [count[|count| - 1] + 1]
  }

  lemma ByteRead(c: Config, buf: seq<Octet>, v: Vars)
    requires Ready(c, buf, v)
    ensures var o := Step(c, buf[v.pos]);
            && (o.More? ==> ConfigOk(o.config) && ConfigText(o.config) == buf[..v.pos + 1])
            && (o.Done? ==> Dictionary(o.value) && Text(o.value) == buf[..v.pos + 1])
  {
    hide Step, ConfigText, ConfigOk, Text;
    StepOk(c, buf[v.pos]);
    StepText(c, buf[v.pos]);
    assert buf[..v.pos + 1] == buf[..v.pos] + [buf[v.pos]];
  }

  lemma StandsBase(c: Config, buf: seq<Octet>, v: Vars)
    requires Stands(c, buf, v)
    ensures Base(c, buf, v)
  {}

  lemma TopNow(c: Config, buf: seq<Octet>, v: Vars)
    requires Base(c, buf, v)
    ensures |v.stack| == |c.frames| && |v.count| == |c.frames| && ConfigOk(c)
    ensures c.frames != [] ==> v.stack[|v.stack| - 1] == Top(c).kind && v.count[|v.count| - 1] == Count(Top(c).items)
  {}

  // ---- Opening a compound value ----

  ghost function Pushed(c: Config, k: Kind): Config { Config(c.frames + [Frame(k, Nil)], Gap) }

  ghost predicate MayOpen(c: Config, k: Kind) {
    if c.frames == [] then k == D else !KeyNext(Top(c).kind, Top(c).items)
  }

  lemma PushStep(c: Config, k: Kind)
    requires ConfigOk(c) && c.tok == Gap
    ensures Step(c, Opening(k)) == if MayOpen(c, k) then More(Pushed(c, k)) else Bad
  {}

  lemma PushBase(c: Config, k: Kind, buf: seq<Octet>, v: Vars, v': Vars)
    requires Base(c, buf, v) && c.tok == Gap && MayOpen(c, k) && ConfigOk(Pushed(c, k))
    requires v.pos <= v'.pos <= |buf| && v'.stack == v.stack + [k] && v'.count == v.count + [0]
    requires v'.key == v.key && v'.keyLen == v.keyLen && v'.events == v.events
    ensures Base(Pushed(c, k), buf, v')
  {
    if c.frames != [] { assert Pushed(c, k).frames[0] == c.frames[0]; }
  }

  lemma PushRaw(c: Config, k: Kind, buf: seq<Octet>, v: Vars)
    requires RawOk(c, v.pos, v.raw, v.rawType, v.rawLen) && c.tok == Gap && v.pos <= |buf|
    requires ConfigText(c) == buf[..v.pos]
    ensures |c.frames| == 0 ==> RawOk(Pushed(c, k), v.pos + 1, v.raw, v.rawType, v.rawLen)
    ensures |c.frames| == 1 ==> RawOk(Pushed(c, k), v.pos + 1, v.pos, Some(k), v.rawLen + 1)
    ensures |c.frames| >= 2 ==> RawOk(Pushed(c, k), v.pos + 1, v.raw, v.rawType, v.rawLen + 1)
  {
    if c.frames != [] { assert Pushed(c, k).frames[..1] == c.frames[..1]; }
    if |c.frames| == 1 { assert c.frames[..1] == c.frames; }
  }

  lemma Push(c: Config, k: Kind, buf: seq<Octet>, v: Vars)
    requires Ready(c, buf, v) && c.tok == Gap && buf[v.pos] == Opening(k)
    ensures Step(c, buf[v.pos]) == if MayOpen(c, k) then More(Pushed(c, k)) else Bad
    ensures MayOpen(c, k) ==>
              var n := |c.frames|;
              Stands(Pushed(c, k), buf,
                v.(pos := v.pos + 1, stack := v.stack + [k], count := v.count + [0],
                   raw := if n == 1 then v.pos else v.raw, rawType := if n == 1 then Some(k) else v.rawType,
                   rawLen := if n >= 1 then v.rawLen + 1 else v.rawLen))
  {
    hide Step, ConfigText, ConfigOk, Base, RawOk, Reported;
    assert ConfigOk(c) by { TopNow(c, buf, v); }
    PushStep(c, k);
    ByteRead(c, buf, v);
    if MayOpen(c, k) {
      var n := |c.frames|;
      PushBase(c, k, buf, v,
               v.(pos := v.pos + 1, stack := v.stack + [k], count := v.count + [0],
                  raw := if n == 1 then v.pos else v.raw, rawType := if n == 1 then Some(k) else v.rawType,
                  rawLen := if n >= 1 then v.rawLen + 1 else v.rawLen));
      PushRaw(c, k, buf, v);
    }
  }

  // ---- Reading a token ----

  /** A token that grows by one byte, other than the colon of a string. */
  lemma Retoken(c: Config, t: Token, buf: seq<Octet>, v: Vars, v': Vars)
    requires Ready(c, buf, v) && Step(c, buf[v.pos]) == More(Config(c.frames, t)) && !t.StrBody?
    requires v' == v.(pos := v.pos + 1, rawLen := RawLen(v, 1), state := v'.state, strlenAt := v'.strlenAt,
                      intAt := v'.intAt)
    requires TokenOk(t) && TokOk(t, v'.state, v'.pos, v'.strlenAt, v'.str, v'.strLen, v'.strHave, v'.intAt)
    ensures Stands(Config(c.frames, t), buf, v')
  {
    ByteRead(c, buf, v);
    hide Step;
  }

  // ---- Completing a value ----

  /** A value of the outer dictionary, as opposed to a key or a deeper value. */
  ghost predicate IsMember(c: Config) { |c.frames| == 1 && !KeyNext(D, c.frames[0].items) }

  ghost predicate IsKey(c: Config) { |c.frames| == 1 && KeyNext(D, c.frames[0].items) }

  /** The variables after a complete value: counted, and reported if it is a member. */
  ghost function Completed(c: Config, w: Val, buf: seq<Octet>, v: Vars, pos: nat): Vars
    requires WellFormed(w) && v.pos <= pos && (IsMember(c) ==> v.key.Some? && v.key.value + v.keyLen <= |buf|)
  {
    var v := v.(pos := pos, count := IncCount(v.count), state := Empty, rawLen := RawLen(v, pos - v.pos));
    if IsMember(c) then
      v.(key := None, keyLen := 0, events := v.events + [EventOf(buf[v.key.value..v.key.value + v.keyLen], w)])
    else v
  }

  ghost predicate CanAdd(c: Config, w: Val) {
    c.frames != [] && WellFormed(w) && (KeyNext(Top(c).kind, Top(c).items) ==> w.Str?)
  }

  lemma AddConfigOk(c: Config, w: Val)
    requires ConfigOk(c) && CanAdd(c, w)
    ensures ConfigOk(Add(c.frames, w))
  {
    AddOk(c.frames, w);
  }

  lemma MemberKey(c: Config, buf: seq<Octet>, v: Vars)
    requires Base(c, buf, v) && IsMember(c)
    ensures v.key.Some? && v.key.value + v.keyLen <= v.pos <= |buf|
    ensures c.frames[0] in c.frames && buf[v.key.value..v.key.value + v.keyLen] == LastKey(c.frames[0].items)
    ensures c.tok.StrBody? ==> v.key.value < v.str
  {
    assert c.frames[0] in c.frames;
  }

  lemma CompleteBase(c: Config, w: Val, buf: seq<Octet>, v: Vars, pos: nat)
    requires Base(c, buf, v) && CanAdd(c, w) && v.pos <= pos <= |buf|
    requires IsKey(c) ==>
               v.key.Some? && v.key.value + v.keyLen <= pos && buf[v.key.value..v.key.value + v.keyLen] == w.data
    requires IsMember(c) ==> v.key.Some? && v.key.value + v.keyLen <= |buf|
    ensures Base(Add(c.frames, w), buf, Completed(c, w, buf, v, pos))
  {
    AddConfigOk(c, w);
    var d, v' := Add(c.frames, w), Completed(c, w, buf, v, pos);
    assert StackOk(d, v'.stack, v'.count);
    assert d.frames[0] in d.frames && c.frames[0] in c.frames;
    if |c.frames| >= 2 {
      assert d.frames[0] == c.frames[0];
      assert !KeyNext(c.frames[0].kind, c.frames[0].items);
    } else {
      assert d.frames[0] == Frame(D, Snoc(c.frames[0].items, w));
      if KeyNext(D, c.frames[0].items) {
        ReportKey(c.frames[0].items, w);
      } else {
        ReportValue(c.frames[0].items, w);
      }
    }
  }

  lemma CompleteRaw(c: Config, w: Val, v: Vars, pos: nat)
    requires c.frames != [] && RawOk(c, v.pos, v.raw, v.rawType, v.rawLen) && v.pos <= pos
    ensures RawOk(Add(c.frames, w), pos, v.raw, v.rawType, RawLen(v, pos - v.pos))
  {
    if |c.frames| >= 2 { assert Add(c.frames, w).frames[..1] == c.frames[..1]; }
  }

  /** A value that ends a token. */
  lemma Complete(c: Config, w: Val, buf: seq<Octet>, v: Vars, pos: nat, have: nat)
    requires Stands(c, buf, v) && CanAdd(c, w) && v.pos <= pos <= |buf|
    requires ConfigText(Add(c.frames, w)) == buf[..pos]
    requires IsKey(c) ==>
               v.key.Some? && v.key.value + v.keyLen <= pos && buf[v.key.value..v.key.value + v.keyLen] == w.data
    requires IsMember(c) ==> v.key.Some? && v.key.value + v.keyLen <= |buf|
    ensures Stands(Add(c.frames, w), buf, Completed(c, w, buf, v, pos).(strHave := have))
  {
    hide Base, ConfigText, RawOk, TokOk, WellFormed, EventOf, KeyNext, IsMember;
    StandsBase(c, buf, v);
    CompleteBase(c, w, buf, v, pos);
    CompleteRaw(c, w, v, pos);
    var v' := Completed(c, w, buf, v, pos);
    BaseHave(Add(c.frames, w), buf, v', have);
    GapState(Add(c.frames, w), v'.(strHave := have));
  }

  lemma BaseHave(c: Config, buf: seq<Octet>, v: Vars, have: nat)
    requires Base(c, buf, v)
    ensures Base(c, buf, v.(strHave := have))
  {
    hide ConfigOk, StackOk, KeyOk, Reported;
  }

  // ---- Closing a compound value ----

  ghost function Inner(c: Config): Config
    requires c.frames != []
  {
    Config(c.frames[..|c.frames| - 1], Gap)
  }

  ghost function TopValue(c: Config): Val
    requires c.frames != []
  {
    Compound(Top(c).kind, Top(c).items)
  }

  ghost predicate MayClose(c: Config) {
    c.frames != [] && !(Top(c).kind == D && Count(Top(c).items) % 2 == 1)
  }

  lemma CloseStep(c: Config)
    requires ConfigOk(c) && c.tok == Gap
    ensures !MayClose(c) ==> Step(c, LOWER_E) == Bad
    ensures MayClose(c) && |c.frames| == 1 ==> Step(c, LOWER_E) == Done(TopValue(c))
    ensures MayClose(c) && |c.frames| >= 2 ==> Step(c, LOWER_E) == More(Add(Inner(c).frames, TopValue(c)))
    ensures MayClose(c) ==> WellFormed(TopValue(c))
  {
    if c.frames != [] { assert Top(c) in c.frames; }
  }

  lemma PopBase(c: Config, buf: seq<Octet>, v: Vars, v': Vars)
    requires Base(c, buf, v) && c.tok == Gap && |c.frames| >= 2
    requires v' == v.(stack := v.stack[..|v.stack| - 1], count := v.count[..|v.count| - 1], raw := v'.raw,
                      rawType := v'.rawType, rawLen := v'.rawLen)
    ensures Base(Inner(c), buf, v') && !KeyNext(Top(Inner(c)).kind, Top(Inner(c)).items)
    ensures Inner(c).frames[0].kind == D
  {
    var d := Inner(c);
    var n := |c.frames| - 1;
    assert forall f :: f in d.frames ==> f in c.frames;
    assert d.frames[0] == c.frames[0] && Top(d) == c.frames[n - 1];
    assert ConfigOk(d);
  }

  /** The raw slice of a member of the outer dictionary is the text of that member. */
  lemma RawBytes(c: Config, buf: seq<Octet>, v: Vars)
    requires Ready(c, buf, v) && c.tok == Gap && |c.frames| == 2 && buf[v.pos] == LOWER_E
    ensures v.rawType == Some(Top(c).kind) && v.raw + v.rawLen + 1 <= |buf|
    ensures buf[v.raw..v.raw + v.rawLen + 1] == Text(TopValue(c))
  {
    var f, t := FramesText(c.frames[..1]), [Opening(Top(c).kind)] + ItemsText(Top(c).items);
    assert FramesText(c.frames) == f + t;
    assert ConfigText(c) == f + t;
    TailIs(buf, v.pos, f, t, v.raw);
    assert buf[v.raw..v.pos + 1] == buf[v.raw..v.pos] + [buf[v.pos]];
  }

  lemma CloseMember(c: Config, buf: seq<Octet>, v: Vars, v': Vars)
    requires Ready(c, buf, v) && c.tok == Gap && |c.frames| == 2 && buf[v.pos] == LOWER_E && MayClose(c)
    requires v.key.Some? && v.key.value + v.keyLen <= |buf| && v.rawType.Some? && v.raw + v.rawLen + 1 <= |buf|
    requires |v.stack| == |v.count| == 2
    requires v' == v.(pos := v.pos + 1, stack := v.stack[..1], count := IncCount(v.count[..1]),
                      raw := 0, rawType := None, rawLen := 0, key := None, keyLen := 0,
                      events := v.events + [RawEvent(buf[v.key.value..v.key.value + v.keyLen], v.rawType.value,
                                                     buf[v.raw..v.raw + v.rawLen + 1])])
    ensures Stands(Add(Inner(c).frames, TopValue(c)), buf, v')
  {
    hide Base, ConfigText, Step, ConfigOk, Text, WellFormed, TokOk, RawOk;
    var w, d := TopValue(c), Inner(c);
    var v1 := v.(stack := v.stack[..1], count := v.count[..1], raw := 0, rawType := None, rawLen := 0);
    StandsBase(c, buf, v);
    TopNow(c, buf, v);
    RawBytes(c, buf, v);
    ByteRead(c, buf, v);
    CloseStep(c);
    PopBase(c, buf, v, v1);
    CompleteBase(d, w, buf, v1, v.pos + 1);
    GapState(c, v);
    assert v' == Completed(d, w, buf, v1, v.pos + 1);
    NoRaw(d, w, v');
    GapState(Add(d.frames, w), v');
  }

  lemma NoRaw(d: Config, w: Val, v: Vars)
    requires |d.frames| == 1 && v.rawType == None && v.rawLen == 0
    ensures RawOk(Add(d.frames, w), v.pos, v.raw, v.rawType, v.rawLen)
  {}

  lemma GapState(c: Config, v: Vars)
    requires c.tok == Gap
    ensures TokOk(c.tok, v.state, v.pos, v.strlenAt, v.str, v.strLen, v.strHave, v.intAt) <==> v.state == Empty
  {}

  lemma InnerOpen(c: Config)
    requires |c.frames| >= 2
    ensures Inner(c).frames != []
  {}

  lemma CloseDeeper(c: Config, buf: seq<Octet>, v: Vars, v': Vars)
    requires Ready(c, buf, v) && c.tok == Gap && |c.frames| > 2 && buf[v.pos] == LOWER_E && MayClose(c)
    requires |v.stack| == |v.count| == |c.frames|
    requires v' == v.(pos := v.pos + 1, stack := v.stack[..|v.stack| - 1],
                      count := IncCount(v.count[..|v.count| - 1]), rawLen := RawLen(v, 1))
    ensures Stands(Add(Inner(c).frames, TopValue(c)), buf, v')
  {
    var w, d := TopValue(c), Inner(c);
    var v1 := v.(stack := v.stack[..|v.stack| - 1], count := v.count[..|v.count| - 1]);
    ByteRead(c, buf, v);
    CloseStep(c);
    PopBase(c, buf, v, v1);
    assert TokOk(Gap, v.state, v.pos, v.strlenAt, v.str, v.strLen, v.strHave, v.intAt);
    assert d.frames[..1] == c.frames[..1];
    CompleteRaw(d, w, v1, v.pos + 1);
    hide Base, ConfigText, Step, ConfigOk, Text, WellFormed, RawOk;
    CompleteBase(d, w, buf, v1, v.pos + 1);
    assert v' == Completed(d, w, buf, v1, v.pos + 1);
  }

  // ---- Strings ----

  /** The colon after a string's length. */
  lemma ColonStands(c: Config, buf: seq<Octet>, v: Vars, v': Vars)
    requires Ready(c, buf, v) && c.tok.StrLen? && buf[v.pos] == COLON && c.frames != [] && Numeral(c.tok.ds)
    requires v' == v.(pos := v.pos + 1, rawLen := RawLen(v, 1), state := Str2, strLen := Num(c.tok.ds), strHave := 0,
                      str := v.pos + 1, key := if IsKey(c) then Some(v.pos + 1) else v.key,
                      keyLen := if IsKey(c) then Num(c.tok.ds) else v.keyLen)
    ensures Step(c, COLON) == More(Config(c.frames, StrBody(c.tok.ds, [])))
    ensures Stands(Config(c.frames, StrBody(c.tok.ds, [])), buf, v')
  {
    hide Num;
    ByteRead(c, buf, v);
    hide Step;
    var d := Config(c.frames, StrBody(c.tok.ds, []));
    assert c.frames[0] in c.frames;
    assert Base(d, buf, v');
  }

  /** The length is the number before the colon. */
  lemma LengthIs(c: Config, buf: seq<Octet>, v: Vars)
    requires Ready(c, buf, v) && c.tok.StrLen? && buf[v.pos] == COLON
    ensures c.frames != [] && Numeral(c.tok.ds) && v.strlenAt <= |buf| && LeadingNum(buf[v.strlenAt..]) == Num(c.tok.ds)
    ensures |v.count| == |v.stack| && (IsKey(c) <==> |v.stack| == 1 && v.count[0] % 2 == 0)
  {
    TailIs(buf, v.pos, FramesText(c.frames), c.tok.ds, v.strlenAt);
    LeadingDigitsOf(c.tok.ds, buf[v.pos..]);
  }

  /** Some more bytes of a string, not yet all. */
  lemma BodyGrows(c: Config, buf: seq<Octet>, v: Vars, n: nat)
    requires Ready(c, buf, v) && c.tok.StrBody? && v.pos + n <= |buf| && |c.tok.got| + n < Num(c.tok.ds)
    ensures var d := Config(c.frames, StrBody(c.tok.ds, c.tok.got + buf[v.pos..v.pos + n]));
            Stands(d, buf, v.(pos := v.pos + n, strHave := v.strHave + n, rawLen := RawLen(v, n)))
  {
    hide Num, ConfigOk, ConfigText, Base, RawOk;
    var more := buf[v.pos..v.pos + n];
    var t := StrBody(c.tok.ds, c.tok.got + more);
    StandsBase(c, buf, v);
    LongerBody(c, t);
    BaseGrows(c, t, buf, v, v.(pos := v.pos + n, strHave := v.strHave + n, rawLen := RawLen(v, n)));
    RawGrows(c, t, v, n);
    GrowText(c, buf, v.pos, n);
  }

  lemma LongerBody(c: Config, t: Token)
    requires ConfigOk(c) && c.tok.StrBody? && t.StrBody? && t.ds == c.tok.ds && |t.got| < Num(t.ds)
    ensures ConfigOk(Config(c.frames, t)) && TokenOk(t)
  {
    hide Num;
    RetokenOk(c.frames, c.tok, t);
  }

  lemma BaseGrows(c: Config, t: Token, buf: seq<Octet>, v: Vars, v': Vars)
    requires Base(c, buf, v) && ConfigOk(Config(c.frames, t)) && c.tok.StrBody? && t.StrBody?
    requires v.pos <= v'.pos <= |buf|
    requires v' == v.(pos := v'.pos, strHave := v'.strHave, rawLen := v'.rawLen)
    ensures Base(Config(c.frames, t), buf, v')
  {
    hide Num, LastKey, EventsOf;
    if c.frames != [] { assert c.frames[0] in c.frames; }
  }

  lemma RawGrows(c: Config, t: Token, v: Vars, n: nat)
    requires RawOk(c, v.pos, v.raw, v.rawType, v.rawLen)
    ensures RawOk(Config(c.frames, t), v.pos + n, v.raw, v.rawType, RawLen(v, n))
  {}

  lemma GrowText(c: Config, buf: seq<Octet>, pos: nat, n: nat)
    requires c.tok.StrBody? && pos + n <= |buf| && ConfigText(c) == buf[..pos]
    ensures ConfigText(Config(c.frames, StrBody(c.tok.ds, c.tok.got + buf[pos..pos + n]))) == buf[..pos + n]
  {
    hide FramesText;
    var more := buf[pos..pos + n];
    assert buf[..pos + n] == buf[..pos] + more;
    assert TokenText(StrBody(c.tok.ds, c.tok.got + more)) == TokenText(c.tok) + more;
  }

  /** All bytes of a string: where they are, and what they complete. */
  lemma BodyEnds(c: Config, buf: seq<Octet>, v: Vars, n: nat, w: Val)
    requires Ready(c, buf, v) && c.tok.StrBody? && v.pos + n <= |buf| && |c.tok.got| + n == Num(c.tok.ds)
    requires w == Str(c.tok.ds, c.tok.got + buf[v.pos..v.pos + n])
    ensures v.strHave + n == v.strLen && v.str + v.strLen == v.pos + n
    ensures CanAdd(c, w) && buf[v.str..v.pos + n] == w.data && ConfigText(Add(c.frames, w)) == buf[..v.pos + n]
    ensures IsKey(c) ==> v.key == Some(v.str) && v.keyLen == v.strLen
    ensures IsMember(c) ==> v.key.Some? && v.key.value + v.keyLen <= |buf| && v.key.value < v.str
  {
    hide Num;
    if c.frames != [] { assert c.frames[0] in c.frames; }
    if IsMember(c) { MemberKey(c, buf, v); }
    hide KeyOk, StackOk, RawOk;
    BodyBytes(c, buf, v.pos, v.str, n, w);
  }

  lemma BodyBytes(c: Config, buf: seq<Octet>, pos: nat, str: nat, n: nat, w: Val)
    requires c.tok.StrBody? && c.frames != [] && pos + n <= |buf| && ConfigText(c) == buf[..pos]
    requires str + |c.tok.got| == pos
    requires w == Str(c.tok.ds, c.tok.got + buf[pos..pos + n])
    ensures buf[str..pos + n] == w.data && ConfigText(Add(c.frames, w)) == buf[..pos + n]
  {
    var more := buf[pos..pos + n];
    var x := FramesText(c.frames) + c.tok.ds + [COLON];
    assert ConfigText(c) == x + c.tok.got;
    TailIs(buf, pos, x, c.tok.got, str);
    assert buf[str..pos + n] == buf[str..pos] + more;
    AddText(c.frames, w);
    assert Text(w) == TokenText(c.tok) + more;
    assert buf[..pos + n] == buf[..pos] + more;
  }

  /** The end of an integer: its value, and where it goes. */
  lemma IntEnds(c: Config, buf: seq<Octet>, v: Vars, w: Val)
    requires Ready(c, buf, v) && c.tok.IntDigits? && buf[v.pos] == LOWER_E && w == Int(c.tok.neg, c.tok.ds)
    ensures Step(c, LOWER_E) == More(Add(c.frames, w)) && CanAdd(c, w) && !IsKey(c)
    ensures v.intAt <= |buf| && LeadingInt(buf[v.intAt..]) == SignedNum(c.tok.neg, c.tok.ds)
    ensures ConfigText(Add(c.frames, w)) == buf[..v.pos + 1]
    ensures IsMember(c) ==> v.key.Some? && v.key.value + v.keyLen <= |buf|
  {
    ByteRead(c, buf, v);
    if c.frames != [] { assert c.frames[0] in c.frames; }
    if IsMember(c) { MemberKey(c, buf, v); }
    hide KeyOk, StackOk, RawOk, Num;
    IntBytesAt(c, buf, v.pos, v.intAt);
  }

  lemma IntBytesAt(c: Config, buf: seq<Octet>, pos: nat, at: nat)
    requires c.tok.IntDigits? && Numeral(c.tok.ds) && pos < |buf| && buf[pos] == LOWER_E && ConfigText(c) == buf[..pos]
    requires at + |Sign(c.tok.neg)| + |c.tok.ds| == pos
    ensures LeadingInt(buf[at..]) == SignedNum(c.tok.neg, c.tok.ds)
  {
    hide LeadingInt, SignedNum;
    var t := Sign(c.tok.neg) + c.tok.ds;
    var x := FramesText(c.frames) + [LOWER_I];
    assert ConfigText(c) == x + t;
    TailIs(buf, pos, x, t, at);
    LeadingIntOf(c.tok.neg, c.tok.ds, buf[pos..]);
  }

  /** The parser has taken the next byte the way the machine does. */
  ghost predicate Followed(c: Config, buf: seq<Octet>, v: Vars, c': Config, v': Vars, r: Result) {
    && ConfigOk(c) && v.pos < |buf|
    && match Step(c, buf[v.pos])
       case More(d) => r == NeedMore && c' == d && Stands(d, buf, v') && v'.pos == v.pos + 1
       case Done(w) => r == Success && Dictionary(w) && v'.events == EventsOf(w.items) && v'.pos == v.pos + 1
       case Bad => r == Violation && v'.events == v.events
  }
}
