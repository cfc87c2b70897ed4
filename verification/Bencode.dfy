/** The bencoding that the tracker-response parser of BitTorrentTracker.cc accepts, as a grammar
    and as a machine that reads one byte at a time. */
module Bencode {
  import opened Octets

  const LOWER_D: Octet := 0x64
  const LOWER_E: Octet := 0x65
  const LOWER_I: Octet := 0x69
  const LOWER_L: Octet := 0x6C
  const MINUS: Octet := 0x2D
  const COLON: Octet := 0x3A

  predicate IsDigit(b: Octet) { 0x30 <= b <= 0x39 }

  predicate AllDigits(s: seq<Octet>) { forall b :: b in s ==> IsDigit(b) }

  /** The number a run of decimal digits stands for. */
  function Num(ds: seq<Octet>): nat
    requires AllDigits(ds)
  {
    if ds == [] then 0 else 10 * Num(ds[..|ds| - 1]) + DigitValue(ds[|ds| - 1])
  }

  function DigitValue(b: Octet): nat
    requires IsDigit(b)
  {
    var n: int := b;
    n - 0x30
  }

  function SignedNum(neg: bool, ds: seq<Octet>): int
    requires AllDigits(ds)
  {
    var n: int := Num(ds);
    if neg then -n else n
  }

  // ---- The grammar ----

  datatype Kind = D | L

  datatype Val =
    | Int(neg: bool, digits: seq<Octet>)
    | Str(digits: seq<Octet>, data: seq<Octet>)
    | Compound(kind: Kind, items: Vals)

  datatype Vals = Nil | Snoc(init: Vals, last: Val)

  function Count(vs: Vals): nat { if vs.Nil? then 0 else Count(vs.init) + 1 }

  predicate Numeral(ds: seq<Octet>) { ds != [] && AllDigits(ds) }

  /** Digits where digits belong, a string as long as it says, keys that are strings, and as many
      values as keys. */
  predicate WellFormed(v: Val)
    decreases v, 0
  {
    match v
    case Int(_, ds) => Numeral(ds)
    case Str(ds, data) => Numeral(ds) && Num(ds) == |data|
    case Compound(k, items) => ItemsOk(k, items) && (k == D ==> Count(items) % 2 == 0)
  }

  predicate ItemsOk(k: Kind, vs: Vals)
    decreases vs, 0
  {
    vs.Snoc? ==> ItemsOk(k, vs.init) && WellFormed(vs.last) && (KeyNext(k, vs.init) ==> vs.last.Str?)
  }

  /** The next member of this compound has to be a key. */
  predicate KeyNext(k: Kind, vs: Vals) { k == D && Count(vs) % 2 == 0 }

  function Opening(k: Kind): Octet { if k == D then LOWER_D else LOWER_L }

  function Sign(neg: bool): seq<Octet> { if neg then [MINUS] else [] }

  function Text(v: Val): seq<Octet> {
    match v
    case Int(neg, ds) => [LOWER_I] + Sign(neg) + ds + [LOWER_E]
    case Str(ds, data) => ds + [COLON] + data
    case Compound(k, items) => [Opening(k)] + ItemsText(items) + [LOWER_E]
  }

  function ItemsText(vs: Vals): seq<Octet> {
    if vs.Nil? then [] else ItemsText(vs.init) + Text(vs.last)
  }

  // ---- What is reported ----

  datatype Event =
    | IntEvent(name: seq<Octet>, value: int)
    | StrEvent(name: seq<Octet>, data: seq<Octet>)
    | RawEvent(name: seq<Octet>, kind: Kind, raw: seq<Octet>)

  function EventOf(name: seq<Octet>, v: Val): Event
    requires WellFormed(v)
  {
    match v
    case Int(neg, ds) => IntEvent(name, SignedNum(neg, ds))
    case Str(_, data) => StrEvent(name, data)
    case Compound(k, _) => RawEvent(name, k, Text(v))
  }

  /** One event for each member of the outer dictionary, in order; nested values as their bytes. */
  function EventsOf(vs: Vals): seq<Event>
    requires ItemsOk(D, vs)
  {
    if vs.Nil? then []
    else if KeyNext(D, vs.init) then EventsOf(vs.init)
    else
      assert vs.init.Snoc? && KeyNext(D, vs.init.init) && ItemsOk(D, vs.init);
      EventsOf(vs.init.init) + [EventOf(vs.init.last.data, vs.last)]
  }

  // ---- The machine ----

  /** An open compound value and its members so far. */
  datatype Frame = Frame(kind: Kind, items: Vals)

  datatype Token =
    | Gap
    | IntHead
    | IntNeg
    | IntDigits(neg: bool, ds: seq<Octet>)
    | StrLen(ds: seq<Octet>)
    | StrBody(ds: seq<Octet>, got: seq<Octet>)

  /** Open values, the outermost first, and the token being read. */
  datatype Config = Config(frames: seq<Frame>, tok: Token)

  const START := Config([], Gap)

  ghost predicate FrameOk(f: Frame) { ItemsOk(f.kind, f.items) }

  ghost predicate TokenOk(t: Token) {
    match t
    case IntDigits(_, ds) => Numeral(ds)
    case StrLen(ds) => Numeral(ds)
    case StrBody(ds, got) => Numeral(ds) && (|got| < Num(ds) || (got == [] && Num(ds) == 0))
    case _ => true
  }

  /** The token can stand where it is read. */
  ghost predicate PlaceOk(f: Frame, t: Token) {
    KeyNext(f.kind, f.items) ==> t.Gap? || t.StrLen? || t.StrBody?
  }

  ghost predicate ConfigOk(c: Config) {
    && (forall f :: f in c.frames ==> FrameOk(f))
    && (c.frames == [] ==> c.tok == Gap)
    && (c.frames != [] ==> c.frames[0].kind == D && PlaceOk(Top(c), c.tok))
    && (forall i :: 0 <= i < |c.frames| - 1 ==> !KeyNext(c.frames[i].kind, c.frames[i].items))
    && TokenOk(c.tok)
  }

  function Top(c: Config): Frame
    requires c.frames != []
  {
    c.frames[|c.frames| - 1]
  }

  /** A complete value becomes a member of the innermost open value. */
  function Add(frames: seq<Frame>, v: Val): Config
    requires frames != []
  {
    var n := |frames| - 1;
    Config(frames[..n] + [Frame(frames[n].kind, Snoc(frames[n].items, v))], Gap)
  }

  /** An empty string is only noticed when the byte after it is read. */
  function Settle(c: Config): Config {
    if c.tok.StrBody? && c.tok.got == [] && AllDigits(c.tok.ds) && Num(c.tok.ds) == 0 && c.frames != []
    then Add(c.frames, Str(c.tok.ds, [])) else c
  }

  datatype Outcome = More(config: Config) | Done(value: Val) | Bad

  function Step(c: Config, b: Octet): Outcome
    requires ConfigOk(c)
  {
    var c := Settle(c);
    if c.tok == Gap then StepGap(c.frames, b) else StepToken(c.frames, c.tok, b)
  }

  function StepToken(frames: seq<Frame>, tok: Token, b: Octet): Outcome {
    match tok
    case Gap => Bad
    case IntHead =>
      if b == MINUS then More(Config(frames, IntNeg))
      else if IsDigit(b) then More(Config(frames, IntDigits(false, [b]))) else Bad
    case IntNeg =>
      if IsDigit(b) then More(Config(frames, IntDigits(true, [b]))) else Bad
    case IntDigits(neg, ds) =>
      if b == LOWER_E && frames != [] then More(Add(frames, Int(neg, ds)))
      else if IsDigit(b) then More(Config(frames, IntDigits(neg, ds + [b]))) else Bad
    case StrLen(ds) =>
      if IsDigit(b) then More(Config(frames, StrLen(ds + [b])))
      else if b == COLON then More(Config(frames, StrBody(ds, []))) else Bad
    case StrBody(ds, got) =>
      More(Grow(frames, ds, got + [b]))
  }

  /** A string body with the given bytes; complete at its length. */
  function Grow(frames: seq<Frame>, ds: seq<Octet>, got: seq<Octet>): Config {
    if AllDigits(ds) && |got| == Num(ds) && frames != [] then Add(frames, Str(ds, got))
    else Config(frames, StrBody(ds, got))
  }

  function StepGap(frames: seq<Frame>, b: Octet): Outcome {
    if frames == [] then
      if b == LOWER_D then More(Config([Frame(D, Nil)], Gap)) else Bad
    else
      var top := frames[|frames| - 1];
      var key := KeyNext(top.kind, top.items);
      if b == LOWER_D then if key then Bad else More(Config(frames + [Frame(D, Nil)], Gap))
      else if b == LOWER_L then if key then Bad else More(Config(frames + [Frame(L, Nil)], Gap))
      else if b == LOWER_I then if key then Bad else More(Config(frames, IntHead))
      else if b == LOWER_E then Close(frames)
      else if IsDigit(b) then More(Config(frames, StrLen([b])))
      else Bad
  }

  function Close(frames: seq<Frame>): Outcome
    requires frames != []
  {
    var n := |frames| - 1;
    var top := frames[n];
    var v := Compound(top.kind, top.items);
    if top.kind == D && Count(top.items) % 2 == 1 then Bad
    else if n == 0 then Done(v)
    else More(Add(frames[..n], v))
  }

  lemma SettleOk(c: Config)
    requires ConfigOk(c)
    ensures ConfigOk(Settle(c))
  {
    if Settle(c) != c { AddOk(c.frames, Str(c.tok.ds, [])); }
  }

  lemma AddOk(frames: seq<Frame>, v: Val)
    requires frames != [] && ConfigOk(Config(frames, Gap)) && WellFormed(v)
    requires KeyNext(frames[|frames| - 1].kind, frames[|frames| - 1].items) ==> v.Str?
    ensures ConfigOk(Add(frames, v))
  {
    var n := |frames| - 1;
    assert frames[n] in frames;
    var fs := Add(frames, v).frames;
    forall f | f in fs ensures FrameOk(f) {
      if f != fs[n] { assert f in frames[..n]; }
    }
  }

  lemma SettleTwice(c: Config)
    requires ConfigOk(c)
    ensures Settle(Settle(c)) == Settle(c)
  {}

  /** A string body that is not complete. */
  lemma BodyShort(c: Config)
    requires ConfigOk(c) && Settle(c) == c && c.tok.StrBody?
    ensures |c.tok.got| < Num(c.tok.ds)
  {
    hide Num;
  }

  ghost predicate Dictionary(v: Val) { WellFormed(v) && v.Compound? && v.kind == D }

  /** What a step leads to is in order. */
  ghost predicate OutcomeOk(o: Outcome) { (o.More? ==> ConfigOk(o.config)) && (o.Done? ==> Dictionary(o.value)) }

  lemma StepOk(c: Config, b: Octet)
    requires ConfigOk(c)
    ensures OutcomeOk(Step(c, b))
  {
    SettleOk(c);
    SettleTwice(c);
    hide Settle, ConfigOk, OutcomeOk, StepGap, StepToken, Num;
    var c := Settle(c);
    if c.tok.StrBody? { BodyShort(c); }
    if c.tok == Gap {
      assert c == Config(c.frames, Gap);
      StepGapOk(c.frames, b);
    } else {
      StepTokenOk(c.frames, c.tok, b);
    }
  }

  /** Another token in the place of t. */
  lemma RetokenOk(frames: seq<Frame>, t: Token, t': Token)
    requires ConfigOk(Config(frames, t)) && frames != [] && TokenOk(t')
    requires PlaceOk(frames[|frames| - 1], t')
    ensures ConfigOk(Config(frames, t'))
  {
    hide Num;
  }

  lemma StepTokenOk(frames: seq<Frame>, t: Token, b: Octet)
    requires ConfigOk(Config(frames, t)) && t != Gap && (t.StrBody? ==> |t.got| < Num(t.ds))
    ensures OutcomeOk(StepToken(frames, t, b))
  {
    hide Num;
    match t
    case IntHead => NumberTokenOk(frames, t, b);
    case IntNeg => NumberTokenOk(frames, t, b);
    case IntDigits(neg, ds) => NumberTokenOk(frames, t, b);
    case StrLen(ds) =>
      hide ItemsOk;
      if IsDigit(b) { RetokenOk(frames, t, StrLen(ds + [b])); } else { RetokenOk(frames, t, StrBody(ds, [])); }
    case StrBody(ds, got) =>
      BodyTokenOk(frames, ds, got, b);
  }

  lemma BodyTokenOk(frames: seq<Frame>, ds: seq<Octet>, got: seq<Octet>, b: Octet)
    requires ConfigOk(Config(frames, StrBody(ds, got))) && |got| < Num(ds)
    ensures OutcomeOk(More(Grow(frames, ds, got + [b])))
  {
    hide Num, ItemsOk;
    if |got + [b]| == Num(ds) {
      RetokenOk(frames, StrBody(ds, got), Gap);
      AddOk(frames, Str(ds, got + [b]));
    } else {
      RetokenOk(frames, StrBody(ds, got), StrBody(ds, got + [b]));
    }
  }

  lemma NumberTokenOk(frames: seq<Frame>, t: Token, b: Octet)
    requires ConfigOk(Config(frames, t)) && (t.IntHead? || t.IntNeg? || t.IntDigits?)
    ensures OutcomeOk(StepToken(frames, t, b))
  {
    hide Num, ItemsOk;
    if t.IntDigits? && b == LOWER_E {
      RetokenOk(frames, t, Gap);
      AddOk(frames, Int(t.neg, t.ds));
    } else if t.IntHead? && b == MINUS {
      RetokenOk(frames, t, IntNeg);
    } else if IsDigit(b) {
      var t' := match t
        case IntHead => IntDigits(false, [b])
        case IntNeg => IntDigits(true, [b])
        case IntDigits(neg, ds) => IntDigits(neg, ds + [b])
        case _ => t;
      RetokenOk(frames, t, t');
    }
  }

  lemma StepGapOk(frames: seq<Frame>, b: Octet)
    requires ConfigOk(Config(frames, Gap))
    ensures OutcomeOk(StepGap(frames, b))
  {
    if frames != [] && b == LOWER_E { CloseOk(frames); }
  }

  lemma CloseOk(frames: seq<Frame>)
    requires frames != [] && ConfigOk(Config(frames, Gap))
    ensures OutcomeOk(Close(frames))
  {
    var n := |frames| - 1;
    var top := frames[n];
    assert top in frames && FrameOk(top);
    if n > 0 && Close(frames).More? {
      assert ConfigOk(Config(frames[..n], Gap));
      AddOk(frames[..n], Compound(top.kind, top.items));
    }
  }

  // ---- The text read so far ----

  function FramesText(frames: seq<Frame>): seq<Octet> {
    if frames == [] then []
    else var n := |frames| - 1; FramesText(frames[..n]) + [Opening(frames[n].kind)] + ItemsText(frames[n].items)
  }

  function TokenText(t: Token): seq<Octet> {
    match t
    case Gap => []
    case IntHead => [LOWER_I]
    case IntNeg => [LOWER_I, MINUS]
    case IntDigits(neg, ds) => [LOWER_I] + Sign(neg) + ds
    case StrLen(ds) => ds
    case StrBody(ds, got) => ds + [COLON] + got
  }

  function ConfigText(c: Config): seq<Octet> { FramesText(c.frames) + TokenText(c.tok) }

  lemma AddText(frames: seq<Frame>, v: Val)
    requires frames != []
    ensures ConfigText(Add(frames, v)) == FramesText(frames) + Text(v)
  {
    hide Text;
    var n := |frames| - 1;
    var fs := Add(frames, v).frames;
    assert fs[..n] == frames[..n];
  }

  lemma SettleText(c: Config)
    requires ConfigOk(c)
    ensures ConfigText(Settle(c)) == ConfigText(c)
  {
    if Settle(c) != c { AddText(c.frames, Str(c.tok.ds, [])); }
  }

  lemma AppendByte(a: seq<Octet>, t: seq<Octet>, b: Octet)
    ensures a + (t + [b]) == a + t + [b]
  {}

  /** Every byte read goes into the text; the text of a finished dictionary is what was read. */
  lemma StepText(c: Config, b: Octet)
    requires ConfigOk(c)
    ensures Step(c, b).More? ==> ConfigText(Step(c, b).config) == ConfigText(c) + [b]
    ensures Step(c, b).Done? ==> Text(Step(c, b).value) == ConfigText(c) + [b]
  {
    SettleOk(c);
    SettleText(c);
    var c := Settle(c);
    hide Settle, Num, FramesText;
    if c.tok == Gap {
      StepGapText(c.frames, b);
    } else {
      StepTokenText(c, b);
    }
  }

  lemma StepTokenText(c: Config, b: Octet)
    requires ConfigOk(c) && c.tok != Gap && Settle(c) == c
    ensures Step(c, b).More? ==> ConfigText(Step(c, b).config) == ConfigText(c) + [b]
    ensures !Step(c, b).Done?
  {
    hide Num, FramesText, TokenText, Text;
    AppendByte(FramesText(c.frames), TokenText(c.tok), b);
    match c.tok
    case IntHead =>
      IntHeadText(b);
    case IntNeg =>
      IntHeadText(b);
    case IntDigits(neg, ds) =>
      if b == LOWER_E { AddText(c.frames, Int(neg, ds)); }
      IntText(neg, ds, b);
    case StrLen(ds) =>
      StrLenText(ds, b);
    case StrBody(ds, got) =>
      StrText(ds, got, b);
      if |got + [b]| == Num(ds) { AddText(c.frames, Str(ds, got + [b])); }
  }

  lemma IntHeadText(b: Octet)
    ensures TokenText(IntNeg) == TokenText(IntHead) + [MINUS]
    ensures TokenText(IntDigits(false, [b])) == TokenText(IntHead) + [b]
    ensures TokenText(IntDigits(true, [b])) == TokenText(IntNeg) + [b]
  {}

  lemma IntText(neg: bool, ds: seq<Octet>, b: Octet)
    ensures Text(Int(neg, ds)) == TokenText(IntDigits(neg, ds)) + [LOWER_E]
    ensures TokenText(IntDigits(neg, ds + [b])) == TokenText(IntDigits(neg, ds)) + [b]
  {}

  lemma StrLenText(ds: seq<Octet>, b: Octet)
    ensures TokenText(StrLen(ds + [b])) == TokenText(StrLen(ds)) + [b]
    ensures TokenText(StrBody(ds, [])) == TokenText(StrLen(ds)) + [COLON]
  {}

  lemma StrText(ds: seq<Octet>, got: seq<Octet>, b: Octet)
    ensures TokenText(StrBody(ds, got + [b])) == TokenText(StrBody(ds, got)) + [b]
    ensures Text(Str(ds, got + [b])) == TokenText(StrBody(ds, got + [b]))
  {}

  lemma StepGapText(frames: seq<Frame>, b: Octet)
    requires ConfigOk(Config(frames, Gap))
    ensures StepGap(frames, b).More? ==> ConfigText(StepGap(frames, b).config) == FramesText(frames) + [b]
    ensures StepGap(frames, b).Done? ==> Text(StepGap(frames, b).value) == FramesText(frames) + [b]
  {
    hide FramesText, Text, Close;
    PushText(frames, D);
    PushText(frames, L);
    HeadText(frames, b);
    if frames == [] {
      assert [Frame(D, Nil)] == frames + [Frame(D, Nil)];
    } else if b == LOWER_E {
      CloseText(frames);
    }
  }

  lemma HeadText(frames: seq<Frame>, b: Octet)
    ensures forall fs :: ConfigText(Config(fs, Gap)) == FramesText(fs)
    ensures ConfigText(Config(frames, IntHead)) == FramesText(frames) + [LOWER_I]
    ensures ConfigText(Config(frames, StrLen([b]))) == FramesText(frames) + [b]
  {
    hide FramesText;
  }

  lemma PushText(frames: seq<Frame>, k: Kind)
    ensures FramesText(frames + [Frame(k, Nil)]) == FramesText(frames) + [Opening(k)]
  {
    assert (frames + [Frame(k, Nil)])[..|frames|] == frames;
  }

  lemma CloseText(frames: seq<Frame>)
    requires frames != []
    ensures Close(frames).More? ==> ConfigText(Close(frames).config) == FramesText(frames) + [LOWER_E]
    ensures Close(frames).Done? ==> Text(Close(frames).value) == FramesText(frames) + [LOWER_E]
  {
    var n := |frames| - 1;
    var v := Compound(frames[n].kind, frames[n].items);
    var f, t := FramesText(frames[..n]), [Opening(frames[n].kind)] + ItemsText(frames[n].items);
    assert FramesText(frames) == f + t;
    assert Text(v) == t + [LOWER_E];
    AppendByte(f, t, LOWER_E);
    hide FramesText, ItemsText, Text;
    if n > 0 {
      AddText(frames[..n], v);
    } else {
      NoFrames(frames[..n]);
    }
  }

  lemma NoFrames(frames: seq<Frame>)
    requires frames == []
    ensures forall t :: FramesText(frames) + t == t
  {}
}
