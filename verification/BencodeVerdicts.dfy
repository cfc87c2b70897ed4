/** The verdicts on bytes that do not begin with a dictionary: more is needed exactly when they can be
    continued to one, and nothing wrong is reported on the way. */
module BencodeVerdicts {
  import opened Octets
  import opened Bencode
  import opened BencodeProofs

  // ---- Whatever has been read can be continued ----

  const ZERO: Octet := 0x30

  function Zeros(n: nat): (s: seq<Octet>)
    ensures |s| == n
  {
    if n == 0 then [] else Zeros(n - 1) + [ZERO]
  }

  /** A value whose text begins with the token. */
  ghost function TokenVal(t: Token): Val
    requires TokenOk(t) && t != Gap
  {
    match t
    case IntHead => Int(false, [ZERO])
    case IntNeg => Int(true, [ZERO])
    case IntDigits(neg, ds) => Int(neg, ds)
    case StrLen(ds) => Str(ds, Zeros(Num(ds)))
    case StrBody(ds, got) => Str(ds, got + Zeros(Num(ds) - |got|))
  }

  lemma TokenContinues(t: Token)
    requires TokenOk(t) && t != Gap
    ensures WellFormed(TokenVal(t)) && TokenText(t) <= Text(TokenVal(t))
  {
    hide Num;
    if t.StrBody? {
      var rest := Zeros(Num(t.ds) - |t.got|);
      assert Text(TokenVal(t)) == t.ds + [COLON] + t.got + rest;
    }
  }

  /** The members of an open value, with a value for a key that has none. */
  function Evened(f: Frame): Vals {
    if f.kind == D && Count(f.items) % 2 == 1 then Snoc(f.items, Str([ZERO], [])) else f.items
  }

  lemma Shuts(f: Frame)
    requires FrameOk(f)
    ensures var v := Compound(f.kind, Evened(f));
            WellFormed(v) && [Opening(f.kind)] + ItemsText(f.items) <= Text(v)
  {
    ZeroLength();
    ShutText(f);
    hide Text, ItemsText;
  }

  lemma ShutText(f: Frame)
    ensures [Opening(f.kind)] + ItemsText(f.items) <= Text(Compound(f.kind, Evened(f)))
  {
    hide Opening;
    if Evened(f) != f.items {
      var s := Text(Str([ZERO], []));
      assert ItemsText(Evened(f)) == ItemsText(f.items) + s;
    }
  }

  lemma ZeroLength()
    ensures WellFormed(Str([ZERO], []))
  {
    assert [ZERO][..0] == [];
  }

  lemma Longer(a: seq<Octet>, b: seq<Octet>, c: seq<Octet>)
    requires b <= c
    ensures a + b <= a + c
  {}

  /** The open values around the innermost one. */
  lemma Around(frames: seq<Frame>)
    requires frames != [] && ConfigOk(Config(frames, Gap))
    ensures var n := |frames| - 1; var rest, f := frames[..n], frames[n];
            && FrameOk(f) && (n == 0 ==> f.kind == D)
            && (n > 0 ==> ConfigOk(Config(rest, Gap)) && !KeyNext(rest[n - 1].kind, rest[n - 1].items))
            && FramesText(frames) == FramesText(rest) + ([Opening(f.kind)] + ItemsText(f.items))
  {
    hide ItemsText, Opening, KeyNext, FrameOk;
    var n := |frames| - 1;
    assert frames[n] in frames;
    AroundText(frames);
    hide FramesText;
    assert forall f :: f in frames[..n] ==> f in frames;
  }

  lemma AroundText(frames: seq<Frame>)
    requires frames != []
    ensures var n := |frames| - 1; var rest, f := frames[..n], frames[n];
            FramesText(frames) == FramesText(rest) + ([Opening(f.kind)] + ItemsText(f.items))
  {
    hide ItemsText, Opening;
  }

  /** Closing all open values, the innermost first, gives a dictionary. */
  lemma {:induction false} FramesContinue(frames: seq<Frame>) returns (v: Val)
    requires frames != [] && ConfigOk(Config(frames, Gap))
    ensures Dictionary(v) && FramesText(frames) <= Text(v)
    decreases |frames|
  {
    hide Text, FramesText, ItemsText, ConfigOk, FrameOk;
    var n := |frames| - 1;
    var f, rest := frames[n], frames[..n];
    Around(frames);
    v := Compound(f.kind, Evened(f));
    Shuts(f);
    Longer(FramesText(rest), [Opening(f.kind)] + ItemsText(f.items), Text(v));
    if n == 0 {
      NoFrames(rest);
    } else {
      AddOk(rest, v);
      AddText(rest, v);
      HeadText(Add(rest, v).frames, ZERO);
      v := FramesContinue(Add(rest, v).frames);
    }
  }

  lemma Continues(c: Config) returns (v: Val)
    requires ConfigOk(c)
    ensures Dictionary(v) && ConfigText(c) <= Text(v)
  {
    hide Num;
    HeadText(c.frames, ZERO);
    if c.frames == [] {
      v := Compound(D, Nil);
    } else if c.tok == Gap {
      v := FramesContinue(c.frames);
    } else {
      var u := TokenVal(c.tok);
      TokenContinues(c.tok);
      RetokenOk(c.frames, c.tok, Gap);
      AddOk(c.frames, u);
      AddText(c.frames, u);
      Longer(FramesText(c.frames), TokenText(c.tok), Text(u));
      hide Text, FramesText;
      HeadText(Add(c.frames, u).frames, ZERO);
      v := FramesContinue(Add(c.frames, u).frames);
    }
  }

  // ---- Reported events only grow ----

  lemma EventsGrow(vs: Vals, v: Val)
    requires ItemsOk(D, Snoc(vs, v))
    ensures EventsOf(vs) <= EventsOf(Snoc(vs, v))
  {
    hide Num, Text, EventOf;
    if !KeyNext(D, vs) { assert vs.Snoc? && KeyNext(D, vs.init); }
  }

  lemma AddReports(frames: seq<Frame>, v: Val)
    requires frames != [] && ConfigOk(Config(frames, Gap)) && ConfigOk(Add(frames, v))
    ensures Reported(Config(frames, Gap)) <= Reported(Add(frames, v))
  {
    var d := Add(frames, v);
    assert frames[0] in frames && d.frames[0] in d.frames;
    if |frames| == 1 {
      EventsGrow(frames[0].items, v);
    } else {
      assert d.frames[0] == frames[0];
    }
  }

  /** Only the open values matter. */
  lemma SameReports(c: Config, d: Config)
    requires ConfigOk(c) && ConfigOk(d) && c.frames <= d.frames
    ensures Reported(c) <= Reported(d)
  {
    if c.frames != [] { assert c.frames[0] == d.frames[0]; }
  }

  lemma SettleReports(c: Config)
    requires ConfigOk(c)
    ensures ConfigOk(Settle(c)) && Reported(c) <= Reported(Settle(c))
  {
    SettleOk(c);
    hide Num, Reported;
    if Settle(c) != c {
      AddedReports(c, Str(c.tok.ds, []));
    } else {
      SameReports(c, c);
    }
  }

  lemma AddedReports(c: Config, v: Val)
    requires c.frames != [] && ConfigOk(c) && ConfigOk(Add(c.frames, v))
    ensures Reported(c) <= Reported(Add(c.frames, v))
  {
    hide Num, Reported;
    RetokenOk(c.frames, c.tok, Gap);
    SameReports(c, Config(c.frames, Gap));
    AddReports(c.frames, v);
  }

  /** What has been reported after an outcome. */
  ghost function OutcomeEvents(o: Outcome, c: Config): seq<Event>
    requires ConfigOk(c) && OutcomeOk(o)
  {
    match o
    case More(d) => Reported(d)
    case Done(v) => EventsOf(v.items)
    case Bad => Reported(c)
  }

  lemma TokenReports(c: Config, b: Octet)
    requires ConfigOk(c) && c.tok != Gap && (c.tok.StrBody? ==> |c.tok.got| < Num(c.tok.ds))
    ensures OutcomeOk(StepToken(c.frames, c.tok, b))
    ensures Reported(c) <= OutcomeEvents(StepToken(c.frames, c.tok, b), c)
  {
    StepTokenOk(c.frames, c.tok, b);
    var o := StepToken(c.frames, c.tok, b);
    hide Num, Reported;
    if o.More? {
      if o.config.frames == c.frames {
        SameReports(c, o.config);
      } else if c.tok.IntDigits? {
        AddedReports(c, Int(c.tok.neg, c.tok.ds));
      } else {
        AddedReports(c, Str(c.tok.ds, c.tok.got + [b]));
      }
    }
  }

  lemma GapReports(c: Config, b: Octet)
    requires ConfigOk(c) && c.tok == Gap
    ensures OutcomeOk(StepGap(c.frames, b))
    ensures Reported(c) <= OutcomeEvents(StepGap(c.frames, b), c)
  {
    StepGapOk(c.frames, b);
    hide Reported;
    var o := StepGap(c.frames, b);
    if c.frames != [] && b == LOWER_E {
      CloseReports(c);
    } else if o.More? {
      SameReports(c, o.config);
    }
  }

  lemma CloseReports(c: Config)
    requires ConfigOk(c) && c.tok == Gap && c.frames != []
    ensures OutcomeOk(Close(c.frames))
    ensures Reported(c) <= OutcomeEvents(Close(c.frames), c)
  {
    CloseOk(c.frames);
    var n := |c.frames| - 1;
    if n > 0 && Close(c.frames).More? {
      Around(c.frames);
      var rest := Config(c.frames[..n], Gap);
      assert rest.frames[0] == c.frames[0];
      AddedReports(rest, Compound(c.frames[n].kind, c.frames[n].items));
    }
  }

  lemma StepReports(c: Config, b: Octet)
    requires ConfigOk(c)
    ensures ConfigOk(Settle(c)) && OutcomeOk(Step(c, b))
    ensures Reported(c) <= Reported(Settle(c)) <= OutcomeEvents(Step(c, b), Settle(c))
  {
    SettleReports(c);
    SettleTwice(c);
    var d := Settle(c);
    StepOk(c, b);
    hide Settle, ConfigOk, OutcomeOk, StepGap, StepToken, Num, Reported, OutcomeEvents;
    if d.tok.StrBody? { BodyShort(d); }
    if d.tok == Gap { GapReports(d, b); } else { TokenReports(d, b); }
  }

  // ---- Verdicts ----

  lemma {:induction false} ScanReports(c: Config, w: seq<Octet>)
    requires ConfigOk(c)
    ensures Reported(c) <= Scan(c, w).events
    ensures ConfigOk(Settle(c)) && (w != [] ==> Reported(Settle(c)) <= Scan(c, w).events)
    decreases |w|
  {
    SettleOk(c);
    hide ConfigOk, Settle, Reported, Step;
    if w != [] {
      StepReports(c, w[0]);
      if Step(c, w[0]).More? { ScanReports(Step(c, w[0]).config, w[1..]); }
    }
  }

  /** The bytes that were read before the verdict that more is needed lead to a configuration. */
  lemma {:induction false} MoreLeads(c: Config, w: seq<Octet>)
    requires ConfigOk(c) && Scan(c, w).result == NeedMore
    ensures Run(c, w).More?
    decreases |w|
  {
    hide ConfigOk, Settle, Reported, Step;
    if w != [] {
      StepOk(c, w[0]);
      MoreLeads(Step(c, w[0]).config, w[1..]);
    }
  }

  /** Before the end of a dictionary more is needed, and what has been reported are its first members. */
  lemma {:induction false} MoreBefore(c: Config, w: seq<Octet>, u: seq<Octet>)
    requires ConfigOk(c) && u != [] && Run(c, w + u).Done?
    ensures Scan(c, w).result == NeedMore && Run(c, w).More?
    decreases |w|
  {
    hide ConfigOk, Settle, Reported, Step;
    if w != [] {
      StepOk(c, w[0]);
      assert (w + u)[1..] == w[1..] + u && (w + u)[0] == w[0];
      MoreBefore(Step(c, w[0]).config, w[1..], u);
    }
  }

  /** The first byte that violates the grammar. */
  lemma {:induction false} ViolationAt(c: Config, w: seq<Octet>) returns (n: nat)
    requires ConfigOk(c) && Scan(c, w).result == Violation
    ensures n < |w| && Run(c, w[..n]).More?
    ensures var d := Run(c, w[..n]).config;
            ConfigOk(d) && ConfigOk(Settle(d)) && Step(d, w[n]) == Bad && Scan(c, w).events == Reported(Settle(d))
    decreases |w|
  {
    hide ConfigOk, Settle, Reported, Step;
    StepOk(c, w[0]);
    SettleOk(c);
    if Step(c, w[0]).More? {
      n := ViolationAt(Step(c, w[0]).config, w[1..]);
      assert w[..n + 1][1..] == w[1..][..n] && w[..n + 1][0] == w[0];
      n := n + 1;
    } else {
      n := 0;
    }
  }

  /** w begins some dictionary. */
  ghost predicate Open(w: seq<Octet>) { exists v :: Dictionary(v) && w <= Text(v) }

  /** The first n bytes begin some dictionary, those with the next one do not, and the events are
      among the first of every dictionary that begins with the n bytes. */
  ghost predicate BreaksAt(w: seq<Octet>, n: nat, events: seq<Event>) {
    && n < |w| && Open(w[..n]) && !Open(w[..n + 1])
    && forall v :: Dictionary(v) && w[..n] <= Text(v) ==> events <= EventsOf(v.items)
  }

  /** More is needed exactly when the bytes are the beginning of a longer dictionary, and then the
      events are among the first of every such dictionary. */
  lemma NeedMoreExact(w: seq<Octet>)
    ensures ConfigOk(START)
    ensures Scan(START, w).result == NeedMore <==> exists v :: Dictionary(v) && w < Text(v)
    ensures forall v :: Dictionary(v) && w < Text(v) ==> Scan(START, w).events <= EventsOf(v.items)
  {
    hide Scan, Text, Step, ConfigText, ConfigOk, Run;
    StartOk();
    if Scan(START, w).result == NeedMore {
      MoreLeads(START, w);
      RunText(START, w);
      assert [] + w == w;
      var v := Continues(Run(START, w).config);
      ScanExact(w);
      assert Dictionary(v) && w < Text(v);
    }
    forall v | Dictionary(v) && w < Text(v)
      ensures Scan(START, w).result == NeedMore && Scan(START, w).events <= EventsOf(v.items)
    {
      Before(w, v);
    }
  }

  lemma Before(w: seq<Octet>, v: Val)
    requires Dictionary(v) && w < Text(v)
    ensures ConfigOk(START) && Run(START, w).More? && ConfigOk(Run(START, w).config)
    ensures ConfigOk(Settle(Run(START, w).config))
    ensures Scan(START, w) == Verdict(NeedMore, Reported(Run(START, w).config))
    ensures Reported(Run(START, w).config) <= EventsOf(v.items)
    ensures Reported(Settle(Run(START, w).config)) <= EventsOf(v.items)
  {
    hide Text, Step, ConfigOk, Run, Reported, Settle;
    StartOk();
    var u := Text(v)[|w|..];
    assert Text(v) == w + u;
    AcceptsDictionary(v);
    MoreBefore(START, w, u);
    ScanSplit(START, w, u);
    ScanSplit(START, w, []);
    assert w + [] == w;
    ScanReports(Run(START, w).config, u);
    ScanExact(Text(v));
  }

  /** A violation is reported exactly when the bytes neither begin with a dictionary nor can be
      continued to one; up to some byte they could, and the events are among the first of every
      dictionary that continues the bytes before it. */
  lemma ViolationExact(w: seq<Octet>)
    ensures ConfigOk(START)
    ensures Scan(START, w).result == Violation <==> forall v :: Dictionary(v) ==> !(w <= Text(v)) && !(Text(v) <= w)
    ensures Scan(START, w).result == Violation ==> exists n :: BreaksAt(w, n, Scan(START, w).events)
  {
    hide Scan, Text, Step, ConfigText, ConfigOk, Run, Dictionary;
    NeedMoreExact(w);
    ScanExact(w);
    if Scan(START, w).result == Violation {
      var n := ViolationAt(START, w);
      Breaks(w, n);
    }
  }

  /** A response begins with a d, and its first member with a digit, unless it has none. */
  lemma FirstBytes(w: seq<Octet>)
    ensures ConfigOk(START)
    ensures w != [] && w[0] != 0x64 ==> Scan(START, w) == Verdict(Violation, [])
    ensures |w| >= 2 && w[0] == 0x64 && !(0x30 <= w[1] <= 0x39) && w[1] != 0x65 ==>
              Scan(START, w) == Verdict(Violation, [])
    ensures |w| >= 2 && w[0] == 0x64 && w[1] == 0x65 ==> Scan(START, w) == Verdict(Success, [])
  {
    StartOk();
    if w != [] && w[0] == 0x64 {
      var c := Config([Frame(D, Nil)], Gap);
      assert Step(START, w[0]) == More(c);
      assert Scan(START, w) == Scan(c, w[1..]);
      if |w| >= 2 { assert w[1..][0] == w[1]; }
    }
  }

  /** No dictionary begins with bytes of which the last is refused. */
  lemma Refused(w: seq<Octet>, n: nat, v: Val)
    requires ConfigOk(START) && n < |w| && Run(START, w[..n]).More? && ConfigOk(Run(START, w[..n]).config)
    requires Step(Run(START, w[..n]).config, w[n]) == Bad && Dictionary(v)
    ensures !(w[..n + 1] <= Text(v))
  {
    hide Text, Step, ConfigOk, Dictionary;
    if w[..n + 1] <= Text(v) {
      AcceptsDictionary(v);
      var u := Text(v)[n..];
      assert Text(v)[..n] == w[..n + 1][..n] == w[..n];
      assert Text(v) == w[..n] + u && u[0] == w[..n + 1][n] == w[n];
      RunAppend(START, w[..n], u);
    }
  }

  lemma Breaks(w: seq<Octet>, n: nat)
    requires ConfigOk(START) && n < |w| && Run(START, w[..n]).More? && ConfigOk(Run(START, w[..n]).config)
    requires Step(Run(START, w[..n]).config, w[n]) == Bad && ConfigOk(Settle(Run(START, w[..n]).config))
    ensures BreaksAt(w, n, Reported(Settle(Run(START, w[..n]).config)))
  {
    hide Text, Step, ConfigOk, Run, Reported, Settle, ConfigText;
    StartOk();
    RunText(START, w[..n]);
    assert [] + w[..n] == w[..n];
    var d := Continues(Run(START, w[..n]).config);
    forall v | Dictionary(v)
      ensures !(w[..n + 1] <= Text(v))
      ensures w[..n] <= Text(v) ==> Reported(Settle(Run(START, w[..n]).config)) <= EventsOf(v.items)
    {
      Refused(w, n, v);
      AcceptsDictionary(v);
      assert w[..n] != Text(v);
      if w[..n] <= Text(v) { Before(w[..n], v); }
    }
  }
}
