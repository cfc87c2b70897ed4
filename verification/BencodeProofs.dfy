/** The byte machine accepts exactly the dictionaries of the grammar. */
module BencodeProofs {
  import opened Octets
  import opened Bencode

  ghost function Run(c: Config, w: seq<Octet>): Outcome
    requires ConfigOk(c)
    decreases |w|
  {
    if w == [] then More(c)
    else
      StepOk(c, w[0]);
      match Step(c, w[0])
      case More(c') => Run(c', w[1..])
      case Done(v) => if |w| == 1 then Done(v) else Bad
      case Bad => Bad
  }

  /** What has been read is the text of the open values, and of the dictionary at the end. */
  lemma {:induction false} RunText(c: Config, w: seq<Octet>)
    requires ConfigOk(c)
    ensures Run(c, w).More? ==> ConfigOk(Run(c, w).config) && ConfigText(Run(c, w).config) == ConfigText(c) + w
    ensures Run(c, w).Done? ==> Dictionary(Run(c, w).value) && Text(Run(c, w).value) == ConfigText(c) + w
    decreases |w|
  {
    hide Step, ConfigOk, ConfigText, Text, WellFormed;
    if w == [] {
      assert ConfigText(c) + w == ConfigText(c);
    } else {
      StepOk(c, w[0]);
      StepText(c, w[0]);
      assert w == [w[0]] + w[1..];
      Joins(ConfigText(c), w[0], w[1..]);
      if Step(c, w[0]).More? { RunText(Step(c, w[0]).config, w[1..]); }
      if |w| == 1 { assert w[1..] == []; }
    }
  }

  lemma Joins(a: seq<Octet>, b: Octet, w: seq<Octet>)
    ensures a + [b] + w == a + ([b] + w)
  {}

  lemma {:induction false} RunAppend(c: Config, a: seq<Octet>, b: seq<Octet>)
    requires ConfigOk(c) && Run(c, a).More?
    ensures ConfigOk(Run(c, a).config) && Run(c, a + b) == Run(Run(c, a).config, b)
    decreases |a|
  {
    hide Step, ConfigOk;
    if a == [] {
      assert a + b == b;
    } else {
      StepOk(c, a[0]);
      assert (a + b)[1..] == a[1..] + b;
      RunAppend(Step(c, a[0]).config, a[1..], b);
    }
  }

  /** A pending empty string makes no difference to what follows. */
  lemma RunSettled(c: Config, w: seq<Octet>)
    requires ConfigOk(c) && w != []
    ensures ConfigOk(Settle(c)) && Run(c, w) == Run(Settle(c), w)
  {
    SettleOk(c);
    SettleTwice(c);
    hide Settle, ConfigOk;
  }

  lemma RunOne(c: Config, b: Octet)
    requires ConfigOk(c)
    ensures Run(c, [b]) == Step(c, b)
  {
    StepOk(c, b);
    hide Step, ConfigOk;
    assert [b][1..] == [];
  }

  /** Reading on from the settled form of what a has led to. */
  lemma RunThen(c: Config, a: seq<Octet>, d: Config, b: seq<Octet>)
    requires ConfigOk(c) && Run(c, a).More? && Settle(Run(c, a).config) == d && b != []
    ensures ConfigOk(d) && Run(c, a + b) == Run(d, b)
  {
    hide ConfigOk, Settle, Run;
    RunAppend(c, a, b);
    RunSettled(Run(c, a).config, b);
  }

  /** Reading a leads from c to d, up to a pending empty string. */
  ghost predicate Leads(c: Config, a: seq<Octet>, d: Config) {
    ConfigOk(c) && ConfigOk(d) && Run(c, a).More? && Settle(Run(c, a).config) == d
  }

  lemma LeadsOn(c: Config, a: seq<Octet>, d: Config, b: seq<Octet>, e: Config)
    requires Leads(c, a, d) && Leads(d, b, e) && b != []
    ensures Leads(c, a + b, e)
  {
    hide ConfigOk, Settle, Run;
    RunThen(c, a, d, b);
  }

  lemma LeadsStep(c: Config, b: Octet, d: Config)
    requires ConfigOk(c) && Step(c, b) == More(d) && Settle(d) == d
    ensures Leads(c, [b], d)
  {
    StepOk(c, b);
    RunOne(c, b);
    hide ConfigOk, Settle, Run, Step;
  }

  // ---- Every value of the grammar is read ----

  lemma {:induction false} LeadsInt(frames: seq<Frame>, neg: bool, ds: seq<Octet>, more: seq<Octet>)
    requires ConfigOk(Config(frames, IntDigits(neg, ds))) && AllDigits(more)
    ensures Leads(Config(frames, IntDigits(neg, ds)), more, Config(frames, IntDigits(neg, ds + more)))
    decreases |more|
  {
    var c := Config(frames, IntDigits(neg, ds));
    if more == [] {
      assert ds + more == ds;
    } else {
      var b := more[0];
      var d := Config(frames, IntDigits(neg, ds + [b]));
      assert b in more && IsDigit(b);
      assert Step(c, b) == More(d);
      LeadsStep(c, b, d);
      hide Step, ConfigOk, Settle, Run;
      if more[1..] == [] {
        assert more == [b];
      } else {
        LeadsInt(frames, neg, ds + [b], more[1..]);
        assert more == [b] + more[1..] && ds + more == ds + [b] + more[1..];
        LeadsOn(c, [b], d, more[1..], Config(frames, IntDigits(neg, ds + more)));
      }
    }
  }

  lemma {:induction false} LeadsLength(frames: seq<Frame>, ds: seq<Octet>, more: seq<Octet>)
    requires ConfigOk(Config(frames, StrLen(ds))) && AllDigits(more)
    ensures Leads(Config(frames, StrLen(ds)), more, Config(frames, StrLen(ds + more)))
    decreases |more|
  {
    var c := Config(frames, StrLen(ds));
    if more == [] {
      assert ds + more == ds;
    } else {
      var b := more[0];
      var d := Config(frames, StrLen(ds + [b]));
      assert b in more && IsDigit(b);
      assert Step(c, b) == More(d);
      LeadsStep(c, b, d);
      hide Step, ConfigOk, Settle, Run;
      if more[1..] == [] {
        assert more == [b];
      } else {
        LeadsLength(frames, ds + [b], more[1..]);
        assert more == [b] + more[1..] && ds + more == ds + [b] + more[1..];
        LeadsOn(c, [b], d, more[1..], Config(frames, StrLen(ds + more)));
      }
    }
  }

  lemma {:induction false} LeadsBody(frames: seq<Frame>, ds: seq<Octet>, got: seq<Octet>, more: seq<Octet>)
    requires ConfigOk(Config(frames, StrBody(ds, got))) && |got| + |more| == Num(ds) && frames != []
    ensures Leads(Config(frames, StrBody(ds, got)), more, Add(frames, Str(ds, got + more)))
    decreases |more|
  {
    hide Num;
    var c := Config(frames, StrBody(ds, got));
    if more == [] {
      assert got + more == [];
      SettleOk(c);
    } else {
      var b := more[0];
      var d := Grow(frames, ds, got + [b]);
      assert Step(c, b) == More(d);
      LeadsStep(c, b, d);
      if more[1..] == [] {
        assert more == [b];
      } else {
        StepOk(c, b);
        hide Step, ConfigOk, Settle, Run;
        LeadsBody(frames, ds, got + [b], more[1..]);
        assert more == [b] + more[1..] && got + more == got + [b] + more[1..];
        LeadsOn(c, [b], d, more[1..], Add(frames, Str(ds, got + more)));
      }
    }
  }

  /** Reading the text of a value adds the value to the innermost open one. */
  lemma {:induction false} LeadsValue(frames: seq<Frame>, v: Val)
    requires frames != [] && ConfigOk(Config(frames, Gap)) && WellFormed(v)
    requires KeyNext(frames[|frames| - 1].kind, frames[|frames| - 1].items) ==> v.Str?
    ensures Leads(Config(frames, Gap), Text(v), Add(frames, v)) && Text(v) != []
    decreases v, 1
  {
    match v
    case Int(neg, ds) => LeadsIntValue(frames, neg, ds);
    case Str(ds, data) => LeadsStr(frames, ds, data);
    case Compound(k, items) => LeadsCompound(frames, k, items);
  }

  lemma LeadsIntValue(frames: seq<Frame>, neg: bool, ds: seq<Octet>)
    requires frames != [] && ConfigOk(Config(frames, Gap)) && Numeral(ds)
    requires !KeyNext(frames[|frames| - 1].kind, frames[|frames| - 1].items)
    ensures Leads(Config(frames, Gap), Text(Int(neg, ds)), Add(frames, Int(neg, ds)))
  {
    var c0, c1 := Config(frames, Gap), Config(frames, IntHead);
    assert Step(c0, LOWER_I) == More(c1);
    LeadsStep(c0, LOWER_I, c1);
    assert ds[0] in ds && AllDigits(ds[1..]);
    var c2, c3 := Config(frames, IntDigits(neg, [ds[0]])), Config(frames, IntDigits(neg, ds));
    LeadsHead(frames, neg, ds[0]);
    LeadsInt(frames, neg, [ds[0]], ds[1..]);
    assert [ds[0]] + ds[1..] == ds;
    var d := Add(frames, Int(neg, ds));
    assert ConfigOk(c3) && Step(c3, LOWER_E) == More(d);
    LeadsStep(c3, LOWER_E, d);
    hide Step, ConfigOk, Settle, Run, Text;
    LeadsOn(c0, [LOWER_I], c1, Sign(neg) + [ds[0]], c2);
    if ds[1..] == [] {
      assert ds == [ds[0]];
      IntBytes(neg, ds);
      LeadsOn(c0, [LOWER_I] + (Sign(neg) + [ds[0]]), c2, [LOWER_E], d);
    } else {
      LeadsOn(c0, [LOWER_I] + (Sign(neg) + [ds[0]]), c2, ds[1..], c3);
      IntBytes(neg, ds);
      LeadsOn(c0, [LOWER_I] + (Sign(neg) + [ds[0]]) + ds[1..], c3, [LOWER_E], d);
    }
  }

  lemma IntBytes(neg: bool, ds: seq<Octet>)
    requires ds != []
    ensures Text(Int(neg, ds)) == [LOWER_I] + (Sign(neg) + [ds[0]]) + ds[1..] + [LOWER_E]
    ensures ds[1..] == [] ==> Text(Int(neg, ds)) == [LOWER_I] + (Sign(neg) + [ds[0]]) + [LOWER_E]
  {
    assert ds == [ds[0]] + ds[1..];
  }

  lemma LeadsHead(frames: seq<Frame>, neg: bool, b: Octet)
    requires ConfigOk(Config(frames, IntHead)) && IsDigit(b)
    ensures Leads(Config(frames, IntHead), Sign(neg) + [b], Config(frames, IntDigits(neg, [b])))
  {
    var c, d := Config(frames, IntHead), Config(frames, IntDigits(neg, [b]));
    if neg {
      var m := Config(frames, IntNeg);
      LeadsStep(c, MINUS, m);
      LeadsStep(m, b, d);
      LeadsOn(c, [MINUS], m, [b], d);
    } else {
      assert Sign(neg) + [b] == [b];
      LeadsStep(c, b, d);
    }
  }

  lemma LeadsStr(frames: seq<Frame>, ds: seq<Octet>, data: seq<Octet>)
    requires frames != [] && ConfigOk(Config(frames, Gap)) && Numeral(ds) && Num(ds) == |data|
    ensures Leads(Config(frames, Gap), Text(Str(ds, data)), Add(frames, Str(ds, data)))
  {
    hide Num;
    assert ds[0] in ds && AllDigits(ds[1..]);
    var c0, c1 := Config(frames, Gap), Config(frames, StrLen([ds[0]]));
    var c2, c3 := Config(frames, StrLen(ds)), Config(frames, StrBody(ds, []));
    assert Step(c0, ds[0]) == More(c1);
    LeadsStep(c0, ds[0], c1);
    LeadsLength(frames, [ds[0]], ds[1..]);
    assert [ds[0]] + ds[1..] == ds;
    assert Step(c2, COLON) == More(c3);
    hide Settle, Run;
    if ds[1..] != [] {
      LeadsOn(c0, [ds[0]], c1, ds[1..], c2);
    } else {
      assert ds == [ds[0]];
    }
    assert Leads(c0, ds, c2);
    StepOk(c2, COLON);
    RunThen(c0, ds, c2, [COLON]);
    RunOne(c2, COLON);
    LeadsBody(frames, ds, [], data);
    assert [] + data == data;
    RunAppend(c0, ds + [COLON], data);
  }

  lemma {:induction false} LeadsItems(frames: seq<Frame>, k: Kind, vs: Vals)
    requires ItemsOk(k, vs) && ConfigOk(Config(frames + [Frame(k, Nil)], Gap))
    ensures Leads(Config(frames + [Frame(k, Nil)], Gap), ItemsText(vs), Config(frames + [Frame(k, vs)], Gap))
    decreases vs, 0
  {
    var c0, d := Config(frames + [Frame(k, Nil)], Gap), Config(frames + [Frame(k, vs)], Gap);
    if vs.Snoc? {
      var c1 := Config(frames + [Frame(k, vs.init)], Gap);
      LeadsItems(frames, k, vs.init);
      LeadsValue(c1.frames, vs.last);
      assert Add(c1.frames, vs.last) == d;
      hide Step, ConfigOk, Settle, Run, Text, Add;
      LeadsOn(c0, ItemsText(vs.init), c1, Text(vs.last), d);
    }
  }

  lemma LeadsCompound(frames: seq<Frame>, k: Kind, items: Vals)
    requires frames != [] && ConfigOk(Config(frames, Gap)) && WellFormed(Compound(k, items))
    requires !KeyNext(frames[|frames| - 1].kind, frames[|frames| - 1].items)
    ensures Leads(Config(frames, Gap), Text(Compound(k, items)), Add(frames, Compound(k, items)))
    decreases items, 1
  {
    var v := Compound(k, items);
    var c0, c1 := Config(frames, Gap), Config(frames + [Frame(k, Nil)], Gap);
    var c2 := Config(frames + [Frame(k, items)], Gap);
    var d := Add(frames, v);
    assert Step(c0, Opening(k)) == More(c1);
    LeadsStep(c0, Opening(k), c1);
    LeadsItems(frames, k, items);
    assert c2.frames[..|frames|] == frames;
    assert Step(c2, LOWER_E) == More(d);
    LeadsStep(c2, LOWER_E, d);
    hide Step, ConfigOk, Settle, Run, ItemsText;
    if ItemsText(items) == [] {
      assert c1 == c2;
      LeadsOn(c0, [Opening(k)], c2, [LOWER_E], d);
    } else {
      LeadsOn(c0, [Opening(k)], c1, ItemsText(items), c2);
      LeadsOn(c0, [Opening(k)] + ItemsText(items), c2, [LOWER_E], d);
    }
  }

  /** Every dictionary of the grammar is accepted right after its last byte, as itself. */
  lemma AcceptsDictionary(v: Val)
    requires Dictionary(v)
    ensures Run(START, Text(v)) == Done(v)
  {
    var c1, c2 := Config([Frame(D, Nil)], Gap), Config([Frame(D, v.items)], Gap);
    assert Step(START, LOWER_D) == More(c1);
    assert [] + [Frame(D, Nil)] == [Frame(D, Nil)] && [] + [Frame(D, v.items)] == [Frame(D, v.items)];
    LeadsStep(START, LOWER_D, c1);
    LeadsItems([], D, v.items);
    assert Step(c2, LOWER_E) == Done(v);
    RunOne(c2, LOWER_E);
    hide Step, ConfigOk, Settle, Run, ItemsText;
    if ItemsText(v.items) == [] {
      assert c1 == c2;
      assert Text(v) == [LOWER_D] + [LOWER_E];
      RunThen(START, [LOWER_D], c2, [LOWER_E]);
    } else {
      LeadsOn(START, [LOWER_D], c1, ItemsText(v.items), c2);
      RunThen(START, [LOWER_D] + ItemsText(v.items), c2, [LOWER_E]);
    }
  }

  /** The byte strings after which the parser reports success are the dictionaries of the grammar. */
  lemma AcceptsExactly(w: seq<Octet>)
    ensures Run(START, w).Done? <==> exists v :: Dictionary(v) && Text(v) == w
  {
    hide Step, ConfigOk, Text, WellFormed, Run;
    StartOk();
    RunText(START, w);
    assert ConfigText(START) + w == w;
    forall v | Dictionary(v) && Text(v) == w
      ensures Run(START, w).Done?
    {
      AcceptsDictionary(v);
    }
  }

  lemma StartOk()
    ensures ConfigOk(START) && ConfigText(START) == []
  {}

  /** The grammar is unambiguous on dictionaries. */
  lemma Unambiguous(u: Val, v: Val)
    requires Dictionary(u) && Dictionary(v) && Text(u) == Text(v)
    ensures u == v
  {
    hide Dictionary, Run, Text;
    AcceptsDictionary(u);
    AcceptsDictionary(v);
  }

  // ---- The verdict on a byte string ----

  datatype Result = NeedMore | Success | Violation

  datatype Verdict = Verdict(result: Result, events: seq<Event>)

  ghost function Reported(c: Config): seq<Event>
    requires ConfigOk(c)
  {
    if c.frames == [] then [] else assert c.frames[0] in c.frames; EventsOf(c.frames[0].items)
  }

  /** What the parser answers and has reported when w follows what led to c. */
  ghost function Scan(c: Config, w: seq<Octet>): Verdict
    requires ConfigOk(c)
    decreases |w|
  {
    if w == [] then Verdict(NeedMore, Reported(c))
    else
      StepOk(c, w[0]);
      SettleOk(c);
      match Step(c, w[0])
      case More(c') => Scan(c', w[1..])
      case Done(v) => Verdict(Success, EventsOf(v.items))
      case Bad => Verdict(Violation, Reported(Settle(c)))
  }

  lemma {:induction false} ScanFinds(c: Config, w: seq<Octet>) returns (v: Val, n: nat)
    requires ConfigOk(c) && Scan(c, w).result == Success
    ensures n <= |w| && Dictionary(v) && Text(v) == ConfigText(c) + w[..n]
    decreases |w|
  {
    hide ConfigOk, ConfigText, Text, WellFormed;
    StepOk(c, w[0]);
    StepText(c, w[0]);
    hide Step;
    if Step(c, w[0]).More? {
      v, n := ScanFinds(Step(c, w[0]).config, w[1..]);
      Joins(ConfigText(c), w[0], w[1..][..n]);
      assert [w[0]] + w[1..][..n] == w[..n + 1];
      n := n + 1;
    } else {
      v, n := Step(c, w[0]).value, 1;
      assert w[..1] == [w[0]];
    }
  }

  lemma {:induction false} ScanAfterRun(c: Config, u: seq<Octet>, w: seq<Octet>, v: Val)
    requires ConfigOk(c) && Run(c, u) == Done(v) && Dictionary(v)
    ensures Scan(c, u + w) == Verdict(Success, EventsOf(v.items))
    decreases |u|
  {
    hide ConfigOk, Settle;
    assert (u + w)[0] == u[0] && (u + w)[1..] == u[1..] + w;
    StepOk(c, u[0]);
    hide Step;
    if Step(c, u[0]).More? { ScanAfterRun(Step(c, u[0]).config, u[1..], w, v); }
  }

  /** Success is reported exactly when the bytes begin with a dictionary of the grammar, and what
      has been reported by then are its members. */
  lemma ScanExact(w: seq<Octet>)
    ensures ConfigOk(START)
    ensures Scan(START, w).result == Success <==> exists v :: Dictionary(v) && Text(v) <= w
    ensures forall v :: Dictionary(v) && Text(v) <= w ==> Scan(START, w) == Verdict(Success, EventsOf(v.items))
  {
    hide Scan, Text, Step, ConfigText, ConfigOk, Run;
    StartOk();
    if Scan(START, w).result == Success {
      var v, n := ScanFinds(START, w);
      assert [] + w[..n] == w[..n] && w[..n] <= w;
      assert Dictionary(v) && Text(v) <= w;
    }
    forall v | Dictionary(v) && Text(v) <= w
      ensures Scan(START, w) == Verdict(Success, EventsOf(v.items))
    {
      AcceptsDictionary(v);
      assert w == Text(v) + w[|Text(v)|..];
      ScanAfterRun(START, Text(v), w[|Text(v)|..], v);
    }
  }

  /** Input that arrives in two pieces gets the verdict it gets in one. */
  lemma {:induction false} ScanSplit(c: Config, a: seq<Octet>, b: seq<Octet>)
    requires ConfigOk(c) && Run(c, a).More?
    ensures ConfigOk(Run(c, a).config) && Scan(c, a + b) == Scan(Run(c, a).config, b)
    decreases |a|
  {
    hide ConfigOk, Settle;
    if a == [] {
      assert a + b == b;
    } else {
      StepOk(c, a[0]);
      hide Step;
      assert (a + b)[1..] == a[1..] + b;
      ScanSplit(Step(c, a[0]).config, a[1..], b);
    }
  }
}
