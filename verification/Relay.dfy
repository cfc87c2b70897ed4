/** The relay of proxy.c as a whole: all tunnels, the resource counters, and the events that the
    event loop can deliver. */
module Relay {
  import opened Octets
  import opened Tunnel

  /** A tunnel in use, or its last state and whether it was closed after an error. */
  datatype Slot = Open(t: State) | Closed(last: State, failed: bool)

  // ---- Live objects ----

  function Bevs(t: State): nat {
    (if t.local.Some? then 1 else 0) + (if t.remote.Some? then 1 else 0) + (if t.remoteTcp then 1 else 0)
  }

  function Ssls(t: State): nat { if t.ssl then 1 else 0 }

  /** Live connections, SSL objects and tunnels. */
  datatype Live = Live(bevs: nat, ssls: nat, states: nat)

  function LiveIn(slot: Slot): Live {
    if slot.Open? then Live(Bevs(slot.t), Ssls(slot.t), 1) else Live(0, 0, 0)
  }

  function Total(slots: seq<Slot>): Live {
    if slots == [] then Live(0, 0, 0)
    else
      var a, b := Total(slots[..|slots| - 1]), LiveIn(slots[|slots| - 1]);
      Live(a.bevs + b.bevs, a.ssls + b.ssls, a.states + b.states)
  }

  lemma TotalAppend(slots: seq<Slot>, s: Slot)
    ensures var a, b := Total(slots), LiveIn(s);
            Total(slots + [s]) == Live(a.bevs + b.bevs, a.ssls + b.ssls, a.states + b.states)
  {
    assert (slots + [s])[..|slots|] == slots;
  }

  /** Changing one tunnel changes the totals by its own objects. */
  lemma {:induction false} TotalUpdate(slots: seq<Slot>, i: nat, s: Slot)
    requires i < |slots|
    ensures var a, b := Total(slots), Total(slots[i := s]);
            && b.bevs + LiveIn(slots[i]).bevs == a.bevs + LiveIn(s).bevs
            && b.ssls + LiveIn(slots[i]).ssls == a.ssls + LiveIn(s).ssls
            && b.states + LiveIn(slots[i]).states == a.states + LiveIn(s).states
  {
    hide LiveIn;
    var n := |slots| - 1;
    if i == n {
      assert slots[i := s][..n] == slots[..n];
    } else {
      assert slots[i := s][..n] == slots[..n][i := s];
      TotalUpdate(slots[..n], i, s);
    }
  }

  // ---- The relay ----

  /** An open tunnel is in order; one closed without an error has sent on all that its finished sides
      said, exactly unless both had finished. */
  predicate SlotOk(slot: Slot) {
    if slot.Open? then StateOk(slot.t) else slot.failed || EndOk(slot.last)
  }

  datatype Event =
    | Accept(localMade: bool, tcpMade: bool)
    | Resolved(id: nat, found: bool, sslMade: bool, filterMade: bool)
    | Connected(id: nat, side: Side)
    | Data(id: nat, side: Side, bytes: seq<Octet>)
    | Written(id: nat, side: Side, n: nat)
    | Eof(id: nat, side: Side)
    | Error(id: nat, side: Side)

  const NEW_STATE := State(None, None, false, false, false, 0, 0)

  /** A tunnel whose server address has been looked up: up with its callbacks, or closed with what
      had been made so far. */
  function AfterResolved(t: State, found: bool, sslMade: bool, filterMade: bool): Slot {
    if !found || !sslMade then Closed(t, true)
    else if !filterMade || t.local.None? then Closed(t.(ssl := true), true)
    else Open(t.(ssl := true, remote := Some(NEW_BEV.(readCb := true)), local := Some(t.local.value.(readCb := true))))
  }

  function AfterAccept(localMade: bool, tcpMade: bool): Slot {
    if !localMade then Closed(NEW_STATE, true)
    else if !tcpMade then Closed(NEW_STATE.(local := Some(NEW_BEV)), true)
    else Open(NEW_STATE.(local := Some(NEW_BEV), remoteTcp := true))
  }

  function SlotOf(a: After): Slot { if a.Keep? then Open(a.t) else Closed(a.t, false) }

  /** What an event does to the tunnel it is for; one that cannot happen now does nothing. */
  function AfterEvent(slot: Slot, e: Event): Slot {
    if slot.Closed? then slot
    else
      var t := slot.t;
      if !Up(t) then
        if e.Resolved? then AfterResolved(t, e.found, e.sslMade, e.filterMade) else slot
      else
        match e
        case Connected(_, _) => if t.connected then slot else Open(ConnectedCb(t))
        case Data(_, s, bytes) =>
          if Get(t, s).readEnabled && !Get(t, s).eof then Open(OnData(t, s, bytes)) else slot
        case Written(_, s, n) => if 1 <= n <= |Get(t, s).output| then SlotOf(OnWritten(t, s, n)) else slot
        case Eof(_, s) => if Get(t, s).eof then slot else SlotOf(OnEof(t, s))
        case Error(_, _) => Closed(t, true)
        case _ => slot
  }

  function Next(slots: seq<Slot>, e: Event): seq<Slot> {
    if e.Accept? then slots + [AfterAccept(e.localMade, e.tcpMade)]
    else if e.id < |slots| then slots[e.id := AfterEvent(slots[e.id], e)]
    else slots
  }

  function AllSlots(events: seq<Event>): seq<Slot> {
    if events == [] then [] else Next(AllSlots(events[..|events| - 1]), events[|events| - 1])
  }

  lemma OneMore(events: seq<Event>, e: Event)
    ensures AllSlots(events + [e]) == Next(AllSlots(events), e)
  {
    hide Next;
    assert (events + [e])[..|events|] == events;
  }

  class Proxy {
    var refBev: int
    var refState: int
    var refSsl: int
    var countTunnels: nat
    var countOpen: int
    var slots: seq<Slot>

    /** The counters are the numbers of live objects, and every tunnel is in order. */
    ghost predicate Valid()
      reads this
    {
      && refBev == Total(slots).bevs && refSsl == Total(slots).ssls && refState == Total(slots).states
      && countOpen == Total(slots).states && countTunnels == |slots|
      && forall i :: 0 <= i < |slots| ==> SlotOk(slots[i])
    }

    constructor ()
      ensures Valid() && slots == []
    {
      refBev, refState, refSsl, countTunnels, countOpen, slots := 0, 0, 0, 0, 0, [];
    }

    ghost predicate IsOpen(id: nat)
      reads this
    {
      id < |slots| && slots[id].Open?
    }

    /** The counters are right except that this tunnel's own objects are those of t. */
    ghost predicate ValidBut(id: nat, t: State)
      reads this
    {
      && IsOpen(id) && countTunnels == |slots|
      && (forall i :: 0 <= i < |slots| && i != id ==> SlotOk(slots[i]))
      && refBev == Total(slots).bevs - Bevs(slots[id].t) + Bevs(t)
      && refSsl == Total(slots).ssls - Ssls(slots[id].t) + Ssls(t)
      && refState == Total(slots).states && countOpen == Total(slots).states
    }

    /** Frees all that the tunnel holds; the counters cannot go below zero. */
    method StateCleanup(id: nat, t: State, failed: bool)
      requires ValidBut(id, t) && (failed || EndOk(t))
      modifies this
      ensures Valid() && slots == old(slots)[id := Closed(t, failed)]
    {
      hide SlotOk, Total, EndOk;
      TotalUpdate(slots, id, Closed(t, failed));
      if t.local.Some? {
        refBev := refBev - 1;
        assert refBev >= 0;
      }
      if t.remote.Some? {
        refBev := refBev - 1;
        assert refBev >= 0;
      }
      if t.remoteTcp {
        refBev := refBev - 1;
        assert refBev >= 0;
      }
      if t.ssl {
        refSsl := refSsl - 1;
        assert refSsl >= 0;
      }
      countOpen := countOpen - 1;
      refState := refState - 1;
      assert refState >= 0;
      slots := slots[id := Closed(t, failed)];
      ClosedOk(t, failed);
    }

    /** Puts back a tunnel whose objects are counted. */
    method Store(id: nat, t: State)
      requires ValidBut(id, t) && StateOk(t)
      modifies this`slots
      ensures Valid() && slots == old(slots)[id := Open(t)]
    {
      hide SlotOk, Total, StateOk;
      TotalUpdate(slots, id, Open(t));
      OpenOk(t);
      slots := slots[id := Open(t)];
    }

    method Finish(id: nat, a: After)
      requires ValidBut(id, a.t) && (if a.Keep? then StateOk(a.t) else EndOk(a.t))
      modifies this
      ensures Valid() && slots == old(slots)[id := if a.Keep? then Open(a.t) else Closed(a.t, false)]
    {
      if a.Keep? { Store(id, a.t); } else { StateCleanup(id, a.t, false); }
    }

    /** A client has connected. */
    method AcceptCb(localMade: bool, tcpMade: bool)
      requires Valid()
      modifies this
      ensures Valid() && slots == old(slots) + [AfterAccept(localMade, tcpMade)]
    {
      hide SlotOk, Total;
      var t := NEW_STATE;
      var id := countTunnels;
      TotalAppend(slots, Open(t));
      refState := refState + 1;
      countTunnels := countTunnels + 1;
      countOpen := countOpen + 1;
      slots := slots + [Open(t)];
      if !localMade {
        StateCleanup(id, t, true);
        return;
      }
      t := t.(local := Some(NEW_BEV));
      refBev := refBev + 1;
      if !tcpMade {
        StateCleanup(id, t, true);
        return;
      }
      t := t.(remoteTcp := true);
      refBev := refBev + 1;
      Store(id, t);
    }

    /** The address of the server is known, or not. */
    method ResolvedCb(id: nat, found: bool, sslMade: bool, filterMade: bool)
      requires Valid() && IsOpen(id) && !Up(slots[id].t)
      modifies this
      ensures Valid() && slots == old(slots)[id := AfterResolved(old(slots)[id].t, found, sslMade, filterMade)]
    {
      hide SlotOk, Total;
      var t := slots[id].t;
      OpenIs(slots[id]);
      if !found {
        StateCleanup(id, t, true);
        return;
      }
      if !sslMade {
        StateCleanup(id, t, true);
        return;
      }
      t := t.(ssl := true);
      refSsl := refSsl + 1;
      if !filterMade {
        StateCleanup(id, t, true);
        return;
      }
      t := t.(remote := Some(NEW_BEV.(readCb := true)), local := Some(t.local.value.(readCb := true)));
      refBev := refBev + 1;
      Store(id, t);
    }

    /** One event; events that cannot happen in the present state change nothing. */
    method Handle(e: Event)
      requires Valid()
      modifies this
      ensures Valid() && slots == Next(old(slots), e)
    {
      hide SlotOk, Total, StateOk, EndOk;
      if e.Accept? {
        AcceptCb(e.localMade, e.tcpMade);
        return;
      }
      if e.id >= |slots| || slots[e.id].Closed? {
        return;
      }
      var id, t := e.id, slots[e.id].t;
      OpenIs(slots[id]);
      if e.Resolved? {
        if !Up(t) {
          ResolvedCb(id, e.found, e.sslMade, e.filterMade);
        }
        return;
      }
      if Up(t) {
        UpEvent(id, t, e);
      }
    }

    method UpEvent(id: nat, t: State, e: Event)
      requires Valid() && IsOpen(id) && t == slots[id].t && StateOk(t) && Up(t) && !e.Accept? && !e.Resolved?
      modifies this
      ensures Valid() && slots == old(slots)[id := AfterEvent(Open(t), e)]
    {
      hide SlotOk, Total, StateOk, EndOk, OnData, OnWritten, OnEof, ConnectedCb;
      match e
      case Connected(_, _) =>
        if !t.connected {
          ConnectedKeeps(t);
          Store(id, ConnectedCb(t));
        }
      case Data(_, s, bytes) =>
        if Get(t, s).readEnabled && !Get(t, s).eof {
          DataKeeps(t, s, bytes);
          Store(id, OnData(t, s, bytes));
        }
      case Written(_, s, n) =>
        if 1 <= n <= |Get(t, s).output| {
          WrittenKeeps(t, s, n);
          Finish(id, OnWritten(t, s, n));
        }
      case Eof(_, s) =>
        if !Get(t, s).eof {
          EofKeeps(t, s);
          Finish(id, OnEof(t, s));
        }
      case Error(_, _) =>
        StateCleanup(id, t, true);
    }
  }

  lemma OpenOk(t: State)
    requires StateOk(t)
    ensures SlotOk(Open(t))
  {}

  lemma OpenIs(slot: Slot)
    requires SlotOk(slot) && slot.Open?
    ensures StateOk(slot.t)
  {}

  lemma ClosedOk(t: State, failed: bool)
    requires failed || EndOk(t)
    ensures SlotOk(Closed(t, failed))
  {}

  /** Every run: whatever happens in whatever order, the counters are the numbers of live objects,
      every byte that arrives goes to the other side in order, a paused side will be woken, and a
      tunnel that was not closed by an error has sent on all that its finished sides said exactly if
      only one side had finished. */
  method Run(events: seq<Event>) returns (p: Proxy)
    ensures p.Valid() && p.slots == AllSlots(events)
    ensures forall i :: 0 <= i < |p.slots| && p.slots[i].Closed? && !p.slots[i].failed ==>
              Up(p.slots[i].last) && (BothSent(p.slots[i].last) <==> !BothEnded(p.slots[i].last))
  {
    p := new Proxy();
    for i := 0 to |events|
      invariant p.Valid() && fresh(p) && p.slots == AllSlots(events[..i])
    {
      assert events[..i + 1] == events[..i] + [events[i]];
      OneMore(events[..i], events[i]);
      p.Handle(events[i]);
    }
    assert events[..|events|] == events;
  }

  // ---- When bytes of a finished side are lost ----

  /** What an event does to a tunnel in order, and when a close without error loses bytes. */
  lemma EventKeeps(slot: Slot, e: Event)
    requires SlotOk(slot) && !e.Accept?
    ensures var r := AfterEvent(slot, e);
            && SlotOk(r)
            && (slot.Open? && r.Closed? && !r.failed ==>
                  && Up(slot.t) && Up(r.last) && (e.Written? || e.Eof?)
                  && (BothSent(r.last) <==> !CutsShort(slot.t, e)))
  {
    hide StateOk, EndOk, BothSent, OnData, OnWritten, OnEof, ConnectedCb;
    if slot.Open? {
      var t := slot.t;
      if !Up(t) {
        if e.Resolved? { ResolvedKeeps(t, e.found, e.sslMade, e.filterMade); }
      } else {
        match e
        case Connected(_, _) => if !t.connected { ConnectedKeeps(t); }
        case Data(_, s, bytes) => if Get(t, s).readEnabled && !Get(t, s).eof { DataKeeps(t, s, bytes); }
        case Written(_, s, n) => if 1 <= n <= |Get(t, s).output| { WrittenKeeps(t, s, n); }
        case Eof(_, s) => if !Get(t, s).eof { EofKeeps(t, s); }
        case _ =>
      }
    }
  }

  /** The event ends the tunnel while the output that it does not wait for was to be sent before a
      close as well: that of the side whose peer ends, or of the side other than the one that drains. */
  predicate CutsShort(t: State, e: Event)
    requires Up(t)
  {
    match e
    case Eof(_, s) => Get(t, s).writeCb == CloseOnFinished
    case Written(_, s, _) => Get(t, Other(s)).writeCb == CloseOnFinished
    case _ => false
  }

  lemma ResolvedKeeps(t: State, found: bool, sslMade: bool, filterMade: bool)
    requires StateOk(t) && !Up(t)
    ensures var r := AfterResolved(t, found, sslMade, filterMade); SlotOk(r) && (r.Closed? ==> r.failed)
  {}

  lemma {:induction false} AllSlotsOk(events: seq<Event>)
    ensures forall i :: 0 <= i < |AllSlots(events)| ==> SlotOk(AllSlots(events)[i])
  {
    hide SlotOk, AfterEvent;
    if events != [] {
      var n := |events| - 1;
      var slots, e := AllSlots(events[..n]), events[n];
      AllSlotsOk(events[..n]);
      if e.Accept? {
        AcceptKeeps(e.localMade, e.tcpMade);
      } else if e.id < |slots| {
        EventKeeps(slots[e.id], e);
      }
    }
  }

  lemma AcceptKeeps(localMade: bool, tcpMade: bool)
    ensures SlotOk(AfterAccept(localMade, tcpMade))
  {}

  /** After any run, an event that closes a tunnel without an error loses bytes of a finished side
      exactly if it cuts short the wait for the other side's output. */
  lemma CloseExact(events: seq<Event>, e: Event, i: nat)
    requires i < |AllSlots(events)| && AllSlots(events)[i].Open?
    requires AllSlots(events + [e])[i].Closed? && !AllSlots(events + [e])[i].failed
    ensures var t, last := AllSlots(events)[i].t, AllSlots(events + [e])[i].last;
            && (e.Written? || e.Eof?) && e.id == i && Up(t) && Up(last)
            && (BothSent(last) <==> !CutsShort(t, e)) && (CutsShort(t, e) <==> BothEnded(last))
  {
    hide SlotOk, AfterEvent, CutsShort, BothSent;
    OneMore(events, e);
    AllSlotsOk(events);
    AllSlotsOk(events + [e]);
    if !e.Accept? && e.id == i { EventKeeps(AllSlots(events)[i], e); }
    Ended(AllSlots(events + [e])[i]);
  }

  lemma Ended(slot: Slot)
    requires SlotOk(slot) && slot.Closed? && !slot.failed
    ensures Up(slot.last) && (BothSent(slot.last) <==> !BothEnded(slot.last))
  {}

  // ---- When a side reads ----

  predicate IsClosing(t: State, s: Side)
    requires Up(t)
  {
    Get(t, s).writeCb == CloseOnFinished
  }

  /** Whether side s reads after an event at an open tunnel: connecting switches reading on; it goes
      off when data brings the partner's output to 524288 bytes, and on again when a paused
      partner's output falls to 262144; the end of either side switches it off. */
  predicate ReadsAfter(t: State, e: Event, s: Side)
    requires Up(t)
  {
    var x, y := Get(t, s), Get(t, Other(s));
    match e
    case Connected(_, _) => x.readEnabled || !t.connected
    case Data(_, side, bytes) =>
      x.readEnabled && !(side == s && !x.eof && !IsClosing(t, s) && |y.output| + |bytes| >= 524288)
    case Written(_, side, n) =>
      x.readEnabled ||
      (side != s && y.writeCb == DrainedWrite && 1 <= n <= |y.output| && |y.output| - n <= 262144)
    case Eof(_, side) => x.readEnabled && Get(t, side).eof
    case _ => x.readEnabled
  }

  lemma EventReading(slot: Slot, e: Event, s: Side)
    requires SlotOk(slot) && slot.Open? && Up(slot.t) && !e.Accept? && AfterEvent(slot, e).Open?
    ensures var r := AfterEvent(slot, e).t; Up(r) && (Get(r, s).readEnabled <==> ReadsAfter(slot.t, e, s))
  {
    hide OnData, OnWritten, OnEof, ConnectedCb;
    var t := slot.t;
    Idle(t, s);
    Idle(t, Other(s));
    hide StateOk;
    match e
    case Connected(_, _) => ConnectedEffect(t);
    case Data(_, side, bytes) => DataReading(t, side, bytes, s);
    case Written(_, side, n) => if 1 <= n <= |Get(t, side).output| { WrittenReading(t, side, n, s); }
    case Eof(_, side) => EofReading(t, side, s);
    case _ =>
  }

  lemma DataReading(t: State, side: Side, bytes: seq<Octet>, s: Side)
    requires Up(t) && (Get(t, side).readCb ==> Get(t, side).input == [])
    ensures var r := OnData(t, side, bytes);
            && Up(r)
            && (Get(r, s).readEnabled <==>
                  && Get(t, s).readEnabled
                  && !(side == s && Get(t, s).readCb && |Get(t, Other(s)).output| + |bytes| >= 524288))
  {
    hide OnData;
    DataEffect(t, side, bytes);
    if s != side { assert s == Other(side); }
  }

  lemma WrittenReading(t: State, side: Side, n: nat, s: Side)
    requires Up(t) && n <= |Get(t, side).output|
    ensures var r, y := OnWritten(t, side, n).t, Get(t, side);
            Up(r) && (Get(r, s).readEnabled <==>
                        Get(t, s).readEnabled || (side != s && y.writeCb == DrainedWrite && |y.output| - n <= y.low))
  {
    hide OnWritten;
    WrittenEffect(t, side, n);
    if s != side { assert s == Other(side); }
  }

  lemma EofReading(t: State, side: Side, s: Side)
    requires Up(t)
    ensures var a := OnEof(t, side); Up(a.t) && (a.Keep? ==> !Get(a.t, s).readEnabled)
  {
    hide OnEof;
    EofEffect(t, side);
    if s != side { assert s == Other(side); }
  }

  /** A side that is not closing has no input and its read callback; a paused partner has the
      watermark. */
  lemma Idle(t: State, s: Side)
    requires StateOk(t) && Up(t)
    ensures var x := Get(t, s);
            && (x.readCb <==> !IsClosing(t, s)) && (!IsClosing(t, s) ==> x.input == [])
            && (x.writeCb == DrainedWrite ==> x.low == 262144)
  {
    EitherSide(t, s);
  }

  /** The same after every run. */
  lemma ReadingExact(events: seq<Event>, e: Event, i: nat, s: Side)
    requires i < |AllSlots(events)| && AllSlots(events)[i].Open? && Up(AllSlots(events)[i].t)
    requires AllSlots(events + [e])[i].Open?
    ensures var t, r := AllSlots(events)[i].t, AllSlots(events + [e])[i].t;
            Up(r) && (Get(r, s).readEnabled <==>
                      if !e.Accept? && e.id == i then ReadsAfter(t, e, s) else Get(t, s).readEnabled)
  {
    hide SlotOk, AfterEvent, ReadsAfter;
    OneMore(events, e);
    AllSlotsOk(events);
    if !e.Accept? && e.id == i { EventReading(AllSlots(events)[i], e, s); }
  }

  function StateOf(slot: Slot): State { if slot.Open? then slot.t else slot.last }

  /** The bytes that an event adds to what arrived and was sent on side s of an open tunnel. */
  function Arriving(t: State, e: Event, s: Side): seq<Octet>
    requires Up(t)
  {
    if e.Data? && e.side == s && Get(t, s).readEnabled && !Get(t, s).eof then e.bytes else []
  }

  function Leaving(t: State, e: Event, s: Side): seq<Octet>
    requires Up(t)
  {
    if e.Written? && e.side == s && 1 <= e.n <= |Get(t, s).output| then Get(t, s).output[..e.n] else []
  }

  lemma EventBytes(slot: Slot, e: Event, s: Side)
    requires slot.Open? && Up(slot.t) && !e.Accept?
    ensures var r := StateOf(AfterEvent(slot, e));
            && Up(r) && Get(r, s).arrived == Get(slot.t, s).arrived + Arriving(slot.t, e, s)
            && Get(r, s).sent == Get(slot.t, s).sent + Leaving(slot.t, e, s)
  {
    hide OnData, OnWritten, OnEof, ConnectedCb;
    var t := slot.t;
    match e
    case Connected(_, _) => ConnectedEffect(t);
    case Data(_, side, bytes) => DataBytes(t, side, bytes, s);
    case Written(_, side, n) => if 1 <= n <= |Get(t, side).output| { WrittenBytes(t, side, n, s); }
    case Eof(_, side) => EofBytes(t, side, s);
    case _ =>
  }

  lemma DataBytes(t: State, side: Side, bytes: seq<Octet>, s: Side)
    requires Up(t)
    ensures var r := OnData(t, side, bytes);
            && Up(r) && Get(r, s).sent == Get(t, s).sent
            && Get(r, s).arrived == Get(t, s).arrived + if s == side then bytes else []
  {
    hide OnData;
    DataEffect(t, side, bytes);
    if s != side { assert s == Other(side); }
  }

  lemma WrittenBytes(t: State, side: Side, n: nat, s: Side)
    requires Up(t) && n <= |Get(t, side).output|
    ensures var r := OnWritten(t, side, n).t;
            && Up(r) && Get(r, s).arrived == Get(t, s).arrived
            && Get(r, s).sent == Get(t, s).sent + if s == side then Get(t, s).output[..n] else []
  {
    hide OnWritten;
    WrittenEffect(t, side, n);
    if s != side { assert s == Other(side); }
  }

  lemma EofBytes(t: State, side: Side, s: Side)
    requires Up(t)
    ensures var r := OnEof(t, side).t;
            Up(r) && Get(r, s).arrived == Get(t, s).arrived && Get(r, s).sent == Get(t, s).sent
  {
    hide OnEof;
    EofEffect(t, side);
    if s != side { assert s == Other(side); }
  }

  /** After any run, an event adds exactly those bytes, and none to other tunnels. */
  lemma BytesExact(events: seq<Event>, e: Event, i: nat, s: Side)
    requires i < |AllSlots(events)| && AllSlots(events)[i].Open? && Up(AllSlots(events)[i].t)
    ensures i < |AllSlots(events + [e])|
    ensures var t, r := AllSlots(events)[i].t, StateOf(AllSlots(events + [e])[i]);
            var mine := !e.Accept? && e.id == i;
            && Up(r) && Get(r, s).arrived == Get(t, s).arrived + (if mine then Arriving(t, e, s) else [])
            && Get(r, s).sent == Get(t, s).sent + if mine then Leaving(t, e, s) else []
  {
    hide AfterEvent, Arriving, Leaving;
    OneMore(events, e);
    if !e.Accept? && e.id == i { EventBytes(AllSlots(events)[i], e, s); }
  }

  /** After any run, a connected side that has not finished and whose tunnel is not closing reads,
      or its partner is paused with more than 262144 bytes to send. */
  lemma PausedExact(events: seq<Event>, i: nat, s: Side)
    requires i < |AllSlots(events)| && AllSlots(events)[i].Open? && Up(AllSlots(events)[i].t)
    ensures var t := AllSlots(events)[i].t; var x, y := Get(t, s), Get(t, Other(s));
            t.connected && !x.eof && !IsClosing(t, s) && !x.readEnabled ==>
              y.writeCb == DrainedWrite && |y.output| > 262144
  {
    hide AllSlots;
    AllSlotsOk(events);
    var slot := AllSlots(events)[i];
    OpenIs(slot);
    EitherSide(slot.t, s);
  }

  /** A new tunnel that gets b reads on exactly if b is shorter than 524288 bytes. */
  lemma FirstPause(b: seq<Octet>)
    ensures var slots := AllSlots(SETUP + [Data(0, Local, b)]);
            && |slots| == 1 && slots[0].Open? && Up(slots[0].t)
            && (Get(slots[0].t, Local).readEnabled <==> |b| < 524288)
            && Get(slots[0].t, Remote).output == b && slots[0].t.inLocal == |b|
  {
    hide AllSlots, OnData;
    SetUp();
    OnlyTunnel(SETUP, Data(0, Local, b), Open(LINKED));
    DataEffect(LINKED, Local, b);
    assert [] + b == b;
  }

  lemma OnlyTunnel(events: seq<Event>, e: Event, slot: Slot)
    requires AllSlots(events) == [slot] && !e.Accept? && e.id == 0
    ensures AllSlots(events + [e]) == [AfterEvent(slot, e)]
  {
    hide AfterEvent;
    OneMore(events, e);
  }

  /** A tunnel that is up and connected. */
  const LINKED :=
    var x := Bev([], [], true, NoWriteCb, 0, true, false, [], []);
    State(Some(x), Some(x), true, true, true, 0, 0)

  const SETUP := [Accept(true, true), Resolved(0, true, true, true), Connected(0, Remote)]

  lemma SetUp()
    ensures AllSlots(SETUP) == [Open(LINKED)]
  {
    var a, r, c := SETUP[0], SETUP[1], SETUP[2];
    OneMore([], a);
    assert [] + [a] == [a];
    var t := NEW_STATE.(local := Some(NEW_BEV), remoteTcp := true);
    OnlyTunnel([a], r, Open(t));
    OnlyTunnel([a] + [r], c, AfterEvent(Open(t), r));
    assert [a] + [r] + [c] == SETUP;
  }

  /** A client's last byte is lost: the server's output to it drains, which switches the server's side
      on again although that side waits to close, and the server ends before it has taken the byte. */
  lemma FinishedByteLost(big: seq<Octet>)
    requires |big| == MAX_OUTPUT_BUFFER
    ensures var slots := AllSlots(SETUP + [Data(0, Remote, big)] + [Data(0, Local, [7])] + [Eof(0, Local)] +
                                  [Written(0, Local, |big|)] + [Eof(0, Remote)]);
            && |slots| == 1 && slots[0].Closed? && !slots[0].failed && Up(slots[0].last)
            && slots[0].last.local.value.eof && slots[0].last.local.value.arrived == [7]
            && slots[0].last.remote.value.sent == []
  {
    hide AllSlots;
    SetUp();
    var run := SETUP;
    assert [] + big == big && [] + [7] == [7] && big[..|big|] == big && big[|big|..] == [];
    OnlyTunnel(run, Data(0, Remote, big), Open(LINKED));
    run := run + [Data(0, Remote, big)];
    var x := LINKED.local.value.(output := big, writeCb := DrainedWrite, low := MAX_OUTPUT_BUFFER / 2);
    var y := LINKED.remote.value.(arrived := big, readEnabled := false);
    var t := LINKED.(local := Some(x), remote := Some(y), inRemote := |big|);
    OnlyTunnel(run, Data(0, Local, [7]), Open(t));
    run := run + [Data(0, Local, [7])];
    x, y := x.(arrived := [7]), y.(output := [7]);
    t := t.(local := Some(x), remote := Some(y), inLocal := 1);
    OnlyTunnel(run, Eof(0, Local), Open(t));
    run := run + [Eof(0, Local)];
    x, y := x.(eof := true, readEnabled := false), y.(readCb := false, writeCb := CloseOnFinished);
    t := t.(local := Some(x), remote := Some(y));
    OnlyTunnel(run, Written(0, Local, |big|), Open(t));
    run := run + [Written(0, Local, |big|)];
    x, y := x.(output := [], sent := big, writeCb := NoWriteCb, low := 0), y.(readEnabled := true);
    t := t.(local := Some(x), remote := Some(y));
    OnlyTunnel(run, Eof(0, Remote), Open(t));
  }
}
