/** One tunnel of the relay in proxy.c: two buffered connections and the callbacks that move bytes
    between them, pause a reader whose partner cannot keep up, and close after the last byte. */
module Tunnel {
  import opened Octets

  const MAX_OUTPUT_BUFFER: nat := 512 * 1024

  datatype WriteCb = NoWriteCb | DrainedWrite | CloseOnFinished

  /** A buffered connection: its buffers, callbacks, low write watermark, whether it may read and
      whether its peer has finished; and all bytes that arrived on it and that were sent on it. */
  datatype Bev = Bev(
    input: seq<Octet>, output: seq<Octet>, readCb: bool, writeCb: WriteCb, low: nat,
    readEnabled: bool, eof: bool, arrived: seq<Octet>, sent: seq<Octet>)

  const NEW_BEV := Bev([], [], false, NoWriteCb, 0, false, false, [], [])

  datatype Side = Local | Remote

  function Other(s: Side): Side { if s == Local then Remote else Local }

  datatype State = State(
    local: Option<Bev>, remote: Option<Bev>, remoteTcp: bool, ssl: bool, connected: bool, inLocal: nat, inRemote: nat)

  /** Both connections exist and have their callbacks. */
  predicate Up(t: State) { t.local.Some? && t.remote.Some? }

  function Get(t: State, s: Side): Bev
    requires Up(t)
  {
    if s == Local then t.local.value else t.remote.value
  }

  /** The tunnel with x on side s and y on the other side. */
  function With(t: State, s: Side, x: Bev, y: Bev): State {
    if s == Local then t.(local := Some(x), remote := Some(y)) else t.(local := Some(y), remote := Some(x))
  }

  function Count(t: State, s: Side): nat { if s == Local then t.inLocal else t.inRemote }

  function AddCount(t: State, s: Side, n: nat): State {
    if s == Local then t.(inLocal := t.inLocal + n) else t.(inRemote := t.inRemote + n)
  }

  // ---- What holds between callbacks ----

  predicate Closing(x: Bev, y: Bev) { x.writeCb == CloseOnFinished || y.writeCb == CloseOnFinished }

  /** All bytes that arrived at x went, in order, to y: sent, waiting to be sent, or not yet taken
      from the input; and the counter counts those taken. */
  predicate FlowOk(x: Bev, y: Bev, n: nat) {
    x.arrived == y.sent + y.output + x.input && n == |y.sent| + |y.output|
  }

  /** A side that does not read, although its peer has more to say and the tunnel is not closing,
      will be woken: the other side has the callback that switches reading on again, and more
      output than the watermark below which that callback runs. */
  predicate PauseOk(x: Bev, y: Bev, connected: bool) {
    && (connected && !x.readEnabled && !x.eof && !Closing(x, y) ==> y.writeCb == DrainedWrite)
    && (y.writeCb == DrainedWrite ==> y.low == MAX_OUTPUT_BUFFER / 2 && |y.output| > y.low)
  }

  /** A side closes when its output is gone exactly if the other side has finished; it has taken all
      that the finished side sent, and some of it waits. */
  predicate CloseOk(x: Bev, y: Bev) {
    && (y.writeCb == CloseOnFinished <==> x.eof)
    && (x.eof ==> x.input == [] && y.output != [])
  }

  /** A side that reads has a partner with less output than the limit; before the tunnel is
      connected nothing is read. */
  predicate BoundOk(x: Bev, y: Bev, connected: bool) {
    && (x.readEnabled ==> |y.output| < MAX_OUTPUT_BUFFER)
    && (!connected ==> !x.readEnabled && x.arrived == [])
  }

  /** What arrives is moved on at once: input waits only on a side that closes after its output,
      and exactly such a side has no read callback. */
  predicate InputOk(x: Bev) {
    && (x.input != [] ==> x.writeCb == CloseOnFinished)
    && (x.readCb <==> x.writeCb != CloseOnFinished)
  }

  predicate LinkOk(x: Bev, y: Bev, n: nat, connected: bool) {
    FlowOk(x, y, n) && PauseOk(x, y, connected) && CloseOk(x, y) && BoundOk(x, y, connected) && InputOk(x)
  }

  predicate StateOk(t: State) {
    && t.local.Some? && t.remoteTcp && (t.remote.Some? <==> t.ssl)
    && (if Up(t) then
          && LinkOk(t.local.value, t.remote.value, t.inLocal, t.connected)
          && LinkOk(t.remote.value, t.local.value, t.inRemote, t.connected)
        else t.local == Some(NEW_BEV) && t.inLocal == 0 && t.inRemote == 0 && !t.connected)
  }

  /** All bytes that arrived at the finished side x were sent on y. */
  predicate AllSent(x: Bev, y: Bev) { x.eof && y.sent == x.arrived }

  /** All bytes of every finished side were sent on. */
  predicate BothSent(t: State)
    requires Up(t)
  {
    && (t.local.value.eof ==> AllSent(t.local.value, t.remote.value))
    && (t.remote.value.eof ==> AllSent(t.remote.value, t.local.value))
  }

  predicate BothEnded(t: State)
    requires Up(t)
  {
    t.local.value.eof && t.remote.value.eof
  }

  /** How a tunnel is closed without an error: the streams are in order, a side has finished and all
      its bytes were sent on; but where both sides had finished, the other one's last bytes were not. */
  predicate EndOk(t: State) {
    && Up(t)
    && FlowOk(t.local.value, t.remote.value, t.inLocal) && FlowOk(t.remote.value, t.local.value, t.inRemote)
    && (AllSent(t.local.value, t.remote.value) || AllSent(t.remote.value, t.local.value))
    && (BothSent(t) <==> !BothEnded(t))
  }

  /** The same objects exist in t and u. */
  predicate SameObjects(t: State, u: State) {
    && (t.local.Some? <==> u.local.Some?) && (t.remote.Some? <==> u.remote.Some?)
    && t.remoteTcp == u.remoteTcp && t.ssl == u.ssl
  }

  // ---- Callbacks ----

  /** The tunnel after a callback, or closed with its last state. */
  datatype After = Keep(t: State) | Close(t: State)

  /** Moves the input of s to the output of the other side, and pauses s if that is a lot. */
  function ReadCb(t: State, s: Side): (r: State)
    requires Up(t)
    ensures SameObjects(t, r)
  {
    var x, y := Get(t, s), Get(t, Other(s));
    var t := AddCount(t, s, |x.input|);
    var y := y.(output := y.output + x.input);
    var x := x.(input := []);
    if |y.output| >= MAX_OUTPUT_BUFFER then
      With(t, s, x.(readEnabled := false), y.(readCb := true, writeCb := DrainedWrite, low := MAX_OUTPUT_BUFFER / 2))
    else With(t, s, x, y)
  }

  function DrainedWriteCb(t: State, s: Side): (r: State)
    requires Up(t)
    ensures SameObjects(t, r)
  {
    var x, y := Get(t, s), Get(t, Other(s));
    With(t, s, x.(readCb := true, writeCb := NoWriteCb, low := 0), y.(readEnabled := true))
  }

  function CloseOnFinishedCb(t: State, s: Side): (r: After)
    requires Up(t)
    ensures SameObjects(t, r.t)
  {
    if Get(t, s).output == [] then Close(t) else Keep(t)
  }

  function ConnectedCb(t: State): (r: State)
    requires Up(t)
    ensures SameObjects(t, r)
  {
    With(t.(connected := true), Local, t.local.value.(readEnabled := true), t.remote.value.(readEnabled := true))
  }

  /** The peer of s has finished: what it sent is moved on, and the tunnel closes after it. */
  function EofCb(t: State, s: Side): (r: After)
    requires Up(t)
    ensures SameObjects(t, r.t)
  {
    var t := if Get(t, s).input != [] then ReadCb(t, s) else t;
    var x, y := Get(t, s), Get(t, Other(s));
    if y.output != [] then Keep(With(t, s, x, y.(readCb := false, writeCb := CloseOnFinished, readEnabled := false)))
    else Close(t)
  }

  // ---- What the event loop does before a callback ----

  /** Bytes arrive on s; the read callback runs if it is set. */
  function OnData(t: State, s: Side, bytes: seq<Octet>): (r: State)
    requires Up(t)
    ensures SameObjects(t, r)
  {
    var x := Get(t, s);
    var t := With(t, s, x.(input := x.input + bytes, arrived := x.arrived + bytes), Get(t, Other(s)));
    if x.readCb then ReadCb(t, s) else t
  }

  /** n bytes of the output of s are sent; the write callback runs at or below the watermark. */
  function OnWritten(t: State, s: Side, n: nat): (r: After)
    requires Up(t) && n <= |Get(t, s).output|
    ensures SameObjects(t, r.t)
  {
    var x := Get(t, s);
    var t := With(t, s, x.(output := x.output[n..], sent := x.sent + x.output[..n]), Get(t, Other(s)));
    if |x.output| - n > x.low then Keep(t)
    else
      match x.writeCb
      case NoWriteCb => Keep(t)
      case DrainedWrite => Keep(DrainedWriteCb(t, s))
      case CloseOnFinished => CloseOnFinishedCb(t, s)
  }

  /** Reading from s ends. */
  function OnEof(t: State, s: Side): (r: After)
    requires Up(t)
    ensures SameObjects(t, r.t)
  {
    EofCb(With(t, s, Get(t, s).(eof := true, readEnabled := false), Get(t, Other(s))), s)
  }

  // ---- What exactly changes ----

  lemma GetWith(t: State, s: Side, x: Bev, y: Bev)
    ensures var r := With(t, s, x, y);
            && Up(r) && Get(r, s) == x && Get(r, Other(s)) == y && r.connected == t.connected
            && Count(r, s) == Count(t, s) && Count(r, Other(s)) == Count(t, Other(s))
  {}

  lemma AddedCount(t: State, s: Side, n: nat)
    requires Up(t)
    ensures var r := AddCount(t, s, n);
            && Up(r) && Get(r, s) == Get(t, s) && Get(r, Other(s)) == Get(t, Other(s)) && r.connected == t.connected
            && Count(r, s) == Count(t, s) + n && Count(r, Other(s)) == Count(t, Other(s))
  {}

  /** The state of a tunnel as seen from one side. */
  predicate Seen(t: State, s: Side, x: Bev, y: Bev, n: nat, m: nat, connected: bool) {
    && Up(t) && Get(t, s) == x && Get(t, Other(s)) == y && t.connected == connected
    && Count(t, s) == n && Count(t, Other(s)) == m
  }

  /** What the read callback makes of the partner. */
  function Fed(x: Bev, y: Bev): Bev {
    if |y.output| + |x.input| >= 524288 then
      y.(output := y.output + x.input, readCb := true, writeCb := DrainedWrite, low := 262144)
    else y.(output := y.output + x.input)
  }

  lemma ReadEffect(t: State, s: Side)
    requires Up(t)
    ensures var x, y := Get(t, s), Get(t, Other(s));
            var stop := |y.output| + |x.input| >= 524288;
            Seen(ReadCb(t, s), s, x.(input := [], readEnabled := x.readEnabled && !stop), Fed(x, y),
                 Count(t, s) + |x.input|, Count(t, Other(s)), t.connected)
  {
    hide With, Get, Count, AddCount;
    var x0, y0 := Get(t, s), Get(t, Other(s));
    AddedCount(t, s, |x0.input|);
    var u := AddCount(t, s, |x0.input|);
    var x, y := x0.(input := []), y0.(output := y0.output + x0.input);
    GetWith(u, s, x, y);
    GetWith(u, s, x.(readEnabled := false),
            y.(readCb := true, writeCb := DrainedWrite, low := MAX_OUTPUT_BUFFER / 2));
    assert ReadCb(t, s) == if |y.output| >= MAX_OUTPUT_BUFFER
                           then With(u, s, x.(readEnabled := false),
                                     y.(readCb := true, writeCb := DrainedWrite, low := MAX_OUTPUT_BUFFER / 2))
                           else With(u, s, x, y);
  }

  /** Data that arrives goes to the partner. Reading stops exactly when the partner's output reaches
      524288 bytes, and then the partner gets the callback and the watermark that switch it on again;
      otherwise nobody's callbacks, watermark or reading change. A closing side keeps the data. */
  lemma DataEffect(t: State, s: Side, bytes: seq<Octet>)
    requires Up(t)
    ensures var x0, y0 := Get(t, s), Get(t, Other(s));
            var x := x0.(input := x0.input + bytes, arrived := x0.arrived + bytes);
            var stop := |y0.output| + |x.input| >= 524288;
            if x0.readCb then
              Seen(OnData(t, s, bytes), s, x.(input := [], readEnabled := x.readEnabled && !stop), Fed(x, y0),
                   Count(t, s) + |x.input|, Count(t, Other(s)), t.connected)
            else Seen(OnData(t, s, bytes), s, x, y0, Count(t, s), Count(t, Other(s)), t.connected)
  {
    hide With, Get, Count, ReadCb, Fed;
    var x0, y0 := Get(t, s), Get(t, Other(s));
    var x := x0.(input := x0.input + bytes, arrived := x0.arrived + bytes);
    GetWith(t, s, x, y0);
    ReadEffect(With(t, s, x, y0), s);
  }

  /** Sending moves bytes from the output to the wire, and at or below the watermark: a drained side
      loses its callback and watermark and its partner reads again; a closing side with nothing left
      closes the tunnel. Nothing else changes. */
  lemma WrittenEffect(t: State, s: Side, n: nat)
    requires Up(t) && n <= |Get(t, s).output|
    ensures var x0, y := Get(t, s), Get(t, Other(s));
            var a := OnWritten(t, s, n);
            var x := x0.(output := x0.output[n..], sent := x0.sent + x0.output[..n]);
            && (a.Close? <==> x0.writeCb == CloseOnFinished && n == |x0.output|)
            && if |x.output| <= x0.low && x0.writeCb == DrainedWrite then
                 Seen(a.t, s, x.(readCb := true, writeCb := NoWriteCb, low := 0), y.(readEnabled := true),
                      Count(t, s), Count(t, Other(s)), t.connected)
               else Seen(a.t, s, x, y, Count(t, s), Count(t, Other(s)), t.connected)
  {
    hide With, Get, Count;
    var x0, y := Get(t, s), Get(t, Other(s));
    var x := x0.(output := x0.output[n..], sent := x0.sent + x0.output[..n]);
    GetWith(t, s, x, y);
    var u := With(t, s, x, y);
    GetWith(u, s, x.(readCb := true, writeCb := NoWriteCb, low := 0), y.(readEnabled := true));
  }

  /** The end of s: what is left of its input goes to the partner; a partner with output stops
      reading, loses its read callback and closes when the output is gone, else the tunnel closes. */
  lemma EofEffect(t: State, s: Side)
    requires Up(t)
    ensures var x0, y0 := Get(t, s), Get(t, Other(s));
            var a := OnEof(t, s);
            var x := x0.(input := [], eof := true, readEnabled := false);
            var y := if x0.input == [] then y0 else Fed(x0, y0);
            && (a.Close? <==> x0.input == [] && y0.output == [])
            && Seen(a.t, s, x,
                    if a.Close? then y else y.(readCb := false, writeCb := CloseOnFinished, readEnabled := false),
                    Count(t, s) + |x0.input|, Count(t, Other(s)), t.connected)
  {
    hide With, Get, Count, ReadCb;
    var x0, y0 := Get(t, s), Get(t, Other(s));
    var x := x0.(eof := true, readEnabled := false);
    GetWith(t, s, x, y0);
    var u := With(t, s, x, y0);
    ReadEffect(u, s);
    var v := if x.input != [] then ReadCb(u, s) else u;
    assert Get(v, s) == x.(input := []) && Get(v, Other(s)) == if x0.input == [] then y0 else Fed(x0, y0);
    GetWith(v, s, Get(v, s), Get(v, Other(s)).(readCb := false, writeCb := CloseOnFinished, readEnabled := false));
  }

  /** A connected tunnel reads on both sides; nothing else changes. */
  lemma ConnectedEffect(t: State)
    requires Up(t)
    ensures var r := ConnectedCb(t);
            && r.connected && r.inLocal == t.inLocal && r.inRemote == t.inRemote
            && forall s :: Get(r, s).readEnabled && Get(r, s).(readEnabled := Get(t, s).readEnabled) == Get(t, s)
  {}

  // ---- Every callback keeps the tunnel in order ----

  /** The order of a tunnel as seen from one side. */
  predicate Links(x: Bev, y: Bev, n: nat, m: nat, connected: bool) {
    LinkOk(x, y, n, connected) && LinkOk(y, x, m, connected)
  }

  lemma EitherSide(t: State, s: Side)
    requires Up(t)
    ensures StateOk(t) <==>
              t.remoteTcp && t.ssl && Links(Get(t, s), Get(t, Other(s)), Count(t, s), Count(t, Other(s)), t.connected)
  {
    hide LinkOk;
  }

  lemma ConnectedKeeps(t: State)
    requires StateOk(t) && Up(t) && !t.connected
    ensures StateOk(ConnectedCb(t))
  {}

  /** The order of a tunnel while x may have input that its read callback has still to take. */
  predicate Loaded(x: Bev, y: Bev, n: nat, m: nat, connected: bool) {
    && FlowOk(x, y, n) && PauseOk(x, y, connected) && CloseOk(x, y) && (x.readCb <==> x.writeCb != CloseOnFinished)
    && (!connected ==> !x.readEnabled && x.arrived == []) && (x.readEnabled ==> |y.output| < MAX_OUTPUT_BUFFER)
    && LinkOk(y, x, m, connected)
  }

  lemma Arrive(x: Bev, y: Bev, n: nat, m: nat, c: bool, bytes: seq<Octet>)
    requires Links(x, y, n, m, c) && !x.eof && x.readEnabled
    ensures Loaded(x.(input := x.input + bytes, arrived := x.arrived + bytes), y, n, m, c)
    ensures !x.readCb ==> Links(x.(input := x.input + bytes, arrived := x.arrived + bytes), y, n, m, c)
  {
    assert x.arrived + bytes == y.sent + y.output + (x.input + bytes);
  }

  /** The bytes of x moved to y, and x paused if that is a lot. */
  lemma Move(x: Bev, y: Bev, n: nat, m: nat, c: bool)
    requires Loaded(x, y, n, m, c) && !x.eof
    ensures var x1, y1 := x.(input := []), y.(output := y.output + x.input);
            if |y1.output| >= MAX_OUTPUT_BUFFER then
              Links(x1.(readEnabled := false),
                    y1.(readCb := true, writeCb := DrainedWrite, low := MAX_OUTPUT_BUFFER / 2),
                    n + |x.input|, m, c)
            else Links(x1, y1, n + |x.input|, m, c)
  {
    assert x.arrived == y.sent + (y.output + x.input) + [];
  }

  lemma ReadKeeps(t: State, s: Side)
    requires Up(t) && t.remoteTcp && t.ssl && !Get(t, s).eof
    requires Loaded(Get(t, s), Get(t, Other(s)), Count(t, s), Count(t, Other(s)), t.connected)
    ensures StateOk(ReadCb(t, s))
  {
    hide Links, StateOk, Loaded;
    Move(Get(t, s), Get(t, Other(s)), Count(t, s), Count(t, Other(s)), t.connected);
    EitherSide(ReadCb(t, s), s);
  }

  lemma DataKeeps(t: State, s: Side, bytes: seq<Octet>)
    requires StateOk(t) && Up(t) && Get(t, s).readEnabled && !Get(t, s).eof
    ensures var r := OnData(t, s, bytes);
            && StateOk(r) && Up(r)
            && (Get(r, s).readEnabled <==>
                Get(t, s).writeCb == CloseOnFinished || |Get(t, Other(s)).output| + |bytes| < 524288)
  {
    DataEffect(t, s, bytes);
    EitherSide(t, s);
    hide Links, StateOk, ReadCb, Loaded;
    var x := Get(t, s);
    assert x.readCb <==> x.writeCb != CloseOnFinished;
    Arrive(x, Get(t, Other(s)), Count(t, s), Count(t, Other(s)), t.connected, bytes);
    var t1 := With(t, s, x.(input := x.input + bytes, arrived := x.arrived + bytes), Get(t, Other(s)));
    EitherSide(t1, s);
    if x.readCb { ReadKeeps(t1, s); }
  }

  /** x has finished and nothing of it is left; if y had finished, some of its bytes are. */
  predicate ClosedAfter(x: Bev, y: Bev, n: nat, m: nat) {
    AllSent(x, y) && FlowOk(x, y, n) && FlowOk(y, x, m) && (y.eof ==> x.output != [])
  }

  /** Closed after the last byte of s. */
  lemma Ends(t: State, s: Side)
    requires Up(t) && ClosedAfter(Get(t, s), Get(t, Other(s)), Count(t, s), Count(t, Other(s)))
    ensures EndOk(t) && (BothSent(t) <==> !Get(t, Other(s)).eof)
  {}

  lemma ClosingSides(x: Bev, y: Bev, n: nat, m: nat, c: bool)
    requires Links(x, y, n, m, c)
    ensures (y.writeCb == CloseOnFinished <==> x.eof) && (x.writeCb == CloseOnFinished <==> y.eof)
  {}

  /** k bytes sent on x, with some output left or nobody waiting for less. */
  lemma Sent(x: Bev, y: Bev, n: nat, m: nat, c: bool, k: nat)
    requires Links(x, y, n, m, c) && k <= |x.output|
    ensures var x1 := x.(output := x.output[k..], sent := x.sent + x.output[..k]);
            var woken := x1.(readCb := true, writeCb := NoWriteCb, low := 0);
            && FlowOk(y, x1, m)
            && (|x1.output| > x.low || x.writeCb == NoWriteCb ==> Links(x1, y, n, m, c))
            && (x.writeCb == CloseOnFinished && x1.output != [] ==> Links(x1, y, n, m, c))
            && (x.writeCb == DrainedWrite && |x1.output| <= x.low ==>
                  Links(woken, y.(readEnabled := true), n, m, c))
            && (x.writeCb == CloseOnFinished && x1.output == [] ==> ClosedAfter(y, x1, m, n))
  {
    var x1 := x.(output := x.output[k..], sent := x.sent + x.output[..k]);
    assert x.output == x.output[..k] + x.output[k..];
    assert y.arrived == x1.sent + x1.output + y.input;
    assert FlowOk(x1, y, n);
    assert !c ==> |x.sent + x.output + y.input| == 0;
    assert !c ==> x.output == [];
    hide FlowOk;
  }

  /** A side goes on, or the tunnel closes; then a finished side loses bytes exactly if the side that
      has output left was to close after it as well. */
  lemma WrittenKeeps(t: State, s: Side, n: nat)
    requires StateOk(t) && Up(t) && 1 <= n <= |Get(t, s).output|
    ensures var a := OnWritten(t, s, n);
            if a.Keep? then StateOk(a.t)
            else EndOk(a.t) && (BothSent(a.t) <==> Get(t, Other(s)).writeCb != CloseOnFinished)
  {
    hide Links, StateOk, ClosedAfter, EndOk, BothSent;
    EitherSide(t, s);
    var x, y := Get(t, s), Get(t, Other(s));
    Sent(x, y, Count(t, s), Count(t, Other(s)), t.connected, n);
    var a := OnWritten(t, s, n);
    EitherSide(a.t, s);
    ClosingSides(x, y, Count(t, s), Count(t, Other(s)), t.connected);
    if a.Close? { Ends(a.t, Other(s)); }
  }

  /** x has finished and has been emptied: y closes when its output is gone, or at once. */
  lemma Finish(x: Bev, y: Bev, n: nat, m: nat, c: bool)
    requires Links(x, y, n, m, c) && x.input == []
    ensures var x1 := x.(eof := true, readEnabled := false);
            && (y.output == [] ==> ClosedAfter(x1, y, n, m))
            && (y.output != [] ==>
                  Links(x1, y.(readCb := false, writeCb := CloseOnFinished, readEnabled := false), n, m, c))
  {}

  function Ended(t: State, s: Side): State
    requires Up(t)
  {
    With(t, s, Get(t, s).(eof := true, readEnabled := false), Get(t, Other(s)))
  }

  lemma ReadThenEnd(t: State, s: Side)
    requires Up(t)
    ensures ReadCb(Ended(t, s), s) == Ended(ReadCb(t, s), s)
  {}

  /** The other side has still to send, or the tunnel closes; then the other side loses bytes although
      it had finished exactly if this side was to close after sending them. */
  lemma EofKeeps(t: State, s: Side)
    requires StateOk(t) && Up(t) && !Get(t, s).eof
    ensures var a := OnEof(t, s);
            if a.Keep? then StateOk(a.t)
            else EndOk(a.t) && (BothSent(a.t) <==> Get(t, s).writeCb != CloseOnFinished)
  {
    hide Links, StateOk, ReadCb, Loaded, ClosedAfter, EndOk, BothSent;
    ReadThenEnd(t, s);
    EitherSide(t, s);
    LinksLoaded(Get(t, s), Get(t, Other(s)), Count(t, s), Count(t, Other(s)), t.connected);
    ReadKeeps(t, s);
    Taken(t, s);
    var u := if Get(t, s).input != [] then ReadCb(t, s) else t;
    var x, y := Get(u, s), Get(u, Other(s));
    EitherSide(u, s);
    Finish(x, y, Count(u, s), Count(u, Other(s)), u.connected);
    var a := OnEof(t, s);
    EitherSide(a.t, s);
    ClosingSides(Get(t, s), Get(t, Other(s)), Count(t, s), Count(t, Other(s)), t.connected);
    if a.Close? { Ends(a.t, s); }
  }

  lemma LinksLoaded(x: Bev, y: Bev, n: nat, m: nat, c: bool)
    requires Links(x, y, n, m, c)
    ensures Loaded(x, y, n, m, c)
  {}

  lemma Taken(t: State, s: Side)
    requires Up(t)
    ensures Get(ReadCb(t, s), s).input == [] && Get(ReadCb(t, s), Other(s)).eof == Get(t, Other(s)).eof
  {}
}
