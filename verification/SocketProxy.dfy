/**
 The byte pump of the socket proxy: between two sockets, one pipe in each direction. splice may
 move any number of bytes at a time.
 */
module SocketProxy {
  import opened Bytes
  import opened Wrappers

  /** What one call of splice does. */
  datatype Intake = Got(bytes: Bytes) | SourceEnds | SourceBlocks | SourceFails

  datatype Outlet = Sent(count: nat) | SinkEnds | SinkBlocks | SinkFails

  /** The two calls in one turn of the loop, should they be made. */
  datatype Turn = Turn(intake: Intake, outlet: Outlet)

  /** What the system does during one callback. */
  datatype Callback = Callback(toClient: seq<Turn>, toServer: seq<Turn>, added: bool)

  datatype Interest = Interest(readable: bool, writable: bool)

  /** A socket and the events that are watched on it. */
  class Endpoint {
    var open: bool
    var source: Option<Interest>

    constructor ()
      ensures open && source.None?
    {
      open, source := true, None;
    }

    /** Only an open socket is watched. */
    ghost predicate Ok()
      reads this
    {
      source.Some? ==> open
    }

    /** The events of an open socket are set; a new source may be refused. */
    method Watch(events: Interest, added: bool) returns (ok: bool)
      requires Ok()
      modifies this`source
      ensures Ok() && (ok <==> old(source).Some? || !open || added)
      ensures source == if open && ok then Some(events) else None
    {
      ok := true;
      if source.Some? {
        source := Some(events);
      } else if open {
        ok := added;
        if ok {
          source := Some(events);
        }
      }
    }

    method Close()
      modifies this
      ensures !open && source.None?
    {
      source, open := None, false;
    }
  }

  /** One direction: the pipe, the fill count kept beside it, and the traffic so far. */
  class Channel {
    var full: nat
    var size: nat
    var pipe: Bytes
    ghost var taken: Bytes
    ghost var delivered: Bytes

    constructor (size: nat)
      requires size > 0
      ensures Ok() && taken == [] && delivered == [] && full == 0 && this.size == size
    {
      full, this.size, pipe, taken, delivered := 0, size, [], [], [];
    }

    /** Nothing is lost, invented or reordered, and the count is right. */
    ghost predicate Ok()
      reads this
    {
      full == |pipe| <= size && size > 0 && taken == delivered + pipe
    }

    /** splice from the socket: at most what fits. */
    method Fill(bytes: Bytes)
      requires Ok() && |bytes| <= size - full
      modifies this`full, this`pipe, this`taken
      ensures Ok() && taken == old(taken) + bytes && pipe == old(pipe) + bytes
    {
      pipe, full, taken := pipe + bytes, full + |bytes|, taken + bytes;
    }

    /** splice to the socket: at most what is there. */
    method Drain(count: nat)
      requires Ok() && count <= full
      modifies this`full, this`pipe, this`delivered
      ensures Ok() && delivered == old(delivered) + old(pipe)[..count] && pipe == old(pipe)[count..]
    {
      assert pipe == pipe[..count] + pipe[count..];
      Associate(delivered, pipe[..count], pipe[count..]);
      delivered := delivered + pipe[..count];
      pipe, full := pipe[count..], full - count;
    }
  }

  // ---- what splice reports ---------------------------------------------------------

  function Min(a: nat, b: nat): (r: nat)
    ensures r <= a && r <= b && (r == a || r == b)
  {
    if a <= b then a else b
  }

  /** What the two calls of one turn moved: nothing if they were not made, blocked or met an end. */
  datatype Moved = Moved(took: Bytes, gave: nat)

  /** All that the calls took in, in order, and how much they gave out. */
  function Took(log: seq<Moved>): Bytes {
    if log == [] then [] else Took(log[..|log| - 1]) + log[|log| - 1].took
  }

  function Gave(log: seq<Moved>): nat {
    if log == [] then 0 else Gave(log[..|log| - 1]) + log[|log| - 1].gave
  }

  /** A pipe with its two ends. */
  datatype Pipe = Pipe(fill: int, fromOpen: bool, toOpen: bool)

  /** Whether the first call of a turn is made, whether it stops the turn, and whether the second is made. */
  predicate Reads(s: Pipe, size: nat) {
    s.fill < size && s.fromOpen && s.toOpen
  }

  predicate Stops(turn: Turn, s: Pipe, size: nat) {
    Reads(s, size) && turn.intake.SourceFails?
  }

  predicate Writes(turn: Turn, m: Moved, s: Pipe, size: nat) {
    !Stops(turn, s, size) && s.fill + |m.took| > 0 && s.toOpen
  }

  /** The calls moved exactly what splice said: of the bytes that it offers as many as fit, and of the
      bytes that are there as many as it accepts. */
  ghost predicate Honest(turn: Turn, m: Moved, s: Pipe, size: nat) {
    && m.took == (if Reads(s, size) && turn.intake.Got?
                  then turn.intake.bytes[..Min(|turn.intake.bytes|, size - s.fill)] else [])
    && m.gave == (if Writes(turn, m, s, size) && turn.outlet.Sent?
                  then Min(turn.outlet.count, s.fill + |m.took|) else 0)
  }

  /** The pipe behind a turn. A side is closed at the end of its input, or when it takes no more. */
  function AfterTurn(turn: Turn, m: Moved, s: Pipe, size: nat): Pipe {
    Pipe(s.fill + |m.took| - m.gave,
         s.fromOpen && !(Reads(s, size) && (turn.intake.SourceEnds? || turn.intake == Got([]))),
         s.toOpen && !(Writes(turn, m, s, size) && (turn.outlet.SinkEnds? || turn.outlet == Sent(0))))
  }

  /** The pipe behind the turns of a script that the log is about. */
  function After(script: seq<Turn>, log: seq<Moved>, s: Pipe, size: nat): Pipe {
    if log == [] then s
    else
      var n := |log| - 1;
      AfterTurn(TurnAt(script, n), log[n], After(script, log[..n], s, size), size)
  }

  /** All calls of these turns moved what splice said. */
  ghost predicate HonestLog(script: seq<Turn>, log: seq<Moved>, s: Pipe, size: nat) {
    log != [] ==>
      var n := |log| - 1;
      && HonestLog(script, log[..n], s, size)
      && Honest(TurnAt(script, n), log[n], After(script, log[..n], s, size), size)
  }

  lemma EmptyLog(script: seq<Turn>, s: Pipe, size: nat)
    ensures HonestLog(script, [], s, size) && After(script, [], s, size) == s && Took([]) == [] && Gave([]) == 0
  {
  }

  lemma HonestNext(script: seq<Turn>, log: seq<Moved>, m: Moved, s: Pipe, size: nat)
    requires HonestLog(script, log, s, size)
    requires Honest(TurnAt(script, |log|), m, After(script, log, s, size), size)
    ensures HonestLog(script, log + [m], s, size)
    ensures After(script, log + [m], s, size) == AfterTurn(TurnAt(script, |log|), m, After(script, log, s, size), size)
    ensures Took(log + [m]) == Took(log) + m.took && Gave(log + [m]) == Gave(log) + m.gave
  {
    hide Honest;
    assert (log + [m])[..|log|] == log;
  }

  /** The traffic of a channel since `taken` and `delivered`: what the log says. */
  ghost predicate Accounts(ch: Channel, taken: Bytes, delivered: Bytes, log: seq<Moved>)
    reads ch
  {
    && ch.taken == taken + Took(log)
    && |ch.delivered| == |delivered| + Gave(log) && ch.delivered <= ch.taken && delivered <= ch.delivered
  }

  /** A transfer that could still happen. */
  ghost predicate CanFill(from: Endpoint, ch: Channel, to: Endpoint)
    reads from`open, ch, to`open
  {
    ch.full < ch.size && from.open && to.open
  }

  ghost predicate CanDrain(ch: Channel, to: Endpoint)
    reads ch, to`open
  {
    ch.full > 0 && to.open
  }

  ghost predicate Ready(from: Endpoint, ch: Channel, to: Endpoint)
    reads from, ch, to
  {
    ch.Ok() && from.Ok() && to.Ok() && from != to
  }

  ghost function PipeOf(from: Endpoint, ch: Channel, to: Endpoint): Pipe
    reads from`open, ch`full, to`open
  {
    Pipe(ch.full, from.open, to.open)
  }

  /** The intake half of a turn. */
  method TakeIn(from: Endpoint, ch: Channel, to: Endpoint, intake: Intake) returns (moved: bool, failed: bool)
    requires Ready(from, ch, to)
    modifies from, ch
    ensures Ready(from, ch, to) && ch.delivered == old(ch.delivered) && ch.size == old(ch.size)
    ensures moved <==> old(CanFill(from, ch, to)) && intake.Got? && intake.bytes != []
    ensures failed <==> old(CanFill(from, ch, to)) && intake.SourceFails?
    ensures ch.taken == if moved then old(ch.taken) + Cut(intake.bytes, ch.size - old(ch.full)) else old(ch.taken)
    ensures moved ==> ch.pipe == old(ch.pipe) + Cut(intake.bytes, ch.size - old(ch.full))
    ensures !moved ==> ch.full == old(ch.full) && ch.pipe == old(ch.pipe)
    ensures from.open <==> old(from.open) && !(old(CanFill(from, ch, to)) && (intake.SourceEnds? || intake == Got([])))
  {
    moved, failed := false, false;
    if ch.full < ch.size && from.open && to.open {
      match intake {
        case Got(bytes) =>
          if bytes == [] {
            from.Close();
          } else {
            ch.Fill(Cut(bytes, ch.size - ch.full));
            moved := true;
          }
        case SourceEnds => from.Close();
        case SourceBlocks =>
        case SourceFails => failed := true;
      }
    }
  }

  /** The kernel never moves more than it is asked to. */
  function Cut(bytes: Bytes, room: nat): (r: Bytes)
    ensures r == bytes[..Min(|bytes|, room)] && (bytes != [] && room > 0 ==> r != [])
  {
    if |bytes| <= room then bytes else bytes[..room]
  }

  /** The outlet half of a turn. */
  method GiveOut(ch: Channel, to: Endpoint, outlet: Outlet) returns (moved: bool, failed: bool)
    requires ch.Ok() && to.Ok()
    modifies to, ch
    ensures ch.Ok() && to.Ok() && ch.taken == old(ch.taken) && ch.size == old(ch.size)
    ensures moved <==> old(CanDrain(ch, to)) && outlet.Sent? && outlet.count > 0
    ensures failed <==> old(CanDrain(ch, to)) && outlet.SinkFails?
    ensures old(ch.delivered) <= ch.delivered
    ensures !moved ==> ch.delivered == old(ch.delivered) && ch.full == old(ch.full) && ch.pipe == old(ch.pipe)
    ensures moved ==>
              && ch.delivered == old(ch.delivered) + old(ch.pipe)[..Min(outlet.count, old(ch.full))]
              && ch.pipe == old(ch.pipe)[Min(outlet.count, old(ch.full))..]
    ensures to.open <==> old(to.open) && !(old(CanDrain(ch, to)) && (outlet.SinkEnds? || outlet == Sent(0)))
  {
    moved, failed := false, false;
    if ch.full > 0 && to.open {
      match outlet {
        case Sent(count) =>
          if count == 0 {
            to.Close();
          } else {
            ch.Drain(if count <= ch.full then count else ch.full);
            moved := true;
          }
        case SinkEnds => to.Close();
        case SinkBlocks =>
        case SinkFails => failed := true;
      }
    }
  }

  /** The calls of splice find what the script says, and block when it is over. */
  function TurnAt(script: seq<Turn>, k: nat): Turn {
    if k < |script| then script[k] else Turn(SourceBlocks, SinkBlocks)
  }

  /** A turn that moves nothing, in the given situation. */
  ghost predicate Quiet(turn: Turn, from: Endpoint, ch: Channel, to: Endpoint)
    reads from`open, ch, to`open
  {
    && !(CanFill(from, ch, to) && turn.intake.Got? && turn.intake.bytes != [])
    && !(CanDrain(ch, to) && turn.outlet.Sent? && turn.outlet.count > 0)
  }

  /** A call of splice fails. */
  predicate Fails(script: seq<Turn>) {
    exists k :: 0 <= k < |script| && (script[k].intake.SourceFails? || script[k].outlet.SinkFails?)
  }

  /** One turn of the loop. */
  method ShovelOnce(from: Endpoint, ch: Channel, to: Endpoint, turn: Turn)
    returns (shoveled: bool, failed: bool, ghost m: Moved)
    requires Ready(from, ch, to)
    modifies from, ch, to
    ensures Ready(from, ch, to) && ch.size == old(ch.size)
    ensures (from.open ==> old(from.open)) && (to.open ==> old(to.open))
    ensures failed ==> turn.intake.SourceFails? || turn.outlet.SinkFails?
    ensures !failed ==> (shoveled <==> m.took != [] || m.gave > 0) && (!shoveled ==> Quiet(turn, from, ch, to))
    ensures shoveled ==> turn.intake.Got? || turn.outlet.Sent?
    ensures ch.taken == old(ch.taken) + m.took && |ch.delivered| == |old(ch.delivered)| + m.gave
    ensures old(ch.delivered) <= ch.delivered <= ch.taken && Honest(turn, m, old(PipeOf(from, ch, to)), ch.size)
    ensures PipeOf(from, ch, to) == AfterTurn(turn, m, old(PipeOf(from, ch, to)), ch.size)
    ensures !old(to.open) ==> Kept(ch, old(ch.pipe), old(ch.taken))
    ensures !old(from.open) ==> m.took == []
  {
    hide Honest, AfterTurn, Cut;
    ghost var s, size := PipeOf(from, ch, to), ch.size;
    shoveled := false;
    m := Moved([], 0);
    var movedIn, failedIn := TakeIn(from, ch, to, turn.intake);
    if movedIn {
      m := m.(took := Cut(turn.intake.bytes, size - s.fill));
    }
    failed := failedIn;
    if failed {
      TurnIs(turn, m, s, size);
      return;
    }
    ghost var full := ch.full;
    var movedOut, failedOut := GiveOut(ch, to, turn.outlet);
    if movedOut {
      m := m.(gave := Min(turn.outlet.count, full));
    }
    shoveled, failed := movedIn || movedOut, failedOut;
    TurnIs(turn, m, s, size);
  }

  /** What a turn moved, and what it leaves behind. */
  lemma TurnIs(turn: Turn, m: Moved, s: Pipe, size: nat)
    requires m.took == if Reads(s, size) && turn.intake.Got? && turn.intake.bytes != []
                       then Cut(turn.intake.bytes, size - s.fill) else []
    requires m.gave == if Writes(turn, m, s, size) && turn.outlet.Sent? && turn.outlet.count > 0
                       then Min(turn.outlet.count, s.fill + |m.took|) else 0
    ensures Honest(turn, m, s, size)
    ensures AfterTurn(turn, m, s, size) ==
            Pipe(s.fill + |m.took| - m.gave,
                 s.fromOpen && !(Reads(s, size) && (turn.intake.SourceEnds? || turn.intake == Got([]))),
                 s.toOpen && !(Writes(turn, m, s, size) && (turn.outlet.SinkEnds? || turn.outlet == Sent(0))))
  {
  }

  /** connection_shovel: every turn but the last moved something, and in the last one nothing
      could be moved any more. What is in the pipe toward a closed socket stays there. */
  method Shovel(from: Endpoint, ch: Channel, to: Endpoint, script: seq<Turn>)
    returns (failed: bool, ghost turns: nat, ghost log: seq<Moved>)
    requires Ready(from, ch, to)
    modifies from, ch, to
    ensures Ready(from, ch, to) && ch.size == old(ch.size)
    ensures old(ch.taken) <= ch.taken && old(ch.delivered) <= ch.delivered
    ensures (from.open ==> old(from.open)) && (to.open ==> old(to.open))
    ensures !failed ==> Settled(script, turns, from, ch, to, old(Traffic(ch)))
    ensures (failed ==> Fails(script)) && (!old(to.open) ==> Kept(ch, old(ch.pipe), old(ch.taken)))
    ensures !old(from.open) ==> ch.taken == old(ch.taken)
    ensures |log| == turns && HonestLog(script, log, old(PipeOf(from, ch, to)), ch.size)
    ensures PipeOf(from, ch, to) == After(script, log, old(PipeOf(from, ch, to)), ch.size)
    ensures Accounts(ch, old(ch.taken), old(ch.delivered), log)
  {
    hide HonestLog, Honest, Took, Gave, Quiet, After, AfterTurn;
    log, failed := [], false;
    ghost var s := PipeOf(from, ch, to);
    EmptyLog(script, s, ch.size);
    var shoveled, k := true, 0;
    turns := 0;
    while shoveled
      invariant Ready(from, ch, to) && ch.size == old(ch.size)
      invariant old(ch.taken) <= ch.taken && old(ch.delivered) <= ch.delivered
      invariant (from.open ==> old(from.open)) && (to.open ==> old(to.open))
      invariant turns == k && (k > |script| ==> !shoveled)
      invariant !old(to.open) ==> Kept(ch, old(ch.pipe), old(ch.taken))
      invariant !old(from.open) ==> ch.taken == old(ch.taken)
      invariant Traffic(ch) >= old(Traffic(ch)) + (if shoveled then k else k - 1)
      invariant !shoveled ==> k > 0 && Quiet(TurnAt(script, k - 1), from, ch, to)
      invariant |log| == k && HonestLog(script, log, s, ch.size)
      invariant PipeOf(from, ch, to) == After(script, log, s, ch.size)
      invariant Accounts(ch, old(ch.taken), old(ch.delivered), log)
      decreases |script| + 1 - k
    {
      var turn := TurnAt(script, k);
      ghost var taken, delivered := ch.taken, ch.delivered;
      k, turns := k + 1, turns + 1;
      ghost var m;
      shoveled, failed, m := ShovelOnce(from, ch, to, turn);
      HonestNext(script, log, m, s, ch.size);
      Associate(old(ch.taken), Took(log), m.took);
      log := log + [m];
      if failed {
        return;
      }
    }
  }

  /** Nothing went in and nothing came out. */
  ghost predicate Kept(ch: Channel, pipe: Bytes, taken: Bytes)
    reads ch
  {
    ch.pipe == pipe && ch.taken == taken
  }

  /** All turns of the script but the last moved something, and the last one is quiet. */
  ghost predicate Settled(script: seq<Turn>, turns: nat, from: Endpoint, ch: Channel, to: Endpoint, before: nat)
    reads from`open, ch, to`open
  {
    turns > 0 && Quiet(TurnAt(script, turns - 1), from, ch, to) && Traffic(ch) >= before + turns - 1
  }

  /** Bytes taken and bytes delivered so far. */
  ghost function Traffic(ch: Channel): nat
    reads ch
  {
    |ch.taken| + |ch.delivered|
  }

  // ---- both directions -------------------------------------------------------------

  /** Which sides are open, and what is in the pipes. */
  datatype Conn = Conn(server: bool, client: bool, toClient: int, toServer: int)

  function ClientPipe(s: Conn): Pipe {
    Pipe(s.toClient, s.server, s.client)
  }

  /** One callback: first everything toward the client, then, with what is still open, toward the server. */
  function Between(toClient: seq<Turn>, log: seq<Moved>, s: Conn, sizes: (nat, nat)): Pipe {
    var p := After(toClient, log, ClientPipe(s), sizes.0);
    Pipe(s.toServer, p.toOpen, p.fromOpen)
  }

  function AfterBoth(toClient: seq<Turn>, toServer: seq<Turn>, clientLog: seq<Moved>, serverLog: seq<Moved>, s: Conn,
                     sizes: (nat, nat)): Conn {
    var p := After(toClient, clientLog, ClientPipe(s), sizes.0);
    var q := After(toServer, serverLog, Between(toClient, clientLog, s, sizes), sizes.1);
    Conn(q.toOpen, q.fromOpen, p.fill, q.fill)
  }

  ghost predicate HonestBoth(toClient: seq<Turn>, toServer: seq<Turn>, clientLog: seq<Moved>, serverLog: seq<Moved>,
                             s: Conn, sizes: (nat, nat)) {
    && HonestLog(toClient, clientLog, ClientPipe(s), sizes.0)
    && HonestLog(toServer, serverLog, Between(toClient, clientLog, s, sizes), sizes.1)
  }

  /** The logs of a series of callbacks. */
  datatype Logs = Logs(client: seq<Moved>, server: seq<Moved>)

  function AfterAll(callbacks: seq<Callback>, logs: seq<Logs>, s: Conn, sizes: (nat, nat)): Conn
    requires |logs| <= |callbacks|
  {
    if logs == [] then s
    else
      var n := |logs| - 1;
      AfterBoth(callbacks[n].toClient, callbacks[n].toServer, logs[n].client, logs[n].server,
                AfterAll(callbacks, logs[..n], s, sizes), sizes)
  }

  ghost predicate HonestAll(callbacks: seq<Callback>, logs: seq<Logs>, s: Conn, sizes: (nat, nat))
    requires |logs| <= |callbacks|
  {
    logs != [] ==>
      var n := |logs| - 1;
      && HonestAll(callbacks, logs[..n], s, sizes)
      && HonestBoth(callbacks[n].toClient, callbacks[n].toServer, logs[n].client, logs[n].server,
                    AfterAll(callbacks, logs[..n], s, sizes), sizes)
  }

  /** All logs of one direction in one. */
  function ClientLog(logs: seq<Logs>): seq<Moved> {
    if logs == [] then [] else ClientLog(logs[..|logs| - 1]) + logs[|logs| - 1].client
  }

  function ServerLog(logs: seq<Logs>): seq<Moved> {
    if logs == [] then [] else ServerLog(logs[..|logs| - 1]) + logs[|logs| - 1].server
  }

  lemma HonestOnward(callbacks: seq<Callback>, logs: seq<Logs>, l: Logs, s: Conn, sizes: (nat, nat))
    requires |logs| < |callbacks| && HonestAll(callbacks, logs, s, sizes)
    requires var cb := callbacks[|logs|];
             HonestBoth(cb.toClient, cb.toServer, l.client, l.server, AfterAll(callbacks, logs, s, sizes), sizes)
    ensures HonestAll(callbacks, logs + [l], s, sizes)
    ensures var cb := callbacks[|logs|];
            AfterAll(callbacks, logs + [l], s, sizes) ==
            AfterBoth(cb.toClient, cb.toServer, l.client, l.server, AfterAll(callbacks, logs, s, sizes), sizes)
    ensures ClientLog(logs + [l]) == ClientLog(logs) + l.client && ServerLog(logs + [l]) == ServerLog(logs) + l.server
  {
    hide HonestBoth, AfterBoth;
    assert (logs + [l])[..|logs|] == logs;
  }

  lemma {:induction false} AppendLog(a: seq<Moved>, b: seq<Moved>)
    ensures Took(a + b) == Took(a) + Took(b) && Gave(a + b) == Gave(a) + Gave(b)
    decreases |b|
  {
    if b == [] {
      assert a + b == a;
    } else {
      var front := b[..|b| - 1];
      assert (a + b)[..|a + b| - 1] == a + front;
      AppendLog(a, front);
      Associate(Took(a), Took(front), b[|b| - 1].took);
    }
  }

  /** Two accounts one after the other. */
  lemma AccountsOnward(ch: Channel, taken0: Bytes, delivered0: Bytes, a: seq<Moved>, taken: Bytes, delivered: Bytes,
                       b: seq<Moved>)
    requires taken == taken0 + Took(a) && |delivered| == |delivered0| + Gave(a) && delivered0 <= delivered
    requires Accounts(ch, taken, delivered, b)
    ensures Accounts(ch, taken0, delivered0, a + b)
  {
    hide Took, Gave;
    AppendLog(a, b);
    Associate(taken0, Took(a), Took(b));
  }

  // ---- a connection ----------------------------------------------------------------

  class Connection {
    const server: Endpoint
    const client: Endpoint
    const toClient: Channel
    const toServer: Channel
    /** connection_free was called, and whether an error was the reason. */
    var freed: bool
    var faulty: bool

    /** connection_complete: both pipes are there, nothing has moved and everything is watched. The
        connection is given up when the event loop accepts no new sources. */
    constructor (sizeToClient: nat, sizeToServer: nat, added: bool)
      requires sizeToClient > 0 && sizeToServer > 0
      ensures Inv() && toClient.taken == [] && toServer.taken == [] && freed == faulty == !added
      ensures !freed ==> Watched() && NoIdleWakeups()
      ensures fresh(server) && fresh(client) && fresh(toClient) && fresh(toServer) && server.open && client.open
      ensures toClient.size == sizeToClient && toServer.size == sizeToServer
    {
      server := new Endpoint();
      client := new Endpoint();
      toClient := new Channel(sizeToClient);
      toServer := new Channel(sizeToServer);
      new;
      var ok := EnableEventSources(added);
      freed, faulty := !ok, !ok;
    }

    ghost function Parts(): set<object> {
      {server, client, toClient, toServer}
    }

    ghost predicate Inv()
      reads this, Parts()
    {
      && server != client && toClient != toServer
      && Ready(server, toClient, client) && Ready(client, toServer, server)
      && (freed && !faulty ==> Flushed())
    }

    /** Nothing is pending toward a side that is still open. */
    ghost predicate Flushed()
      reads this, Parts()
    {
      (client.open ==> toClient.pipe == []) && (server.open ==> toServer.pipe == [])
    }

    /** Every transfer that is still possible will be noticed. */
    ghost predicate Watched()
      reads this, Parts()
    {
      && (CanFill(server, toClient, client) ==> server.source.Some? && server.source.value.readable)
      && (CanFill(client, toServer, server) ==> client.source.Some? && client.source.value.readable)
      && (CanDrain(toClient, client) ==> client.source.Some? && client.source.value.writable)
      && (CanDrain(toServer, server) ==> server.source.Some? && server.source.value.writable)
    }

    /** And nothing else wakes the loop: a full pipe takes no input, an empty one gives no output. */
    ghost predicate NoIdleWakeups()
      reads this, Parts()
    {
      && (server.source.Some? ==>
            (server.source.value.readable ==> toClient.full < toClient.size) &&
            (server.source.value.writable ==> toServer.full > 0))
      && (client.source.Some? ==>
            (client.source.value.readable ==> toServer.full < toServer.size) &&
            (client.source.value.writable ==> toClient.full > 0))
    }

    /** connection_enable_event_sources; added says whether the event loop accepts new sources. */
    method EnableEventSources(added: bool) returns (ok: bool)
      requires Inv()
      modifies server`source, client`source
      ensures Inv() && (ok ==> Watched() && NoIdleWakeups())
      ensures ok <==>
              || added
              || ((old(server.source).Some? || !server.open) && (old(client.source).Some? || !client.open))
    {
      var a := Interest(toClient.full < toClient.size, toServer.full > 0);
      var b := Interest(toServer.full < toServer.size, toClient.full > 0);
      ok := server.Watch(a, added);
      if ok {
        ok := client.Watch(b, added);
      }
    }

    ghost function State(): Conn
      reads this, Parts()
    {
      Conn(server.open, client.open, toClient.full, toServer.full)
    }

    ghost function Sizes(): (nat, nat)
      reads this, Parts()
    {
      (toClient.size, toServer.size)
    }

    /** Both directions in turn. */
    method ShovelBoth(toClientScript: seq<Turn>, toServerScript: seq<Turn>)
      returns (failed: bool, ghost clientTurns: nat, ghost serverTurns: nat, ghost clientLog: seq<Moved>,
               ghost serverLog: seq<Moved>)
      requires Inv() && !freed
      modifies Parts()
      ensures Inv()
      ensures old(toClient.taken) <= toClient.taken && old(toClient.delivered) <= toClient.delivered
      ensures old(toServer.taken) <= toServer.taken && old(toServer.delivered) <= toServer.delivered
      ensures !failed ==> Settled(toClientScript, clientTurns, server, toClient, client, old(Traffic(toClient)))
      ensures !failed ==> Settled(toServerScript, serverTurns, client, toServer, server, old(Traffic(toServer)))
      ensures (client.open ==> old(client.open)) && (server.open ==> old(server.open))
      ensures !old(server.open) ==> toClient.taken == old(toClient.taken)
      ensures !old(client.open) ==> toServer.taken == old(toServer.taken)
      ensures failed ==> Fails(toClientScript) || Fails(toServerScript)
      ensures HonestBoth(toClientScript, toServerScript, clientLog, serverLog, old(State()), Sizes())
      ensures State() == AfterBoth(toClientScript, toServerScript, clientLog, serverLog, old(State()), Sizes())
      ensures Accounts(toClient, old(toClient.taken), old(toClient.delivered), clientLog)
      ensures Accounts(toServer, old(toServer.taken), old(toServer.delivered), serverLog)
      ensures toClient.size == old(toClient.size) && toServer.size == old(toServer.size)
      ensures !old(client.open) ==> Kept(toClient, old(toClient.pipe), old(toClient.taken))
      ensures !old(server.open) ==> Kept(toServer, old(toServer.pipe), old(toServer.taken))
    {
      hide HonestLog, After;
      serverTurns, serverLog := 0, [];
      failed, clientTurns, clientLog := Shovel(server, toClient, client, toClientScript);
      EmptyLog(toServerScript, PipeOf(client, toServer, server), toServer.size);
      if !failed {
        failed, serverTurns, serverLog := Shovel(client, toServer, server, toServerScript);
      }
    }

    /** traffic_cb. Without an error the connection is given up exactly when nothing can flow
        any more, and then nothing is pending toward a side that is still open; otherwise every
        transfer that is still possible is watched for. */
    method TrafficCb(toClientScript: seq<Turn>, toServerScript: seq<Turn>, added: bool)
      returns (ghost clientTurns: nat, ghost serverTurns: nat, ghost clientLog: seq<Moved>,
               ghost serverLog: seq<Moved>)
      requires Inv() && !freed
      modifies this, Parts()
      ensures HonestBoth(toClientScript, toServerScript, clientLog, serverLog, old(State()), Sizes())
      ensures State() == AfterBoth(toClientScript, toServerScript, clientLog, serverLog, old(State()), Sizes())
      ensures Accounts(toClient, old(toClient.taken), old(toClient.delivered), clientLog)
      ensures Accounts(toServer, old(toServer.taken), old(toServer.delivered), serverLog)
      ensures toClient.size == old(toClient.size) && toServer.size == old(toServer.size)
      ensures Inv()
      ensures freed && !faulty <==>
                && !faulty
                && ((!server.open && (!client.open || toClient.pipe == [])) || (!client.open && toServer.pipe == []))
      ensures faulty ==> !added || Fails(toClientScript) || Fails(toServerScript)
      ensures (client.open ==> old(client.open)) && (server.open ==> old(server.open))
      ensures !old(server.open) ==> toClient.taken == old(toClient.taken)
      ensures !old(client.open) ==> toServer.taken == old(toServer.taken)
      ensures !old(client.open) ==> Kept(toClient, old(toClient.pipe), old(toClient.taken))
      ensures !old(server.open) ==> Kept(toServer, old(toServer.pipe), old(toServer.taken))
      ensures freed && !faulty ==> Flushed()
      ensures !freed ==> Watched() && NoIdleWakeups()
      ensures old(toClient.taken) <= toClient.taken && old(toClient.delivered) <= toClient.delivered
      ensures old(toServer.taken) <= toServer.taken && old(toServer.delivered) <= toServer.delivered
      ensures !faulty ==> Settled(toClientScript, clientTurns, server, toClient, client, old(Traffic(toClient)))
      ensures !faulty ==> Settled(toServerScript, serverTurns, client, toServer, server, old(Traffic(toServer)))
    {
      hide Settled, HonestBoth, AfterBoth, Took, Gave;
      faulty := false;
      var failed;
      failed, clientTurns, serverTurns, clientLog, serverLog := ShovelBoth(toClientScript, toServerScript);
      if failed {
        freed, faulty := true, true;
        return;
      }
      if (!server.open && !client.open) || (!server.open && toClient.full == 0)
         || (!client.open && toServer.full == 0) {
        freed := true;
        return;
      }
      var ok := EnableEventSources(added);
      if !ok {
        freed, faulty := true, true;
      }
    }

    /** Any series of callbacks: what was taken from one side is what the other got plus what is
        in the pipe, in order; when the connection ends without an error, a side did not get
        everything exactly when it was closed while bytes toward it were in the pipe. */
    method Run(callbacks: seq<Callback>) returns (ghost logs: seq<Logs>)
      requires Inv() && !freed
      modifies this, Parts()
      ensures Inv()
      ensures toClient.taken == toClient.delivered + toClient.pipe
      ensures toServer.taken == toServer.delivered + toServer.pipe
      ensures freed && !faulty ==> (toClient.delivered != toClient.taken <==> !client.open && toClient.pipe != [])
      ensures freed && !faulty ==> (toServer.delivered != toServer.taken <==> !server.open && toServer.pipe != [])
      ensures !old(client.open) ==> Kept(toClient, old(toClient.pipe), old(toClient.taken))
      ensures !old(server.open) ==> Kept(toServer, old(toServer.pipe), old(toServer.taken))
      ensures |logs| <= |callbacks| && (!freed ==> |logs| == |callbacks|)
      ensures HonestAll(callbacks, logs, old(State()), Sizes())
      ensures State() == AfterAll(callbacks, logs, old(State()), Sizes())
      ensures Accounts(toClient, old(toClient.taken), old(toClient.delivered), ClientLog(logs))
      ensures Accounts(toServer, old(toServer.taken), old(toServer.delivered), ServerLog(logs))
    {
      hide HonestAll, HonestBoth, AfterAll, AfterBoth, Settled, Took, Gave, ClientLog, ServerLog, Watched;
      logs := [];
      ghost var s, sizes := State(), Sizes();
      NothingMoved(callbacks);
      for k := 0 to |callbacks|
        invariant Inv() && (client.open ==> old(client.open)) && (server.open ==> old(server.open))
        invariant !old(client.open) ==> Kept(toClient, old(toClient.pipe), old(toClient.taken))
        invariant !old(server.open) ==> Kept(toServer, old(toServer.pipe), old(toServer.taken))
        invariant |logs| <= k && (!freed ==> |logs| == k) && Sizes() == sizes
        invariant HonestAll(callbacks, logs, s, sizes) && State() == AfterAll(callbacks, logs, s, sizes)
        invariant Accounts(toClient, old(toClient.taken), old(toClient.delivered), ClientLog(logs))
        invariant Accounts(toServer, old(toServer.taken), old(toServer.delivered), ServerLog(logs))
      {
        if !freed {
          ghost var t, d, t', d' := toClient.taken, toClient.delivered, toServer.taken, toServer.delivered;
          ghost var _, _, a, b := TrafficCb(callbacks[k].toClient, callbacks[k].toServer, callbacks[k].added);
          HonestOnward(callbacks, logs, Logs(a, b), s, sizes);
          AccountsOnward(toClient, old(toClient.taken), old(toClient.delivered), ClientLog(logs), t, d, a);
          AccountsOnward(toServer, old(toServer.taken), old(toServer.delivered), ServerLog(logs), t', d', b);
          logs := logs + [Logs(a, b)];
        }
      }
    }

    lemma NothingMoved(callbacks: seq<Callback>)
      requires Inv()
      ensures HonestAll(callbacks, [], State(), Sizes()) && State() == AfterAll(callbacks, [], State(), Sizes())
      ensures Accounts(toClient, toClient.taken, toClient.delivered, ClientLog([]))
      ensures Accounts(toServer, toServer.taken, toServer.delivered, ServerLog([]))
    {
      assert toClient.taken + [] == toClient.taken && toServer.taken + [] == toServer.taken;
    }
  }

  /** The server has sent bytes that the client has not read yet, and the client ends its sending half.
      Its descriptor is closed for both, and the bytes are gone. */
  method HalfClosed(bytes: Bytes) returns (c: Connection)
    requires 0 < |bytes| <= 10
    ensures c.Inv() && c.freed && !c.faulty && c.toClient.taken == bytes && c.toClient.delivered == []
  {
    c := new Connection(10, 10, true);
    var _, _ := TakeIn(c.server, c.toClient, c.client, Got(bytes));
    var _, _ := TakeIn(c.client, c.toServer, c.server, SourceEnds);
    ghost var _, _, _, _ := c.TrafficCb([], [], true);
  }
}
