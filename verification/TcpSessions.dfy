/** `tcp_session` (tcp_session.cpp of the client): its two queues and its read loop. Each method
    is one step: a call from outside, a handler on the strand, or the completion of an
    operation. `dispatch` adds a step to those that wait on the strand. */
module TcpSessions {
  import opened Bytes
  import opened Frames

  type Buffer = seq<Byte>

  /** `_inbound`: none, one whose header is still to be read, or one that has its header. */
  datatype Slot = Null | Blank | Headed(header: seq<Byte>)

  /** The `async_read` in progress. */
  datatype Read = NoRead | HeaderRead | BodyRead(size: nat)

  /** Bytes that arrive are added to what is left of the bytes before. */
  lemma {:induction false} ParseMore(taken: seq<Byte>, more: seq<Byte>)
    ensures
      var before := Parse(taken);
      var after := Parse(before.rest + more);
      Parse(taken + more) == Reading(before.packets + after.packets, after.rest)
    decreases |taken|
  {
    hide BodySizeOf, IdOf, Parse;
    if |taken| >= HEADER_SIZE && |taken| >= HEADER_SIZE + BodySizeOf(taken[..HEADER_SIZE]) {
      var h := taken[..HEADER_SIZE];
      var n := HEADER_SIZE + BodySizeOf(h);
      var body, rest := taken[HEADER_SIZE..n], taken[n..];
      FirstPacket(h, body, rest);
      FirstPacket(h, body, rest + more);
      assert taken == h + body + rest && taken + more == h + body + (rest + more);
      ParseMore(rest, more);
    } else {
      NoPacket(taken);
    }
  }

  lemma FirstPacket(h: seq<Byte>, body: seq<Byte>, rest: seq<Byte>)
    requires |h| == HEADER_SIZE && |body| == BodySizeOf(h)
    ensures Parse(h + body + rest) == Reading([Packet(IdOf(h), body)] + Parse(rest).packets, Parse(rest).rest)
  {
    hide BodySizeOf, IdOf;
    var s := h + body + rest;
    assert s[..HEADER_SIZE] == h && s[HEADER_SIZE..HEADER_SIZE + |body|] == body && s[HEADER_SIZE + |body|..] == rest;
  }

  lemma NoPacket(s: seq<Byte>)
    requires |s| >= HEADER_SIZE ==> |s| < HEADER_SIZE + BodySizeOf(s[..HEADER_SIZE])
    ensures Parse(s) == Reading([], s)
  {
  }

  /** A header with no body behind it yet. */
  lemma ParseHeader(h: seq<Byte>)
    requires |h| == HEADER_SIZE
    ensures Parse(h) == if BodySizeOf(h) > 0 then Reading([], h) else Reading([Packet(IdOf(h), [])], [])
  {
    hide BodySizeOf, IdOf;
    assert h[..HEADER_SIZE] == h && h[HEADER_SIZE..HEADER_SIZE] == [];
    assert h[HEADER_SIZE..] == [];
  }

  lemma ParseBody(h: seq<Byte>, body: seq<Byte>)
    requires |h| == HEADER_SIZE && |body| <= BodySizeOf(h) && BodySizeOf(h) > 0
    ensures Parse(h + body) == if |body| < BodySizeOf(h) then Reading([], h + body) else Reading([Packet(IdOf(h), body)], [])
  {
    hide BodySizeOf, IdOf;
    var s := h + body;
    assert s[..HEADER_SIZE] == h;
    assert s[HEADER_SIZE..] == body;
    if |body| == BodySizeOf(h) {
      assert s[HEADER_SIZE..HEADER_SIZE + |body|] == body && s[HEADER_SIZE + |body|..] == [];
      assert Parse([]) == Reading([], []);
    }
  }

  /** What can happen to a session. */
  datatype Event =
    | Connect(success: bool, alloc: bool)
    | Close
    | RunClose
    | Send(out: Buffer)
    | RunSend(i: nat)
    | WriteDone(success: bool)
    | Poll
    | ReadDone(success: bool, bytes: seq<Byte>, alloc: bool)

  datatype Trace = Trace(
    connected: bool, clean: bool,
    outboundQueue: seq<Buffer>, writing: seq<Buffer>, queued: seq<Buffer>, started: seq<Buffer>, released: seq<Buffer>,
    sends: seq<Buffer>,
    inboundQueue: seq<Packet>, polls: nat, polled: seq<Packet>, delivered: seq<Packet>, routeBound: bool,
    taken: seq<Byte>, earlier: seq<Packet>,
    attempts: nat, connects: nat, failures: nat, closings: nat, disconnects: nat, closes: nat)

  /** What holds at every moment of every run of a session whose route was bound, or not, before
      it connects. A failed attempt to connect calls `closing` without `disconnected`, and clears
      the route for good: what is polled after it is dropped. */
  predicate Safe(t: Trace, bound: bool) {
    && (t.writing == [] || (t.outboundQueue != [] && t.writing == [t.outboundQueue[0]]))
    && t.released <= t.started <= t.queued && t.queued == t.released + t.outboundQueue
    && (t.clean && t.connected && t.outboundQueue != [] ==> |t.writing| == 1)
    && t.polls == (if t.inboundQueue == [] then 0 else 1)
    && t.polled + t.inboundQueue == t.earlier + Parse(t.taken).packets
    && t.delivered <= t.polled && (t.routeBound ==> t.delivered == t.polled)
    && t.routeBound == (bound && t.failures == 0) && (!bound ==> t.delivered == [])
    && t.connects + t.failures == t.closings + (if t.connected then 1 else 0)
    && t.closings == t.disconnects + t.closes + t.failures
  }

  class TcpSession {
    var is_connected: bool
    var outbound_q: seq<Buffer>
    var inbound_q: seq<Packet>
    var inbound: Slot
    var route_bound: bool  // `_route` is not empty

    // What is under way outside: calls of `on_send` waiting on the strand, `async_write`s in
    // progress, calls of `route_poll` and of `on_close` waiting on the strand, the read in progress.
    var sends: seq<Buffer>
    var writing: seq<Buffer>
    var polls: nat
    var closes: nat
    var reading: Read

    // What has happened: buffers in the order they were queued, given to `async_write` and
    // released; packets routed, polled and handed on; bytes read from this connection, and
    // packets routed before it; calls of `connect`, connections made, attempts that failed,
    // `closing` and `disconnected` callbacks.
    var queued: seq<Buffer>
    var started: seq<Buffer>
    var released: seq<Buffer>
    var routed: seq<Packet>
    var polled: seq<Packet>
    var delivered: seq<Packet>
    var taken: seq<Byte>
    var earlier: seq<Packet>
    var attempts: nat
    var connects: nat
    var failures: nat
    var closings: nat
    var disconnects: nat
    // Whether each connection found the outbound queue empty or being written.
    var clean: bool
    // Whether `bind_route` was called before the first attempt.
    ghost const bound: bool

    /** At most one write, of the head of the queue; buffers are written and released in the
        order they were queued, each once. */
    predicate Outbound()
      reads this`outbound_q, this`writing, this`queued, this`started, this`released
    {
      && (writing == [] || (outbound_q != [] && writing == outbound_q[..1]))
      && queued == released + outbound_q && started == released + writing
    }

    /** Nothing that is queued waits for a write that is not under way. */
    predicate Flowing()
      reads this`is_connected, this`outbound_q, this`writing
    {
      is_connected && outbound_q != [] ==> writing != []
    }

    /** Exactly one `route_poll` waits while there is something to poll; packets are polled in
        order, each once. */
    predicate Inbound()
      reads this`inbound_q, this`polls, this`routed, this`polled
    {
      && polls == (if inbound_q == [] then 0 else 1)
      && routed == polled + inbound_q
    }

    /** What is polled is handed on, up to the first attempt to connect that failed. */
    ghost predicate Handed()
      reads this`polled, this`delivered, this`route_bound, this`failures
    {
      && delivered <= polled && (route_bound ==> delivered == polled)
      && route_bound == (bound && failures == 0) && (!bound ==> delivered == [])
    }

    /** The packets routed are those complete in the bytes read. */
    predicate InStep()
      reads this`inbound, this`reading, this`routed, this`taken, this`earlier
    {
      && routed == earlier + Parse(taken).packets
      && match reading
         case NoRead => true
         case HeaderRead => inbound.Blank? && Parse(taken).rest == []
         case BodyRead(n) =>
           && inbound.Headed? && |inbound.header| == HEADER_SIZE && n == BodySizeOf(inbound.header) > 0
           && Parse(taken).rest == inbound.header
    }

    /** Each connection is closed at most once, and each close ends in one `disconnected`; a failed
        attempt is a `closing` without one. */
    predicate Closes()
      reads this`is_connected, this`closes, this`connects, this`failures, this`closings, this`disconnects
    {
      && connects + failures == closings + (if is_connected then 1 else 0)
      && closings == disconnects + closes + failures
    }

    /** Before the first connection nothing can be queued or read, so that one is clean. */
    predicate FirstConnection()
      reads this`attempts, this`connects, this`failures, this`sends, this`queued, this`routed, this`clean, this`reading, this`earlier
    {
      && (connects == 0 ==> sends == [] && queued == [] && routed == [] && reading.NoRead?)
      && (connects <= 1 ==> clean && earlier == []) && connects + failures <= attempts
    }

    ghost predicate Valid()
      reads this
    {
      Outbound() && Inbound() && Handed() && InStep() && Closes() && FirstConnection() && (clean ==> Flowing())
    }

    /** With the route bound or not. */
    constructor (bound: bool)
      ensures Valid() && clean && !is_connected && reading.NoRead? && this.bound == route_bound == bound
      ensures connects == attempts == failures == polls == 0 && queued == sends == outbound_q == writing == [] && inbound_q == []
      ensures polled == delivered == []
    {
      is_connected, outbound_q, inbound_q, inbound, route_bound := false, [], [], Null, bound;
      sends, writing, polls, closes, reading := [], [], 0, 0, NoRead;
      queued, started, released, routed, polled, delivered, taken, earlier := [], [], [], [], [], [], [], [];
      attempts, connects, failures, closings, disconnects, clean := 0, 0, 0, 0, 0, true;
      this.bound := bound;
    }

    /** `on_close`. */
    method OnClose()
      requires Closes()
      modifies this`is_connected, this`closings, this`closes
      ensures Closes() && !is_connected
      ensures closes == old(closes) + if old(is_connected) then 1 else 0
      ensures closings == old(closings) + if old(is_connected) then 1 else 0
    {
      if !is_connected {
        return;
      }
      closings := closings + 1;
      is_connected := false;
      closes := closes + 1;
    }

    /** What `on_close` dispatches. */
    method RunClose()
      requires Valid() && closes > 0
      modifies this`closes, this`disconnects
      ensures Valid() && closes == old(closes) - 1 && disconnects == old(disconnects) + 1
    {
      closes := closes - 1;
      disconnects := disconnects + 1;
    }

    /** `connect`, with or without success, and with or without an object to read into. A failure
        is a `closing` too, and clears the route. */
    method Connect(success: bool, alloc: bool)
      requires Valid() && !is_connected && reading.NoRead?
      modifies this`is_connected, this`inbound, this`reading, this`earlier, this`taken, this`clean,
               this`attempts, this`connects, this`failures, this`closings, this`closes, this`route_bound
      ensures Valid() && attempts == old(attempts) + 1
      ensures is_connected == (success && alloc) && connects == old(connects) + if is_connected then 1 else 0
      ensures failures == old(failures) + (if success then 0 else 1) && closings == old(closings) + if success then 0 else 1
      ensures route_bound == (old(route_bound) && success)
      ensures if is_connected then reading.HeaderRead? && taken == [] else reading.NoRead?
      ensures clean == (old(clean) && (is_connected ==> outbound_q == [] || writing != []))
      ensures is_connected ==> (Flowing() <==> outbound_q == [] || writing != [])
    {
      hide Parse, Outbound, Inbound, InStep, Handed, Closes, FirstConnection;
      if !success {
        ConnectFailed();
        return;
      }
      if !alloc {
        CountAttempt();
        OnClose();
        return;
      }
      Connected();
    }

    method CountAttempt()
      requires FirstConnection()
      modifies this`attempts
      ensures FirstConnection() && attempts == old(attempts) + 1
    {
      attempts := attempts + 1;
    }

    /** The branch for an error. */
    method ConnectFailed()
      requires Closes() && Handed() && FirstConnection() && !is_connected
      modifies this`is_connected, this`attempts, this`failures, this`closings, this`route_bound
      ensures Closes() && Handed() && FirstConnection() && !is_connected && !route_bound
      ensures attempts == old(attempts) + 1 && failures == old(failures) + 1 && closings == old(closings) + 1
    {
      attempts := attempts + 1;
      closings := closings + 1;
      failures := failures + 1;
      is_connected := false;
      route_bound := false;
    }

    /** The end of `connect`: the first read of a new stream. */
    method Connected()
      requires Outbound() && InStep() && Closes() && FirstConnection() && !is_connected
      modifies this`is_connected, this`inbound, this`reading, this`earlier, this`taken, this`clean,
               this`attempts, this`connects
      ensures InStep() && Closes() && FirstConnection() && is_connected
      ensures attempts == old(attempts) + 1 && connects == old(connects) + 1
      ensures reading.HeaderRead? && taken == []
      ensures clean == (old(clean) && (outbound_q == [] || writing != []))
    {
      hide Parse, Outbound, InStep;
      FirstQueued();
      FirstRead();
      is_connected := true;
      attempts, connects := attempts + 1, connects + 1;
      clean := clean && (outbound_q == [] || writing != []);
    }

    method FirstRead()
      modifies this`inbound, this`reading, this`earlier, this`taken
      ensures InStep() && reading.HeaderRead? && taken == [] && earlier == routed
    {
      hide Parse;
      ShortHeader([]);
      assert routed + [] == routed;
      inbound := Blank;
      reading := HeaderRead;
      earlier, taken := routed, [];
    }

    lemma FirstQueued()
      requires Outbound()
      ensures queued == [] ==> outbound_q == []
    {
    }

    /** `on_send`. */
    method OnSend(out: Buffer) returns (ok: bool)
      requires Valid()
      modifies this`sends
      ensures Valid() && ok == is_connected && sends == old(sends) + if ok then [out] else []
    {
      if !is_connected {
        return false;
      }
      sends := sends + [out];
      return true;
    }

    /** `on_send` while no other call waits, and what it dispatches. */
    method SendAlone(out: Buffer)
      requires Valid() && is_connected && sends == []
      modifies this`sends, this`outbound_q, this`queued, this`writing, this`started
      ensures Valid() && sends == [] && outbound_q == old(outbound_q) + [out]
      ensures writing == if old(outbound_q) == [] then outbound_q else old(writing)
    {
      hide Valid;
      var ok := OnSend(out);
      RunSend(0);
    }

    /** `async_write` of the head of the queue. */
    method StartWrite()
      requires Outbound() && outbound_q != [] && writing == []
      modifies this`writing, this`started
      ensures Outbound() && writing == [outbound_q[0]]
    {
      writing := [outbound_q[0]];
      started := started + [outbound_q[0]];
    }

    /** What `on_send` dispatches. */
    method RunSend(i: nat)
      requires Valid() && i < |sends|
      modifies this`sends, this`outbound_q, this`queued, this`writing, this`started
      ensures Valid()
      ensures sends == old(sends)[..i] + old(sends)[i + 1..]
      ensures outbound_q == old(outbound_q) + [old(sends)[i]] && queued == old(queued) + [old(sends)[i]]
      ensures writing == if old(outbound_q) == [] && is_connected then outbound_q else old(writing)
    {
      hide Parse, Outbound, Inbound, InStep, Handed, Closes;
      Enqueue(i);
      if 1 < |outbound_q| {
        return;
      }
      if !is_connected {
        return;
      }
      StartWrite();
    }

    /** `emplace_back` by one of the steps that wait. */
    method Enqueue(i: nat)
      requires Outbound() && i < |sends|
      modifies this`sends, this`outbound_q, this`queued
      ensures Outbound() && sends == old(sends)[..i] + old(sends)[i + 1..]
      ensures outbound_q == old(outbound_q) + [old(sends)[i]] && queued == old(queued) + [old(sends)[i]]
      ensures old(outbound_q) == [] ==> writing == []
    {
      var out := sends[i];
      sends := sends[..i] + sends[i + 1..];
      outbound_q := outbound_q + [out];
      queued := queued + [out];
    }

    /** `write`, the completion of the `async_write` in progress. That the queue is empty then
        cannot happen. */
    method Write(success: bool)
      requires Valid() && writing != []
      modifies this`is_connected, this`closings, this`closes, this`outbound_q, this`released, this`writing, this`started
      ensures Valid()
      ensures released == old(released) + old(writing) && outbound_q == old(outbound_q)[1..]
      ensures is_connected == (old(is_connected) && success)
      ensures writing == if outbound_q != [] && is_connected then [outbound_q[0]] else []
    {
      hide Parse, Outbound, Inbound, InStep, Handed, Closes, FirstConnection;
      if !success {
        OnClose();
      }
      ReleaseHead();
      if success {
        if outbound_q == [] {
          return;
        }
        if !is_connected {
          return;
        }
        StartWrite();
      }
    }

    /** The buffer that was written leaves the queue. */
    method ReleaseHead()
      requires Outbound() && writing != []
      modifies this`outbound_q, this`released, this`writing
      ensures Outbound() && writing == [] && old(outbound_q) != []
      ensures released == old(released) + old(writing) && outbound_q == old(outbound_q)[1..]
    {
      var pk := outbound_q[0];
      outbound_q := outbound_q[1..];
      released := released + [pk];
      writing := [];
    }

    /** `route`. */
    method Route(packet: Packet)
      requires Inbound()
      modifies this`inbound_q, this`polls, this`routed
      ensures Inbound() && routed == old(routed) + [packet] && inbound_q == old(inbound_q) + [packet] && polls == 1
    {
      inbound_q := inbound_q + [packet];
      routed := routed + [packet];
      if 1 < |inbound_q| {
        return;
      }
      polls := polls + 1;
    }

    /** `route_poll`. That the queue is empty then cannot happen. `packet_route` hands the packet
        on exactly while the route is bound. */
    method RoutePoll()
      requires Valid() && polls > 0
      modifies this`inbound_q, this`polls, this`polled, this`delivered
      ensures Valid()
      ensures old(inbound_q) != [] && inbound_q == old(inbound_q)[1..] && polled == old(polled) + [old(inbound_q)[0]]
      ensures delivered == old(delivered) + if route_bound then [old(inbound_q)[0]] else []
    {
      hide Parse, Outbound, Handed, InStep, Closes, FirstConnection;
      PollOne();
      if inbound_q == [] {
        return;
      }
      polls := polls + 1;
    }

    /** Its first part, with `packet_route`. */
    method PollOne()
      requires Inbound() && Handed() && polls > 0
      modifies this`inbound_q, this`polls, this`polled, this`delivered
      ensures routed == polled + inbound_q && polls == 0 && Handed()
      ensures old(inbound_q) != [] && inbound_q == old(inbound_q)[1..] && polled == old(polled) + [old(inbound_q)[0]]
      ensures delivered == old(delivered) + if route_bound then [old(inbound_q)[0]] else []
    {
      polls := polls - 1;
      assert inbound_q != [];
      var packet := inbound_q[0];
      inbound_q := inbound_q[1..];
      polled := polled + [packet];
      if route_bound {
        delivered := delivered + [packet];
      }
    }

    /** `read_header`. The object read into cannot be missing. */
    method ReadHeader(success: bool, bytes: seq<Byte>, alloc: bool)
      requires Valid() && reading.HeaderRead? && |bytes| <= HEADER_SIZE
      requires !success ==> |bytes| < HEADER_SIZE
      requires |bytes| == HEADER_SIZE ==> BodySizeOf(bytes) <= RAW_SIZE
      modifies this`is_connected, this`closings, this`closes, this`inbound, this`reading, this`taken,
               this`inbound_q, this`polls, this`routed
      ensures Valid() && taken == old(taken) + bytes
      ensures is_connected == (old(is_connected) && success
                               && (bytes == [] || (|bytes| == HEADER_SIZE && (BodySizeOf(bytes) > 0 || alloc))))
      ensures reading.NoRead? <==> !is_connected
      ensures |bytes| < HEADER_SIZE ==> inbound_q == old(inbound_q) && polls == old(polls)
      ensures success && |bytes| == HEADER_SIZE && BodySizeOf(bytes) == 0 ==>
        inbound_q == old(inbound_q) + [Packet(IdOf(bytes), [])] && polls == 1
    {
      hide Parse, BodySizeOf, IdOf, Outbound, Inbound, Handed, Closes, FirstConnection;
      assert inbound != Null;
      TakeHeader(bytes);
      if !success {
        OnClose();
        return;
      }
      if |bytes| == 0 {
        NextRead(Blank, HeaderRead);
        return;
      }
      if |bytes| != HEADER_SIZE {
        OnClose();
        return;
      }
      if 0 < BodySizeOf(bytes) {
        NextRead(Headed(bytes), BodyRead(BodySizeOf(bytes)));
        return;
      }
      NextPacket(Packet(IdOf(bytes), []), alloc);
    }

    /** The bytes that a read has brought are taken. */
    method TakeHeader(bytes: seq<Byte>)
      requires InStep() && FirstConnection() && reading.HeaderRead? && |bytes| <= HEADER_SIZE
      modifies this`reading, this`taken
      ensures FirstConnection() && connects > 0 && reading.NoRead? && taken == old(taken) + bytes
      ensures
        var complete := |bytes| == HEADER_SIZE && BodySizeOf(bytes) == 0;
        && earlier + Parse(taken).packets == routed + (if complete then [Packet(IdOf(bytes), [])] else [])
        && Parse(taken).rest == if complete then [] else bytes
    {
      hide Parse, BodySizeOf, IdOf;
      ParseMore(taken, bytes);
      assert [] + bytes == bytes;
      if |bytes| < HEADER_SIZE {
        ShortHeader(bytes);
      } else {
        ParseHeader(bytes);
      }
      reading := NoRead;
      taken := taken + bytes;
    }

    method TakeBody(bytes: seq<Byte>)
      requires InStep() && FirstConnection() && reading.BodyRead? && |bytes| <= reading.size
      modifies this`reading, this`taken
      ensures FirstConnection() && connects > 0 && reading.NoRead? && taken == old(taken) + bytes
      ensures
        var complete := |bytes| == old(reading).size;
        && earlier + Parse(taken).packets == routed + (if complete then [Packet(IdOf(inbound.header), bytes)] else [])
        && (complete ==> Parse(taken).rest == [])
    {
      hide Parse, BodySizeOf, IdOf;
      ParseMore(taken, bytes);
      ParseBody(inbound.header, bytes);
      reading := NoRead;
      taken := taken + bytes;
    }

    /** `read_body`. */
    method ReadBody(success: bool, bytes: seq<Byte>, alloc: bool)
      requires Valid() && reading.BodyRead? && |bytes| <= reading.size && (!success ==> |bytes| < reading.size)
      modifies this`is_connected, this`closings, this`closes, this`inbound, this`reading, this`taken,
               this`inbound_q, this`polls, this`routed
      ensures Valid() && taken == old(taken) + bytes
      ensures is_connected == (old(is_connected) && success && |bytes| == old(reading).size && alloc)
      ensures reading.NoRead? <==> !is_connected
    {
      hide Parse, BodySizeOf, IdOf, Outbound, Inbound, Handed, Closes, FirstConnection;
      var n := reading.size;
      assert inbound != Null;
      TakeBody(bytes);
      if !success {
        OnClose();
        return;
      }
      if |bytes| != n {
        OnClose();
        return;
      }
      NextPacket(Packet(IdOf(inbound.header), bytes), alloc);
    }

    /** How both end: the packet is routed after the next read has begun, or although it could
        not begin. */
    method NextPacket(packet: Packet, alloc: bool)
      requires Outbound() && Inbound() && Handed() && Closes() && FirstConnection() && (clean ==> Flowing())
      requires reading.NoRead? && connects > 0
      requires earlier + Parse(taken).packets == routed + [packet] && Parse(taken).rest == []
      modifies this`is_connected, this`closings, this`closes, this`inbound, this`reading, this`inbound_q, this`polls, this`routed
      ensures Valid() && is_connected == (old(is_connected) && alloc) && (reading.NoRead? <==> !is_connected)
      ensures inbound_q == old(inbound_q) + [packet] && polls == 1
    {
      hide Parse, Outbound, Inbound, Handed, Closes;
      NextHeader(alloc);
      Route(packet);
    }

    method NextHeader(alloc: bool)
      requires Closes() && reading.NoRead?
      modifies this`is_connected, this`closings, this`closes, this`inbound, this`reading
      ensures Closes() && is_connected == (old(is_connected) && alloc)
      ensures if is_connected then inbound.Blank? && reading.HeaderRead? else reading.NoRead?
    {
      hide Closes;
      if alloc {
        inbound := Blank;
        if is_connected {
          reading := HeaderRead;
        }
      } else {
        inbound := Null;
        OnClose();
      }
    }

    /** The next `async_read`, unless the session has been closed. */
    method NextRead(slot: Slot, read: Read)
      requires reading.NoRead? && FirstConnection() && connects > 0 && routed == earlier + Parse(taken).packets
      requires
        if read.HeaderRead? then slot.Blank? && Parse(taken).rest == []
        else slot.Headed? && |slot.header| == HEADER_SIZE && read == BodyRead(BodySizeOf(slot.header))
             && BodySizeOf(slot.header) > 0 && Parse(taken).rest == slot.header
      modifies this`inbound, this`reading
      ensures InStep() && FirstConnection() && reading == if is_connected then read else NoRead
    {
      hide Parse, BodySizeOf;
      inbound := slot;
      if is_connected {
        reading := read;
      }
    }

    /** Whether the event can happen now. */
    predicate Enabled(e: Event)
      reads this
    {
      match e
      case Connect(_, _) => !is_connected && reading.NoRead?
      case Close => true
      case RunClose => closes > 0
      case Send(_) => true
      case RunSend(i) => i < |sends|
      case WriteDone(_) => writing != []
      case Poll => polls > 0
      case ReadDone(success, bytes, _) =>
        match reading
        case NoRead => false
        case HeaderRead =>
          |bytes| <= HEADER_SIZE && (!success ==> |bytes| < HEADER_SIZE)
          && (|bytes| == HEADER_SIZE ==> BodySizeOf(bytes) <= RAW_SIZE)
        case BodyRead(n) => |bytes| <= n && (!success ==> |bytes| < n)
    }

    /** One event. A session whose queue has no write under way stays so until it is closed; one
        whose route is not bound never hands anything on. */
    method Step(e: Event)
      requires Valid() && Enabled(e)
      modifies this
      ensures Valid()
      ensures !old(Flowing()) && is_connected ==> !Flowing()
      ensures !old(route_bound) ==> !route_bound && delivered == old(delivered)
    {
      hide Valid, Parse, BodySizeOf;
      match e {
        case Connect(success, alloc) => Connect(success, alloc);
        case Close => CloseFromOutside();
        case RunClose => RunClose();
        case Send(out) => var ok := OnSend(out);
        case RunSend(i) => RunSend(i);
        case WriteDone(success) => Write(success);
        case Poll => RoutePoll();
        case ReadDone(success, bytes, alloc) => FinishRead(success, bytes, alloc);
      }
    }

    /** The completion of the read in progress. */
    method FinishRead(success: bool, bytes: seq<Byte>, alloc: bool)
      requires Valid() && Enabled(ReadDone(success, bytes, alloc))
      modifies this`is_connected, this`closings, this`closes, this`inbound, this`reading, this`taken,
               this`inbound_q, this`polls, this`routed
      ensures Valid() && (is_connected ==> old(is_connected))
    {
      hide Valid, Parse, BodySizeOf;
      if reading.HeaderRead? {
        ReadHeader(success, bytes, alloc);
      } else {
        ReadBody(success, bytes, alloc);
      }
    }

    method CloseFromOutside()
      requires Valid()
      modifies this`is_connected, this`closings, this`closes
      ensures Valid() && !is_connected
    {
      OnClose();
    }

    lemma ValidIsSafe()
      requires Valid()
      ensures Safe(Now(), bound)
      ensures bound && attempts <= 1 ==> clean && delivered == polled
      ensures connects <= 1 ==> clean && earlier == []
    {
      hide Parse;
    }

    function Now(): Trace
      reads this
    {
      Trace(is_connected, clean, outbound_q, writing, queued, started, released, sends,
            inbound_q, polls, polled, delivered, route_bound, taken, earlier,
            attempts, connects, failures, closings, disconnects, closes)
    }
  }

  lemma ShortHeader(bytes: seq<Byte>)
    requires |bytes| < HEADER_SIZE
    ensures Parse(bytes) == Reading([], bytes)
  {
  }

  /** The invariant over every run: events in any order, each taking place if it can. A session
      that connects once is clean; one that is bound and makes one attempt, as the handler of the
      client has it, hands on all that it polls. */
  method Run(bound: bool, events: seq<Event>) returns (t: Trace)
    ensures Safe(t, bound)
    ensures t.connects <= 1 ==> t.clean && t.earlier == []
    ensures bound && t.attempts <= 1 ==> t.clean && t.delivered == t.polled
  {
    var s := new TcpSession(bound);
    for i := 0 to |events|
      invariant fresh(s) && s.Valid() && s.bound == bound
    {
      if s.Enabled(events[i]) {
        s.Step(events[i]);
      }
    }
    s.ValidIsSafe();
    return s.Now();
  }

  // ---------- What the peer sends ----------

  /** The bytes read so far are a beginning of what the peer sends: so are the packets. */
  lemma PacketsArriveInOrder(ps: seq<Packet>, taken: seq<Byte>)
    requires (forall i :: 0 <= i < |ps| ==> Sendable(ps[i])) && taken <= AllFrames(ps)
    ensures Parse(taken).packets <= ps && (taken == AllFrames(ps) ==> Parse(taken).packets == ps)
  {
    hide Parse, AllFrames;
    var more := AllFrames(ps)[|taken|..];
    assert taken + more == AllFrames(ps) == AllFrames(ps) + [];
    ShortHeader([]);
    FramesRoundTrip(ps, []);
    ParseMore(taken, more);
  }

  /** While a session is on its first connection and the peer sends frames, what is polled, and
      what is handed on, is a beginning of the packets sent, in their order; all of them once every
      byte has been read and the queue is empty. */
  lemma PolledInOrder(t: Trace, bound: bool, ps: seq<Packet>)
    requires Safe(t, bound) && t.earlier == []
    requires (forall i :: 0 <= i < |ps| ==> Sendable(ps[i])) && t.taken <= AllFrames(ps)
    ensures t.delivered <= t.polled <= ps
    ensures t.taken == AllFrames(ps) && t.inboundQueue == [] ==> t.polled == ps
  {
    hide Parse, AllFrames;
    PacketsArriveInOrder(ps, t.taken);
    assert t.polled + t.inboundQueue == Parse(t.taken).packets;
  }

  /** That for every run, and for the client, which binds the route and attempts once: what is
      handed on is all that is polled. */
  method RunInOrder(bound: bool, events: seq<Event>, ghost ps: seq<Packet>) returns (t: Trace)
    requires forall i :: 0 <= i < |ps| ==> Sendable(ps[i])
    ensures Safe(t, bound)
    ensures t.connects <= 1 && t.taken <= AllFrames(ps) ==> t.delivered <= t.polled <= ps
    ensures t.connects <= 1 && t.taken == AllFrames(ps) && t.inboundQueue == [] ==> t.polled == ps
    ensures bound && t.attempts <= 1 ==> t.delivered == t.polled
  {
    hide Parse, AllFrames, Safe;
    t := Run(bound, events);
    if t.connects <= 1 && t.taken <= AllFrames(ps) {
      PolledInOrder(t, bound, ps);
    }
  }

  // ---------- One session, several attempts ----------

  // The handler of the client makes a new session for each attempt; these are facts about the
  // class when `tcp_session::on_connect` is called again on the same session.

  /** A second connection may find a buffer left over from the first. Then nothing is ever
      written: a call of `on_send` writes only into an empty queue. */
  method ReconnectCanBlock(a: Buffer, b: Buffer, c: Buffer) returns (t: Trace)
    ensures Safe(t, true) && t.connects == 2 && !t.clean
    ensures t.connected && t.outboundQueue == [b, c] && t.writing == [] && t.sends == [] && t.polls == 0
  {
    hide Parse, Safe, TcpSession.Valid;
    var s := LeaveOneBehind(a, b);
    s.Connect(true, true);
    s.SendAlone(c);
    s.ValidIsSafe();
    return s.Now();
  }

  /** Closed while two buffers are queued. */
  method LeaveOneBehind(a: Buffer, b: Buffer) returns (s: TcpSession)
    ensures fresh(s) && s.Valid() && !s.is_connected && s.reading.NoRead? && s.bound
    ensures s.outbound_q == [b] && s.writing == [] && s.sends == [] && s.polls == 0 && s.connects == 1 && s.clean
  {
    hide Parse, BodySizeOf, TcpSession.Valid;
    s := QueueTwo(a, b);
    s.CloseFromOutside();
    s.Write(false);
    s.ReadHeader(false, [], true);
  }

  method QueueTwo(a: Buffer, b: Buffer) returns (s: TcpSession)
    ensures fresh(s) && s.Valid() && s.is_connected && s.reading.HeaderRead? && s.bound
    ensures s.outbound_q == [a, b] && s.writing == [a] && s.sends == [] && s.polls == 0 && s.connects == 1 && s.clean
  {
    hide Parse, TcpSession.Valid;
    s := new TcpSession(true);
    s.Connect(true, true);
    s.SendAlone(a);
    s.SendAlone(b);
  }

  /** After a failed attempt a packet is read and polled, and not handed on. */
  method FailedAttemptDropsPackets(id: nat) returns (t: Trace)
    requires id < 0x1_0000
    ensures Safe(t, true) && t.connected && t.connects == t.failures == 1
    ensures t.polled == [Packet(id, [])] && t.delivered == []
  {
    hide Parse, BodySizeOf, IdOf, CrcOf, Header, Safe, TcpSession.Valid;
    HeaderFields(id, 0);
    var s := ConnectSecondTime();
    s.ReadHeader(true, Header(id, 0), true);
    s.RoutePoll();
    s.ValidIsSafe();
    return s.Now();
  }

  method ConnectSecondTime() returns (s: TcpSession)
    ensures fresh(s) && s.Valid() && s.is_connected && s.reading.HeaderRead? && s.bound && !s.route_bound
    ensures s.connects == s.failures == 1 && s.inbound_q == [] && s.polled == s.delivered == []
  {
    hide Parse, TcpSession.Valid;
    s := new TcpSession(true);
    s.Connect(false, true);
    s.Connect(true, true);
  }
}
