/** The gateway's shared registry and the per-connection read loop.

    Three module-level dictionaries are shared by every connection:
    `connections` (IMEI to device object), `devices` (IMEI to the stream
    writer of the device's connection) and `device_data_store` (IMEI to the
    replies stored for it).  `handle_connection` reads chunks, classifies
    each one and updates the dictionaries; when the loop ends, normally or
    by an exception, its `finally` block unregisters the connection's
    device.  `send_data` looks a device up, writes the command text to it
    and, after a grace period, answers with the latest stored reply.

    Writers are identified by a number.  Socket writes become events.  The
    acknowledgement and the forwarding of a reply swallow their own write
    failures, so those are not modelled; the command write of `send_data`
    re-raises its failure as a 500, and its outcome is a parameter there.
    Each read-loop function here is one uninterrupted run of the event
    loop between two awaits, so connections interleave at the granularity
    of these steps.  `send_data` runs in uvicorn on a thread of its own and
    could interleave with them anywhere; it is treated as atomic with
    respect to the read loops.  The query string of an HTTP-like request is extracted by a
    parameter standing for `urlparse` and `parse_qs`.
 */
module Gateway {
  import opened Wire
  import Utf8
  import Handshake
  import Classify
  import Codec12
  import AvlDecode

  type Imei = string

  /** A connection's stream writer, by identity. */
  type Writer = nat

  /** A `Device` object: its IMEI and the writer of the connection that
      registered it. */
  datatype Device = Device(imei: Imei, writer: Writer)

  datatype Registry = Registry(
    connections: map<Imei, Device>,
    devices: map<Imei, Writer>,
    store: map<Imei, seq<Codec12.Reply>>)

  /** The two fixed Codec 12 command frames the loop can send. */
  datatype Command = GetInfo | GetIo

  datatype Event =
    | Ack(to: Writer)
    | CommandFrame(to: Writer, command: Command)
    | ReplyForwarded(to: Writer, reply: Codec12.Reply)
    | CommandText(to: Writer, text: seq<byte>)

  /** The loop's local state: its writer and the `device` variable. */
  datatype Session = Session(writer: Writer, device: Option<Device>)

  /** The `id` and `command` query values of an HTTP-like request. */
  datatype Query = Query(id: Option<string>, command: Option<string>)

  /** The state after one chunk, the events it caused, and whether the loop
      goes on reading. */
  datatype Step = Step(registry: Registry, session: Session, events: seq<Event>, open: bool)

  /** Python truthiness of an optional string. */
  predicate Present(s: Option<string>)
  {
    s.Some? && |s.value| > 0
  }

  /** What the source keeps true of the three dictionaries: `connections`
      and `devices` have the same IMEIs, and each device object carries its
      own IMEI and the writer `devices` holds for it. */
  predicate Consistent(reg: Registry)
  {
    && reg.connections.Keys == reg.devices.Keys
    && forall k :: k in reg.connections ==>
         reg.connections[k].imei == k && reg.connections[k].writer == reg.devices[k]
  }

  /** `Device(imei, writer)`, which sets `connections[imei] = True` and
      `devices[imei] = writer`, followed by `connections[imei] = device`;
      the intermediate `True` is overwritten before the loop yields. */
  function Register(reg: Registry, imei: Imei, writer: Writer): Registry
  {
    reg.(connections := reg.connections[imei := Device(imei, writer)],
         devices := reg.devices[imei := writer])
  }

  /** Appends a reply to an IMEI's list, creating the list when missing. */
  function Append(store: map<Imei, seq<Codec12.Reply>>, imei: Imei, reply: Codec12.Reply): (s: map<Imei, seq<Codec12.Reply>>)
    ensures s.Keys == store.Keys + {imei}
    ensures s[imei] == (if imei in store then store[imei] else []) + [reply]
    ensures forall k :: k in store && k != imei ==> s[k] == store[k]
  {
    store[imei := (if imei in store then store[imei] else []) + [reply]]
  }

  /** The HTTP-like branch.  With both query values present the loop's
      `device` becomes `connections.get(id)`; for `getinfo` and `getio` the
      fixed command frame goes to `devices[device.imei]`, a missing entry
      raising KeyError and ending the loop.  The reply those helpers look
      for is never found, since the store holds only decoded dictionaries,
      so nothing is written back.  The loop then reads on. */
  function HttpStep(reg: Registry, sess: Session, q: Query): (s: Step)
    ensures s.registry == reg && s.session.writer == sess.writer
    ensures !(Present(q.id) && Present(q.command)) ==> s == Step(reg, sess, [], true)
    ensures Present(q.id) && Present(q.command) ==>
              s.session.device == (if q.id.value in reg.connections then Some(reg.connections[q.id.value]) else None)
    ensures Present(q.id) && Present(q.command) ==>
              var sends := q.id.value in reg.connections && (q.command.value == "getinfo" || q.command.value == "getio");
              && (s.open <==> !sends || reg.connections[q.id.value].imei in reg.devices)
              && (!s.open || !sends ==> s.events == [])
              && (s.open && sends ==>
                    s.events == [CommandFrame(reg.devices[reg.connections[q.id.value].imei],
                                              if q.command.value == "getinfo" then GetInfo else GetIo)])
  {
    if !(Present(q.id) && Present(q.command)) then Step(reg, sess, [], true)
    else
      var id := q.id.value;
      if id !in reg.connections then Step(reg, sess.(device := None), [], true)
      else
        var device := reg.connections[id];
        var s := sess.(device := Some(device));
        var cmd := q.command.value;
        if cmd != "getinfo" && cmd != "getio" then Step(reg, s, [], true)
        else if device.imei !in reg.devices then Step(reg, s, [], false)
        else Step(reg, s, [CommandFrame(reg.devices[device.imei], if cmd == "getinfo" then GetInfo else GetIo)], true)
  }

  /** One chunk of `handle_connection`'s loop. */
  function Receive(reg: Registry, sess: Session, frame: seq<byte>, numeric: char -> bool, query: seq<byte> -> Query): (s: Step)
    requires |frame| > 0
    ensures s.session.writer == sess.writer
  {
    var kind := Classify.Classify(frame, numeric);
    if kind.HandshakeFrame? then
      var imei := kind.imei;
      Step(Register(reg, imei, sess.writer), sess.(device := Some(Device(imei, sess.writer))), [Ack(sess.writer)], true)
    else if kind.HandshakeFault? then
      Step(reg, sess, [], false)
    else if kind.HttpRequest? then
      HttpStep(reg, sess, query(frame))
    else if kind.AvlFrame? then
      // the parser returns 0 on success, which stores nothing; it raises on a malformed frame
      var failed := sess.device.Some? && AvlDecode.Codec8eParse(frame, false).Err?;
      Step(reg, sess, [], !failed)
    else if kind.ReplyFrame? && sess.device.Some? then
      var imei := sess.device.value.imei;
      match Codec12.ParseResponse(frame, imei)
      case None => Step(reg, sess, [], true)
      case Some(reply) =>
        Step(reg.(store := Append(reg.store, imei, reply)), sess, [ReplyForwarded(sess.writer, reply)], true)
    else
      // a reply with no registered device, or an unrecognised chunk
      Step(reg, sess, [], true)
  }

  /** The `finally` block.  `del connections[imei]` raises when the IMEI is
      gone, and then nothing else is removed; likewise `del devices[imei]`
      stops the removal of the store entry. */
  function Disconnect(reg: Registry, sess: Session): (r: Registry)
    ensures sess.device.None? ==> r == reg
    ensures sess.device.Some? && sess.device.value.imei !in reg.connections ==> r == reg
  {
    match sess.device
    case None => reg
    case Some(d) =>
      if d.imei !in reg.connections then reg
      else
        var r1 := reg.(connections := reg.connections - {d.imei});
        if d.imei !in reg.devices then r1
        else r1.(devices := reg.devices - {d.imei}, store := reg.store - {d.imei})
  }

  /** The loop over the chunks one connection delivers; the end of the
      sequence is the empty read that breaks the loop. */
  function Serve(reg: Registry, sess: Session, frames: seq<seq<byte>>, numeric: char -> bool, query: seq<byte> -> Query): (r: (Registry, Session, seq<Event>))
    requires forall i :: 0 <= i < |frames| ==> |frames[i]| > 0
    ensures r.1.writer == sess.writer
    decreases |frames|
  {
    if frames == [] then (reg, sess, [])
    else
      var s := Receive(reg, sess, frames[0], numeric, query);
      if !s.open then (s.registry, s.session, s.events)
      else
        var rest := Serve(s.registry, s.session, frames[1..], numeric, query);
        (rest.0, rest.1, s.events + rest.2)
  }

  /** A whole connection: the loop, then the `finally` block. */
  function Connection(reg: Registry, writer: Writer, frames: seq<seq<byte>>, numeric: char -> bool, query: seq<byte> -> Query): (Registry, seq<Event>)
    requires forall i :: 0 <= i < |frames| ==> |frames[i]| > 0
  {
    var r := Serve(reg, Session(writer, None), frames, numeric, query);
    (Disconnect(r.0, r.1), r.2)
  }

  // ---- send_data ----

  datatype Latest = Stored(reply: Codec12.Reply) | NoResponse

  /** The route's outcome: a status code, or the answer dictionary. */
  datatype ApiResult = Failure(status: nat) | Answer(deviceId: string, command: string, parsed: Latest)

  /** `device_data_store[id][-1]`, or the "No response from device" marker
      when the list is missing or empty. */
  function LatestEntry(reg: Registry, id: Imei): (l: Latest)
    ensures l.Stored? <==> id in reg.store && |reg.store[id]| > 0
    ensures l.Stored? ==> l.reply == reg.store[id][|reg.store[id]| - 1]
  {
    if id in reg.store && |reg.store[id]| > 0 then Stored(reg.store[id][|reg.store[id]| - 1])
    else NoResponse
  }

  /** `send_data`: `before` is the registry when the request arrives and
      `after` the registry once the grace period is over; `written` says
      whether writing and draining the command succeeded.  An unknown id
      raises a 404 that the route's own handler turns into a 500, and so
      does a failed write, which `send_command_to_device` re-raises. */
  function SendData(before: Registry, after: Registry, id: Imei, command: string, written: bool): (r: (ApiResult, seq<Event>))
    ensures r.0.Failure? <==> id !in before.devices || !written
    ensures r.0.Failure? ==> r.0.status == 500
    ensures id !in before.devices ==> r.1 == []
    ensures id in before.devices ==> r.1 == [CommandText(before.devices[id], Utf8.Encode(command))]
    ensures r.0.Answer? ==> r.0.deviceId == id && r.0.command == command
    ensures r.0.Answer? ==> r.0.parsed == LatestEntry(after, id)
  {
    if id !in before.devices then (Failure(500), [])
    else
      var events := [CommandText(before.devices[id], Utf8.Encode(command))];
      if !written then (Failure(500), events)
      else (Answer(id, command, LatestEntry(after, id)), events)
  }

  // ---- lifecycle ----

  /** A handshake registers the IMEI in both dictionaries, points the
      loop's `device` at it and acknowledges. */
  lemma HandshakeRegisters(reg: Registry, sess: Session, frame: seq<byte>, numeric: char -> bool, query: seq<byte> -> Query, imei: Imei)
    requires |frame| > 0 && Classify.Classify(frame, numeric) == Classify.HandshakeFrame(imei)
    ensures var s := Receive(reg, sess, frame, numeric, query);
            && s.open && s.events == [Ack(sess.writer)]
            && s.session.device == Some(Device(imei, sess.writer))
            && s.registry.connections[imei] == Device(imei, sess.writer)
            && s.registry.devices[imei] == sess.writer
            && s.registry.store == reg.store
            && (forall k :: k != imei ==> (k in s.registry.connections <==> k in reg.connections))
            && (forall k :: k != imei && k in reg.connections ==> s.registry.connections[k] == reg.connections[k])
            && (forall k :: k != imei ==> (k in s.registry.devices <==> k in reg.devices))
            && (forall k :: k != imei && k in reg.devices ==> s.registry.devices[k] == reg.devices[k])
  {
  }

  /** A handshake whose text is not UTF-8 ends the loop at once, with the
      registry, the session and the writers untouched; the `finally` block
      then runs for whatever device the loop held before. */
  lemma MalformedHandshakeCloses(reg: Registry, sess: Session, frame: seq<byte>, numeric: char -> bool, query: seq<byte> -> Query, i: nat)
    requires |frame| > 0 && Handshake.DeclaredLength(frame) == |frame| - 2
    requires 2 <= i < |frame| && Utf8.NeverInText(frame[i])
    ensures Receive(reg, sess, frame, numeric, query) == Step(reg, sess, [], false)
  {
    Handshake.MalformedTextFaults(frame, numeric, i);
  }

  /** On a consistent registry the in-band request never ends the loop: a
      `getinfo` or `getio` for a registered id sends the fixed command frame
      to that device's own writer, which is another connection's unless the
      id is this connection's device, and any other request writes nothing. */
  lemma InBandDispatch(reg: Registry, sess: Session, q: Query)
    requires Consistent(reg) && Present(q.id) && Present(q.command)
    ensures var s := HttpStep(reg, sess, q);
            var id := q.id.value;
            var cmd := q.command.value;
            && s.open
            && (id !in reg.connections || (cmd != "getinfo" && cmd != "getio") ==> s.events == [])
            && (id in reg.connections && (cmd == "getinfo" || cmd == "getio") ==>
                  s.events == [CommandFrame(reg.devices[id], if cmd == "getinfo" then GetInfo else GetIo)]
                  && reg.devices[id] == reg.connections[id].writer)
  {
  }

  /** An HTTP-like chunk naming another registered IMEI re-points the loop's
      `device`, so the `finally` block unregisters that other device and
      leaves this connection's own registration in place. */
  lemma HttpRepointsFinally(reg: Registry, a: Imei, w: Writer, q: Query)
    requires Consistent(reg) && Present(q.id) && Present(q.command)
    requires q.id.value != a && q.id.value in reg.connections
    ensures var registered := Register(reg, a, w);
            var s := HttpStep(registered, Session(w, Some(Device(a, w))), q);
            var after := Disconnect(s.registry, s.session);
            && q.id.value !in after.connections && q.id.value !in after.devices
            && q.id.value !in after.store
            && after.connections[a] == Device(a, w) && after.devices[a] == w
  {
    var registered := Register(reg, a, w);
    assert Consistent(registered);
    InBandDispatch(registered, Session(w, Some(Device(a, w))), q);
  }

  /** A repeat handshake replaces the earlier registration. */
  lemma RepeatHandshakeOverwrites(reg: Registry, imei: Imei, w1: Writer, w2: Writer)
    ensures Register(Register(reg, imei, w1), imei, w2) == Register(reg, imei, w2)
  {
  }

  /** Disconnecting a registered device removes its IMEI from all three
      dictionaries and touches no other IMEI. */
  lemma DisconnectRemoves(reg: Registry, sess: Session)
    requires Consistent(reg) && sess.device.Some? && sess.device.value.imei in reg.connections
    ensures var imei := sess.device.value.imei;
            var r := Disconnect(reg, sess);
            && r.connections == reg.connections - {imei}
            && r.devices == reg.devices - {imei}
            && r.store == reg.store - {imei}
  {
  }

  /** Every step keeps the dictionaries consistent. */
  lemma ReceiveConsistent(reg: Registry, sess: Session, frame: seq<byte>, numeric: char -> bool, query: seq<byte> -> Query)
    requires |frame| > 0 && Consistent(reg)
    ensures Consistent(Receive(reg, sess, frame, numeric, query).registry)
  {
  }

  lemma DisconnectConsistent(reg: Registry, sess: Session)
    requires Consistent(reg)
    ensures Consistent(Disconnect(reg, sess))
  {
  }

  /** A chunk the loop does not recognise changes nothing and the loop
      reads on. */
  lemma IgnoredChangesNothing(reg: Registry, sess: Session, frame: seq<byte>, numeric: char -> bool, query: seq<byte> -> Query)
    requires |frame| > 0 && Classify.Classify(frame, numeric) == Classify.Ignored
    ensures Receive(reg, sess, frame, numeric, query) == Step(reg, sess, [], true)
  {
  }

  /** AVL data never reaches the store: the loop either reads on with the
      registry unchanged or, on a malformed frame from a registered
      connection, ends. */
  lemma AvlNeverStored(reg: Registry, sess: Session, frame: seq<byte>, numeric: char -> bool, query: seq<byte> -> Query)
    requires |frame| > 0 && Classify.Classify(frame, numeric) == Classify.AvlFrame
    ensures var s := Receive(reg, sess, frame, numeric, query);
            s.registry == reg && s.session == sess && s.events == []
            && (s.open <==> sess.device.None? || AvlDecode.DecodeFrame(frame).Ok?)
  {
  }

  /** A Codec 12 reply on a registered connection is what `send_data`
      returns next, provided nothing else is stored for that IMEI during the
      grace period. */
  lemma ReplyIsLatest(reg: Registry, sess: Session, frame: seq<byte>, numeric: char -> bool, query: seq<byte> -> Query, command: string)
    requires |frame| > 0 && Classify.Classify(frame, numeric) == Classify.ReplyFrame
    requires |frame| >= Codec12.TextOffset
    requires sess.device.Some? && sess.device.value.imei in reg.devices
    ensures var imei := sess.device.value.imei;
            var s := Receive(reg, sess, frame, numeric, query);
            SendData(reg, s.registry, imei, command, true).0
              == Answer(imei, command, Stored(Codec12.ParseResponse(frame, imei).value))
  {
    Classify.ClassifyAgrees(frame, numeric);
  }

  /** `send_data` for an id that is not connected writes nothing. */
  lemma UnknownIdWritesNothing(before: Registry, after: Registry, id: Imei, command: string, written: bool)
    requires id !in before.devices
    ensures SendData(before, after, id, command, written) == (Failure(500), [])
  {
  }

  /** A failed command write to a connected device is answered with 500,
      whatever the store holds. */
  lemma FailedWriteIs500(before: Registry, after: Registry, id: Imei, command: string)
    requires id in before.devices
    ensures SendData(before, after, id, command, false).0 == Failure(500)
  {
  }

  // ---- whole connections ----

  /** The loop keeps the dictionaries consistent whatever it reads. */
  lemma {:induction false} ServeConsistent(reg: Registry, sess: Session, frames: seq<seq<byte>>, numeric: char -> bool, query: seq<byte> -> Query)
    requires forall i :: 0 <= i < |frames| ==> |frames[i]| > 0
    requires Consistent(reg)
    ensures Consistent(Serve(reg, sess, frames, numeric, query).0)
    decreases |frames|
  {
    if frames != [] {
      var s := Receive(reg, sess, frames[0], numeric, query);
      ReceiveConsistent(reg, sess, frames[0], numeric, query);
      if s.open {
        ServeConsistent(s.registry, s.session, frames[1..], numeric, query);
      }
    }
  }

  /** After a connection ends, the IMEI its loop last pointed at is gone
      from all three dictionaries, and the dictionaries are consistent. */
  lemma ConnectionLeavesNoTrace(reg: Registry, writer: Writer, frames: seq<seq<byte>>, numeric: char -> bool, query: seq<byte> -> Query)
    requires forall i :: 0 <= i < |frames| ==> |frames[i]| > 0
    requires Consistent(reg)
    ensures var r := Serve(reg, Session(writer, None), frames, numeric, query);
            var after := Connection(reg, writer, frames, numeric, query).0;
            && Consistent(after)
            && (r.1.device.Some? ==> var imei := r.1.device.value.imei;
                  imei !in after.connections && imei !in after.devices
                  && (imei in r.0.connections ==> imei !in after.store))
  {
    var r := Serve(reg, Session(writer, None), frames, numeric, query);
    ServeConsistent(reg, Session(writer, None), frames, numeric, query);
    DisconnectConsistent(r.0, r.1);
    if r.1.device.Some? && r.1.device.value.imei in r.0.connections {
      DisconnectRemoves(r.0, r.1);
    }
  }
}
