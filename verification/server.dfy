/** The wiring of server2.py: one hub shared by the WebSocket protocol, the
    IRC bot, the push button and the heartbeat. Every event is handled to
    completion before the next (the single-threaded reactor), so a run is a
    sequence of events and the output is the concatenation of their sends. */
module Server {
  import opened Options
  import opened Utf8
  import opened Hub
  import Irc
  import Button

  /** `BroadcastServerProtocol.onMessage`: a text frame is re-broadcast as
      `"<payload> from <peer>"`; a binary frame is ignored. The payload is
      taken as already decoded text. */
  function OnMessage(sender: Client, payload: string, isBinary: bool): (r: Option<string>)
    ensures r.Some? <==> !isBinary
    ensures r.Some? ==>
              && |r.value| == |payload| + 6 + |sender.peer|
              && r.value[..|payload|] == payload
              && r.value[|payload|..|payload| + 6] == " from "
              && r.value[|payload| + 6..] == sender.peer
  {
    if isBinary then None else Some(payload + " from " + sender.peer)
  }

  /** Something the reactor delivers to the application. */
  datatype Event =
    | WsOpen(c: Client)                                         // onOpen
    | WsLost(c: Client)                                         // connectionLost
    | WsMessage(sender: Client, payload: string, isBinary: bool) // onMessage
    | ChatLine(channel: string, msg: string)                    // privmsg
    | SerialLine(line: seq<byte>)                               // lineReceived
    | TimerFired                                                // the scheduled tick

  /** An observable effect: a WebSocket send, or bytes written to the serial device. */
  datatype Output = Send(d: Delivery) | Serial(data: string)

  /** The application state: the hub, the nickname the bot is signed on with, and
      whether the serial protocol is still attached. */
  datatype State = State(hub: Hub, nickname: string, serialUp: bool)

  datatype Outcome = Outcome(state: State, out: seq<Output>)

  predicate Valid(st: State) {
    NoDup(st.hub.clients)
  }

  /** Every send in `out` goes to one of `clients`. */
  predicate SendsWithin(out: seq<Output>, clients: seq<Client>) {
    forall i :: 0 <= i < |out| && out[i].Send? ==> out[i].d.to in clients
  }

  function AsOutputs(ds: seq<Delivery>): (r: seq<Output>)
    ensures |r| == |ds|
    ensures forall i :: 0 <= i < |r| ==> r[i] == Send(ds[i])
    decreases |ds|
  {
    if |ds| == 0 then [] else [Send(ds[0])] + AsOutputs(ds[1..])
  }

  /** Broadcast the message if there is one. */
  function Emit(clients: seq<Client>, m: Option<string>): seq<Delivery> {
    match m
    case None => []
    case Some(text) => Broadcast(clients, text)
  }

  /** Carry out the button bridge's actions against the hub's clients. */
  function ButtonOutputs(clients: seq<Client>, acts: seq<Button.Action>): (r: seq<Output>)
    ensures SendsWithin(r, clients)
    decreases |acts|
  {
    if |acts| == 0 then []
    else
      var first := match acts[0]
        case HubBroadcast(m) => AsOutputs(Broadcast(clients, m))
        case WriteSerial(d) => [Serial(d)];
      var rest := ButtonOutputs(clients, acts[1..]);
      assert SendsWithin(first, clients);
      assert forall i :: |first| <= i < |first + rest| ==> (first + rest)[i] == rest[i - |first|];
      first + rest
  }

  /** Handle one event. Only the registry events change the client list,
      only the timer changes the counter, and every send goes to a client
      registered when the event arrives. */
  function Handle(st: State, e: Event): (o: Outcome)
    requires Valid(st)
    ensures Valid(o.state)
    ensures o.state.nickname == st.nickname
    ensures !e.WsOpen? && !e.WsLost? ==> o.state.hub.clients == st.hub.clients
    ensures o.state.hub.tickcount == st.hub.tickcount + (if e.TimerFired? then 1 else 0)
    ensures SendsWithin(o.out, st.hub.clients)
    ensures e.WsOpen? || e.WsLost? ==> o.out == []
  {
    var clients := st.hub.clients;
    match e
    case WsOpen(c) => Outcome(st.(hub := Register(st.hub, c)), [])
    case WsLost(c) => Outcome(st.(hub := Unregister(st.hub, c)), [])
    case WsMessage(sender, payload, isBinary) =>
      Outcome(st, AsOutputs(Emit(clients, OnMessage(sender, payload, isBinary))))
    case ChatLine(channel, msg) =>
      Outcome(st, AsOutputs(Irc.Privmsg(st.hub, st.nickname, channel, msg)))
    case SerialLine(line) =>
      if !st.serialUp then Outcome(st, [])
      else
        (match Button.LineReceived(line)
         case DecodeError => Outcome(st.(serialUp := false), [])
         case Handled(acts) => Outcome(st, ButtonOutputs(clients, acts)))
    case TimerFired =>
      var step := Tick(st.hub);
      Outcome(st.(hub := step.hub), AsOutputs(step.out))
  }

  /** How many timer events a run holds. */
  function TimerCount(es: seq<Event>): nat
    decreases |es|
  {
    if |es| == 0 then 0 else (if es[0].TimerFired? then 1 else 0) + TimerCount(es[1..])
  }

  /** A run of events handled one after another. Over any run the client
      list stays free of duplicates, the nickname is kept, and the tick
      counter has gone up by exactly the number of timer events. */
  function Run(st: State, es: seq<Event>): (o: Outcome)
    requires Valid(st)
    ensures Valid(o.state)
    ensures o.state.nickname == st.nickname
    ensures o.state.hub.tickcount == st.hub.tickcount + TimerCount(es)
    decreases |es|
  {
    if |es| == 0 then Outcome(st, [])
    else
      var first := Handle(st, es[0]);
      var rest := Run(first.state, es[1..]);
      Outcome(rest.state, first.out + rest.out)
  }

  /** Start-up: the factory's constructor has ticked once, to nobody, and
      the serial protocol is attached. */
  function Start(nickname: string): (st: State)
    ensures Valid(st)
    ensures st.hub.clients == [] && st.hub.tickcount == 1
  {
    State(NewHub().hub, nickname, true)
  }

  /** A text frame from a client reaches every client, including the sender
      if registered, exactly once; a binary frame reaches nobody. */
  lemma WsMessageFansOut(st: State, sender: Client, payload: string, isBinary: bool)
    requires Valid(st)
    ensures isBinary ==> Handle(st, WsMessage(sender, payload, isBinary)).out == []
    ensures !isBinary ==>
              |Handle(st, WsMessage(sender, payload, isBinary)).out| == |st.hub.clients| &&
              forall i :: 0 <= i < |st.hub.clients| ==>
                Handle(st, WsMessage(sender, payload, isBinary)).out[i] ==
                  Send(Delivery(st.hub.clients[i], payload + " from " + sender.peer))
  {
  }

  /** A button press on an attached device broadcasts the fixed message to
      every client and then writes `FLASH` to the device, once each. */
  lemma ButtonPressOutputs(st: State, line: seq<byte>)
    requires Valid(st) && st.serialUp && Decodes(line)
    ensures var o := Handle(st, SerialLine(line)).out;
            && |o| == |st.hub.clients| + 1
            && (forall i :: 0 <= i < |st.hub.clients| ==>
                  o[i] == Send(Delivery(st.hub.clients[i], Button.PushMessage)))
            && o[|st.hub.clients|] == Serial("FLASH\n")
  {
    var acts := [Button.HubBroadcast(Button.PushMessage), Button.WriteSerial("FLASH\n")];
    var clients := st.hub.clients;
    assert ButtonOutputs(clients, acts[1..]) == [Serial("FLASH\n")];
    assert ButtonOutputs(clients, acts) ==
      AsOutputs(Broadcast(clients, Button.PushMessage)) + [Serial("FLASH\n")];
  }
}
