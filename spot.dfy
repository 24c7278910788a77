/**
 * The discovery engine. A spot owns a control socket (broadcast port, 1901
 * by default) and a data socket (1902 by default). It advertises itself and
 * its channels with `alive`/`bye` broadcasts, answers `search` requests,
 * keeps a table of the host points it has heard from, and reports what it
 * hears as events.
 *
 * Sockets are logs of the datagrams sent on them plus their listener
 * registry; the spot's own events are a log of (event name, payload).
 * Inbound traffic is handed to the two socket handlers with the sender's
 * address; the clock (`Date.now()`) is a parameter.
 */
module Spot {
  import opened Values
  import Codec
  import Events
  import opened Message

  // ---------------------------------------------------------------------------
  // Names on the wire

  const TextHost: Text := [0x68, 0x6F, 0x73, 0x74]          // "host": a key, and a point type
  const TextCp: Text := [0x63, 0x70]                        // "cp"
  const KeyUuid: Text := [0x75, 0x75, 0x69, 0x64]           // "uuid"
  const KeyPort: Text := [0x70, 0x6F, 0x72, 0x74]           // "port"
  const KeyName: Text := [0x6E, 0x61, 0x6D, 0x65]           // "name"
  const KeyFrom: Text := [0x66, 0x72, 0x6F, 0x6D]           // "from"
  const KeyChannels: Text := [0x63, 0x68, 0x61, 0x6E, 0x6E, 0x65, 0x6C, 0x73]  // "channels"
  const KeyCode: Text := [0x63, 0x6F, 0x64, 0x65]           // "code"
  const KeyData: Text := [0x64, 0x61, 0x74, 0x61]           // "data": a key, and a message type
  const KeyChnn: Text := [0x63, 0x68, 0x6E, 0x6E]           // "chnn"
  const KeyActive: Text := [0x61, 0x63, 0x74, 0x69, 0x76, 0x65]  // "active"
  const TextStar: Text := [0x2A]                            // "*"
  const TextAlive: Text := [0x61, 0x6C, 0x69, 0x76, 0x65]   // "alive"
  const TextBye: Text := [0x62, 0x79, 0x65]                 // "bye"
  const TextSearch: Text := [0x73, 0x65, 0x61, 0x72, 0x63, 0x68]  // "search"
  const NamePrefix: Text := [0x68, 0x6E, 0x65, 0x74, 0x73, 0x70, 0x6F, 0x74, 0x2F]  // "hnetspot/"
  /** "255.255.255.255" */
  const BroadcastAddress: Text := [0x32, 0x35, 0x35, 0x2E, 0x32, 0x35, 0x35, 0x2E, 0x32, 0x35, 0x35, 0x2E, 0x32, 0x35, 0x35]

  const BroadcastPort: int := 1901
  const DataPort: int := 1902

  /** The spot's events and the sockets' events. */
  const EventAlive: string := "alive"
  const EventBye: string := "bye"
  const EventFound: string := "found"
  const EventData: string := "data"
  const EventMessage: string := "message"
  const EventListening: string := "listening"

  /** The closures the spot registers: the two `message` handlers of `start` and the `listening` handler. */
  const ControlHandler: nat := 1
  const DataHandler: nat := 2
  const ListeningHandler: nat := 3

  // ---------------------------------------------------------------------------
  // Uuids

  /** `genUUID()`: 32 random hex digits grouped 8-4-4-4-12 by dashes. */
  function GenUuid(draws: seq<real>): (r: Text)
    requires |draws| == 32 && Draws(draws)
    ensures |r| == 36
  {
    RandomHex(8, draws[..8]) + [Minus] + RandomHex(4, draws[8..12]) + [Minus] + RandomHex(4, draws[12..16])
      + [Minus] + RandomHex(4, draws[16..20]) + [Minus] + RandomHex(12, draws[20..])
  }

  /** Positions of the dashes in a uuid. */
  predicate DashAt(k: int) {
    k == 8 || k == 13 || k == 18 || k == 23
  }

  /** A uuid has 36 characters: dashes at 8, 13, 18 and 23, hex digits elsewhere. */
  lemma UuidShape(draws: seq<real>)
    requires |draws| == 32 && Draws(draws)
    ensures |GenUuid(draws)| == 36
    ensures forall k | 0 <= k < 36 :: if DashAt(k) then GenUuid(draws)[k] == Minus else GenUuid(draws)[k] in HexChars
  {
    var a, b, c, d, e := RandomHex(8, draws[..8]), RandomHex(4, draws[8..12]), RandomHex(4, draws[12..16]),
      RandomHex(4, draws[16..20]), RandomHex(12, draws[20..]);
    var p1 := a + [Minus] + b;
    var p2 := p1 + [Minus] + c;
    var p3 := p2 + [Minus] + d;
    var u := p3 + [Minus] + e;
    assert u == GenUuid(draws);
    forall k | 0 <= k < 36
      ensures if DashAt(k) then u[k] == Minus else u[k] in HexChars
    {
      if k < 23 {
        assert u[k] == p3[k];
        if k < 18 {
          assert p3[k] == p2[k];
          if k < 13 {
            assert p2[k] == p1[k];
            if k < 8 { assert p1[k] == a[k]; }
            else if k > 8 { assert p1[k] == b[k - 9]; }
          } else if k > 13 {
            assert p2[k] == c[k - 14];
          }
        } else if k > 18 {
          assert p3[k] == d[k - 19];
        }
      } else if k > 23 {
        assert u[k] == e[k - 24];
      }
    }
  }

  // ---------------------------------------------------------------------------
  // Values the spot puts on the wire

  /** A channel: its numeric id and its name. */
  datatype Channel = Channel(id: int, name: Text)

  /** Channel ids are pairwise distinct. */
  predicate DistinctIds(channels: seq<Channel>) {
    forall i, j | 0 <= i < j < |channels| :: channels[i].id != channels[j].id
  }

  /** `channels.map(e => ({ id: e.id, name: e.name }))`: one `{id, name}` object per channel, in order. */
  function Projection(channels: seq<Channel>): (r: seq<Val>)
    ensures |r| == |channels|
    ensures forall i | 0 <= i < |r| ::
      && r[i].Dict? && Keys(r[i].entries) == [KeyId, KeyName]
      && DictGet(r[i].entries, KeyId) == Num(channels[i].id)
      && DictGet(r[i].entries, KeyName) == Str(channels[i].name)
  {
    seq(|channels|, i requires 0 <= i < |channels| => Dict([(KeyId, Num(channels[i].id)), (KeyName, Str(channels[i].name))]))
  }

  /** `{ host: '', ...options }`: the sender record every request carries. */
  function From(options: seq<(Text, Val)>): seq<(Text, Val)> {
    Assign([(TextHost, Str([]))], options)
  }

  /** The fields of `alive` (with the projected channels) and of `bye` (without). */
  function AdvertFields(options: seq<(Text, Val)>, channels: seq<Channel>, alive: bool): seq<(Text, Val)> {
    [(KeyFrom, Dict(From(options)))] + if alive then [(KeyChannels, Arr(Projection(channels)))] else []
  }

  /** The fields of a `search` request for point type `t`. */
  function SearchFields(options: seq<(Text, Val)>, t: Text): seq<(Text, Val)> {
    [(KeyFrom, Dict(From(options))), (KeyType, Str(t))]
  }

  /** The fields of the answer to a search: the sender record and code 0. */
  function AnswerFields(options: seq<(Text, Val)>): seq<(Text, Val)> {
    [(KeyFrom, Dict(From(options))), (KeyCode, Num(0))]
  }

  /** The fields of a `data` message. */
  function DataFields(options: seq<(Text, Val)>, data: Val, chnn: int): seq<(Text, Val)> {
    [(KeyFrom, Dict(From(options))), (KeyData, data), (KeyChnn, Num(chnn))]
  }

  /** The bytes of a freshly built message with id `id`. */
  function Wire(id: int, kind: Text, fields: seq<(Text, Val)>, isr: bool): seq<byte> {
    Codec.Enc(ToPack(Envelope(Num(id), Str(kind), Bool(isr), fields)))
  }

  /** A datagram as the socket's `send` receives it: destination and bytes. */
  datatype Datagram = Datagram(address: Val, port: Val, bytes: seq<byte>)

  // ---------------------------------------------------------------------------
  // Reading what arrives

  /** `a === b` where one side comes off the wire: only primitives compare equal, by value. */
  predicate StrictEqual(a: Val, b: Val)
    ensures StrictEqual(a, b) ==> a == b
    ensures a.Dict? || a.Arr? || a.Bytes? ==> !StrictEqual(a, b)
  {
    !(a.Dict? || a.Arr? || a.Bytes? || a.Func? || a.Symbol?) && a == b
  }

  /** What the handlers make of an arriving datagram before they dispatch on it. */
  datatype Route =
    | Undecodable(error: Codec.DecodeError)   // `decode` throws
    | Fault                                   // a TypeError reading `fields.from` or writing `from.host`
    | Loopback                                // the spot's own message: dropped
    | Packet(kind: Val, isr: bool, fields: seq<(Text, Val)>, from: seq<(Text, Val)>)

  /**
   * Both socket handlers: decode, read `msg.fields.from`, drop the spot's
   * own messages (on the control socket only, where `self` is the own
   * uuid), then overwrite `from.host` with the observed address. The `from`
   * object is shared with `fields`, so both carry the new host.
   */
  function Inspect(decoded: Codec.Result<Val>, address: Text, self: Option<Val>): (r: Route)
    ensures r.Undecodable? <==> decoded.Failure?
    ensures r.Undecodable? ==> r.error == decoded.error
    ensures r.Loopback? ==> self.Some?
  {
    match decoded
    case Failure(err) => Undecodable(err)
    case Success(msg) =>
      match Prop(msg, KeyFields)
      case None => Fault
      case Some(fields) =>
        match Prop(fields, KeyFrom)
        case None => Fault
        case Some(from) =>
          if from.Undef? || from.Null? then Fault
          else if self.Some? && StrictEqual(Get(from, KeyUuid), self.value) then Loopback
          else if !fields.Dict? || !from.Dict? then Fault
          else
            var from' := DictSet(from.entries, TextHost, Str(address));
            Packet(Get(msg, KeyType), Truthy(Get(msg, KeyIsr)), DictSet(fields.entries, KeyFrom, Dict(from')), from')
  }

  /** What handling a datagram does. */
  datatype Reaction =
    | Throw                                                        // an exception: nothing happens
    | Ignore                                                       // dropped without effect
    | Seen(key: Option<Text>, record: seq<(Text, Val)>, fields: seq<(Text, Val)>)  // `hosts[key] = record`, emit alive
    | Gone(key: Option<Text>, fields: seq<(Text, Val)>)            // `delete hosts[key]`, emit bye
    | Answer(host: Val, port: Val)                                 // send the search answer there
    | Found(from: Val)                                             // emit found
    | Data(fields: seq<(Text, Val)>)                               // emit data

  /** `parseCommand`: `alive` and `bye` count only from host points; `search` goes to `handleSearch`. */
  function Command(kind: Val, fields: seq<(Text, Val)>, from: seq<(Text, Val)>, address: Text, now: int, options: seq<(Text, Val)>): (r: Reaction)
    ensures r.Seen? ==> kind == Str(TextAlive) && DictGet(from, KeyType) == Str(TextHost) && r.fields == fields
    ensures r.Gone? ==> kind == Str(TextBye) && DictGet(from, KeyType) == Str(TextHost) && r.fields == fields
    ensures r.Answer? ==> kind == Str(TextSearch)
    ensures !r.Throw? && !r.Found? && !r.Data?
  {
    if kind == Str(TextAlive) then
      if DictGet(from, KeyType) != Str(TextHost) then Ignore
      else
        var record := DictSet(DictSet(from, TextHost, Str(address)), KeyActive, Num(now));
        Seen(PropertyKey(DictGet(record, KeyUuid)), record, fields)
    else if kind == Str(TextBye) then
      if DictGet(from, KeyType) != Str(TextHost) then Ignore
      else Gone(PropertyKey(DictGet(from, KeyUuid)), fields)
    else if kind == Str(TextSearch) then SearchAnswer(fields, from, options)
    else Ignore
  }

  /** `handleSearch`: answer a search for `*` or for the spot's own point type, at the sender's host and port. */
  function SearchAnswer(fields: seq<(Text, Val)>, from: seq<(Text, Val)>, options: seq<(Text, Val)>): (r: Reaction)
    ensures r == Ignore || r == Answer(DictGet(from, TextHost), DictGet(from, KeyPort))
  {
    var t := DictGet(fields, KeyType);
    if t != Str(TextStar) && !StrictEqual(t, DictGet(options, KeyType)) then Ignore
    else Answer(DictGet(from, TextHost), DictGet(from, KeyPort))
  }

  /** `parseResponse`: only the answer to a search is reported, as `found` with the sender record. */
  function Response(kind: Val, fields: seq<(Text, Val)>): (r: Reaction)
    ensures r == Ignore || r == Found(DictGet(fields, KeyFrom))
  {
    if kind == Str(TextSearch) then Found(DictGet(fields, KeyFrom)) else Ignore
  }

  /** The control socket's handler, `parseMessage`. */
  function ControlReaction(decoded: Codec.Result<Val>, address: Text, now: int, options: seq<(Text, Val)>): (r: Reaction)
    ensures !r.Data?
    ensures decoded.Failure? ==> r == Throw
  {
    ControlDispatch(Inspect(decoded, address, Some(DictGet(options, KeyUuid))), address, now, options)
  }

  /** `parseMessage` once the route is known: responses to `parseResponse`, requests to `parseCommand`. */
  function ControlDispatch(route: Route, address: Text, now: int, options: seq<(Text, Val)>): Reaction {
    match route
    case Packet(kind, isr, fields, from) =>
      if isr then Response(kind, fields) else Command(kind, fields, from, address, now, options)
    case Loopback => Ignore
    case _ => Throw
  }

  /** The data socket's handler: responses go to `parseResponse`, anything else is reported as `data`. */
  function DataReaction(decoded: Codec.Result<Val>, address: Text): (r: Reaction)
    ensures !r.Seen? && !r.Gone? && !r.Answer?
    ensures decoded.Failure? ==> r == Throw
  {
    DataDispatch(Inspect(decoded, address, None))
  }

  function DataDispatch(route: Route): Reaction {
    match route
    case Packet(kind, isr, fields, _) => if isr then Response(kind, fields) else Data(fields)
    case _ => Throw
  }

  /**
   * The host table after a reaction. A key the model cannot name (an object
   * uuid) leaves it as it is, and so does `__proto__`, whose assignment goes
   * to the prototype setter of the `hosts` object.
   */
  function NewHosts(r: Reaction, hosts: map<Text, seq<(Text, Val)>>): (h: map<Text, seq<(Text, Val)>>)
    ensures !r.Seen? && !r.Gone? ==> h == hosts
    ensures forall k | !((r.Seen? || r.Gone?) && r.key == Some(k)) :: (k in h <==> k in hosts) && (k in h ==> h[k] == hosts[k])
  {
    match r
    case Seen(key, record, _) => if key.Some? && key.value != ProtoKey then hosts[key.value := record] else hosts
    case Gone(key, _) => if key.Some? then hosts - {key.value} else hosts
    case _ => hosts
  }

  /** The events a reaction emits. */
  function NewEvents(r: Reaction): (ev: seq<(string, Val)>)
    ensures |ev| <= 1
    ensures ev == [] <==> r.Throw? || r.Ignore? || r.Answer?
  {
    match r
    case Seen(_, _, fields) => [(EventAlive, Dict(fields))]
    case Gone(_, fields) => [(EventBye, Dict(fields))]
    case Found(from) => [(EventFound, from)]
    case Data(fields) => [(EventData, Dict(fields))]
    case _ => []
  }

  /** The datagrams a reaction sends on the data socket; `id` is the id the answer takes. */
  function Replies(r: Reaction, id: int, options: seq<(Text, Val)>): (d: seq<Datagram>)
    ensures |d| <= 1
    ensures d != [] <==> r.Answer?
    ensures r.Answer? ==> d[0].address == r.host && d[0].port == r.port
  {
    if r.Answer? then [Datagram(r.host, r.port, Wire(id, TextSearch, AnswerFields(options), true))] else []
  }

  // ---------------------------------------------------------------------------
  // Sockets

  /** A UDP socket: what was sent on it, and its listener registry. */
  class UdpSocket {
    var sent: seq<Datagram>
    const emitter: Events.EventEmitter

    constructor ()
      ensures sent == [] && fresh(emitter) && emitter.Valid() && emitter.listeners == map[]
    {
      sent := [];
      emitter := new Events.EventEmitter();
    }

    /** `send(buf, 0, buf.length, { address, port })`: the whole buffer to that destination. */
    method Send(bytes: seq<byte>, address: Val, port: Val)
      modifies this
      ensures sent == old(sent) + [Datagram(address, port, bytes)]
    {
      sent := sent + [Datagram(address, port, bytes)];
    }
  }

  // ---------------------------------------------------------------------------
  // The spot

  class HnetSpot {
    const sigso: UdpSocket
    const datso: UdpSocket
    /** The module-wide message id counter. */
    const counter: IdCounter
    /** `options`: uuid, type, port and name, and whatever else the caller passed. */
    const options: seq<(Text, Val)>
    /** The broadcast port. */
    const sigport: int
    /** `hosts`: the host points heard from, by uuid. */
    var hosts: map<Text, seq<(Text, Val)>>
    var channels: seq<Channel>
    var started: bool
    /** Whether the advertisement interval is set. */
    var timerActive: bool
    /** The events the spot has emitted, in order. */
    var events: seq<(string, Val)>

    ghost predicate Valid()
      reads this, sigso.emitter, datso.emitter
    {
      sigso != datso && sigso.emitter != datso.emitter &&
      sigso.emitter.Valid() && datso.emitter.Valid() &&
      DistinctIds(channels)
    }

    /** The state the receiving handlers leave alone. */
    function Control(): (bool, bool, seq<Channel>)
      reads this
    {
      (started, timerActive, channels)
    }

    function Uuid(): Val {
      DictGet(options, KeyUuid)
    }

    /**
     * `new HnetSpot(sigso, datso, opts, sigport)`: default options (a fresh
     * uuid, type host, data port 1902, name `hnetspot/<version>`) with
     * `opts` assigned over them, the broadcast port (1901 when not given or
     * 0), and a `listening` handler registered once on the control socket.
     */
    constructor (sigso: UdpSocket, datso: UdpSocket, counter: IdCounter, opts: Option<seq<(Text, Val)>>,
                 sigport: Option<int>, version: Text, draws: seq<real>)
      requires sigso != datso && sigso.emitter != datso.emitter
      requires sigso.emitter.Valid() && datso.emitter.Valid()
      requires |draws| == 32 && Draws(draws)
      modifies sigso.emitter
      ensures this.sigso == sigso && this.datso == datso && this.counter == counter
      ensures var defaults := [(KeyUuid, Str(GenUuid(draws))), (KeyType, Str(TextHost)), (KeyPort, Num(DataPort)),
                               (KeyName, Str(NamePrefix + version))];
        options == if opts.Some? then Assign(defaults, opts.value) else defaults
      ensures this.sigport == if sigport.None? || sigport.value == 0 then BroadcastPort else sigport.value
      ensures hosts == map[] && channels == [] && !started && !timerActive && events == []
      ensures Valid()
      ensures sigso.emitter.serial == old(sigso.emitter.serial) + 1
      ensures sigso.emitter.listeners == old(sigso.emitter.listeners)[EventListening :=
        old(sigso.emitter.Registered(EventListening)) + [Events.Listener.Once(old(sigso.emitter.serial), ListeningHandler)]]
    {
      this.sigso := sigso;
      this.datso := datso;
      this.counter := counter;
      var defaults := [(KeyUuid, Str(GenUuid(draws))), (KeyType, Str(TextHost)), (KeyPort, Num(DataPort)),
                       (KeyName, Str(NamePrefix + version))];
      options := if opts.Some? then Assign(defaults, opts.value) else defaults;
      this.sigport := if sigport.None? || sigport.value == 0 then BroadcastPort else sigport.value;
      hosts := map[];
      channels := [];
      started := false;
      timerActive := false;
      events := [];
      new;
      var _ := sigso.emitter.Once(EventListening, ListeningHandler);
    }

    /** `start()`: the first call registers both socket handlers and the timer, and returns true; later calls return false. */
    method Start() returns (ok: bool)
      requires Valid()
      modifies this, sigso.emitter, datso.emitter
      ensures Valid() && ok == !old(started)
      ensures started && hosts == old(hosts) && channels == old(channels) && events == old(events)
      ensures old(started) ==> (timerActive == old(timerActive) &&
        sigso.emitter.listeners == old(sigso.emitter.listeners) && datso.emitter.listeners == old(datso.emitter.listeners))
      ensures !old(started) ==> (timerActive &&
        sigso.emitter.listeners == old(sigso.emitter.listeners)[EventMessage :=
          Events.Add(old(sigso.emitter.Registered(EventMessage)), Events.Listener.Fn(ControlHandler))] &&
        datso.emitter.listeners == old(datso.emitter.listeners)[EventMessage :=
          Events.Add(old(datso.emitter.Registered(EventMessage)), Events.Listener.Fn(DataHandler))])
      ensures sigso.emitter.serial == old(sigso.emitter.serial) && datso.emitter.serial == old(datso.emitter.serial)
    {
      if started {
        return false;
      }
      started := true;
      sigso.emitter.On(EventMessage, Events.Listener.Fn(ControlHandler));
      datso.emitter.On(EventMessage, Events.Listener.Fn(DataHandler));
      timerActive := true;
      ok := true;
    }

    /**
     * `stop()`: before `start` nothing; afterwards the timer is cleared, one
     * `bye` is broadcast and both sockets lose all their listeners. `started`
     * stays true, so a later `start` still refuses and a later `stop` says
     * bye again.
     */
    method Stop()
      requires Valid()
      modifies this, sigso, counter, sigso.emitter, datso.emitter
      ensures Valid() && started == old(started)
      ensures hosts == old(hosts) && channels == old(channels) && events == old(events)
      ensures !old(started) ==> (timerActive == old(timerActive) && sigso.sent == old(sigso.sent) &&
        counter.next == old(counter.next) &&
        sigso.emitter.listeners == old(sigso.emitter.listeners) && datso.emitter.listeners == old(datso.emitter.listeners))
      ensures old(started) ==> (!timerActive && counter.next == old(counter.next) + 1 &&
        sigso.sent == old(sigso.sent) + [Datagram(Str(BroadcastAddress), Num(sigport),
          Wire(old(counter.next), TextBye, AdvertFields(options, channels, false), false))] &&
        sigso.emitter.listeners == map[] && datso.emitter.listeners == map[])
    {
      if !started {
        return;
      }
      if timerActive {
        timerActive := false;
      }
      Advertise(false);
      sigso.emitter.ClearEventListeners();
      datso.emitter.ClearEventListeners();
    }

    /** The advertisement timer fires: `advertise(true)` while the interval is set. */
    method Tick()
      requires Valid()
      modifies sigso, counter
      ensures !timerActive ==> sigso.sent == old(sigso.sent) && counter.next == old(counter.next)
      ensures timerActive ==> (counter.next == old(counter.next) + 1 &&
        sigso.sent == old(sigso.sent) + [Datagram(Str(BroadcastAddress), Num(sigport),
          Wire(old(counter.next), TextAlive, AdvertFields(options, channels, true), false))])
    {
      if timerActive {
        Advertise(true);
      }
    }

    /** `channels.find(e => e.id === id)` / `findIndex`: the first channel with that id, -1 when there is none. */
    method FindIndex(id: int) returns (index: int)
      ensures -1 <= index < |channels|
      ensures index == -1 <==> forall k | 0 <= k < |channels| :: channels[k].id != id
      ensures index != -1 ==> channels[index].id == id && forall k | 0 <= k < index :: channels[k].id != id
    {
      index := 0;
      while index < |channels|
        invariant 0 <= index <= |channels|
        invariant forall k | 0 <= k < index :: channels[k].id != id
      {
        if channels[index].id == id {
          return;
        }
        index := index + 1;
      }
      index := -1;
    }

    /** `addChannel(channel)`: a new id is appended and advertised; a known id is refused. */
    method AddChannel(channel: Channel) returns (added: bool)
      requires Valid()
      modifies this, sigso, counter
      ensures Valid() && hosts == old(hosts) && events == old(events)
      ensures started == old(started) && timerActive == old(timerActive)
      ensures added <==> forall k | 0 <= k < |old(channels)| :: old(channels)[k].id != channel.id
      ensures !added ==> channels == old(channels) && sigso.sent == old(sigso.sent) && counter.next == old(counter.next)
      ensures added ==> (channels == old(channels) + [channel] && counter.next == old(counter.next) + 1 &&
        sigso.sent == old(sigso.sent) + [Datagram(Str(BroadcastAddress), Num(sigport),
          Wire(old(counter.next), TextAlive, AdvertFields(options, channels, true), false))])
    {
      var index := FindIndex(channel.id);
      if index != -1 {
        return false;
      }
      channels := channels + [channel];
      Advertise(true);
      added := true;
    }

    /** `removeChannel(id)`: the channel with that id is spliced out and the rest advertised; an unknown id changes nothing. */
    method RemoveChannel(id: int)
      requires Valid()
      modifies this, sigso, counter
      ensures Valid() && hosts == old(hosts) && events == old(events)
      ensures started == old(started) && timerActive == old(timerActive)
      ensures (forall k | 0 <= k < |old(channels)| :: old(channels)[k].id != id) ==>
        channels == old(channels) && sigso.sent == old(sigso.sent) && counter.next == old(counter.next)
      ensures forall k | 0 <= k < |old(channels)| && old(channels)[k].id == id ::
        channels == old(channels)[..k] + old(channels)[k + 1..] && counter.next == old(counter.next) + 1 &&
        sigso.sent == old(sigso.sent) + [Datagram(Str(BroadcastAddress), Num(sigport),
          Wire(old(counter.next), TextAlive, AdvertFields(options, channels, true), false))]
    {
      var index := FindIndex(id);
      if index != -1 {
        RemoveKeepsDistinct(channels, index);
        channels := channels[..index] + channels[index + 1..];
        Advertise(true);
      }
    }

    /** `send(message, target)`: the message's bytes on the data socket to the target's host and port. */
    method Send(message: HnetMessage, host: Val, port: Val)
      modifies datso
      ensures datso.sent == old(datso.sent) + [Datagram(host, port, Codec.Enc(ToPack(message.State())))]
    {
      var bytes := message.ToBuffer();
      datso.Send(bytes, host, port);
    }

    /** `sendData(data, target, chnn)`: a `data` message with the sender record, the data and the channel. */
    method SendData(data: Val, host: Text, port: int, chnn: int)
      requires data.Str? || data.Bytes?
      modifies datso, counter
      ensures counter.next == old(counter.next) + 1
      ensures datso.sent == old(datso.sent) + [Datagram(Str(host), Num(port), Wire(old(counter.next), KeyData, DataFields(options, data, chnn), false))]
    {
      var req := DataFields(options, data, chnn);
      assert Keys(req) == [KeyFrom, KeyData, KeyChnn];
      var message := new HnetMessage(counter, KeyData, req, false);
      Send(message, Str(host), Num(port));
    }

    /** `search(type)`: broadcast a search for that point type, `*` for any. */
    method Search(kind: Option<Text>)
      modifies sigso, counter
      ensures counter.next == old(counter.next) + 1
      ensures sigso.sent == old(sigso.sent) + [Datagram(Str(BroadcastAddress), Num(sigport),
        Wire(old(counter.next), TextSearch, SearchFields(options, if kind.None? || kind.value == [] then TextStar else kind.value), false))]
    {
      var t := if kind.None? || kind.value == [] then TextStar else kind.value;
      assert Keys(SearchFields(options, t)) == [KeyFrom, KeyType];
      var message := new HnetMessage(counter, TextSearch, SearchFields(options, t), false);
      Broadcast(message);
    }

    /** `advertise(alive)`: broadcast `alive` with the projected channels, or `bye` without them. */
    method Advertise(alive: bool)
      modifies sigso, counter
      ensures counter.next == old(counter.next) + 1
      ensures sigso.sent == old(sigso.sent) + [Datagram(Str(BroadcastAddress), Num(sigport),
        Wire(old(counter.next), if alive then TextAlive else TextBye, AdvertFields(options, channels, alive), false))]
    {
      var req := [(KeyFrom, Dict(From(options)))];
      if alive {
        DictSetKeys(req, KeyChannels, Arr(Projection(channels)));
        req := DictSet(req, KeyChannels, Arr(Projection(channels)));
      } else {
        assert req + [] == req;
      }
      assert ProtoKey !in Keys(req);
      var message := new HnetMessage(counter, if alive then TextAlive else TextBye, req, false);
      Broadcast(message);
    }

    /** `broadcast(message)`: the message's bytes to 255.255.255.255 on the broadcast port. */
    method Broadcast(message: HnetMessage)
      modifies sigso
      ensures sigso.sent == old(sigso.sent) + [Datagram(Str(BroadcastAddress), Num(sigport), Codec.Enc(ToPack(message.State())))]
    {
      var bytes := message.ToBuffer();
      sigso.Send(bytes, Str(BroadcastAddress), Num(sigport));
    }

    /** Decoding a datagram and reading its route. */
    method Receive(buffer: seq<byte>, address: Text, self: Option<Val>) returns (route: Route)
      ensures route == Inspect(Codec.ValueOf(Codec.Dec(buffer, 0)), address, self)
    {
      var decoded := Codec.Decode(buffer);
      route := Inspect(decoded, address, self);
    }

    /** `parseMessage(buffer, rinfo)`, the control socket's handler, for a datagram from `address` at time `now`. */
    method ParseMessage(buffer: seq<byte>, address: Text, now: int)
      modifies this, datso, counter
      ensures Control() == old(Control())
      ensures var r := ControlReaction(Codec.ValueOf(Codec.Dec(buffer, 0)), address, now, options);
        hosts == NewHosts(r, old(hosts)) && events == old(events) + NewEvents(r) &&
        datso.sent == old(datso.sent) + Replies(r, old(counter.next), options) &&
        counter.next == old(counter.next) + |Replies(r, old(counter.next), options)|
    {
      var route := Receive(buffer, address, Some(Uuid()));
      Dispatch(route, address, now);
    }

    /** What `parseMessage` does with a route. */
    method Dispatch(route: Route, address: Text, now: int)
      modifies this, datso, counter
      ensures Control() == old(Control())
      ensures var r := ControlDispatch(route, address, now, options);
        hosts == NewHosts(r, old(hosts)) && events == old(events) + NewEvents(r) &&
        datso.sent == old(datso.sent) + Replies(r, old(counter.next), options) &&
        counter.next == old(counter.next) + |Replies(r, old(counter.next), options)|
    {
      if route.Packet? {
        if route.isr {
          ParseResponse(route.kind, route.fields);
        } else {
          ParseCommand(route.kind, route.fields, route.from, address, now);
        }
      }
    }

    /** The data socket's handler, for a datagram from `address`. */
    method OnData(buffer: seq<byte>, address: Text)
      modifies this
      ensures Control() == old(Control()) && hosts == old(hosts)
      ensures events == old(events) + NewEvents(DataReaction(Codec.ValueOf(Codec.Dec(buffer, 0)), address))
    {
      var route := Receive(buffer, address, None);
      DataRoute(route);
    }

    /** What the data socket's handler does with a route. */
    method DataRoute(route: Route)
      modifies this
      ensures Control() == old(Control()) && hosts == old(hosts)
      ensures events == old(events) + NewEvents(DataDispatch(route))
    {
      if route.Packet? {
        if route.isr {
          ParseResponse(route.kind, route.fields);
        } else {
          events := events + [(EventData, Dict(route.fields))];
        }
      }
    }

    /** `parseCommand(msg, rinfo)`. */
    method ParseCommand(kind: Val, fields: seq<(Text, Val)>, from: seq<(Text, Val)>, address: Text, now: int)
      modifies this, datso, counter
      ensures Control() == old(Control())
      ensures var r := Command(kind, fields, from, address, now, options);
        hosts == NewHosts(r, old(hosts)) && events == old(events) + NewEvents(r) &&
        datso.sent == old(datso.sent) + Replies(r, old(counter.next), options) &&
        counter.next == old(counter.next) + |Replies(r, old(counter.next), options)|
    {
      ghost var r := Command(kind, fields, from, address, now, options);
      if kind == Str(TextAlive) {
        assert !r.Answer?;
        Alive(fields, from, address, now);
      } else if kind == Str(TextBye) {
        assert !r.Answer?;
        Bye(fields, from, address, now);
      } else if kind == Str(TextSearch) {
        HandleSearch(fields, from);
      } else {
        assert r == Ignore;
      }
    }

    /** The `alive` case: a host point is recorded with the observed address and the time. */
    method Alive(fields: seq<(Text, Val)>, from: seq<(Text, Val)>, address: Text, now: int)
      modifies this
      ensures Control() == old(Control())
      ensures var r := Command(Str(TextAlive), fields, from, address, now, options);
        hosts == NewHosts(r, old(hosts)) && events == old(events) + NewEvents(r)
    {
      if DictGet(from, KeyType) != Str(TextHost) {
        return;
      }
      var record := DictSet(DictSet(from, TextHost, Str(address)), KeyActive, Num(now));
      var key := PropertyKey(DictGet(record, KeyUuid));
      assert Command(Str(TextAlive), fields, from, address, now, options) == Seen(key, record, fields);
      if key.Some? && key.value != ProtoKey {
        hosts := hosts[key.value := record];
      }
      events := events + [(EventAlive, Dict(fields))];
    }

    /** The `bye` case: a host point is forgotten. */
    method Bye(fields: seq<(Text, Val)>, from: seq<(Text, Val)>, address: Text, now: int)
      modifies this
      ensures Control() == old(Control())
      ensures var r := Command(Str(TextBye), fields, from, address, now, options);
        hosts == NewHosts(r, old(hosts)) && events == old(events) + NewEvents(r)
    {
      if DictGet(from, KeyType) != Str(TextHost) {
        return;
      }
      var key := PropertyKey(DictGet(from, KeyUuid));
      if key.Some? {
        hosts := hosts - {key.value};
      }
      events := events + [(EventBye, Dict(fields))];
    }

    /** `handleSearch(msg, rinfo)`. */
    method HandleSearch(fields: seq<(Text, Val)>, from: seq<(Text, Val)>)
      modifies datso, counter
      ensures var r := SearchAnswer(fields, from, options);
        datso.sent == old(datso.sent) + Replies(r, old(counter.next), options) &&
        counter.next == old(counter.next) + |Replies(r, old(counter.next), options)|
    {
      var t := DictGet(fields, KeyType);
      if t != Str(TextStar) && !StrictEqual(t, DictGet(options, KeyType)) {
        return;
      }
      assert Keys(AnswerFields(options)) == [KeyFrom, KeyCode];
      var rsp := new HnetMessage(counter, TextSearch, AnswerFields(options), true);
      Send(rsp, DictGet(from, TextHost), DictGet(from, KeyPort));
    }

    /** `parseResponse(msg, rinfo)`. */
    method ParseResponse(kind: Val, fields: seq<(Text, Val)>)
      modifies this
      ensures Control() == old(Control()) && hosts == old(hosts)
      ensures events == old(events) + NewEvents(Response(kind, fields))
    {
      if kind == Str(TextSearch) {
        events := events + [(EventFound, DictGet(fields, KeyFrom))];
      }
    }
  }

  /** Splicing one channel out keeps the ids distinct. */
  lemma RemoveKeepsDistinct(channels: seq<Channel>, index: nat)
    requires DistinctIds(channels) && index < |channels|
    ensures DistinctIds(channels[..index] + channels[index + 1..])
  {
    var r := channels[..index] + channels[index + 1..];
    forall i, j | 0 <= i < j < |r|
      ensures r[i].id != r[j].id
    {
      var i', j' := if i < index then i else i + 1, if j < index then j else j + 1;
      assert r[i] == channels[i'] && r[j] == channels[j'];
    }
  }
  // ---------------------------------------------------------------------------
  // Properties of the handlers

  /** A routed packet carries the observed address as `from.host`, in `from` and in `fields.from` alike. */
  lemma ObservedHost(decoded: Codec.Result<Val>, address: Text, self: Option<Val>)
    requires Inspect(decoded, address, self).Packet?
    ensures var route := Inspect(decoded, address, self);
      DictGet(route.from, TextHost) == Str(address) && DictGet(route.fields, KeyFrom) == Dict(route.from)
  {
    var fields := Prop(decoded.value, KeyFields).value;
    var from := Prop(fields, KeyFrom).value;
    var from' := DictSet(from.entries, TextHost, Str(address));
    DictSetGet(from.entries, TextHost, Str(address), TextHost);
    DictSetGet(fields.entries, KeyFrom, Dict(from'), KeyFrom);
  }

  /**
   * A message whose `fields.from.uuid` is the spot's own uuid, arriving on
   * the control socket, records nothing, emits nothing and sends nothing.
   */
  lemma OwnMessageQuiet(msg: Val, address: Text, now: int, options: seq<(Text, Val)>,
                        hosts: map<Text, seq<(Text, Val)>>, id: int)
    requires Prop(msg, KeyFields).Some? && Prop(Prop(msg, KeyFields).value, KeyFrom).Some?
    requires var from := Prop(Prop(msg, KeyFields).value, KeyFrom).value;
      !from.Undef? && !from.Null? && StrictEqual(Get(from, KeyUuid), DictGet(options, KeyUuid))
    ensures var r := ControlReaction(Codec.Success(msg), address, now, options);
      NewHosts(r, hosts) == hosts && NewEvents(r) == [] && Replies(r, id, options) == []
  {
  }

  /**
   * A message object whose `fields` and `fields.from` are objects, and whose
   * uuid is not the one `self` filters out, is routed with the message's own
   * `type` and `isr`; its `from` differs from the sender's only in `host`,
   * and its `fields` from the message's only in `from`.
   */
  lemma PacketContents(msg: Val, fields: seq<(Text, Val)>, from: seq<(Text, Val)>, address: Text, self: Option<Val>)
    requires msg.Dict? && DictGet(msg.entries, KeyFields) == Dict(fields) && DictGet(fields, KeyFrom) == Dict(from)
    requires !(self.Some? && StrictEqual(DictGet(from, KeyUuid), self.value))
    ensures var route := Inspect(Codec.Success(msg), address, self);
      && route.Packet?
      && route.kind == DictGet(msg.entries, KeyType)
      && route.isr == Truthy(DictGet(msg.entries, KeyIsr))
      && (forall k | k != TextHost :: DictGet(route.from, k) == DictGet(from, k))
      && (forall k | k != KeyFrom :: DictGet(route.fields, k) == DictGet(fields, k))
  {
    var from' := DictSet(from, TextHost, Str(address));
    assert Prop(msg, KeyFields) == Some(Dict(fields)) && Prop(Dict(fields), KeyFrom) == Some(Dict(from));
    assert Inspect(Codec.Success(msg), address, self)
      == Packet(DictGet(msg.entries, KeyType), Truthy(DictGet(msg.entries, KeyIsr)), DictSet(fields, KeyFrom, Dict(from')), from');
    forall k | k != TextHost
      ensures DictGet(from', k) == DictGet(from, k)
    {
      DictSetGet(from, TextHost, Str(address), k);
    }
    forall k | k != KeyFrom
      ensures DictGet(DictSet(fields, KeyFrom, Dict(from')), k) == DictGet(fields, k)
    {
      DictSetGet(fields, KeyFrom, Dict(from'), k);
    }
  }

  /** The data socket has no loopback filter: nothing arriving there is dropped as the spot's own. */
  lemma DataNeverLoopback(decoded: Codec.Result<Val>, address: Text)
    ensures Inspect(decoded, address, None) != Loopback
  {
  }

  /** `alive` and `bye` from a point that is not a host are ignored. */
  lemma OnlyHostPoints(kind: Val, fields: seq<(Text, Val)>, from: seq<(Text, Val)>, address: Text, now: int,
                       options: seq<(Text, Val)>)
    requires kind == Str(TextAlive) || kind == Str(TextBye)
    requires DictGet(from, KeyType) != Str(TextHost)
    ensures Command(kind, fields, from, address, now, options) == Ignore
  {
  }

  /**
   * The record `alive` stores, `{...from, host, active}`: the sender's fields
   * with the observed address as `host` and `active` = now, every other key
   * (`uuid`, `type`, `port`, `name`, ...) as the sender gave it.
   */
  lemma SenderRecord(from: seq<(Text, Val)>, address: Text, now: int)
    ensures var record := DictSet(DictSet(from, TextHost, Str(address)), KeyActive, Num(now));
      DictGet(record, TextHost) == Str(address) && DictGet(record, KeyActive) == Num(now) &&
      (forall k | k != TextHost && k != KeyActive :: DictGet(record, k) == DictGet(from, k)) &&
      DictGet(record, KeyType) == DictGet(from, KeyType) && DictGet(record, KeyUuid) == DictGet(from, KeyUuid)
  {
    var once := DictSet(from, TextHost, Str(address));
    assert TextHost[0] != KeyActive[0] && KeyUuid[0] != TextHost[0] && KeyUuid[0] != KeyActive[0];
    assert KeyType[0] != TextHost[0] && KeyType[0] != KeyActive[0];
    assert |TextHost| != |ProtoKey| && |KeyActive| != |ProtoKey|;
    forall k | k != TextHost && k != KeyActive
      ensures DictGet(DictSet(once, KeyActive, Num(now)), k) == DictGet(from, k)
    {
      DictSetGet(from, TextHost, Str(address), k);
      DictSetGet(once, KeyActive, Num(now), k);
    }
    DictSetGet(from, TextHost, Str(address), TextHost);
    DictSetGet(once, KeyActive, Num(now), TextHost);
    DictSetGet(once, KeyActive, Num(now), KeyActive);
  }

  /**
   * `alive` from a host point with uuid `key` sets `hosts[key]` to the sender
   * record (observed address, `active` = now, the sender's other keys) and
   * leaves the other entries; a uuid `__proto__` adds no entry. Either way it
   * emits `alive` with the message's fields.
   */
  lemma AliveRecorded(fields: seq<(Text, Val)>, from: seq<(Text, Val)>, address: Text, now: int,
                      options: seq<(Text, Val)>, hosts: map<Text, seq<(Text, Val)>>, key: Text)
    requires DictGet(from, KeyType) == Str(TextHost) && PropertyKey(DictGet(from, KeyUuid)) == Some(key)
    ensures var r := Command(Str(TextAlive), fields, from, address, now, options);
      var h := NewHosts(r, hosts);
      NewEvents(r) == [(EventAlive, Dict(fields))] &&
      (key == ProtoKey ==> h == hosts) &&
      (key != ProtoKey ==>
        h.Keys == hosts.Keys + {key} && (forall k | k in hosts && k != key :: h[k] == hosts[k]) &&
        DictGet(h[key], TextHost) == Str(address) && DictGet(h[key], KeyActive) == Num(now) &&
        (forall k | k != TextHost && k != KeyActive :: DictGet(h[key], k) == DictGet(from, k)) &&
        DictGet(h[key], KeyType) == Str(TextHost) && DictGet(h[key], KeyUuid) == DictGet(from, KeyUuid))
  {
    var record := DictSet(DictSet(from, TextHost, Str(address)), KeyActive, Num(now));
    SenderRecord(from, address, now);
    assert Command(Str(TextAlive), fields, from, address, now, options) == Seen(Some(key), record, fields);
  }

  /** `bye` from a host point with uuid `key` deletes `hosts[key]` and emits `bye` with the message's fields. */
  lemma ByeForgets(fields: seq<(Text, Val)>, from: seq<(Text, Val)>, address: Text, now: int,
                   options: seq<(Text, Val)>, hosts: map<Text, seq<(Text, Val)>>, key: Text)
    requires DictGet(from, KeyType) == Str(TextHost) && PropertyKey(DictGet(from, KeyUuid)) == Some(key)
    ensures var r := Command(Str(TextBye), fields, from, address, now, options);
      NewHosts(r, hosts) == hosts - {key} && NewEvents(r) == [(EventBye, Dict(fields))]
  {
  }

  /** `handleSearch` answers `*` and the spot's own type, at the sender's `host` and `port`. */
  lemma SearchAnswered(fields: seq<(Text, Val)>, from: seq<(Text, Val)>, options: seq<(Text, Val)>)
    ensures var t := DictGet(fields, KeyType);
      SearchAnswer(fields, from, options).Answer? <==> t == Str(TextStar) || StrictEqual(t, DictGet(options, KeyType))
    ensures SearchAnswer(fields, from, options).Answer? ==>
      SearchAnswer(fields, from, options) == Answer(DictGet(from, TextHost), DictGet(from, KeyPort))
  {
  }

  /**
   * A search request from another point is answered exactly when it asks for
   * `*` or for the spot's own type, at the address it came from (which
   * `ObservedHost` shows every routed packet carries as `from.host`) and the
   * port it claims; `Replies` then sends one `search` response with code 0 there.
   */
  lemma SearchRequest(route: Route, address: Text, now: int, options: seq<(Text, Val)>)
    requires route.Packet? && !route.isr && route.kind == Str(TextSearch)
    requires DictGet(route.from, TextHost) == Str(address)
    ensures var r := ControlDispatch(route, address, now, options);
      var t := DictGet(route.fields, KeyType);
      (r.Answer? <==> t == Str(TextStar) || StrictEqual(t, DictGet(options, KeyType))) &&
      (r.Answer? ==> r == Answer(Str(address), DictGet(route.from, KeyPort))) &&
      NewEvents(r) == []
  {
    assert TextSearch[0] != TextAlive[0] && TextSearch[0] != TextBye[0];
    assert ControlDispatch(route, address, now, options) == SearchAnswer(route.fields, route.from, options);
    SearchAnswered(route.fields, route.from, options);
  }

  /** A response is reported as `found`, with its `fields.from`, exactly when its type is `search`. */
  lemma ResponseFound(kind: Val, fields: seq<(Text, Val)>)
    ensures Response(kind, fields).Found? <==> kind == Str(TextSearch)
    ensures kind == Str(TextSearch) ==> NewEvents(Response(kind, fields)) == [(EventFound, DictGet(fields, KeyFrom))]
  {
  }
}
