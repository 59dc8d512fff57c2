/** The worker side of the bridge transport: messages are sent through the stream accumulator and
    the upload queue; heartbeats, maintenance and a final flush empty them. */
module BridgeTransport {
  import opened Prelude
  import opened StreamEvents
  import opened Batching
  import opened Thinning
  import opened Coalescing

  datatype ClientEvent = ClientEvent(payload: Payload, ephemeral: bool)

  function ToClientEvents(ps: seq<Payload>): seq<ClientEvent> {
    seq(|ps|, i requires 0 <= i < |ps| => ClientEvent(ps[i], ps[i].IsStream()))
  }

  function Payloads(events: seq<ClientEvent>): seq<Payload> {
    seq(|events|, i requires 0 <= i < |events| => events[i].payload)
  }

  datatype WorkerStatus = Idle | Running | RequiresAction

  datatype StateReport = StateReport(status: WorkerStatus, details: Option<string>)

  datatype Message =
    | CanUseTool(payload: Payload, details: string)
    | ControlResponse(payload: Payload)
    | ControlCancelRequest(payload: Payload)
    | ResultMessage(payload: Payload)
    | OtherMessage(payload: Payload)
  {
    /** The worker state an outbound message stands for. */
    function Report(): Option<StateReport> {
      match this
      case CanUseTool(_, details) => Some(StateReport(RequiresAction, Some(details)))
      case ControlResponse(_) => Some(StateReport(Running, None))
      case ControlCancelRequest(_) => Some(StateReport(Running, None))
      case ResultMessage(_) => Some(StateReport(Idle, None))
      case OtherMessage(_) => None
    }
  }

  /** An event from the server; its payload is a user message, another message, or unreadable. */
  datatype Inbound = FromUser(id: string) | FromOther(id: string) | Unreadable(id: string)

  datatype DeliveryStatus = Received | Processed

  datatype DeliveryUpdate = DeliveryUpdate(eventId: string, status: DeliveryStatus)

  function Acknowledgements(event: Inbound): seq<DeliveryUpdate> {
    [DeliveryUpdate(event.id, Received), DeliveryUpdate(event.id, Processed)]
  }

  datatype Result = Ok | UploadError(outcome: Outcome) | ReportError | ParseError | HeartbeatError

  /** The world outside: queue limits, and which calls succeed. */
  datatype Net = Net(limits: Limits<ClientEvent>, accepts: nat -> bool, reportAccepts: nat -> bool) {
    ghost predicate AllSucceed() {
      (forall call: nat :: accepts(call)) && (forall call: nat :: reportAccepts(call))
    }
  }

  /** The whole state, with three histories: `sent` holds every payload accepted, in order, `offered`
      everything the accumulator released to the upload queue, and `notes` what the tables made of each
      sent payload when it left the buffer. */
  datatype Bridge = Bridge(
    tables: Tables,
    buffer: seq<Payload>,
    since: Option<nat>,
    queue: Queue<ClientEvent>,
    status: Option<WorkerStatus>,
    reports: seq<StateReport>,
    sent: seq<Payload>,
    offered: seq<Payload>,
    notes: seq<Note>)

  const CONNECTED := Bridge(EMPTY_TABLES, [], None, Queue([], []), Some(Idle), [], [], [], [])

  function AfterReport(b: Bridge, report: Option<StateReport>, net: Net): (Bridge, Result) {
    if report.None? || (b.status == Some(report.value.status) && report.value.details.None?) then (b, Ok)
    else
      var logged := b.(reports := b.reports + [report.value]);
      if net.reportAccepts(|b.reports|) then (logged.(status := Some(report.value.status)), Ok)
      else (logged, ReportError)
  }

  /** A user message from the server sets the worker running. */
  function AfterReceive(b: Bridge, event: Inbound, net: Net): (Bridge, Result) {
    match event
    case FromUser(_) => AfterReport(b, Some(StateReport(Running, None)), net)
    case FromOther(_) => (b, Ok)
    case Unreadable(_) => (b, ParseError)
  }

  /** A payload that is not a stream event passes the accumulator by. */
  function PassedBy(direct: seq<Payload>): seq<Note> {
    seq(|direct|, i requires 0 <= i < |direct| => Unrouted)
  }

  /** Release the buffered stream events, then `direct`, and upload them. */
  function AfterDrain(b: Bridge, direct: seq<Payload>, net: Net): (Bridge, Result)
    requires net.limits.Valid()
  {
    var pass := AbsorbAll(b.tables, b.buffer);
    var released := pass.out + direct;
    var (queue, outcome) := Upload(b.queue, ToClientEvents(released), net.limits, net.accepts);
    (b.(tables := pass.tables, buffer := [], since := None, queue := queue,
        sent := b.sent + direct, offered := b.offered + released,
        notes := b.notes + Notes(b.tables, b.buffer) + PassedBy(direct)),
     if outcome == Done then Ok else UploadError(outcome))
  }

  predicate Expired(b: Bridge, now: nat) {
    b.since.Some? && now - b.since.value >= STREAM_EVENT_FLUSH_INTERVAL
  }

  function AfterExpiry(b: Bridge, now: nat, net: Net): (Bridge, Result)
    requires net.limits.Valid()
  {
    if Expired(b, now) then AfterDrain(b, [], net) else (b, Ok)
  }

  function Buffered(b: Bridge, p: Payload, now: nat): Bridge {
    b.(buffer := b.buffer + [p], since := if b.buffer == [] then Some(now) else b.since, sent := b.sent + [p])
  }

  function AfterSend(b: Bridge, msg: Message, now: nat, later: nat, net: Net): (Bridge, Result)
    requires net.limits.Valid()
  {
    var (reported, first) := AfterReport(b, msg.Report(), net);
    var p := msg.payload;
    if first != Ok then (reported, first)
    else if p.IsStream() then
      var (flushed, second) := AfterExpiry(reported, now, net);
      if second != Ok then (flushed, second)
      else
        (Buffered(flushed, p, later), Ok)
    else
      var (drained, second) := AfterDrain(reported, [p], net);
      if second != Ok then (drained, second)
      else (drained.(tables := Complete(drained.tables, p)), Ok)
  }

  function AfterFlushPending(b: Bridge, net: Net): (Bridge, Result)
    requires net.limits.Valid()
  {
    var (drained, first) := AfterDrain(b, [], net);
    if first != Ok then (drained, first)
    else
      var (queue, outcome) := FlushQueue(drained.queue, net.limits, net.accepts);
      (drained.(queue := queue), if outcome == Done then Ok else UploadError(outcome))
  }

  class CcrV2TransportHandle {
    const streamEvents: StreamEventAccumulator
    const clientEvents: ClientEventUploader<ClientEvent>
    const client: WorkerClient<ClientEvent>
    const deliveryUpdates: DeliveryUpdateUploader<DeliveryUpdate>
    const deliveryClient: WorkerClient<DeliveryUpdate>
    const reportAccepts: nat -> bool
    var workerStatus: Option<WorkerStatus>
    var reports: seq<StateReport>
    ghost var sent: seq<Payload>
    ghost var offered: seq<Payload>
    ghost var notes: seq<Note>

    ghost predicate Valid()
      reads this, clientEvents, deliveryUpdates
    {
      clientEvents.Valid() && deliveryUpdates.Valid()
    }

    ghost function Outside(): Net {
      Net(clientEvents.limits, client.accepts, reportAccepts)
    }

    ghost function Contents(): Bridge
      reads this, streamEvents, clientEvents, client
    {
      Bridge(streamEvents.Contents(), streamEvents.buffer, streamEvents.firstBufferedAt,
             Queue(clientEvents.pending, client.handed), workerStatus, reports, sent, offered, notes)
    }

    /** The queue of delivery updates beside everything handed over from it. */
    ghost function Deliveries(): Queue<DeliveryUpdate>
      reads deliveryUpdates, deliveryClient
    {
      Queue(deliveryUpdates.pending, deliveryClient.handed)
    }

    /** The queue after a flush, whatever the flush returns. */
    ghost function Delivered(q: Queue<DeliveryUpdate>): Queue<DeliveryUpdate>
      requires deliveryUpdates.limits.Valid()
    {
      FlushQueue(q, deliveryUpdates.limits, deliveryClient.accepts).0
    }

    constructor (size: ClientEvent -> nat, client: WorkerClient<ClientEvent>, deliveryClient: WorkerClient<DeliveryUpdate>,
                 reportAccepts: nat -> bool)
      requires client.handed == [] && deliveryClient.handed == []
      ensures Valid() && Contents() == CONNECTED && Deliveries() == Queue([], [])
      ensures this.client == client && this.deliveryClient == deliveryClient
      ensures this.reportAccepts == reportAccepts && clientEvents.limits.size == size
      ensures fresh(streamEvents) && fresh(clientEvents) && fresh(deliveryUpdates)
    {
      var accumulator := new StreamEventAccumulator();
      var uploader := new ClientEventUploader<ClientEvent>(size);
      var deliveries := new DeliveryUpdateUploader<DeliveryUpdate>();
      this.streamEvents, this.clientEvents, this.client := accumulator, uploader, client;
      this.deliveryUpdates, this.deliveryClient := deliveries, deliveryClient;
      this.reportAccepts := reportAccepts;
      workerStatus, reports := Some(Idle), [];
      sent, offered, notes := [], [], [];
    }

    method ReportWorkerState(report: StateReport) returns (result: Result)
      requires Valid()
      modifies this`workerStatus, this`reports
      ensures Valid() && (Contents(), result) == AfterReport(old(Contents()), Some(report), Outside())
    {
      if workerStatus == Some(report.status) && report.details.None? {
        return Ok;
      }
      var ok := reportAccepts(|reports|);
      reports := reports + [report];
      if !ok {
        return ReportError;
      }
      workerStatus := Some(report.status);
      result := Ok;
    }

    method UploadEvents(events: seq<ClientEvent>) returns (result: Result)
      requires Valid()
      modifies clientEvents`pending, client
      ensures Valid()
      ensures Queue(clientEvents.pending, client.handed)
              == Upload(old(Contents()).queue, events, Outside().limits, Outside().accepts).0
      ensures var outcome := Upload(old(Contents()).queue, events, Outside().limits, Outside().accepts).1;
              result == if outcome == Done then Ok else UploadError(outcome)
    {
      var outcome := clientEvents.EnqueueAndFlush(events, client);
      result := if outcome == Done then Ok else UploadError(outcome);
    }

    method FlushStreamEventBuffer() returns (result: Result)
      requires Valid()
      modifies this`offered, this`notes, streamEvents, clientEvents`pending, client
      ensures Valid() && (Contents(), result) == AfterDrain(old(Contents()), [], Outside())
    {
      notes := notes + Notes(streamEvents.Contents(), streamEvents.buffer) + PassedBy([]);
      var released := streamEvents.Flush();
      assert released + [] == released && sent + [] == sent;
      offered := offered + released;
      result := Ok;
      if |released| > 0 {
        result := UploadEvents(ToClientEvents(released));
      }
    }

    method FlushExpiredStreamEvents(now: nat) returns (result: Result)
      requires Valid()
      modifies this`offered, this`notes, streamEvents, clientEvents`pending, client
      ensures Valid() && (Contents(), result) == AfterExpiry(old(Contents()), now, Outside())
    {
      result := Ok;
      if streamEvents.ShouldFlush(now) {
        result := FlushStreamEventBuffer();
      }
    }

    method Send(msg: Message, now: nat, later: nat) returns (result: Result)
      requires Valid()
      modifies this, streamEvents, clientEvents, client
      ensures Valid() && (Contents(), result) == AfterSend(old(Contents()), msg, now, later, Outside())
    {
      if msg.Report().Some? {
        result := ReportWorkerState(msg.Report().value);
        if result != Ok {
          return;
        }
      }
      var payload := msg.payload;
      if payload.IsStream() {
        result := FlushExpiredStreamEvents(now);
        if result != Ok {
          return;
        }
        streamEvents.Push(payload, later);
        sent := sent + [payload];
        return Ok;
      }
      notes := notes + Notes(streamEvents.Contents(), streamEvents.buffer) + PassedBy([payload]);
      var released := streamEvents.Flush();
      var events := released + [payload];
      sent, offered := sent + [payload], offered + events;
      result := UploadEvents(ToClientEvents(events));
      if result != Ok {
        return;
      }
      streamEvents.ClearForCompletedAssistantPayload(payload);
    }

    method FlushDeliveries()
      requires Valid()
      modifies deliveryUpdates`pending, deliveryClient
      ensures Valid() && Deliveries() == Delivered(old(Deliveries()))
    {
      var logged := deliveryUpdates.Flush(deliveryClient);
    }

    method Recv(event: Inbound) returns (result: Result)
      requires Valid()
      modifies this`workerStatus, this`reports, deliveryUpdates`pending, deliveryClient
      ensures Valid() && (Contents(), result) == AfterReceive(old(Contents()), event, Outside())
      ensures Deliveries()
              == Deliver(old(Deliveries()), Acknowledgements(event), deliveryUpdates.limits, deliveryClient.accepts).0
    {
      var updates := [DeliveryUpdate(event.id, Received), DeliveryUpdate(event.id, Processed)];
      var logged := deliveryUpdates.EnqueueAndFlushIfFull(updates, deliveryClient);
      if event.Unreadable? {
        return ParseError;
      }
      result := Ok;
      if event.FromUser? {
        result := ReportWorkerState(StateReport(Running, None));
      }
    }

    /** `beats` says whether the heartbeat call itself succeeds. */
    method Heartbeat(now: nat, beats: bool) returns (result: Result)
      requires Valid()
      modifies this, streamEvents, clientEvents, client, deliveryUpdates`pending, deliveryClient
      ensures Valid() && Contents() == AfterExpiry(old(Contents()), now, Outside()).0
      ensures var expiry := AfterExpiry(old(Contents()), now, Outside()).1;
              && result == (if expiry != Ok then expiry else if beats then Ok else HeartbeatError)
              && Deliveries() == if expiry == Ok then Delivered(old(Deliveries())) else old(Deliveries())
    {
      result := FlushExpiredStreamEvents(now);
      if result != Ok {
        return;
      }
      FlushDeliveries();
      result := if beats then Ok else HeartbeatError;
    }

    method Maintenance(now: nat) returns (result: Result)
      requires Valid()
      modifies this, streamEvents, clientEvents, client, deliveryUpdates`pending, deliveryClient
      ensures Valid() && (Contents(), result) == AfterExpiry(old(Contents()), now, Outside())
      ensures Deliveries() == if result == Ok then Delivered(old(Deliveries())) else old(Deliveries())
    {
      result := FlushExpiredStreamEvents(now);
      if result != Ok {
        return;
      }
      FlushDeliveries();
    }

    method FlushPending() returns (result: Result)
      requires Valid()
      modifies this, streamEvents, clientEvents, client, deliveryUpdates`pending, deliveryClient
      ensures Valid() && (Contents(), result) == AfterFlushPending(old(Contents()), Outside())
      ensures Deliveries() == if result == Ok then Delivered(old(Deliveries())) else old(Deliveries())
    {
      result := FlushStreamEventBuffer();
      if result != Ok {
        return;
      }
      var outcome := clientEvents.Flush(client);
      if outcome != Done {
        return UploadError(outcome);
      }
      FlushDeliveries();
      result := Ok;
    }
  }
}
