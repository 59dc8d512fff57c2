/** What the calls of the worker handle report, to whom and when. */
module BridgeOutcomes {
  import opened Prelude
  import opened StreamEvents
  import opened Batching
  import opened Thinning
  import opened BridgeTransport
  import opened BridgeRuns

  // ---------- failed uploads ----------

  /** The calls to the client that were made between two states, and whether one of them failed. */
  ghost predicate UploadFailed(b: Bridge, b': Bridge, net: Net) {
    SomeCallFailed(|b.queue.handed|, |b'.queue.handed|, net.accepts)
  }

  lemma {:induction false} DrainFailsExactly(b: Bridge, direct: seq<Payload>, net: Net)
    requires net.limits.Valid()
    ensures var (b', result) := AfterDrain(b, direct, net);
            && |b'.queue.handed| >= |b.queue.handed|
            && (result == UploadError(WriteFailed) <==> UploadFailed(b, b', net))
            && (result == Ok || result == UploadError(WriteFailed) || result == UploadError(Backpressure))
  {
    UploadFailsExactly(b.queue, ToClientEvents(AbsorbAll(b.tables, b.buffer).out + direct), net.limits, net.accepts);
  }

  /** A send reports a failed upload exactly when a call that it made to the client failed. */
  lemma {:induction false} SendFailsExactly(b: Bridge, msg: Message, now: nat, later: nat, net: Net)
    requires net.limits.Valid()
    ensures var (b', result) := AfterSend(b, msg, now, later, net);
            && |b'.queue.handed| >= |b.queue.handed|
            && (result == UploadError(WriteFailed) <==> UploadFailed(b, b', net))
  {
    var reported := AfterReport(b, msg.Report(), net).0;
    assert reported.queue == b.queue;
    DrainFailsExactly(reported, if msg.payload.IsStream() then [] else [msg.payload], net);
  }

  lemma {:induction false} ExpiryFailsExactly(b: Bridge, now: nat, net: Net)
    requires net.limits.Valid()
    ensures var (b', result) := AfterExpiry(b, now, net);
            && |b'.queue.handed| >= |b.queue.handed|
            && (result == UploadError(WriteFailed) <==> UploadFailed(b, b', net))
  {
    DrainFailsExactly(b, [], net);
  }

  /** So does the final flush; and if it ends well, nothing waits any more. */
  lemma {:induction false} FlushPendingFailsExactly(b: Bridge, net: Net)
    requires net.limits.Valid()
    ensures var (b', result) := AfterFlushPending(b, net);
            && |b'.queue.handed| >= |b.queue.handed|
            && (result == UploadError(WriteFailed) <==> UploadFailed(b, b', net))
            && (result == Ok ==> b'.buffer == [] && b'.queue.pending == [])
  {
    DrainFailsExactly(b, [], net);
    var (drained, first) := AfterDrain(b, [], net);
    if first == Ok {
      FlushFailsExactly(drained.queue, net.limits, net.accepts);
      FlushConserves(drained.queue, net.limits, net.accepts);
      FailedJoin(|b.queue.handed|, |drained.queue.handed|, |AfterFlushPending(b, net).0.queue.handed|, net.accepts);
    }
  }

  /** A completed assistant message is forgotten when its own upload got through, and kept otherwise. */
  lemma {:induction false} CompletionNeedsUpload(b: Bridge, msg: Message, now: nat, later: nat, net: Net, m: string)
    requires net.limits.Valid() && msg.payload.kind.Assistant? && msg.payload.messageId == Some(m)
    ensures var (b', result) := AfterSend(b, msg, now, later, net);
            var flushed := AbsorbAll(b.tables, b.buffer).tables;
            && (result == Ok ==> b'.tables.blocks == flushed.blocks - {m})
            && (result == ReportError ==> b'.tables == b.tables)
            && (result.UploadError? ==> b'.tables == flushed)
  {
  }

  // ---------- worker states ----------

  /** What a report changes: it is sent unless it only repeats the known status. */
  lemma {:induction false} ReportMeans(b: Bridge, report: Option<StateReport>, net: Net)
    ensures var (b', result) := AfterReport(b, report, net);
            && b'.reports == b.reports + (if report.None? || (report.value.details == None && b.status == Some(report.value.status))
                                          then [] else [report.value])
            && (result == ReportError <==> b'.reports != b.reports && !net.reportAccepts(|b.reports|))
            && (result == Ok || result == ReportError)
            && b'.status == if b'.reports == b.reports || result == ReportError then b.status else Some(report.value.status)
  {
    assert b.reports + [] == b.reports;
  }

  /** Sending reports nothing else, and fails with its report only. */
  lemma {:induction false} SendReportsOnce(b: Bridge, msg: Message, now: nat, later: nat, net: Net)
    requires net.limits.Valid()
    ensures var (b', result) := AfterSend(b, msg, now, later, net);
            var (reported, first) := AfterReport(b, msg.Report(), net);
            b'.reports == reported.reports && b'.status == reported.status && (result == ReportError <==> first == ReportError)
  {
  }

  /** The report that a message calls for is sent unless it only repeats the known status. */
  lemma {:induction false} SendReports(b: Bridge, msg: Message, now: nat, later: nat, net: Net)
    requires net.limits.Valid()
    ensures var b' := AfterSend(b, msg, now, later, net).0;
            b'.reports == b.reports + (match msg
              case CanUseTool(_, details) => [StateReport(RequiresAction, Some(details))]
              case ControlResponse(_) => if b.status == Some(Running) then [] else [StateReport(Running, None)]
              case ControlCancelRequest(_) => if b.status == Some(Running) then [] else [StateReport(Running, None)]
              case ResultMessage(_) => if b.status == Some(Idle) then [] else [StateReport(Idle, None)]
              case OtherMessage(_) => [])
    ensures var (b', result) := AfterSend(b, msg, now, later, net);
            && (result == ReportError <==> b'.reports != b.reports && !net.reportAccepts(|b.reports|))
            && b'.status == if b'.reports == b.reports || result == ReportError then b.status
                            else Some(b'.reports[|b.reports|].status)
  {
    SendReportsOnce(b, msg, now, later, net);
    ReportMeans(b, msg.Report(), net);
    assert b.reports + [] == b.reports;
  }

  /** A message from the server is an error if it cannot be read, and sets the worker running if it comes
      from the user. */
  lemma {:induction false} ReceiveReports(b: Bridge, event: Inbound, net: Net)
    ensures var (b', result) := AfterReceive(b, event, net);
            && b' == b.(status := b'.status, reports := b'.reports)
            && b'.reports == b.reports + (if event.FromUser? && b.status != Some(Running) then [StateReport(Running, None)] else [])
            && (result == ParseError <==> event.Unreadable?)
            && (result == ReportError <==> b'.reports != b.reports && !net.reportAccepts(|b.reports|))
            && b'.status == if b'.reports == b.reports || result == ReportError then b.status else Some(Running)
  {
    assert b.reports + [] == b.reports;
  }

  /** The status that the messages sent and received call for. */
  function StatusCalledFor(actions: seq<Action>): WorkerStatus {
    if actions == [] then Idle
    else match actions[|actions| - 1]
      case Sending(CanUseTool(_, _), _, _) => RequiresAction
      case Sending(ControlResponse(_), _, _) => Running
      case Sending(ControlCancelRequest(_), _, _) => Running
      case Sending(ResultMessage(_), _, _) => Idle
      case Receiving(FromUser(_)) => Running
      case _ => StatusCalledFor(actions[..|actions| - 1])
  }

  /** With working calls the worker always has it. */
  lemma {:induction false} StatusFollowsMessages(actions: seq<Action>, net: Net)
    requires net.limits.Valid() && net.AllSucceed()
    ensures Run(actions, net).status == Some(StatusCalledFor(actions))
  {
    if actions != [] {
      var init := actions[..|actions| - 1];
      var b := Run(init, net);
      StatusFollowsMessages(init, net);
      match actions[|actions| - 1] {
        case Sending(msg, now, later) =>
          SendReports(b, msg, now, later, net);
          ReportSucceeds(b, msg.Report(), net);
        case Receiving(event) => ReceiveReports(b, event, net);
        case _ =>
      }
    }
  }

  // ---------- waiting ----------

  /** Event number k of the run put the oldest waiting event into the buffer, at the time of the clock. */
  ghost predicate Oldest(actions: seq<Action>, k: nat, net: Net)
    requires net.limits.Valid() && k < |actions|
  {
    var b := Run(actions, net);
    && actions[k].Sending? && b.buffer != []
    && b.since == Some(actions[k].later) && b.buffer[0] == actions[k].msg.payload
    && Run(actions[..k + 1], net).buffer == [b.buffer[0]]
    && forall n :: k < n <= |actions| ==> StartsWith(Run(actions[..n], net).buffer, b.buffer[0])
  }

  predicate StartsWith(ps: seq<Payload>, p: Payload) {
    ps != [] && ps[0] == p
  }

  /** What a call does to the buffer and the clock: nothing, or one event more, or all gone, or all gone
      and one event in. */
  lemma {:induction false} StepWaits(b: Bridge, action: Action, net: Net)
    requires net.limits.Valid() && (b.since.Some? <==> b.buffer != [])
    ensures var b' := Step(b, action, net);
            || (b'.buffer == b.buffer && b'.since == b.since)
            || (action.Sending? && b.buffer != [] && b'.buffer == b.buffer + [action.msg.payload] && b'.since == b.since)
            || (b'.buffer == [] && b'.since == None)
            || (action.Sending? && b'.buffer == [action.msg.payload] && b'.since == Some(action.later))
  {
    match action {
      case Sending(msg, now, later) =>
        var reported := AfterReport(b, msg.Report(), net).0;
        assert reported.buffer == b.buffer && reported.since == b.since;
        if msg.payload.IsStream() {
          assert [] + [msg.payload] == [msg.payload];
        }
      case _ =>
    }
  }

  predicate Filled(b: Bridge, action: Action) {
    action.Sending? && b.buffer == [action.msg.payload] && b.since == Some(action.later)
  }

  predicate Grown(b: Bridge, b': Bridge) {
    b.buffer != [] && StartsWith(b'.buffer, b.buffer[0]) && b'.since == b.since
  }

  lemma {:induction false} GrownOrFilled(b: Bridge, action: Action, net: Net)
    requires net.limits.Valid() && (b.since.Some? <==> b.buffer != []) && Step(b, action, net).buffer != []
    ensures Grown(b, Step(b, action, net)) || Filled(Step(b, action, net), action)
  {
    StepWaits(b, action, net);
  }

  lemma {:induction false} OldestStays(init: seq<Action>, action: Action, k: nat, net: Net)
    requires net.limits.Valid() && k < |init| && Oldest(init, k, net)
    requires Grown(Run(init, net), Run(init + [action], net))
    ensures Oldest(init + [action], k, net)
  {
    var actions := init + [action];
    var first := Run(init, net).buffer[0];
    forall n | k < n <= |actions|
      ensures StartsWith(Run(actions[..n], net).buffer, first)
    {
      if n < |actions| {
        assert actions[..n] == init[..n];
      } else {
        assert actions[..n] == actions;
      }
    }
    assert init[..k + 1] == actions[..k + 1];
  }

  lemma {:induction false} NewestIsOldest(init: seq<Action>, action: Action, net: Net)
    requires net.limits.Valid() && Filled(Run(init + [action], net), action)
    ensures Oldest(init + [action], |init|, net)
  {
    var actions := init + [action];
    assert actions[..|init| + 1] == actions && actions[|init|] == action;
  }

  /** The clock of the waiting events is that of the oldest one. */
  lemma {:induction false} ClockIsOldest(actions: seq<Action>, net: Net) returns (k: nat)
    requires net.limits.Valid() && Run(actions, net).buffer != []
    ensures k < |actions| && Oldest(actions, k, net)
  {
    var init, action := actions[..|actions| - 1], actions[|actions| - 1];
    assert actions == init + [action];
    RunKeepsBooks(init, net);
    GrownOrFilled(Run(init, net), action, net);
    if Grown(Run(init, net), Run(actions, net)) {
      k := ClockIsOldest(init, net);
      OldestStays(init, action, k, net);
    } else {
      NewestIsOldest(init, action, net);
      k := |init|;
    }
  }

  /** A tick releases everything once the oldest event has waited 100 milliseconds, and nothing before. */
  lemma {:induction false} TickReleasesExactly(b: Bridge, now: nat, net: Net)
    requires net.limits.Valid() && (b.since.Some? <==> b.buffer != [])
    ensures var b' := AfterExpiry(b, now, net).0;
            && (b.buffer != [] && now >= b.since.value + 100 ==> b'.buffer == [])
            && (b.buffer == [] || now < b.since.value + 100 ==> b' == b)
  {
  }

  /** Nor does sending a stream event release anything before. */
  lemma {:induction false} YoungEventsWait(b: Bridge, msg: Message, now: nat, later: nat, net: Net)
    requires net.limits.Valid() && msg.payload.kind.StreamEvent?
    requires b.since.Some? ==> now < b.since.value + 100
    ensures var (b', result) := AfterSend(b, msg, now, later, net);
            && b'.queue == b.queue && b'.offered == b.offered && b'.tables == b.tables
            && b'.buffer == if result == Ok then b.buffer + [msg.payload] else b.buffer
  {
  }
}
