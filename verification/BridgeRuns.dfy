/** Properties of the bridge transport over every run. */
module BridgeRuns {
  import opened Prelude
  import opened StreamEvents
  import opened Batching
  import opened Thinning
  import opened Coalescing
  import opened BridgeTransport

  datatype Action =
    | Sending(msg: Message, now: nat, later: nat)
    | Receiving(event: Inbound)
    | Tick(now: nat)  // a heartbeat or a maintenance round
    | FlushAll

  function Step(b: Bridge, action: Action, net: Net): Bridge
    requires net.limits.Valid()
  {
    match action
    case Sending(msg, now, later) => AfterSend(b, msg, now, later, net).0
    case Receiving(event) => AfterReceive(b, event, net).0
    case Tick(now) => AfterExpiry(b, now, net).0
    case FlushAll => AfterFlushPending(b, net).0
  }

  /** The state after any sequence of calls, whatever each of them returned. */
  function Run(actions: seq<Action>, net: Net): Bridge
    requires net.limits.Valid()
  {
    if actions == [] then CONNECTED else Step(Run(actions[..|actions| - 1], net), actions[|actions| - 1], net)
  }

  /** The sent payloads that have left the buffer. */
  function Gone(b: Bridge): seq<Payload> {
    if |b.buffer| <= |b.sent| then b.sent[..|b.sent| - |b.buffer|] else []
  }

  // ---------- order and conservation, under any pattern of failures ----------

  lemma {:induction false} PicksAppend<T>(all: seq<T>, out: seq<T>, picked: seq<nat>, more: seq<T>, taken: nat) returns (picked': seq<nat>)
    requires Picks(all, out, picked) && taken <= |more|
    ensures Picks(all + more, out + more[..taken], picked')
    ensures taken == |more| && |picked| == |all| ==> |picked'| == |all + more|
  {
    picked' := picked + seq(taken, i requires 0 <= i < taken => |all| + i);
  }

  ghost predicate InOrder(b: Bridge, net: Net, w: Landing, picked: seq<nat>) {
    && |b.buffer| <= |b.sent|
    && b.sent == Gone(b) + b.buffer
    && (forall p :: p in b.buffer ==> p.IsStream())
    && Thinned(Gone(b), b.notes, b.offered, w)
    && Picks(ToClientEvents(b.offered), b.queue.All(), picked)
    && |b.queue.pending| <= net.limits.maxQueue
    && b.tables.NoLeak()
  }

  /** Releasing the buffer and one direct payload goes on thinning what was sent. */
  lemma {:induction false} ReleaseThins(gone: seq<Payload>, notes: seq<Note>, offered: seq<Payload>, w: Landing,
                     tables: Tables, buffer: seq<Payload>, direct: seq<Payload>) returns (w': Landing)
    requires Thinned(gone, notes, offered, w) && |direct| <= 1 && forall p :: p in buffer ==> p.IsStream()
    ensures Thinned(gone + buffer + direct, notes + Notes(tables, buffer) + PassedBy(direct),
                    offered + AbsorbAll(tables, buffer).out + direct, w')
  {
    var out := AbsorbAll(tables, buffer).out;
    var noted := notes + Notes(tables, buffer);
    var flushed := AbsorbAllThins(tables, buffer);
    ThinnedAppend(gone, notes, offered, w, buffer, Notes(tables, buffer), out, flushed);
    w' := Joined(w, flushed, |gone|, |offered|);
    if direct == [] {
      assert gone + buffer + direct == gone + buffer && noted + PassedBy(direct) == noted;
      assert offered + out + direct == offered + out;
    } else {
      assert direct == [direct[0]] && PassedBy(direct) == [Unrouted];
      w' := ThinnedKeep(gone + buffer, noted, offered + out, w', direct[0], Unrouted);
    }
  }

  lemma {:induction false} ReleasePicks(b: Bridge, released: seq<Payload>, net: Net, picked: seq<nat>) returns (picked': seq<nat>)
    requires net.limits.Valid() && |b.queue.pending| <= net.limits.maxQueue
    requires Picks(ToClientEvents(b.offered), b.queue.All(), picked)
    ensures var queue := Upload(b.queue, ToClientEvents(released), net.limits, net.accepts).0;
            && Picks(ToClientEvents(b.offered + released), queue.All(), picked')
            && |queue.pending| <= net.limits.maxQueue
  {
    var taken := UploadConserves(b.queue, ToClientEvents(released), net.limits, net.accepts);
    picked' := PicksAppend(ToClientEvents(b.offered), b.queue.All(), picked, ToClientEvents(released), taken);
    assert ToClientEvents(b.offered + released) == ToClientEvents(b.offered) + ToClientEvents(released);
  }

  lemma {:induction false} DrainInOrder(b: Bridge, direct: seq<Payload>, net: Net, w: Landing, picked: seq<nat>)
      returns (w': Landing, picked': seq<nat>)
    requires net.limits.Valid() && InOrder(b, net, w, picked)
    requires |direct| <= 1
    ensures InOrder(AfterDrain(b, direct, net).0, net, w', picked')
  {
    var out := AbsorbAll(b.tables, b.buffer).out;
    AbsorbAllNoLeak(b.tables, b.buffer);
    w' := ReleaseThins(Gone(b), b.notes, b.offered, w, b.tables, b.buffer, direct);
    picked' := ReleasePicks(b, out + direct, net, picked);
    var b' := AfterDrain(b, direct, net).0;
    assert b'.offered == b.offered + (out + direct) == b.offered + out + direct;
    assert Gone(b') == b'.sent == Gone(b) + b.buffer + direct;
  }

  lemma {:induction false} BufferInOrder(b: Bridge, p: Payload, later: nat, net: Net, w: Landing, picked: seq<nat>)
    requires InOrder(b, net, w, picked) && p.IsStream()
    ensures InOrder(Buffered(b, p, later), net, w, picked)
  {
    assert Gone(Buffered(b, p, later)) == Gone(b);
  }

  lemma {:induction false} SendInOrder(b: Bridge, msg: Message, now: nat, later: nat, net: Net, w: Landing, picked: seq<nat>)
      returns (w': Landing, picked': seq<nat>)
    requires net.limits.Valid() && InOrder(b, net, w, picked)
    ensures InOrder(AfterSend(b, msg, now, later, net).0, net, w', picked')
  {
    var (reported, first) := AfterReport(b, msg.Report(), net);
    assert InOrder(reported, net, w, picked);
    w', picked' := w, picked;
    if first == Ok {
      if msg.payload.IsStream() {
        w', picked' := ExpiryInOrder(reported, now, net, w, picked);
        BufferInOrder(AfterExpiry(reported, now, net).0, msg.payload, later, net, w', picked');
      } else {
        w', picked' := DrainInOrder(reported, [msg.payload], net, w, picked);
        CompleteNoLeak(AfterDrain(reported, [msg.payload], net).0.tables, msg.payload);
      }
    }
  }

  lemma {:induction false} ExpiryInOrder(b: Bridge, now: nat, net: Net, w: Landing, picked: seq<nat>)
      returns (w': Landing, picked': seq<nat>)
    requires net.limits.Valid() && InOrder(b, net, w, picked)
    ensures InOrder(AfterExpiry(b, now, net).0, net, w', picked')
  {
    w', picked' := w, picked;
    if Expired(b, now) {
      w', picked' := DrainInOrder(b, [], net, w, picked);
    }
  }

  lemma {:induction false} FlushInOrder(b: Bridge, net: Net, w: Landing, picked: seq<nat>) returns (w': Landing, picked': seq<nat>)
    requires net.limits.Valid() && InOrder(b, net, w, picked)
    ensures InOrder(AfterFlushPending(b, net).0, net, w', picked')
  {
    w', picked' := DrainInOrder(b, [], net, w, picked);
    FlushConserves(AfterDrain(b, [], net).0.queue, net.limits, net.accepts);
  }

  lemma {:induction false} ReceiveInOrder(b: Bridge, event: Inbound, net: Net, w: Landing, picked: seq<nat>)
    requires InOrder(b, net, w, picked)
    ensures InOrder(AfterReceive(b, event, net).0, net, w, picked)
  {
    assert Gone(AfterReceive(b, event, net).0) == Gone(b);
  }

  lemma {:induction false} StepInOrder(b: Bridge, action: Action, net: Net, w: Landing, picked: seq<nat>)
      returns (w': Landing, picked': seq<nat>)
    requires net.limits.Valid() && InOrder(b, net, w, picked)
    ensures InOrder(Step(b, action, net), net, w', picked')
  {
    match action {
      case Sending(msg, now, later) => w', picked' := SendInOrder(b, msg, now, later, net, w, picked);
      case Receiving(event) =>
        ReceiveInOrder(b, event, net, w, picked);
        w', picked' := w, picked;
      case Tick(now) => w', picked' := ExpiryInOrder(b, now, net, w, picked);
      case FlushAll => w', picked' := FlushInOrder(b, net, w, picked);
    }
  }

  /** Whatever calls fail, the released events are the sent payloads thinned, and the events handed
      to the client followed by the queue are released events in order, none of them twice. The queue
      stays within its limit and no stream state leaks. */
  lemma {:induction false} RunKeepsOrder(actions: seq<Action>, net: Net) returns (w: Landing, picked: seq<nat>)
    requires net.limits.Valid()
    ensures InOrder(Run(actions, net), net, w, picked)
  {
    if actions == [] {
      w, picked := Landing([], [], []), [];
      assert InOrder(CONNECTED, net, w, picked);
    } else {
      var init := actions[..|actions| - 1];
      w, picked := RunKeepsOrder(init, net);
      w, picked := StepInOrder(Run(init, net), actions[|actions| - 1], net, w, picked);
    }
  }

  /** The event tells of sent payload k with the text noted for payload l: if l is another payload,
      it is a later delta of the same block, with nothing but stream events in between. */
  ghost predicate TellsOf(b: Bridge, event: ClientEvent, k: nat, l: nat)
    requires |b.notes| == |Gone(b)|
  {
    && k < |b.notes| && l < |b.notes|
    && event == ClientEvent(Stamped(b.sent[k], b.notes[l]), b.sent[k].IsStream())
    && (k == l || AbsorbedInto(Gone(b), b.notes, k, l))
  }

  lemma {:induction false} TellsOfSent(b: Bridge, net: Net, w: Landing, picked: seq<nat>, i: nat)
    requires InOrder(b, net, w, picked) && i < |picked|
    ensures picked[i] < |w.kept| && i < |b.queue.All()|
    ensures TellsOf(b, b.queue.All()[i], w.kept[picked[i]], w.last[picked[i]])
  {
    var at := picked[i];
    assert Tells(Gone(b), b.notes, b.offered, w, at) && Landed(Gone(b), b.notes, w, w.last[at]);
    assert b.sent[w.kept[at]] == Gone(b)[w.kept[at]];
    assert b.queue.All()[i] == ToClientEvents(b.offered)[at];
  }

  /** At most once, in order, whatever fails: each event handed over or still queued comes from its own
      sent payload, the sent payloads they come from are in the order of sending, and the text of a delta
      is what the tables held for its block after some delta absorbed into it. */
  lemma {:induction false} AtMostOnceInOrder(actions: seq<Action>, net: Net) returns (origin: seq<nat>, through: seq<nat>)
    requires net.limits.Valid()
    ensures var b := Run(actions, net);
            && |origin| == |through| == |b.queue.All()|
            && |b.notes| == |Gone(b)| && Increasing(origin, |b.sent|)
            && forall i :: 0 <= i < |origin| ==> TellsOf(b, b.queue.All()[i], origin[i], through[i])
  {
    var b := Run(actions, net);
    var w, picked := RunKeepsOrder(actions, net);
    origin := seq(|picked|, i requires 0 <= i < |picked| => w.kept[picked[i]]);
    through := seq(|picked|, i requires 0 <= i < |picked| => w.last[picked[i]]);
    forall i | 0 <= i < |origin|
      ensures TellsOf(b, b.queue.All()[i], origin[i], through[i])
    {
      TellsOfSent(b, net, w, picked, i);
    }
  }

  // ---------- meaning, when every call succeeds ----------

  /** Everything released has been handed over. */
  ghost predicate Settled(b: Bridge) {
    && b.queue.pending == []
    && Flatten(b.queue.handed) == ToClientEvents(b.offered)
  }

  lemma {:induction false} DrainSettles(b: Bridge, direct: seq<Payload>, net: Net)
    requires net.limits.Valid() && net.AllSucceed() && Settled(b)
    ensures Settled(AfterDrain(b, direct, net).0) && AfterDrain(b, direct, net).1 == Ok
  {
    var released := AbsorbAll(b.tables, b.buffer).out + direct;
    var taken := UploadConserves(b.queue, ToClientEvents(released), net.limits, net.accepts);
    BackpressureExactly(b.queue, ToClientEvents(released), net.limits, net.accepts);
    assert ToClientEvents(b.offered + released) == ToClientEvents(b.offered) + ToClientEvents(released);
    var queue := AfterDrain(b, direct, net).0.queue;
    assert queue.pending == [] && b.queue.All() == Flatten(b.queue.handed);
    assert queue.All() == Flatten(queue.handed);
    assert ToClientEvents(released)[..taken] == ToClientEvents(released);
  }

  /** What the two readers make of the run so far: one reads the events handed to the client, the
      other the raw payloads that have left the buffer. */
  ghost predicate Agrees(b: Bridge) {
    ReadSnapshots(NEW_READER, Payloads(Flatten(b.queue.handed))) == ReadRaw(NEW_READER, Gone(b))
  }

  ghost predicate Shaped(b: Bridge) {
    && Settled(b)
    && |b.buffer| <= |b.sent| && b.sent == Gone(b) + b.buffer
    && forall p :: p in b.buffer ==> p.IsStream()
  }

  /** The tables hold what the reader of the raw payloads knows, and the notes taken so far are those
      of that reader. */
  ghost predicate Knows(b: Bridge) {
    && Holds(b.tables, ReadRaw(NEW_READER, Gone(b)))
    && b.notes == ReaderNotes(NEW_READER, Gone(b))
  }

  /** Does this call empty the buffer? */
  predicate Releases(b: Bridge, action: Action) {
    match action
    case Sending(msg, now, _) => if msg.payload.IsStream() then Expired(b, now) else true
    case Receiving(_) => false
    case Tick(now) => Expired(b, now)
    case FlushAll => true
  }

  /** The call does not release a block that was written, restarted and written again. */
  ghost predicate Safe(b: Bridge, action: Action) {
    Releases(b, action) ==> !RestartsMidBuffer(FollowAll(NEW_READER.routing, Gone(b)), b.buffer)
  }

  lemma {:induction false} DirectAgrees(snap: Reader, raw: Reader, p: Payload)
    requires !p.IsStream() && snap.routing == raw.routing
    ensures ReadOverwriting(snap, p) == ReadAppending(raw, p) <==> snap == raw
  {
  }

  lemma {:induction false} CompleteHolds(tables: Tables, raw: Reader, p: Payload)
    requires Holds(tables, raw) && !p.IsStream()
    ensures Holds(Complete(tables, p), ReadAppending(raw, p))
  {
    assert Complete(tables, p).blocks.Keys == ReadAppending(raw, p).routing.open;
  }

  /** A payload that is not a stream event leaves the readers as much apart as they were. */
  lemma {:induction false} ReadDirect(gone: seq<Payload>, offered: seq<Payload>, direct: seq<Payload>)
    requires |direct| <= 1 && forall p :: p in direct ==> !p.IsStream()
    requires ReadSnapshots(NEW_READER, offered).routing == ReadRaw(NEW_READER, gone).routing
    ensures ReadSnapshots(NEW_READER, offered + direct) == ReadRaw(NEW_READER, gone + direct)
            <==> ReadSnapshots(NEW_READER, offered) == ReadRaw(NEW_READER, gone)
  {
    if direct == [] {
      assert offered + direct == offered && gone + direct == gone;
    } else {
      assert direct == [direct[0]];
      OneMore(NEW_READER, offered, direct[0]);
      OneMore(NEW_READER, gone, direct[0]);
      DirectAgrees(ReadSnapshots(NEW_READER, offered), ReadRaw(NEW_READER, gone), direct[0]);
    }
  }

  /** Reading on: a flush of the buffer and then a payload that is not a stream event. */
  lemma {:induction false} ReadOn(gone: seq<Payload>, offered: seq<Payload>, tables: Tables, buffer: seq<Payload>, direct: seq<Payload>)
    requires Holds(tables, ReadRaw(NEW_READER, gone)) && forall p :: p in buffer ==> p.IsStream()
    requires ReadSnapshots(NEW_READER, offered) == ReadRaw(NEW_READER, gone)
    requires |direct| <= 1 && forall p :: p in direct ==> !p.IsStream()
    ensures ReadSnapshots(NEW_READER, offered + AbsorbAll(tables, buffer).out + direct)
            == ReadRaw(NEW_READER, gone + buffer + direct)
            <==> !RestartsMidBuffer(FollowAll(NEW_READER.routing, gone), buffer)
  {
    var out := AbsorbAll(tables, buffer).out;
    ReadRawFollows(NEW_READER, gone);
    FlushAgreesExactly(ReadRaw(NEW_READER, gone), tables, buffer);
    ReadRawAppend(NEW_READER, gone, buffer);
    ReadSnapshotsAppend(NEW_READER, offered, out);
    ReadDirect(gone + buffer, offered + out, direct);
  }

  /** The notes taken at a flush are those of the reader of the raw payloads. */
  lemma {:induction false} NotesOn(gone: seq<Payload>, tables: Tables, buffer: seq<Payload>)
    requires Holds(tables, ReadRaw(NEW_READER, gone)) && forall p :: p in buffer ==> p.IsStream()
    ensures Holds(AbsorbAll(tables, buffer).tables, ReadRaw(NEW_READER, gone + buffer))
    ensures ReaderNotes(NEW_READER, gone) + Notes(tables, buffer) == ReaderNotes(NEW_READER, gone + buffer)
  {
    var r := ReadRaw(NEW_READER, gone);
    FlushAgreesExactly(r, tables, buffer);
    ReadRawAppend(NEW_READER, gone, buffer);
    SameNotes(tables, r, buffer);
    ReaderNotesAppend(NEW_READER, gone, buffer);
  }

  lemma {:induction false} NotesPassBy(r: Reader, gone: seq<Payload>, direct: seq<Payload>)
    requires |direct| <= 1 && forall p :: p in direct ==> !p.IsStream()
    ensures ReaderNotes(r, gone) + PassedBy(direct) == ReaderNotes(r, gone + direct)
  {
    if direct == [] {
      assert gone + direct == gone && ReaderNotes(r, gone) + PassedBy(direct) == ReaderNotes(r, gone);
    } else {
      assert direct == [direct[0]] && PassedBy(direct) == [Unrouted];
      assert (gone + direct)[..|gone|] == gone;
    }
  }

  lemma {:induction false} AgreesWhenSettled(b: Bridge, gone: seq<Payload>)
    requires Settled(b) && Gone(b) == gone
    ensures Agrees(b) <==> ReadSnapshots(NEW_READER, b.offered) == ReadRaw(NEW_READER, gone)
  {
    assert Payloads(Flatten(b.queue.handed)) == b.offered;
  }

  lemma {:induction false} ReleaseAgrees(b: Bridge, b': Bridge, direct: seq<Payload>)
    requires Shaped(b) && Knows(b) && Agrees(b) && Settled(b')
    requires |direct| <= 1 && forall p :: p in direct ==> !p.IsStream()
    requires Gone(b') == Gone(b) + b.buffer + direct
    requires b'.offered == b.offered + AbsorbAll(b.tables, b.buffer).out + direct
    ensures Agrees(b') <==> !RestartsMidBuffer(FollowAll(NEW_READER.routing, Gone(b)), b.buffer)
  {
    AgreesWhenSettled(b, Gone(b));
    AgreesWhenSettled(b', Gone(b) + b.buffer + direct);
    ReadOn(Gone(b), b.offered, b.tables, b.buffer, direct);
  }

  lemma {:induction false} DrainReleases(b: Bridge, direct: seq<Payload>, net: Net)
    requires net.limits.Valid() && Shaped(b)
    ensures var b' := AfterDrain(b, direct, net).0;
            && b'.buffer == [] && b'.sent == b.sent + direct && Gone(b') == b'.sent
            && Gone(b') == Gone(b) + b.buffer + direct
            && b'.tables == AbsorbAll(b.tables, b.buffer).tables
            && b'.offered == b.offered + AbsorbAll(b.tables, b.buffer).out + direct
            && b'.notes == b.notes + Notes(b.tables, b.buffer) + PassedBy(direct)
  {
    var out := AbsorbAll(b.tables, b.buffer).out;
    assert b.offered + (out + direct) == b.offered + out + direct;
  }

  lemma {:induction false} DrainKnows(b: Bridge, direct: seq<Payload>, net: Net)
    requires net.limits.Valid() && Shaped(b) && Knows(b)
    requires |direct| <= 1 && forall p :: p in direct ==> !p.IsStream()
    ensures var b' := AfterDrain(b, direct, net).0;
            && Holds(b'.tables, ReadRaw(NEW_READER, b.sent))
            && b'.notes == ReaderNotes(NEW_READER, b.sent + direct)
  {
    NotesOn(Gone(b), b.tables, b.buffer);
    NotesPassBy(NEW_READER, b.sent, direct);
  }

  lemma {:induction false} DrainShaped(b: Bridge, direct: seq<Payload>, net: Net)
    requires net.limits.Valid() && net.AllSucceed() && Shaped(b)
    ensures AfterDrain(b, direct, net).1 == Ok && Shaped(AfterDrain(b, direct, net).0)
  {
    DrainSettles(b, direct, net);
    DrainReleases(b, direct, net);
  }

  lemma {:induction false} DrainAgrees(b: Bridge, direct: seq<Payload>, net: Net)
    requires net.limits.Valid() && net.AllSucceed() && Shaped(b) && Knows(b)
    requires |direct| <= 1 && forall p :: p in direct ==> !p.IsStream()
    ensures AfterDrain(b, direct, net).1 == Ok
    ensures Shaped(AfterDrain(b, direct, net).0) && Gone(AfterDrain(b, direct, net).0) == b.sent + direct
    ensures Agrees(b) ==> (Agrees(AfterDrain(b, direct, net).0)
                           <==> !RestartsMidBuffer(FollowAll(NEW_READER.routing, Gone(b)), b.buffer))
  {
    var b' := AfterDrain(b, direct, net).0;
    DrainShaped(b, direct, net);
    DrainReleases(b, direct, net);
    if Agrees(b) {
      ReleaseAgrees(b, b', direct);
    }
  }

  lemma {:induction false} ReportSucceeds(b: Bridge, report: Option<StateReport>, net: Net)
    requires net.AllSucceed()
    ensures AfterReport(b, report, net).1 == Ok
    ensures var b' := AfterReport(b, report, net).0;
            b' == b.(status := b'.status, reports := b'.reports)
  {
  }

  /** What one call does to a bridge that knows its reader: it goes on knowing it, and if the two
      readers agreed they go on agreeing exactly when the call is safe. */
  ghost predicate Carries(b: Bridge, b': Bridge, safe: bool) {
    && Shaped(b') && Knows(b')
    && (Agrees(b) ==> (Agrees(b') <==> safe))
  }

  lemma {:induction false} BufferedAgrees(b: Bridge, p: Payload, later: nat)
    requires Shaped(b) && Knows(b) && p.IsStream()
    ensures Carries(b, Buffered(b, p, later), true)
    ensures Agrees(Buffered(b, p, later)) <==> Agrees(b)
  {
    assert Gone(Buffered(b, p, later)) == Gone(b);
  }

  lemma {:induction false} DrainCarries(b: Bridge, net: Net)
    requires net.limits.Valid() && net.AllSucceed() && Shaped(b) && Knows(b)
    ensures AfterDrain(b, [], net).1 == Ok
    ensures Carries(b, AfterDrain(b, [], net).0, !RestartsMidBuffer(FollowAll(NEW_READER.routing, Gone(b)), b.buffer))
  {
    DrainAgrees(b, [], net);
    DrainKnows(b, [], net);
    assert b.sent + [] == b.sent;
  }

  lemma {:induction false} ExpiryAgrees(b: Bridge, now: nat, net: Net)
    requires net.limits.Valid() && net.AllSucceed() && Shaped(b) && Knows(b)
    ensures AfterExpiry(b, now, net).1 == Ok
    ensures Carries(b, AfterExpiry(b, now, net).0, Safe(b, Tick(now)))
  {
    if Expired(b, now) {
      DrainCarries(b, net);
    }
  }

  lemma {:induction false} SendStreamAgrees(b: Bridge, msg: Message, now: nat, later: nat, net: Net)
    requires net.limits.Valid() && net.AllSucceed() && Shaped(b) && Knows(b) && msg.payload.IsStream()
    ensures Carries(b, AfterSend(b, msg, now, later, net).0, Safe(b, Sending(msg, now, later)))
  {
    ReportSucceeds(b, msg.Report(), net);
    var reported := AfterReport(b, msg.Report(), net).0;
    assert Gone(reported) == Gone(b);
    ExpiryAgrees(reported, now, net);
    var flushed := AfterExpiry(reported, now, net).0;
    assert AfterSend(b, msg, now, later, net).0 == Buffered(flushed, msg.payload, later);
    BufferedAgrees(flushed, msg.payload, later);
  }

  lemma {:induction false} CompletedAgrees(b: Bridge, p: Payload, gone: seq<Payload>)
    requires Shaped(b) && Gone(b) == gone + [p] && !p.IsStream() && Holds(b.tables, ReadRaw(NEW_READER, gone))
    requires b.notes == ReaderNotes(NEW_READER, gone + [p])
    ensures var b' := b.(tables := Complete(b.tables, p));
            Shaped(b') && Knows(b') && (Agrees(b') <==> Agrees(b))
  {
    CompleteHolds(b.tables, ReadRaw(NEW_READER, gone), p);
    OneMore(NEW_READER, gone, p);
    assert Gone(b.(tables := Complete(b.tables, p))) == Gone(b);
  }

  lemma {:induction false} SendDirectAgrees(b: Bridge, msg: Message, now: nat, later: nat, net: Net)
    requires net.limits.Valid() && net.AllSucceed() && Shaped(b) && Knows(b) && !msg.payload.IsStream()
    ensures Carries(b, AfterSend(b, msg, now, later, net).0, Safe(b, Sending(msg, now, later)))
  {
    ReportSucceeds(b, msg.Report(), net);
    var reported := AfterReport(b, msg.Report(), net).0;
    assert Gone(reported) == Gone(b);
    DrainAgrees(reported, [msg.payload], net);
    DrainKnows(reported, [msg.payload], net);
    var drained := AfterDrain(reported, [msg.payload], net).0;
    CompletedAgrees(drained, msg.payload, b.sent);
    assert AfterSend(b, msg, now, later, net).0 == drained.(tables := Complete(drained.tables, msg.payload));
  }

  /** With working calls nothing is left in the queue for the second part of the final flush. */
  lemma {:induction false} FlushIsDrain(b: Bridge, net: Net)
    requires net.limits.Valid() && net.AllSucceed() && Settled(b)
    ensures AfterFlushPending(b, net) == (AfterDrain(b, [], net).0, Ok)
  {
    DrainSettles(b, [], net);
  }

  lemma {:induction false} FlushAgrees(b: Bridge, net: Net)
    requires net.limits.Valid() && net.AllSucceed() && Shaped(b) && Knows(b)
    ensures Carries(b, AfterFlushPending(b, net).0, Safe(b, FlushAll))
  {
    FlushIsDrain(b, net);
    DrainCarries(b, net);
    assert Safe(b, FlushAll) <==> !RestartsMidBuffer(FollowAll(NEW_READER.routing, Gone(b)), b.buffer);
  }

  lemma {:induction false} ReceiveAgrees(b: Bridge, event: Inbound, net: Net)
    requires net.limits.Valid() && net.AllSucceed() && Shaped(b) && Knows(b)
    ensures Carries(b, AfterReceive(b, event, net).0, true)
    ensures Agrees(AfterReceive(b, event, net).0) <==> Agrees(b)
  {
    ReportSucceeds(b, Some(StateReport(Running, None)), net);
    assert Gone(AfterReceive(b, event, net).0) == Gone(b);
  }

  lemma {:induction false} StepAgrees(b: Bridge, action: Action, net: Net)
    requires net.limits.Valid() && net.AllSucceed() && Shaped(b) && Knows(b)
    ensures Carries(b, Step(b, action, net), Safe(b, action))
  {
    match action {
      case Sending(msg, now, later) =>
        if msg.payload.IsStream() {
          SendStreamAgrees(b, msg, now, later, net);
        } else {
          SendDirectAgrees(b, msg, now, later, net);
        }
      case Receiving(event) => ReceiveAgrees(b, event, net);
      case Tick(now) => ExpiryAgrees(b, now, net);
      case FlushAll => FlushAgrees(b, net);
    }
  }

  /** With working calls, in every run: nothing waits in the queue between calls, and the accumulator
      knows what a reader of the raw payloads knows. */
  lemma {:induction false} RunSettles(actions: seq<Action>, net: Net)
    requires net.limits.Valid() && net.AllSucceed()
    ensures Settled(Run(actions, net)) && Shaped(Run(actions, net)) && Knows(Run(actions, net))
  {
    if actions != [] {
      var b := Run(actions[..|actions| - 1], net);
      RunSettles(actions[..|actions| - 1], net);
      StepAgrees(b, actions[|actions| - 1], net);
    }
  }

  ghost predicate SafeUpTo(actions: seq<Action>, n: nat, net: Net)
    requires net.limits.Valid() && n <= |actions|
  {
    forall i :: 0 <= i < n ==> Safe(Run(actions[..i], net), actions[i])
  }

  /** Call number n of the run is the step from the state before it. */
  lemma {:induction false} RunOneMore(actions: seq<Action>, n: nat, net: Net)
    requires net.limits.Valid() && n < |actions|
    ensures Run(actions[..n + 1], net) == Step(Run(actions[..n], net), actions[n], net)
  {
    assert actions[..n + 1][..n] == actions[..n];
  }

  lemma {:induction false} SafeRunAgrees(actions: seq<Action>, n: nat, net: Net)
    requires net.limits.Valid() && net.AllSucceed() && n <= |actions| && SafeUpTo(actions, n, net)
    ensures Agrees(Run(actions[..n], net))
  {
    if n == 0 {
      assert Run(actions[..0], net) == CONNECTED;
    } else {
      var b := Run(actions[..n - 1], net);
      SafeRunAgrees(actions, n - 1, net);
      RunSettles(actions[..n - 1], net);
      RunOneMore(actions, n - 1, net);
      assert Safe(b, actions[n - 1]);
      StepAgrees(b, actions[n - 1], net);
    }
  }

  /** After every call the reader of the handed events knows what the reader of the raw payloads
      knows, exactly when no call releases a block that was written, restarted and written again. */
  lemma {:induction false} MergingPreservesMeaningExactly(actions: seq<Action>, net: Net)
    requires net.limits.Valid() && net.AllSucceed()
    ensures (forall n :: 0 <= n <= |actions| ==> Agrees(Run(actions[..n], net))) <==> SafeUpTo(actions, |actions|, net)
  {
    if SafeUpTo(actions, |actions|, net) {
      forall n | 0 <= n <= |actions|
        ensures Agrees(Run(actions[..n], net))
      {
        SafeRunAgrees(actions, n, net);
      }
    } else {
      var n := FirstUnsafe(actions, |actions|, net);
      SafeRunAgrees(actions, n, net);
      RunSettles(actions[..n], net);
      RunOneMore(actions, n, net);
      StepAgrees(Run(actions[..n], net), actions[n], net);
      assert !Agrees(Run(actions[..n + 1], net));
    }
  }

  lemma {:induction false} FirstUnsafe(actions: seq<Action>, n: nat, net: Net) returns (i: nat)
    requires net.limits.Valid() && n <= |actions| && !SafeUpTo(actions, n, net)
    ensures i < n && SafeUpTo(actions, i, net) && !Safe(Run(actions[..i], net), actions[i])
  {
    if SafeUpTo(actions, n - 1, net) {
      i := n - 1;
    } else {
      i := FirstUnsafe(actions, n - 1, net);
    }
  }

  lemma {:induction false} SendSends(b: Bridge, msg: Message, now: nat, later: nat, net: Net)
    requires net.limits.Valid()
    ensures b.sent <= AfterSend(b, msg, now, later, net).0.sent
  {
    var reported := AfterReport(b, msg.Report(), net).0;
    assert reported.sent == b.sent;
    if msg.payload.IsStream() {
      ExpirySends(reported, now, net);
    }
  }

  lemma {:induction false} ExpirySends(b: Bridge, now: nat, net: Net)
    requires net.limits.Valid()
    ensures AfterExpiry(b, now, net).0.sent == b.sent
  {
    assert b.sent + [] == b.sent;
  }

  lemma {:induction false} StepSends(b: Bridge, action: Action, net: Net)
    requires net.limits.Valid()
    ensures b.sent <= Step(b, action, net).sent
  {
    match action {
      case Sending(msg, now, later) => SendSends(b, msg, now, later, net);
      case Receiving(_) =>
      case Tick(now) => ExpirySends(b, now, net);
      case FlushAll => assert AfterFlushPending(b, net).0.sent == b.sent + [];
    }
  }

  lemma {:induction false} SentGrows(actions: seq<Action>, n: nat, net: Net)
    requires net.limits.Valid() && n <= |actions|
    ensures Run(actions[..n], net).sent <= Run(actions, net).sent
  {
    if n == |actions| {
      assert actions[..n] == actions;
    } else {
      var init := actions[..|actions| - 1];
      SentGrows(init, n, net);
      assert init[..n] == actions[..n];
      StepSends(Run(init, net), actions[|actions| - 1], net);
    }
  }

  /** If no message id is started twice, the two readers agree after every call, wherever the
      flushes fall. */
  lemma {:induction false} CoalescingPreservesMeaning(actions: seq<Action>, net: Net)
    requires net.limits.Valid() && net.AllSucceed()
    requires StartsOnce(Run(actions, net).sent)
    ensures forall n :: 0 <= n <= |actions| ==> Agrees(Run(actions[..n], net))
  {
    forall i | 0 <= i < |actions|
      ensures Safe(Run(actions[..i], net), actions[i])
    {
      var b := Run(actions[..i], net);
      var w, picked := RunKeepsOrder(actions[..i], net);
      SentGrows(actions, i, net);
      assert forall j :: 0 <= j < |b.sent| ==> b.sent[j] == Run(actions, net).sent[j];
      StartsOnceSuffices(Gone(b), b.buffer);
    }
    MergingPreservesMeaningExactly(actions, net);
  }

  /** With working calls, after a final flush nothing is left anywhere: the client was handed exactly
      the sent payloads, thinned, in the order of sending; a delta is only left out for an earlier one
      of the block a reader would write, and a kept one has the text that a reader who appends every raw
      delta has after the last delta absorbed into it. */
  lemma {:induction false} FinalFlushDeliversAll(actions: seq<Action>, net: Net) returns (w: Landing)
    requires net.limits.Valid() && net.AllSucceed()
    ensures var b := Run(actions + [FlushAll], net);
            && b.buffer == [] && b.queue.pending == []
            && Flatten(b.queue.handed) == ToClientEvents(b.offered)
            && Thinned(b.sent, ReaderNotes(NEW_READER, b.sent), b.offered, w)
            && b.sent == Run(actions, net).sent
  {
    var all := actions + [FlushAll];
    FlushEmpties(actions, net);
    RunSettles(all, net);
    var picked;
    w, picked := RunKeepsOrder(all, net);
  }

  lemma {:induction false} FlushEmpties(actions: seq<Action>, net: Net)
    requires net.limits.Valid() && net.AllSucceed()
    ensures var b := Run(actions + [FlushAll], net);
            b.buffer == [] && Gone(b) == b.sent == Run(actions, net).sent
  {
    var all, b := actions + [FlushAll], Run(actions, net);
    assert all[..|all| - 1] == actions;
    RunSettles(actions, net);
    DrainReleases(b, [], net);
    FlushIsDrain(b, net);
    assert b.sent + [] == b.sent;
  }

  // ---------- acknowledgements ----------

  datatype DeliveryUse = Acknowledge(event: Inbound) | FlushUpdates

  /** The delivery queue after any sequence of received events and flushes. */
  function AfterDeliveries(uses: seq<DeliveryUse>, limits: Limits<DeliveryUpdate>, accepts: nat -> bool): Queue<DeliveryUpdate>
    requires limits.Valid()
  {
    if uses == [] then Queue([], [])
    else
      var q := AfterDeliveries(uses[..|uses| - 1], limits, accepts);
      match uses[|uses| - 1]
      case Acknowledge(event) => Deliver(q, Acknowledgements(event), limits, accepts).0
      case FlushUpdates => FlushQueue(q, limits, accepts).0
  }

  /** `parts` are the two updates, received and then processed, of the events received at these places. */
  ghost predicate Acknowledges(uses: seq<DeliveryUse>, parts: seq<seq<DeliveryUpdate>>, at: seq<nat>) {
    && |parts| == |at| && Increasing(at, |uses|)
    && forall i :: 0 <= i < |parts| ==>
         && uses[at[i]].Acknowledge?
         && parts[i] == [DeliveryUpdate(uses[at[i]].event.id, Received), DeliveryUpdate(uses[at[i]].event.id, Processed)]
  }

  /** Every event received is among these. */
  ghost predicate NoneMissing(uses: seq<DeliveryUse>, at: seq<nat>) {
    forall k :: 0 <= k < |uses| && uses[k].Acknowledge? ==> k in at
  }

  lemma {:induction false} AcknowledgesPush(uses: seq<DeliveryUse>, event: Inbound, parts: seq<seq<DeliveryUpdate>>, at: seq<nat>)
    requires Acknowledges(uses, parts, at)
    ensures Acknowledges(uses + [Acknowledge(event)], parts + [Acknowledgements(event)], at + [|uses|])
    ensures NoneMissing(uses, at) ==> NoneMissing(uses + [Acknowledge(event)], at + [|uses|])
  {
    var uses', parts', at' := uses + [Acknowledge(event)], parts + [Acknowledgements(event)], at + [|uses|];
    forall i | 0 <= i < |parts'|
      ensures uses'[at'[i]].Acknowledge?
      ensures parts'[i] == [DeliveryUpdate(uses'[at'[i]].event.id, Received), DeliveryUpdate(uses'[at'[i]].event.id, Processed)]
    {
      if i < |parts| {
        assert uses'[at[i]] == uses[at[i]];
      }
    }
    if NoneMissing(uses, at) {
      assert at'[|at|] == |uses|;
      forall k | 0 <= k < |uses'| && uses'[k].Acknowledge?
        ensures k in at'
      {
        assert k < |uses| ==> uses[k].Acknowledge?;
      }
    }
  }

  lemma {:induction false} AcknowledgesSkip(uses: seq<DeliveryUse>, use: DeliveryUse, parts: seq<seq<DeliveryUpdate>>, at: seq<nat>)
    requires Acknowledges(uses, parts, at)
    ensures Acknowledges(uses + [use], parts, at)
    ensures NoneMissing(uses, at) && !use.Acknowledge? ==> NoneMissing(uses + [use], at)
  {
    assert forall k :: 0 <= k < |uses| ==> (uses + [use])[k] == uses[k];
  }

  /** The updates of one more event join what is handed over or waits, or are refused; without failures
      they join. */
  lemma {:induction false} AcknowledgementsJoin(q: Queue<DeliveryUpdate>, event: Inbound, limits: Limits<DeliveryUpdate>,
                                                accepts: nat -> bool) returns (taken: bool)
    requires limits.Valid() && |q.pending| <= limits.maxQueue
    ensures var q' := Deliver(q, Acknowledgements(event), limits, accepts).0;
            && q'.All() == (if taken then q.All() + Acknowledgements(event) else q.All())
            && |q'.pending| <= limits.maxQueue
    ensures (forall call: nat :: accepts(call)) && limits.maxQueue >= 2 ==> taken
  {
    var updates := Acknowledgements(event);
    taken := DeliverConserves(q, updates, limits, accepts);
    if (forall call: nat :: accepts(call)) && limits.maxQueue >= 2 {
      DeliveredWithoutFailures(q, updates, limits, accepts);
    }
  }

  /** Whatever calls fail, the updates handed over or waiting are the acknowledgements of some of the
      received events, both updates of an event together, once, and in the order of receipt; without
      failures none is missing. */
  lemma {:induction false} AcknowledgedInOrder(uses: seq<DeliveryUse>, limits: Limits<DeliveryUpdate>, accepts: nat -> bool)
      returns (parts: seq<seq<DeliveryUpdate>>, at: seq<nat>)
    requires limits.Valid()
    ensures Acknowledges(uses, parts, at)
    ensures AfterDeliveries(uses, limits, accepts).All() == Flatten(parts)
    ensures |AfterDeliveries(uses, limits, accepts).pending| <= limits.maxQueue
    ensures (forall call: nat :: accepts(call)) && limits.maxQueue >= 2 ==> NoneMissing(uses, at)
  {
    if uses == [] {
      parts, at := [], [];
    } else {
      var init, use := uses[..|uses| - 1], uses[|uses| - 1];
      assert uses == init + [use];
      var q := AfterDeliveries(init, limits, accepts);
      parts, at := AcknowledgedInOrder(init, limits, accepts);
      match use {
        case Acknowledge(event) =>
          var taken := AcknowledgementsJoin(q, event, limits, accepts);
          if taken {
            AcknowledgesPush(init, event, parts, at);
            FlattenPush(parts, Acknowledgements(event));
            parts, at := parts + [Acknowledgements(event)], at + [|init|];
          } else {
            AcknowledgesSkip(init, use, parts, at);
          }
        case FlushUpdates =>
          FlushConserves(q, limits, accepts);
          AcknowledgesSkip(init, use, parts, at);
      }
    }
  }

  lemma {:induction false} DeliveredWithoutFailures(q: Queue<DeliveryUpdate>, updates: seq<DeliveryUpdate>, limits: Limits<DeliveryUpdate>,
                                 accepts: nat -> bool)
    requires limits.Valid() && |q.pending| <= limits.maxQueue && |updates| <= limits.maxQueue
    requires forall call: nat :: accepts(call)
    ensures Deliver(q, updates, limits, accepts).1 == Done
  {
    FlushConserves(q, limits, accepts);
    var q' := if |q.pending| + |updates| > limits.maxQueue then FlushQueue(q, limits, accepts).0 else q;
    FlushConserves(q'.(pending := q'.pending + updates), limits, accepts);
  }

  // ---------- worker state and waiting ----------

  /** The status of the last report that got through. */
  function StatusAfter(reports: seq<StateReport>, accepts: nat -> bool): Option<WorkerStatus> {
    if reports == [] then Some(Idle)
    else if accepts(|reports| - 1) then Some(reports[|reports| - 1].status)
    else StatusAfter(reports[..|reports| - 1], accepts)
  }

  ghost predicate NewAt(reports: seq<StateReport>, accepts: nat -> bool, i: nat)
    requires i < |reports|
  {
    reports[i].details.None? ==> Some(reports[i].status) != StatusAfter(reports[..i], accepts)
  }

  /** No report without details repeats the status the worker is known to have. */
  ghost predicate NoRepeatedReport(reports: seq<StateReport>, accepts: nat -> bool) {
    forall i :: 0 <= i < |reports| ==> NewAt(reports, accepts, i)
  }

  lemma {:induction false} ReportOneMore(reports: seq<StateReport>, report: StateReport, accepts: nat -> bool)
    requires NoRepeatedReport(reports, accepts)
    requires report.details.None? ==> Some(report.status) != StatusAfter(reports, accepts)
    ensures NoRepeatedReport(reports + [report], accepts)
    ensures StatusAfter(reports + [report], accepts)
            == if accepts(|reports|) then Some(report.status) else StatusAfter(reports, accepts)
  {
    var longer := reports + [report];
    assert longer[..|reports|] == reports;
    forall i | 0 <= i < |longer|
      ensures NewAt(longer, accepts, i)
    {
      if i < |reports| {
        assert NewAt(reports, accepts, i);
        assert longer[..i] == reports[..i];
      }
    }
  }

  ghost predicate Bookkeeping(b: Bridge, net: Net) {
    && b.status == StatusAfter(b.reports, net.reportAccepts)
    && NoRepeatedReport(b.reports, net.reportAccepts)
    && (b.since.Some? <==> b.buffer != [])
  }

  lemma {:induction false} ReportKeepsBooks(b: Bridge, report: Option<StateReport>, net: Net)
    requires Bookkeeping(b, net)
    ensures Bookkeeping(AfterReport(b, report, net).0, net)
  {
    if report.Some? && (b.status != Some(report.value.status) || report.value.details.Some?) {
      ReportOneMore(b.reports, report.value, net.reportAccepts);
    }
  }

  lemma {:induction false} DrainKeepsBooks(b: Bridge, direct: seq<Payload>, net: Net)
    requires net.limits.Valid() && Bookkeeping(b, net)
    ensures Bookkeeping(AfterDrain(b, direct, net).0, net)
  {
  }

  lemma {:induction false} SendKeepsBooks(b: Bridge, msg: Message, now: nat, later: nat, net: Net)
    requires net.limits.Valid() && Bookkeeping(b, net)
    ensures Bookkeeping(AfterSend(b, msg, now, later, net).0, net)
  {
    ReportKeepsBooks(b, msg.Report(), net);
    var (reported, first) := AfterReport(b, msg.Report(), net);
    DrainKeepsBooks(reported, if msg.payload.IsStream() then [] else [msg.payload], net);
  }

  /** In every run, whatever fails: the known worker status is that of the last report that got
      through, no plain report repeats it, and the waiting clock runs exactly while something waits. */
  lemma {:induction false} RunKeepsBooks(actions: seq<Action>, net: Net)
    requires net.limits.Valid()
    ensures Bookkeeping(Run(actions, net), net)
  {
    if actions != [] {
      var b := Run(actions[..|actions| - 1], net);
      RunKeepsBooks(actions[..|actions| - 1], net);
      match actions[|actions| - 1] {
        case Sending(msg, now, later) => SendKeepsBooks(b, msg, now, later, net);
        case Receiving(event) => ReportKeepsBooks(b, Some(StateReport(Running, None)), net);
        case Tick(now) => DrainKeepsBooks(b, [], net);
        case FlushAll => DrainKeepsBooks(b, [], net);
      }
    }
  }

  /** Nothing waits past the first tick that comes a flush interval after the oldest waiting event. */
  lemma {:induction false} TickEmptiesOldBuffer(actions: seq<Action>, now: nat, net: Net)
    requires net.limits.Valid()
    requires var b := Run(actions, net); b.since.Some? ==> now >= b.since.value + STREAM_EVENT_FLUSH_INTERVAL
    ensures Run(actions + [Tick(now)], net).buffer == []
  {
    var all := actions + [Tick(now)];
    assert all[..|all| - 1] == actions;
    RunKeepsBooks(actions, net);
  }
}
