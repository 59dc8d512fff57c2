/** The text that the client is handed, said over the members of the sent payloads. */
module BridgeText {
  import opened Prelude
  import opened StreamEvents
  import opened Batching
  import opened Coalescing
  import opened Thinning
  import opened StreamText
  import opened BridgeTransport
  import opened BridgeRuns

  // ---------- under any failures: which deltas are absorbed into which ----------

  /** Every routed delta, and every scope in the tables, goes back to a start that was sent. */
  ghost predicate Traced(b: Bridge) {
    && |b.buffer| <= |b.sent| && b.sent == Gone(b) + b.buffer
    && (forall p :: p in b.buffer ==> p.IsStream())
    && Sourced(Gone(b), b.notes)
    && ScopesSourced(Gone(b), b.tables.scopes)
  }

  lemma {:induction false} DirectTraced(gone: seq<Payload>, notes: seq<Note>, scopes: map<string, string>, direct: seq<Payload>)
    requires Sourced(gone, notes) && ScopesSourced(gone, scopes) && |direct| <= 1
    ensures Sourced(gone + direct, notes + PassedBy(direct)) && ScopesSourced(gone + direct, scopes)
  {
    if direct == [] {
      assert gone + direct == gone && notes + PassedBy(direct) == notes;
    } else {
      assert direct == [direct[0]] && PassedBy(direct) == [Unrouted];
      SourcedPush(gone, notes, direct[0], Unrouted);
      ScopesSourcedPush(gone, scopes, direct[0]);
    }
  }

  lemma {:induction false} DrainTraced(b: Bridge, direct: seq<Payload>, net: Net)
    requires net.limits.Valid() && Traced(b) && |direct| <= 1
    ensures Traced(AfterDrain(b, direct, net).0)
  {
    var b' := AfterDrain(b, direct, net).0;
    FlushSourced(Gone(b), b.notes, b.tables, b.buffer);
    DirectTraced(Gone(b) + b.buffer, b.notes + Notes(b.tables, b.buffer), b'.tables.scopes, direct);
    assert Gone(b') == b'.sent == Gone(b) + b.buffer + direct;
  }

  lemma {:induction false} ExpiryTraced(b: Bridge, now: nat, net: Net)
    requires net.limits.Valid() && Traced(b)
    ensures Traced(AfterExpiry(b, now, net).0)
  {
    if Expired(b, now) {
      DrainTraced(b, [], net);
    }
  }

  lemma {:induction false} BufferTraced(b: Bridge, p: Payload, later: nat)
    requires Traced(b) && p.IsStream()
    ensures Traced(Buffered(b, p, later))
  {
    assert Gone(Buffered(b, p, later)) == Gone(b);
  }

  lemma {:induction false} ReportTraced(b: Bridge, report: Option<StateReport>, net: Net)
    requires Traced(b)
    ensures Traced(AfterReport(b, report, net).0)
  {
    assert Gone(AfterReport(b, report, net).0) == Gone(b);
  }

  lemma {:induction false} SendTraced(b: Bridge, msg: Message, now: nat, later: nat, net: Net)
    requires net.limits.Valid() && Traced(b)
    ensures Traced(AfterSend(b, msg, now, later, net).0)
  {
    ReportTraced(b, msg.Report(), net);
    var (reported, first) := AfterReport(b, msg.Report(), net);
    if first == Ok {
      if msg.payload.IsStream() {
        ExpiryTraced(reported, now, net);
        BufferTraced(AfterExpiry(reported, now, net).0, msg.payload, later);
      } else {
        DrainTraced(reported, [msg.payload], net);
        CompleteTraced(AfterDrain(reported, [msg.payload], net).0, msg.payload);
      }
    }
  }

  lemma {:induction false} CompleteTraced(b: Bridge, p: Payload)
    requires Traced(b)
    ensures Traced(b.(tables := Complete(b.tables, p)))
  {
    assert Gone(b.(tables := Complete(b.tables, p))) == Gone(b);
  }

  lemma {:induction false} FlushTraced(b: Bridge, net: Net)
    requires net.limits.Valid() && Traced(b)
    ensures Traced(AfterFlushPending(b, net).0)
  {
    DrainTraced(b, [], net);
    var drained := AfterDrain(b, [], net).0;
    assert Gone(drained.(queue := FlushQueue(drained.queue, net.limits, net.accepts).0)) == Gone(drained);
  }

  lemma {:induction false} RunTraced(actions: seq<Action>, net: Net)
    requires net.limits.Valid()
    ensures Traced(Run(actions, net))
  {
    if actions == [] {
      assert Run(actions, net) == CONNECTED;
    } else {
      var b := Run(actions[..|actions| - 1], net);
      RunTraced(actions[..|actions| - 1], net);
      match actions[|actions| - 1] {
        case Sending(msg, now, later) => SendTraced(b, msg, now, later, net);
        case Receiving(_) => ReportTraced(b, Some(StateReport(Running, None)), net);
        case Tick(now) => ExpiryTraced(b, now, net);
        case FlushAll => FlushTraced(b, net);
      }
    }
  }

  /** In every run, whatever fails: a delta is only absorbed into an earlier one of the same index, session
      and parent. */
  lemma {:induction false} AbsorbedWithinStream(actions: seq<Action>, net: Net, at: nat, j: nat)
    requires net.limits.Valid()
    requires var b := Run(actions, net);
             OpensOnce(b.sent) && |b.notes| == |Gone(b)| && AbsorbedInto(Gone(b), b.notes, at, j)
    ensures var sent := Run(actions, net).sent;
            && at < j < |sent| && sent[at].index == sent[j].index && sent[j].index.Some? && Together(sent[at], sent[j])
  {
    var b := Run(actions, net);
    RunTraced(actions, net);
    OpensOnceFront(b.sent, |Gone(b)|);
    AbsorbedSameStream(Gone(b), b.notes, at, j);
  }

  // ---------- with working calls: the text itself ----------

  lemma {:induction false} OpensOnceStarts(ps: seq<Payload>)
    requires OpensOnce(ps)
    ensures StartsOnce(ps)
  {
    forall i | 0 <= i < |ps|
      ensures OpensAny(ps[i]) <==> ps[i].IsStream() && ps[i].StartsMessage()
    {
      OpensIsStart(ps[i]);
    }
  }

  /** After every run the tables hold the open messages, with the texts of their deltas in order. */
  lemma {:induction false} TablesAreExact(actions: seq<Action>, net: Net)
    requires net.limits.Valid() && net.AllSucceed() && OpensOnce(Run(actions, net).sent)
    ensures Exact(Run(actions, net).tables, Gone(Run(actions, net)))
  {
    var b := Run(actions, net);
    RunSettles(actions, net);
    OpensOnceFront(b.sent, |Gone(b)|);
    HeldIsExact(b.tables, Gone(b));
  }

  /** After every call, a reader that overwrites each block with what the client was handed has exactly the
      texts of the deltas of the block that have left the buffer, in order. */
  lemma {:induction false} ClientReadsCollected(actions: seq<Action>, net: Net, n: nat, key: BlockKey)
    requires net.limits.Valid() && net.AllSucceed() && OpensOnce(Run(actions, net).sent) && n <= |actions|
    ensures var b := Run(actions[..n], net);
            Holding(ReadSnapshots(NEW_READER, Payloads(Flatten(b.queue.handed))), Gone(b), key)
  {
    var b := Run(actions[..n], net);
    OpensOnceStarts(Run(actions, net).sent);
    CoalescingPreservesMeaning(actions, net);
    assert Agrees(b);
    SentGrows(actions, n, net);
    RunSettles(actions[..n], net);
    assert Gone(b) == Run(actions, net).sent[..|Gone(b)|];
    OpensOnceFront(Run(actions, net).sent, |Gone(b)|);
    ReaderCollects(Gone(b), key);
  }

  /** `out` is the sent payload k. If that is a delta of a streamed message, it carries the texts of the
      block up to sent payload l instead of its own. */
  ghost predicate CarriesTexts(sent: seq<Payload>, out: Payload, k: nat, l: nat)
    requires k <= l < |sent|
  {
    && (forall m, i :: DeltaOf(sent, k, m, i) ==> out == sent[k].(text := Some(Collected(sent[..l + 1], m, i))))
    && ((forall m, i :: !DeltaOf(sent, k, m, i)) ==> out == sent[k])
  }

  /** Deltas k and j are deltas of one block in one stream, with only stream events between them. */
  ghost predicate SameBlock(sent: seq<Payload>, k: nat, j: nat, m: string, i: nat)
    requires k <= j < |sent|
  {
    && DeltaOf(sent, k, m, i) && DeltaOf(sent, j, m, i)
    && Together(sent[k], sent[j])
    && forall x :: k <= x <= j ==> sent[x].kind.StreamEvent?
  }

  /** A delta is noted under its own block, with the text of that block. */
  lemma {:induction false} NoteOfDelta(ps: seq<Payload>, k: nat, m: string, i: nat)
    requires OpensOnce(ps) && k < |ps| && DeltaOf(ps, k, m, i)
    ensures ReaderNotes(NEW_READER, ps)[k].Routed? && ReaderNotes(NEW_READER, ps)[k].key == BlockKey(m, i)
  {
    NotesAreRight(ps, k);
    var note := ReaderNotes(NEW_READER, ps)[k];
    OpensOnceFront(ps, k);
    WritesExactly(ps[..k], ps[k], m, i);
    WritesExactly(ps[..k], ps[k], note.key.message, note.key.index);
  }

  lemma {:induction false} OutputStamped(ps: seq<Payload>, notes: seq<Note>, out: seq<Payload>, w: Landing, at: nat)
    requires Thinned(ps, notes, out, w) && at < |out|
    ensures w.kept[at] <= w.last[at] < |ps| && out[at] == Stamped(ps[w.kept[at]], notes[w.last[at]])
    ensures w.kept[at] == w.last[at]
            || (notes[w.kept[at]].Routed? && notes[w.last[at]].Routed? && notes[w.kept[at]].key == notes[w.last[at]].key)
  {
    assert Tells(ps, notes, out, w, at);
    assert Landed(ps, notes, w, w.kept[at]) && Landed(ps, notes, w, w.last[at]);
  }

  lemma {:induction false} DeltaCarries(ps: seq<Payload>, out: seq<Payload>, w: Landing, at: nat, m: string, i: nat)
    requires OpensOnce(ps) && Thinned(ps, ReaderNotes(NEW_READER, ps), out, w) && at < |out|
    requires w.kept[at] <= w.last[at] < |ps| && DeltaOf(ps, w.kept[at], m, i)
    ensures out[at] == ps[w.kept[at]].(text := Some(Collected(ps[..w.last[at] + 1], m, i)))
  {
    OutputStamped(ps, ReaderNotes(NEW_READER, ps), out, w, at);
    NoteOfDelta(ps, w.kept[at], m, i);
    NotesAreRight(ps, w.last[at]);
  }

  lemma {:induction false} OtherCarries(ps: seq<Payload>, out: seq<Payload>, w: Landing, at: nat)
    requires OpensOnce(ps) && Thinned(ps, ReaderNotes(NEW_READER, ps), out, w) && at < |out|
    requires w.kept[at] <= w.last[at] < |ps| && forall m, i :: !DeltaOf(ps, w.kept[at], m, i)
    ensures out[at] == ps[w.kept[at]]
  {
    OutputStamped(ps, ReaderNotes(NEW_READER, ps), out, w, at);
    NotesAreRight(ps, w.kept[at]);
  }

  lemma {:induction false} OutputCarries(ps: seq<Payload>, out: seq<Payload>, w: Landing, at: nat)
    requires OpensOnce(ps) && Thinned(ps, ReaderNotes(NEW_READER, ps), out, w) && at < |out|
    ensures w.kept[at] <= w.last[at] < |ps| && CarriesTexts(ps, out[at], w.kept[at], w.last[at])
  {
    OutputStamped(ps, ReaderNotes(NEW_READER, ps), out, w, at);
    forall m, i | DeltaOf(ps, w.kept[at], m, i)
      ensures out[at] == ps[w.kept[at]].(text := Some(Collected(ps[..w.last[at] + 1], m, i)))
    {
      DeltaCarries(ps, out, w, at, m, i);
    }
    if forall m, i :: !DeltaOf(ps, w.kept[at], m, i) {
      OtherCarries(ps, out, w, at);
    }
  }

  lemma {:induction false} AbsorbedIsSameBlock(ps: seq<Payload>, k: nat, j: nat) returns (m: string, i: nat)
    requires OpensOnce(ps) && Sourced(ps, ReaderNotes(NEW_READER, ps))
    requires AbsorbedInto(ps, ReaderNotes(NEW_READER, ps), k, j)
    ensures k < j < |ps| && SameBlock(ps, k, j, m, i)
  {
    var notes := ReaderNotes(NEW_READER, ps);
    m, i := notes[k].key.message, notes[k].key.index;
    NotesAreRight(ps, k);
    NotesAreRight(ps, j);
    AbsorbedSameStream(ps, notes, k, j);
  }

  /** What was handed over stands for sent payloads k to l of its block, as an ephemeral event exactly if k is
      a stream event. */
  ghost predicate OutputFits(sent: seq<Payload>, out: Payload, stream: bool, k: nat, l: nat) {
    && k <= l < |sent|
    && CarriesTexts(sent, out, k, l)
    && stream == sent[k].kind.StreamEvent?
  }

  /** Payload j is kept as position k, or is a delta of the same block. */
  ghost predicate StandsFor(sent: seq<Payload>, k: nat, l: nat, j: nat) {
    && k <= j <= l && j < |sent|
    && (k == j || exists m, i :: SameBlock(sent, k, j, m, i))
  }

  lemma {:induction false} OutputTexts(ps: seq<Payload>, out: seq<Payload>, w: Landing, at: nat)
    requires OpensOnce(ps) && Thinned(ps, ReaderNotes(NEW_READER, ps), out, w) && at < |out|
    ensures OutputFits(ps, out[at], out[at].IsStream(), w.kept[at], w.last[at])
  {
    OutputCarries(ps, out, w, at);
    OutputStamped(ps, ReaderNotes(NEW_READER, ps), out, w, at);
  }

  lemma {:induction false} InputLands(ps: seq<Payload>, out: seq<Payload>, w: Landing, j: nat)
    requires OpensOnce(ps) && Thinned(ps, ReaderNotes(NEW_READER, ps), out, w) && j < |ps|
    requires Sourced(ps, ReaderNotes(NEW_READER, ps))
    ensures w.into[j] < |out| && StandsFor(ps, w.kept[w.into[j]], w.last[w.into[j]], j)
  {
    assert Landed(ps, ReaderNotes(NEW_READER, ps), w, j);
    if w.kept[w.into[j]] != j {
      var m, i := AbsorbedIsSameBlock(ps, w.kept[w.into[j]], j);
    }
  }

  lemma {:induction false} FinallySourced(actions: seq<Action>, net: Net)
    requires net.limits.Valid() && net.AllSucceed()
    ensures var sent := Run(actions + [FlushAll], net).sent;
            sent == Run(actions, net).sent && Sourced(sent, ReaderNotes(NEW_READER, sent))
  {
    var all := actions + [FlushAll];
    RunSettles(all, net);
    RunTraced(all, net);
    FlushEmpties(actions, net);
  }

  /** With working calls and no message started twice, after a final flush the client was handed one event
      for every sent payload in order, but for deltas that follow another of their block with only stream
      events between; and each delta that was handed over carries all texts of its block, in order, up to
      the last delta that it stands for. */
  lemma {:induction false} FinalTexts(actions: seq<Action>, net: Net) returns (w: Landing)
    requires net.limits.Valid() && net.AllSucceed() && OpensOnce(Run(actions, net).sent)
    ensures var sent, handed := Run(actions, net).sent, Flatten(Run(actions + [FlushAll], net).queue.handed);
            && |w.kept| == |w.last| == |handed| && |w.into| == |sent| && Increasing(w.kept, |sent|)
            && (forall at :: 0 <= at < |handed| ==>
                  OutputFits(sent, handed[at].payload, handed[at].ephemeral, w.kept[at], w.last[at]))
            && forall j :: 0 <= j < |sent| ==>
                 w.into[j] < |handed| && StandsFor(sent, w.kept[w.into[j]], w.last[w.into[j]], j)
  {
    w := FinalFlushDeliversAll(actions, net);
    FinallySourced(actions, net);
    var b := Run(actions + [FlushAll], net);
    forall at | 0 <= at < |b.offered|
      ensures OutputFits(b.sent, b.offered[at], b.offered[at].IsStream(), w.kept[at], w.last[at])
    {
      OutputTexts(b.sent, b.offered, w, at);
    }
    forall j | 0 <= j < |b.sent|
      ensures w.into[j] < |b.offered| && StandsFor(b.sent, w.kept[w.into[j]], w.last[w.into[j]], j)
    {
      InputLands(b.sent, b.offered, w, j);
    }
  }
}
