/** Which text belongs to which message block, said over the members of the payloads alone: without
    the accumulator's tables, its scope keys or its routing. */
module StreamText {
  import opened Prelude
  import opened StreamEvents
  import opened Coalescing
  import opened Thinning

  /** A missing parent and an empty one are the same. */
  function ParentText(p: Payload): string {
    match p.parent
    case ParentId(id) => id
    case _ => ""
  }

  predicate Identified(p: Payload) {
    p.session.Some? && !p.parent.MalformedParent?
  }

  predicate SameStream(p: Payload, q: Payload) {
    Identified(p) && Identified(q) && p.session == q.session && ParentText(p) == ParentText(q)
  }

  /** The session of `q` goes on, behind a colon, where that of `p` ends, and the parent of `p` makes up
      for it. */
  predicate Confused(p: Payload, q: Payload) {
    && Identified(p) && Identified(q)
    && var s, t := p.session.value, q.session.value;
       && |s| < |t| && t[..|s|] == s && t[|s|] == ':'
       && ParentText(p) == t[|s| + 1..] + ":" + ParentText(q)
  }

  /** Payloads that the accumulator cannot tell apart by their origin. */
  predicate Together(p: Payload, q: Payload) {
    SameStream(p, q) || Confused(p, q) || Confused(q, p)
  }

  lemma {:induction false} JoinedEqually(s: string, a: string, t: string, b: string)
    requires |s| <= |t|
    ensures s + ":" + a == t + ":" + b <==>
            if |s| == |t| then s == t && a == b else t[..|s|] == s && t[|s|] == ':' && a == t[|s| + 1..] + ":" + b
  {
    var left, right := s + ":" + a, t + ":" + b;
    assert right[..|t|] == t && right[|t|] == ':' && right[|t| + 1..] == b;
    assert left[..|s|] == s && left[|s|] == ':' && left[|s| + 1..] == a;
    if |s| < |t| {
      assert right[..|s|] == t[..|s|] && right[|s|] == t[|s|] && right[|s| + 1..] == t[|s| + 1..] + ":" + b;
      if t[..|s|] == s && t[|s|] == ':' && a == t[|s| + 1..] + ":" + b {
        assert left == left[..|s|] + [left[|s|]] + left[|s| + 1..];
        assert right == right[..|s|] + [right[|s|]] + right[|s| + 1..];
      }
    }
  }

  /** The scope key tells two origins apart exactly when they are not the same stream and not one of the
      confusable pairs. */
  lemma {:induction false} ScopesEqualExactly(p: Payload, q: Payload)
    requires Identified(p) && Identified(q)
    ensures p.Scope().Some? && q.Scope().Some?
    ensures p.Scope() == q.Scope() <==> Together(p, q)
  {
    var s, t := p.session.value, q.session.value;
    var a, b := ParentText(p), ParentText(q);
    ScopeSpelled(p);
    ScopeSpelled(q);
    if |s| <= |t| {
      JoinedEqually(s, a, t, b);
    } else {
      JoinedEqually(t, b, s, a);
    }
  }

  lemma {:induction false} ScopeSpelled(p: Payload)
    requires Identified(p)
    ensures p.Scope() == Some(p.session.value + ":" + ParentText(p))
  {
    if p.parent.NoParent? {
      assert p.session.value + ":" + "" == p.session.value + ":";
    }
  }

  /** Sessions without a colon are always told apart. */
  lemma {:induction false} PlainSessionsAreApart(p: Payload, q: Payload)
    requires Identified(p) && Identified(q) && ':' !in p.session.value && ':' !in q.session.value
    ensures Together(p, q) <==> p.session == q.session && ParentText(p) == ParentText(q)
  {
  }

  // ---------- what is streamed where ----------

  predicate OpensAny(p: Payload) {
    p.kind.StreamEvent? && p.event.MessageStart? && Identified(p) && p.startId.Some?
  }

  predicate Opens(p: Payload, message: string) {
    OpensAny(p) && p.startId == Some(message)
  }

  predicate Completes(p: Payload, message: string) {
    p.kind.Assistant? && p.messageId == Some(message)
  }

  predicate TextDelta(p: Payload, index: nat) {
    p.kind.StreamEvent? && p.event.ContentBlockDelta? && p.isTextDelta && Identified(p)
    && p.index == Some(index) && p.text.Some?
  }

  /** No message is started twice. */
  ghost predicate OpensOnce(ps: seq<Payload>) {
    forall i, j :: 0 <= i < j < |ps| && OpensAny(ps[i]) && OpensAny(ps[j]) ==> ps[i].startId != ps[j].startId
  }

  /** `q` ends the streaming of the message to where `p` belongs. */
  predicate Ends(q: Payload, p: Payload, message: string) {
    Completes(q, message) || (OpensAny(q) && Together(q, p))
  }

  ghost predicate StreamedSince(before: seq<Payload>, s: nat, p: Payload, message: string)
    requires s < |before|
  {
    && Opens(before[s], message) && Together(before[s], p)
    && forall t :: s < t < |before| ==> !Ends(before[t], p, message)
  }

  /** The latest start before `p` in its session and under its parent is that of the message, and the
      message has not been completed since. */
  ghost predicate Streamed(before: seq<Payload>, p: Payload, message: string) {
    exists s :: 0 <= s < |before| && StreamedSince(before, s, p, message)
  }

  /** The texts, in order, of exactly those deltas of this index that arrive while the message is
      streamed. */
  ghost function Collected(ps: seq<Payload>, message: string, index: nat): string {
    if ps == [] then ""
    else
      var before, p := ps[..|ps| - 1], ps[|ps| - 1];
      Collected(before, message, index)
      + (if TextDelta(p, index) && Streamed(before, p, message) then p.text.value else "")
  }

  /** Payload j is a text delta of this block. */
  ghost predicate DeltaOf(ps: seq<Payload>, j: nat, message: string, index: nat)
    requires j < |ps|
  {
    TextDelta(ps[j], index) && Streamed(ps[..j], ps[j], message)
  }

  ghost predicate Written(ps: seq<Payload>, message: string, index: nat) {
    exists j :: 0 <= j < |ps| && DeltaOf(ps, j, message, index)
  }

  // ---------- the routing follows it ----------

  predicate EndsIn(q: Payload, scope: string, message: string) {
    Completes(q, message) || (OpensAny(q) && q.Scope() == Some(scope))
  }

  ghost predicate LiveSince(ps: seq<Payload>, s: nat, scope: string, message: string)
    requires s < |ps|
  {
    && Opens(ps[s], message) && ps[s].Scope() == Some(scope)
    && forall t :: s < t < |ps| ==> !EndsIn(ps[t], scope, message)
  }

  ghost predicate Live(ps: seq<Payload>, scope: string, message: string) {
    exists s :: 0 <= s < |ps| && LiveSince(ps, s, scope, message)
  }

  lemma {:induction false} StreamedIsLive(before: seq<Payload>, p: Payload, message: string)
    requires Identified(p)
    ensures p.Scope().Some? && (Streamed(before, p, message) <==> Live(before, p.Scope().value, message))
  {
    ScopesEqualExactly(p, p);
    var scope := p.Scope().value;
    forall t | 0 <= t < |before|
      ensures Opens(before[t], message) && Together(before[t], p) <==> Opens(before[t], message) && before[t].Scope() == Some(scope)
      ensures Ends(before[t], p, message) <==> EndsIn(before[t], scope, message)
    {
      if Identified(before[t]) {
        ScopesEqualExactly(before[t], p);
      }
    }
    if Streamed(before, p, message) {
      var s :| 0 <= s < |before| && StreamedSince(before, s, p, message);
      assert LiveSince(before, s, scope, message);
    }
    if Live(before, scope, message) {
      var s :| 0 <= s < |before| && LiveSince(before, s, scope, message);
      assert StreamedSince(before, s, p, message);
    }
  }

  lemma {:induction false} LiveExtend(ps: seq<Payload>, p: Payload, scope: string, message: string)
    ensures Live(ps + [p], scope, message) <==>
            (Opens(p, message) && p.Scope() == Some(scope)) || (Live(ps, scope, message) && !EndsIn(p, scope, message))
  {
    var longer := ps + [p];
    assert longer[|ps|] == p && forall t :: 0 <= t < |ps| ==> longer[t] == ps[t];
    if Live(longer, scope, message) {
      var s :| 0 <= s < |longer| && LiveSince(longer, s, scope, message);
      if s < |ps| {
        assert LiveSince(ps, s, scope, message);
        assert !EndsIn(longer[|ps|], scope, message);
      }
    }
    if Opens(p, message) && p.Scope() == Some(scope) {
      assert LiveSince(longer, |ps|, scope, message);
    }
    if Live(ps, scope, message) && !EndsIn(p, scope, message) {
      var s :| 0 <= s < |ps| && LiveSince(ps, s, scope, message);
      assert LiveSince(longer, s, scope, message);
    }
  }

  ghost predicate StartedIn(ps: seq<Payload>, scope: string, message: string) {
    exists s :: 0 <= s < |ps| && Opens(ps[s], message) && ps[s].Scope() == Some(scope)
  }

  ghost predicate Routes(ps: seq<Payload>, routing: Routing, scope: string, message: string) {
    scope in routing.scopes && routing.scopes[scope] == message && message in routing.open
  }

  /** A scope names a message that was started in it, an open message is named by some scope, and which
      message a scope streams is what the payloads say. */
  ghost predicate Tracks(ps: seq<Payload>, routing: Routing) {
    && (forall scope :: scope in routing.scopes ==> StartedIn(ps, scope, routing.scopes[scope]))
    && (forall m :: m in routing.open ==> m in routing.scopes.Values)
    && (forall scope, m :: Routes(ps, routing, scope, m) <==> Live(ps, scope, m))
  }

  lemma {:induction false} StartedExtend(ps: seq<Payload>, p: Payload, scope: string, message: string)
    requires StartedIn(ps, scope, message)
    ensures StartedIn(ps + [p], scope, message)
  {
    var s :| 0 <= s < |ps| && Opens(ps[s], message) && ps[s].Scope() == Some(scope);
    assert (ps + [p])[s] == ps[s];
  }

  lemma {:induction false} StartedOnce(ps: seq<Payload>, scope: string, scope': string, message: string)
    requires OpensOnce(ps) && StartedIn(ps, scope, message) && StartedIn(ps, scope', message)
    ensures scope == scope'
  {
  }

  lemma {:induction false} NewlyStarted(ps: seq<Payload>, p: Payload, message: string, scope: string)
    requires OpensOnce(ps + [p]) && Opens(p, message)
    ensures !StartedIn(ps, scope, message) && !Live(ps, scope, message)
  {
    var longer := ps + [p];
    assert longer[|ps|] == p && forall t :: 0 <= t < |ps| ==> longer[t] == ps[t];
  }

  lemma {:induction false} OpensOncePrefix(ps: seq<Payload>, p: Payload)
    requires OpensOnce(ps + [p])
    ensures OpensOnce(ps)
  {
    assert forall t :: 0 <= t < |ps| ==> (ps + [p])[t] == ps[t];
  }

  lemma {:induction false} OpensIsStart(p: Payload)
    ensures OpensAny(p) <==> p.IsStream() && p.StartsMessage()
  {
    if Identified(p) {
      ScopeSpelled(p);
    }
  }

  lemma {:induction false} TrackOpen(ps: seq<Payload>, routing: Routing, p: Payload)
    requires OpensOnce(ps + [p]) && Tracks(ps, routing) && OpensAny(p)
    ensures Tracks(ps + [p], Follow(routing, p))
  {
    OpensIsStart(p);
    OpensOncePrefix(ps, p);
    var after := Follow(routing, p);
    var own, started := p.Scope().value, p.startId.value;
    assert (ps + [p])[|ps|] == p;
    forall scope | scope in after.scopes
      ensures StartedIn(ps + [p], scope, after.scopes[scope])
    {
      if scope != own {
        StartedExtend(ps, p, scope, after.scopes[scope]);
      }
    }
    forall m | m in after.open
      ensures m in after.scopes.Values
    {
      if m == started {
        assert after.scopes[own] == m;
      } else {
        var scope :| scope in routing.scopes && routing.scopes[scope] == m;
        assert scope != own && after.scopes[scope] == m;
      }
    }
    forall scope, m
      ensures Routes(ps + [p], after, scope, m) <==> Live(ps + [p], scope, m)
    {
      LiveExtend(ps, p, scope, m);
      assert Routes(ps, routing, scope, m) <==> Live(ps, scope, m);
      NewlyStarted(ps, p, started, scope);
      if scope != own && scope in routing.scopes && own in routing.scopes && routing.scopes[own] == routing.scopes[scope] {
        StartedOnce(ps, scope, own, routing.scopes[own]);
      }
    }
  }

  lemma {:induction false} TrackOther(ps: seq<Payload>, routing: Routing, p: Payload)
    requires Tracks(ps, routing) && !OpensAny(p)
    ensures Tracks(ps + [p], Follow(routing, p))
  {
    OpensIsStart(p);
    var after := Follow(routing, p);
    forall scope | scope in after.scopes
      ensures StartedIn(ps + [p], scope, after.scopes[scope])
    {
      StartedExtend(ps, p, scope, after.scopes[scope]);
    }
    forall m | m in after.open
      ensures m in after.scopes.Values
    {
      var scope :| scope in routing.scopes && routing.scopes[scope] == m;
      assert scope in after.scopes && after.scopes[scope] == m;
    }
    forall scope, m
      ensures Routes(ps + [p], after, scope, m) <==> Live(ps + [p], scope, m)
    {
      LiveExtend(ps, p, scope, m);
      assert Routes(ps, routing, scope, m) <==> Live(ps, scope, m);
    }
  }

  /** If no message is started twice, the routing is what the payloads say. */
  lemma {:induction false} RoutingTracks(ps: seq<Payload>)
    requires OpensOnce(ps)
    ensures Tracks(ps, FollowAll(NEW_READER.routing, ps))
  {
    if ps != [] {
      var init, p := ps[..|ps| - 1], ps[|ps| - 1];
      assert ps == init + [p];
      OpensOncePrefix(init, p);
      RoutingTracks(init);
      if OpensAny(p) {
        TrackOpen(init, FollowAll(NEW_READER.routing, init), p);
      } else {
        TrackOther(init, FollowAll(NEW_READER.routing, init), p);
      }
    }
  }

  lemma {:induction false} DeltaIsReadable(p: Payload, index: nat)
    ensures TextDelta(p, index) <==> p.IsStream() && p.IsReadableDelta() && p.index == Some(index)
  {
    if Identified(p) {
      ScopeSpelled(p);
    }
  }

  /** A payload writes exactly the block that the payloads say. */
  lemma {:induction false} WritesExactly(ps: seq<Payload>, p: Payload, message: string, index: nat)
    requires OpensOnce(ps)
    ensures EffectOf(FollowAll(NEW_READER.routing, ps), p) == Writes(BlockKey(message, index))
            <==> TextDelta(p, index) && Streamed(ps, p, message)
  {
    var routing := FollowAll(NEW_READER.routing, ps);
    RoutingTracks(ps);
    DeltaIsReadable(p, index);
    if Identified(p) {
      StreamedIsLive(ps, p, message);
      assert Routes(ps, routing, p.Scope().value, message) <==> Live(ps, p.Scope().value, message);
    }
  }

  // ---------- the text of a block ----------

  lemma {:induction false} WrittenExtend(ps: seq<Payload>, p: Payload, message: string, index: nat)
    ensures Written(ps + [p], message, index) <==>
            Written(ps, message, index) || (TextDelta(p, index) && Streamed(ps, p, message))
    ensures Collected(ps + [p], message, index)
            == Collected(ps, message, index) + (if TextDelta(p, index) && Streamed(ps, p, message) then p.text.value else "")
  {
    var longer := ps + [p];
    assert longer[..|ps|] == ps && longer[|ps|] == p;
    forall j | 0 <= j < |ps|
      ensures DeltaOf(longer, j, message, index) <==> DeltaOf(ps, j, message, index)
    {
      assert longer[..j] == ps[..j];
    }
    assert DeltaOf(longer, |ps|, message, index) <==> TextDelta(p, index) && Streamed(ps, p, message);
  }

  lemma {:induction false} CollectedNothing(ps: seq<Payload>, message: string, index: nat)
    requires !Written(ps, message, index)
    ensures Collected(ps, message, index) == ""
  {
    if ps != [] {
      var init, p := ps[..|ps| - 1], ps[|ps| - 1];
      assert ps == init + [p];
      WrittenExtend(init, p, message, index);
      CollectedNothing(init, message, index);
    }
  }

  lemma {:induction false} WrittenIsStarted(ps: seq<Payload>, message: string, index: nat) returns (s: nat)
    requires Written(ps, message, index)
    ensures s < |ps| && Opens(ps[s], message)
  {
    var j :| 0 <= j < |ps| && DeltaOf(ps, j, message, index);
    s :| 0 <= s < |ps[..j]| && StreamedSince(ps[..j], s, ps[j], message);
  }

  lemma {:induction false} NotWrittenBeforeStart(ps: seq<Payload>, p: Payload, message: string, index: nat)
    requires OpensOnce(ps + [p]) && Opens(p, message)
    ensures !Written(ps, message, index)
  {
    var longer := ps + [p];
    assert longer[|ps|] == p && forall t :: 0 <= t < |ps| ==> longer[t] == ps[t];
    if Written(ps, message, index) {
      var s := WrittenIsStarted(ps, message, index);
    }
  }

  ghost predicate Holding(r: Reader, ps: seq<Payload>, key: BlockKey) {
    && (key in r.texts <==> Written(ps, key.message, key.index))
    && TextAt(r.texts, key) == Collected(ps, key.message, key.index)
  }

  /** A reader that appends every raw delta has, for every block, the texts of the deltas that belong to
      it, in order, and nothing else. */
  lemma {:induction false} ReaderCollects(ps: seq<Payload>, key: BlockKey)
    requires OpensOnce(ps)
    ensures Holding(ReadRaw(NEW_READER, ps), ps, key)
  {
    if ps != [] {
      var init, p := ps[..|ps| - 1], ps[|ps| - 1];
      assert ps == init + [p];
      OpensOncePrefix(init, p);
      ReaderCollects(init, key);
      WrittenExtend(init, p, key.message, key.index);
      ReadRawFollows(NEW_READER, init);
      WritesExactly(init, p, key.message, key.index);
      OpensIsStart(p);
      if Opens(p, key.message) {
        NotWrittenBeforeStart(init, p, key.message, key.index);
        CollectedNothing(init, key.message, key.index);
      }
    }
  }

  /** A message is open: started, and since then neither completed nor followed by another start of its
      session and parent. */
  ghost predicate OpenSince(ps: seq<Payload>, s: nat, message: string)
    requires s < |ps|
  {
    Opens(ps[s], message) && forall t :: s < t < |ps| ==> !Ends(ps[t], ps[s], message)
  }

  ghost predicate IsOpen(ps: seq<Payload>, message: string) {
    exists s :: 0 <= s < |ps| && OpenSince(ps, s, message)
  }

  lemma {:induction false} OpenExactly(ps: seq<Payload>, message: string)
    requires OpensOnce(ps)
    ensures message in FollowAll(NEW_READER.routing, ps).open <==> IsOpen(ps, message)
  {
    var routing := FollowAll(NEW_READER.routing, ps);
    RoutingTracks(ps);
    if message in routing.open {
      var scope :| scope in routing.scopes && routing.scopes[scope] == message;
      assert Routes(ps, routing, scope, message);
      var s :| 0 <= s < |ps| && LiveSince(ps, s, scope, message);
      SameEnds(ps, s, scope, message);
      assert OpenSince(ps, s, message);
    }
    if IsOpen(ps, message) {
      var s :| 0 <= s < |ps| && OpenSince(ps, s, message);
      ScopeSpelled(ps[s]);
      var scope := ps[s].Scope().value;
      SameEnds(ps, s, scope, message);
      assert LiveSince(ps, s, scope, message);
      assert Live(ps, scope, message) && Routes(ps, routing, scope, message);
    }
  }

  lemma {:induction false} SameEnds(ps: seq<Payload>, s: nat, scope: string, message: string)
    requires s < |ps| && Opens(ps[s], message) && ps[s].Scope() == Some(scope)
    ensures forall t :: 0 <= t < |ps| ==> (Ends(ps[t], ps[s], message) <==> EndsIn(ps[t], scope, message))
  {
    forall t | 0 <= t < |ps|
      ensures Ends(ps[t], ps[s], message) <==> EndsIn(ps[t], scope, message)
    {
      if Identified(ps[t]) {
        ScopesEqualExactly(ps[t], ps[s]);
      }
    }
  }

  /** What the tables hold after payloads in which no message is started twice: the open messages, and
      for each of their blocks the texts of its deltas. */
  ghost predicate Exact(tables: Tables, ps: seq<Payload>) {
    && (forall m :: m in tables.blocks <==> IsOpen(ps, m))
    && forall m, i :: m in tables.blocks ==>
         && (i in tables.blocks[m] <==> Written(ps, m, i))
         && (i in tables.blocks[m] ==> tables.blocks[m][i] == Collected(ps, m, i))
  }

  lemma {:induction false} HeldIsExact(tables: Tables, ps: seq<Payload>)
    requires OpensOnce(ps) && Holds(tables, ReadRaw(NEW_READER, ps))
    ensures Exact(tables, ps)
  {
    ReadRawFollows(NEW_READER, ps);
    forall m
      ensures m in tables.blocks <==> IsOpen(ps, m)
    {
      OpenExactly(ps, m);
      assert tables.blocks.Keys == tables.Routes().open;
    }
    forall m, i | m in tables.blocks
      ensures i in tables.blocks[m] <==> Written(ps, m, i)
      ensures i in tables.blocks[m] ==> tables.blocks[m][i] == Collected(ps, m, i)
    {
      var key := BlockKey(m, i);
      ReaderCollects(ps, key);
      assert key.message in tables.blocks;
    }
  }

  /** One flush of a new accumulator. */
  lemma {:induction false} AccumulatorCollects(buffer: seq<Payload>)
    requires OpensOnce(buffer) && forall p :: p in buffer ==> p.kind.StreamEvent?
    ensures Exact(AbsorbAll(EMPTY_TABLES, buffer).tables, buffer)
  {
    FlushAgreesExactly(NEW_READER, EMPTY_TABLES, buffer);
    HeldIsExact(AbsorbAll(EMPTY_TABLES, buffer).tables, buffer);
  }

  /** A completed assistant message loses its text. Its entry in the table of scopes goes as well: where the
      payload says the scope, only there; where it does not, everywhere. Nothing else changes. */
  lemma {:induction false} CompleteMeans(tables: Tables, p: Payload, message: string)
    requires Completes(p, message)
    ensures var after := Complete(tables, p);
            && after.blocks == tables.blocks - {message}
            && (forall scope :: scope in after.scopes <==>
                  scope in tables.scopes
                  && !(tables.scopes[scope] == message
                       && (Identified(p) ==> scope == p.session.value + ":" + ParentText(p))))
            && forall scope :: scope in after.scopes ==> after.scopes[scope] == tables.scopes[scope]
  {
    if Identified(p) {
      ScopeSpelled(p);
    }
  }

  lemma {:induction false} OthersCompleteNothing(tables: Tables, p: Payload)
    requires forall m :: !Completes(p, m)
    ensures Complete(tables, p) == tables
  {
    if p.messageId.Some? {
      assert !Completes(p, p.messageId.value);
    }
  }

  // ---------- what the notes say ----------

  /** A note names the block that a delta belongs to, with the text collected for it so far. */
  ghost predicate RightNote(ps: seq<Payload>, j: nat, note: Note)
    requires j < |ps|
  {
    match note
    case Unrouted => forall m, i :: !DeltaOf(ps, j, m, i)
    case Routed(key, text) =>
      && DeltaOf(ps, j, key.message, key.index)
      && text == Collected(ps[..j + 1], key.message, key.index)
  }

  lemma {:induction false} OpensOnceFront(ps: seq<Payload>, n: nat)
    requires OpensOnce(ps) && n <= |ps|
    ensures OpensOnce(ps[..n])
  {
  }

  lemma {:induction false} NotesAreRight(ps: seq<Payload>, j: nat)
    requires OpensOnce(ps) && j < |ps|
    ensures RightNote(ps, j, ReaderNotes(NEW_READER, ps)[j])
  {
    ReaderNotesAt(NEW_READER, ps, j);
    OpensOnceFront(ps, j);
    OpensOnceFront(ps, j + 1);
    var effect := EffectOf(FollowAll(NEW_READER.routing, ps[..j]), ps[j]);
    if effect.Writes? {
      WritesExactly(ps[..j], ps[j], effect.key.message, effect.key.index);
      ReaderCollects(ps[..j + 1], effect.key);
    } else {
      forall m, i
        ensures !DeltaOf(ps, j, m, i)
      {
        WritesExactly(ps[..j], ps[j], m, i);
      }
    }
  }

  /** A delta is only absorbed into one of its own index, session and parent. */
  lemma {:induction false} AbsorbedSameStream(ps: seq<Payload>, notes: seq<Note>, at: nat, j: nat)
    requires OpensOnce(ps) && |notes| == |ps| && AbsorbedInto(ps, notes, at, j)
    requires Sourced(ps, notes)
    ensures ps[at].index == ps[j].index && Together(ps[at], ps[j])
  {
    var m := notes[at].key.message;
    assert SourcedAt(ps, notes, at) && SourcedAt(ps, notes, j);
    var s :| 0 <= s < at && Opens(ps[s], m) && ps[s].Scope() == ps[at].Scope();
    var t :| 0 <= t < j && Opens(ps[t], m) && ps[t].Scope() == ps[j].Scope();
    assert s == t;
    ScopesEqualExactly(ps[at], ps[j]);
  }

  ghost predicate SourcedAt(ps: seq<Payload>, notes: seq<Note>, j: nat)
    requires j < |ps| == |notes|
  {
    notes[j].Routed? ==>
      && TextDelta(ps[j], notes[j].key.index)
      && exists s :: 0 <= s < j && Opens(ps[s], notes[j].key.message) && ps[s].Scope() == ps[j].Scope()
  }

  /** Every routed delta comes after a start of its message in its own scope. */
  ghost predicate Sourced(ps: seq<Payload>, notes: seq<Note>) {
    |notes| == |ps| && forall j :: 0 <= j < |ps| ==> SourcedAt(ps, notes, j)
  }

  ghost predicate ScopesSourced(ps: seq<Payload>, scopes: map<string, string>) {
    forall scope :: scope in scopes ==> StartedIn(ps, scope, scopes[scope])
  }

  lemma {:induction false} SourcedPush(ps: seq<Payload>, notes: seq<Note>, p: Payload, note: Note)
    requires Sourced(ps, notes)
    requires note.Routed? ==> TextDelta(p, note.key.index) && p.Scope().Some? && StartedIn(ps, p.Scope().value, note.key.message)
    ensures Sourced(ps + [p], notes + [note])
  {
    var ps', notes' := ps + [p], notes + [note];
    forall j | 0 <= j < |ps'| && notes'[j].Routed?
      ensures SourcedAt(ps', notes', j)
    {
      var s: nat;
      if j < |ps| {
        assert SourcedAt(ps, notes, j);
        s :| 0 <= s < j && Opens(ps[s], notes[j].key.message) && ps[s].Scope() == ps[j].Scope();
      } else {
        s :| 0 <= s < |ps| && Opens(ps[s], note.key.message) && ps[s].Scope() == p.Scope();
      }
      assert ps'[s] == ps[s];
    }
  }

  lemma {:induction false} ScopesSourcedPush(ps: seq<Payload>, scopes: map<string, string>, p: Payload)
    requires ScopesSourced(ps, scopes)
    ensures ScopesSourced(ps + [p], scopes)
    ensures OpensAny(p) ==> p.Scope().Some? && ScopesSourced(ps + [p], scopes[p.Scope().value := p.startId.value])
  {
    OpensIsStart(p);
    assert (ps + [p])[|ps|] == p;
    forall scope | scope in scopes
      ensures StartedIn(ps + [p], scope, scopes[scope])
    {
      StartedExtend(ps, p, scope, scopes[scope]);
    }
  }

  /** A flush keeps this, whatever the tables hold and whatever calls failed before. */
  lemma {:induction false} FlushSourced(gone: seq<Payload>, notes: seq<Note>, tables: Tables, buffer: seq<Payload>)
    requires Sourced(gone, notes) && ScopesSourced(gone, tables.scopes)
    requires forall p :: p in buffer ==> p.IsStream()
    ensures Sourced(gone + buffer, notes + Notes(tables, buffer))
    ensures ScopesSourced(gone + buffer, AbsorbAll(tables, buffer).tables.scopes)
  {
    if buffer == [] {
      assert gone + buffer == gone && notes + Notes(tables, buffer) == notes;
    } else {
      var init, p := buffer[..|buffer| - 1], buffer[|buffer| - 1];
      FlushSourced(gone, notes, tables, init);
      var pass := AbsorbAll(tables, init);
      var note := NoteOf(pass.tables, p);
      assert gone + buffer == (gone + init) + [p];
      assert notes + Notes(tables, buffer) == (notes + Notes(tables, init)) + [note];
      OpensIsStart(p);
      if note.Routed? {
        DeltaIsReadable(p, note.key.index);
      }
      SourcedPush(gone + init, notes + Notes(tables, init), p, note);
      ScopesSourcedPush(gone + init, pass.tables.scopes, p);
    }
  }

  const CONFUSED_START := SAMPLE_START.(session := Some("a:b"))
  const CONFUSED_DELTA := SampleDelta("x").(session := Some("a"), parent := ParentId("b:"))

  lemma {:induction false} ConfusedDeltaIsCollected()
    ensures var ps := [CONFUSED_START, CONFUSED_DELTA];
            Written(ps, "m", 0) && Collected(ps, "m", 0) == "x"
  {
    assert Confused(CONFUSED_DELTA, CONFUSED_START);
    assert StreamedSince([CONFUSED_START], 0, CONFUSED_DELTA, "m");
    WrittenExtend([CONFUSED_START], CONFUSED_DELTA, "m", 0);
    WrittenExtend([], CONFUSED_START, "m", 0);
    assert [] + [CONFUSED_START] == [CONFUSED_START];
    assert [CONFUSED_START] + [CONFUSED_DELTA] == [CONFUSED_START, CONFUSED_DELTA];
  }

  /** Two streams that share a scope key do mix: a delta of session "a" under the parent "b:" is added to
      the message that session "a:b" streams without a parent. */
  lemma {:induction false} ConfusedStreamsMix() returns (start: Payload, delta: Payload)
    ensures !SameStream(start, delta) && Opens(start, "m") && TextDelta(delta, 0)
    ensures BlockText(AbsorbAll(EMPTY_TABLES, [start, delta]).tables, BlockKey("m", 0)) == delta.text.value != ""
  {
    start, delta := CONFUSED_START, CONFUSED_DELTA;
    var ps := [start, delta];
    ConfusedDeltaIsCollected();
    AccumulatorCollects(ps);
    assert OpenSince(ps, 0, "m");
  }
}
