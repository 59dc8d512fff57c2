/** The stream-event accumulator of the bridge transport: text deltas received between two
    flushes are merged into one full-text snapshot per message block. */
module StreamEvents {
  import opened Prelude

  datatype Kind = StreamEvent | Assistant | OtherKind(name: string)

  datatype Event = MessageStart | ContentBlockDelta | OtherEvent(name: string) | NoEvent

  datatype ParentToolUse = NoParent | ParentId(id: string) | MalformedParent

  /** The parts of a JSON payload that the bridge reads. A field is None when the JSON member is
      missing or has another type; `rest` stands for everything else in the object, uuid included. */
  datatype Payload = Payload(
    kind: Kind,
    session: Option<string>,
    parent: ParentToolUse,
    event: Event,
    startId: Option<string>,
    isTextDelta: bool,
    index: Option<nat>,
    text: Option<string>,
    messageId: Option<string>,
    rest: nat)
  {
    function Scope(): Option<string> {
      if session.None? then None
      else match parent
        case NoParent => Some(session.value + ":")
        case ParentId(id) => Some(session.value + ":" + id)
        case MalformedParent => None
    }

    predicate StartsMessage() {
      event.MessageStart? && Scope().Some? && startId.Some?
    }

    predicate Starts(message: string) {
      StartsMessage() && startId.value == message
    }

    predicate IsReadableDelta() {
      event.ContentBlockDelta? && isTextDelta && Scope().Some? && index.Some? && text.Some?
    }

    predicate IsStream() { kind.StreamEvent? }

    function WithText(newText: string): Payload { this.(text := Some(newText)) }
  }

  datatype BlockKey = BlockKey(message: string, index: nat)

  /** Which message each scope is streaming, and which messages are still open. */
  datatype Routing = Routing(scopes: map<string, string>, open: set<string>)

  function Route(routing: Routing, p: Payload): Option<BlockKey> {
    if p.IsReadableDelta()
       && p.Scope().value in routing.scopes
       && routing.scopes[p.Scope().value] in routing.open
    then Some(BlockKey(routing.scopes[p.Scope().value], p.index.value))
    else None
  }

  /** The accumulator's tables between two flushes. */
  datatype Tables = Tables(scopes: map<string, string>, blocks: map<string, map<nat, string>>) {
    function Routes(): Routing { Routing(scopes, blocks.Keys) }

    /** No message keeps state unless some scope is still streaming it. */
    predicate NoLeak() {
      forall m :: m in blocks ==> m in scopes.Values
    }
  }

  const EMPTY_TABLES := Tables(map[], map[])

  function OpenMessage(tables: Tables, scope: string, message: string): Tables {
    var kept := if scope in tables.scopes then tables.blocks - {tables.scopes[scope]} else tables.blocks;
    Tables(tables.scopes[scope := message], kept[message := map[]])
  }

  function BlockText(tables: Tables, key: BlockKey): string {
    if key.message in tables.blocks && key.index in tables.blocks[key.message]
    then tables.blocks[key.message][key.index]
    else ""
  }

  function StoreText(tables: Tables, key: BlockKey, text: string): Tables
    requires key.message in tables.blocks
  {
    var stored: map<nat, string> := tables.blocks[key.message][key.index := text];
    tables.(blocks := tables.blocks[key.message := stored])
  }

  /** What a completed assistant message removes. */
  function Complete(tables: Tables, p: Payload): Tables {
    if !p.kind.Assistant? || p.messageId.None? then tables
    else
      var m := p.messageId.value;
      Tables(CloseScopes(tables.scopes, p, m), tables.blocks - {m})
  }

  function CloseScopes(scopes: map<string, string>, p: Payload, message: string): map<string, string> {
    if p.Scope().Some? then
      if p.Scope().value in scopes && scopes[p.Scope().value] == message then scopes - {p.Scope().value}
      else scopes
    else map s | s in scopes && scopes[s] != message :: scopes[s]
  }

  /** One flush in progress: the tables, the output so far, and for every block already written
      in this flush the output position that holds it. */
  datatype Pass = Pass(tables: Tables, touched: map<BlockKey, nat>, out: seq<Payload>) {
    predicate Valid() {
      forall k :: k in touched ==> touched[k] < |out|
    }
  }

  function Absorb(a: Pass, p: Payload): (r: Pass)
    requires a.Valid()
    ensures r.Valid()
  {
    if p.StartsMessage() then
      Pass(OpenMessage(a.tables, p.Scope().value, p.startId.value), a.touched, a.out + [p])
    else match Route(a.tables.Routes(), p)
      case None => a.(out := a.out + [p])
      case Some(key) =>
        var full := BlockText(a.tables, key) + p.text.value;
        var tables := StoreText(a.tables, key, full);
        if key in a.touched then
          var at := a.touched[key];
          Pass(tables, a.touched, a.out[at := a.out[at].WithText(full)])
        else
          Pass(tables, a.touched[key := |a.out|], a.out + [p.WithText(full)])
  }

  function AbsorbAll(tables: Tables, buffer: seq<Payload>): (r: Pass)
    ensures r.Valid()
  {
    if buffer == [] then Pass(tables, map[], [])
    else Absorb(AbsorbAll(tables, buffer[..|buffer| - 1]), buffer[|buffer| - 1])
  }

  const STREAM_EVENT_FLUSH_INTERVAL: nat := 100

  class StreamEventAccumulator {
    var buffer: seq<Payload>
    var firstBufferedAt: Option<nat>
    var byMessage: map<string, map<nat, string>>
    var scopeToMessage: map<string, string>

    ghost function Contents(): Tables
      reads this
    {
      Tables(scopeToMessage, byMessage)
    }

    constructor ()
      ensures buffer == [] && firstBufferedAt == None && Contents() == EMPTY_TABLES
    {
      buffer, firstBufferedAt, byMessage, scopeToMessage := [], None, map[], map[];
    }

    method Push(payload: Payload, now: nat)
      modifies this`buffer, this`firstBufferedAt
      ensures buffer == old(buffer) + [payload]
      ensures firstBufferedAt == if old(buffer) == [] then Some(now) else old(firstBufferedAt)
    {
      if |buffer| == 0 {
        firstBufferedAt := Some(now);
      }
      buffer := buffer + [payload];
    }

    predicate ShouldFlush(now: nat)
      reads this
    {
      firstBufferedAt.Some? && now - firstBufferedAt.value >= STREAM_EVENT_FLUSH_INTERVAL
    }

    method Flush() returns (out: seq<Payload>)
      modifies this
      ensures firstBufferedAt == None && buffer == []
      ensures out == AbsorbAll(old(Contents()), old(buffer)).out
      ensures Contents() == AbsorbAll(old(Contents()), old(buffer)).tables
    {
      firstBufferedAt := None;
      var taken := buffer;
      buffer := [];
      out := Accumulate(taken);
    }

    method Accumulate(taken: seq<Payload>) returns (out: seq<Payload>)
      modifies this`byMessage, this`scopeToMessage
      ensures out == AbsorbAll(old(Contents()), taken).out
      ensures Contents() == AbsorbAll(old(Contents()), taken).tables
    {
      out := [];
      var touched: map<BlockKey, nat> := map[];
      for i := 0 to |taken|
        invariant Pass(Contents(), touched, out) == AbsorbAll(old(Contents()), taken[..i])
      {
        var payload := taken[i];
        assert taken[..i + 1][..i] == taken[..i];
        if payload.event.MessageStart? {
          if payload.Scope().Some? && payload.startId.Some? {
            var scope, messageId := payload.Scope().value, payload.startId.value;
            if scope in scopeToMessage {
              byMessage := byMessage - {scopeToMessage[scope]};
            }
            scopeToMessage := scopeToMessage[scope := messageId];
            byMessage := byMessage[messageId := map[]];
          }
          out := out + [payload];
        } else if payload.event.ContentBlockDelta? && payload.isTextDelta {
          if payload.Scope().None? {
            out := out + [payload];
            continue;
          }
          if payload.Scope().value !in scopeToMessage {
            out := out + [payload];
            continue;
          }
          var messageId := scopeToMessage[payload.Scope().value];
          if payload.index.None? || payload.text.None? || messageId !in byMessage {
            out := out + [payload];
            continue;
          }
          var index := payload.index.value;
          var blocks := byMessage[messageId];
          var fullText := (if index in blocks then blocks[index] else "") + payload.text.value;
          byMessage := byMessage[messageId := blocks[index := fullText]];
          var touchKey := BlockKey(messageId, index);
          if touchKey in touched {
            var at := touched[touchKey];
            out := out[at := out[at].WithText(fullText)];
          } else {
            touched := touched[touchKey := |out|];
            out := out + [payload.WithText(fullText)];
          }
        } else {
          out := out + [payload];
        }
      }
      assert taken[..|taken|] == taken;
    }

    method ClearForCompletedAssistantPayload(payload: Payload)
      modifies this`byMessage, this`scopeToMessage
      ensures Contents() == Complete(old(Contents()), payload)
    {
      if !payload.kind.Assistant? || payload.messageId.None? {
        return;
      }
      var messageId := payload.messageId.value;
      byMessage := byMessage - {messageId};
      if payload.Scope().Some? {
        var scope := payload.Scope().value;
        if scope in scopeToMessage && scopeToMessage[scope] == messageId {
          scopeToMessage := scopeToMessage - {scope};
        }
      } else {
        scopeToMessage := map s | s in scopeToMessage && scopeToMessage[s] != messageId :: scopeToMessage[s];
      }
    }
  }

  // ---------- what the tables keep, over every use of the accumulator ----------

  lemma {:induction false} OpenMessageNoLeak(tables: Tables, scope: string, message: string)
    requires tables.NoLeak()
    ensures OpenMessage(tables, scope, message).NoLeak()
  {
    var after := OpenMessage(tables, scope, message);
    forall m | m in after.blocks
      ensures m in after.scopes.Values
    {
      if m == message {
        assert after.scopes[scope] == m;
      } else {
        var s :| s in tables.scopes && tables.scopes[s] == m;
        assert s in after.scopes && after.scopes[s] == m;
      }
    }
  }

  lemma {:induction false} AbsorbAllNoLeak(tables: Tables, buffer: seq<Payload>)
    requires tables.NoLeak()
    ensures AbsorbAll(tables, buffer).tables.NoLeak()
  {
    if buffer != [] {
      var before, p := AbsorbAll(tables, buffer[..|buffer| - 1]), buffer[|buffer| - 1];
      AbsorbAllNoLeak(tables, buffer[..|buffer| - 1]);
      if p.StartsMessage() {
        OpenMessageNoLeak(before.tables, p.Scope().value, p.startId.value);
      }
    }
  }

  lemma {:induction false} CompleteNoLeak(tables: Tables, p: Payload)
    requires tables.NoLeak()
    ensures Complete(tables, p).NoLeak()
  {
    var after := Complete(tables, p);
    forall m | m in after.blocks
      ensures m in after.scopes.Values
    {
      var s :| s in tables.scopes && tables.scopes[s] == m;
      assert s in after.scopes && after.scopes[s] == m;
    }
  }

  datatype Use = PushOne(p: Payload) | FlushNow | Clear(p: Payload)

  /** The tables and the buffer after any sequence of calls, in any order. */
  function AfterUses(uses: seq<Use>): (Tables, seq<Payload>) {
    if uses == [] then (EMPTY_TABLES, [])
    else
      var (tables, buffer) := AfterUses(uses[..|uses| - 1]);
      match uses[|uses| - 1]
      case PushOne(p) => (tables, buffer + [p])
      case FlushNow => (AbsorbAll(tables, buffer).tables, [])
      case Clear(p) => (Complete(tables, p), buffer)
  }

  lemma {:induction false} NoLeakedStreamState(uses: seq<Use>)
    ensures AfterUses(uses).0.NoLeak()
  {
    if uses != [] {
      NoLeakedStreamState(uses[..|uses| - 1]);
      var (tables, buffer) := AfterUses(uses[..|uses| - 1]);
      match uses[|uses| - 1] {
        case PushOne(p) =>
        case FlushNow => AbsorbAllNoLeak(tables, buffer);
        case Clear(p) => CompleteNoLeak(tables, p);
      }
    }
  }
}
