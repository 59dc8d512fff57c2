/** What merging text deltas means to the reader of the uploaded events.

    Two readers are compared. One sees every raw payload and appends each delta to its block. The
    other sees the merged output and overwrites the block with each snapshot. Both begin a message
    afresh when it is started and stop following it when it is completed or replaced. */
module Coalescing {
  import opened Prelude
  import opened StreamEvents

  datatype Reader = Reader(routing: Routing, texts: map<BlockKey, string>)

  const NEW_READER := Reader(Routing(map[], {}), map[])

  /** What a payload does to a reader's texts. */
  datatype Effect = Begins(message: string) | Writes(key: BlockKey) | Neither

  function EffectOf(routing: Routing, p: Payload): Effect {
    if !p.IsStream() then Neither
    else if p.StartsMessage() then Begins(p.startId.value)
    else match Route(routing, p)
      case None => Neither
      case Some(key) => Writes(key)
  }

  /** What a payload does to the routing. */
  function Follow(routing: Routing, p: Payload): Routing {
    if p.IsStream() && p.StartsMessage() then
      var scope := p.Scope().value;
      var left := if scope in routing.scopes then {routing.scopes[scope]} else {};
      Routing(routing.scopes[scope := p.startId.value], routing.open - left + {p.startId.value})
    else if p.kind.Assistant? && p.messageId.Some? then
      Routing(CloseScopes(routing.scopes, p, p.messageId.value), routing.open - {p.messageId.value})
    else routing
  }

  function TextAt(texts: map<BlockKey, string>, key: BlockKey): string {
    if key in texts then texts[key] else ""
  }

  function Forget(texts: map<BlockKey, string>, message: string): map<BlockKey, string> {
    map k | k in texts && k.message != message :: texts[k]
  }

  function Apply(texts: map<BlockKey, string>, effect: Effect, text: string): map<BlockKey, string> {
    match effect
    case Begins(message) => Forget(texts, message)
    case Writes(key) => texts[key := text]
    case Neither => texts
  }

  function ReadAppending(r: Reader, p: Payload): Reader {
    var effect := EffectOf(r.routing, p);
    var text := if effect.Writes? then TextAt(r.texts, effect.key) + Word(p) else "";
    Reader(Follow(r.routing, p), Apply(r.texts, effect, text))
  }

  function Word(p: Payload): string {
    if p.text.Some? then p.text.value else ""
  }

  function ReadOverwriting(r: Reader, p: Payload): Reader {
    Reader(Follow(r.routing, p), Apply(r.texts, EffectOf(r.routing, p), Word(p)))
  }

  function ReadRaw(r: Reader, ps: seq<Payload>): Reader {
    if ps == [] then r else ReadAppending(ReadRaw(r, ps[..|ps| - 1]), ps[|ps| - 1])
  }

  function ReadSnapshots(r: Reader, ps: seq<Payload>): Reader {
    if ps == [] then r else ReadOverwriting(ReadSnapshots(r, ps[..|ps| - 1]), ps[|ps| - 1])
  }

  function FollowAll(routing: Routing, ps: seq<Payload>): Routing {
    if ps == [] then routing else Follow(FollowAll(routing, ps[..|ps| - 1]), ps[|ps| - 1])
  }

  function Trace(routing: Routing, ps: seq<Payload>): (t: seq<Effect>)
    ensures |t| == |ps|
  {
    if ps == [] then []
    else
      var init := ps[..|ps| - 1];
      Trace(routing, init) + [EffectOf(FollowAll(routing, init), ps[|ps| - 1])]
  }

  lemma {:induction false} ReadRawFollows(r: Reader, ps: seq<Payload>)
    ensures ReadRaw(r, ps).routing == FollowAll(r.routing, ps)
  {
    if ps != [] {
      ReadRawFollows(r, ps[..|ps| - 1]);
    }
  }

  lemma {:induction false} ReadSnapshotsFollows(r: Reader, ps: seq<Payload>)
    ensures ReadSnapshots(r, ps).routing == FollowAll(r.routing, ps)
  {
    if ps != [] {
      ReadSnapshotsFollows(r, ps[..|ps| - 1]);
    }
  }

  lemma {:induction false} OneMore(r: Reader, out: seq<Payload>, p: Payload)
    ensures ReadRaw(r, out + [p]) == ReadAppending(ReadRaw(r, out), p)
    ensures ReadSnapshots(r, out + [p]) == ReadOverwriting(ReadSnapshots(r, out), p)
    ensures FollowAll(r.routing, out + [p]) == Follow(FollowAll(r.routing, out), p)
    ensures Trace(r.routing, out + [p]) == Trace(r.routing, out) + [EffectOf(FollowAll(r.routing, out), p)]
  {
    assert (out + [p])[..|out|] == out;
  }

  // ---------- the condition: a block written before and after a restart of its message ----------

  /** For a block written since the last flush: has its message been started again since, and has
      the block then been written once more? */
  datatype Mark = Fresh | Restarted | Lost

  function Observe(marks: map<BlockKey, Mark>, effect: Effect): map<BlockKey, Mark> {
    match effect
    case Begins(message) => map k | k in marks :: if k.message == message then Restarted else marks[k]
    case Writes(key) => marks[key := if key in marks && marks[key] != Fresh then Lost else Fresh]
    case Neither => marks
  }

  function Marks(trace: seq<Effect>): map<BlockKey, Mark> {
    if trace == [] then map[] else Observe(Marks(trace[..|trace| - 1]), trace[|trace| - 1])
  }

  /** Some block is written, its message started again, and the block written once more, all
      between two flushes. */
  predicate RestartsMidBuffer(routing: Routing, buffer: seq<Payload>) {
    var marks := Marks(Trace(routing, buffer));
    exists k :: k in marks && marks[k] == Lost
  }

  // ---------- rewriting one output position ----------

  ghost predicate WrittenLast(trace: seq<Effect>, at: nat, key: BlockKey) {
    && at < |trace|
    && trace[at] == Writes(key)
    && forall i :: at < i < |trace| ==> trace[i] != Writes(key)
  }

  ghost predicate BeginsAfter(trace: seq<Effect>, at: nat, message: string) {
    exists i :: at < i < |trace| && trace[i] == Begins(message)
  }

  lemma {:induction false} SameEffect(routing: Routing, p: Payload, text: string)
    requires p.text.Some?
    ensures EffectOf(routing, p.WithText(text)) == EffectOf(routing, p)
    ensures Follow(routing, p.WithText(text)) == Follow(routing, p)
  {
  }

  lemma {:induction false} RewriteKeepsTrace(routing: Routing, out: seq<Payload>, at: nat, text: string)
    requires at < |out| && out[at].text.Some?
    ensures FollowAll(routing, out[at := out[at].WithText(text)]) == FollowAll(routing, out)
    ensures Trace(routing, out[at := out[at].WithText(text)]) == Trace(routing, out)
  {
    var init, last := out[..|out| - 1], out[|out| - 1];
    UpdateInit(out, at, out[at].WithText(text));
    if at < |init| {
      RewriteKeepsTrace(routing, init, at, text);
    } else {
      SameEffect(FollowAll(routing, init), last, text);
    }
  }

  /** The texts an overwriting reader ends with, from what each payload does and says. */
  function ApplyAll(texts: map<BlockKey, string>, trace: seq<Effect>, words: seq<string>): map<BlockKey, string>
    requires |trace| == |words|
  {
    if trace == [] then texts
    else
      var last := |trace| - 1;
      Apply(ApplyAll(texts, trace[..last], words[..last]), trace[last], words[last])
  }

  function Words(ps: seq<Payload>): seq<string> {
    seq(|ps|, i requires 0 <= i < |ps| => Word(ps[i]))
  }

  lemma {:induction false} SnapshotTexts(r: Reader, ps: seq<Payload>)
    ensures ReadSnapshots(r, ps).texts == ApplyAll(r.texts, Trace(r.routing, ps), Words(ps))
  {
    if ps != [] {
      var init := ps[..|ps| - 1];
      SnapshotTexts(r, init);
      ReadSnapshotsFollows(r, init);
      assert Words(ps)[..|init|] == Words(init);
      assert Trace(r.routing, ps)[..|init|] == Trace(r.routing, init);
    }
  }

  /** An effect on other blocks leaves a difference in one block as it was, unless it begins the
      message of that block. */
  lemma {:induction false} ApplyCommutes(texts: map<BlockKey, string>, effect: Effect, text: string, key: BlockKey, word: string)
    requires effect != Writes(key)
    ensures Apply(texts[key := word], effect, text) ==
            if effect == Begins(key.message) then Apply(texts, effect, text) else Apply(texts, effect, text)[key := word]
  {
  }

  /** Changing the word written last to a block changes that block alone, and changes nothing if
      the message is started again further on. */
  lemma {:induction false} ChangeLastWord(texts: map<BlockKey, string>, trace: seq<Effect>, words: seq<string>,
                                          at: nat, key: BlockKey, word: string)
    requires |trace| == |words| && WrittenLast(trace, at, key)
    ensures ApplyAll(texts, trace, words[at := word]) ==
            if BeginsAfter(trace, at, key.message) then ApplyAll(texts, trace, words)
            else ApplyAll(texts, trace, words)[key := word]
    decreases |trace|
  {
    var last := |trace| - 1;
    UpdateInit(words, at, word);
    if at < last {
      ChangeLastWord(texts, trace[..last], words[..last], at, key, word);
      ApplyCommutes(ApplyAll(texts, trace[..last], words[..last]), trace[last], words[last], key, word);
      assert trace == trace[..last] + [trace[last]];
      BeginsAfterExtend(trace[..last], trace[last], at, key.message);
    }
  }

  lemma {:induction false} RewriteText(r: Reader, out: seq<Payload>, at: nat, key: BlockKey, text: string)
    requires WrittenLast(Trace(r.routing, out), at, key) && out[at].text.Some?
    ensures ReadSnapshots(r, out[at := out[at].WithText(text)]).texts ==
            if BeginsAfter(Trace(r.routing, out), at, key.message) then ReadSnapshots(r, out).texts
            else ReadSnapshots(r, out).texts[key := text]
  {
    var out' := out[at := out[at].WithText(text)];
    SnapshotTexts(r, out);
    SnapshotTexts(r, out');
    RewriteKeepsTrace(r.routing, out, at, text);
    assert Words(out') == Words(out)[at := text];
    ChangeLastWord(r.texts, Trace(r.routing, out), Words(out), at, key, text);
  }

  // ---------- the simulation ----------

  /** The tables hold exactly what an appending reader knows about the open messages. */
  ghost predicate Holds(tables: Tables, r: Reader) {
    && r.routing == tables.Routes()
    && forall k: BlockKey :: k.message in tables.blocks ==>
         && (k.index in tables.blocks[k.message] <==> k in r.texts)
         && (k in r.texts ==> tables.blocks[k.message][k.index] == r.texts[k])
  }

  ghost predicate AgreeAt(raw: map<BlockKey, string>, snap: map<BlockKey, string>, key: BlockKey) {
    && (key in raw <==> key in snap)
    && (key in raw ==> raw[key] == snap[key])
  }

  ghost predicate Differ(raw: map<BlockKey, string>, snap: map<BlockKey, string>, marks: map<BlockKey, Mark>) {
    && (forall k: BlockKey :: !(k in marks && marks[k] == Lost) ==> AgreeAt(raw, snap, k))
    && (forall k :: k in marks && marks[k] == Lost ==> k in raw && k !in snap)
    && (forall k :: k in marks && marks[k] == Restarted ==> k !in raw)
  }

  ghost predicate PlacedAt(trace: seq<Effect>, at: nat, key: BlockKey, mark: Mark) {
    && WrittenLast(trace, at, key)
    && (mark == Fresh <==> !BeginsAfter(trace, at, key.message))
  }

  /** Every block written in this flush stands at its recorded output position, and its mark says
      whether the message is started again after that position. */
  ghost predicate Placed(trace: seq<Effect>, touched: map<BlockKey, nat>, marks: map<BlockKey, Mark>) {
    && marks.Keys == touched.Keys
    && forall k :: k in touched ==> PlacedAt(trace, touched[k], k, marks[k])
  }

  lemma {:induction false} BeginsAfterExtend(trace: seq<Effect>, effect: Effect, at: nat, message: string)
    requires at < |trace|
    ensures BeginsAfter(trace + [effect], at, message) <==> BeginsAfter(trace, at, message) || effect == Begins(message)
  {
    var trace' := trace + [effect];
    assert trace'[|trace|] == effect;
    assert forall i :: 0 <= i < |trace| ==> trace'[i] == trace[i];
  }

  lemma {:induction false} PlacedAfterOther(trace: seq<Effect>, touched: map<BlockKey, nat>, marks: map<BlockKey, Mark>, effect: Effect)
    requires Placed(trace, touched, marks) && !effect.Writes?
    ensures Placed(trace + [effect], touched, Observe(marks, effect))
  {
    var trace' := trace + [effect];
    forall k | k in touched
      ensures PlacedAt(trace', touched[k], k, Observe(marks, effect)[k])
    {
      assert PlacedAt(trace, touched[k], k, marks[k]);
      BeginsAfterExtend(trace, effect, touched[k], k.message);
    }
  }

  lemma {:induction false} PlacedAfterFirst(trace: seq<Effect>, touched: map<BlockKey, nat>, marks: map<BlockKey, Mark>, key: BlockKey)
    requires Placed(trace, touched, marks) && key !in touched
    ensures Placed(trace + [Writes(key)], touched[key := |trace|], Observe(marks, Writes(key)))
  {
    var trace' := trace + [Writes(key)];
    forall k | k in touched
      ensures PlacedAt(trace', touched[k], k, marks[k])
    {
      assert PlacedAt(trace, touched[k], k, marks[k]);
      BeginsAfterExtend(trace, Writes(key), touched[k], k.message);
    }
    assert PlacedAt(trace', |trace|, key, Fresh);
  }

  lemma {:induction false} PlacedAfterRewrite(trace: seq<Effect>, touched: map<BlockKey, nat>, marks: map<BlockKey, Mark>, key: BlockKey)
    requires Placed(trace, touched, marks) && key in touched
    ensures Placed(trace, touched, Observe(marks, Writes(key)))
  {
  }

  lemma {:induction false} DifferAfterBegin(raw: map<BlockKey, string>, snap: map<BlockKey, string>, marks: map<BlockKey, Mark>, message: string)
    requires Differ(raw, snap, marks)
    ensures Differ(Forget(raw, message), Forget(snap, message), Observe(marks, Begins(message)))
  {
  }

  /** A delta written to a block: both readers now hold the new text, unless the message was
      restarted after the block's place in the output. */
  lemma {:induction false} DifferAfterWrite(raw: map<BlockKey, string>, snap: map<BlockKey, string>, marks: map<BlockKey, Mark>,
                         key: BlockKey, text: string)
    requires Differ(raw, snap, marks)
    ensures Differ(raw[key := text],
                   if key in marks && marks[key] != Fresh then snap else snap[key := text],
                   Observe(marks, Writes(key)))
  {
  }

  lemma {:induction false} DifferExactly(raw: map<BlockKey, string>, snap: map<BlockKey, string>, marks: map<BlockKey, Mark>)
    requires Differ(raw, snap, marks)
    ensures raw == snap <==> forall k :: k in marks ==> marks[k] != Lost
  {
    if forall k :: k in marks ==> marks[k] != Lost {
      assert forall k: BlockKey :: AgreeAt(raw, snap, k);
      assert raw.Keys == snap.Keys;
    }
  }

  /** The state of one flush after part of the buffer, beside the two readers. */
  ghost predicate InStep(r: Reader, tables: Tables, buffer: seq<Payload>) {
    var pass, raw := AbsorbAll(tables, buffer), ReadRaw(r, buffer);
    var marks := Marks(Trace(r.routing, buffer));
    && Holds(pass.tables, raw)
    && FollowAll(r.routing, pass.out) == raw.routing
    && Placed(Trace(r.routing, pass.out), pass.touched, marks)
    && Differ(raw.texts, ReadSnapshots(r, pass.out).texts, marks)
  }

  lemma {:induction false} OpenHolds(tables: Tables, raw: Reader, p: Payload)
    requires Holds(tables, raw) && p.IsStream() && p.StartsMessage()
    ensures Holds(OpenMessage(tables, p.Scope().value, p.startId.value), ReadAppending(raw, p))
  {
    var after := OpenMessage(tables, p.Scope().value, p.startId.value);
    assert after.blocks.Keys == ReadAppending(raw, p).routing.open;
  }

  lemma {:induction false} StoreHolds(tables: Tables, raw: Reader, p: Payload, key: BlockKey)
    requires Holds(tables, raw) && p.IsStream() && !p.StartsMessage() && Route(tables.Routes(), p) == Some(key)
    ensures TextAt(raw.texts, key) == BlockText(tables, key)
    ensures Holds(StoreText(tables, key, BlockText(tables, key) + p.text.value), ReadAppending(raw, p))
  {
    var stored := StoreText(tables, key, BlockText(tables, key) + p.text.value);
    assert stored.blocks.Keys == tables.blocks.Keys;
  }

  lemma {:induction false} StepOther(r: Reader, tables: Tables, before: seq<Payload>, p: Payload)
    requires InStep(r, tables, before) && p.IsStream()
    requires !EffectOf(ReadRaw(r, before).routing, p).Writes?
    ensures InStep(r, tables, before + [p])
  {
    var pass, raw := AbsorbAll(tables, before), ReadRaw(r, before);
    var effect := EffectOf(raw.routing, p);
    var trace := Trace(r.routing, before);
    AdvanceBuffer(r, tables, before, p);
    OneMore(r, pass.out, p);
    ReadSnapshotsFollows(r, pass.out);
    PlacedAfterOther(Trace(r.routing, pass.out), pass.touched, Marks(trace), effect);
    if effect.Begins? {
      OpenHolds(pass.tables, raw, p);
      DifferAfterBegin(raw.texts, ReadSnapshots(r, pass.out).texts, Marks(trace), effect.message);
    }
  }

  /** One routed delta: what the flush in progress becomes and what the appending reader learns. */
  lemma {:induction false} AbsorbWrite(pass: Pass, raw: Reader, p: Payload, key: BlockKey)
    requires pass.Valid() && Holds(pass.tables, raw) && p.IsStream()
    requires EffectOf(raw.routing, p) == Writes(key)
    ensures var full := BlockText(pass.tables, key) + p.text.value;
            && ReadAppending(raw, p) == Reader(raw.routing, raw.texts[key := full])
            && EffectOf(raw.routing, p.WithText(full)) == Writes(key)
            && Follow(raw.routing, p.WithText(full)) == raw.routing
            && Absorb(pass, p) == Pass(
                 StoreText(pass.tables, key, full),
                 if key in pass.touched then pass.touched else pass.touched[key := |pass.out|],
                 if key in pass.touched then pass.out[pass.touched[key] := pass.out[pass.touched[key]].WithText(full)]
                 else pass.out + [p.WithText(full)])
    ensures Holds(Absorb(pass, p).tables, ReadAppending(raw, p))
  {
    StoreHolds(pass.tables, raw, p, key);
  }

  lemma {:induction false} StepFirstWrite(r: Reader, tables: Tables, before: seq<Payload>, p: Payload, key: BlockKey)
    requires InStep(r, tables, before) && p.IsStream()
    requires EffectOf(ReadRaw(r, before).routing, p) == Writes(key)
    requires key !in AbsorbAll(tables, before).touched
    ensures InStep(r, tables, before + [p])
  {
    var pass, raw := AbsorbAll(tables, before), ReadRaw(r, before);
    var marks := Marks(Trace(r.routing, before));
    AdvanceBuffer(r, tables, before, p);
    AbsorbWrite(pass, raw, p, key);
    ReadSnapshotsFollows(r, pass.out);
    var full := BlockText(pass.tables, key) + p.text.value;
    DifferAfterWrite(raw.texts, ReadSnapshots(r, pass.out).texts, marks, key, full);
    OneMore(r, pass.out, p.WithText(full));
    PlacedAfterFirst(Trace(r.routing, pass.out), pass.touched, marks, key);
  }

  lemma {:induction false} StepRewrite(r: Reader, tables: Tables, before: seq<Payload>, p: Payload, key: BlockKey)
    requires InStep(r, tables, before) && p.IsStream()
    requires EffectOf(ReadRaw(r, before).routing, p) == Writes(key)
    requires key in AbsorbAll(tables, before).touched
    ensures InStep(r, tables, before + [p])
  {
    var pass, raw := AbsorbAll(tables, before), ReadRaw(r, before);
    var marks := Marks(Trace(r.routing, before));
    var full := BlockText(pass.tables, key) + p.text.value;
    var at := pass.touched[key];
    AdvanceBuffer(r, tables, before, p);
    AbsorbWrite(pass, raw, p, key);
    assert PlacedAt(Trace(r.routing, pass.out), at, key, marks[key]);
    WriterHasText(r.routing, pass.out, at, key);
    RewriteKeepsTrace(r.routing, pass.out, at, full);
    RewriteText(r, pass.out, at, key, full);
    DifferAfterWrite(raw.texts, ReadSnapshots(r, pass.out).texts, marks, key, full);
    PlacedAfterRewrite(Trace(r.routing, pass.out), pass.touched, marks, key);
  }

  lemma {:induction false} AdvanceBuffer(r: Reader, tables: Tables, before: seq<Payload>, p: Payload)
    ensures AbsorbAll(tables, before + [p]) == Absorb(AbsorbAll(tables, before), p)
    ensures ReadRaw(r, before + [p]) == ReadAppending(ReadRaw(r, before), p)
    ensures Marks(Trace(r.routing, before + [p])) ==
            Observe(Marks(Trace(r.routing, before)), EffectOf(ReadRaw(r, before).routing, p))
  {
    OneMore(r, before, p);
    ReadRawFollows(r, before);
    assert (before + [p])[..|before|] == before;
    var trace' := Trace(r.routing, before + [p]);
    assert trace'[..|before|] == Trace(r.routing, before);
  }

  lemma {:induction false} WriterHasText(routing: Routing, ps: seq<Payload>, at: nat, key: BlockKey)
    requires at < |ps| && Trace(routing, ps)[at] == Writes(key)
    ensures ps[at].text.Some?
  {
    if at < |ps| - 1 {
      WriterHasText(routing, ps[..|ps| - 1], at, key);
    }
  }

  lemma {:induction false} Simulate(r: Reader, tables: Tables, buffer: seq<Payload>)
    requires Holds(tables, r)
    requires forall p :: p in buffer ==> p.IsStream()
    ensures InStep(r, tables, buffer)
  {
    if buffer != [] {
      var before, p := buffer[..|buffer| - 1], buffer[|buffer| - 1];
      assert buffer == before + [p];
      Simulate(r, tables, before);
      match EffectOf(ReadRaw(r, before).routing, p) {
        case Writes(key) =>
          if key in AbsorbAll(tables, before).touched {
            StepRewrite(r, tables, before, p, key);
          } else {
            StepFirstWrite(r, tables, before, p, key);
          }
        case _ => StepOther(r, tables, before, p);
      }
    }
  }

  // ---------- one flush ----------

  /** Reading the merged output of one flush gives what reading the raw payloads gives, exactly
      when no block was written, its message restarted and the block written again inside the
      buffer. The tables are right for the next flush in either case. */
  lemma {:induction false} FlushAgreesExactly(r: Reader, tables: Tables, buffer: seq<Payload>)
    requires Holds(tables, r)
    requires forall p :: p in buffer ==> p.IsStream()
    ensures Holds(AbsorbAll(tables, buffer).tables, ReadRaw(r, buffer))
    ensures ReadSnapshots(r, AbsorbAll(tables, buffer).out).routing == ReadRaw(r, buffer).routing
    ensures ReadSnapshots(r, AbsorbAll(tables, buffer).out) == ReadRaw(r, buffer)
            <==> !RestartsMidBuffer(r.routing, buffer)
  {
    Simulate(r, tables, buffer);
    var raw, snap := ReadRaw(r, buffer), ReadSnapshots(r, AbsorbAll(tables, buffer).out);
    ReadSnapshotsFollows(r, AbsorbAll(tables, buffer).out);
    DifferExactly(raw.texts, snap.texts, Marks(Trace(r.routing, buffer)));
  }

  // ---------- when the condition cannot arise ----------

  ghost predicate RewrittenAt(trace: seq<Effect>, key: BlockKey, a: int, s: int, b: int) {
    && 0 <= a < s < b < |trace|
    && trace[a] == Writes(key) && trace[s] == Begins(key.message) && trace[b] == Writes(key)
    && !BeginsAfter(trace, b, key.message)
  }

  /** A lost block was written, then its message begun again, then the block written again. */
  ghost predicate RewrittenAfterRestart(trace: seq<Effect>, key: BlockKey) {
    exists a, s, b :: RewrittenAt(trace, key, a, s, b)
  }

  ghost predicate WrittenThenBegun(trace: seq<Effect>, key: BlockKey) {
    exists a, s :: 0 <= a < s < |trace| && trace[a] == Writes(key) && trace[s] == Begins(key.message)
  }

  /** The marks say where the writes and restarts of a block stand in the buffer. */
  lemma {:induction false} MarksMean(trace: seq<Effect>, key: BlockKey)
    ensures key in Marks(trace) <==> Writes(key) in trace
    ensures key in Marks(trace) && Marks(trace)[key] == Lost <==> RewrittenAfterRestart(trace, key)
    ensures key in Marks(trace) && Marks(trace)[key] != Fresh <==> WrittenThenBegun(trace, key)
  {
    if trace != [] {
      var last := |trace| - 1;
      MarksMean(trace[..last], key);
      assert trace == trace[..last] + [trace[last]];
      WrittenThenBegunExtend(trace[..last], trace[last], key);
      RewrittenExtend(trace[..last], trace[last], key);
    }
  }

  lemma {:induction false} WrittenThenBegunExtend(init: seq<Effect>, effect: Effect, key: BlockKey)
    ensures WrittenThenBegun(init + [effect], key) <==>
            WrittenThenBegun(init, key) || (Writes(key) in init && effect == Begins(key.message))
  {
    var trace := init + [effect];
    if Writes(key) in init && effect == Begins(key.message) {
      var a :| 0 <= a < |init| && init[a] == Writes(key);
      assert trace[a] == Writes(key) && trace[|init|] == Begins(key.message);
    }
    if WrittenThenBegun(init, key) {
      var a, s :| 0 <= a < s < |init| && init[a] == Writes(key) && init[s] == Begins(key.message);
      assert trace[a] == Writes(key) && trace[s] == Begins(key.message);
    }
  }

  lemma {:induction false} RewrittenShorter(init: seq<Effect>, effect: Effect, key: BlockKey)
    requires RewrittenAfterRestart(init + [effect], key)
    ensures if effect == Writes(key) then WrittenThenBegun(init, key)
            else RewrittenAfterRestart(init, key) && effect != Begins(key.message)
  {
    var trace := init + [effect];
    assert trace[|init|] == effect;
    var a, s, b :| RewrittenAt(trace, key, a, s, b);
    assert init[a] == Writes(key) && init[s] == Begins(key.message);
    if b < |init| {
      BeginsAfterExtend(init, effect, b, key.message);
      assert RewrittenAt(init, key, a, s, b);
    }
  }

  lemma {:induction false} RewrittenLonger(init: seq<Effect>, effect: Effect, key: BlockKey)
    requires if effect == Writes(key) then WrittenThenBegun(init, key)
             else RewrittenAfterRestart(init, key) && effect != Begins(key.message)
    ensures RewrittenAfterRestart(init + [effect], key)
  {
    var trace := init + [effect];
    if effect == Writes(key) {
      var a, s :| 0 <= a < s < |init| && init[a] == Writes(key) && init[s] == Begins(key.message);
      assert RewrittenAt(trace, key, a, s, |init|);
    } else {
      var a, s, b :| RewrittenAt(init, key, a, s, b);
      BeginsAfterExtend(init, effect, b, key.message);
      assert RewrittenAt(trace, key, a, s, b);
    }
  }

  lemma {:induction false} RewrittenExtend(init: seq<Effect>, effect: Effect, key: BlockKey)
    ensures RewrittenAfterRestart(init + [effect], key) <==>
            if effect == Writes(key) then WrittenThenBegun(init, key)
            else RewrittenAfterRestart(init, key) && effect != Begins(key.message)
  {
    if RewrittenAfterRestart(init + [effect], key) {
      RewrittenShorter(init, effect, key);
    } else if if effect == Writes(key) then WrittenThenBegun(init, key)
              else RewrittenAfterRestart(init, key) && effect != Begins(key.message) {
      RewrittenLonger(init, effect, key);
    }
  }

  lemma {:induction false} FollowAllAppend(routing: Routing, ps: seq<Payload>, qs: seq<Payload>)
    ensures FollowAll(routing, ps + qs) == FollowAll(FollowAll(routing, ps), qs)
  {
    if qs == [] {
      assert ps + qs == ps;
    } else {
      FollowAllAppend(routing, ps, qs[..|qs| - 1]);
      AppendInit(ps, qs);
    }
  }

  lemma {:induction false} ReadRawAppend(r: Reader, ps: seq<Payload>, qs: seq<Payload>)
    ensures ReadRaw(r, ps + qs) == ReadRaw(ReadRaw(r, ps), qs)
  {
    if qs == [] {
      assert ps + qs == ps;
    } else {
      ReadRawAppend(r, ps, qs[..|qs| - 1]);
      AppendInit(ps, qs);
    }
  }

  lemma {:induction false} ReadSnapshotsAppend(r: Reader, ps: seq<Payload>, qs: seq<Payload>)
    ensures ReadSnapshots(r, ps + qs) == ReadSnapshots(ReadSnapshots(r, ps), qs)
  {
    if qs == [] {
      assert ps + qs == ps;
    } else {
      ReadSnapshotsAppend(r, ps, qs[..|qs| - 1]);
      AppendInit(ps, qs);
    }
  }

  lemma {:induction false} TraceAt(routing: Routing, ps: seq<Payload>, i: nat)
    requires i < |ps|
    ensures Trace(routing, ps)[i] == EffectOf(FollowAll(routing, ps[..i]), ps[i])
  {
    var init := ps[..|ps| - 1];
    if i < |init| {
      TraceAt(routing, init, i);
      assert init[..i] == ps[..i];
    }
  }

  ghost predicate StartsOnce(ps: seq<Payload>) {
    forall i, j :: 0 <= i < j < |ps| && ps[i].IsStream() && ps[j].IsStream() && ps[i].StartsMessage() && ps[j].StartsMessage()
      ==> ps[i].startId != ps[j].startId
  }

  lemma {:induction false} OpenWasStarted(ps: seq<Payload>, message: string) returns (i: nat)
    requires message in FollowAll(NEW_READER.routing, ps).open
    ensures i < |ps| && ps[i].IsStream() && ps[i].Starts(message)
  {
    var last := |ps| - 1;
    if ps[last].IsStream() && ps[last].Starts(message) {
      i := last;
    } else {
      i := OpenWasStarted(ps[..last], message);
    }
  }

  /** A block written in the buffer belongs to a message started earlier, so a start of that
      message later in the buffer is its second. */
  lemma {:induction false} BegunTwice(flushed: seq<Payload>, buffer: seq<Payload>, a: nat, s: nat, key: BlockKey)
    requires a < s < |buffer|
    requires Trace(FollowAll(NEW_READER.routing, flushed), buffer)[a] == Writes(key)
    requires Trace(FollowAll(NEW_READER.routing, flushed), buffer)[s] == Begins(key.message)
    ensures !StartsOnce(flushed + buffer)
  {
    var routing := FollowAll(NEW_READER.routing, flushed);
    TraceAt(routing, buffer, a);
    TraceAt(routing, buffer, s);
    var before := flushed + buffer[..a];
    FollowAllAppend(NEW_READER.routing, flushed, buffer[..a]);
    var i := OpenWasStarted(before, key.message);
    var all := flushed + buffer;
    assert all[i] == before[i];
    assert all[|flushed| + s] == buffer[s];
    assert i < |flushed| + s;
  }

  /** A message id that is never started twice cannot lose text, wherever the flushes fall. */
  lemma {:induction false} StartsOnceSuffices(flushed: seq<Payload>, buffer: seq<Payload>)
    requires StartsOnce(flushed + buffer)
    ensures !RestartsMidBuffer(FollowAll(NEW_READER.routing, flushed), buffer)
  {
    var trace := Trace(FollowAll(NEW_READER.routing, flushed), buffer);
    if k :| k in Marks(trace) && Marks(trace)[k] == Lost {
      MarksMean(trace, k);
      var a, s :| 0 <= a < s < |trace| && trace[a] == Writes(k) && trace[s] == Begins(k.message);
      BegunTwice(flushed, buffer, a, s, k);
    }
  }

  lemma {:induction false} FourEffects(routing: Routing, p: Payload, q: Payload, r: Payload, t: Payload)
    ensures Trace(routing, [p, q, r, t]) ==
            [EffectOf(routing, p), EffectOf(FollowAll(routing, [p]), q),
             EffectOf(FollowAll(routing, [p, q]), r), EffectOf(FollowAll(routing, [p, q, r]), t)]
    ensures FollowAll(routing, [p]) == Follow(routing, p)
    ensures FollowAll(routing, [p, q]) == Follow(Follow(routing, p), q)
    ensures FollowAll(routing, [p, q, r]) == Follow(Follow(Follow(routing, p), q), r)
  {
    var ps := [p, q, r, t];
    assert ps[..3] == [p, q, r] && ps[..2] == [p, q] && ps[..1] == [p] && ps[..0] == [];
    assert [p, q, r][..2] == [p, q] && [p, q][..1] == [p] && [p][..0] == [];
    TraceAt(routing, ps, 0);
    TraceAt(routing, ps, 1);
    TraceAt(routing, ps, 2);
    TraceAt(routing, ps, 3);
  }

  const SAMPLE_START :=
    Payload(Kind.StreamEvent, Some("s"), NoParent, MessageStart, Some("m"), false, None, None, None, 0)

  function SampleDelta(text: string): Payload {
    Payload(Kind.StreamEvent, Some("s"), NoParent, ContentBlockDelta, None, true, Some(0), Some(text), None, 1)
  }

  lemma {:induction false} SampleTrace()
    ensures var key := BlockKey("m", 0);
            Trace(NEW_READER.routing, [SAMPLE_START, SampleDelta("a"), SAMPLE_START, SampleDelta("b")])
            == [Begins("m"), Writes(key), Begins("m"), Writes(key)]
  {
    var start, a, b := SAMPLE_START, SampleDelta("a"), SampleDelta("b");
    var started := Routing(map[start.Scope().value := "m"], {"m"});
    FourEffects(NEW_READER.routing, start, a, start, b);
    assert Follow(NEW_READER.routing, start) == started == Follow(started, start);
  }

  /** A restart between two flushes does lose text: the second delta is written into the output
      position of the first, which a reader forgets when it reaches the second start. */
  lemma {:induction false} RestartLosesText() returns (buffer: seq<Payload>)
    ensures forall p :: p in buffer ==> p.IsStream()
    ensures ReadSnapshots(NEW_READER, AbsorbAll(EMPTY_TABLES, buffer).out) != ReadRaw(NEW_READER, buffer)
  {
    var key := BlockKey("m", 0);
    buffer := [SAMPLE_START, SampleDelta("a"), SAMPLE_START, SampleDelta("b")];
    SampleTrace();
    var trace := Trace(NEW_READER.routing, buffer);
    assert RewrittenAt(trace, key, 1, 2, 3);
    MarksMean(trace, key);
    FlushAgreesExactly(NEW_READER, EMPTY_TABLES, buffer);
  }
}
