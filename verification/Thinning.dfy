/** The merged output of the accumulator keeps the order of the payloads: it is the payloads with
    some text deltas left out, each told of by an earlier kept delta of the same message block with
    nothing but stream events in between. A kept delta carries the full text that its block had
    after the last delta it tells of. */
module Thinning {
  import opened Prelude
  import opened StreamEvents
  import opened Coalescing

  /** What is made of a payload when it is released: nothing, or a delta of a block, with the full
      text that the block has from then on. */
  datatype Note = Unrouted | Routed(key: BlockKey, text: string)

  /** By the accumulator's tables. */
  function NoteOf(tables: Tables, p: Payload): Note {
    match Route(tables.Routes(), p)
    case None => Unrouted
    case Some(key) => Routed(key, BlockText(tables, key) + p.text.value)
  }

  function Notes(tables: Tables, buffer: seq<Payload>): (notes: seq<Note>)
    ensures |notes| == |buffer|
  {
    if buffer == [] then []
    else
      var init := buffer[..|buffer| - 1];
      Notes(tables, init) + [NoteOf(AbsorbAll(tables, init).tables, buffer[|buffer| - 1])]
  }

  /** By a reader that appends every raw delta. */
  function ReaderNote(r: Reader, p: Payload): Note {
    match EffectOf(r.routing, p)
    case Writes(key) => Routed(key, TextAt(r.texts, key) + Word(p))
    case _ => Unrouted
  }

  function ReaderNotes(r: Reader, ps: seq<Payload>): (notes: seq<Note>)
    ensures |notes| == |ps|
  {
    if ps == [] then []
    else
      var init := ps[..|ps| - 1];
      ReaderNotes(r, init) + [ReaderNote(ReadRaw(r, init), ps[|ps| - 1])]
  }

  function Stamped(p: Payload, note: Note): Payload {
    match note
    case Unrouted => p
    case Routed(_, text) => p.WithText(text)
  }

  /** Where each payload went: position i of the output is payload kept[i], made to tell of everything
      up to payload last[i]; payload j is told of by position into[j] of the output. */
  datatype Landing = Landing(kept: seq<nat>, into: seq<nat>, last: seq<nat>)

  /** Payload j is a later delta of the block that payload `at` is a delta of. */
  ghost predicate AbsorbedInto(raw: seq<Payload>, notes: seq<Note>, at: nat, j: nat)
    requires |notes| == |raw|
  {
    && at < j < |raw|
    && notes[at].Routed? && notes[j].Routed? && notes[at].key == notes[j].key
    && raw[at].index == raw[j].index == Some(notes[j].key.index)
    && forall i :: at <= i <= j ==> raw[i].IsStream()
  }

  /** Payload j is kept, or absorbed into the one before it that is. */
  ghost predicate Landed(raw: seq<Payload>, notes: seq<Note>, w: Landing, j: nat)
    requires j < |raw| == |notes| == |w.into| && |w.kept| == |w.last|
  {
    var i := w.into[j];
    && i < |w.kept| && j <= w.last[i]
    && (notes[j].Routed? ==> raw[j].IsStream() && raw[j].index == Some(notes[j].key.index))
    && (w.kept[i] == j || AbsorbedInto(raw, notes, w.kept[i], j))
  }

  /** Position i of the output is the payload it stands for, with the text after the last delta. */
  ghost predicate Tells(raw: seq<Payload>, notes: seq<Note>, merged: seq<Payload>, w: Landing, i: nat)
    requires |raw| == |notes| == |w.into| && i < |merged| == |w.kept| == |w.last|
  {
    var k, l := w.kept[i], w.last[i];
    && k < |raw| && l < |raw|
    && w.into[k] == i && w.into[l] == i
    && merged[i] == Stamped(raw[k], notes[l])
  }

  /** `merged` is `raw` thinned. */
  ghost predicate Thinned(raw: seq<Payload>, notes: seq<Note>, merged: seq<Payload>, w: Landing) {
    && |raw| == |notes| == |w.into| && |merged| == |w.kept| == |w.last|
    && Increasing(w.kept, |raw|)
    && (forall i :: 0 <= i < |merged| ==> Tells(raw, notes, merged, w, i))
    && (forall j :: 0 <= j < |raw| ==> Landed(raw, notes, w, j))
  }

  /** Every block written in this flush stands where a delta of that very block stood. */
  ghost predicate Sources(notes: seq<Note>, pass: Pass, kept: seq<nat>) {
    && |kept| == |pass.out|
    && forall k :: k in pass.touched ==> SourceOf(notes, pass.touched[k], kept, k)
  }

  ghost predicate SourceOf(notes: seq<Note>, at: nat, kept: seq<nat>, key: BlockKey) {
    at < |kept| && kept[at] < |notes| && notes[kept[at]].Routed? && notes[kept[at]].key == key
  }

  lemma {:induction false} AbsorbedExtend(raw: seq<Payload>, notes: seq<Note>, p: Payload, note: Note, at: nat, j: nat)
    requires |notes| == |raw| && AbsorbedInto(raw, notes, at, j)
    ensures AbsorbedInto(raw + [p], notes + [note], at, j)
  {
  }

  lemma {:induction false} ThinnedKeep(raw: seq<Payload>, notes: seq<Note>, merged: seq<Payload>, w: Landing, p: Payload, note: Note)
      returns (w': Landing)
    requires Thinned(raw, notes, merged, w)
    requires note.Routed? ==> p.IsStream() && p.index == Some(note.key.index)
    ensures w' == Landing(w.kept + [|raw|], w.into + [|merged|], w.last + [|raw|])
    ensures Thinned(raw + [p], notes + [note], merged + [Stamped(p, note)], w')
  {
    w' := Landing(w.kept + [|raw|], w.into + [|merged|], w.last + [|raw|]);
    var raw', notes', merged' := raw + [p], notes + [note], merged + [Stamped(p, note)];
    forall j | 0 <= j < |raw'|
      ensures Landed(raw', notes', w', j)
    {
      if j < |raw| {
        assert Landed(raw, notes, w, j);
        if w.kept[w.into[j]] != j {
          AbsorbedExtend(raw, notes, p, note, w.kept[w.into[j]], j);
        }
      }
    }
    forall i | 0 <= i < |merged'|
      ensures Tells(raw', notes', merged', w', i)
    {
      if i < |merged| {
        assert Tells(raw, notes, merged, w, i);
      }
    }
  }

  lemma {:induction false} ThinnedDrop(raw: seq<Payload>, notes: seq<Note>, merged: seq<Payload>, w: Landing, p: Payload, note: Note, at: nat)
      returns (w': Landing)
    requires Thinned(raw, notes, merged, w) && note.Routed? && SourceOf(notes, at, w.kept, note.key)
    requires p.index == Some(note.key.index)
    requires forall q :: q in raw + [p] ==> q.IsStream()
    ensures w'.kept == w.kept
    ensures Thinned(raw + [p], notes + [note], merged[at := merged[at].WithText(note.text)], w')
  {
    w' := Landing(w.kept, w.into + [at], w.last[at := |raw|]);
    var raw', notes', merged' := raw + [p], notes + [note], merged[at := merged[at].WithText(note.text)];
    assert Tells(raw, notes, merged, w, at);
    forall j | 0 <= j < |raw'|
      ensures Landed(raw', notes', w', j)
    {
      if j < |raw| {
        assert Landed(raw, notes, w, j);
        if w.kept[w.into[j]] != j {
          AbsorbedExtend(raw, notes, p, note, w.kept[w.into[j]], j);
        }
      } else {
        assert Landed(raw, notes, w, w.kept[at]);
        assert AbsorbedInto(raw', notes', w.kept[at], |raw|) by {
          assert forall i :: 0 <= i < |raw'| ==> raw'[i] in raw';
        }
      }
    }
    forall i | 0 <= i < |merged'|
      ensures Tells(raw', notes', merged', w', i)
    {
      assert Tells(raw, notes, merged, w, i);
    }
  }

  /** One more payload of the buffer. */
  lemma {:induction false} AbsorbThins(before: seq<Payload>, notes: seq<Note>, pass: Pass, w: Landing, p: Payload) returns (w': Landing)
    requires pass.Valid() && Thinned(before, notes, pass.out, w) && Sources(notes, pass, w.kept)
    requires forall q :: q in before + [p] ==> q.IsStream()
    ensures Thinned(before + [p], notes + [NoteOf(pass.tables, p)], Absorb(pass, p).out, w')
    ensures Sources(notes + [NoteOf(pass.tables, p)], Absorb(pass, p), w'.kept)
  {
    var note := NoteOf(pass.tables, p);
    if note.Routed? && note.key in pass.touched {
      w' := ThinnedDrop(before, notes, pass.out, w, p, note, pass.touched[note.key]);
    } else {
      w' := ThinnedKeep(before, notes, pass.out, w, p, note);
    }
    forall k | k in Absorb(pass, p).touched
      ensures SourceOf(notes + [note], Absorb(pass, p).touched[k], w'.kept, k)
    {
      if k in pass.touched {
        assert SourceOf(notes, pass.touched[k], w.kept, k);
      }
    }
  }

  /** One flush thins its buffer. */
  lemma {:induction false} AbsorbAllThins(tables: Tables, buffer: seq<Payload>) returns (w: Landing)
    requires forall p :: p in buffer ==> p.IsStream()
    ensures Thinned(buffer, Notes(tables, buffer), AbsorbAll(tables, buffer).out, w)
    ensures Sources(Notes(tables, buffer), AbsorbAll(tables, buffer), w.kept)
  {
    if buffer == [] {
      w := Landing([], [], []);
    } else {
      var before, p := buffer[..|buffer| - 1], buffer[|buffer| - 1];
      assert buffer == before + [p];
      w := AbsorbAllThins(tables, before);
      w := AbsorbThins(before, Notes(tables, before), AbsorbAll(tables, before), w, p);
    }
  }

  // ---------- stretches that follow one another ----------

  function Shifted(at: seq<nat>, offset: nat): seq<nat> {
    seq(|at|, i requires 0 <= i < |at| => at[i] + offset)
  }

  /** `inputs` payloads with `outputs` left of them come before the second landing. */
  function Joined(w: Landing, w': Landing, inputs: nat, outputs: nat): Landing {
    Landing(w.kept + Shifted(w'.kept, inputs), w.into + Shifted(w'.into, outputs), w.last + Shifted(w'.last, inputs))
  }

  lemma {:induction false} AbsorbedShift(raw: seq<Payload>, notes: seq<Note>, raw': seq<Payload>, notes': seq<Note>, at: nat, j: nat)
    requires |notes| == |raw| && |notes'| == |raw'| && AbsorbedInto(raw', notes', at, j)
    ensures AbsorbedInto(raw + raw', notes + notes', at + |raw|, j + |raw|)
  {
    forall x | at + |raw| <= x <= j + |raw|
      ensures (raw + raw')[x].IsStream()
    {
      assert (raw + raw')[x] == raw'[x - |raw|];
    }
  }

  lemma {:induction false} AbsorbedBefore(raw: seq<Payload>, notes: seq<Note>, raw': seq<Payload>, notes': seq<Note>, at: nat, j: nat)
    requires |notes| == |raw| && |notes'| == |raw'| && AbsorbedInto(raw, notes, at, j)
    ensures AbsorbedInto(raw + raw', notes + notes', at, j)
  {
  }

  lemma {:induction false} IncreasingAppend(kept: seq<nat>, n: nat, kept': seq<nat>, m: nat)
    requires Increasing(kept, n) && Increasing(kept', m)
    ensures Increasing(kept + Shifted(kept', n), n + m)
  {
  }

  lemma {:induction false} LandedJoined(raw: seq<Payload>, notes: seq<Note>, merged: seq<Payload>, w: Landing,
                     raw': seq<Payload>, notes': seq<Note>, merged': seq<Payload>, w': Landing, j: nat)
    requires Thinned(raw, notes, merged, w) && Thinned(raw', notes', merged', w') && j < |raw + raw'|
    ensures Landed(raw + raw', notes + notes', Joined(w, w', |raw|, |merged|), j)
  {
    if j < |raw| {
      assert Landed(raw, notes, w, j);
      if w.kept[w.into[j]] != j {
        AbsorbedBefore(raw, notes, raw', notes', w.kept[w.into[j]], j);
      }
    } else {
      var j' := j - |raw|;
      assert Landed(raw', notes', w', j');
      if w'.kept[w'.into[j']] != j' {
        AbsorbedShift(raw, notes, raw', notes', w'.kept[w'.into[j']], j');
      }
    }
  }

  lemma {:induction false} TellsJoined(raw: seq<Payload>, notes: seq<Note>, merged: seq<Payload>, w: Landing,
                    raw': seq<Payload>, notes': seq<Note>, merged': seq<Payload>, w': Landing, i: nat)
    requires Thinned(raw, notes, merged, w) && Thinned(raw', notes', merged', w') && i < |merged + merged'|
    ensures Tells(raw + raw', notes + notes', merged + merged', Joined(w, w', |raw|, |merged|), i)
  {
    if i < |merged| {
      assert Tells(raw, notes, merged, w, i);
    } else {
      assert Tells(raw', notes', merged', w', i - |merged|);
    }
  }

  /** Thinned stretches follow one another. */
  lemma {:induction false} ThinnedAppend(raw: seq<Payload>, notes: seq<Note>, merged: seq<Payload>, w: Landing,
                      raw': seq<Payload>, notes': seq<Note>, merged': seq<Payload>, w': Landing)
    requires Thinned(raw, notes, merged, w) && Thinned(raw', notes', merged', w')
    ensures Thinned(raw + raw', notes + notes', merged + merged', Joined(w, w', |raw|, |merged|))
  {
    var both := Joined(w, w', |raw|, |merged|);
    IncreasingAppend(w.kept, |raw|, w'.kept, |raw'|);
    forall j | 0 <= j < |raw + raw'|
      ensures Landed(raw + raw', notes + notes', both, j)
    {
      LandedJoined(raw, notes, merged, w, raw', notes', merged', w', j);
    }
    forall i | 0 <= i < |merged + merged'|
      ensures Tells(raw + raw', notes + notes', merged + merged', both, i)
    {
      TellsJoined(raw, notes, merged, w, raw', notes', merged', w', i);
    }
  }

  /** A payload that is not a stream event is never left out, and no payload changes sides of it. */
  lemma {:induction false} NothingOvertakes(raw: seq<Payload>, notes: seq<Note>, merged: seq<Payload>, w: Landing, j: nat) returns (at: nat)
    requires Thinned(raw, notes, merged, w) && j < |raw| && !raw[j].IsStream()
    ensures at < |merged| && w.kept[at] == j && merged[at] == raw[j]
    ensures forall i :: 0 <= i < |w.kept| ==> (i < at <==> w.kept[i] < j)
  {
    assert Landed(raw, notes, w, j);
    at := w.into[j];
    assert Tells(raw, notes, merged, w, at) && Landed(raw, notes, w, w.last[at]);
  }

  // ---------- the tables and the reader take the same notes ----------

  /** The note of a payload names the block that it writes when everything before it is followed, with
      the text that the reader has for this block afterwards. */
  lemma {:induction false} ReaderNotesAt(r: Reader, ps: seq<Payload>, i: nat)
    requires i < |ps|
    ensures var effect := EffectOf(FollowAll(r.routing, ps[..i]), ps[i]);
            ReaderNotes(r, ps)[i] == if effect.Writes? then Routed(effect.key, TextAt(ReadRaw(r, ps[..i + 1]).texts, effect.key))
                                     else Unrouted
  {
    var init := ps[..|ps| - 1];
    if i < |init| {
      ReaderNotesAt(r, init, i);
      assert init[..i] == ps[..i] && init[..i + 1] == ps[..i + 1];
    } else {
      ReadRawFollows(r, init);
      assert ps[..i] == init && ps[..i + 1] == ps;
    }
  }

  lemma {:induction false} SameNote(tables: Tables, r: Reader, p: Payload)
    requires Holds(tables, r) && p.IsStream()
    ensures NoteOf(tables, p) == ReaderNote(r, p)
  {
    match EffectOf(r.routing, p) {
      case Writes(key) => StoreHolds(tables, r, p, key);
      case _ =>
    }
  }

  /** While the tables hold what an appending reader knows, a delta is routed to the block that the
      reader would write, and noted with the text that the reader would have. */
  lemma {:induction false} SameNotes(tables: Tables, r: Reader, buffer: seq<Payload>)
    requires Holds(tables, r)
    requires forall p :: p in buffer ==> p.IsStream()
    ensures Notes(tables, buffer) == ReaderNotes(r, buffer)
  {
    if buffer != [] {
      var init := buffer[..|buffer| - 1];
      SameNotes(tables, r, init);
      FlushAgreesExactly(r, tables, init);
      SameNote(AbsorbAll(tables, init).tables, ReadRaw(r, init), buffer[|buffer| - 1]);
    }
  }

  lemma {:induction false} ReaderNotesAppend(r: Reader, ps: seq<Payload>, qs: seq<Payload>)
    ensures ReaderNotes(r, ps + qs) == ReaderNotes(r, ps) + ReaderNotes(ReadRaw(r, ps), qs)
  {
    if qs == [] {
      assert ps + qs == ps;
    } else {
      var init, last := qs[..|qs| - 1], qs[|qs| - 1];
      ReaderNotesAppend(r, ps, init);
      ReadRawAppend(r, ps, init);
      AppendInit(ps, qs);
      Reassociate(ReaderNotes(r, ps), ReaderNotes(ReadRaw(r, ps), init), [ReaderNote(ReadRaw(r, ps + init), last)]);
    }
  }
}
