/** Reading a worker's pipe into a bounded buffer while the pipe delivers, blocks, is interrupted or
    breaks in any order. */
module BoundedCapture {
  import opened Prelude

  type Byte = bv8

  /** What one read call meets. `Ready(n)` delivers at most n bytes, but at least one unless the
      stream is at its end; `WouldBlock(stopped)` also says whether the reader was told to stop. */
  datatype ReadEvent = Ready(upTo: nat) | Interrupted | WouldBlock(stopped: bool) | Broken

  datatype ReadResult = Chunk(bytes: seq<Byte>) | Error(event: ReadEvent) | OutOfSchedule

  datatype Verdict = CompleteBounded | LimitExceeded | Truncated | ReadFailed

  /** The capture so far if the schedule has run out, or the finished capture. */
  datatype Progress = Reading(bytes: seq<Byte>) | Captured(bytes: seq<Byte>, verdict: Verdict)

  function Min(a: nat, b: nat): nat { if a < b then a else b }

  function Delivered(upTo: nat, size: nat, left: nat): nat {
    Min(Min(if upTo == 0 then 1 else upTo, size), left)
  }

  class Pipe {
    const stream: seq<Byte>
    var position: nat
    var schedule: seq<ReadEvent>

    ghost predicate Valid()
      reads this
    {
      position <= |stream|
    }

    constructor (stream: seq<Byte>, schedule: seq<ReadEvent>)
      ensures Valid() && this.stream == stream && position == 0 && this.schedule == schedule
    {
      this.stream, this.position, this.schedule := stream, 0, schedule;
    }

    method Read(size: nat) returns (r: ReadResult)
      requires Valid()
      modifies this
      ensures Valid()
      ensures old(schedule) == [] ==> r == OutOfSchedule && schedule == [] && position == old(position)
      ensures old(schedule) != [] ==> schedule == old(schedule)[1..]
      ensures old(schedule) != [] && old(schedule)[0].Ready? ==>
                && position == old(position) + Delivered(old(schedule)[0].upTo, size, |stream| - old(position))
                && r == Chunk(stream[old(position)..position])
      ensures old(schedule) != [] && !old(schedule)[0].Ready? ==> r == Error(old(schedule)[0]) && position == old(position)
    {
      if |schedule| == 0 {
        return OutOfSchedule;
      }
      var event := schedule[0];
      schedule := schedule[1..];
      if event.Ready? {
        var start := position;
        position := position + Delivered(event.upTo, size, |stream| - position);
        return Chunk(stream[start..position]);
      }
      r := Error(event);
    }
  }

  /** The reader as a function of the stream and the schedule. `patient` readers retry an
      interrupted or blocked read of the byte behind the limit; the receipt reader does not. */
  function Capture(stream: seq<Byte>, at: nat, schedule: seq<ReadEvent>, limit: nat, buffer: nat, patient: bool): Progress
    requires at <= |stream|
    decreases |schedule|
  {
    if schedule == [] then Reading(stream[..at])
    else
      var full := at >= limit;
      var size := if full then 1 else Min(limit - at, buffer);
      match schedule[0]
      case Ready(upTo) =>
        var n := Delivered(upTo, size, |stream| - at);
        if n == 0 then Captured(stream[..at], CompleteBounded)
        else if full then Captured(stream[..at], LimitExceeded)
        else Capture(stream, at + n, schedule[1..], limit, buffer, patient)
      case Broken => Captured(stream[..at], ReadFailed)
      case Interrupted =>
        if full && !patient then Captured(stream[..at], ReadFailed)
        else Capture(stream, at, schedule[1..], limit, buffer, patient)
      case WouldBlock(stopped) =>
        if full && !patient then Captured(stream[..at], ReadFailed)
        else if stopped then Captured(stream[..at], Truncated)
        else Capture(stream, at, schedule[1..], limit, buffer, patient)
  }

  const CAPTURE_BUFFER: nat := 4096
  const RECEIPT_BUFFER: nat := 256

  /** `read_bounded_until_stopped`; `alarm` is what is stored in the shared failure flag. */
  method ReadBoundedUntilStopped(pipe: Pipe, limit: nat) returns (r: Progress, alarm: bool)
    requires pipe.Valid() && pipe.position == 0
    modifies pipe
    ensures r == Capture(pipe.stream, 0, old(pipe.schedule), limit, CAPTURE_BUFFER, true)
    ensures alarm <==> r.Captured? && (r.verdict.LimitExceeded? || r.verdict.ReadFailed?)
  {
    var bytes: seq<Byte> := [];
    alarm := false;
    while true
      invariant pipe.Valid() && bytes == pipe.stream[..pipe.position] && !alarm
      invariant Capture(pipe.stream, 0, old(pipe.schedule), limit, CAPTURE_BUFFER, true)
                == Capture(pipe.stream, pipe.position, pipe.schedule, limit, CAPTURE_BUFFER, true)
      decreases |pipe.schedule|
    {
      var remaining := if |bytes| < limit then limit - |bytes| else 0;
      if remaining == 0 {
        var read := pipe.Read(1);
        match read {
          case OutOfSchedule => return Reading(bytes), alarm;
          case Chunk(got) =>
            if |got| == 0 {
              return Captured(bytes, CompleteBounded), alarm;
            }
            alarm := true;
            return Captured(bytes, LimitExceeded), alarm;
          case Error(Interrupted) => continue;
          case Error(WouldBlock(stopped)) =>
            if stopped {
              return Captured(bytes, Truncated), alarm;
            }
          case Error(_) =>
            alarm := true;
            return Captured(bytes, ReadFailed), alarm;
        }
        continue;
      }
      var read := pipe.Read(Min(remaining, CAPTURE_BUFFER));
      match read {
        case OutOfSchedule => return Reading(bytes), alarm;
        case Chunk(got) =>
          if |got| == 0 {
            return Captured(bytes, CompleteBounded), alarm;
          }
          bytes := bytes + got;
        case Error(Interrupted) => continue;
        case Error(WouldBlock(stopped)) =>
          if stopped {
            return Captured(bytes, Truncated), alarm;
          }
        case Error(_) =>
          alarm := true;
          return Captured(bytes, ReadFailed), alarm;
      }
    }
  }

  /** `read_receipt_bounded`. */
  method ReadReceiptBounded(pipe: Pipe, limit: nat) returns (r: Progress, alarm: bool)
    requires pipe.Valid() && pipe.position == 0
    modifies pipe
    ensures r == Capture(pipe.stream, 0, old(pipe.schedule), limit, RECEIPT_BUFFER, false)
    ensures alarm <==> r.Captured? && (r.verdict.LimitExceeded? || r.verdict.ReadFailed?)
  {
    var bytes: seq<Byte> := [];
    alarm := false;
    while true
      invariant pipe.Valid() && bytes == pipe.stream[..pipe.position] && !alarm
      invariant Capture(pipe.stream, 0, old(pipe.schedule), limit, RECEIPT_BUFFER, false)
                == Capture(pipe.stream, pipe.position, pipe.schedule, limit, RECEIPT_BUFFER, false)
      decreases |pipe.schedule|
    {
      var remaining := if |bytes| < limit then limit - |bytes| else 0;
      if remaining == 0 {
        var read := pipe.Read(1);
        match read {
          case OutOfSchedule => return Reading(bytes), alarm;
          case Chunk(got) =>
            alarm := |got| > 0;
            return Captured(bytes, if |got| == 0 then CompleteBounded else LimitExceeded), alarm;
          case Error(_) =>
            alarm := true;
            return Captured(bytes, ReadFailed), alarm;
        }
      }
      var read := pipe.Read(Min(remaining, RECEIPT_BUFFER));
      match read {
        case OutOfSchedule => return Reading(bytes), alarm;
        case Chunk(got) =>
          if |got| == 0 {
            return Captured(bytes, CompleteBounded), alarm;
          }
          bytes := bytes + got;
        case Error(Interrupted) => continue;
        case Error(WouldBlock(stopped)) =>
          if stopped {
            return Captured(bytes, Truncated), alarm;
          }
        case Error(_) =>
          alarm := true;
          return Captured(bytes, ReadFailed), alarm;
      }
    }
  }

  // ---------- what a capture tells ----------

  predicate Faithful(stream: seq<Byte>, limit: nat, r: Progress) {
    && r.bytes <= stream && |r.bytes| <= limit
    && (r.Captured? && r.verdict.CompleteBounded? ==> r.bytes == stream)
    && (r.Captured? && r.verdict.LimitExceeded? ==> |stream| > limit && |r.bytes| == limit)
  }

  /** Under every schedule: the capture is a front part of the stream within the limit, it is called
      complete only when it is the whole stream, and over the limit only when the stream is. */
  lemma {:induction false} CaptureIsFaithful(stream: seq<Byte>, at: nat, schedule: seq<ReadEvent>, limit: nat, buffer: nat, patient: bool)
    requires at <= |stream| && at <= limit && buffer > 0
    ensures Faithful(stream, limit, Capture(stream, at, schedule, limit, buffer, patient))
    decreases |schedule|
  {
    if schedule != [] {
      var n := if at >= limit || !schedule[0].Ready? then 0
               else Delivered(schedule[0].upTo, Min(limit - at, buffer), |stream| - at);
      CaptureIsFaithful(stream, at + n, schedule[1..], limit, buffer, patient);
    }
  }

  function Readies(schedule: seq<ReadEvent>): nat {
    if schedule == [] then 0 else (if schedule[0].Ready? then 1 else 0) + Readies(schedule[1..])
  }

  predicate Calm(event: ReadEvent) {
    event.Ready? || event.Interrupted? || event == WouldBlock(false)
  }

  /** The patient reader is exact: on a pipe that neither breaks nor is stopped, once the pipe was
      ready often enough the verdict says whether the stream is within the limit. */
  lemma {:induction false} PatientCaptureDecides(stream: seq<Byte>, at: nat, schedule: seq<ReadEvent>, limit: nat, buffer: nat)
    requires at <= |stream| && at <= limit && buffer > 0
    requires forall e :: e in schedule ==> Calm(e)
    requires at + Readies(schedule) > Min(|stream|, limit)
    ensures Capture(stream, at, schedule, limit, buffer, true)
            == if |stream| <= limit then Captured(stream, CompleteBounded) else Captured(stream[..limit], LimitExceeded)
    decreases |schedule|
  {
    assert schedule[0] in schedule;
    var n := if at >= limit || !schedule[0].Ready? then 0
             else Delivered(schedule[0].upTo, Min(limit - at, buffer), |stream| - at);
    if schedule[0].Ready? && n == 0 {
      assert at == |stream| ==> stream[..at] == stream;
    } else {
      PatientCaptureDecides(stream, at + n, schedule[1..], limit, buffer);
    }
  }

  /** A failed verdict of the patient reader means the pipe broke, a truncated one that the reader
      was stopped while the pipe was blocked. */
  lemma {:induction false} PatientFailureHasCause(stream: seq<Byte>, at: nat, schedule: seq<ReadEvent>, limit: nat, buffer: nat)
    requires at <= |stream| && at <= limit && buffer > 0
    ensures var r := Capture(stream, at, schedule, limit, buffer, true);
            && (r.Captured? && r.verdict.ReadFailed? ==> Broken in schedule)
            && (r.Captured? && r.verdict.Truncated? ==> WouldBlock(true) in schedule)
    decreases |schedule|
  {
    if schedule != [] {
      var n := if at >= limit || !schedule[0].Ready? then 0
               else Delivered(schedule[0].upTo, Min(limit - at, buffer), |stream| - at);
      PatientFailureHasCause(stream, at + n, schedule[1..], limit, buffer);
      assert forall e :: e in schedule[1..] ==> e in schedule;
    }
  }

  /** What the ready events of a schedule can deliver to a reader that asks for `buffer` bytes. */
  function Deliverable(schedule: seq<ReadEvent>, buffer: nat): nat {
    if schedule == [] then 0
    else (if schedule[0].Ready? then Share(schedule[0].upTo, buffer) else 0) + Deliverable(schedule[1..], buffer)
  }

  function Share(upTo: nat, buffer: nat): nat { Min(if upTo == 0 then 1 else upTo, buffer) }

  lemma {:induction false} DeliverableFront(schedule: seq<ReadEvent>, buffer: nat, k: nat)
    requires 0 < k <= |schedule|
    ensures Deliverable(schedule[..k], buffer)
            == (if schedule[0].Ready? then Share(schedule[0].upTo, buffer) else 0) + Deliverable(schedule[1..][..k - 1], buffer)
  {
    assert schedule[..k][1..] == schedule[1..][..k - 1];
  }

  // ---------- the whole outcome, by position ----------

  /** How far the reader is when it comes to event i: what the events before it can deliver, within the
      limit and the stream. */
  function Position(stream: seq<Byte>, at: nat, schedule: seq<ReadEvent>, limit: nat, buffer: nat, i: nat): nat
    requires i <= |schedule|
  {
    Min(Min(limit, |stream|), at + Deliverable(schedule[..i], buffer))
  }

  /** An event that ends the capture: a ready pipe at the end of the stream or at the limit, a broken pipe,
      a stop, and for the receipt reader any pause at the limit. */
  predicate Final(event: ReadEvent, position: nat, size: nat, limit: nat, patient: bool) {
    match event
    case Ready(_) => position == size || position == limit
    case Broken => true
    case Interrupted => !patient && position == limit
    case WouldBlock(stopped) => stopped || (!patient && position == limit)
  }

  lemma {:induction false} PositionShift(stream: seq<Byte>, at: nat, schedule: seq<ReadEvent>, limit: nat, buffer: nat,
                                         next: nat, i: nat)
    requires 0 < i <= |schedule| && at <= limit && at <= |stream|
    requires next == at + if schedule[0].Ready? then Min(Share(schedule[0].upTo, buffer), Min(limit, |stream|) - at) else 0
    ensures Position(stream, at, schedule, limit, buffer, i) == Position(stream, next, schedule[1..], limit, buffer, i - 1)
  {
    DeliverableFront(schedule, buffer, i);
  }

  predicate FirstFinal(stream: seq<Byte>, at: nat, schedule: seq<ReadEvent>, limit: nat, buffer: nat, patient: bool, i: nat)
    requires i <= |schedule|
  {
    && (forall k :: 0 <= k < i ==>
          !Final(schedule[k], Position(stream, at, schedule, limit, buffer, k), |stream|, limit, patient))
    && (i < |schedule| ==> Final(schedule[i], Position(stream, at, schedule, limit, buffer, i), |stream|, limit, patient))
  }

  lemma {:induction false} FirstFinalShift(stream: seq<Byte>, at: nat, schedule: seq<ReadEvent>, limit: nat, buffer: nat,
                                           patient: bool, next: nat, i: nat)
    requires 0 < i <= |schedule| && at <= limit && at <= |stream|
    requires next == at + if schedule[0].Ready? then Min(Share(schedule[0].upTo, buffer), Min(limit, |stream|) - at) else 0
    requires FirstFinal(stream, at, schedule, limit, buffer, patient, i)
    ensures FirstFinal(stream, next, schedule[1..], limit, buffer, patient, i - 1)
  {
    forall k | 0 < k <= i
      ensures Position(stream, at, schedule, limit, buffer, k) == Position(stream, next, schedule[1..], limit, buffer, k - 1)
    {
      PositionShift(stream, at, schedule, limit, buffer, next, k);
    }
    forall k | 0 <= k < i - 1
      ensures !Final(schedule[1..][k], Position(stream, next, schedule[1..], limit, buffer, k), |stream|, limit, patient)
    {
      assert schedule[1..][k] == schedule[k + 1];
      assert Position(stream, at, schedule, limit, buffer, k + 1) == Position(stream, next, schedule[1..], limit, buffer, k);
    }
  }

  /** The first final event ends the capture with everything read up to it, and says how; without one the
      reader goes on reading. */
  lemma {:induction false} CaptureByPosition(stream: seq<Byte>, at: nat, schedule: seq<ReadEvent>, limit: nat, buffer: nat,
                                             patient: bool, i: nat)
    requires at <= |stream| && at <= limit && buffer > 0 && i <= |schedule|
    requires FirstFinal(stream, at, schedule, limit, buffer, patient, i)
    ensures var position := Position(stream, at, schedule, limit, buffer, i);
            Capture(stream, at, schedule, limit, buffer, patient) ==
            if i == |schedule| then Reading(stream[..position])
            else match schedule[i]
              case Ready(_) => Captured(stream[..position], if position == |stream| then CompleteBounded else LimitExceeded)
              case Broken => Captured(stream[..position], ReadFailed)
              case Interrupted => Captured(stream[..position], ReadFailed)
              case WouldBlock(_) => Captured(stream[..position], if !patient && position == limit then ReadFailed else Truncated)
    decreases |schedule|
  {
    assert schedule[..0] == [];
    assert Position(stream, at, schedule, limit, buffer, 0) == at;
    if i > 0 {
      assert !Final(schedule[0], at, |stream|, limit, patient);
      var next := at + if schedule[0].Ready? then Min(Share(schedule[0].upTo, buffer), Min(limit, |stream|) - at) else 0;
      FirstFinalShift(stream, at, schedule, limit, buffer, patient, next, i);
      PositionShift(stream, at, schedule, limit, buffer, next, i);
      assert Capture(stream, at, schedule, limit, buffer, patient) == Capture(stream, next, schedule[1..], limit, buffer, patient);
      CaptureByPosition(stream, next, schedule[1..], limit, buffer, patient, i - 1);
      assert i < |schedule| ==> schedule[1..][i - 1] == schedule[i];
    }
  }

  lemma {:induction false} DeliverableGrows(schedule: seq<ReadEvent>, buffer: nat, k: nat, i: nat)
    requires k <= i <= |schedule|
    ensures Deliverable(schedule[..k], buffer) <= Deliverable(schedule[..i], buffer)
  {
    if k > 0 {
      DeliverableFront(schedule, buffer, k);
      DeliverableFront(schedule, buffer, i);
      DeliverableGrows(schedule[1..], buffer, k - 1, i - 1);
    }
  }

  /** Either reader, told to stop or faced with a broken pipe before it has all it may have, ends there with
      what was delivered so far. */
  lemma {:induction false} StopOrBreakEnds(stream: seq<Byte>, at: nat, schedule: seq<ReadEvent>, limit: nat, buffer: nat,
                                           patient: bool, i: nat)
    requires at <= |stream| && at <= limit && buffer > 0 && i < |schedule|
    requires (forall k :: 0 <= k < i ==> Calm(schedule[k])) && (schedule[i] == Broken || schedule[i] == WouldBlock(true))
    requires at + Deliverable(schedule[..i], buffer) < Min(|stream|, limit)
    ensures Capture(stream, at, schedule, limit, buffer, patient)
            == Captured(stream[..at + Deliverable(schedule[..i], buffer)], if schedule[i] == Broken then ReadFailed else Truncated)
  {
    forall k | 0 <= k < i
      ensures !Final(schedule[k], Position(stream, at, schedule, limit, buffer, k), |stream|, limit, patient)
    {
      DeliverableGrows(schedule, buffer, k, i);
      assert Calm(schedule[k]);
    }
    CaptureByPosition(stream, at, schedule, limit, buffer, patient, i);
  }

  /** The patient reader obeys a stop at the limit too, if nothing ready has come since. */
  lemma {:induction false} StopAtLimitEnds(stream: seq<Byte>, at: nat, schedule: seq<ReadEvent>, limit: nat, buffer: nat, i: nat)
    requires at <= |stream| && at <= limit <= |stream| && buffer > 0 && i < |schedule|
    requires forall k :: 0 <= k < i ==> Calm(schedule[k]) && ReadsWithin(at, schedule, limit, buffer, k)
    requires schedule[i] == Broken || schedule[i] == WouldBlock(true)
    requires at + Deliverable(schedule[..i], buffer) >= limit
    ensures Capture(stream, at, schedule, limit, buffer, true)
            == Captured(stream[..limit], if schedule[i] == Broken then ReadFailed else Truncated)
  {
    forall k | 0 <= k < i
      ensures !Final(schedule[k], Position(stream, at, schedule, limit, buffer, k), |stream|, limit, true)
    {
      assert Calm(schedule[k]) && ReadsWithin(at, schedule, limit, buffer, k);
    }
    CaptureByPosition(stream, at, schedule, limit, buffer, true, i);
  }

  // ---------- where the receipt reader fails ----------

  /** Event i is a pause that finds the limit reached by the events before it, none of which looked
      behind the limit. */
  predicate PausesAtLimit(stream: seq<Byte>, at: nat, schedule: seq<ReadEvent>, limit: nat, buffer: nat, i: nat)
    requires i < |schedule|
  {
    && !schedule[i].Ready? && limit <= |stream|
    && at + Deliverable(schedule[..i], buffer) >= limit
    && forall k :: 0 <= k < i ==> ReadsWithin(at, schedule, limit, buffer, k)
  }

  /** Event k does not deliver from behind the limit. */
  predicate ReadsWithin(at: nat, schedule: seq<ReadEvent>, limit: nat, buffer: nat, k: nat)
    requires k < |schedule|
  {
    schedule[k].Ready? ==> at + Deliverable(schedule[..k], buffer) < limit
  }

  /** Reading past the first event. */
  lemma {:induction false} PausesLater(stream: seq<Byte>, at: nat, schedule: seq<ReadEvent>, limit: nat, buffer: nat, next: nat, i: nat)
    requires 0 < i < |schedule| && at < limit <= |stream|
    requires next == at + if schedule[0].Ready? then Min(Share(schedule[0].upTo, buffer), limit - at) else 0
    ensures PausesAtLimit(stream, at, schedule, limit, buffer, i)
            <==> PausesAtLimit(stream, next, schedule[1..], limit, buffer, i - 1)
  {
    var rest := schedule[1..];
    DeliverableFront(schedule, buffer, i);
    forall k | 0 <= k < i - 1
      ensures ReadsWithin(at, schedule, limit, buffer, k + 1) <==> ReadsWithin(next, rest, limit, buffer, k)
    {
      DeliverableFront(schedule, buffer, k + 1);
    }
    assert ReadsWithin(at, schedule, limit, buffer, 0);
    if PausesAtLimit(stream, next, rest, limit, buffer, i - 1) {
      forall k | 0 <= k < i
        ensures ReadsWithin(at, schedule, limit, buffer, k)
      {
        assert k > 0 ==> ReadsWithin(next, rest, limit, buffer, k - 1);
      }
    }
  }

  lemma {:induction false} PausesSomewhereLater(stream: seq<Byte>, at: nat, schedule: seq<ReadEvent>, limit: nat, buffer: nat, next: nat)
    requires schedule != [] && at < limit <= |stream|
    requires next == at + if schedule[0].Ready? then Min(Share(schedule[0].upTo, buffer), limit - at) else 0
    ensures (exists i :: 0 <= i < |schedule| && PausesAtLimit(stream, at, schedule, limit, buffer, i))
            <==> (exists i :: 0 <= i < |schedule[1..]| && PausesAtLimit(stream, next, schedule[1..], limit, buffer, i))
  {
    if i :| 0 <= i < |schedule| && PausesAtLimit(stream, at, schedule, limit, buffer, i) {
      assert i > 0;
      PausesLater(stream, at, schedule, limit, buffer, next, i);
      assert PausesAtLimit(stream, next, schedule[1..], limit, buffer, i - 1);
    }
    if i :| 0 <= i < |schedule[1..]| && PausesAtLimit(stream, next, schedule[1..], limit, buffer, i) {
      PausesLater(stream, at, schedule, limit, buffer, next, i + 1);
    }
  }

  /** The receipt reader fails on a calm pipe exactly when some event that is not a ready pipe comes
      with the limit reached and nothing behind the limit looked at. */
  lemma {:induction false} ReceiptFailsExactly(stream: seq<Byte>, at: nat, schedule: seq<ReadEvent>, limit: nat, buffer: nat)
    requires at <= |stream| && at <= limit && buffer > 0
    requires forall e :: e in schedule ==> Calm(e)
    ensures var r := Capture(stream, at, schedule, limit, buffer, false);
            r.Captured? && r.verdict.ReadFailed?
            <==> exists i :: 0 <= i < |schedule| && PausesAtLimit(stream, at, schedule, limit, buffer, i)
    decreases |schedule|
  {
    if schedule != [] {
      assert schedule[0] in schedule;
      if at >= limit {
        if !schedule[0].Ready? {
          assert PausesAtLimit(stream, at, schedule, limit, buffer, 0);
        } else {
          assert Deliverable(schedule[..0], buffer) == 0 && !ReadsWithin(at, schedule, limit, buffer, 0);
        }
      } else {
        var n := if schedule[0].Ready? then Delivered(schedule[0].upTo, Min(limit - at, buffer), |stream| - at) else 0;
        ReceiptFailsExactly(stream, at + n, schedule[1..], limit, buffer);
        if limit <= |stream| {
          PausesSomewhereLater(stream, at, schedule, limit, buffer, at + n);
        }
      }
    }
  }

  /** So a stream of exactly the limit can be reported as failed by the receipt reader where the
      patient reader completes: one interruption behind the last byte is enough. */
  lemma {:induction false} ReceiptReaderIsStricter(stream: seq<Byte>)
    requires 0 < |stream| <= RECEIPT_BUFFER
    ensures var schedule := [Ready(|stream|), Interrupted, Ready(1)];
            && Capture(stream, 0, schedule, |stream|, RECEIPT_BUFFER, false) == Captured(stream, ReadFailed)
            && Capture(stream, 0, schedule, |stream|, CAPTURE_BUFFER, true) == Captured(stream, CompleteBounded)
  {
    var schedule := [Ready(|stream|), Interrupted, Ready(1)];
    assert schedule[1..] == [Interrupted, Ready(1)] && [Interrupted, Ready(1)][1..] == [Ready(1)];
    assert stream[..|stream|] == stream;
    assert Capture(stream, |stream|, [Interrupted, Ready(1)], |stream|, CAPTURE_BUFFER, true)
           == Capture(stream, |stream|, [Ready(1)], |stream|, CAPTURE_BUFFER, true);
  }
}
