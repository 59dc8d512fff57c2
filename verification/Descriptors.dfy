/** Closing every inherited descriptor that is not to be kept: by ranges between the sorted kept
    descriptors where the kernel can do that, one by one below the descriptor limit where it cannot. */
module Descriptors {
  import opened Prelude

  const RAW_FD_MAX: int := 0x7FFF_FFFF
  const U32_MAX: int := 0xFFFF_FFFF

  type RawFd = fd: int | -0x8000_0000 <= fd <= 0x7FFF_FFFF witness 0

  /** The cast of a signed descriptor to an unsigned one. */
  function AsU32(fd: RawFd): int {
    if fd < 0 then fd + 0x1_0000_0000 else fd
  }

  function SaturatingNext(fd: int): int {
    if fd >= U32_MAX then U32_MAX else fd + 1
  }

  ghost function Span(first: int, last: int): (s: set<int>)
    ensures forall fd :: fd in s <==> first <= fd <= last
    decreases last - first
  {
    if first > last then {} else Span(first, last - 1) + {last}
  }

  /** The kernel's side: which range calls succeed, and the soft descriptor limit if it can be read. */
  datatype Kernel = Kernel(rangeAccepts: nat -> bool, softLimit: Option<nat>)

  /** Range calls made so far, and everything closed. */
  class DescriptorTable {
    const kernel: Kernel
    var calls: nat
    ghost var closed: set<int>

    constructor (kernel: Kernel)
      ensures this.kernel == kernel && calls == 0 && closed == {}
    {
      this.kernel, calls, closed := kernel, 0, {};
    }

    method CloseRange(first: int, last: int) returns (ok: bool)
      modifies this
      ensures first > last ==> ok && calls == old(calls) && closed == old(closed)
      ensures first <= last ==>
                && ok == kernel.rangeAccepts(old(calls)) && calls == old(calls) + 1
                && closed == if ok then old(closed) + Span(first, last) else old(closed)
    {
      if first > last {
        return true;
      }
      ok := kernel.rangeAccepts(calls);
      calls := calls + 1;
      if ok {
        closed := closed + Span(first, last);
      }
    }

    method CloseOne(fd: int)
      modifies this`closed
      ensures closed == old(closed) + {fd}
    {
      closed := closed + {fd};
    }
  }

  // ---------- the walk over the kept descriptors ----------

  datatype Walk = Walk(closed: set<int>, first: int, calls: nat, supported: bool)

  /** Close the gap below each kept descriptor, until a range call fails. */
  ghost function WalkGaps(w: Walk, keep: seq<RawFd>, accepts: nat -> bool): Walk
    decreases |keep|
  {
    if keep == [] || !w.supported then w
    else
      var fd := AsU32(keep[0]);
      if w.first < fd && !accepts(w.calls) then w.(calls := w.calls + 1, supported := false)
      else if w.first < fd then
        WalkGaps(Walk(w.closed + Span(w.first, fd - 1), SaturatingNext(fd), w.calls + 1, true), keep[1..], accepts)
      else WalkGaps(w.(first := SaturatingNext(fd)), keep[1..], accepts)
  }

  function UpperLimit(soft: nat): int {
    var bounded := if soft < RAW_FD_MAX then soft else RAW_FD_MAX;
    if bounded < 3 then 3 else bounded
  }

  /** Everything closed, and whether the call reports success, for descriptors given in this order. */
  ghost function CloseAll(keep: seq<RawFd>, kernel: Kernel): (set<int>, bool) {
    var w := WalkGaps(Walk({}, 3, 0, true), keep, kernel.rangeAccepts);
    if w.supported && kernel.rangeAccepts(w.calls) then (w.closed + Span(w.first, U32_MAX), true)
    else match kernel.softLimit
      case None => (w.closed, false)
      case Some(soft) => (w.closed + Unkept(keep, UpperLimit(soft)), true)
  }

  function Unkept(keep: seq<RawFd>, upper: int): set<int> {
    set fd | 3 <= fd < upper && fd !in keep
  }

  predicate Sorted(keep: seq<RawFd>) {
    forall i, j :: 0 <= i < j < |keep| ==> keep[i] <= keep[j]
  }

  predicate Below(keep: seq<RawFd>, fd: int) {
    exists k :: k in keep && k < fd
  }

  /** What the walk and the final range are meant to close: everything from `first` on, and everything
      above a kept descriptor, except the kept ones. */
  predicate Meant(keep: seq<RawFd>, first: int, fd: int) {
    fd <= U32_MAX && fd !in keep && (fd >= first || Below(keep, fd))
  }

  lemma {:induction false} MeantStep(keep: seq<RawFd>, first: int, fd: int)
    requires keep != [] && Sorted(keep) && keep[0] >= 0 && first >= 0
    ensures Meant(keep, first, fd) <==>
            (first <= fd < keep[0]) || Meant(keep[1..], SaturatingNext(keep[0]), fd)
  {
    var k, rest := keep[0], keep[1..];
    assert keep == [k] + rest;
    assert forall x :: x in rest ==> x >= k;
    if Below(rest, fd) {
      var x :| x in rest && x < fd;
      assert x in keep;
    }
    if Below(keep, fd) {
      var x :| x in keep && x < fd;
    }
    if k < fd {
      assert k in keep && Below(keep, fd);
    }
  }

  /** The walk closes nothing that is not meant; and unless a call fails, the walk and the final range
      close what is meant. */
  lemma {:induction false} WalkClosesGap(w: Walk, keep: seq<RawFd>, accepts: nat -> bool, fd: int)
    requires Sorted(keep) && w.supported && 0 <= w.first <= U32_MAX
    requires forall k :: k in keep ==> k >= 0
    ensures fd in WalkGaps(w, keep, accepts).closed ==> fd in w.closed || Meant(keep, w.first, fd)
    ensures WalkGaps(w, keep, accepts).supported ==>
              (fd in WalkGaps(w, keep, accepts).closed || WalkGaps(w, keep, accepts).first <= fd <= U32_MAX
               <==> fd in w.closed || Meant(keep, w.first, fd))
    decreases |keep|
  {
    if keep != [] {
      var k := keep[0];
      assert k in keep;
      assert forall x :: x in keep[1..] ==> x in keep;
      MeantStep(keep, w.first, fd);
      if w.first < k {
        if accepts(w.calls) {
          WalkClosesGap(Walk(w.closed + Span(w.first, AsU32(k) - 1), SaturatingNext(k), w.calls + 1, true), keep[1..], accepts, fd);
        }
      } else {
        WalkClosesGap(w.(first := SaturatingNext(k)), keep[1..], accepts, fd);
      }
    }
  }

  lemma {:induction false} WalkNeverFails(w: Walk, keep: seq<RawFd>, accepts: nat -> bool)
    requires w.supported && forall call: nat :: accepts(call)
    ensures WalkGaps(w, keep, accepts).supported
    decreases |keep|
  {
    if keep != [] {
      var fd := AsU32(keep[0]);
      if w.first < fd {
        WalkNeverFails(Walk(w.closed + Span(w.first, fd - 1), SaturatingNext(fd), w.calls + 1, true), keep[1..], accepts);
      } else {
        WalkNeverFails(w.(first := SaturatingNext(fd)), keep[1..], accepts);
      }
    }
  }

  lemma {:induction false} WalkClosesGaps(keep: seq<RawFd>, accepts: nat -> bool)
    requires Sorted(keep) && forall k :: k in keep ==> k >= 0
    ensures var w := WalkGaps(Walk({}, 3, 0, true), keep, accepts);
            && (forall fd :: fd in w.closed ==> Meant(keep, 3, fd))
            && (w.supported ==> forall fd :: fd in w.closed + Span(w.first, U32_MAX) <==> Meant(keep, 3, fd))
  {
    var start := Walk({}, 3, 0, true);
    var w := WalkGaps(start, keep, accepts);
    forall fd
      ensures fd in w.closed ==> Meant(keep, 3, fd)
      ensures w.supported ==> (fd in w.closed + Span(w.first, U32_MAX) <==> Meant(keep, 3, fd))
    {
      WalkClosesGap(start, keep, accepts, fd);
    }
  }

  // ---------- what is closed, whatever range calls fail ----------

  /** Where the gap below the kept descriptor number i begins; the last gap has no descriptor above it. */
  function GapStart(keep: seq<RawFd>, i: nat): int
    requires i <= |keep|
  {
    if i == 0 then 3
    else
      var below: int := keep[i - 1];
      below + 1
  }

  predicate InGap(keep: seq<RawFd>, i: nat, fd: int)
    requires i <= |keep|
  {
    GapStart(keep, i) <= fd && (if i < |keep| then fd < keep[i] else fd <= 0xFFFF_FFFF)
  }

  /** The number of range calls before gap i: one for each gap below that is not empty. */
  function CallsBefore(keep: seq<RawFd>, i: nat): nat
    requires i <= |keep|
  {
    if i == 0 then 0 else CallsBefore(keep, i - 1) + (if GapStart(keep, i - 1) < keep[i - 1] then 1 else 0)
  }

  lemma {:induction false} CallsGrow(keep: seq<RawFd>, i: nat, j: nat)
    requires i <= j <= |keep|
    ensures CallsBefore(keep, i) <= CallsBefore(keep, j)
  {
    if i < j {
      CallsGrow(keep, i, j - 1);
    }
  }

  ghost predicate AllAccepted(accepts: nat -> bool, from: nat, to: nat) {
    forall call: nat :: from <= call < to ==> accepts(call)
  }

  /** The range of some gap from number i on holds fd, and that call and those from `from` on succeed. */
  ghost predicate ClosedByRange(keep: seq<RawFd>, accepts: nat -> bool, i: nat, to: nat, fd: int)
    requires i <= to <= |keep| + 1
  {
    exists j :: i <= j < to && InGap(keep, j, fd) && AllAccepted(accepts, CallsBefore(keep, i), CallsBefore(keep, j) + 1)
  }

  lemma {:induction false} ClosedByRangeStep(keep: seq<RawFd>, accepts: nat -> bool, i: nat, fd: int)
    requires i < |keep| && (GapStart(keep, i) < keep[i] ==> accepts(CallsBefore(keep, i)))
    ensures ClosedByRange(keep, accepts, i, |keep|, fd)
            <==> InGap(keep, i, fd) || ClosedByRange(keep, accepts, i + 1, |keep|, fd)
  {
    forall j | i < j < |keep|
      ensures AllAccepted(accepts, CallsBefore(keep, i), CallsBefore(keep, j) + 1)
              <==> AllAccepted(accepts, CallsBefore(keep, i + 1), CallsBefore(keep, j) + 1)
    {
      CallsGrow(keep, i + 1, j);
    }
    if InGap(keep, i, fd) {
      assert AllAccepted(accepts, CallsBefore(keep, i), CallsBefore(keep, i) + 1);
    }
  }

  lemma {:induction false} NothingWithoutCall(keep: seq<RawFd>, accepts: nat -> bool, i: nat, fd: int)
    requires i <= |keep| && !accepts(CallsBefore(keep, i))
    ensures !ClosedByRange(keep, accepts, i, |keep|, fd)
  {
    forall j | i <= j < |keep|
      ensures !AllAccepted(accepts, CallsBefore(keep, i), CallsBefore(keep, j) + 1)
    {
      CallsGrow(keep, i, j);
    }
  }

  /** The walk that stands before gap i. */
  ghost function WalkAt(keep: seq<RawFd>, i: nat, closed: set<int>): Walk
    requires i <= |keep|
  {
    Walk(closed, GapStart(keep, i), CallsBefore(keep, i), true)
  }

  lemma {:induction false} WalkStep(keep: seq<RawFd>, accepts: nat -> bool, i: nat, closed: set<int>)
    requires i < |keep| && keep[i] >= 0
    ensures WalkGaps(WalkAt(keep, i, closed), keep[i..], accepts) ==
            if GapStart(keep, i) >= keep[i] then WalkGaps(WalkAt(keep, i + 1, closed), keep[i + 1..], accepts)
            else if accepts(CallsBefore(keep, i)) then
              WalkGaps(WalkAt(keep, i + 1, closed + Span(GapStart(keep, i), keep[i] - 1)), keep[i + 1..], accepts)
            else Walk(closed, GapStart(keep, i), CallsBefore(keep, i) + 1, false)
  {
    assert keep[i..][0] == keep[i] && keep[i..][1..] == keep[i + 1..];
  }

  lemma {:induction false} AcceptedFrom(accepts: nat -> bool, from: nat, to: nat)
    requires from < to
    ensures AllAccepted(accepts, from, to) <==> accepts(from) && AllAccepted(accepts, from + 1, to)
  {
  }

  /** The walk from gap i on. */
  lemma {:induction false} WalkExactly(keep: seq<RawFd>, accepts: nat -> bool, i: nat, before: set<int>, fd: int)
    requires i <= |keep| && forall k :: 0 <= k < |keep| ==> keep[k] >= 0
    ensures var w := WalkGaps(WalkAt(keep, i, before), keep[i..], accepts);
            && (fd in w.closed <==> fd in before || ClosedByRange(keep, accepts, i, |keep|, fd))
            && (w.supported <==> AllAccepted(accepts, CallsBefore(keep, i), CallsBefore(keep, |keep|)))
            && (w.supported ==> w == WalkAt(keep, |keep|, w.closed))
    decreases |keep| - i
  {
    if i < |keep| {
      var start, calls := GapStart(keep, i), CallsBefore(keep, i);
      WalkStep(keep, accepts, i, before);
      CallsGrow(keep, i + 1, |keep|);
      if start < keep[i] {
        AcceptedFrom(accepts, calls, CallsBefore(keep, |keep|));
      }
      if start < keep[i] && !accepts(calls) {
        NothingWithoutCall(keep, accepts, i, fd);
      } else {
        ClosedByRangeStep(keep, accepts, i, fd);
        WalkExactly(keep, accepts, i + 1, if start < keep[i] then before + Span(start, keep[i] - 1) else before, fd);
      }
    }
  }

  /** Whatever range calls fail, exactly this is closed: what lies in a gap whose call, and all calls before,
      succeeded; and if some range call failed, every unkept descriptor from 3 up to the soft limit. The call
      succeeds if all ranges did, or the soft limit can be read. */
  lemma {:induction false} ClosedExactly(keep: seq<RawFd>, kernel: Kernel, fd: int)
    requires forall k :: 0 <= k < |keep| ==> keep[k] >= 0
    ensures var allRanges := AllAccepted(kernel.rangeAccepts, 0, CallsBefore(keep, |keep|) + 1);
            && (CloseAll(keep, kernel).1 <==> allRanges || kernel.softLimit.Some?)
            && (fd in CloseAll(keep, kernel).0 <==>
                  || ClosedByRange(keep, kernel.rangeAccepts, 0, |keep| + 1, fd)
                  || (!allRanges && kernel.softLimit.Some? && fd !in keep
                      && 3 <= fd < kernel.softLimit.value && fd < 0x7FFF_FFFF))
  {
    WalkExactly(keep, kernel.rangeAccepts, 0, {}, fd);
    assert keep[0..] == keep;
    LastGap(keep, kernel.rangeAccepts, fd);
  }

  lemma {:induction false} LastGap(keep: seq<RawFd>, accepts: nat -> bool, fd: int)
    ensures ClosedByRange(keep, accepts, 0, |keep| + 1, fd) <==>
            || ClosedByRange(keep, accepts, 0, |keep|, fd)
            || (InGap(keep, |keep|, fd) && AllAccepted(accepts, 0, CallsBefore(keep, |keep|) + 1))
  {
  }

  // ---------- what is closed ----------

  /** With a kernel that closes every range, exactly what is meant is closed. For kept descriptors from
      3 up that is every other descriptor from 3 up; a kept descriptor below 3 also closes the standard
      descriptors above it. */
  lemma {:induction false} RangesCloseExactly(keep: seq<RawFd>, kernel: Kernel)
    requires Sorted(keep) && forall k :: k in keep ==> k >= 0
    requires forall call: nat :: kernel.rangeAccepts(call)
    ensures CloseAll(keep, kernel).1
    ensures forall fd :: fd in CloseAll(keep, kernel).0 <==> Meant(keep, 3, fd)
    ensures (forall k :: k in keep ==> k >= 3) ==>
              forall fd :: fd in CloseAll(keep, kernel).0 <==> 3 <= fd <= U32_MAX && fd !in keep
  {
    WalkClosesGaps(keep, kernel.rangeAccepts);
    WalkNeverFails(Walk({}, 3, 0, true), keep, kernel.rangeAccepts);
  }

  /** Whatever calls fail, no kept descriptor is closed; on success every unkept descriptor from 3 up
      to the soft limit is closed, and with kept descriptors from 3 up nothing below 3 is. */
  lemma {:induction false} KeptStayOpen(keep: seq<RawFd>, kernel: Kernel)
    requires Sorted(keep) && forall k :: k in keep ==> k >= 0
    ensures forall fd :: fd in CloseAll(keep, kernel).0 ==> Meant(keep, 3, fd)
    ensures forall k :: k in keep ==> k !in CloseAll(keep, kernel).0
    ensures CloseAll(keep, kernel).1 && kernel.softLimit.Some? ==>
              forall fd :: 3 <= fd < kernel.softLimit.value && fd < 0x7FFF_FFFF && fd !in keep ==> fd in CloseAll(keep, kernel).0
    ensures !CloseAll(keep, kernel).1 ==> kernel.softLimit.None?
  {
    WalkClosesGaps(keep, kernel.rangeAccepts);
  }

  lemma {:induction false} WalkKeepsClosed(w: Walk, keep: seq<RawFd>, accepts: nat -> bool)
    ensures w.closed <= WalkGaps(w, keep, accepts).closed
    decreases |keep|
  {
    if keep != [] && w.supported {
      var fd := AsU32(keep[0]);
      if w.first < fd && accepts(w.calls) {
        WalkKeepsClosed(Walk(w.closed + Span(w.first, fd - 1), SaturatingNext(fd), w.calls + 1, true), keep[1..], accepts);
      } else if w.first >= fd {
        WalkKeepsClosed(w.(first := SaturatingNext(fd)), keep[1..], accepts);
      }
    }
  }

  /** The sorted form puts a negative descriptor first, where its unsigned value stands for a gap that
      holds every real descriptor: then, and only then, a kept descriptor from 3 up is closed. */
  lemma {:induction false} KeptClosedExactly(keep: seq<RawFd>, kernel: Kernel, k: RawFd)
    requires Sorted(keep) && k in keep && k >= 3
    ensures k in CloseAll(keep, kernel).0 <==> keep[0] < 0 && kernel.rangeAccepts(0)
  {
    if keep[0] >= 0 {
      KeptStayOpen(keep, kernel);
    } else {
      var fd := AsU32(keep[0]);
      var start := Walk({}, 3, 0, true);
      if kernel.rangeAccepts(0) {
        var next := Walk(start.closed + Span(3, fd - 1), SaturatingNext(fd), 1, true);
        WalkKeepsClosed(next, keep[1..], kernel.rangeAccepts);
        assert k in next.closed;
        assert WalkGaps(start, keep, kernel.rangeAccepts) == WalkGaps(next, keep[1..], kernel.rangeAccepts);
      }
    }
  }

  /** With -1 among the descriptors, the kept ones are closed by a kernel that closes ranges. */
  lemma {:induction false} NegativeClosesKept(kernel: Kernel)
    requires forall call: nat :: kernel.rangeAccepts(call)
    ensures CloseAll([-1, 5, 6, 7], kernel).0 >= {5, 6, 7}
  {
    var keep: seq<RawFd> := [-1, 5, 6, 7];
    forall k: RawFd | k in keep && k >= 3
      ensures k in CloseAll(keep, kernel).0
    {
      KeptClosedExactly(keep, kernel, k);
    }
    assert 5 in keep && 6 in keep && 7 in keep;
  }

  /** With standard input among the descriptors, standard output and error are closed. */
  lemma {:induction false} LowKeptClosesStandard(kernel: Kernel)
    requires forall call: nat :: kernel.rangeAccepts(call)
    ensures CloseAll([0, 5, 6, 7], kernel).0 >= {1, 2}
  {
    var keep: seq<RawFd> := [0, 5, 6, 7];
    RangesCloseExactly(keep, kernel);
    assert keep[0] in keep;
    assert Meant(keep, 3, 1) && Meant(keep, 3, 2);
  }

  // ---------- sorting and removing repetitions ----------

  function Insert(keep: seq<RawFd>, fd: RawFd): seq<RawFd> {
    if keep == [] || keep[|keep| - 1] <= fd then keep + [fd]
    else Insert(keep[..|keep| - 1], fd) + [keep[|keep| - 1]]
  }

  function SortFds(keep: seq<RawFd>): seq<RawFd> {
    if keep == [] then [] else Insert(SortFds(keep[..|keep| - 1]), keep[|keep| - 1])
  }

  function Dedup(keep: seq<RawFd>): seq<RawFd> {
    if |keep| <= 1 then keep
    else
      var init := keep[..|keep| - 1];
      if init[|init| - 1] == keep[|keep| - 1] then Dedup(init) else Dedup(init) + [keep[|keep| - 1]]
  }

  lemma {:induction false} AppendSorted(keep: seq<RawFd>, fd: RawFd)
    requires Sorted(keep) && forall x :: x in keep ==> x <= fd
    ensures Sorted(keep + [fd])
  {
    assert forall i :: 0 <= i < |keep| ==> keep[i] in keep;
  }

  lemma {:induction false} InsertSorts(keep: seq<RawFd>, fd: RawFd)
    requires Sorted(keep)
    ensures Sorted(Insert(keep, fd)) && multiset(Insert(keep, fd)) == multiset(keep) + multiset{fd}
  {
    if keep == [] || keep[|keep| - 1] <= fd {
      AppendSorted(keep, fd);
    } else {
      var init, last := keep[..|keep| - 1], keep[|keep| - 1];
      InsertSorts(init, fd);
      assert keep == init + [last];
      var inserted := Insert(init, fd);
      forall x | x in inserted
        ensures x <= last
      {
        assert x in multiset(inserted);
        assert x in init || x == fd;
      }
      AppendSorted(inserted, last);
    }
  }

  lemma {:induction false} SortFdsSorts(keep: seq<RawFd>)
    ensures Sorted(SortFds(keep)) && multiset(SortFds(keep)) == multiset(keep)
  {
    if keep != [] {
      SortFdsSorts(keep[..|keep| - 1]);
      InsertSorts(SortFds(keep[..|keep| - 1]), keep[|keep| - 1]);
      assert keep == keep[..|keep| - 1] + [keep[|keep| - 1]];
    }
  }

  lemma {:induction false} DedupKeepsMembers(keep: seq<RawFd>)
    requires Sorted(keep)
    ensures Sorted(Dedup(keep)) && forall fd :: fd in Dedup(keep) <==> fd in keep
  {
    if |keep| > 1 {
      var init, last := keep[..|keep| - 1], keep[|keep| - 1];
      DedupKeepsMembers(init);
      assert keep == init + [last];
      forall x | x in Dedup(init)
        ensures x <= last
      {
        assert x in init;
      }
      AppendSorted(Dedup(init), last);
    }
  }

  function FromThree(keep: seq<RawFd>): seq<RawFd> {
    if keep == [] then []
    else FromThree(keep[..|keep| - 1]) + (if keep[|keep| - 1] >= 3 then [keep[|keep| - 1]] else [])
  }

  lemma {:induction false} FromThreeMembers(keep: seq<RawFd>)
    ensures forall fd :: fd in FromThree(keep) <==> fd in keep && fd >= 3
  {
    if keep != [] {
      FromThreeMembers(keep[..|keep| - 1]);
      assert keep == keep[..|keep| - 1] + [keep[|keep| - 1]];
    }
  }

  // ---------- the two closers ----------

  /** The fallback: one descriptor after the other. */
  method CloseBelow(keep: seq<RawFd>, table: DescriptorTable, upper: int)
    requires upper >= 3
    modifies table`closed
    ensures table.closed == old(table.closed) + Unkept(keep, upper)
  {
    for fd := 3 to upper
      invariant table.closed == old(table.closed) + Unkept(keep, fd)
    {
      if fd !in keep {
        table.CloseOne(fd);
      }
    }
  }

  /** The gaps between the kept descriptors. */
  method CloseGaps(keep: seq<RawFd>, table: DescriptorTable) returns (first: int, supported: bool)
    requires table.calls == 0 && table.closed == {}
    modifies table
    ensures WalkGaps(Walk({}, 3, 0, true), keep, table.kernel.rangeAccepts) == Walk(table.closed, first, table.calls, supported)
    ensures first <= U32_MAX && (supported <==> AllAccepted(table.kernel.rangeAccepts, 0, table.calls))
  {
    first, supported := 3, true;
    for i := 0 to |keep|
      invariant supported && first <= U32_MAX && AllAccepted(table.kernel.rangeAccepts, 0, table.calls)
      invariant WalkGaps(Walk({}, 3, 0, true), keep, table.kernel.rangeAccepts)
                == WalkGaps(Walk(table.closed, first, table.calls, true), keep[i..], table.kernel.rangeAccepts)
    {
      var fd := AsU32(keep[i]);
      assert keep[i..][1..] == keep[i + 1..];
      if first < fd {
        var closed := table.CloseRange(first, fd - 1);
        if !closed {
          supported := false;
          break;
        }
      }
      first := SaturatingNext(fd);
    }
  }

  /** The part both closers share in text: the gaps, the final range, and the fallback. */
  method CloseAround(keep: seq<RawFd>, table: DescriptorTable) returns (ok: bool)
    requires table.calls == 0 && table.closed == {}
    modifies table
    ensures (table.closed, ok) == CloseAll(keep, table.kernel)
    ensures ok <==> AllAccepted(table.kernel.rangeAccepts, 0, table.calls) || table.kernel.softLimit.Some?
  {
    var first, supported := CloseGaps(keep, table);
    if supported {
      var closed := table.CloseRange(first, U32_MAX);
      if closed {
        return true;
      }
    }
    if table.kernel.softLimit.None? {
      return false;
    }
    CloseBelow(keep, table, UpperLimit(table.kernel.softLimit.value));
    ok := true;
  }

  /** `close_unexpected_fds`: for any list of descriptors, those from 3 up are kept, nothing below 3 is
      touched, and with a kernel that closes ranges everything else is closed. */
  method CloseUnexpectedFds(keep: seq<RawFd>, table: DescriptorTable) returns (ok: bool)
    requires table.calls == 0 && table.closed == {}
    modifies table
    ensures forall fd :: fd in table.closed ==> 3 <= fd <= U32_MAX && fd !in keep
    ensures (forall call: nat :: table.kernel.rangeAccepts(call)) ==>
              ok && forall fd :: 3 <= fd <= U32_MAX && fd !in keep ==> fd in table.closed
    ensures ok && table.kernel.softLimit.Some? ==>
              forall fd :: 3 <= fd < table.kernel.softLimit.value && fd < 0x7FFF_FFFF && fd !in keep ==> fd in table.closed
    ensures ok <==> AllAccepted(table.kernel.rangeAccepts, 0, table.calls) || table.kernel.softLimit.Some?
  {
    var filtered := FromThree(keep);
    FromThreeMembers(keep);
    var sorted := SortFds(filtered);
    SortFdsSorts(filtered);
    assert forall fd :: fd in sorted <==> fd in multiset(sorted);
    assert forall fd :: fd in filtered <==> fd in multiset(filtered);
    var kept := Dedup(sorted);
    DedupKeepsMembers(sorted);
    ok := CloseAround(kept, table);
    KeptStayOpen(kept, table.kernel);
    if forall call: nat :: table.kernel.rangeAccepts(call) {
      RangesCloseExactly(kept, table.kernel);
    }
  }

  ghost predicate SortedUpTo(keep: array<RawFd>, n: nat)
    requires n <= keep.Length
    reads keep
  {
    forall i, j :: 0 <= i < j < n ==> keep[i] <= keep[j]
  }

  method Swap(keep: array<RawFd>, i: nat, j: nat)
    requires i < j < keep.Length
    modifies keep
    ensures keep[i] == old(keep[j]) && keep[j] == old(keep[i])
    ensures forall k :: 0 <= k < keep.Length && k != i && k != j ==> keep[k] == old(keep[k])
    ensures multiset(keep[..]) == multiset(old(keep[..]))
  {
    keep[i], keep[j] := keep[j], keep[i];
  }

  /** Swap the descriptor at `index` down to its place among the sorted ones before it. */
  method Sink(keep: array<RawFd>, index: nat)
    requires index < keep.Length && SortedUpTo(keep, index)
    modifies keep
    ensures SortedUpTo(keep, index + 1)
    ensures multiset(keep[..]) == multiset(old(keep[..]))
  {
    var cursor := index;
    while cursor > 0 && keep[cursor - 1] > keep[cursor]
      invariant 0 <= cursor <= index
      invariant multiset(keep[..]) == multiset(old(keep[..]))
      invariant forall i, j :: 0 <= i < j <= index && j != cursor ==> keep[i] <= keep[j]
    {
      Swap(keep, cursor - 1, cursor);
      cursor := cursor - 1;
    }
  }

  /** The insertion sort of the after-fork closer. */
  method SortInPlace(keep: array<RawFd>)
    modifies keep
    ensures Sorted(keep[..]) && multiset(keep[..]) == multiset(old(keep[..]))
  {
    var index := 1;
    while index < keep.Length
      invariant 1 <= index && SortedUpTo(keep, if index < keep.Length then index else keep.Length)
      invariant multiset(keep[..]) == multiset(old(keep[..]))
    {
      Sink(keep, index);
      index := index + 1;
    }
  }

  /** `close_unexpected_fds_after_fork`: the descriptors are not filtered. None of them is closed if none
      is negative; if all are from 3 up the result is that of the other closer. */
  method CloseUnexpectedFdsAfterFork(keep: array<RawFd>, table: DescriptorTable) returns (ok: bool)
    requires table.calls == 0 && table.closed == {}
    modifies table, keep
    ensures multiset(keep[..]) == multiset(old(keep[..]))
    ensures (forall k :: k in keep[..] ==> k >= 0) ==>
              && (forall fd :: fd in table.closed ==> Meant(keep[..], 3, fd))
              && ((forall call: nat :: table.kernel.rangeAccepts(call)) ==>
                    ok && forall fd :: Meant(keep[..], 3, fd) ==> fd in table.closed)
    ensures (forall k :: k in keep[..] ==> k >= 3) ==> forall fd :: fd in table.closed ==> 3 <= fd <= U32_MAX && fd !in keep[..]
    ensures forall k :: k in keep[..] && k >= 3 ==>
              (k in table.closed <==> (exists n :: n in keep[..] && n < 0) && table.kernel.rangeAccepts(0))
    ensures ok <==> AllAccepted(table.kernel.rangeAccepts, 0, table.calls) || table.kernel.softLimit.Some?
  {
    SortInPlace(keep);
    var kept := keep[..];
    ok := CloseAround(kept, table);
    assert keep[..] == kept;
    if forall k :: k in kept ==> k >= 0 {
      KeptStayOpen(kept, table.kernel);
      if forall call: nat :: table.kernel.rangeAccepts(call) {
        RangesCloseExactly(kept, table.kernel);
      }
    }
    forall k | k in kept && k >= 3
      ensures k in table.closed <==> (exists n :: n in kept && n < 0) && table.kernel.rangeAccepts(0)
    {
      KeptClosedExactly(kept, table.kernel, k);
      assert kept[0] in kept;
    }
  }
}