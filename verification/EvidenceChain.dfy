/** The evidence records of one revision: numbered from one, each sealed by a hash and naming the
    hash of the record before it. */
module EvidenceChain {
  import opened Prelude
  import opened Ancestry

  type RecordHash = Record -> string

  /** `record_sha256` leaves the seal itself out of the hash. */
  function Seal(record: Record, hash: RecordHash): string {
    hash(record.(sha := Missing))
  }

  const GENESIS: string := "genesis"

  /** The printed form of a member; nothing for a missing one. */
  function Shown(field: Field): string {
    match field
    case Missing => ""
    case Text(s) => s
    case NotText(shown) => shown
  }

  /** Record i names the record before it and is sealed. */
  predicate Linked(records: seq<Record>, i: nat, hash: RecordHash)
    requires i < |records|
  {
    && records[i].previousSha == (if i == 0 then Text(GENESIS) else records[i - 1].sha)
    && records[i].sha == Text(Seal(records[i], hash))
  }

  ghost predicate RecordChain(records: seq<Record>, hash: RecordHash) {
    && (forall i :: 0 <= i < |records| ==> records[i].sequence == Some(i + 1))
    && forall i :: 0 <= i < |records| ==> Linked(records, i, hash)
  }

  datatype ChainError = SequenceError | LinkError(at: nat) | SealError(at: nat)

  /** What is reported about the first n records: a number that is not the place in the list counted from
      one, a link that is not the printed seal of the record before, a seal that does not fit. */
  predicate ChainFault(e: ChainError, records: seq<Record>, n: nat, hash: RecordHash)
    requires n <= |records|
  {
    match e
    case SequenceError => exists i :: 0 <= i < |records| && records[i].sequence != Some(i + 1)
    case LinkError(at) => at < n && records[at].previousSha != Text(if at == 0 then "genesis" else Shown(records[at - 1].sha))
    case SealError(at) => at < n && records[at].sha != Text(hash(records[at].(sha := Missing)))
  }

  lemma {:induction false} NoFaultIsChain(records: seq<Record>, hash: RecordHash)
    ensures (forall e :: !ChainFault(e, records, |records|, hash)) <==> RecordChain(records, hash)
  {
    if forall e :: !ChainFault(e, records, |records|, hash) {
      assert !ChainFault(SequenceError, records, |records|, hash);
      forall i | 0 <= i < |records|
        ensures Linked(records, i, hash)
      {
        assert !ChainFault(LinkError(i), records, |records|, hash) && !ChainFault(SealError(i), records, |records|, hash);
        assert i > 0 ==> !ChainFault(SealError(i - 1), records, |records|, hash);
      }
    }
    if RecordChain(records, hash) {
      forall e
        ensures !ChainFault(e, records, |records|, hash)
      {
        match e {
          case LinkError(at) =>
            assert at < |records| ==> Linked(records, at, hash) && (at > 0 ==> Linked(records, at - 1, hash));
          case SealError(at) => assert at < |records| ==> Linked(records, at, hash);
          case SequenceError =>
        }
      }
    }
  }

  /** The sequence check and the loop over the records of `_validate_evidence`. */
  method ValidateRecordChain(records: seq<Record>, hash: RecordHash) returns (errors: seq<ChainError>)
    ensures forall e :: e in errors <==> ChainFault(e, records, |records|, hash)
    ensures errors == [] <==> RecordChain(records, hash)
  {
    errors := [];
    if exists i :: 0 <= i < |records| && records[i].sequence != Some(i + 1) {
      errors := [SequenceError];
    }
    var previousHash := GENESIS;
    for i := 0 to |records|
      invariant previousHash == if i == 0 then GENESIS else Shown(records[i - 1].sha)
      invariant forall e :: e in errors <==> ChainFault(e, records, i, hash)
    {
      var record := records[i];
      if record.previousSha != Text(previousHash) {
        errors := errors + [LinkError(i)];
      }
      if record.sha != Text(Seal(record, hash)) {
        errors := errors + [SealError(i)];
      }
      previousHash := Shown(record.sha);
    }
    NoFaultIsChain(records, hash);
    if errors != [] {
      assert errors[0] in errors;
    }
  }

  // ---------- appending ----------

  /** The record as it stands after it was numbered, linked and sealed. */
  function Sealed(records: seq<Record>, record: Record, hash: RecordHash): Record {
    var numbered := record.(sequence := Some(|records| + 1),
                            previousSha := if records == [] then Text(GENESIS) else records[|records| - 1].sha);
    numbered.(sha := Text(Seal(numbered, hash)))
  }

  class EvidenceLog {
    const hash: RecordHash
    var records: seq<Record>

    ghost predicate Valid()
      reads this
    {
      RecordChain(records, hash)
    }

    constructor (hash: RecordHash)
      ensures Valid() && records == [] && this.hash == hash
    {
      this.hash, records := hash, [];
    }

    method Append(record: Record)
      requires Valid()
      modifies this`records
      ensures Valid() && records == old(records) + [Sealed(old(records), record, hash)]
    {
      var sealed := record.(sequence := Some(|records| + 1));
      sealed := sealed.(previousSha := if |records| > 0 then records[|records| - 1].sha else Text(GENESIS));
      sealed := sealed.(sha := Text(Seal(sealed, hash)));
      AppendKeepsChain(records, record, hash);
      records := records + [sealed];
    }
  }

  /** Appending to a valid chain gives a valid chain. */
  lemma {:induction false} AppendKeepsChain(records: seq<Record>, record: Record, hash: RecordHash)
    requires RecordChain(records, hash)
    ensures RecordChain(records + [Sealed(records, record, hash)], hash)
  {
    var longer := records + [Sealed(records, record, hash)];
    forall i | 0 <= i < |longer|
      ensures Linked(longer, i, hash)
    {
      if i < |records| {
        assert Linked(records, i, hash);
      }
    }
  }

  lemma {:induction false} ChainPrefix(records: seq<Record>, n: nat, hash: RecordHash)
    requires RecordChain(records, hash) && n <= |records|
    ensures RecordChain(records[..n], hash)
  {
    forall i | 0 <= i < n
      ensures Linked(records[..n], i, hash)
    {
      assert Linked(records, i, hash);
    }
  }

  function AppendAll(records: seq<Record>, added: seq<Record>, hash: RecordHash): seq<Record> {
    if added == [] then records
    else
      var before := AppendAll(records, added[..|added| - 1], hash);
      before + [Sealed(before, added[|added| - 1], hash)]
  }

  /** Every list grown by appending passes the checks and, if anything was added, properly extends the
      old one, as the ancestry of evidence revisions demands. */
  lemma {:induction false} AppendedChainsPass(records: seq<Record>, added: seq<Record>, hash: RecordHash)
    requires RecordChain(records, hash)
    ensures RecordChain(AppendAll(records, added, hash), hash)
    ensures |AppendAll(records, added, hash)| == |records| + |added|
    ensures records <= AppendAll(records, added, hash)
    ensures forall k :: 0 <= k < |added| ==>
              && AppendAll(records, added, hash)[|records| + k].evidenceId == added[k].evidenceId
              && AppendAll(records, added, hash)[|records| + k].body == added[k].body
    ensures added != [] ==> Extends(Records(records), Records(AppendAll(records, added, hash)))
  {
    if added != [] {
      AppendedChainsPass(records, added[..|added| - 1], hash);
      AppendKeepsChain(AppendAll(records, added[..|added| - 1], hash), added[|added| - 1], hash);
    }
  }

  // ---------- tamper evidence ----------

  /** The last seal fixes the whole list: two lists that pass the checks and end with the same seal
      are the same list. */
  lemma {:induction false} LastSealDeterminesRecords(a: seq<Record>, b: seq<Record>, hash: RecordHash)
    requires Injective(hash) && RecordChain(a, hash) && RecordChain(b, hash)
    requires a != [] && b != [] && a[|a| - 1].sha == b[|b| - 1].sha
    ensures a == b
    decreases |a|
  {
    var x, y := a[|a| - 1], b[|b| - 1];
    assert Linked(a, |a| - 1, hash) && Linked(b, |b| - 1, hash);
    assert hash(x.(sha := Missing)) == hash(y.(sha := Missing));
    assert x == y && |a| == |b|;
    var a', b' := a[..|a| - 1], b[..|b| - 1];
    if a' != [] {
      ChainPrefix(a, |a| - 1, hash);
      ChainPrefix(b, |b| - 1, hash);
      assert a'[|a'| - 1].sha == x.previousSha == y.previousSha == b'[|b'| - 1].sha;
      LastSealDeterminesRecords(a', b', hash);
    }
    assert a == a' + [x] && b == b' + [y];
  }

  /** Changing, dropping or swapping anything before the last record shows in the checks. */
  lemma {:induction false} TamperingShows(a: seq<Record>, b: seq<Record>, hash: RecordHash)
    requires Injective(hash) && RecordChain(a, hash)
    requires a != [] && b != [] && a[|a| - 1] == b[|b| - 1] && a != b
    ensures !RecordChain(b, hash)
  {
    if RecordChain(b, hash) {
      LastSealDeterminesRecords(a, b, hash);
    }
  }

  /** The whole refresh of an evidence revision: a successor of the accepted head whose records are
      the old ones with new ones appended is accepted, and its records pass the checks. */
  lemma {:induction false} RefreshIsAccepted(revs: seq<Revision>, id: string, path: string, stamped: nat, added: seq<Record>,
                          hash: Hash, recordHash: RecordHash)
    requires Accepted(revs, true, hash)
    requires id != "" && SafePath(Text(path)) && forall r :: r in revs ==> r.id != Text(id)
    requires var head := revs[|revs| - 1]; head.records.Records? && RecordChain(head.records.list, recordHash)
    ensures var head := revs[|revs| - 1];
            var grown := AppendAll(head.records.list, added, recordHash);
            var next := SuccessorRevision(head, id, path, stamped, hash).(records := Records(grown));
            && RecordChain(grown, recordHash)
            && (Accepted(revs + [next], true, hash) <==> added != [])
  {
    var head := revs[|revs| - 1];
    AppendedChainsPass(head.records.list, added, recordHash);
    SuccessorIsAccepted(revs, id, path, stamped, Records(AppendAll(head.records.list, added, recordHash)), true, hash);
  }
}
